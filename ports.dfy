/** `Utility.GetAvailablePort`: the least port from `startingPort` on that no
    active TCP connection, TCP listener or UDP listener uses. The used ports
    are inputs; gathering them from the operating system is not modelled. */
module Ports {
  /** `UInt16.MaxValue`, the exclusive end of the scan. */
  const MaxPort := 65535

  /** The least port in [`start`, `MaxPort`) not in `used`, or 0 when every
      one of them is in use. */
  function LeastFree(used: seq<int>, start: int): (r: int)
    ensures (exists j :: start <= j < MaxPort && j !in used) ==>
      start <= r < MaxPort && r !in used && forall j :: start <= j < r ==> j in used
    ensures (forall j :: start <= j < MaxPort ==> j in used) ==> r == 0
    ensures r != MaxPort
    decreases MaxPort - start
  {
    if start >= MaxPort then 0
    else if start !in used then start
    else LeastFree(used, start + 1)
  }

  /** The least free port is determined by which ports are used. */
  lemma LeastFreeIs(used: seq<int>, start: int, r: int)
    requires start <= r < MaxPort && r !in used && forall j :: start <= j < r ==> j in used
    ensures LeastFree(used, start) == r
  {
    var s := LeastFree(used, start);
    assert start <= s < MaxPort && s !in used;
  }

  /** Two lists that use the same ports from `start` on have the same least
      free port. */
  lemma SameUse(a: seq<int>, b: seq<int>, start: int)
    requires forall j :: start <= j < MaxPort ==> (j in a <==> j in b)
    ensures LeastFree(a, start) == LeastFree(b, start)
  {
    if exists j :: start <= j < MaxPort && j !in a {
      var r := LeastFree(a, start);
      LeastFreeIs(b, start, r);
    }
  }

  /** `ports.Where(p => p >= start)`. */
  function AtLeast(ports: seq<int>, start: int): (r: seq<int>)
    ensures forall p :: p in r <==> p in ports && p >= start
  {
    if ports == [] then []
    else (if ports[0] >= start then [ports[0]] else []) + AtLeast(ports[1..], start)
  }

  /** Dropping the ports below `start` does not change the result. */
  lemma FilterKeepsResult(used: seq<int>, start: int)
    ensures LeastFree(AtLeast(used, start), start) == LeastFree(used, start)
  {
    SameUse(AtLeast(used, start), used, start);
  }

  /** Reordering the list does not change the result. */
  lemma OrderKeepsResult(a: seq<int>, b: seq<int>, start: int)
    requires multiset(a) == multiset(b)
    ensures LeastFree(a, start) == LeastFree(b, start)
  {
    forall j | start <= j < MaxPort
      ensures j in a <==> j in b
    {
      assert j in a <==> j in multiset(a);
      assert j in b <==> j in multiset(b);
    }
    SameUse(a, b, start);
  }

  predicate Sorted(s: seq<int>)
  {
    forall i, j :: 0 <= i < j < |s| ==> s[i] <= s[j]
  }

  /** `x` inserted into a sorted list before the first larger element. */
  function Insert(s: seq<int>, x: int): (r: seq<int>)
    requires Sorted(s)
    ensures Sorted(r) && multiset(r) == multiset(s) + multiset{x}
  {
    if s == [] || x <= s[0] then
      PrependSorted(x, s);
      [x] + s
    else
      var rest := Insert(s[1..], x);
      assert s == [s[0]] + s[1..];
      ConsSorted(s[0], s[1..], x, rest);
      [s[0]] + rest
  }

  lemma PrependSorted(x: int, s: seq<int>)
    requires Sorted(s) && (s == [] || x <= s[0])
    ensures Sorted([x] + s)
  {
    var r := [x] + s;
    forall i, j | 0 <= i < j < |r|
      ensures r[i] <= r[j]
    {
      assert r[j] == s[j - 1];
      if i > 0 { assert r[i] == s[i - 1]; } else { assert s[0] <= s[j - 1]; }
    }
  }

  /** A head no larger than anything behind it keeps a sorted list sorted. */
  lemma ConsSorted(h: int, t: seq<int>, x: int, rest: seq<int>)
    requires Sorted([h] + t) && h < x
    requires Sorted(rest) && multiset(rest) == multiset(t) + multiset{x}
    ensures Sorted([h] + rest)
  {
    forall k | 0 <= k < |rest|
      ensures h <= rest[k]
    {
      assert rest[k] in multiset(rest);
      if rest[k] != x {
        assert rest[k] in multiset(t);
        assert rest[k] in t;
        var j :| 0 <= j < |t| && t[j] == rest[k];
        assert ([h] + t)[0] == h && ([h] + t)[j + 1] == t[j];
      }
    }
    var r := [h] + rest;
    forall i, j | 0 <= i < j < |r|
      ensures r[i] <= r[j]
    {
      assert r[j] == rest[j - 1];
      if i > 0 { assert r[i] == rest[i - 1]; }
    }
  }

  /** `List<Int32>.Sort()`: the same ports in ascending order. */
  method Sort(s: seq<int>) returns (r: seq<int>)
    ensures Sorted(r) && multiset(r) == multiset(s)
  {
    r := [];
    for i := 0 to |s|
      invariant Sorted(r) && multiset(r) == multiset(s[..i])
    {
      r := Insert(r, s[i]);
      assert s[..i + 1] == s[..i] + [s[i]];
    }
    assert s[..|s|] == s;
  }

  /** The sorted list holds exactly the used ports from `start` on. */
  lemma Gathered(c: seq<int>, t: seq<int>, u: seq<int>, start: int, sorted: seq<int>)
    requires multiset(sorted) == multiset(AtLeast(c, start) + AtLeast(t, start) + AtLeast(u, start))
    ensures forall j :: j >= start ==> (j in sorted <==> j in c + t + u)
  {
    var gathered := AtLeast(c, start) + AtLeast(t, start) + AtLeast(u, start);
    forall j | j >= start
      ensures j in sorted <==> j in c + t + u
    {
      assert j in sorted <==> j in multiset(sorted);
      assert j in gathered <==> j in multiset(gathered);
    }
  }

  /** `GetAvailablePort(startingPort)` given the ports of the active TCP
      connections, TCP listeners and UDP listeners. */
  method GetAvailablePort(startingPort: int, connections: seq<int>, tcpListeners: seq<int>, udpListeners: seq<int>)
    returns (port: int)
    ensures port == LeastFree(connections + tcpListeners + udpListeners, startingPort)
  {
    var portArray := [];
    portArray := portArray + AtLeast(connections, startingPort);
    portArray := portArray + AtLeast(tcpListeners, startingPort);
    portArray := portArray + AtLeast(udpListeners, startingPort);
    portArray := Sort(portArray);
    Gathered(connections, tcpListeners, udpListeners, startingPort, portArray);
    port := Scan(portArray, startingPort);
    SameUse(portArray, connections + tcpListeners + udpListeners, startingPort);
  }

  /** The scan of `GetAvailablePort`: the first port from `start` on that
      `ports` does not contain (`List.Contains`), or 0. */
  method Scan(ports: seq<int>, start: int) returns (port: int)
    ensures port == LeastFree(ports, start)
  {
    var i := start;
    while i < MaxPort
      invariant forall j :: start <= j < i ==> j in ports
      decreases MaxPort - i
    {
      if i !in ports {
        LeastFreeIs(ports, start, i);
        return i;
      }
      i := i + 1;
    }
    return 0;
  }
}
