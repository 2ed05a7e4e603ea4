/** The in-place list algorithms, each proved against its function in HostLists. */
module ListKernels {
  import opened GoStrings
  import opened HostLists

  /** `sort.Strings`: an insertion sort that meets its contract. */
  method SortStrings(a: array<Host>)
    modifies a
    ensures a[..] == Sort(old(a[..]))
  {
    ghost var was := a[..];
    for i := 0 to a.Length
      invariant a[..i] == Sort(was[..i])
      invariant a[i..] == was[i..]
    {
      SortSorts(was[..i]);
      assert was[..i + 1][..i] == was[..i];
      assert a[i] == a[i..][0] == was[i];
      assert was[i + 1..] == a[i..][1..] == a[i + 1..];
      InsertNext(a, i);
    }
    assert a[..] == a[..a.Length] && was == was[..a.Length];
  }

  /** Moves `a[i]` to its place in the sorted front. */
  method InsertNext(a: array<Host>, i: nat)
    requires i < a.Length && Sorted(a[..i])
    modifies a
    ensures a[..i + 1] == Insert(old(a[..i]), old(a[i]))
    ensures a[i + 1..] == old(a[i + 1..])
  {
    var x := a[i];
    var p := i;
    while p > 0 && !Less(a[p - 1], x)
      invariant p <= i && forall k :: p <= k < i ==> !Less(a[..i][k], x)
    {
      p := p - 1;
      assert a[..i][p] == a[p];
    }
    assert p > 0 ==> a[..i][p - 1] == a[p - 1];
    InsertionPoint(a[..i], x, p);
    PlaceAt(a, p, i, x);
  }

  /** Overwrites `a[i]` after moving `a[p..i]` right, so that `x` lands at `p`. */
  method PlaceAt(a: array<Host>, p: nat, i: nat, x: Host)
    requires p <= i < a.Length
    modifies a
    ensures a[..i + 1] == old(a[..i])[..p] + [x] + old(a[..i])[p..]
    ensures a[i + 1..] == old(a[i + 1..])
  {
    forall k | p < k <= i { a[k] := a[k - 1]; }
    a[p] := x;
  }

  lemma InsertionPoint(s: seq<Host>, x: Host, p: nat)
    requires Sorted(s) && p <= |s|
    requires forall k :: p <= k < |s| ==> !Less(s[k], x)
    requires p > 0 ==> Less(s[p - 1], x)
    ensures LowerBound(s, x) == p
  {
    var i := LowerBound(s, x);
    if i < p {
      LessTotal(s[i], x);
      LeqTransitive(x, s[i], s[p - 1]);
    }
  }

  /** `sort.SearchStrings`: the smallest index whose element is not below `x`. */
  method SearchStrings(a: array<Host>, x: Host) returns (i: nat)
    requires Sorted(a[..])
    ensures i == LowerBound(a[..], x)
  {
    i := 0;
    var j := a.Length;
    while i < j
      invariant i <= j <= a.Length
      invariant i > 0 ==> Less(a[i - 1], x)
      invariant j < a.Length ==> !Less(a[j], x)
    {
      var h := (i + j) / 2;
      if Less(a[h], x) {
        i := h + 1;
      } else {
        j := h;
      }
    }
    forall k | i <= k < a.Length ensures !Less(a[k], x) {
      if k > i {
        LeqTransitive(x, a[i], a[k]);
      }
    }
    InsertionPoint(a[..], x, i);
  }

  /** `GetNewHosts`: the stored list becomes its sorted permutation, and the
      result is the subsequence of `hosts` that was not stored. */
  method GetNewHosts(egressHosts: array<Host>, hosts: seq<Host>) returns (newHosts: seq<Host>)
    modifies egressHosts
    ensures egressHosts[..] == Sort(old(egressHosts[..]))
    ensures newHosts == Without(hosts, old(egressHosts[..]))
  {
    ghost var was := egressHosts[..];
    SortStrings(egressHosts);
    SortSorts(was);
    newHosts := [];
    for i := 0 to |hosts|
      invariant egressHosts[..] == Sort(was)
      invariant newHosts == Without(hosts[..i], was)
    {
      var host := hosts[i];
      var index := SearchStrings(egressHosts, host);
      SearchIsMembership(egressHosts[..], host);
      assert hosts[..i + 1] == hosts[..i] + [host];
      WithoutSnoc(hosts[..i], host, was);
      if index < egressHosts.Length && egressHosts[index] == host {
        continue;
      } else {
        newHosts := newHosts + [host];
      }
    }
    assert hosts[..|hosts|] == hosts;
  }

  /** The slice expression `append(s[:i], s[i+1:]...)` on a live slice of length
      `n`: the tail moves left by one inside the same backing array. */
  method RemoveAt(buf: array<Host>, n: nat, i: nat)
    requires i < n <= buf.Length
    modifies buf
    ensures buf[..n - 1] == old(buf[..i]) + old(buf[i + 1..n])
    ensures buf[n..] == old(buf[n..])
  {
    forall k | i <= k < n - 1 { buf[k] := buf[k + 1]; }
  }

  method RemoveLive(buf: array<Host>, length: nat, n: nat, i: nat)
    requires i < n <= length <= buf.Length
    modifies buf
    ensures buf[..n - 1] == old(buf[..n])[..i] + old(buf[..n])[i + 1..]
    ensures buf[length..] == old(buf[length..])
  {
    ghost var beyond := buf[n..];
    RemoveAt(buf, n, i);
    assert buf[length..] == buf[n..][length - n..] == beyond[length - n..];
  }

  /** One decision of the deletion loop on the live list `kept + rest`, of
      which `rest` has not been looked at. */
  lemma CutAtHead(kept: seq<Host>, rest: seq<Host>)
    requires rest != []
    ensures var live := kept + rest;
            && live[|kept|] == rest[0]
            && live[..|kept|] + live[|kept| + 1..] == kept + rest[1..]
            && live == (kept + [rest[0]]) + rest[1..]
  {
    assert rest == [rest[0]] + rest[1..];
  }

  /** The deletion loop shared by `ReconcileCsmLazySidecarRemoveHosts` and
      `RemoveDeriveSidecarHosts`: `buf[..length]` is the live slice on entry and
      `buf[..n]` on exit. Cells past the live slice are not touched. */
  method DeleteListed(buf: array<Host>, length: nat, handled: array<Host>) returns (n: nat)
    requires length <= buf.Length && buf != handled
    requires Sorted(handled[..])
    modifies buf
    ensures n <= length
    ensures buf[..n] == Without(old(buf[..length]), handled[..])
    ensures buf[length..] == old(buf[length..])
  {
    ghost var listed, beyond := handled[..], buf[length..];
    ghost var front, rest, kept: seq<Host> := [], buf[..length], [];
    n := length;
    var i := 0;
    while i < n
      invariant i == |kept| && n == |kept| + |rest| <= length
      invariant front + rest == old(buf[..length]) && kept == Without(front, listed)
      invariant buf[..n] == kept + rest && buf[length..] == beyond
      decreases n - i
    {
      CutAtHead(kept, rest);
      var host := buf[i];
      assert host == buf[..n][i] == rest[0];
      SearchIsMembership(listed, host);
      WithoutSnoc(front, host, listed);
      var index := SearchStrings(handled, host);
      if index < handled.Length && handled[index] == host {
        RemoveLive(buf, length, n, i);
        n := n - 1;
      } else {
        i := i + 1;
        kept := kept + [host];
      }
      CutAtHead(front, rest);
      front, rest := front + [host], rest[1..];
    }
    assert rest == [] && front + rest == front && kept + rest == kept;
  }
}
