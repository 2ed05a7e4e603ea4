/** What the writers of `EgressHosts` compute, as functions on host lists. A list
    may hold duplicates, and the order that is stored is the order that ends up
    in the derived Sidecar. All functions recurse from the back, the way the
    loops build their results. */
module HostLists {
  import opened GoStrings

  type Host = string

  // ----- filtering -----

  /** The elements of `s` that are not listed, in order and with multiplicity. */
  function Without(s: seq<Host>, listed: seq<Host>): (r: seq<Host>)
    ensures |r| <= |s|
  {
    if s == [] then []
    else
      var last := s[|s| - 1];
      Without(s[..|s| - 1], listed) + (if last in listed then [] else [last])
  }

  lemma WithoutSnoc(s: seq<Host>, x: Host, listed: seq<Host>)
    ensures Without(s + [x], listed) == if x in listed then Without(s, listed) else Without(s, listed) + [x]
  {
    assert (s + [x])[..|s + [x]| - 1] == s;
  }

  lemma {:induction false} WithoutConcat(s: seq<Host>, t: seq<Host>, listed: seq<Host>)
    ensures Without(s + t, listed) == Without(s, listed) + Without(t, listed)
  {
    if t == [] {
      assert s + t == s;
    } else {
      var front := t[..|t| - 1];
      assert (s + t)[..|s + t| - 1] == s + front;
      WithoutConcat(s, front, listed);
    }
  }

  /** Filtering keeps every unlisted element with its multiplicity and nothing else. */
  lemma {:induction false} WithoutCounts(s: seq<Host>, listed: seq<Host>, h: Host)
    ensures multiset(Without(s, listed))[h] == if h in listed then 0 else multiset(s)[h]
    ensures h in Without(s, listed) <==> h in s && h !in listed
  {
    if s != [] {
      assert s == s[..|s| - 1] + [s[|s| - 1]];
      WithoutCounts(s[..|s| - 1], listed, h);
    }
    assert h in Without(s, listed) <==> multiset(Without(s, listed))[h] > 0;
    assert h in s <==> multiset(s)[h] > 0;
  }

  lemma {:induction false} WithoutNothing(s: seq<Host>, listed: seq<Host>)
    requires forall h :: h in s ==> h !in listed
    ensures Without(s, listed) == s
  {
    if s != [] {
      assert s == s[..|s| - 1] + [s[|s| - 1]];
      WithoutNothing(s[..|s| - 1], listed);
    }
  }

  /** Filtering by equal sets of listed hosts gives equal results. */
  lemma {:induction false} WithoutSameSet(s: seq<Host>, l1: seq<Host>, l2: seq<Host>)
    requires forall h :: h in s ==> (h in l1 <==> h in l2)
    ensures Without(s, l1) == Without(s, l2)
  {
    if s != [] {
      WithoutSameSet(s[..|s| - 1], l1, l2);
    }
  }

  /** The elements of `r` are those of `s` at the positions `at`, in order. */
  ghost predicate TakenFrom(r: seq<Host>, s: seq<Host>, at: seq<nat>)
  {
    && |at| == |r|
    && (forall i :: 0 <= i < |at| ==> at[i] < |s| && r[i] == s[at[i]])
    && (forall i, j :: 0 <= i < j < |at| ==> at[i] < at[j])
  }

  ghost predicate UnlistedAt(s: seq<Host>, listed: seq<Host>, at: seq<nat>)
  {
    forall k :: 0 <= k < |s| ==> (k in at <==> s[k] !in listed)
  }

  lemma TakenSnoc(r: seq<Host>, s: seq<Host>, at: seq<nat>, x: Host)
    requires TakenFrom(r, s, at)
    ensures TakenFrom(r, s + [x], at) && TakenFrom(r + [x], s + [x], at + [|s|])
  {
  }

  lemma UnlistedSnoc(s: seq<Host>, listed: seq<Host>, at: seq<nat>, x: Host)
    requires UnlistedAt(s, listed, at) && forall i :: 0 <= i < |at| ==> at[i] < |s|
    ensures UnlistedAt(s + [x], listed, if x in listed then at else at + [|s|])
  {
    assert |s| !in at;
  }

  /** Where the survivors are from: `at` lists the positions of the unlisted
      elements in increasing order. */
  lemma {:induction false} WithoutKeepsOrder(s: seq<Host>, listed: seq<Host>) returns (at: seq<nat>)
    ensures TakenFrom(Without(s, listed), s, at) && UnlistedAt(s, listed, at)
  {
    if s == [] {
      at := [];
    } else {
      var front, x := s[..|s| - 1], s[|s| - 1];
      at := WithoutKeepsOrder(front, listed);
      TakenSnoc(Without(front, listed), front, at, x);
      UnlistedSnoc(front, listed, at, x);
      assert s == front + [x];
      at := if x in listed then at else at + [|front|];
    }
  }

  // ----- sorting -----

  predicate Sorted(s: seq<Host>)
  {
    forall i, j :: 0 <= i < j < |s| ==> Leq(s[i], s[j])
  }

  /** The number of leading elements below `x`: where `sort.SearchStrings` lands. */
  function LowerBound(s: seq<Host>, x: Host): (i: nat)
    ensures i <= |s| && (i < |s| ==> !Less(s[i], x))
    ensures forall k :: 0 <= k < i ==> Less(s[k], x)
  {
    if s == [] || !Less(s[0], x) then 0 else 1 + LowerBound(s[1..], x)
  }

  function Insert(s: seq<Host>, x: Host): seq<Host>
  {
    var i := LowerBound(s, x);
    s[..i] + [x] + s[i..]
  }

  function Sort(s: seq<Host>): (r: seq<Host>)
    ensures |r| == |s|
  {
    if s == [] then [] else Insert(Sort(s[..|s| - 1]), s[|s| - 1])
  }

  lemma InsertCounts(s: seq<Host>, x: Host)
    ensures multiset(Insert(s, x)) == multiset(s) + multiset{x}
  {
    var i := LowerBound(s, x);
    assert s == s[..i] + s[i..];
  }

  lemma InsertSorted(s: seq<Host>, x: Host)
    requires Sorted(s)
    ensures Sorted(Insert(s, x))
  {
    var i, r := LowerBound(s, x), Insert(s, x);
    forall a, b | 0 <= a < b < |r| ensures Leq(r[a], r[b]) {
      if b == i {
        LessTotal(s[a], x);
      } else if a == i {
        if b > i + 1 {
          LeqTransitive(x, s[i], s[b - 1]);
        }
      } else {
        assert r[a] == s[if a < i then a else a - 1] && r[b] == s[if b < i then b else b - 1];
      }
    }
  }

  /** `sort.Strings` leaves a sorted permutation. */
  lemma {:induction false} SortSorts(s: seq<Host>)
    ensures Sorted(Sort(s)) && multiset(Sort(s)) == multiset(s)
    ensures forall h :: h in Sort(s) <==> h in s
  {
    if s != [] {
      SortSorts(s[..|s| - 1]);
      InsertSorted(Sort(s[..|s| - 1]), s[|s| - 1]);
      InsertCounts(Sort(s[..|s| - 1]), s[|s| - 1]);
      assert s == s[..|s| - 1] + [s[|s| - 1]];
    }
    forall h ensures h in Sort(s) <==> h in s {
      assert h in Sort(s) <==> multiset(Sort(s))[h] > 0;
      assert h in s <==> multiset(s)[h] > 0;
    }
  }

  lemma HeadIsLeast(s: seq<Host>, x: Host)
    requires Sorted(s) && x in s
    ensures Leq(s[0], x)
  {
    LessTotal(x, x);
  }

  /** There is only one sorted permutation, so any correct sort gives `Sort(s)`. */
  lemma {:induction false} SortedPermutationUnique(a: seq<Host>, b: seq<Host>)
    requires Sorted(a) && Sorted(b) && multiset(a) == multiset(b)
    ensures a == b
  {
    assert |a| == |multiset(a)| == |multiset(b)| == |b|;
    if a != [] {
      assert a[0] in multiset(b) && b[0] in multiset(a);
      HeadIsLeast(a, b[0]);
      HeadIsLeast(b, a[0]);
      LessTotal(a[0], b[0]);
      assert a == [a[0]] + a[1..] && b == [b[0]] + b[1..];
      assert multiset(a[1..]) == multiset(a) - multiset{a[0]};
      SortedPermutationUnique(a[1..], b[1..]);
    }
  }

  /** On a sorted list the binary-search test is true membership. */
  lemma SearchIsMembership(s: seq<Host>, x: Host)
    requires Sorted(s)
    ensures var i := LowerBound(s, x); (i < |s| && s[i] == x) <==> x in s
  {
    var i := LowerBound(s, x);
    if x in s {
      var k :| 0 <= k < |s| && s[k] == x;
      LessTotal(x, x);
      assert i <= k;
      if i < k {
        LessTotal(s[i], x);
      }
    }
  }

  // ----- duplicates -----

  predicate NoDuplicates(s: seq<Host>)
  {
    forall i, j :: 0 <= i < j < |s| ==> s[i] != s[j]
  }

  /** The first occurrences in order, as `removeDuplicateElement` keeps them. */
  function Dedupe(s: seq<Host>): seq<Host>
  {
    if s == [] then []
    else
      var d := Dedupe(s[..|s| - 1]);
      if s[|s| - 1] in d then d else d + [s[|s| - 1]]
  }

  lemma {:induction false} IndexOfConcat(s: seq<Host>, t: seq<Host>, h: Host)
    ensures IndexOf(s + t, h) == if h in s then IndexOf(s, h) else |s| + IndexOf(t, h)
  {
    if s == [] {
      assert s + t == t;
    } else if s[0] != h {
      assert (s + t)[1..] == s[1..] + t;
      IndexOfConcat(s[1..], t, h);
    }
  }

  /** Deduplication keeps the set, drops every repetition, and orders what is
      left by first occurrence. The three together determine the result. */
  lemma {:induction false} DedupeKeepsFirst(s: seq<Host>)
    ensures NoDuplicates(Dedupe(s))
    ensures forall h :: h in Dedupe(s) <==> h in s
    ensures forall i, j :: 0 <= i < j < |Dedupe(s)| ==> IndexOf(s, Dedupe(s)[i]) < IndexOf(s, Dedupe(s)[j])
  {
    if s != [] {
      var front, last := s[..|s| - 1], s[|s| - 1];
      assert s == front + [last];
      DedupeKeepsFirst(front);
      forall h ensures IndexOf(s, h) == if h in front then IndexOf(front, h) else |front| + IndexOf([last], h) {
        IndexOfConcat(front, [last], h);
      }
    }
  }

  /** ... determine it: another list with the same three properties is the same list. */
  lemma {:induction false} FirstOccurrencesUnique(s: seq<Host>, d: seq<Host>, e: seq<Host>)
    requires forall h :: h in d <==> h in e
    requires forall i, j :: 0 <= i < j < |d| ==> IndexOf(s, d[i]) < IndexOf(s, d[j])
    requires forall i, j :: 0 <= i < j < |e| ==> IndexOf(s, e[i]) < IndexOf(s, e[j])
    ensures d == e
  {
    assert e != [] ==> e[0] in d;
    if d != [] {
      assert d[0] in e;
      var i :| 0 <= i < |e| && e[i] == d[0];
      var j :| 0 <= j < |d| && d[j] == e[0];
      assert d[0] == e[0];
      assert d == [d[0]] + d[1..] && e == [e[0]] + e[1..];
      forall h ensures h in d[1..] <==> h in e[1..] {
        assert h in d <==> h == d[0] || h in d[1..];
        assert h in e <==> h == e[0] || h in e[1..];
      }
      FirstOccurrencesUnique(s, d[1..], e[1..]);
    }
  }

  lemma {:induction false} DedupeNoDuplicates(s: seq<Host>)
    requires NoDuplicates(s)
    ensures Dedupe(s) == s
  {
    if s != [] {
      DedupeNoDuplicates(s[..|s| - 1]);
      assert s == s[..|s| - 1] + [s[|s| - 1]];
    }
  }

  /** Two passes of deduplication equal one pass over the concatenation. */
  lemma {:induction false} DedupeTwice(s: seq<Host>, t: seq<Host>)
    ensures Dedupe(Dedupe(s) + t) == Dedupe(s + t)
  {
    if t == [] {
      DedupeKeepsFirst(s);
      DedupeNoDuplicates(Dedupe(s));
      assert Dedupe(s) + t == Dedupe(s) && s + t == s;
    } else {
      var front := t[..|t| - 1];
      assert (s + t)[..|s + t| - 1] == s + front;
      assert (Dedupe(s) + t)[..|Dedupe(s) + t| - 1] == Dedupe(s) + front;
      DedupeTwice(s, front);
    }
  }

  /** Appending what is already there changes nothing. */
  lemma {:induction false} DedupeAbsorbs(s: seq<Host>, t: seq<Host>)
    requires forall h :: h in t ==> h in s
    ensures Dedupe(s + t) == Dedupe(s)
  {
    if t == [] {
      assert s + t == s;
    } else {
      var front := t[..|t| - 1];
      assert (s + t)[..|s + t| - 1] == s + front;
      DedupeAbsorbs(s, front);
      DedupeKeepsFirst(s);
      assert t[|t| - 1] in s;
    }
  }

  lemma DedupeOnce(s: seq<Host>, t: seq<Host>)
    ensures Dedupe(Dedupe(s + t) + t) == Dedupe(s + t)
  {
    DedupeTwice(s + t, t);
    DedupeAbsorbs(s + t, t);
  }

  /** Filtering commutes with deduplication. */
  lemma {:induction false} DedupeWithout(s: seq<Host>, listed: seq<Host>)
    ensures Without(Dedupe(s), listed) == Dedupe(Without(s, listed))
  {
    if s != [] {
      var front, last := s[..|s| - 1], s[|s| - 1];
      DedupeWithout(front, listed);
      DedupeKeepsFirst(front);
      DedupeKeepsFirst(Without(front, listed));
      WithoutCounts(front, listed, last);
      var d := Dedupe(front);
      if last !in d {
        WithoutConcat(d, [last], listed);
      }
      if last !in listed {
        var w := Without(front, listed);
        assert (w + [last])[..|w + [last]| - 1] == w;
      } else {
        assert Without(front, listed) + [] == Without(front, listed);
      }
    }
  }

  // ----- what the writers store -----

  /** `GetNewHosts` followed by the append of lines 142-145: the list is sorted
      in memory, but only stored when something is added. */
  function AddMissing(stored: seq<Host>, hosts: seq<Host>): seq<Host>
  {
    var newHosts := Without(hosts, stored);
    if newHosts == [] then stored else Sort(stored) + newHosts
  }

  /** What `syncLazySidecar` stores for one reported host. */
  function AppendIfAbsent(stored: seq<Host>, host: Host): seq<Host>
  {
    if host in stored then stored else stored + [host]
  }

  /** Adding keeps every stored entry with its multiplicity, and a missing host
      arrives as often as it was offered. */
  lemma AddMissingCounts(stored: seq<Host>, hosts: seq<Host>, h: Host)
    ensures multiset(AddMissing(stored, hosts))[h]
         == if h in stored then multiset(stored)[h] else multiset(hosts)[h]
    ensures h in AddMissing(stored, hosts) <==> h in stored || h in hosts
  {
    WithoutCounts(hosts, stored, h);
    SortSorts(stored);
    var r := AddMissing(stored, hosts);
    assert h in r <==> multiset(r)[h] > 0;
    assert h in stored <==> multiset(stored)[h] > 0;
    assert h in hosts <==> multiset(hosts)[h] > 0;
  }

  /** A second call with the same hosts adds nothing: `GetNewHosts` returns the
      empty list, and the stored list stays as it is. */
  lemma AddMissingAgain(stored: seq<Host>, hosts: seq<Host>)
    ensures Without(hosts, AddMissing(stored, hosts)) == []
    ensures AddMissing(AddMissing(stored, hosts), hosts) == AddMissing(stored, hosts)
  {
    var r := AddMissing(stored, hosts);
    var again := Without(hosts, r);
    if again != [] {
      WithoutCounts(hosts, r, again[0]);
      AddMissingCounts(stored, hosts, again[0]);
    }
  }

  lemma AddMissingLonger(stored: seq<Host>, hosts: seq<Host>)
    ensures AddMissing(stored, hosts) == stored <==> Without(hosts, stored) == []
  {
    assert |AddMissing(stored, hosts)| == |stored| + |Without(hosts, stored)|;
  }

  /** Nothing is written exactly when every host is stored already. */
  lemma AddMissingUnchanged(stored: seq<Host>, hosts: seq<Host>)
    ensures AddMissing(stored, hosts) == stored <==> forall h :: h in hosts ==> h in stored
  {
    forall h ensures h in AddMissing(stored, hosts) <==> h in stored || h in hosts {
      AddMissingCounts(stored, hosts, h);
    }
    if forall h :: h in hosts ==> h in stored {
      var newHosts := Without(hosts, stored);
      if newHosts != [] {
        WithoutCounts(hosts, stored, newHosts[0]);
      }
    }
  }

  /** The stored list itself: as it was when nothing is missing, or else sorted,
      with the missing hosts after it in the order they were offered. */
  lemma AddMissingExactly(stored: seq<Host>, hosts: seq<Host>)
    ensures (forall h :: h in hosts ==> h in stored) ==> AddMissing(stored, hosts) == stored
    ensures (exists h :: h in hosts && h !in stored) ==>
              var r := AddMissing(stored, hosts);
              && |stored| < |r|
              && Sorted(r[..|stored|]) && multiset(r[..|stored|]) == multiset(stored)
              && r[|stored|..] == Without(hosts, stored)
  {
    AddMissingUnchanged(stored, hosts);
    SortSorts(stored);
    if h :| h in hosts && h !in stored {
      WithoutCounts(hosts, stored, h);
      assert AddMissing(stored, hosts)[..|stored|] == Sort(stored);
    }
  }

  /** The law of a ServiceEntry update, which removes the old hosts and then adds
      the new ones: the set becomes `(E - old) + new`, entries outside both
      lists are conserved, and a host that was stored and is only in the new
      list keeps its multiplicity. A host in both lists, or a new one, ends up
      as often as the new list names it. */
  lemma UpdateLaw(stored: seq<Host>, oldHosts: seq<Host>, newHosts: seq<Host>, h: Host)
    ensures var r := AddMissing(Without(stored, oldHosts), newHosts);
            && (h in r <==> (h in stored && h !in oldHosts) || h in newHosts)
            && multiset(r)[h] == if h in stored && h !in oldHosts then multiset(stored)[h] else multiset(newHosts)[h]
  {
    WithoutCounts(stored, oldHosts, h);
    AddMissingCounts(Without(stored, oldHosts), newHosts, h);
  }
}
