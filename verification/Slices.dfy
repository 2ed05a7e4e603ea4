/** Go slices: a backing array and a live length. Two slices may share a backing
    array, and an append writes into spare capacity when there is any. All slices
    in the modelled code start at the beginning of their array. */
module Slices {
  import opened HostLists

  datatype Slice = Slice(buf: array<Host>, length: nat) {
    ghost predicate Valid() {
      length <= buf.Length
    }

    ghost function View(): seq<Host>
      requires Valid()
      reads buf
    {
      buf[..length]
    }
  }

  /** `make([]string, 0, capacity)`. */
  method Make(capacity: nat) returns (r: Slice)
    ensures r.Valid() && r.View() == [] && fresh(r.buf) && r.buf.Length == capacity
  {
    var buf := new Host[capacity];
    r := Slice(buf, 0);
  }

  /** `append(s, xs...)`. With room left, the cells after the live slice are
      overwritten in place; otherwise the list moves to a new array, whose
      capacity is any number that is large enough. */
  method Append(s: Slice, xs: seq<Host>) returns (r: Slice)
    requires s.Valid()
    modifies s.buf
    ensures r.Valid() && r.View() == old(s.View()) + xs
    ensures if s.length + |xs| <= s.buf.Length then r.buf == s.buf else fresh(r.buf)
    ensures s.View() == old(s.View())
  {
    var n := s.length + |xs|;
    if n <= s.buf.Length {
      forall k | s.length <= k < n { s.buf[k] := xs[k - s.length]; }
      r := Slice(s.buf, n);
    } else {
      var extra :| 0 <= extra;
      var buf := new Host[n + extra];
      forall k | 0 <= k < n { buf[k] := if k < s.length then s.buf[k] else xs[k - s.length]; }
      r := Slice(buf, n);
    }
  }

  /** `removeDuplicateElement`: the result has the capacity of its argument, so
      every duplicate that was dropped leaves a spare cell behind. */
  method RemoveDuplicateElement(target: Slice) returns (result: Slice)
    requires target.Valid()
    ensures result.Valid() && fresh(result.buf) && result.buf.Length == target.length
    ensures result.View() == Dedupe(target.View())
  {
    result := Make(target.length);
    var seen: set<Host> := {};
    ghost var view := target.View();
    for i := 0 to target.length
      invariant result.Valid() && fresh(result.buf) && result.buf.Length == target.length && result.length <= i
      invariant target.View() == view
      invariant result.View() == Dedupe(view[..i])
      invariant forall h :: h in seen <==> h in result.View()
    {
      var item := target.buf[i];
      assert view[..i + 1][..i] == view[..i] && view[i] == item;
      if item !in seen {
        seen := seen + {item};
        result := Append(result, [item]);
      }
    }
    assert view[..target.length] == view;
  }
}
