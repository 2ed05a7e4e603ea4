/** The parts of Go's `strings` and `sort` packages the operator relies on.

    Go orders strings bytewise. For UTF-8 that is the order of code points, so
    strings are compared here character by character. Dafny's own `<=` on
    sequences is the prefix order and is not used. */
module GoStrings {

  // ----- bytewise lexicographic order -----

  predicate Less(a: string, b: string)
  {
    b != [] && (a == [] || a[0] < b[0] || (a[0] == b[0] && Less(a[1..], b[1..])))
  }

  predicate Leq(a: string, b: string)
  {
    !Less(b, a)
  }

  /** Exactly one of `a < b`, `b < a` and `a == b` holds. */
  lemma {:induction false} LessTotal(a: string, b: string)
    ensures Less(a, b) || Less(b, a) || a == b
    ensures Less(a, b) ==> !Less(b, a) && a != b
  {
    if a != [] && b != [] && a[0] == b[0] {
      LessTotal(a[1..], b[1..]);
      assert a == [a[0]] + a[1..] && b == [b[0]] + b[1..];
    }
  }

  lemma {:induction false} LessTransitive(a: string, b: string, c: string)
    requires Less(a, b) && Less(b, c)
    ensures Less(a, c)
  {
    if a != [] && a[0] == b[0] && b[0] == c[0] {
      LessTransitive(a[1..], b[1..], c[1..]);
    }
  }

  lemma LeqTransitive(a: string, b: string, c: string)
    requires Leq(a, b) && Leq(b, c)
    ensures Leq(a, c)
  {
    if Less(c, a) {
      LessTotal(a, b);
      LessTotal(b, c);
      if a != b {
        LessTransitive(c, a, b);
      }
    }
  }

  /** The strings are equal up to `k`, and there one ends or they differ. */
  ghost predicate DiffersAt(a: string, b: string, k: nat)
  {
    k <= |a| && k <= |b| && a[..k] == b[..k] && (k < |a| && k < |b| ==> a[k] != b[k]) && (k < |a| || k < |b|)
  }

  /** What the order is: at the first place where two strings differ the smaller
      character decides, and a proper prefix comes first. */
  lemma {:induction false} LessExactly(a: string, b: string) returns (k: nat)
    requires a != b
    ensures DiffersAt(a, b, k)
    ensures Less(a, b) <==> k == |a| || (k < |b| && a[k] < b[k])
  {
    if a != [] && b != [] && a[0] == b[0] {
      assert a == [a[0]] + a[1..] && b == [b[0]] + b[1..];
      k := LessExactly(a[1..], b[1..]);
      assert a[..k + 1] == [a[0]] + a[1..][..k] && b[..k + 1] == [b[0]] + b[1..][..k];
      k := k + 1;
    } else {
      k := 0;
    }
  }

  // ----- splitting and trimming -----

  /** The index of the first `c` in `s`, or `|s|` when there is none. */
  function IndexOf<T(==)>(s: seq<T>, c: T): (i: nat)
    ensures i <= |s| && (i < |s| ==> s[i] == c)
    ensures forall k :: 0 <= k < i ==> s[k] != c
  {
    if s == [] || s[0] == c then 0 else 1 + IndexOf(s[1..], c)
  }

  /** `strings.Split` for a one-character separator. */
  function Split(s: string, c: char): (parts: seq<string>)
    ensures |parts| > 0
    ensures parts[0] == s[..IndexOf(s, c)]
    ensures |parts| == 1 <==> c !in s
  {
    var i := IndexOf(s, c);
    if i == |s| then
      assert s[..i] == s;
      [s]
    else
      [s[..i]] + Split(s[i + 1..], c)
  }

  /** The parts with separators between them. */
  function Join(parts: seq<string>, c: char): string
  {
    if parts == [] then "" else if |parts| == 1 then parts[0] else parts[0] + [c] + Join(parts[1..], c)
  }

  lemma CutAt(s: string, i: nat)
    requires i < |s|
    ensures s == s[..i] + [s[i]] + s[i + 1..]
  {
  }

  /** Splitting is the inverse of joining parts that hold no separator. */
  lemma {:induction false} SplitExactly(s: string, c: char)
    ensures Join(Split(s, c), c) == s
    ensures forall k :: 0 <= k < |Split(s, c)| ==> c !in Split(s, c)[k]
    decreases |s|
  {
    var i := IndexOf(s, c);
    if i < |s| {
      SplitExactly(s[i + 1..], c);
      JoinMore(s[..i], Split(s[i + 1..], c), c);
      CutAt(s, i);
    } else {
      assert Split(s, c) == [s];
    }
  }

  lemma JoinMore(first: string, rest: seq<string>, c: char)
    requires rest != []
    ensures Join([first] + rest, c) == first + [c] + Join(rest, c)
  {
    assert ([first] + rest)[1..] == rest;
  }

  lemma SplitFirst(s: string, c: char, t: string)
    requires c !in s
    ensures Split(s + [c] + t, c) == [s] + Split(t, c)
  {
    var whole := s + [c] + t;
    var i := IndexOf(whole, c);
    assert whole[|s|] == c;
    assert i == |s|;
    assert whole[..i] == s && whole[i + 1..] == t;
  }

  /** The last part is what follows the last separator. */
  lemma {:induction false} SplitLast(s: string, c: char, t: string)
    requires c !in t
    ensures var parts := Split(s + [c] + t, c); |parts| > 1 && parts[|parts| - 1] == t
    decreases |s|
  {
    if c !in s {
      SplitFirst(s, c, t);
      assert IndexOf(t, c) == |t|;
    } else {
      var i := IndexOf(s, c);
      var rest := s[i + 1..] + [c] + t;
      assert s + [c] + t == s[..i] + [c] + rest;
      SplitFirst(s[..i], c, rest);
      SplitLast(s[i + 1..], c, t);
    }
  }

  /** A string with a separator in it, cut at the last one. */
  lemma {:induction false} LastSeparator(s: string, c: char) returns (k: nat)
    requires c in s
    ensures k < |s| && s[k] == c && c !in s[k + 1..]
    ensures s == s[..k] + [c] + s[k + 1..]
  {
    k := |s| - 1;
    while s[k] != c
      invariant k < |s| && c !in s[k + 1..]
      invariant c in s[..k + 1]
      decreases k
    {
      assert s[..k + 1] == s[..k] + [s[k]];
      assert s[k..] == [s[k]] + s[k + 1..];
      k := k - 1;
    }
  }

  function TrimLeft(s: string, c: char): (t: string)
    ensures |t| <= |s| && t == s[|s| - |t|..]
    ensures t == [] || t[0] != c
    ensures forall i :: 0 <= i < |s| - |t| ==> s[i] == c
  {
    if s != [] && s[0] == c then TrimLeft(s[1..], c) else s
  }

  function TrimRight(s: string, c: char): (t: string)
    ensures t <= s
    ensures t == [] || t[|t| - 1] != c
    ensures forall i :: |t| <= i < |s| ==> s[i] == c
  {
    if s != [] && s[|s| - 1] == c then TrimRight(s[..|s| - 1], c) else s
  }

  /** `strings.Trim` for a one-character cutset. */
  function Trim(s: string, c: char): string
  {
    TrimRight(TrimLeft(s, c), c)
  }

  lemma TrimClean(s: string, c: char)
    requires s == [] || (s[0] != c && s[|s| - 1] != c)
    ensures Trim(s, c) == s
  {
  }

  /** Trimming removes only separators, and all of them, at both ends. */
  lemma TrimEnds(s: string, c: char)
    ensures var t := Trim(s, c);
            && (t == [] || (t[0] != c && t[|t| - 1] != c))
            && (forall x :: x in t ==> x in s)
  {
    var l := TrimLeft(s, c);
    forall x | x in Trim(s, c) ensures x in s {
      assert x in l;
    }
  }

  ghost predicate All(s: string, c: char)
  {
    forall i :: 0 <= i < |s| ==> s[i] == c
  }

  /** What is trimmed off are separators, and what is left starts and ends with
      something else. */
  lemma TrimExactly(s: string, c: char) returns (l: string, r: string)
    ensures s == l + Trim(s, c) + r && All(l, c) && All(r, c)
    ensures var t := Trim(s, c); t == "" || (t[0] != c && t[|t| - 1] != c)
  {
    var left := TrimLeft(s, c);
    l := s[..|s| - |left|];
    r := left[|TrimRight(left, c)|..];
    TrimEnds(s, c);
    ThreeParts(s, l, TrimRight(left, c), r);
  }

  lemma ThreeParts(s: string, l: string, t: string, r: string)
    requires |l| <= |s| && s[..|l|] == l && t <= s[|l|..] && r == s[|l|..][|t|..]
    ensures s == l + t + r
  {
    assert s[|l|..] == t + r;
  }

  function TrimSuffix(s: string, suffix: string): string
  {
    if |suffix| <= |s| && s[|s| - |suffix|..] == suffix then s[..|s| - |suffix|] else s
  }

  // ----- case folding and white space -----

  /** Simple case folding of one character. Besides ASCII letters the only
      characters that fold to an ASCII letter are U+017F and U+212A, so this is
      `strings.EqualFold` exactly whenever one side is ASCII. */
  function FoldChar(c: char): char
  {
    if 'A' <= c <= 'Z' then (c as int + 32) as char
    else if c == '\U{017F}' then 's'
    else if c == '\U{212A}' then 'k'
    else c
  }

  function Fold(s: string): (r: string)
    ensures |r| == |s| && forall i :: 0 <= i < |s| ==> r[i] == FoldChar(s[i])
  {
    seq(|s|, i requires 0 <= i < |s| => FoldChar(s[i]))
  }

  predicate EqualFold(a: string, b: string)
  {
    Fold(a) == Fold(b)
  }

  predicate IsSpace(c: char)
  {
    || '\t' <= c <= '\r' || c == ' '
    || c == '\U{85}' || c == '\U{A0}' || c == '\U{1680}'
    || '\U{2000}' <= c <= '\U{200A}'
    || c == '\U{2028}' || c == '\U{2029}' || c == '\U{202F}' || c == '\U{205F}' || c == '\U{3000}'
  }

  function TrimSpaceLeft(s: string): string
  {
    if s != [] && IsSpace(s[0]) then TrimSpaceLeft(s[1..]) else s
  }

  function TrimSpaceRight(s: string): string
  {
    if s != [] && IsSpace(s[|s| - 1]) then TrimSpaceRight(s[..|s| - 1]) else s
  }

  function TrimSpace(s: string): string
  {
    TrimSpaceRight(TrimSpaceLeft(s))
  }

  /** Letters differ by case only if they are 32 apart, and no other ASCII
      characters fold together. The two letters outside ASCII are the long s and
      the Kelvin sign. */
  lemma FoldExactly(c: char, d: char)
    requires c < '\U{80}'
    ensures FoldChar(c) == FoldChar(d)
       <==> || c == d
            || ('A' <= c <= 'Z' && d as int == c as int + 32)
            || ('a' <= c <= 'z' && d as int == c as int - 32)
            || (c in "sS" && d == '\U{17F}')
            || (c in "kK" && d == '\U{212A}')
    ensures 'A' <= c <= 'Z' ==> FoldChar(c) as int == c as int + 32
    ensures !('A' <= c <= 'Z') ==> FoldChar(c) == c
  {
  }

  lemma AsciiSpaces(c: char)
    requires c < '\U{80}'
    ensures IsSpace(c) <==> c in "\t\n\U{0B}\U{0C}\r "
  {
    var spaces := "\t\n\U{0B}\U{0C}\r ";
    assert spaces[0] == '\t' && spaces[1] == '\n' && spaces[2] == '\U{0B}' && spaces[3] == '\U{0C}' && spaces[4] == '\r';
    assert spaces[5] == ' ';
  }

  ghost predicate AllSpace(s: string)
  {
    forall i :: 0 <= i < |s| ==> IsSpace(s[i])
  }

  lemma {:induction false} TrimSpaceLeftExactly(s: string) returns (l: string)
    ensures s == l + TrimSpaceLeft(s) && AllSpace(l)
    ensures var t := TrimSpaceLeft(s); t == "" || !IsSpace(t[0])
  {
    if s != "" && IsSpace(s[0]) {
      l := TrimSpaceLeftExactly(s[1..]);
      l := [s[0]] + l;
    } else {
      l := "";
    }
  }

  lemma {:induction false} TrimSpaceRightExactly(s: string) returns (r: string)
    ensures s == TrimSpaceRight(s) + r && AllSpace(r)
    ensures var t := TrimSpaceRight(s); t == "" || !IsSpace(t[|t| - 1])
  {
    if s != "" && IsSpace(s[|s| - 1]) {
      r := TrimSpaceRightExactly(s[..|s| - 1]);
      r := r + [s[|s| - 1]];
    } else {
      r := "";
    }
  }

  /** What is trimmed off is white space, and what is left starts and ends with
      something else. */
  lemma TrimSpaceExactly(s: string) returns (l: string, r: string)
    ensures s == l + TrimSpace(s) + r && AllSpace(l) && AllSpace(r)
    ensures var t := TrimSpace(s); t == "" || (!IsSpace(t[0]) && !IsSpace(t[|t| - 1]))
  {
    l := TrimSpaceLeftExactly(s);
    r := TrimSpaceRightExactly(TrimSpaceLeft(s));
    assert TrimSpaceLeft(s) == TrimSpace(s) + r;
  }
}
