/**
 * The parts of Go's `strings`, `bytes` and `sort` packages that the leak
 * detector relies on, over strings modelled as sequences of characters.
 */
module Text {

  // ---------------------------------------------------------------------
  // Searching
  // ---------------------------------------------------------------------

  /** `sep` occurs in `s` starting at position `i`. */
  predicate OccursAt(s: string, sep: string, i: int) {
    0 <= i && i + |sep| <= |s| && s[i..i + |sep|] == sep
  }

  /** strings.Index: the leftmost occurrence of `sep` in `s`, or -1 (see IndexLeftmost). */
  function Index(s: string, sep: string): (r: int)
    ensures r == -1 || OccursAt(s, sep, r)
    decreases |s|
  {
    if |s| < |sep| then -1
    else if s[..|sep|] == sep then 0
    else
      var r := Index(s[1..], sep);
      if r < 0 then -1
      else
        assert s[1..][r..r + |sep|] == s[r + 1..r + 1 + |sep|];
        r + 1
  }

  /** An occurrence at `i + 1` in `s` is one at `i` in the tail of `s`. */
  lemma OccursAtTail(s: string, sep: string, i: int)
    requires s != [] && 1 <= i
    ensures OccursAt(s, sep, i) <==> OccursAt(s[1..], sep, i - 1)
  {
    if i + |sep| <= |s| {
      assert s[1..][i - 1..i - 1 + |sep|] == s[i..i + |sep|];
    }
  }

  /** Index finds the leftmost occurrence, and -1 means there is none. */
  lemma {:induction false} IndexLeftmost(s: string, sep: string)
    ensures Index(s, sep) == -1 ==> forall i :: !OccursAt(s, sep, i)
    ensures forall i :: 0 <= i < Index(s, sep) ==> !OccursAt(s, sep, i)
    decreases |s|
  {
    if |s| >= |sep| && s[..|sep|] != sep {
      IndexLeftmost(s[1..], sep);
      forall i | 1 <= i {
        OccursAtTail(s, sep, i);
      }
    }
  }

  /** strings.Contains. */
  predicate Contains(s: string, sep: string) {
    Index(s, sep) >= 0
  }

  /** An occurrence anywhere makes Contains true. */
  lemma OccursAtContains(s: string, sep: string, i: int)
    requires OccursAt(s, sep, i)
    ensures Contains(s, sep)
  {
    IndexLeftmost(s, sep);
  }

  /** strings.HasPrefix. */
  predicate HasPrefix(s: string, prefix: string) {
    |prefix| <= |s| && s[..|prefix|] == prefix
  }

  /** bytes.IndexByte / strings.IndexByte: the first position of `c`, or -1. */
  function IndexByte(s: string, c: char): (r: int)
    ensures r == -1 <==> c !in s
    ensures r != -1 ==> 0 <= r < |s| && s[r] == c && c !in s[..r]
    decreases |s|
  {
    if s == [] then -1
    else if s[0] == c then 0
    else
      var r := IndexByte(s[1..], c);
      if r < 0 then -1
      else
        assert s[..r + 1] == [s[0]] + s[1..][..r];
        r + 1
  }

  // ---------------------------------------------------------------------
  // Splitting and joining
  // ---------------------------------------------------------------------

  /**
   * strings.Split(s, sep) for a non-empty separator: the pieces between
   * the leftmost non-overlapping occurrences of `sep`; one piece when
   * `sep` does not occur (so the empty string splits into [""]).
   */
  function Split(s: string, sep: string): (parts: seq<string>)
    requires |sep| > 0
    ensures |parts| >= 1
    decreases |s|
  {
    var i := Index(s, sep);
    if i < 0 then [s] else [s[..i]] + Split(s[i + |sep|..], sep)
  }

  /** strings.Join: the pieces with `sep` between neighbours. */
  function Join(parts: seq<string>, sep: string): string
    requires |parts| >= 1
  {
    if |parts| == 1 then parts[0] else parts[0] + sep + Join(parts[1..], sep)
  }

  /** Splitting loses and invents nothing: joining the pieces gives back the input. */
  lemma {:induction false} SplitJoin(s: string, sep: string)
    requires |sep| > 0
    ensures Join(Split(s, sep), sep) == s
    decreases |s|
  {
    var i := Index(s, sep);
    if i >= 0 {
      var rest := s[i + |sep|..];
      var parts := Split(rest, sep);
      SplitJoin(rest, sep);
      assert Split(s, sep) == [s[..i]] + parts;
      JoinCons(s[..i], parts, sep);
      assert s == s[..i] + s[i..i + |sep|] + rest;
    }
  }

  /** Joining a piece in front of non-empty pieces puts one separator after it. */
  lemma JoinCons(p: string, parts: seq<string>, sep: string)
    requires |parts| >= 1
    ensures Join([p] + parts, sep) == p + sep + Join(parts, sep)
  {
    assert ([p] + parts)[1..] == parts;
  }

  /** No piece of a split contains the separator. */
  lemma {:induction false} SplitPiecesAvoidSeparator(s: string, sep: string)
    requires |sep| > 0
    ensures forall p :: p in Split(s, sep) ==> !Contains(p, sep)
    decreases |s|
  {
    var i := Index(s, sep);
    if i >= 0 {
      var rest := s[i + |sep|..];
      var tail := Split(rest, sep);
      SplitPiecesAvoidSeparator(rest, sep);
      PrefixBeforeIndex(s, sep);
      assert Split(s, sep) == [s[..i]] + tail;
      forall p | p in [s[..i]] + tail ensures !Contains(p, sep) {
        if p != s[..i] {
          assert p in tail;
        }
      }
    }
  }

  /**
   * Every cut is at the leftmost occurrence: no occurrence of the separator
   * starts inside a piece that is followed by another one.
   */
  lemma {:induction false} SplitPiecesLeftmost(s: string, sep: string)
    requires |sep| > 0
    ensures forall k :: 0 <= k < |Split(s, sep)| - 1 ==> !Contains(Split(s, sep)[k] + sep[..|sep| - 1], sep)
    decreases |s|
  {
    var i := Index(s, sep);
    if i >= 0 {
      var rest := s[i + |sep|..];
      var tail := Split(rest, sep);
      SplitPiecesLeftmost(rest, sep);
      HeadBeforeIndex(s, sep);
      var parts := Split(s, sep);
      assert parts == [s[..i]] + tail;
      forall k | 0 <= k < |parts| - 1 ensures !Contains(parts[k] + sep[..|sep| - 1], sep) {
        if k > 0 {
          assert parts[k] == tail[k - 1];
        }
      }
    }
  }

  /** No occurrence starts before the leftmost one, even one running into the separator found. */
  lemma HeadBeforeIndex(s: string, sep: string)
    requires |sep| > 0 && Index(s, sep) >= 0
    ensures !Contains(s[..Index(s, sep)] + sep[..|sep| - 1], sep)
  {
    var i := Index(s, sep);
    var n := i + |sep| - 1;
    var t := s[..i] + sep[..|sep| - 1];
    assert t == s[..n];
    if Contains(t, sep) {
      var j := Index(t, sep);
      OccursInPrefix(s, sep, n, j);
      IndexLeftmost(s, sep);
      assert false;
    }
  }

  /** The text before the leftmost occurrence does not contain the separator. */
  lemma PrefixBeforeIndex(s: string, sep: string)
    requires |sep| > 0 && Index(s, sep) >= 0
    ensures !Contains(s[..Index(s, sep)], sep)
  {
    var i := Index(s, sep);
    if Contains(s[..i], sep) {
      var j := Index(s[..i], sep);
      OccursInPrefix(s, sep, i, j);
      IndexLeftmost(s, sep);
      assert false;
    }
  }

  /** An occurrence in a prefix of `s` is one in `s`, before the prefix's end. */
  lemma OccursInPrefix(s: string, sep: string, n: nat, j: int)
    requires n <= |s| && |sep| > 0 && OccursAt(s[..n], sep, j)
    ensures OccursAt(s, sep, j) && j < n
  {
    assert s[..n][j..j + |sep|] == s[j..j + |sep|];
  }

  // ---------------------------------------------------------------------
  // Trimming
  // ---------------------------------------------------------------------

  /** unicode.IsSpace: the Unicode White_Space characters. */
  predicate IsSpace(c: char) {
    c == '\t' || c == '\n' || c == '\U{000B}' || c == '\U{000C}' || c == '\r' || c == ' '
    || c == '\U{0085}' || c == '\U{00A0}' || c == '\U{1680}'
    || ('\U{2000}' <= c <= '\U{200A}')
    || c == '\U{2028}' || c == '\U{2029}' || c == '\U{202F}' || c == '\U{205F}' || c == '\U{3000}'
  }

  /** Every character of `t` is white space. */
  predicate AllSpace(t: string) {
    forall j :: 0 <= j < |t| ==> IsSpace(t[j])
  }

  /** The end of the run of white space in `s` that starts at `i`. */
  function SkipSpace(s: string, i: nat): (j: nat)
    requires i <= |s|
    ensures i <= j <= |s|
    decreases |s| - i
  {
    if i < |s| && IsSpace(s[i]) then SkipSpace(s, i + 1) else i
  }

  /** SkipSpace passes over white space only, and stops at the end or at a character that is not. */
  lemma {:induction false} SkipSpaceStops(s: string, i: nat)
    requires i <= |s|
    ensures forall k :: i <= k < SkipSpace(s, i) ==> IsSpace(s[k])
    ensures SkipSpace(s, i) == |s| || !IsSpace(s[SkipSpace(s, i)])
    decreases |s| - i
  {
    if i < |s| && IsSpace(s[i]) {
      SkipSpaceStops(s, i + 1);
    }
  }

  /** The start of the run of white space in `s` that ends at `j`, going back no further than `lo`. */
  function SkipSpaceBack(s: string, lo: nat, j: nat): (i: nat)
    requires lo <= j <= |s|
    ensures lo <= i <= j
    decreases j
  {
    if j > lo && IsSpace(s[j - 1]) then SkipSpaceBack(s, lo, j - 1) else j
  }

  /** SkipSpaceBack passes over white space only, and stops at `lo` or after a character that is not. */
  lemma {:induction false} SkipSpaceBackStops(s: string, lo: nat, j: nat)
    requires lo <= j <= |s|
    ensures forall k :: SkipSpaceBack(s, lo, j) <= k < j ==> IsSpace(s[k])
    ensures SkipSpaceBack(s, lo, j) == lo || !IsSpace(s[SkipSpaceBack(s, lo, j) - 1])
    decreases j
  {
    if j > lo && IsSpace(s[j - 1]) {
      SkipSpaceBackStops(s, lo, j - 1);
    }
  }

  /** `r` is `s` with white space only, `i` characters of it, before it and white space only after it. */
  predicate TrimmedFrom(s: string, r: string, i: int) {
    && 0 <= i <= |s| - |r| && r == s[i..i + |r|]
    && AllSpace(s[..i]) && AllSpace(s[i + |r|..])
  }

  /**
   * strings.TrimSpace: skips white space from the front, then from the back
   * down to where the front scan stopped, and keeps what lies between.
   */
  function TrimSpace(s: string): string {
    var start := SkipSpace(s, 0);
    s[start..SkipSpaceBack(s, start, |s|)]
  }

  /** TrimSpace drops the leading and trailing white space and nothing else. */
  lemma TrimSpaceDropsSpace(s: string)
    ensures exists i :: TrimmedFrom(s, TrimSpace(s), i)
    ensures TrimSpace(s) == [] || (!IsSpace(TrimSpace(s)[0]) && !IsSpace(TrimSpace(s)[|TrimSpace(s)| - 1]))
  {
    var start := SkipSpace(s, 0);
    var stop := SkipSpaceBack(s, start, |s|);
    var r := s[start..stop];
    assert TrimSpace(s) == r;
    SkipSpaceStops(s, 0);
    SkipSpaceBackStops(s, start, |s|);
    assert AllSpace(s[..start]) by {
      forall k | 0 <= k < start ensures IsSpace(s[..start][k]) {
        assert s[..start][k] == s[k];
      }
    }
    assert AllSpace(s[stop..]) by {
      forall k | 0 <= k < |s| - stop ensures IsSpace(s[stop..][k]) {
        assert s[stop..][k] == s[stop + k];
      }
    }
    assert TrimmedFrom(s, r, start);
    if r != [] {
      assert r[0] == s[start] && r[|r| - 1] == s[stop - 1];
    }
  }

  // ---------------------------------------------------------------------
  // Ordering and sorting (sort.Strings)
  // ---------------------------------------------------------------------

  /**
   * Go's `<=` on strings: lexicographic, a proper prefix first. Go compares
   * UTF-8 bytes; for valid UTF-8 that is the same order as comparing code
   * points, which is what this does.
   */
  predicate LessEq(a: string, b: string)
    decreases |a|
  {
    a == [] || (b != [] && (a[0] < b[0] || (a[0] == b[0] && LessEq(a[1..], b[1..]))))
  }

  lemma {:induction false} LessEqTotal(a: string, b: string)
    ensures LessEq(a, b) || LessEq(b, a)
    decreases |a|
  {
    if a != [] && b != [] && a[0] == b[0] {
      LessEqTotal(a[1..], b[1..]);
    }
  }

  lemma {:induction false} LessEqReflexive(a: string)
    ensures LessEq(a, a)
    decreases |a|
  {
    if a != [] {
      LessEqReflexive(a[1..]);
    }
  }

  lemma {:induction false} LessEqAntisymmetric(a: string, b: string)
    requires LessEq(a, b) && LessEq(b, a)
    ensures a == b
    decreases |a|
  {
    if a != [] {
      LessEqAntisymmetric(a[1..], b[1..]);
      assert a == [a[0]] + a[1..] && b == [b[0]] + b[1..];
    }
  }

  lemma {:induction false} LessEqTransitive(a: string, b: string, c: string)
    requires LessEq(a, b) && LessEq(b, c)
    ensures LessEq(a, c)
    decreases |a|
  {
    if a != [] && a[0] == b[0] && b[0] == c[0] {
      LessEqTransitive(a[1..], b[1..], c[1..]);
    }
  }

  predicate Sorted(s: seq<string>) {
    forall i, j :: 0 <= i < j < |s| ==> LessEq(s[i], s[j])
  }

  /** Inserts `x` into a sorted sequence, before the first element not below it. */
  function Insert(x: string, s: seq<string>): (r: seq<string>)
    requires Sorted(s)
    ensures Sorted(r)
    ensures multiset(r) == multiset(s) + multiset{x}
    decreases |s|
  {
    if s == [] then [x]
    else if LessEq(x, s[0]) then
      BelowHeadBelowAll(x, s);
      ConsSorted(x, s);
      [x] + s
    else
      LessEqTotal(x, s[0]);
      var t := Insert(x, s[1..]);
      assert s == [s[0]] + s[1..];
      LowerBoundKept(s[0], x, s[1..], t);
      ConsSorted(s[0], t);
      [s[0]] + t
  }

  /** What is at most the head of a sorted sequence is at most all of it. */
  lemma BelowHeadBelowAll(x: string, s: seq<string>)
    requires Sorted(s) && s != [] && LessEq(x, s[0])
    ensures forall y :: y in s ==> LessEq(x, y)
  {
    forall y | y in s ensures LessEq(x, y) {
      var j :| 0 <= j < |s| && s[j] == y;
      if j > 0 { LessEqTransitive(x, s[0], s[j]); }
    }
  }

  /** A lower bound of `u` and of `x` bounds every element of a sequence holding `u` and `x`. */
  lemma LowerBoundKept(b: string, x: string, u: seq<string>, t: seq<string>)
    requires multiset(t) == multiset(u) + multiset{x}
    requires LessEq(b, x) && Sorted([b] + u)
    ensures forall y :: y in t ==> LessEq(b, y)
  {
    forall y | y in t ensures LessEq(b, y) {
      assert y in multiset(t);
      if y != x {
        assert y in multiset(u);
        var j :| 0 <= j < |u| && u[j] == y;
        assert ([b] + u)[0] == b && ([b] + u)[j + 1] == y;
      }
    }
  }

  /** An element at most every element of a sorted sequence can go in front of it. */
  lemma ConsSorted(b: string, t: seq<string>)
    requires Sorted(t) && forall y :: y in t ==> LessEq(b, y)
    ensures Sorted([b] + t)
  {
    forall i, j | 0 <= i < j < |[b] + t| ensures LessEq(([b] + t)[i], ([b] + t)[j]) {
      if i == 0 {
        assert ([b] + t)[j] == t[j - 1];
      } else {
        assert ([b] + t)[i] == t[i - 1] && ([b] + t)[j] == t[j - 1];
      }
    }
  }

  /** The sorted permutation of `s` (insertion sort; sort.Strings is not stable, which does not matter for equal strings). */
  function Sort(s: seq<string>): (r: seq<string>)
    ensures Sorted(r)
    ensures multiset(r) == multiset(s)
  {
    if s == [] then []
    else
      assert s == [s[0]] + s[1..];
      Insert(s[0], Sort(s[1..]))
  }

  /** Two sorted sequences with the same elements start with the same element. */
  lemma SortedSameHead(a: seq<string>, b: seq<string>)
    requires Sorted(a) && Sorted(b) && a != []
    requires multiset(a) == multiset(b)
    ensures b != [] && a[0] == b[0]
  {
    assert a[0] in multiset(b);
    assert b != [];
    assert b[0] in multiset(a);
    var i :| 0 <= i < |a| && a[i] == b[0];
    var j :| 0 <= j < |b| && b[j] == a[0];
    assert LessEq(a[0], b[0]) by { if i == 0 { LessEqReflexive(a[0]); } }
    assert LessEq(b[0], a[0]) by { if j == 0 { LessEqReflexive(b[0]); } }
    LessEqAntisymmetric(a[0], b[0]);
  }

  /** There is only one sorted arrangement of a multiset of strings. */
  lemma {:induction false} SortedUnique(a: seq<string>, b: seq<string>)
    requires Sorted(a) && Sorted(b)
    requires multiset(a) == multiset(b)
    ensures a == b
    decreases |a|
  {
    if a == [] {
      assert |b| == |multiset(b)| == 0;
    } else {
      SortedSameHead(a, b);
      assert a == [a[0]] + a[1..] && b == [b[0]] + b[1..];
      assert multiset(a[1..]) == multiset(a) - multiset{a[0]};
      assert multiset(b[1..]) == multiset(b) - multiset{b[0]};
      SortedUnique(a[1..], b[1..]);
    }
  }
}
