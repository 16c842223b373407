/** Replacing every occurrence of a word: left to right as promised, and right to left as
    String::replace does it when the replacement is longer. */
module Replacing {

  predicate MatchAt(s: string, f: string, i: int) {
    0 <= i && i + |f| <= |s| && s[i..i + |f|] == f
  }

  /** strstr from position `from`: the first match, or -1. */
  function First(s: string, f: string, from: nat): (i: int)
    ensures i == -1 || (from <= i && MatchAt(s, f, i))
    ensures forall j :: from <= j && (i < 0 || j < i) ==> !MatchAt(s, f, j)
    decreases |s| - from
  {
    if |s| < from + |f| then -1
    else if MatchAt(s, f, from) then from
    else if from == |s| then -1
    else First(s, f, from + 1)
  }

  /** The last match at or before `from`, or -1. */
  function Last(s: string, f: string, from: int): (i: int)
    ensures i == -1 || (0 <= i <= from && MatchAt(s, f, i))
    ensures forall j :: i < j <= from ==> !MatchAt(s, f, j)
    decreases from + 1
  {
    if from < 0 then -1 else if MatchAt(s, f, from) then from else Last(s, f, from - 1)
  }

  /** What the caller of replace() expects: non-overlapping matches from left to right. */
  function Replace(s: string, f: string, r: string): string
    requires f != []
    decreases |s|
  {
    var i := First(s, f, 0);
    if i < 0 then s else s[..i] + r + Replace(s[i + |f|..], f, r)
  }

  /** `s` with the `n` characters at `i` replaced by `r`. */
  function Splice(s: string, i: nat, n: nat, r: string): string
    requires i + n <= |s|
  {
    s[..i] + r + s[i + n..]
  }

  /** The growing branch: replace the last match at or before `index`, then go on below it, with
      the replacement already in place. */
  function Rtl(s: string, f: string, r: string, index: int): string
    requires f != [] && index < |s|
    decreases index + 1
  {
    var i := Last(s, f, index);
    if i < 0 then s else Rtl(Splice(s, i, |f|, r), f, r, i - 1)
  }

  /** No nonempty proper suffix of `f` begins `f` or `r`. */
  predicate Separated(f: string, r: string) {
    forall j :: 0 < j < |f| ==> !Overlaps(f, r, j)
  }

  predicate Overlaps(f: string, r: string, j: nat)
    requires j <= |f|
  {
    Begins(f, f, j) || Begins(f, r, j)
  }

  /** The last `j` characters of `f` begin `r`. */
  predicate Begins(f: string, r: string, j: nat)
    requires j <= |f|
  {
    f[|f| - j..] <= r
  }

  /** No nonempty proper suffix of `f` begins `r`; `f` itself may overlap itself. */
  predicate Clear(f: string, r: string) {
    forall j :: 0 < j < |f| ==> !Begins(f, r, j)
  }

  // ----- separated words: the two agree -----

  lemma MatchesApart(s: string, f: string, i: nat, j: nat)
    requires Separated(f, f) && MatchAt(s, f, i) && MatchAt(s, f, j) && i < j
    ensures i + |f| <= j
  {
    if j < i + |f| {
      var k := i + |f| - j;
      assert s[j..i + |f|] == f[|f| - k..] by { assert s[i..i + |f|][j - i..] == s[j..i + |f|]; }
      assert s[j..i + |f|] == f[..k] by { assert s[j..j + |f|][..k] == s[j..i + |f|]; }
      assert Overlaps(f, f, k);
    }
  }

  lemma MatchInPrefix(s: string, f: string, n: nat, i: int)
    requires n <= |s|
    ensures MatchAt(s[..n], f, i) <==> MatchAt(s, f, i) && i + |f| <= n
  {
    if 0 <= i && i + |f| <= n { assert s[..n][i..i + |f|] == s[i..i + |f|]; }
  }

  lemma MatchInSuffix(s: string, f: string, n: nat, i: nat)
    requires n <= |s|
    ensures MatchAt(s[n..], f, i) <==> MatchAt(s, f, n + i)
  {
    if n + i + |f| <= |s| { assert s[n..][i..i + |f|] == s[n + i..n + i + |f|]; }
  }

  lemma NoMatch(s: string, f: string, r: string)
    requires f != [] && forall i :: !MatchAt(s, f, i)
    ensures Replace(s, f, r) == s
  {
  }

  lemma FirstIs(s: string, f: string, k: nat)
    requires MatchAt(s, f, k) && forall j :: 0 <= j < k ==> !MatchAt(s, f, j)
    ensures First(s, f, 0) == k
  {
  }

  lemma ReplaceFirst(s: string, f: string, r: string, k: nat)
    requires f != [] && MatchAt(s, f, k) && forall j :: 0 <= j < k ==> !MatchAt(s, f, j)
    ensures Replace(s, f, r) == s[..k] + r + Replace(s[k + |f|..], f, r)
  {
    hide MatchAt, First, Replace;
    FirstIs(s, f, k);
    MatchBounds(s, f, k);
    ReplaceAtFirst(s, f, r);
  }

  lemma ReplaceAtFirst(s: string, f: string, r: string)
    requires f != [] && 0 <= First(s, f, 0) && First(s, f, 0) + |f| <= |s|
    ensures var k := First(s, f, 0); Replace(s, f, r) == s[..k] + r + Replace(s[k + |f|..], f, r)
  {
    hide MatchAt, First;
  }

  lemma OnlyMatch(s: string, f: string, r: string, k: nat)
    requires f != [] && MatchAt(s, f, k) && forall j :: j != k ==> !MatchAt(s, f, j)
    ensures Replace(s, f, r) == s[..k] + r + s[k + |f|..] && Replace(s[..k], f, r) == s[..k]
  {
    hide MatchAt, First;
    MatchBounds(s, f, k);
    forall j ensures !MatchAt(s[..k], f, j) { MatchInPrefix(s, f, k, j); }
    NoMatch(s[..k], f, r);
    var rest := s[k + |f|..];
    forall j ensures !MatchAt(rest, f, j) {
      if 0 <= j { MatchInSuffix(s, f, k + |f|, j); } else { NegativeNever(rest, f, j); }
    }
    NoMatch(rest, f, r);
    ReplaceFirst(s, f, r, k);
  }

  lemma NegativeNever(s: string, f: string, j: int)
    requires j < 0
    ensures !MatchAt(s, f, j)
  {
  }

  lemma MatchBounds(s: string, f: string, k: int)
    requires MatchAt(s, f, k)
    ensures 0 <= k && k + |f| <= |s|
  {
  }

  /** Left-to-right replacement can be peeled from the right when matches do not overlap. */
  lemma {:induction false} ReplaceLast(s: string, f: string, r: string, i: nat)
    requires f != [] && Separated(f, f) && MatchAt(s, f, i) && forall j :: i < j ==> !MatchAt(s, f, j)
    ensures i + |f| <= |s| && Replace(s, f, r) == Replace(s[..i], f, r) + r + s[i + |f|..]
    decreases |s|
  {
    hide MatchAt, First, Separated, Replace;
    MatchBounds(s, f, i);
    var k := First(s, f, 0);
    FirstFacts(s, f, i);
    if k == i {
      forall j | j != i ensures !MatchAt(s, f, j) { if j < 0 { NegativeNever(s, f, j); } }
      OnlyMatch(s, f, r, i);
    } else {
      MatchesApart(s, f, k, i);
      ReplaceFirst(s, f, r, k);
      var rest, i' := s[k + |f|..], i - k - |f|;
      forall j | i' <= j ensures MatchAt(rest, f, j) <==> MatchAt(s, f, k + |f| + j) { MatchInSuffix(s, f, k + |f|, j); }
      ReplaceLast(rest, f, r, i');
      PrefixFirst(s, f, r, k, i);
      Regroup(s, f, r, k, i);
      Associate(s[..k] + r, Replace(rest[..i'], f, r), r, s[i + |f|..]);
    }
  }

  lemma Associate(a: string, b: string, c: string, d: string)
    ensures a + (b + c + d) == (a + b) + c + d
  {
  }

  /** The first match of a text is also the first of a prefix that holds it. */
  lemma PrefixFirst(s: string, f: string, r: string, k: nat, i: nat)
    requires f != [] && k + |f| <= i <= |s| && MatchAt(s, f, k) && forall j :: 0 <= j < k ==> !MatchAt(s, f, j)
    ensures Replace(s[..i], f, r) == s[..i][..k] + r + Replace(s[..i][k + |f|..], f, r)
  {
    hide MatchAt, First, Replace;
    forall j | 0 <= j <= k ensures MatchAt(s[..i], f, j) <==> MatchAt(s, f, j) { MatchInPrefix(s, f, i, j); }
    ReplaceFirst(s[..i], f, r, k);
  }

  lemma FirstFacts(s: string, f: string, i: nat)
    requires MatchAt(s, f, i)
    ensures var k := First(s, f, 0); 0 <= k <= i && MatchAt(s, f, k) && forall j :: 0 <= j < k ==> !MatchAt(s, f, j)
  {
  }

  lemma Regroup(s: string, f: string, r: string, k: nat, i: nat)
    requires k + |f| <= i && i + |f| <= |s|
    ensures s[..i][..k] == s[..k] && s[..i][k + |f|..] == s[k + |f|..][..i - k - |f|]
    ensures s[k + |f|..][i - k - |f| + |f|..] == s[i + |f|..]
  {
  }

  // ----- right to left -----

  lemma LastSame(s: string, t: string, f: string, from: int)
    requires forall j :: 0 <= j <= from ==> (MatchAt(s, f, j) <==> MatchAt(t, f, j))
    ensures Last(s, f, from) == Last(t, f, from)
  {
  }

  lemma Straddle(u: string, v: string, f: string, r: string, j: nat)
    requires MatchAt(u + v, f, j) && j < |u| < j + |f| && r <= v && |f| < |r|
    ensures Begins(f, r, j + |f| - |u|)
  {
    var k := j + |f| - |u|;
    assert f[|f| - k..] == (u + v)[|u|..|u| + k] == v[..k] == r[..k];
  }

  /** With clear words no match reaches from before the replaced part into it. */
  lemma NoStraddle(u: string, v: string, f: string, r: string, j: nat)
    requires Clear(f, r) && r <= v && |f| < |r| && j < |u|
    ensures MatchAt(u + v, f, j) <==> MatchAt(u, f, j)
  {
    if j + |f| <= |u| {
      assert (u + v)[j..j + |f|] == u[j..j + |f|];
    } else if MatchAt(u + v, f, j) {
      Straddle(u, v, f, r, j);
    }
  }

  /** So the part already done stays as it is. */
  lemma {:induction false} RtlPrefix(u: string, v: string, f: string, r: string, index: int)
    requires f != [] && Clear(f, r) && r <= v && |f| < |r| && index < |u|
    ensures Rtl(u + v, f, r, index) == Rtl(u, f, r, index) + v
    decreases index + 1
  {
    hide MatchAt, Clear;
    forall j | 0 <= j <= index ensures MatchAt(u + v, f, j) <==> MatchAt(u, f, j) { NoStraddle(u, v, f, r, j); }
    LastSame(u + v, u, f, index);
    var i := Last(u, f, index);
    if 0 <= i {
      MatchBounds(u, f, i);
      var u' := Splice(u, i, |f|, r);
      assert Splice(u + v, i, |f|, r) == u' + v;
      RtlPrefix(u', v, f, r, i - 1);
    }
  }

  lemma RtlStep(s: string, f: string, r: string, i: nat)
    requires f != [] && i < |s| && Last(s, f, |s| - 1) == i
    ensures i + |f| <= |s| && Rtl(s, f, r, |s| - 1) == Rtl(Splice(s, i, |f|, r), f, r, i - 1)
  {
    hide Last, Splice;
    assert MatchAt(s, f, i);
  }

  /** Replacing from the right, peeled at its first step. */
  lemma RtlLast(s: string, f: string, r: string, i: nat)
    requires f != [] && Clear(f, r) && |f| < |r| && i < |s| && Last(s, f, |s| - 1) == i
    ensures i + |f| <= |s| && Rtl(s, f, r, |s| - 1) == Rtl(s[..i], f, r, i - 1) + r + s[i + |f|..]
  {
    hide MatchAt, Clear, Last, Rtl;
    RtlStep(s, f, r, i);
    var v := r + s[i + |f|..];
    RtlPrefix(s[..i], v, f, r, i - 1);
    assert Splice(s, i, |f|, r) == s[..i] + v;
    assert (Rtl(s[..i], f, r, i - 1) + r) + s[i + |f|..] == Rtl(s[..i], f, r, i - 1) + v;
  }

  lemma SeparatedSelf(f: string, r: string)
    requires Separated(f, r)
    ensures Separated(f, f) && Clear(f, r)
  {
    forall j | 0 < j < |f| ensures !Overlaps(f, f, j) && !Begins(f, r, j) { assert !Overlaps(f, r, j); }
  }

  lemma LastNone(s: string, f: string)
    requires f != [] && Last(s, f, |s| - 1) < 0
    ensures forall i :: !MatchAt(s, f, i)
  {
  }

  lemma LastFacts(s: string, f: string, i: nat)
    requires f != [] && Last(s, f, |s| - 1) == i
    ensures MatchAt(s, f, i) && i < |s| && forall j :: i < j ==> !MatchAt(s, f, j)
  {
  }

  lemma {:induction false} SeparatedAgree(s: string, f: string, r: string)
    requires f != [] && |f| < |r| && Separated(f, r)
    ensures Rtl(s, f, r, |s| - 1) == Replace(s, f, r)
    decreases |s|
  {
    hide MatchAt, Separated, Clear;
    var i := Last(s, f, |s| - 1);
    if i < 0 {
      LastNone(s, f);
      NoMatch(s, f, r);
    } else {
      LastFacts(s, f, i);
      SeparatedSelf(f, r);
      ReplaceLast(s, f, r, i);
      RtlLast(s, f, r, i);
      SeparatedAgree(s[..i], f, r);
    }
  }

  // ----- otherwise they disagree -----

  lemma {:induction false} RtlGrows(s: string, f: string, r: string, index: int)
    requires f != [] && |f| < |r| && index < |s|
    ensures |s| <= |Rtl(s, f, r, index)|
    ensures 0 <= Last(s, f, index) ==> |s| + |r| - |f| <= |Rtl(s, f, r, index)|
    decreases index + 1
  {
    var i := Last(s, f, index);
    if 0 <= i { RtlGrows(Splice(s, i, |f|, r), f, r, i - 1); }
  }

  lemma ReplaceOnce(s: string, f: string, r: string, k: nat)
    requires f != [] && |s| < 2 * |f| && MatchAt(s, f, k) && forall j :: 0 <= j < k ==> !MatchAt(s, f, j)
    ensures k + |f| <= |s| && Replace(s, f, r) == s[..k] + r + s[k + |f|..]
  {
    MatchBounds(s, f, k);
    ReplaceFirst(s, f, r, k);
  }

  lemma {:induction false} SameByPeriod(f: string, r: string, p: nat, i: nat)
    requires 0 < p <= |f| < |r| && i < |f|
    requires f[..p] + r == r + (f[..p] + f)[|f|..] && f[p..] <= f
    ensures r[i] == f[i]
  {
    assert (f[..p] + r)[i] == r[i];
    if p <= i {
      SameByPeriod(f, r, p, i - p);
      assert f[p..][i - p] == f[i - p];
    }
  }

  /** When a suffix of `f` of length `j` begins `f` or `r`, the text made of the rest of `f`
      followed by `f` is replaced differently. */
  lemma OverlapsDisagree(f: string, r: string, j: nat)
    requires |f| < |r| && 0 < j < |f| && Overlaps(f, r, j)
    ensures var s := f[..|f| - j] + f;
            Rtl(s, f, r, |s| - 1) != Replace(s, f, r)
  {
    hide Rtl, Replace, Last, First, Splice, MatchAt;
    var p := |f| - j;
    var s := f[..p] + f;
    var w := f[..p] + r;
    if Begins(f, r, j) {
      RunsOver(f, r, j);
    } else {
      FirstOfTwo(f, r, p);
      RtlStep(s, f, r, p);
      RtlGrows(w, f, r, p - 1);
      MatchAtStart(f, f, p);
      RtlNone(w, f, r, p - 1);
      if w == Replace(s, f, r) { PeriodBegins(f, r, p); }
    }
  }

  /** When a suffix of `f` of length `j` begins `r`, that text grows beyond the room counted for it. */
  lemma RunsOver(f: string, r: string, j: nat)
    requires |f| < |r| && 0 < j < |f| && Begins(f, r, j)
    ensures var s := f[..|f| - j] + f;
            |s| < |Replace(s, f, r)| == |s| + |r| - |f| < |Rtl(s, f, r, |s| - 1)|
  {
    hide Rtl, Replace, Last, First, Splice, MatchAt;
    var p := |f| - j;
    var s := f[..p] + f;
    var w := f[..p] + r;
    FirstOfTwo(f, r, p);
    RtlStep(s, f, r, p);
    MatchAtStart(f, r, p);
    LastAtLeast(w, f, p - 1, 0);
    RtlGrows(w, f, r, p - 1);
  }

  lemma MatchAtStart(f: string, v: string, p: nat)
    requires p <= |f| && f[p..] <= v
    ensures MatchAt(f[..p] + v, f, 0)
  {
    assert (f[..p] + v)[..|f|] == f[..p] + v[..|f| - p] == f[..p] + f[p..] == f;
  }

  /** In the beginning of `f` followed by `f`, the last match is the obvious one, and left-to-right
      replacement happens once. */
  lemma FirstOfTwo(f: string, r: string, p: nat)
    requires 0 < p < |f|
    ensures var s := f[..p] + f;
            && Last(s, f, |s| - 1) == p && Splice(s, p, |f|, r) == f[..p] + r && |Replace(s, f, r)| == p + |r|
            && (MatchAt(s, f, 0) ==> Replace(s, f, r) == r + s[|f|..])
  {
    hide First, Last, Replace;
    var s := f[..p] + f;
    assert MatchAt(s, f, p) by { assert s[p..p + |f|] == f; }
    LastIs(s, f, p);
    FirstFacts(s, f, p);
    ReplaceOnce(s, f, r, First(s, f, 0));
    if MatchAt(s, f, 0) {
      ReplaceOnce(s, f, r, 0);
      assert s[..0] + r + s[|f|..] == r + s[|f|..];
    }
  }

  lemma PeriodBegins(f: string, r: string, p: nat)
    requires 0 < p <= |f| < |r|
    requires f[..p] + r == r + (f[..p] + f)[|f|..] && f[p..] <= f
    ensures f[p..] <= r
  {
    forall i | 0 <= i < |f| ensures r[i] == f[i] { SameByPeriod(f, r, p, i); }
    assert r[..|f| - p] == f[..|f| - p];
  }

  lemma RtlNone(s: string, f: string, r: string, index: int)
    requires f != [] && index < |s|
    ensures Last(s, f, index) < 0 ==> Rtl(s, f, r, index) == s
  {
  }

  lemma LastIs(s: string, f: string, p: nat)
    requires f != [] && MatchAt(s, f, p) && p + |f| == |s|
    ensures Last(s, f, |s| - 1) == p
  {
  }

  lemma LastAtLeast(s: string, f: string, from: int, i: nat)
    requires i <= from && MatchAt(s, f, i)
    ensures i <= Last(s, f, from)
  {
  }

  /** Right-to-left replacement is what the caller expects, on every text, exactly when no nonempty
      proper suffix of `find` begins `find` or `replace`; a `find` of one character has none. */
  lemma RightToLeftIff(f: string, r: string)
    requires f != [] && |f| < |r|
    ensures Separated(f, r) <==> forall s :: Rtl(s, f, r, |s| - 1) == Replace(s, f, r)
    ensures |f| == 1 ==> Separated(f, r)
  {
    hide Rtl, Replace;
    if Separated(f, r) {
      forall s ensures Rtl(s, f, r, |s| - 1) == Replace(s, f, r) { SeparatedAgree(s, f, r); }
    } else {
      var j :| 0 < j < |f| && Overlaps(f, r, j);
      OverlapsDisagree(f, r, j);
    }
  }

  // ----- room for the result -----

  /** The growing branch makes room for as many matches as it counts from the left; it stays within
      its buffer when those from the right leave a text no longer, or one the buffer holds anyway. */
  predicate StaysInRoom(s: string, f: string, r: string, capacity: nat)
    requires f != [] && |f| < |r|
  {
    var n := |Rtl(s, f, r, |s| - 1)|;
    n <= |Replace(s, f, r)| || n <= capacity
  }

  lemma {:induction false} ReplaceGrows(s: string, f: string, r: string)
    requires f != [] && |f| < |r|
    ensures |s| <= |Replace(s, f, r)|
    decreases |s|
  {
    hide MatchAt;
    var k := First(s, f, 0);
    if 0 <= k {
      MatchBounds(s, f, k);
      ReplaceGrows(s[k + |f|..], f, r);
    }
  }

  /** Counting matches from the left is greedy: up to any match it finds all but that one. */
  lemma {:induction false} LeftIsGreedy(s: string, f: string, r: string, i: nat)
    requires f != [] && |f| < |r| && MatchAt(s, f, i)
    ensures i + |f| <= |s| && |Replace(s[..i], f, r)| + |r| + |s| - i - |f| <= |Replace(s, f, r)|
    decreases |s|
  {
    hide MatchAt, First, Replace;
    MatchBounds(s, f, i);
    var k := First(s, f, 0);
    FirstFacts(s, f, i);
    MatchBounds(s, f, k);
    ReplaceFirst(s, f, r, k);
    var rest := s[k + |f|..];
    if k + |f| <= i {
      var i' := i - k - |f|;
      MatchInSuffix(s, f, k + |f|, i');
      LeftIsGreedy(rest, f, r, i');
      PrefixFirst(s, f, r, k, i);
      Regroup(s, f, r, k, i);
    } else {
      forall j ensures !MatchAt(s[..i], f, j) { MatchInPrefix(s, f, i, j); if j < 0 { NegativeNever(s, f, j); } }
      NoMatch(s[..i], f, r);
      ReplaceGrows(rest, f, r);
    }
  }

  /** With clear words the matches replaced from the right are no more than those counted. */
  lemma {:induction false} ClearFits(s: string, f: string, r: string)
    requires f != [] && |f| < |r| && Clear(f, r)
    ensures |Rtl(s, f, r, |s| - 1)| <= |Replace(s, f, r)|
    decreases |s|
  {
    hide MatchAt, Clear, Replace;
    var i := Last(s, f, |s| - 1);
    if i < 0 {
      ReplaceGrows(s, f, r);
    } else {
      LastFacts(s, f, i);
      RtlLast(s, f, r, i);
      ClearFits(s[..i], f, r);
      LeftIsGreedy(s, f, r, i);
    }
  }

  /** The growing branch stays within its buffer, on every text and whatever its capacity, exactly
      when no nonempty proper suffix of `find` begins `replace`. */
  lemma RoomIff(f: string, r: string)
    requires f != [] && |f| < |r|
    ensures Clear(f, r) <==> forall s, capacity :: |s| <= capacity ==> StaysInRoom(s, f, r, capacity)
  {
    hide Rtl, Replace, Begins;
    if Clear(f, r) {
      forall s, capacity | |s| <= capacity ensures StaysInRoom(s, f, r, capacity) { ClearFits(s, f, r); }
    } else {
      var j :| 0 < j < |f| && Begins(f, r, j);
      RunsOver(f, r, j);
      var s := f[..|f| - j] + f;
      assert !StaysInRoom(s, f, r, |s|);
    }
  }

  /** For "aaa", replacing "aa" by "aab", the branch makes room for 4 characters and writes more. */
  lemma RunsOverExample()
    ensures |Replace("aaa", "aa", "aab")| == 4 && !StaysInRoom("aaa", "aa", "aab", 4)
  {
    hide Rtl, Replace;
    assert "aa"[1..] == "aab"[..1];
    assert Begins("aa", "aab", 1);
    RunsOver("aa", "aab", 1);
    assert "aa"[..1] + "aa" == "aaa";
  }
}
