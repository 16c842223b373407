/** Stream: searching for several targets at once, without a failure table, and parsing integers. */
module StreamSearch {
  import opened Numbers
  import opened Parse

  /** `t[..k]` is what the text read so far ends with. */
  predicate EndsWith(w: Text, t: Text, k: nat)
    requires k <= |t|
  {
    k <= |w| && w[|w| - k..] == t[..k]
  }

  /** The text ends with `k` characters of `t`, and `c` is the next one. */
  ghost predicate Extends(w: Text, t: Text, k: nat, c: int)
    requires k < |t|
  {
    EndsWith(w, t, k) && t[k] == c
  }

  /** `k` is the length of the longest proper prefix of `t` that the text ends with. */
  ghost predicate IsBorder(w: Text, t: Text, k: nat) {
    k < |t| && EndsWith(w, t, k) && forall j :: k < j < |t| ==> !EndsWith(w, t, j)
  }

  /** Target `t` ends at the end of the text. */
  predicate Found(w: Text, t: Text) {
    EndsWith(w, t, |t|)
  }

  lemma EmptyTextBorder(t: Text)
    requires t != []
    ensures IsBorder([], t, 0)
  {
  }

  /** One more character: the text ends with `k + 1` characters of `t` exactly when it ended with
      `k` of them and the new character is the next. */
  lemma OneMore(w: Text, c: int, t: Text, k: nat)
    requires k < |t|
    ensures EndsWith(w + [c], t, k + 1) <==> EndsWith(w, t, k) && t[k] == c
  {
    var v := w + [c];
    if k + 1 <= |v| {
      assert v[|v| - (k + 1)..] == w[|w| - k..] + [c];
      assert t[..k + 1] == t[..k] + [t[k]];
      if EndsWith(v, t, k + 1) {
        assert (w[|w| - k..] + [c])[k] == t[..k + 1][k];
        assert (w[|w| - k..] + [c])[..k] == t[..k + 1][..k];
      }
    }
  }

  /** Below the border, ending with `k` characters of `t` is a question about `t` alone: the
      comparison the source makes between the target and itself. */
  lemma WithinBorder(w: Text, t: Text, b: nat, k: nat)
    requires k <= b < |t| && EndsWith(w, t, b)
    ensures EndsWith(w, t, k) <==> t[..k] == t[b - k..b]
  {
    assert w[|w| - k..] == w[|w| - b..][b - k..] == t[..b][b - k..] == t[b - k..b];
  }

  /** The largest extendable length below `k + 1` decides the new border. */
  lemma NewBorder(w: Text, c: int, t: Text, b: nat, k: nat)
    requires IsBorder(w, t, b) && k <= b && k + 1 < |t| && Extends(w, t, k, c)
    requires forall j :: k < j <= b ==> !Extends(w, t, j, c)
    ensures IsBorder(w + [c], t, k + 1)
  {
    OneMore(w, c, t, k);
    forall j | k + 1 < j < |t| ensures !EndsWith(w + [c], t, j) {
      OneMore(w, c, t, j - 1);
      assert j - 1 <= b ==> !Extends(w, t, j - 1, c);
    }
  }

  lemma NoBorder(w: Text, c: int, t: Text, b: nat)
    requires IsBorder(w, t, b)
    requires forall j :: 0 <= j <= b ==> !Extends(w, t, j, c)
    ensures IsBorder(w + [c], t, 0)
  {
    forall j | 0 < j < |t| ensures !EndsWith(w + [c], t, j) {
      OneMore(w, c, t, j - 1);
      assert j - 1 <= b ==> !Extends(w, t, j - 1, c);
    }
    assert EndsWith(w + [c], t, 0);
  }

  lemma FoundNext(w: Text, c: int, t: Text, b: nat)
    requires IsBorder(w, t, b)
    ensures Found(w + [c], t) <==> b + 1 == |t| && t[b] == c
  {
    OneMore(w, c, t, |t| - 1);
  }

  /** A character above 127, negative in a target on AVR, equals no stream byte. */
  lemma FoundHasNoHigh(w: Text, t: Text)
    requires Found(w, t) && forall i :: 0 <= i < |w| ==> 0 <= w[i]
    ensures forall i :: 0 <= i < |t| ==> 0 <= t[i]
  {
    forall i | 0 <= i < |t| ensures 0 <= t[i] { assert w[|w| - |t|..][i] == w[|w| - |t| + i]; }
  }

  /** The inner loop of findMulti: after a mismatch at `origIndex`, fall back to the longest shorter
      prefix of `t` that the text, with `c` added, ends with. */
  method FallBack(t: Text, c: int, origIndex: nat, ghost w: Text) returns (index: nat)
    requires IsBorder(w, t, origIndex) && 0 < origIndex && t[origIndex] != c
    ensures IsBorder(w + [c], t, index)
  {
    index := origIndex;
    while index != 0
      invariant index <= origIndex
      invariant forall j :: index <= j <= origIndex ==> !Extends(w, t, j, c)
    {
      index := index - 1;
      if c == t[index] {
        WithinBorder(w, t, origIndex, index);
        if index == 0 {
          NewBorder(w, c, t, origIndex, 0);
          return 1;
        }
        var good := MatchesSelf(t, index, origIndex - index);
        if good {
          NewBorder(w, c, t, origIndex, index);
          return index + 1;
        }
      }
    }
    NoBorder(w, c, t, origIndex);
  }

  /** Compare the first `n` characters of `t` with those `diff` further on. */
  method MatchesSelf(t: Text, n: nat, diff: nat) returns (good: bool)
    requires n + diff <= |t|
    ensures good <==> t[..n] == t[diff..diff + n]
  {
    var i := 0;
    while i < n
      invariant i <= n && t[..i] == t[diff..diff + i]
    {
      if t[i] != t[i + diff] {
        assert t[..n][i] != t[diff..diff + n][i];
        return false;
      }
      i := i + 1;
    }
    return true;
  }

  /** Give the character `c` to every target in turn, up to the first that it completes. */
  method Feed(targets: seq<Text>, index: array<nat>, c: int, ghost v: Text) returns (r: int)
    requires index.Length == |targets|
    requires forall t :: 0 <= t < |targets| ==> IsBorder(v, targets[t], index[t])
    modifies index
    ensures r == -1 || 0 <= r < |targets|
    ensures r == -1 ==> forall t :: 0 <= t < |targets| ==> IsBorder(v + [c], targets[t], index[t])
    ensures forall t :: 0 <= t < (if r == -1 then |targets| else r) ==> !Found(v + [c], targets[t])
    ensures r != -1 ==> Found(v + [c], targets[r])
  {
    hide EndsWith, IsBorder, Found;
    for t := 0 to |targets|
      invariant forall j :: t <= j < |targets| ==> IsBorder(v, targets[j], index[j])
      invariant forall j :: 0 <= j < t ==> IsBorder(v + [c], targets[j], index[j]) && !Found(v + [c], targets[j])
    {
      FoundNext(v, c, targets[t], index[t]);
      BorderBounds(v, targets[t], index[t]);
      if c == targets[t][index[t]] {
        if index[t] + 1 == |targets[t]| {
          index[t] := index[t] + 1;
          return t;
        }
        NewBorder(v, c, targets[t], index[t], index[t]);
        index[t] := index[t] + 1;
      } else if index[t] == 0 {
        NoBorder(v, c, targets[t], 0);
      } else {
        var next := FallBack(targets[t], c, index[t], v);
        index[t] := next;
      }
    }
    return -1;
  }

  lemma BorderBounds(w: Text, t: Text, b: nat)
    requires IsBorder(w, t, b)
    ensures b < |t| && EndsWith(w, t, b)
  {
  }

  class Stream {
    const incoming: Text   // what arrives before the time-out
    var pos: nat           // how much of it has been read

    predicate Valid()
      reads this
    {
      pos <= |incoming| && forall i :: 0 <= i < |incoming| ==> 0 <= incoming[i] < 256
    }

    /** The next byte, or -1 when none arrives in time. */
    method TimedRead() returns (c: int)
      requires Valid()
      modifies this
      ensures Valid()
      ensures if old(pos) < |incoming| then c == incoming[old(pos)] && pos == old(pos) + 1
              else c == -1 && pos == old(pos)
    {
      if pos < |incoming| {
        c, pos := incoming[pos], pos + 1;
      } else {
        c := -1;
      }
    }

    /** Search for `targets`, whose progress is kept in `index`.  `w` is the text they have already
        been fed: empty for a fresh search, and after a time-out the search may be resumed. */
    method FindMulti(targets: seq<Text>, index: array<nat>, ghost w: Text) returns (r: int)
      requires Valid() && index.Length == |targets|
      requires forall t :: 0 <= t < |targets| && targets[t] != [] ==> IsBorder(w, targets[t], index[t])
      modifies this, index
      ensures Valid() && old(pos) <= pos
      ensures [] in targets ==>
                0 <= r < |targets| && targets[r] == [] && [] !in targets[..r] && pos == old(pos) && index[..] == old(index[..])
      ensures [] !in targets ==>
                forall n, t :: old(pos) < n < pos && 0 <= t < |targets| ==> !Found(w + incoming[old(pos)..n], targets[t])
      ensures [] !in targets && r >= 0 ==>
                r < |targets| && old(pos) < pos && Found(w + incoming[old(pos)..pos], targets[r]) &&
                forall t :: 0 <= t < r ==> !Found(w + incoming[old(pos)..pos], targets[t])
      ensures [] !in targets && r >= 0 && (forall i :: 0 <= i < |w| ==> 0 <= w[i]) ==>
                forall i :: 0 <= i < |targets[r]| ==> 0 <= targets[r][i]
      ensures [] !in targets && r < 0 ==>
                r == -1 && pos == |incoming| &&
                forall t :: 0 <= t < |targets| ==>
                  IsBorder(w + incoming[old(pos)..pos], targets[t], index[t]) &&
                  (old(pos) < pos ==> !Found(w + incoming[old(pos)..pos], targets[t]))
    {
      for t := 0 to |targets|
        invariant [] !in targets[..t]
      {
        if targets[t] == [] { return t; }
      }
      ghost var p := pos;
      assert w + incoming[p..pos] == w;
      while true
        invariant Valid() && p <= pos
        invariant forall t :: 0 <= t < |targets| ==> targets[t] != [] && IsBorder(w + incoming[p..pos], targets[t], index[t])
        invariant forall n, t :: p < n <= pos && 0 <= t < |targets| ==> !Found(w + incoming[p..n], targets[t])
        decreases |incoming| - pos
      {
        ghost var v := w + incoming[p..pos];
        var c := TimedRead();
        if c < 0 { return -1; }
        assert w + incoming[p..pos] == v + [c];
        r := Feed(targets, index, c, v);
        if r != -1 {
          if forall i :: 0 <= i < |w| ==> 0 <= w[i] { FoundHasNoHigh(v + [c], targets[r]); }
          return;
        }
      }
    }
  
    /** Read up to and including the first occurrence of `target`; false when the stream ends first. */
    method Find(target: Text) returns (found: bool)
      requires Valid()
      modifies this
      ensures Valid() && old(pos) <= pos
      ensures found ==> Found(incoming[old(pos)..pos], target)
      ensures !found ==> pos == |incoming|
      ensures forall n :: old(pos) < n < pos || (n == pos && old(pos) < n && !found) ==> !Found(incoming[old(pos)..n], target)
    {
      var index := new nat[1] [0];
      if target != [] { EmptyTextBorder(target); }
      var r := FindMulti([target], index, []);
      assert forall n :: old(pos) <= n <= pos ==> [] + incoming[old(pos)..n] == incoming[old(pos)..n];
      assert [target][0] == target;
      return r == 0;
    }

    /** Read up to and including the first occurrence of `target` or `terminator`; true when it was
        `target`, which wins when both end at the same character. */
    method FindUntil(target: Text, terminator: Text) returns (found: bool)
      requires Valid()
      modifies this
      ensures Valid() && old(pos) <= pos
      ensures target == [] || terminator == [] ==> pos == old(pos) && found == (target == [])
      ensures forall n :: old(pos) < n < pos ==>
                !Found(incoming[old(pos)..n], target) && !Found(incoming[old(pos)..n], terminator)
      ensures target != [] && terminator != [] ==>
                (found <==> old(pos) < pos && Found(incoming[old(pos)..pos], target)) &&
                (!found ==> pos == |incoming| || Found(incoming[old(pos)..pos], terminator))
    {
      var index := new nat[2] [0, 0];
      if target != [] { EmptyTextBorder(target); }
      if terminator != [] { EmptyTextBorder(terminator); }
      var targets := [target, terminator];
      assert targets[0] == target && targets[1] == terminator;
      var r := FindMulti(targets, index, []);
      assert forall n :: old(pos) <= n <= pos ==> [] + incoming[old(pos)..n] == incoming[old(pos)..n];
      return r == 0;
    }
  
    // ----- parsing -----

    /** The next byte without taking it, or -1. */
    method TimedPeek() returns (c: int)
      requires Valid()
      ensures c == if pos < |incoming| then incoming[pos] else -1
    {
      if pos < |incoming| { return incoming[pos]; }
      return -1;
    }

    /** Discard what `mode` allows up to a digit or minus sign, and peek at that; -1 when the stream
        ends or something else stands in the way. */
    method PeekNextDigit(mode: Lookahead) returns (c: int)
      requires Valid()
      modifies this
      ensures Valid() && pos == old(pos) + Skipped(incoming[old(pos)..], mode)
      ensures c == if pos < |incoming| && Starts(incoming[pos]) then incoming[pos] else -1
    {
      ghost var p, k := pos, Skipped(incoming[pos..], mode);
      while true
        invariant Valid() && p <= pos && pos - p + Skipped(incoming[pos..], mode) == k
        decreases |incoming| - pos
      {
        SkipStep(incoming, mode, pos);
        c := TimedPeek();
        if c < 0 || Starts(c) { return; }
        if !Skippable(mode, c) { return -1; }
        var discarded := TimedRead();
      }
    }

    /** parseInt.  A signed `ignore` of -1, the character 255, equals the time-out itself: where the loop
        would then go round for good the model leaves it, with `ended` false. */
    method ParseInt(mode: Lookahead, ignore: int) returns (value: int, ended: bool)
      requires Valid()
      modifies this
      ensures Valid() && (ended <==> Stops(incoming[old(pos)..], mode, ignore))
      ensures ended ==> (pos - old(pos), value) == Parsed(incoming[old(pos)..], mode, ignore)
    {
      hide Skipped, Extent, Decimal, Wrap32, Parsed;
      ghost var s := incoming[pos..];
      var c := PeekNextDigit(mode);
      ghost var k := pos - old(pos);
      if c < 0 {
        NothingThere(s, mode, ignore);
        return 0, true;
      }
      assert s[k] == c && incoming[pos..] == s[k..];
      ghost var m := Extent(s[k + 1..], ignore);
      var isNegative;
      value, isNegative, ended := Accumulate(c, ignore);
      Wrap32Negate(Decimal(s[k..k + 1 + m], ignore));
      assert s[k..][..1 + m] == s[k..k + 1 + m] && s[k..][1..] == s[k + 1..];
      if isNegative { value := Wrap32(-value); }
      ParsedIs(s, k, m, mode, ignore, Decimal(s[k..k + 1 + m], ignore), value);
    }

    /** parseInt's loop: take the first character and the digits and ignored characters after it.  At the
        end of the stream a round with `ignore` -1 takes nothing and changes nothing. */
    method Accumulate(first: int, ignore: int) returns (value: int, isNegative: bool, ended: bool)
      requires Valid() && pos < |incoming| && first == incoming[pos] && Starts(first)
      modifies this
      ensures Valid()
      ensures var s := incoming[old(pos)..]; var m := Extent(s[1..], ignore);
              && pos == old(pos) + 1 + m && value == Wrap32(Decimal(s[..1 + m], ignore))
              && isNegative == (first == MINUS && first != ignore)
              && (ended <==> ignore != -1 || 1 + m < |s|)
    {
      hide Extent, Decimal, Wrap32;
      ghost var s := incoming[pos..];
      NothingYet(s, 0, ignore);
      assert s[0..0] == s[..0];
      value, isNegative := 0, false;
      var c := first;
      value, isNegative := Take(c, ignore, value, isNegative, s, 0);
      c := TimedPeek();
      while pos < |incoming| && (IsDigit(c) || c == ignore)
        invariant Valid() && old(pos) < pos && c == (if pos < |incoming| then incoming[pos] else -1)
        invariant value == Wrap32(Decimal(s[..pos - old(pos)], ignore))
        invariant isNegative == (first == MINUS && first != ignore)
        invariant pos - old(pos) - 1 + Extent(s[pos - old(pos)..], ignore) == Extent(s[1..], ignore)
        decreases |incoming| - pos
      {
        ExtentStep(s, ignore, pos - old(pos));
        value, isNegative := Take(c, ignore, value, isNegative, s, pos - old(pos));
        c := TimedPeek();
      }
      ExtentStep(s, ignore, pos - old(pos));
      ended := !(IsDigit(c) || c == ignore);
    }

    /** One round: account for `c`, which is next in the stream, and consume it. */
    method Take(c: int, ignore: int, v: int, neg: bool, ghost s: Text, ghost i: nat) returns (value: int, isNegative: bool)
      requires Valid() && pos < |incoming| && c == incoming[pos] && i < |s| && s[i] == c
      requires v == Wrap32(Decimal(s[..i], ignore))
      modifies this
      ensures Valid() && pos == old(pos) + 1 && value == Wrap32(Decimal(s[..i + 1], ignore))
      ensures isNegative == (neg || (c == MINUS && c != ignore))
    {
      hide Extent, Decimal, Wrap32;
      Consume(s, i, ignore);
      value, isNegative := v, neg;
      if c == ignore {
      } else if c == MINUS {
        isNegative := true;
      } else if IsDigit(c) {
        value := Wrap32(value * 10 + c - 48);
      }
      var taken := TimedRead();
    }
  }

  lemma NothingThere(s: Text, mode: Lookahead, ignore: int)
    requires var k := Skipped(s, mode); k == |s| || !Starts(s[k])
    ensures Parsed(s, mode, ignore) == (Skipped(s, mode), 0)
  {
  }

  lemma NothingYet(s: Text, k: nat, ignore: int)
    requires k <= |s|
    ensures Wrap32(Decimal(s[k..k], ignore)) == 0
  {
    Wrap32Unique(0, 0, 0);
  }

  /** One more character of the number. */
  lemma Consume(s: Text, i: nat, ignore: int)
    requires i < |s|
    ensures var v, c := Decimal(s[..i], ignore), s[i];
            Wrap32(Decimal(s[..i + 1], ignore)) ==
              if c != ignore && IsDigit(c) then Wrap32(Wrap32(v) * 10 + c - 48) else Wrap32(v)
  {
    hide Wrap32, Decimal;
    DecimalSnoc(s[..i], s[i], ignore);
    assert s[..i + 1] == s[..i] + [s[i]];
    Wrap32Step(Decimal(s[..i], ignore), s[i] - 48);
  }
}
