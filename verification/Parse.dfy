/** Stream::parseInt: what it makes of the text ahead, and that it reads back what print() wrote. */
module Parse {
  import opened Numbers

  /** Characters as the stream delivers them (0..255) or as a target holds them (signed `char`). */
  type Text = seq<int>

  datatype Lookahead = SkipAll | SkipNone | SkipWhitespace

  predicate IsDigit(c: int) {
    48 <= c <= 57
  }

  predicate Skippable(mode: Lookahead, c: int) {
    mode == SkipAll || (mode == SkipWhitespace && (c == 32 || c == 9 || c == 13 || c == 10))
  }

  predicate Starts(c: int) {
    c == MINUS || IsDigit(c)
  }

  /** How many characters are discarded before the number or the failure. */
  function Skipped(s: Text, mode: Lookahead): (k: nat)
    ensures k <= |s|
  {
    if s == [] || Starts(s[0]) || !Skippable(mode, s[0]) then 0 else 1 + Skipped(s[1..], mode)
  }

  /** How many characters after the first belong to the number. */
  function Extent(s: Text, ignore: int): (m: nat)
    ensures m <= |s|
  {
    if s != [] && (IsDigit(s[0]) || s[0] == ignore) then 1 + Extent(s[1..], ignore) else 0
  }

  /** The decimal value of the digits in `s` other than `ignore`. */
  function Decimal(s: Text, ignore: int): nat {
    if s == [] then 0 else
    var v, c := Decimal(s[..|s| - 1], ignore), s[|s| - 1];
    if c != ignore && IsDigit(c) then v * 10 + (c - 48) else v
  }

  /** What parseInt consumes and returns. */
  function Parsed(s: Text, mode: Lookahead, ignore: int): (r: (nat, int))
    ensures r.0 <= |s|
  {
    var k := Skipped(s, mode);
    if k == |s| || !Starts(s[k]) then (k, 0) else
    var m := Extent(s[k + 1..], ignore);
    var v: int := Decimal(s[k..k + 1 + m], ignore);
    (k + 1 + m, Wrap32(if s[k] == MINUS && s[k] != ignore then -v else v))
  }

  /** The loop over the number comes to an end: at a character it does not take, or at a time-out,
      which is -1. */
  predicate Stops(s: Text, mode: Lookahead, ignore: int) {
    var k := Skipped(s, mode);
    k == |s| || !Starts(s[k]) || ignore != -1 || k + 1 + Extent(s[k + 1..], ignore) < |s|
  }

  /** What peeking at position `i` gives; past the end, a time-out. */
  function PeekAt(s: Text, i: nat): int {
    if i < |s| then s[i] else -1
  }

  /** The loop takes digits and the ignored character. */
  predicate Takes(c: int, ignore: int) {
    IsDigit(c) || c == ignore
  }

  lemma {:induction false} ExtentIs(s: Text, ignore: int)
    ensures forall i :: 0 <= i < Extent(s, ignore) ==> Takes(s[i], ignore)
    ensures Extent(s, ignore) < |s| ==> !Takes(s[Extent(s, ignore)], ignore)
  {
    if s != [] && Takes(s[0], ignore) {
      ExtentIs(s[1..], ignore);
      assert forall i :: 0 < i < |s| ==> s[i] == s[1..][i - 1];
    }
  }

  /** Stops is exactly when some character after the first, or the time-out at the end, is not taken. */
  lemma StopsIff(s: Text, mode: Lookahead, ignore: int)
    requires Skipped(s, mode) < |s| && Starts(s[Skipped(s, mode)])
    ensures Stops(s, mode, ignore) <==> exists i: nat :: Skipped(s, mode) < i && !Takes(PeekAt(s, i), ignore)
  {
    hide Skipped, Extent;
    var k := Skipped(s, mode);
    var m := Extent(s[k + 1..], ignore);
    ExtentIs(s[k + 1..], ignore);
    assert forall i :: k < i < |s| ==> s[i] == s[k + 1..][i - k - 1];
    if ignore != -1 {
      assert !Takes(PeekAt(s, |s|), ignore);
    } else if k + 1 + m < |s| {
      assert !Takes(PeekAt(s, k + 1 + m), ignore);
    }
  }

  lemma DecimalSnoc(s: Text, c: int, ignore: int)
    ensures Decimal(s + [c], ignore) ==
            if c != ignore && IsDigit(c) then Decimal(s, ignore) * 10 + (c - 48) else Decimal(s, ignore)
  {
    assert (s + [c])[..|s|] == s;
  }

  lemma {:induction false} DecimalOfChars(ds: seq<nat>, ignore: int)
    requires Digits(ds, 10) && !IsDigit(ignore)
    ensures Decimal(Chars(ds), ignore) == Value(ds, 10)
    ensures Decimal([MINUS] + Chars(ds), ignore) == Value(ds, 10)
  {
    if ds == [] {
      assert Chars(ds) == [] && [MINUS] + Chars(ds) == [MINUS] && [MINUS][..0] == [];
    } else {
      var n := |ds| - 1;
      DecimalOfChars(ds[..n], ignore);
      assert Chars(ds) == Chars(ds[..n]) + [DigitChar(ds[n])];
      DecimalSnoc(Chars(ds[..n]), DigitChar(ds[n]), ignore);
      DecimalSnoc([MINUS] + Chars(ds[..n]), DigitChar(ds[n]), ignore);
      assert [MINUS] + Chars(ds) == ([MINUS] + Chars(ds[..n])) + [DigitChar(ds[n])];
    }
  }

  lemma {:induction false} ExtentOfChars(ds: seq<nat>, rest: Text, ignore: int)
    requires Digits(ds, 10) && (rest != [] ==> !IsDigit(rest[0]) && rest[0] != ignore)
    ensures Extent(Chars(ds) + rest, ignore) == |ds|
  {
    if ds == [] {
      assert Chars(ds) + rest == rest;
    } else {
      assert Chars(ds) == [DigitChar(ds[0])] + Chars(ds[1..]);
      assert (Chars(ds) + rest)[1..] == Chars(ds[1..]) + rest;
      ExtentOfChars(ds[1..], rest, ignore);
    }
  }

  lemma ReadsNumeral(n: int, ds: seq<nat>, rest: Text, mode: Lookahead, ignore: int)
    requires -0x8000_0000 <= n < 0x8000_0000 && Numeral(ds, 10) && Value(ds, 10) == (if n < 0 then -n else n)
    requires !Starts(ignore) && (rest != [] ==> !IsDigit(rest[0]) && rest[0] != ignore)
    ensures var printed := if n < 0 then [MINUS] + Chars(ds) else Chars(ds);
            && Parsed(printed + rest, mode, ignore) == (|printed|, n)
            && (Stops(printed + rest, mode, ignore) <==> rest != [] || ignore != -1)
  {
    hide Decimal, Extent, Value, Wrap32, Skipped, Chars, Parsed, Stops;
    CharsTail(ds);
    var printed := if n < 0 then [MINUS] + Chars(ds) else Chars(ds);
    var s := printed + rest;
    SkipStep(s, mode, 0);
    assert s[0..] == s;
    DecimalOfChars(ds, ignore);
    Wrap32Unique(n, n, 0);
    assert s[0..|printed|] == printed;
    if n < 0 {
      assert s[1..] == Chars(ds) + rest;
      ExtentOfChars(ds, rest, ignore);
      ParsedIs(s, 0, |ds|, mode, ignore, Value(ds, 10), n);
      StopsAt(s, 0, |ds|, mode, ignore);
    } else {
      assert s[1..] == Chars(ds[1..]) + rest;
      ExtentOfChars(ds[1..], rest, ignore);
      ParsedIs(s, 0, |ds| - 1, mode, ignore, Value(ds, 10), n);
      StopsAt(s, 0, |ds| - 1, mode, ignore);
    }
  }

  lemma StopsAt(s: Text, k: nat, m: nat, mode: Lookahead, ignore: int)
    requires Skipped(s, mode) == k < |s| && Starts(s[k]) && Extent(s[k + 1..], ignore) == m
    ensures Stops(s, mode, ignore) <==> ignore != -1 || k + 1 + m < |s|
  {
    hide Skipped, Extent;
  }

  lemma CharsTail(ds: seq<nat>)
    requires Digits(ds, 10) && ds != []
    ensures |Chars(ds)| == |ds| && IsDigit(Chars(ds)[0]) && Chars(ds)[1..] == Chars(ds[1..])
  {
  }

  /** Whatever print(n, 10) writes, followed by the end of input or by a character that is neither a
      digit nor the ignored one, parseInt reads back as `n`, consuming exactly that. */
  lemma RoundTrip(n: int, rest: Text, mode: Lookahead, ignore: int)
    requires -0x8000_0000 <= n < 0x8000_0000
    requires !Starts(ignore) && (rest != [] ==> !IsDigit(rest[0]) && rest[0] != ignore)
    ensures Parsed(Printed(n) + rest, mode, ignore) == (|Printed(n)|, n)
    ensures Stops(Printed(n) + rest, mode, ignore) <==> rest != [] || ignore != -1
  {
    hide NumeralOf, Numeral, Value, Chars, Parsed, Stops;
    ReadsNumeral(n, NumeralOf(if n < 0 then -n else n, 10), rest, mode, ignore);
  }

  /** From the pieces to the whole result. */
  lemma ParsedIs(s: Text, k: nat, m: nat, mode: Lookahead, ignore: int, v: int, w: int)
    requires Skipped(s, mode) == k < |s| && Starts(s[k]) && Extent(s[k + 1..], ignore) == m && k + 1 + m <= |s|
    requires Decimal(s[k..k + 1 + m], ignore) == v
    requires w == Wrap32(if s[k] == MINUS && s[k] != ignore then -v else v)
    ensures Parsed(s, mode, ignore) == (k + 1 + m, w)
  {
    hide Decimal, Extent, Wrap32, Skipped;
  }

  // ----- steps of the loops -----

  lemma SkipStep(s: Text, mode: Lookahead, i: nat)
    requires i <= |s|
    ensures Skipped(s[i..], mode) ==
            if i == |s| || Starts(s[i]) || !Skippable(mode, s[i]) then 0 else 1 + Skipped(s[i + 1..], mode)
  {
    if i < |s| { assert s[i..][1..] == s[i + 1..]; }
  }

  lemma ExtentStep(s: Text, ignore: int, i: nat)
    requires i <= |s|
    ensures Extent(s[i..], ignore) ==
            if i < |s| && (IsDigit(s[i]) || s[i] == ignore) then 1 + Extent(s[i + 1..], ignore) else 0
  {
    if i < |s| { assert s[i..][1..] == s[i + 1..]; }
  }

  // ----- what the modes discard, and what is ignored -----

  /** Everything discarded is no digit or minus sign, and what the mode names; the first character kept
      ends it.  SkipNone discards nothing, SkipAll everything up to a digit or minus sign, SkipWhitespace
      only blanks, tabs and line ends. */
  lemma {:induction false} SkippedIs(s: Text, mode: Lookahead)
    ensures var k := Skipped(s, mode);
            && (forall i :: 0 <= i < k ==> !(s[i] == 45 || 48 <= s[i] <= 57))
            && (mode == SkipNone ==> k == 0)
            && (mode == SkipAll ==> k == |s| || s[k] == 45 || 48 <= s[k] <= 57)
            && (mode == SkipWhitespace ==>
                  (forall i :: 0 <= i < k ==> s[i] == 32 || s[i] == 9 || s[i] == 13 || s[i] == 10) &&
                  (k == |s| || !(s[k] == 32 || s[k] == 9 || s[k] == 13 || s[k] == 10)))
    decreases |s|
  {
    if s != [] && Skipped(s, mode) != 0 {
      SkippedIs(s[1..], mode);
      assert forall i :: 0 < i < |s| ==> s[i] == s[1..][i - 1];
    }
  }

  /** A text without its ignored characters. */
  function Strip(s: Text, ignore: int): Text {
    if s == [] then [] else (if s[0] == ignore then [] else [s[0]]) + Strip(s[1..], ignore)
  }

  lemma {:induction false} StripSnoc(s: Text, c: int, ignore: int)
    ensures Strip(s + [c], ignore) == Strip(s, ignore) + if c == ignore then [] else [c]
    decreases |s|
  {
    if s == [] {
      assert s + [c] == [c] && [c][1..] == [];
    } else {
      assert (s + [c])[0] == s[0] && (s + [c])[1..] == s[1..] + [c];
      StripSnoc(s[1..], c, ignore);
    }
  }

  lemma {:induction false} DecimalOfStripped(s: Text, ignore: int)
    ensures Decimal(s, ignore) == Decimal(Strip(s, ignore), ignore)
    decreases |s|
  {
    if s != [] {
      var n := |s| - 1;
      DecimalOfStripped(s[..n], ignore);
      StripSnoc(s[..n], s[n], ignore);
      assert s == s[..n] + [s[n]];
      DecimalSnoc(s[..n], s[n], ignore);
      DecimalSnoc(Strip(s[..n], ignore), s[n], ignore);
      assert Strip(s[..n], ignore) + [] == Strip(s[..n], ignore);
    }
  }

  lemma {:induction false} ExtentOfStripped(s: Text, ds: seq<nat>, rest: Text, ignore: int)
    requires Digits(ds, 10) && Strip(s, ignore) == Chars(ds)
    requires rest != [] ==> !IsDigit(rest[0]) && rest[0] != ignore
    ensures Extent(s + rest, ignore) == |s|
    decreases |s|
  {
    if s == [] {
      assert s + rest == rest;
    } else {
      assert (s + rest)[1..] == s[1..] + rest;
      if s[0] == ignore {
        ExtentOfStripped(s[1..], ds, rest, ignore);
      } else {
        assert Chars(ds) == [s[0]] + Strip(s[1..], ignore);
        CharsTail(ds);
        assert Chars(ds)[0] == s[0];
        ExtentOfStripped(s[1..], ds[1..], rest, ignore);
      }
    }
  }

  /** A number printed in base 10 reads back even with ignored characters strewn in after its first. */
  lemma ReadsGrouped(n: int, s: Text, rest: Text, mode: Lookahead, ignore: int)
    requires -0x8000_0000 <= n < 0x8000_0000 && s != [] && s[0] != ignore && Strip(s, ignore) == Printed(n)
    requires !Starts(ignore) && (rest != [] ==> !IsDigit(rest[0]) && rest[0] != ignore)
    ensures Parsed(s + rest, mode, ignore) == (|s|, n)
  {
    hide Decimal, Extent, Value, Wrap32, Skipped, Chars, Parsed, NumeralOf, Numeral, Strip;
    var ds := NumeralOf(if n < 0 then -n else n, 10);
    var t := s + rest;
    NumeralDigits(ds, if n < 0 then -n else n);
    CharsTail(ds);
    StripHead(s, ignore);
    Wrap32Unique(n, n, 0);
    DecimalOfStripped(s, ignore);
    DecimalOfChars(ds, ignore);
    assert t[0..|s|] == s && t[0..] == t && t[1..] == s[1..] + rest;
    SkipStep(t, mode, 0);
    if n < 0 {
      assert ([MINUS] + Chars(ds))[1..] == Chars(ds);
      ExtentOfStripped(s[1..], ds, rest, ignore);
    } else {
      ExtentOfStripped(s[1..], ds[1..], rest, ignore);
    }
    ParsedIs(t, 0, |s| - 1, mode, ignore, Value(ds, 10), n);
  }

  lemma NumeralDigits(ds: seq<nat>, n: nat)
    requires ds == NumeralOf(n, 10)
    ensures Digits(ds, 10) && ds != [] && Value(ds, 10) == n
  {
  }

  lemma StripHead(s: Text, ignore: int)
    requires s != [] && s[0] != ignore
    ensures Strip(s, ignore) != [] && Strip(s, ignore)[0] == s[0] && Strip(s, ignore)[1..] == Strip(s[1..], ignore)
  {
  }
}
