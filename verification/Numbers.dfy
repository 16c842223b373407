/** Numbers as text: digit strings, their values, and 32-bit wrap-around. */
module Numbers {
  import opened Arith

  const TWO31 := 0x8000_0000
  const TWO32 := 0x1_0000_0000

  /** The 32-bit signed value congruent to `x`. */
  function Wrap32(x: int): (w: int)
    ensures -0x8000_0000 <= w < 0x8000_0000 && (x - w) % 0x1_0000_0000 == 0
  {
    (x + TWO31) % TWO32 - TWO31
  }

  lemma Wrap32Unique(x: int, w: int, k: int)
    requires -TWO31 <= w < TWO31 && x == w + k * TWO32
    ensures Wrap32(x) == w
  {
    DivModUnique(x + TWO31, TWO32, k, w + TWO31);
  }

  function Wraps(x: int): int {
    (x + TWO31) / TWO32
  }

  lemma Wrap32Splits(x: int)
    ensures x == Wrap32(x) + Wraps(x) * TWO32
  {
  }

  /** Wrapping at every step is as good as wrapping once. */
  lemma Wrap32Step(v: int, d: int)
    ensures Wrap32(Wrap32(v) * 10 + d) == Wrap32(v * 10 + d)
  {
    hide Wrap32;
    var t := Wrap32(v) * 10 + d;
    Wrap32Splits(v);
    Wrap32Splits(t);
    Wrap32Unique(v * 10 + d, Wrap32(t), Wraps(t) + 10 * Wraps(v));
  }

  lemma Wrap32Negate(v: int)
    ensures Wrap32(-Wrap32(v)) == Wrap32(-v)
  {
    hide Wrap32;
    Wrap32Splits(v);
    Wrap32Splits(-Wrap32(v));
    Wrap32Unique(-v, Wrap32(-Wrap32(v)), Wraps(-Wrap32(v)) - Wraps(v));
  }

  // ----- digit strings -----

  const MINUS := 45

  /** The character printNumber() uses for digit `d`. */
  function DigitChar(d: nat): int {
    if d < 10 then d + 48 else d + 65 - 10
  }

  ghost predicate Digits(ds: seq<nat>, base: nat) {
    forall i :: 0 <= i < |ds| ==> ds[i] < base
  }

  /** The number a digit string stands for, most significant digit first. */
  function Value(ds: seq<nat>, base: nat): nat {
    if ds == [] then 0 else Value(ds[..|ds| - 1], base) * base + ds[|ds| - 1]
  }

  /** A proper numeral: digits of the base, no leading zero except in zero itself. */
  ghost predicate Numeral(ds: seq<nat>, base: nat) {
    Digits(ds, base) && ds != [] && (ds[0] == 0 ==> |ds| == 1)
  }

  function Chars(ds: seq<nat>): seq<int> {
    seq(|ds|, i requires 0 <= i < |ds| => DigitChar(ds[i]))
  }

  lemma {:induction false} ValuePositive(ds: seq<nat>, base: nat)
    requires 2 <= base && Digits(ds, base) && ds != [] && ds[0] != 0
    ensures 0 < Value(ds, base)
  {
    if |ds| > 1 {
      ValuePositive(ds[..|ds| - 1], base);
      MulAtLeast(Value(ds[..|ds| - 1], base), base);
    } else {
      assert ds[..0] == [];
    }
  }

  /** The numeral of `n`. */
  function NumeralOf(n: nat, base: nat): (ds: seq<nat>)
    requires 2 <= base
    ensures Numeral(ds, base) && Value(ds, base) == n
    decreases n
  {
    if n < base then [n] else
      DivSmaller(n, base);
      NumeralOf(n / base, base) + [n % base]
  }

  /** A number in base 10 with its sign. */
  function Printed(n: int): seq<int> {
    if n < 0 then [MINUS] + Chars(NumeralOf(-n, 10)) else Chars(NumeralOf(n, 10))
  }

  /** Every number has one numeral in each base. */
  lemma {:induction false} NumeralUnique(ds: seq<nat>, es: seq<nat>, base: nat)
    requires 2 <= base && Numeral(ds, base) && Numeral(es, base) && Value(ds, base) == Value(es, base)
    ensures ds == es
    decreases |ds|
  {
    var d, e := ds[..|ds| - 1], es[..|es| - 1];
    DivModUnique(Value(ds, base), base, Value(d, base), ds[|ds| - 1]);
    DivModUnique(Value(es, base), base, Value(e, base), es[|es| - 1]);
    if d == [] {
      if e != [] { ValuePositive(e, base); }
    } else {
      ValuePositive(d, base);
      if e != [] { NumeralUnique(d, e, base); }
    }
    assert ds == d + [ds[|ds| - 1]] && es == e + [es[|es| - 1]];
  }

  /** The digit table, in full. */
  lemma DigitTable(d: nat)
    requires d < 36
    ensures DigitChar(d) == "0123456789ABCDEFGHIJKLMNOPQRSTUVWXYZ"[d] as int
  {
  }

  /** In bases up to 36 different digits print differently. */
  lemma CharsInjective(ds: seq<nat>, es: seq<nat>)
    requires Digits(ds, 36) && Digits(es, 36) && Chars(ds) == Chars(es)
    ensures ds == es
  {
    assert |Chars(ds)| == |Chars(es)|;
    forall i | 0 <= i < |ds| ensures ds[i] == es[i] {
      assert Chars(ds)[i] == Chars(es)[i];
    }
  }

  /** Prepending a digit. */
  lemma {:induction false} ValueCons(d: nat, ds: seq<nat>, base: nat)
    ensures Value([d] + ds, base) == d * Pow(base, |ds|) + Value(ds, base)
  {
    if ds == [] {
      assert [d] + ds == [d] && [d][..0] == [];
    } else {
      var n := |ds| - 1;
      ValueCons(d, ds[..n], base);
      assert ([d] + ds)[..n + 1] == [d] + ds[..n];
      var p := Pow(base, n);
      assert ([d] + ds)[n + 1] == ds[n];
      Distribute(d, p, Value(ds[..n], base), base);
    }
  }

  lemma Distribute(d: int, p: int, v: int, b: int)
    ensures (d * p + v) * b == d * (p * b) + v * b
  {
  }

  function Pow(b: nat, n: nat): nat {
    if n == 0 then 1 else Pow(b, n - 1) * b
  }
}
