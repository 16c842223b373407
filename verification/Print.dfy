/** Print::printNumber and print(long, base): the text of a number. */
module Print {
  import opened Arith
  import opened Numbers

  const BUF_SIZE := 33   // 8 * sizeof(long) + 1

  lemma DivPow2(n: nat, base: nat, k: nat)
    requires 2 <= base && n < Pow(2, k)
    ensures n / base < Pow(2, if k == 0 then 0 else k - 1)
  {
    var q, r := n / base, n % base;
    assert n == q * base + r;
    MulMonotone(q, 2, base);
  }

  lemma Pow2Is()
    ensures Pow(2, 32) == TWO32
  {
    assert Pow(2, 8) == 256;
    assert Pow(2, 16) == 256 * 256 by { assert Pow(2, 12) == 4096; }
    assert Pow(2, 24) == 256 * 256 * 256 by { assert Pow(2, 20) == 256 * 4096; }
    assert Pow(2, 28) == 256 * 256 * 256 * 16;
  }

  /** After some digits, least significant first: what is left and what is written make up the
      number, nothing superfluous is written, and the rest fits the `room` left. */
  ghost predicate Progress(n: nat, room: nat, ds: seq<nat>, b: nat, number: nat) {
    && n < Pow(2, room) && Digits(ds, b) && n * Pow(b, |ds|) + Value(ds, b) == number
    && (n == 0 && ds != [] ==> Numeral(ds, b))
  }

  lemma ProgressStart(number: nat, b: nat)
    requires number < TWO32
    ensures Progress(number, 32, [], b, number)
  {
    Pow2Is();
  }

  lemma ProgressStep(n: nat, room: nat, ds: seq<nat>, b: nat, number: nat)
    requires 2 <= b && 0 < room && Progress(n, room, ds, b, number) && (ds == [] || n != 0)
    ensures Progress(n / b, room - 1, [n % b] + ds, b, number)
  {
    hide Value, Pow;
    DivPow2(n, b, room);
    AddDigit(n, b, ds, number);
  }

  lemma ProgressRoom(n: nat, room: nat, ds: seq<nat>, b: nat, number: nat)
    requires Progress(n, room, ds, b, number) && n != 0
    ensures 0 < room
  {
  }

  lemma ProgressDone(room: nat, ds: seq<nat>, b: nat, number: nat)
    requires 2 <= b && Progress(0, room, ds, b, number) && ds != []
    ensures ds == NumeralOf(number, b)
  {
    hide NumeralOf, Value;
    assert 0 * Pow(b, |ds|) == 0;
    NumeralUnique(ds, NumeralOf(number, b), b);
  }

  // ----- what is sent -----

  /** The byte stored for digit `d`: a `char` is signed, so from 128 on `c` is negative, and the sum is
      cut to 8 bits. */
  function DigitByte(d: nat): int {
    var c := if d < 128 then d else d - 256;
    (if c < 10 then c + 48 else c + 65 - 10) % 256
  }

  /** From 128 on the sum starts at '0' minus 256, whatever the digit. */
  lemma DigitByteIs(d: nat)
    requires d < 256
    ensures DigitByte(d) == if d < 10 then 48 + d else if d < 128 then 55 + d else (d + 48) % 256
  {
  }

  function Bytes(ds: seq<nat>): seq<int> {
    seq(|ds|, i requires 0 <= i < |ds| => DigitByte(ds[i]))
  }

  /** What write(str) sends of a buffer: up to the first NUL. */
  function UpToNul(s: seq<int>): seq<int> {
    if s == [] || s[0] == 0 then [] else [s[0]] + UpToNul(s[1..])
  }

  lemma BytesCons(d: nat, ds: seq<nat>)
    ensures Bytes([d] + ds) == [DigitByte(d)] + Bytes(ds)
  {
  }

  lemma {:induction false} UpToNulIs(s: seq<int>)
    ensures UpToNul(s) <= s && (0 !in s ==> UpToNul(s) == s)
    decreases |s|
  {
    if s != [] && s[0] != 0 {
      UpToNulIs(s[1..]);
      assert 0 !in s ==> 0 !in s[1..];
      assert s == [s[0]] + s[1..];
    }
  }

  /** What is sent is the numeral exactly when every digit is below 128. */
  lemma SentIsNumeralIff(ds: seq<nat>)
    requires Digits(ds, 256)
    ensures UpToNul(Bytes(ds)) == Chars(ds) <==> Digits(ds, 128)
  {
    hide UpToNul;
    UpToNulIs(Bytes(ds));
    if Digits(ds, 128) {
      assert Bytes(ds) == Chars(ds);
      assert forall i :: 0 <= i < |ds| ==> Bytes(ds)[i] != 0;
    }
    if UpToNul(Bytes(ds)) == Chars(ds) {
      assert |Bytes(ds)| == |Chars(ds)|;
      assert Bytes(ds) == Chars(ds);
      forall i | 0 <= i < |ds| ensures ds[i] < 128 { assert Bytes(ds)[i] == Chars(ds)[i]; }
    }
  }

  /** So on every number exactly when the base is at most 128. */
  lemma BaseIff(base: nat)
    requires 2 <= base < 256
    ensures base <= 128 <==>
            forall n: nat {:trigger NumeralOf(n, base)} :: n < TWO32 ==>
              UpToNul(Bytes(NumeralOf(n, base))) == Chars(NumeralOf(n, base))
  {
    hide UpToNul, Bytes, Chars, Value;
    if base <= 128 {
      forall n: nat {:trigger NumeralOf(n, base)} | n < TWO32
        ensures UpToNul(Bytes(NumeralOf(n, base))) == Chars(NumeralOf(n, base))
      {
        SentIsNumeralIff(NumeralOf(n, base));
      }
    } else {
      SentIsNumeralIff([128]);
      assert NumeralOf(128, base) == [128] && [128][0] == 128;
    }
  }

  /** 150 in base 200 goes out as the byte 198, and 208 in base 255, whose byte is 0, not at all. */
  lemma LargeBaseExamples()
    ensures UpToNul(Bytes(NumeralOf(150, 200))) == [198] && UpToNul(Bytes(NumeralOf(208, 255))) == []
  {
    assert NumeralOf(150, 200) == [150] && NumeralOf(208, 255) == [208];
    assert Bytes([150]) == [198] && Bytes([208]) == [0];
  }

  // ----- the methods -----

  /** write(const char*): strlen, then that many bytes. */
  method WriteString(buf: array<int>, str: nat) returns (sent: seq<int>)
    requires str < buf.Length && buf[buf.Length - 1] == 0
    ensures sent == UpToNul(buf[str..buf.Length - 1])
  {
    var n := buf.Length - 1;
    var end := str;
    while buf[end] != 0
      invariant str <= end <= n && UpToNul(buf[str..n]) == buf[str..end] + UpToNul(buf[end..n])
      decreases n - end
    {
      assert buf[end..n][1..] == buf[end + 1..n];
      assert buf[str..end] + [buf[end]] == buf[str..end + 1];
      end := end + 1;
    }
    sent := buf[str..end];
  }

  /** Put one more digit in front of the digits `ds`. */
  method PutDigit(buf: array<int>, str: nat, d: nat, ghost ds: seq<nat>)
    requires buf.Length == BUF_SIZE && str + 1 < BUF_SIZE && buf[str + 1..BUF_SIZE - 1] == Bytes(ds)
    modifies buf
    ensures buf[str..BUF_SIZE - 1] == Bytes([d] + ds) && buf[BUF_SIZE - 1] == old(buf[BUF_SIZE - 1])
  {
    hide Bytes;
    BytesCons(d, ds);
    var c: int := if d < 128 then d else d - 256;
    buf[str] := (if c < 10 then c + 48 else c + 65 - 10) % 256;
    assert buf[str + 1..BUF_SIZE - 1] == Bytes(ds);
    assert buf[str..BUF_SIZE - 1] == [buf[str]] + buf[str + 1..BUF_SIZE - 1];
  }

  /** printNumber: fill the buffer from its end and write what was filled.  The 33 bytes suffice in
      every base, and up to base 128 what is written is the numeral of `n`. */
  method PrintNumber(number: nat, base: nat) returns (sent: seq<int>)
    requires number < TWO32 && base < 256
    ensures sent == UpToNul(Bytes(NumeralOf(number, if base < 2 then 10 else base)))
    ensures base <= 128 ==> sent == Chars(NumeralOf(number, if base < 2 then 10 else base))
    ensures |sent| < BUF_SIZE
  {
    hide Numeral, Value, Bytes, Chars, NumeralOf, UpToNul;
    var buf := new int[BUF_SIZE];
    buf[BUF_SIZE - 1] := 0;
    var b := base;
    if b < 2 { b := 10; }   // bases 0 and 1 are taken for 10
    var str := FillBuffer(buf, number, b);
    sent := WriteString(buf, str);
    UpToNulIs(Bytes(NumeralOf(number, b)));
    if b <= 128 { NumeralSent(number, b); }
  }

  /** The loop over the digits, from the last to the first. */
  method FillBuffer(buf: array<int>, number: nat, b: nat) returns (str: nat)
    requires buf.Length == BUF_SIZE && number < TWO32 && 2 <= b
    modifies buf
    ensures str < BUF_SIZE - 1 && buf[BUF_SIZE - 1] == old(buf[BUF_SIZE - 1])
    ensures buf[str..BUF_SIZE - 1] == Bytes(NumeralOf(number, b))
  {
    hide Progress, Numeral, Value, Bytes, Chars, NumeralOf, UpToNul, DigitByte;
    str := BUF_SIZE - 1;
    var n: nat := number;
    ghost var ds: seq<nat> := [];
    ProgressStart(number, b);
    NoBytes();
    while true
      invariant 1 <= str < BUF_SIZE && |ds| == BUF_SIZE - 1 - str && (ds == [] || n != 0)
      invariant Progress(n, str, ds, b, number)
      invariant buf[str..BUF_SIZE - 1] == Bytes(ds) && buf[BUF_SIZE - 1] == old(buf[BUF_SIZE - 1])
      decreases str
    {
      ProgressStep(n, str, ds, b, number);
      NatDiv(n, b);
      var d := n % b;
      n := n / b;
      str := str - 1;
      PutDigit(buf, str, d, ds);
      ds := [d] + ds;
      if n == 0 { break; }
      ProgressRoom(n, str, ds, b, number);
    }
    ProgressDone(str, ds, b, number);
  }

  lemma NatDiv(n: nat, b: nat)
    requires 2 <= b
    ensures 0 <= n / b && 0 <= n % b < b
  {
  }

  lemma NumeralSent(number: nat, b: nat)
    requires 2 <= b <= 128
    ensures UpToNul(Bytes(NumeralOf(number, b))) == Chars(NumeralOf(number, b))
  {
    hide Value, UpToNul, Bytes, Chars;
    SentIsNumeralIff(NumeralOf(number, b));
  }

  /** print(long, base): base 0 writes one raw byte, base 10 shows the sign, the others the two's
      complement, with the base cut to 8 bits on the way.  The negation wraps, so the least number
      prints through its own bit pattern. */
  method PrintLong(number: int, base: int) returns (sent: seq<int>)
    requires -0x8000_0000 <= number < 0x8000_0000
    ensures sent == if base == 0 then [number % 256]
                    else if base == 10 then Printed(number)
                    else UpToNul(Bytes(NumeralOf(number % TWO32, if base % 256 < 2 then 10 else base % 256)))
    ensures base != 0 && base != 10 && base % 256 <= 128 ==>
              sent == Chars(NumeralOf(number % TWO32, if base % 256 < 2 then 10 else base % 256))
  {
    hide NumeralOf, Chars, Wrap32, Bytes, UpToNul;
    if base == 0 {
      sent := [number % 256];
    } else if base == 10 {
      if number < 0 {
        var n := Wrap32(-number);
        WrappedMod(-number);
        sent := PrintNumber(n % TWO32, 10);
        sent := [MINUS] + sent;
      } else {
        sent := PrintNumber(number % TWO32, 10);
      }
    } else {
      sent := PrintNumber(number % TWO32, base % 256);
    }
  }

  lemma WrappedMod(x: int)
    ensures Wrap32(x) % TWO32 == x % TWO32
  {
  }

  lemma NoBytes()
    ensures Bytes([]) == []
  {
  }

  lemma Distribute(q: int, b: int, r: int, p: int)
    ensures (q * b + r) * p == q * (p * b) + r * p
  {
  }

  lemma AddDigit(n: nat, b: nat, ds: seq<nat>, number: nat)
    requires 2 <= b && n * Pow(b, |ds|) + Value(ds, b) == number
    ensures (n / b) * Pow(b, |ds| + 1) + Value([n % b] + ds, b) == number
  {
    hide Value, Pow;
    ValueCons(n % b, ds, b);
    PowNext(b, |ds|);
    Distribute(n / b, b, n % b, Pow(b, |ds|));
  }

  lemma PowNext(b: nat, k: nat)
    ensures Pow(b, k + 1) == Pow(b, k) * b
  {
  }
}
