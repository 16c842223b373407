/** The baud-rate setting, as HardwareSerial::begin and optiboot compute it. */
module Baud {
  import opened Arith

  const TWO16 := 0x1_0000
  const TWO32 := 0x1_0000_0000

  /** (F_CPU / n / baud - 1) / 2 in unsigned long, cut to uint16_t; `n` is 4 at double speed, else 8. */
  function CoreSetting(f: nat, n: nat, baud: nat): nat
    requires 0 < n && 0 < baud
  {
    (f / n / baud - 1) % TWO32 / 2 % TWO16
  }

  /** (F_CPU + BAUD_RATE * n) / (BAUD_RATE * 2 n) - 1; the boot loader's is that for `n` = 4. */
  function Rounded(f: nat, n: nat, baud: nat): int
    requires 0 < n && 0 < baud
  {
    (f + baud * n) / (baud * (2 * n)) - 1
  }

  /** begin(): double speed first, then without when that will not do. */
  method Begin(f: nat, baud: nat) returns (setting: nat, doubleSpeed: bool)
    requires 0 < baud && f < TWO32
    ensures setting == CoreSetting(f, if doubleSpeed then 4 else 8, baud)
    ensures doubleSpeed <==> CoreSetting(f, 4, baud) <= 4095 && !(f == 16000000 && baud == 57600)
    ensures var n := if doubleSpeed then 4 else 8;
            1 <= f / n / baud ==> (IsNearest(f, n, baud, setting) <==> Rounded(f, n, baud) < TWO16)
  {
    setting, doubleSpeed := (f / 4 / baud - 1) % TWO32 / 2 % TWO16, true;
    if (f == 16000000 && baud == 57600) || setting > 4095 {
      setting, doubleSpeed := (f / 8 / baud - 1) % TWO32 / 2 % TWO16, false;
    }
    var n := if doubleSpeed then 4 else 8;
    if 1 <= f / n / baud { SettingIsNearestIff(f, n, baud); }
  }

  /** No divisor comes closer to F / (2 n baud) than `setting` + 1. */
  ghost predicate IsNearest(f: nat, n: nat, baud: nat, setting: int) {
    var m := n * baud;
    -m <= f - 2 * m * (setting + 1) < m
  }

  lemma DivDiv(x: nat, a: nat, b: nat)
    requires 0 < a && 0 < b
    ensures x / a / b == x / (a * b)
  {
    var q := x / a;
    var p, r, s := q / b, q % b, x % a;
    assert x == q * a + s && q == p * b + r;
    MulMonotone(a, r + 1, b);
    assert (p * b + r) * a + s == p * (a * b) + (r * a + s);
    DivModUnique(x, a * b, p, r * a + s);
  }

  lemma DivShift(x: nat, n: nat)
    requires 0 < n
    ensures (x + n) / n == x / n + 1
  {
    DivModUnique(x + n, n, x / n + 1, x % n);
  }

  lemma SmallQuotient(x: nat, n: nat)
    requires 0 < n
    ensures 0 <= x / n <= x
  {
    MulMonotone(x / n, 1, n);
  }

  /** Before the cut the two formulas agree. */
  lemma UncutAgrees(f: nat, n: nat, baud: nat)
    requires 0 < n && 0 < baud && 1 <= f / n / baud
    ensures (f / n / baud - 1) / 2 == Rounded(f, n, baud)
  {
    var m := n * baud;
    DivDiv(f, n, baud);
    DivDiv(f + m, m, 2);
    DivShift(f, m);
    assert baud * n == m && baud * (2 * n) == m * 2;
  }

  /** The core's setting is the rounded one cut to 16 bits, so they agree exactly when that fits. */
  lemma SettingsAgreeIff(f: nat, n: nat, baud: nat)
    requires 0 < n && 0 < baud && f < TWO32 && 1 <= f / n / baud
    ensures CoreSetting(f, n, baud) == Rounded(f, n, baud) % TWO16
    ensures CoreSetting(f, n, baud) == Rounded(f, n, baud) <==> Rounded(f, n, baud) < TWO16
  {
    UncutAgrees(f, n, baud);
    SmallQuotient(f, n);
    SmallQuotient(f / n, baud);
    hide Rounded;
    var x := f / n / baud;
    assert (x - 1) % TWO32 == x - 1;
  }

  lemma RoundedIsNearest(f: nat, n: nat, baud: nat)
    requires 0 < n && 0 < baud
    ensures IsNearest(f, n, baud, Rounded(f, n, baud))
  {
    var m := n * baud;
    var x := f + m;
    assert baud * n == m && baud * (2 * n) == 2 * m;
    assert x == x / (2 * m) * (2 * m) + x % (2 * m);
    assert 2 * m * (x / (2 * m)) == x / (2 * m) * (2 * m);
  }

  /** The core's setting is the nearest exactly when the rounded one fits 16 bits. */
  lemma SettingIsNearestIff(f: nat, n: nat, baud: nat)
    requires 0 < n && 0 < baud && f < TWO32 && 1 <= f / n / baud
    ensures IsNearest(f, n, baud, CoreSetting(f, n, baud)) <==> Rounded(f, n, baud) < TWO16
  {
    SettingsAgreeIff(f, n, baud);
    RoundedIsNearest(f, n, baud);
    if IsNearest(f, n, baud, CoreSetting(f, n, baud)) {
      NearestUnique(f, n, baud, CoreSetting(f, n, baud), Rounded(f, n, baud));
    }
  }

  lemma NearestUnique(f: nat, n: nat, baud: nat, s: int, t: int)
    requires 0 < n && 0 < baud && IsNearest(f, n, baud, s) && IsNearest(f, n, baud, t)
    ensures s == t
  {
    var m := n * baud;
    assert 0 < m by { MulAtLeast(n, baud); }
    assert 2 * m * (s + 1) - 2 * m * (t + 1) == (s - t) * (2 * m);
    assert 2 * m * (t + 1) - 2 * m * (s + 1) == (t - s) * (2 * m);
    if s - t >= 1 { MulAtLeast(s - t, 2 * m); }
    if t - s >= 1 { MulAtLeast(t - s, 2 * m); }
  }

  /** At 16 MHz and 10 baud the cut setting even passes begin()'s test for low rates. */
  lemma CutExample()
    ensures CoreSetting(16000000, 4, 10) == 3391 && Rounded(16000000, 4, 10) == 199999
  {
  }
}
