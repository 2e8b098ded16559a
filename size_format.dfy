/**
 * The byte-size formatter `formatSize` of app/lib/utils.ts: a byte count
 * becomes "<number> <unit>" with unit KB, MB or GB (base 1024), the number
 * rounded to one decimal by `Number.prototype.toFixed(1)` and a trailing
 * ".0" trimmed; anything below one kilobyte reads "0 KB".
 *
 * Byte counts are integers. For an integer `n` below 2^53 the quotient
 * `n / 1024^k` is exact in a double (a division by a power of two), and `toFixed(1)`
 * (ECMAScript, section 21.1.3.3 of ECMA-262) picks the integer `t` for
 * which `t / 10` is closest to that quotient, the larger one on a tie; so
 * the whole computation is stated here with integer arithmetic.
 */
module SizeFormat {
  import opened Text

  /** A JavaScript number as far as `formatSize` looks at it. */
  datatype ByteCount =
    | Finite(value: int)   // an integer-valued finite number
    | NonFinite            // NaN, Infinity or -Infinity

  datatype Unit = KB | MB | GB

  /** The constants `KB`, `MB` and `GB` of the source. */
  function Divisor(u: Unit): (d: nat)
    ensures d > 0 && d % 2 == 0
  {
    match u
    case KB => 1024
    case MB => 1024 * 1024
    case GB => 1024 * 1024 * 1024
  }

  function Label(u: Unit): string {
    match u
    case KB => "KB"
    case MB => "MB"
    case GB => "GB"
  }

  /** `Number.isFinite(bytes) ? Math.max(0, bytes) : 0`. */
  function Sanitise(bytes: ByteCount): (n: nat)
    ensures bytes.Finite? && bytes.value >= 0 ==> n == bytes.value
    ensures bytes.NonFinite? || bytes.value < 0 ==> n == 0
  {
    match bytes
    case NonFinite => 0
    case Finite(v) => if v < 0 then 0 else v
  }

  // ---------------------------------------------------------------------
  // Rounding to one decimal: `(p / q).toFixed(1)`
  // ---------------------------------------------------------------------

  /**
   * Ten times the distance between `m / 10` and `p / q`, scaled by `q`:
   * comparing these compares how close `m / 10` is to `p / q`.
   */
  function Dist(p: int, q: int, m: int): nat {
    if m * q >= 10 * p then m * q - 10 * p else 10 * p - m * q
  }

  /**
   * The choice `toFixed(1)` makes for `x = p / q`: `t / 10` is as close to
   * `x` as any `m / 10`, and on a tie `t` is the larger of the two.
   */
  ghost predicate IsToFixed1Choice(p: int, q: int, t: int) {
    forall m: int :: Dist(p, q, t) <= Dist(p, q, m) && (Dist(p, q, m) == Dist(p, q, t) ==> m <= t)
  }

  /**
   * The tenths `toFixed(1)` displays for `p / q`, rounding half up: `r / 10`
   * lies within half a tenth of `p / q`, and a value exactly halfway goes up.
   */
  function RoundTenths(p: nat, q: nat): (r: nat)
    requires q > 0 && q % 2 == 0
    ensures r * q - q / 2 <= 10 * p < r * q + q / 2
  {
    (10 * p + q / 2) / q
  }

  lemma MulMono(k: int, q: int)
    requires q > 0
    ensures k >= 1 ==> k * q >= q
    ensures k <= -1 ==> k * q <= -q
  {
  }

  /** Rounding half up is exactly the choice `toFixed(1)` prescribes. */
  lemma RoundTenthsIsToFixed1(p: nat, q: nat)
    requires q > 0 && q % 2 == 0
    ensures IsToFixed1Choice(p, q, RoundTenths(p, q))
  {
    var t := RoundTenths(p, q);
    var h := q / 2;
    var e := 10 * p - t * q;
    assert t * q <= 10 * p + h < t * q + q;
    assert -h <= e < h;
    forall m: int
      ensures Dist(p, q, t) <= Dist(p, q, m) && (Dist(p, q, m) == Dist(p, q, t) ==> m <= t)
    {
      var k := m - t;
      assert m * q - 10 * p == k * q - e;
      MulMono(k, q);
      if k >= 1 {
        assert m * q - 10 * p >= q - e > h;
      } else if k <= -1 {
        assert 10 * p - m * q >= q + e >= h;
      }
    }
  }

  /** The `toFixed(1)` choice is unique. */
  lemma ToFixed1ChoiceUnique(p: int, q: int, t1: int, t2: int)
    requires IsToFixed1Choice(p, q, t1) && IsToFixed1Choice(p, q, t2)
    ensures t1 == t2
  {
    assert Dist(p, q, t1) <= Dist(p, q, t2) && Dist(p, q, t2) <= Dist(p, q, t1);
  }

  lemma DivMono(x: int, y: int, q: int)
    requires 0 <= x <= y && q > 0
    ensures x / q <= y / q
  {
    if x / q > y / q {
      MulMono(x / q - y / q, q);
      assert false;
    }
  }

  /** Rounding is monotone: a larger byte count never shows fewer tenths. */
  lemma RoundTenthsMonotone(a: nat, b: nat, u: Unit)
    requires a <= b
    ensures RoundTenths(a, Divisor(u)) <= RoundTenths(b, Divisor(u))
  {
    var q := Divisor(u);
    DivMono(10 * a + q / 2, 10 * b + q / 2, q);
  }

  // ---------------------------------------------------------------------
  // Rendering: `toFixed(1)` and the `trim` helper
  // ---------------------------------------------------------------------

  /**
   * The string `toFixed(1)` builds from the tenths count `t`: the digits of
   * `t`, left-padded with "0" to at least two digits, with a "." before the
   * last one.
   */
  function ToFixed1(t: nat): (r: string)
    ensures r == NatToString(t / 10) + "." + [DigitChar(t % 10)]
  {
    var m := NatToString(t);
    assert t < 10 ==> m == [DigitChar(t)] && NatToString(t / 10) == "0";
    assert t >= 10 ==> m == NatToString(t / 10) + [DigitChar(t % 10)];
    var padded := if |m| <= 1 then "0" + m else m;
    padded[..|padded| - 1] + "." + padded[|padded| - 1..]
  }

  /** `s.endsWith('.0') ? s.slice(0, -2) : s`: drops a trailing ".0" and nothing else. */
  function Trim(s: string): (r: string)
    ensures EndsWith(s, ".0") ==> r + ".0" == s
    ensures !EndsWith(s, ".0") ==> r == s
  {
    if EndsWith(s, ".0") then s[..|s| - 2] else s
  }

  /**
   * The intended rendering of `t` tenths: the whole part, then "." and the
   * tenths digit only when that digit is not zero.
   */
  function Display(t: nat): string {
    NatToString(t / 10) + (if t % 10 == 0 then "" else "." + [DigitChar(t % 10)])
  }

  /** Trimming the output of `toFixed(1)` gives exactly the intended rendering. */
  lemma TrimToFixed1(t: nat)
    ensures Trim(ToFixed1(t)) == Display(t)
  {
    var w := NatToString(t / 10);
    var s := ToFixed1(t);
    assert s[|s| - 2..] == ['.', DigitChar(t % 10)];
    if t % 10 == 0 {
      assert EndsWith(s, ".0");
      assert s[..|s| - 2] == w;
    } else {
      assert DigitChar(t % 10) != '0';
      assert !EndsWith(s, ".0");
    }
  }

  /**
   * Shape of the displayed number: only digits when the rounded value is
   * whole, otherwise digits, a point and one non-zero digit; never ".0" at
   * the end.
   */
  lemma DisplayShape(t: nat)
    ensures !EndsWith(Display(t), ".0")
    ensures t % 10 == 0 ==> AllDigits(Display(t))
    ensures t % 10 != 0 ==>
              var s := Display(t);
              |s| >= 3 && AllDigits(s[..|s| - 2]) && s[|s| - 2] == '.'
              && IsDigit(s[|s| - 1]) && s[|s| - 1] != '0'
  {
    var s := Display(t);
    var w := NatToString(t / 10);
    if t % 10 == 0 {
      assert s == w;
      if |s| >= 2 {
        assert s[|s| - 2..][0] == s[|s| - 2] != '.';
      }
    } else {
      assert s[..|s| - 2] == w;
      assert s[|s| - 2..] == ['.', DigitChar(t % 10)];
      assert DigitChar(t % 10) != '0';
    }
  }

  /** A displayed number has the shape `DisplayShape` describes. */
  predicate IsDisplayed(s: string) {
    AllDigits(s)
    || (|s| >= 2 && AllDigits(s[..|s| - 2]) && s[|s| - 2] == '.' && IsDigit(s[|s| - 1]))
  }

  /** Reads a displayed number back as a count of tenths. */
  function ParseTenths(s: string): nat
    requires IsDisplayed(s)
  {
    if AllDigits(s) then 10 * ParseNat(s)
    else 10 * ParseNat(s[..|s| - 2]) + DigitValue(s[|s| - 1])
  }

  /** The displayed number denotes exactly `t` tenths. */
  lemma ParseDisplay(t: nat)
    ensures IsDisplayed(Display(t)) && ParseTenths(Display(t)) == t
  {
    var s := Display(t);
    var w := NatToString(t / 10);
    ParseNatToString(t / 10);
    if t % 10 == 0 {
      assert s == w;
    } else {
      assert s[..|s| - 2] == w;
      assert !IsDigit(s[|s| - 2]);
      assert !AllDigits(s);
    }
  }

  // ---------------------------------------------------------------------
  // formatSize
  // ---------------------------------------------------------------------

  /**
   * `${trim(safeBytes / <unit>)} <unit>`: the count rounded half up to
   * tenths of the unit, without a trailing ".0", a space and the unit.
   */
  function InUnit(n: nat, u: Unit): (r: string)
    ensures r == Display(RoundTenths(n, Divisor(u))) + " " + Label(u)
  {
    TrimToFixed1(RoundTenths(n, Divisor(u)));
    Trim(ToFixed1(RoundTenths(n, Divisor(u)))) + " " + Label(u)
  }

  /**
   * `formatSize(bytes)` of app/lib/utils.ts: below one kilobyte "0 KB";
   * from it on, the count in the unit whose range holds it.
   */
  function FormatSize(bytes: ByteCount): (r: string)
    ensures Sanitise(bytes) < Divisor(KB) ==> r == "0 KB"
    ensures forall u :: InRange(Sanitise(bytes), u) ==> r == InUnit(Sanitise(bytes), u)
  {
    var safeBytes := Sanitise(bytes);
    if safeBytes >= Divisor(GB) then InUnit(safeBytes, GB)
    else if safeBytes >= Divisor(MB) then InUnit(safeBytes, MB)
    else if safeBytes >= Divisor(KB) then InUnit(safeBytes, KB)
    else "0 KB"
  }

  /**
   * The byte counts a unit is for: GB from 1024^3 on, MB on
   * [1024^2, 1024^3), KB on [1024, 1024^2).
   */
  predicate InRange(n: nat, u: Unit) {
    Divisor(u) <= n && (u == GB || n < 1024 * Divisor(u))
  }

  /** Every count of at least 1024 bytes lies in the range of exactly one unit. */
  lemma RangesPartition(n: nat)
    requires n >= 1024
    ensures InRange(n, KB) || InRange(n, MB) || InRange(n, GB)
    ensures forall u, v :: InRange(n, u) && InRange(n, v) ==> u == v
  {
  }

  /** Negative and non-finite input is formatted as 0 is, which is "0 KB". */
  lemma FormatSizeUnsafe(bytes: ByteCount)
    requires bytes.NonFinite? || bytes.value < 0
    ensures FormatSize(bytes) == FormatSize(Finite(0)) == "0 KB"
  {
  }

  /** Below one kilobyte the output is exactly "0 KB"; from it on it never is. */
  lemma FormatSizeZeroKB(n: nat)
    ensures FormatSize(Finite(n)) == "0 KB" <==> n < 1024
  {
    if n >= 1024 {
      RangesPartition(n);
      var u :| InRange(n, u);
      assert FormatSize(Finite(n)) == InUnit(n, u);
      var t := RoundTenths(n, Divisor(u));
      TenthsLowerBound(n, u);
      var s := Display(t);
      var out := s + " " + Label(u);
      assert |Label(u)| == 2;
      if t % 10 == 0 {
        assert s == NatToString(t / 10);
        assert out[0] == s[0] != '0';
      } else {
        assert |out| >= 6;
      }
      assert out != "0 KB";
    }
  }

  /** The output always ends with " KB", " MB" or " GB". */
  lemma FormatSizeUnitSuffix(bytes: ByteCount)
    ensures var s := FormatSize(bytes);
            EndsWith(s, " KB") || EndsWith(s, " MB") || EndsWith(s, " GB")
  {
    var s := FormatSize(bytes);
    var n := Sanitise(bytes);
    if n >= 1024 {
      RangesPartition(n);
      var u :| InRange(n, u);
      var pre := Trim(ToFixed1(RoundTenths(n, Divisor(u))));
      assert s == pre + " " + Label(u);
      assert s[|s| - 3..] == " " + Label(u);
    }
  }

  /** Every unit shows at least "1": the rounded value is never below 1.0. */
  lemma TenthsLowerBound(n: nat, u: Unit)
    requires InRange(n, u)
    ensures RoundTenths(n, Divisor(u)) >= 10
  {
    var q := Divisor(u);
    DivMono(10 * q + q / 2, 10 * n + q / 2, q);
    assert (10 * q + q / 2) / q == 10;
  }

  /**
   * In the KB and MB ranges the displayed number lies in [1, 1024]; 1024
   * itself is reached because rounding happens after the unit is chosen.
   */
  lemma TenthsBounds(n: nat, u: Unit)
    requires InRange(n, u) && u != GB
    ensures 10 <= RoundTenths(n, Divisor(u)) <= 10240
  {
    TenthsLowerBound(n, u);
    var q := Divisor(u);
    DivMono(10 * n + q / 2, 10 * (1024 * q - 1) + q / 2, q);
    if u == KB {
      assert (10 * (1024 * q - 1) + q / 2) / q == 10240;
    } else {
      assert (10 * (1024 * q - 1) + q / 2) / q == 10240;
    }
  }

  /** The examples of the source's documentation: nothing below 1 KB shows a byte unit. */
  lemma FormatSizeExamplesBelowKB()
    ensures FormatSize(Finite(0)) == "0 KB"
    ensures FormatSize(Finite(1023)) == "0 KB"
    ensures FormatSize(NonFinite) == "0 KB"
    ensures FormatSize(Finite(-5)) == "0 KB"
  {
  }

  lemma FormatSizeExampleOneKB()
    ensures FormatSize(Finite(1024)) == "1 KB"
  {
    assert InRange(1024, KB);
    assert RoundTenths(1024, 1024) == 10;
    assert Display(10) == "1";
  }

  lemma FormatSizeExampleHalf()
    ensures FormatSize(Finite(1536)) == "1.5 KB"
  {
    assert InRange(1536, KB);
    assert RoundTenths(1536, 1024) == 15;
    assert Display(15) == "1" + "." + "5";
  }

  /** Rounding after the unit is chosen: one byte short of 1 MB shows "1024 KB". */
  lemma FormatSizeExampleRoundsUp()
    ensures FormatSize(Finite(1048575)) == "1024 KB"
  {
    assert InRange(1048575, KB);
    assert RoundTenths(1048575, 1024) == 10240;
    assert NatToString(1024) == "1024";
    assert Display(10240) == "1024";
  }

  lemma FormatSizeExampleOneMB()
    ensures FormatSize(Finite(1048576)) == "1 MB"
  {
    assert InRange(1048576, MB);
    assert RoundTenths(1048576, 1048576) == 10;
    assert Display(10) == "1";
  }

  lemma FormatSizeExampleOneGB()
    ensures FormatSize(Finite(1073741824)) == "1 GB"
  {
    assert InRange(1073741824, GB);
    assert RoundTenths(1073741824, 1073741824) == 10;
    assert Display(10) == "1";
  }
}
