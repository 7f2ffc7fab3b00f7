/** The sixteen-digit numeral a task id is turned into, and the id it is read back as. */
module TaskIds {

  const WIDTH := 16
  const MAX_TASK_ID := 0x7fff_ffff

  function Digit(d: nat): char
    requires d < 10
  {
    '0' + d as char
  }

  predicate IsNumeral(s: string) {
    forall i :: 0 <= i < |s| ==> '0' <= s[i] <= '9'
  }

  function Decimal(n: nat): (s: string)
    ensures |s| > 0 && IsNumeral(s)
  {
    if n < 10 then [Digit(n)] else Decimal(n / 10) + [Digit(n % 10)]
  }

  function Zeros(k: nat): (s: string)
    ensures |s| == k && forall i :: 0 <= i < k ==> s[i] == '0'
  {
    if k == 0 then "" else Zeros(k - 1) + ['0']
  }

  /** The decimal numeral with zeros after it, cut to sixteen characters. */
  function TidToHex(tid: nat): (s: string)
    ensures |s| == 16 && IsNumeral(s)
  {
    (Decimal(tid) + Zeros(WIDTH))[..WIDTH]
  }

  /** The value of a numeral in a base. */
  function Value(s: string, base: nat): nat
    requires IsNumeral(s)
  {
    if s == "" then 0 else Value(s[..|s| - 1], base) * base + (s[|s| - 1] - '0') as nat
  }

  /** The numeral read as hexadecimal. */
  function TidToGid(tid: nat): nat {
    Value(TidToHex(tid), 16)
  }

  function Pow(base: nat, k: nat): (p: nat)
    ensures base > 0 ==> p > 0
  {
    if k == 0 then 1 else base * Pow(base, k - 1)
  }

  function Pow10(k: nat): (p: nat)
    ensures p > 0
  {
    Pow(10, k)
  }

  /** Whether the format's place marker takes one digit or two, the numeral is the same. */
  lemma MarkerWidthDoesNotMatter(tid: nat)
    ensures (Decimal(tid) + Zeros(WIDTH - 1))[..WIDTH] == TidToHex(tid)
  {
    assert Zeros(WIDTH) == Zeros(WIDTH - 1) + ['0'];
  }

  // ----- the numeral determines the id read from it -----

  lemma {:induction false} ValueInjective(s: string, t: string)
    requires IsNumeral(s) && IsNumeral(t) && |s| == |t|
    requires Value(s, 16) == Value(t, 16)
    ensures s == t
  {
    if s != "" {
      var n := |s| - 1;
      var a, b := Value(s[..n], 16), Value(t[..n], 16);
      var d, e := (s[n] - '0') as nat, (t[n] - '0') as nat;
      SplitDigit(a, d, b, e);
      ValueInjective(s[..n], t[..n]);
      assert s == s[..n] + [s[n]] && t == t[..n] + [t[n]];
    }
  }

  lemma DivideDigit(v: nat, d: nat, p: nat)
    requires d < 16 && p > 0
    ensures (v * 16 + d) / (16 * p) == v / p
  {
    var q, r := v / p, v % p;
    assert v == q * p + r;
    assert v * 16 + d == q * (16 * p) + (16 * r + d);
    QuotientIs(v * 16 + d, 16 * p, q, 16 * r + d);
  }

  lemma QuotientIs(x: nat, n: nat, q: nat, r: nat)
    requires r < n && x == q * n + r
    ensures x / n == q
  {
    var e := x / n - q;
    assert e * n == r - x % n;
    FarFromZero(e, n);
  }

  lemma FarFromZero(e: int, n: nat)
    ensures e >= 1 ==> e * n >= n
    ensures e <= -1 ==> e * n + n <= 0
  {
    if e >= 1 {
      assert (e - 1) * n >= 0;
    } else if e <= -1 {
      assert (-e - 1) * n >= 0;
    }
  }

  /** Digit i of a numeral is digit i of its value in base sixteen. */
  lemma {:induction false} HexDigit(s: string, i: nat)
    requires IsNumeral(s) && i < |s|
    ensures (Value(s, 16) / Pow(16, |s| - 1 - i)) % 16 == (s[i] - '0') as int
  {
    var n := |s| - 1;
    var v, d := Value(s[..n], 16), (s[n] - '0') as nat;
    if i < n {
      HexDigit(s[..n], i);
      DivideDigit(v, d, Pow(16, n - 1 - i));
    } else {
      QuotientIs(v * 16 + d, 16, v, d);
    }
  }

  /** Reading the id in base sixteen gives the numeral's characters back: its decimal digits
      first, then zeros. */
  lemma GidDigits(tid: nat, i: nat)
    requires i < 16
    ensures (TidToGid(tid) / Pow(16, 15 - i)) % 16 == (TidToHex(tid)[i] - '0') as int
    ensures TidToHex(tid)[i] == if i < |Decimal(tid)| then Decimal(tid)[i] else '0'
  {
    HexDigit(TidToHex(tid), i);
  }

  lemma {:induction false} ValueBound(s: string)
    requires IsNumeral(s)
    ensures Value(s, 16) < Pow(16, |s|)
  {
    if s != "" {
      ValueBound(s[..|s| - 1]);
    }
  }

  lemma SixteenHexDigits()
    ensures Pow(16, 16) == 0x1_0000_0000_0000_0000
  {
    PowAdd(16, 1, 1);
    assert Pow(16, 2) == 0x100;
    PowAdd(16, 2, 2);
    PowAdd(16, 4, 4);
    assert Pow(16, 8) == 0x1_0000_0000;
    PowAdd(16, 8, 8);
  }

  /** The id fits an unsigned 64-bit integer. */
  lemma GidFits(tid: nat)
    ensures TidToGid(tid) < 0x1_0000_0000_0000_0000
  {
    ValueBound(TidToHex(tid));
    SixteenHexDigits();
  }

  // ----- decimal values -----

  lemma {:induction false} DecimalValue(n: nat)
    ensures Value(Decimal(n), 10) == n
  {
    if n >= 10 {
      DecimalValue(n / 10);
      assert Decimal(n)[..|Decimal(n)| - 1] == Decimal(n / 10);
    }
  }

  lemma NumeralWithZeros(s: string, k: nat)
    requires IsNumeral(s)
    ensures IsNumeral(s + Zeros(k))
  {
  }

  lemma {:induction false} ZerosScale(s: string, k: nat)
    requires IsNumeral(s) && IsNumeral(s + Zeros(k))
    ensures Value(s + Zeros(k), 10) == Value(s, 10) * Pow10(k)
  {
    if k == 0 {
      assert s + Zeros(0) == s;
    } else {
      NumeralWithZeros(s, k - 1);
      ZerosScale(s, k - 1);
      assert (s + Zeros(k))[..|s| + k - 1] == s + Zeros(k - 1);
      Regroup(Value(s, 10), Pow10(k - 1));
    }
  }

  lemma Regroup(a: nat, p: nat)
    ensures a * p * 10 == a * (10 * p)
  {
  }

  lemma {:induction false} PowAdd(base: nat, j: nat, k: nat)
    ensures Pow(base, j + k) == Pow(base, j) * Pow(base, k)
  {
    if j > 0 {
      PowAdd(base, j - 1, k);
      Associate(base, Pow(base, j - 1), Pow(base, k));
    }
  }

  lemma Cancel(a: nat, b: nat, p: nat)
    requires p > 0 && a * p == b * p
    ensures a == b
  {
    assert (a - b) * p == 0;
  }

  lemma SplitDigit(a: nat, d: nat, b: nat, e: nat)
    requires d < 16 && e < 16 && a * 16 + d == b * 16 + e
    ensures a == b && d == e
  {
  }

  /** A number times a power of ten is written with that many zeros after it. */
  lemma {:induction false} DecimalOfMultiple(n: nat, k: nat)
    requires n > 0
    ensures Decimal(n * Pow10(k)) == Decimal(n) + Zeros(k)
  {
    if k == 0 {
      assert n * Pow10(0) == n;
      assert Decimal(n) + Zeros(0) == Decimal(n);
    } else {
      DecimalOfMultiple(n, k - 1);
      var m := n * Pow10(k - 1);
      Regroup(n, Pow10(k - 1));
      assert n * Pow10(k) == m * 10;
      assert m > 0;
      assert Decimal(m * 10) == Decimal(m) + ['0'];
      assert Decimal(n) + Zeros(k - 1) + ['0'] == Decimal(n) + Zeros(k);
    }
  }

  lemma {:induction false} DecimalShort(n: nat, k: nat)
    requires 0 < k && n < Pow10(k)
    ensures |Decimal(n)| <= k
  {
    if n >= 10 {
      assert Pow10(k) == 10 * Pow10(k - 1);
      assert k == 1 ==> Pow10(k) == 10;
      DecimalShort(n / 10, k - 1);
    }
  }

  lemma TaskIdsAreShort(tid: nat)
    requires tid <= MAX_TASK_ID
    ensures |Decimal(tid)| <= 10
  {
    PowAdd(10, 1, 1);
    assert Pow(10, 2) == 100;
    PowAdd(10, 2, 2);
    PowAdd(10, 4, 4);
    assert Pow(10, 8) == 100_000_000;
    PowAdd(10, 8, 2);
    assert Pow10(10) == Pow(10, 8 + 2) == 100_000_000 * 100;
    DecimalShort(tid, 10);
  }

  /** A task id's numeral is its decimal padded on the right. */
  lemma Padded(tid: nat)
    requires |Decimal(tid)| <= WIDTH
    ensures TidToHex(tid) == Decimal(tid) + Zeros(WIDTH - |Decimal(tid)|)
  {
  }

  // ----- collisions -----

  /** a is b times a power of ten. */
  ghost predicate Multiple(a: nat, b: nat) {
    exists k: nat :: a == b * Pow10(k)
  }

  lemma SameNumeralIsMultiple(a: nat, b: nat)
    requires |Decimal(b)| <= |Decimal(a)| <= WIDTH && TidToHex(a) == TidToHex(b)
    ensures Multiple(a, b)
  {
    var x, y := WIDTH - |Decimal(a)|, |Decimal(a)| - |Decimal(b)|;
    NumeralScales(a);
    NumeralScales(b);
    ScaledEqual(a, b, x, y);
  }

  /** The decimal value of a numeral is the id times a power of ten. */
  lemma NumeralScales(tid: nat)
    requires |Decimal(tid)| <= WIDTH
    ensures Value(TidToHex(tid), 10) == tid * Pow10(WIDTH - |Decimal(tid)|)
  {
    Padded(tid);
    DecimalValue(tid);
    ZerosScale(Decimal(tid), WIDTH - |Decimal(tid)|);
  }

  lemma ScaledEqual(a: nat, b: nat, x: nat, y: nat)
    requires a * Pow10(x) == b * Pow10(y + x)
    ensures a == b * Pow10(y)
  {
    PowAdd(10, y, x);
    Associate(b, Pow10(y), Pow10(x));
    Cancel(a, b * Pow10(y), Pow10(x));
  }

  lemma Associate(a: nat, p: nat, q: nat)
    ensures a * (p * q) == (a * p) * q
  {
  }

  lemma MultipleHasSameNumeral(a: nat, b: nat)
    requires |Decimal(a)| <= WIDTH && Multiple(a, b)
    ensures TidToHex(a) == TidToHex(b)
  {
    var k: nat :| a == b * Pow10(k);
    if b > 0 {
      DecimalOfMultiple(b, k);
    }
  }

  /** Two task ids get the same id exactly when they get the same numeral, and that exactly
      when one is the other times a power of ten. */
  lemma CollideIffMultiple(a: nat, b: nat)
    requires a <= MAX_TASK_ID && b <= MAX_TASK_ID
    ensures TidToGid(a) == TidToGid(b) <==> TidToHex(a) == TidToHex(b)
    ensures TidToGid(a) == TidToGid(b) <==> Multiple(a, b) || Multiple(b, a)
  {
    TaskIdsAreShort(a);
    TaskIdsAreShort(b);
    if TidToGid(a) == TidToGid(b) {
      ValueInjective(TidToHex(a), TidToHex(b));
      if |Decimal(b)| <= |Decimal(a)| {
        SameNumeralIsMultiple(a, b);
      } else {
        SameNumeralIsMultiple(b, a);
      }
    }
    if Multiple(a, b) {
      MultipleHasSameNumeral(a, b);
    }
    if Multiple(b, a) {
      MultipleHasSameNumeral(b, a);
    }
  }

  /** Task ids 1 and 10 get the same id. */
  lemma OneAndTenCollide()
    ensures TidToHex(1) == TidToHex(10) && TidToGid(1) == TidToGid(10)
  {
    assert 10 == 1 * Pow10(1);
    CollideIffMultiple(10, 1);
  }

  /** Ids that do not end in zero never collide. */
  lemma NoTrailingZeroNoCollision(a: nat, b: nat)
    requires a <= MAX_TASK_ID && b <= MAX_TASK_ID
    requires a % 10 != 0 && b % 10 != 0 && a != b
    ensures TidToGid(a) != TidToGid(b)
  {
    CollideIffMultiple(a, b);
    if Multiple(a, b) {
      ProperMultipleEndsInZero(a, b);
    } else if Multiple(b, a) {
      ProperMultipleEndsInZero(b, a);
    }
  }

  lemma ProperMultipleEndsInZero(a: nat, b: nat)
    requires Multiple(a, b) && a != b
    ensures a % 10 == 0
  {
    var k: nat :| a == b * Pow10(k);
    assert b * Pow10(0) == b;
    Regroup(b, Pow10(k - 1));
    assert a == 10 * (b * Pow10(k - 1));
  }
}
