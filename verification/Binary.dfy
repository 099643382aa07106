/**
 Byte strings and positional notation.

 Bytes are integers in [0, 256). A shift `v >> k` is `v / Pow(2, k)` (Dafny's division by a
 positive number is the floor, so this is the arithmetic shift on negative numbers too), and a
 mask with 0xff is `% 256`. Bitwise or is spelled out bit by bit.
 */
module Binary {

  type byte = x: int | 0 <= x < 256
  type Bytes = seq<byte>
  type Digest = s: Bytes | |s| == 32 witness seq(32, _ => 0)

  type uint32 = x: int | 0 <= x < 0x1_0000_0000
  type int64 = x: int | -0x8000_0000_0000_0000 <= x < 0x8000_0000_0000_0000

  datatype Option<+T> = None | Some(value: T)

  /** A 256-bit hash function is a parameter of everything that hashes. */
  type Hash = Bytes -> Digest

  function Pow(b: nat, e: nat): nat {
    if e == 0 then 1 else b * Pow(b, e - 1)
  }

  lemma PowStep(b: nat, e: nat)
    ensures Pow(b, 0) == 1
    ensures Pow(b, e + 1) == b * Pow(b, e)
  {}

  lemma {:induction false} PowPositive(b: nat, e: nat)
    requires b > 0
    ensures Pow(b, e) > 0
  {
    if e == 0 {
    } else {
      PowPositive(b, e - 1);
      MulStrict(b, Pow(b, e - 1));
    }
  }

  lemma MulStrict(a: nat, b: nat)
    requires a > 0 && b > 0
    ensures a * b > 0
  {}

  lemma {:induction false} PowAdd(b: nat, m: nat, n: nat)
    ensures Pow(b, m + n) == Pow(b, m) * Pow(b, n)
  {
    if m == 0 {
    } else {
      PowAdd(b, m - 1, n);
      MulAssociative(b, Pow(b, m - 1), Pow(b, n));
    }
  }

  lemma {:induction false} PowMonotonic(b: nat, m: nat, n: nat)
    requires b > 0 && m <= n
    ensures Pow(b, m) <= Pow(b, n)
    decreases n
  {
    if m == n {
    } else {
      PowMonotonic(b, m, n - 1);
      PowPositive(b, n - 1);
      MulMonotonic(1, b, Pow(b, n - 1));
    }
  }

  lemma MulAssociative(a: int, b: int, c: int)
    ensures a * b * c == a * (b * c)
  {}

  lemma MulMonotonic(a: int, b: int, c: int)
    requires a <= b && 0 <= c
    ensures a * c <= b * c
  {}

  /** 256 to the power i is 2 to the power 8i: the weight of a byte shifted by 8i bits. */
  lemma {:induction false} ByteWeight(i: nat)
    ensures Pow(2, 8 * i) == Pow(256, i)
  {
    if i == 0 {
    } else {
      ByteWeight(i - 1);
      PowAdd(2, 8, 8 * (i - 1));
      assert Pow(2, 8) == 256 by {
        assert Pow(2, 4) == 16;
        PowAdd(2, 4, 4);
      }
    }
  }

  /** Quotient and remainder are determined by the division equation. */
  lemma DivModUnique(b: int, q: int, r: int)
    requires 0 <= r < b
    ensures (q * b + r) / b == q && (q * b + r) % b == r
  {
    var v := q * b + r;
    var d := v / b - q;
    assert v == v / b * b + v % b;
    assert d * b == r - v % b by { MulDistributes(v / b, -q, b); }
    if d >= 1 {
      MulMonotonic(1, d, b);
    } else if d <= -1 {
      MulMonotonic(d, -1, b);
    }
  }

  lemma MulDistributes(x: int, y: int, z: int)
    ensures (x + y) * z == x * z + y * z
  {}

  /** Shifting twice is shifting once by the product. */
  lemma DivDiv(v: int, a: int, b: int)
    requires a > 0 && b > 0
    ensures a * b > 0 && v / a / b == v / (a * b)
  {
    MulStrict(a, b);
    var q := v / a;
    var r := q % b * a + v % a;
    assert v == q * a + v % a;
    assert q == q / b * b + q % b;
    assert v == q / b * (a * b) + r by {
      MulDistributes(q / b * b, q % b, a);
      MulAssociative(q / b, b, a);
    }
    assert 0 <= r < a * b by {
      MulMonotonic(0, q % b, a);
      MulMonotonic(q % b, b - 1, a);
      MulDistributes(b, -1, a);
    }
    DivModUnique(a * b, q / b, r);
  }

  // ---------------------------------------------------------------------------------------
  // Positional notation, most significant digit first.
  // ---------------------------------------------------------------------------------------

  ghost predicate AreDigits(s: seq<int>, b: nat) {
    forall i :: 0 <= i < |s| ==> 0 <= s[i] < b
  }

  function Value(s: seq<int>, b: nat): int {
    if s == [] then 0 else Value(s[..|s| - 1], b) * b + s[|s| - 1]
  }

  lemma ValueSnoc(t: seq<int>, d: int, b: nat)
    ensures Value([], b) == 0
    ensures Value(t + [d], b) == Value(t, b) * b + d
  {
    var s := t + [d];
    assert s[..|s| - 1] == t;
  }

  /** The digits of v without leading zeros; no digits at all for 0. */
  function Digits(v: nat, b: nat): seq<int>
    requires b >= 2
  {
    if v == 0 then [] else DivSmaller(v, b); Digits(v / b, b) + [v % b]
  }

  lemma DivSmaller(v: nat, b: nat)
    requires b >= 2
    ensures v > 0 ==> 0 <= v / b < v
    ensures 0 <= v / b
  {
    if v > 0 {
      var q := v / b;
      assert v == q * b + v % b;
      if q <= -1 {
        MulMonotonic(q, -1, b);
      } else if q >= 1 {
        MulMonotonic(2, b, q);
        assert b * q == q * b;
      }
    }
  }

  lemma {:induction false} ValueOfDigits(v: nat, b: nat)
    requires b >= 2
    ensures Value(Digits(v, b), b) == v
    ensures AreDigits(Digits(v, b), b)
    ensures Digits(v, b) != [] ==> Digits(v, b)[0] != 0
  {
    hide Value;
    if v == 0 {
      ValueSnoc([], 0, b);
    } else {
      DivSmaller(v, b);
      var q, r := v / b, v % b;
      ValueOfDigits(q, b);
      ValueSnoc(Digits(q, b), r, b);
      assert v == q * b + r;
      assert q == 0 ==> v == r;
    }
  }

  lemma {:induction false} DigitsOfValue(s: seq<int>, b: nat)
    requires b >= 2 && AreDigits(s, b)
    requires s != [] ==> s[0] != 0
    ensures Value(s, b) >= 0
    ensures Digits(Value(s, b), b) == s
  {
    ValueBounds(s, b);
    if s == [] {
    } else {
      var t := s[..|s| - 1];
      DigitsOfValue(t, b);
      DivModUnique(b, Value(t, b), s[|s| - 1]);
      PowPositive(b, |s| - 1);
      assert s == t + [s[|s| - 1]];
    }
  }

  lemma AppendDigitBounds(v: int, d: int, b: nat, p: nat)
    requires 0 <= v < p && 0 <= d < b
    ensures 0 <= v * b + d < b * p
  {
    MulMonotonic(0, v, b);
    MulMonotonic(v, p - 1, b);
    assert (p - 1) * b == b * p - b;
  }

  lemma {:induction false} ValueUpperBound(s: seq<int>, b: nat)
    requires b >= 2 && AreDigits(s, b)
    ensures 0 <= Value(s, b) < Pow(b, |s|)
  {
    hide Pow, Value;
    PowStep(b, 0);
    ValueSnoc([], 0, b);
    if s == [] {
    } else {
      var t, d := s[..|s| - 1], s[|s| - 1];
      assert s == t + [d];
      ValueUpperBound(t, b);
      ValueSnoc(t, d, b);
      PowStep(b, |t|);
      AppendDigitBounds(Value(t, b), d, b, Pow(b, |t|));
    }
  }

  lemma {:induction false} ValueLowerBound(s: seq<int>, b: nat)
    requires b >= 2 && AreDigits(s, b) && s != [] && s[0] != 0
    ensures Pow(b, |s| - 1) <= Value(s, b)
  {
    hide Pow, Value;
    PowStep(b, 0);
    ValueSnoc([], 0, b);
    var t, d := s[..|s| - 1], s[|s| - 1];
    assert s == t + [d];
    ValueSnoc(t, d, b);
    if t == [] {
    } else {
      ValueLowerBound(t, b);
      PowStep(b, |t| - 1);
      MulMonotonic(Pow(b, |t| - 1), Value(t, b), b);
    }
  }

  lemma ValueBounds(s: seq<int>, b: nat)
    requires b >= 2 && AreDigits(s, b)
    ensures 0 <= Value(s, b) < Pow(b, |s|)
    ensures s != [] && s[0] != 0 ==> Pow(b, |s| - 1) <= Value(s, b)
  {
    hide Pow, Value;
    ValueUpperBound(s, b);
    if s != [] && s[0] != 0 {
      ValueLowerBound(s, b);
    }
  }

  /** A number has at least m digits exactly when it is at least b^(m-1). */
  lemma DigitCount(v: nat, b: nat, m: nat)
    requires b >= 2 && m >= 1
    ensures |Digits(v, b)| >= m <==> v >= Pow(b, m - 1)
  {
    var n := |Digits(v, b)|;
    DigitCountBounds(v, b);
    if n >= m {
      PowMonotonic(b, m - 1, n - 1);
    } else {
      PowMonotonic(b, n, m - 1);
    }
  }

  lemma DigitCountBounds(v: nat, b: nat)
    requires b >= 2
    ensures v < Pow(b, |Digits(v, b)|)
    ensures |Digits(v, b)| > 0 ==> Pow(b, |Digits(v, b)| - 1) <= v
  {
    ValueOfDigits(v, b);
    ValueBounds(Digits(v, b), b);
  }

  lemma {:induction false} ValueConcat(s: seq<int>, t: seq<int>, b: nat)
    ensures Value(s + t, b) == Value(s, b) * Pow(b, |t|) + Value(t, b)
  {
    if t == [] {
      assert s + t == s;
    } else {
      var u := t[..|t| - 1];
      ValueConcat(s, u, b);
      assert (s + t)[..|s + t| - 1] == s + u;
      MulDistributes(Value(s, b) * Pow(b, |u|), Value(u, b), b);
      MulAssociative(Value(s, b), Pow(b, |u|), b);
      assert Pow(b, |u|) * b == Pow(b, |t|);
    }
  }

  lemma ValueCons(d: int, t: seq<int>, b: nat)
    ensures Value([d] + t, b) == d * Pow(b, |t|) + Value(t, b)
  {
    ValueConcat([d], t, b);
    assert [d][..0] == [];
  }

  lemma {:induction false} ValueOfZeros(s: seq<int>, b: nat)
    requires forall i :: 0 <= i < |s| ==> s[i] == 0
    ensures Value(s, b) == 0
  {
    if s == [] {
    } else {
      ValueOfZeros(s[..|s| - 1], b);
    }
  }

  // ---------------------------------------------------------------------------------------
  // Fixed-width integers.
  // ---------------------------------------------------------------------------------------

  function Reverse<T>(s: seq<T>): (r: seq<T>)
    ensures |r| == |s|
    ensures forall i :: 0 <= i < |s| ==> r[i] == s[|s| - 1 - i]
  {
    seq(|s|, i requires 0 <= i < |s| => s[|s| - 1 - i])
  }

  lemma ReverseTwice<T>(s: seq<T>)
    ensures Reverse(Reverse(s)) == s
  {
    assert forall i :: 0 <= i < |s| ==> Reverse(Reverse(s))[i] == s[i];
  }

  lemma ReverseInjective<T>(s: seq<T>, t: seq<T>)
    requires Reverse(s) == Reverse(t)
    ensures s == t
  {
    ReverseTwice(s);
    ReverseTwice(t);
  }

  function Ascii(s: string): (r: Bytes)
    ensures |r| == |s|
  {
    seq(|s|, i requires 0 <= i < |s| => s[i] as int % 256)
  }

  lemma SliceOfRest<T>(s: seq<T>, i: nat, n: nat)
    requires i + n <= |s|
    ensures s[i..][..n] == s[i..i + n] && s[i..][n..] == s[i + n..]
  {}

  /** The w low bytes of v in two's complement, most significant first. */
  function BigEndian(w: nat, v: int): (s: Bytes)
    ensures |s| == w
  {
    if w == 0 then [] else BigEndian(w - 1, v / 256) + [v % 256]
  }

  /** The w low bytes of v in two's complement, least significant first. */
  function LittleEndian(w: nat, v: int): (s: Bytes)
    ensures |s| == w
  {
    Reverse(BigEndian(w, v))
  }

  function FromBigEndian(s: Bytes): int {
    Value(s, 256)
  }

  function FromLittleEndian(s: Bytes): int {
    Value(Reverse(s), 256)
  }

  /** Byte i from the little end is the value shifted right by 8i bits and masked. */
  lemma {:induction false} BigEndianIndex(w: nat, v: int, i: nat)
    requires i < w
    ensures Pow(2, 8 * i) > 0
    ensures BigEndian(w, v)[w - 1 - i] == v / Pow(2, 8 * i) % 256
  {
    PowPositive(2, 8 * i);
    if i == 0 {
    } else {
      BigEndianIndex(w - 1, v / 256, i - 1);
      ByteWeight(i - 1);
      ByteWeight(i);
      DivDiv(v, 256, Pow(256, i - 1));
    }
  }

  /** Writing and reading back keeps the value modulo 256^w. */
  lemma {:induction false} FromBigEndianBigEndian(w: nat, v: int)
    ensures Pow(256, w) > 0
    ensures FromBigEndian(BigEndian(w, v)) == v % Pow(256, w)
  {
    PowPositive(256, w);
    if w == 0 {
    } else {
      FromBigEndianBigEndian(w - 1, v / 256);
      var p := Pow(256, w - 1);
      var q := v / 256;
      assert BigEndian(w, v)[..w - 1] == BigEndian(w - 1, q);
      var r := q % p * 256 + v % 256;
      assert v == q / p * (256 * p) + r;
      DivModUnique(256 * p, q / p, r);
    }
  }

  /** Reading w bytes and writing them again gives the same bytes. */
  lemma {:induction false} BigEndianFromBigEndian(s: Bytes)
    ensures BigEndian(|s|, FromBigEndian(s)) == s
  {
    if s == [] {
    } else {
      var t := s[..|s| - 1];
      BigEndianFromBigEndian(t);
      DivModUnique(256, FromBigEndian(t), s[|s| - 1]);
      assert s == t + [s[|s| - 1]];
    }
  }

  lemma LittleEndianFromLittleEndian(s: Bytes)
    ensures LittleEndian(|s|, FromLittleEndian(s)) == s
  {
    BigEndianFromBigEndian(Reverse(s));
    ReverseTwice(s);
  }

  lemma FromLittleEndianLittleEndian(w: nat, v: int)
    ensures Pow(256, w) > 0
    ensures FromLittleEndian(LittleEndian(w, v)) == v % Pow(256, w)
  {
    ReverseTwice(BigEndian(w, v));
    FromBigEndianBigEndian(w, v);
  }

  lemma FromLittleEndianBounds(s: Bytes)
    ensures 0 <= FromLittleEndian(s) < Pow(256, |s|)
  {
    ValueBounds(Reverse(s), 256);
  }

  // ---------------------------------------------------------------------------------------
  // Bitwise or.
  // ---------------------------------------------------------------------------------------

  function BitOr(a: nat, b: nat): nat {
    if a == 0 && b == 0 then 0
    else (if a % 2 == 1 || b % 2 == 1 then 1 else 0) + 2 * BitOr(a / 2, b / 2)
  }

  /** Or-ing numbers that share no bits adds them. */
  lemma {:induction false} BitOrDisjoint(a: nat, m: nat, k: nat)
    requires a < Pow(2, k)
    ensures BitOr(a, m * Pow(2, k)) == a + m * Pow(2, k)
    ensures BitOr(m * Pow(2, k), a) == a + m * Pow(2, k)
  {
    var b := m * Pow(2, k);
    if k == 0 {
      BitOrZero(m);
    } else {
      var c := m * Pow(2, k - 1);
      assert b == 2 * c;
      BitOrDisjoint(a / 2, m, k - 1);
      assert b / 2 == c && b % 2 == 0;
    }
  }

  lemma {:induction false} BitOrZero(m: nat)
    ensures BitOr(0, m) == m && BitOr(m, 0) == m
  {
    if m == 0 {
    } else {
      BitOrZero(m / 2);
    }
  }
}
