/**
 What base32 text stands for: bytes and digits as numbers written highest first, so that the order
 of the bits is fixed and not only that reading undoes writing.
 */
module Base32Value {
  import opened Base32
  import opened Collections
  import opened Varint

  function Power(base: nat, n: nat): nat
    decreases n
  {
    if n == 0 then 1 else base * Power(base, n - 1)
  }

  /** The number written in the given base, the highest digit first. */
  function Number(base: nat, s: seq<int>): int
    decreases |s|
  {
    if s == [] then 0 else Number(base, s[..|s| - 1]) * base + s[|s| - 1]
  }

  lemma Shift(a: int, q: int, b: int, p: int)
    ensures (a * q + b) * p == a * (p * q) + b * p
  {
  }

  lemma {:induction false} NumberConcat(base: nat, s: seq<int>, t: seq<int>)
    ensures Number(base, s + t) == Number(base, s) * Power(base, |t|) + Number(base, t)
    decreases |t|
  {
    if t == [] {
      assert s + t == s;
    } else {
      var t0 := t[..|t| - 1];
      NumberConcat(base, s, t0);
      assert (s + t)[..|s + t| - 1] == s + t0;
      Shift(Number(base, s), Power(base, |t0|), Number(base, t0), base);
    }
  }

  lemma {:induction false} NumberOfZeros(base: nat, n: nat)
    ensures Number(base, Zeros(n)) == 0
  {
    if n > 0 {
      assert Zeros(n)[..n - 1] == Zeros(n - 1);
      NumberOfZeros(base, n - 1);
    }
  }

  lemma NumberSnoc(base: nat, s: seq<int>, x: int)
    ensures Number(base, s + [x]) == Number(base, s) * base + x
  {
    assert (s + [x])[..|s|] == s;
  }

  lemma NumberOf5(b: seq<int>)
    requires |b| == 5
    ensures Number(256, b) == (((b[0] * 256 + b[1]) * 256 + b[2]) * 256 + b[3]) * 256 + b[4]
  {
    assert b == [] + [b[0]] + [b[1]] + [b[2]] + [b[3]] + [b[4]];
    NumberSnoc(256, [], b[0]);
    NumberSnoc(256, [] + [b[0]], b[1]);
    NumberSnoc(256, [] + [b[0]] + [b[1]], b[2]);
    NumberSnoc(256, [] + [b[0]] + [b[1]] + [b[2]], b[3]);
    NumberSnoc(256, [] + [b[0]] + [b[1]] + [b[2]] + [b[3]], b[4]);
  }

  lemma NumberOf4(d: seq<int>)
    requires |d| == 4
    ensures Number(32, d) == ((d[0] * 32 + d[1]) * 32 + d[2]) * 32 + d[3]
  {
    assert d == [] + [d[0]] + [d[1]] + [d[2]] + [d[3]];
    NumberSnoc(32, [], d[0]);
    NumberSnoc(32, [] + [d[0]], d[1]);
    NumberSnoc(32, [] + [d[0]] + [d[1]], d[2]);
    NumberSnoc(32, [] + [d[0]] + [d[1]] + [d[2]], d[3]);
  }

  lemma NumberOf8(d: seq<int>)
    requires |d| == 8
    ensures Number(32, d) == (((d[0] * 32 + d[1]) * 32 + d[2]) * 32 + d[3]) * 0x10_0000
      + ((d[4] * 32 + d[5]) * 32 + d[6]) * 32 + d[7]
  {
    var h, l := d[..4], d[4..];
    assert d == h + l;
    NumberConcat(32, h, l);
    NumberOf4(h);
    NumberOf4(l);
    assert Power(32, 2) == 0x400 && Power(32, 4) == 0x10_0000;
  }

  /** Eight digits and the five bytes packed from them are the same 40-bit number, highest first. */
  lemma PackNumber(digits: seq<Digit>)
    requires |digits| == 8
    ensures Number(256, Pack(digits)) == Number(32, digits)
  {
    NumberOf5(Pack(digits));
    NumberOf8(digits);
  }

  lemma SpreadNumber(b: seq<Byte>)
    requires |b| == 5
    ensures Number(32, Spread(b)) == Number(256, b)
  {
    PackSpread(b);
    PackNumber(Spread(b));
  }

  /** The bits that fill up the last digit. */
  function Padding(bytes: nat): (n: nat)
    ensures n < 5
  {
    match bytes % 5 case 0 => 0 case 1 => 2 case 2 => 4 case 3 => 1 case 4 => 3
  }

  function DigitCount(bytes: nat): nat {
    if bytes >= 5 then 8 + DigitCount(bytes - 5) else DigitsFor(bytes)
  }

  lemma {:induction false} DigitsCounted(b: seq<Byte>)
    ensures |ToDigits(b)| == DigitCount(|b|)
    decreases |b|
  {
    if |b| >= 5 {
      DigitsCounted(b[5..]);
    }
  }

  /** As many digits as the bits take, and no more. */
  lemma {:induction false} DigitCountExact(n: nat)
    ensures 8 * n <= 5 * DigitCount(n) < 8 * n + 5
  {
    if n >= 5 {
      DigitCountExact(n - 5);
    }
  }

  lemma FirstGroup(b: seq<Byte>)
    requires |b| >= 5
    ensures |ToDigits(b)| >= 8 && ToDigits(b)[..8] == Spread(b[..5]) && ToDigits(b)[8..] == ToDigits(b[5..])
  {
  }

  /** Where the groups lie: after `i` groups of five bytes and eight digits the rest follows. */
  lemma {:induction false} Groups(b: seq<Byte>, i: nat)
    requires 5 * i <= |b|
    ensures 8 * i <= |ToDigits(b)| && ToDigits(b)[8 * i..] == ToDigits(b[5 * i..])
    decreases i
  {
    if i == 0 {
      assert b[0..] == b;
    } else {
      Groups(b[5..], i - 1);
      FirstGroup(b);
      DropTwice(b, 5, 5 * i - 5);
      DropTwice(ToDigits(b), 8, 8 * i - 8);
    }
  }

  /**
   The digits of any bytes: as many as the bits take; each whole group of eight is the number of
   its five bytes, highest first; the last group is the number of the remaining bytes, shifted by
   the padding.
   */
  lemma DigitsNumber(b: seq<Byte>, i: nat)
    requires 5 * i <= |b|
    ensures 8 * |b| <= 5 * |ToDigits(b)| < 8 * |b| + 5 && 8 * i <= |ToDigits(b)|
    ensures |b| >= 5 * i + 5 ==>
      && |ToDigits(b)| >= 8 * i + 8
      && Number(32, ToDigits(b)[8 * i..8 * i + 8]) == Number(256, b[5 * i..5 * i + 5])
    ensures |b| < 5 * i + 5 ==>
      Number(32, ToDigits(b)[8 * i..]) == Number(256, b[5 * i..]) * Power(2, Padding(|b| - 5 * i))
  {
    DigitsCounted(b);
    DigitCountExact(|b|);
    Groups(b, i);
    if |b| >= 5 * i + 5 {
      WholeGroup(b, i);
    } else {
      TailNumber(b[5 * i..]);
    }
  }

  lemma WholeGroup(b: seq<Byte>, i: nat)
    requires 5 * i + 5 <= |b|
    ensures |ToDigits(b)| >= 8 * i + 8
    ensures Number(32, ToDigits(b)[8 * i..8 * i + 8]) == Number(256, b[5 * i..5 * i + 5])
  {
    Groups(b, i);
    FirstGroup(b[5 * i..]);
    SliceIs(b, 5 * i, 5);
    SliceIs(ToDigits(b), 8 * i, 8);
    SpreadNumber(b[5 * i..5 * i + 5]);
  }

  lemma TailNumber(b: seq<Byte>)
    requires |b| < 5
    ensures Number(32, ToDigits(b)) == Number(256, b) * Power(2, Padding(|b|))
  {
    var n := |b|;
    Padded(256, b, 5 - n);
    DigitsCut(b);
    SpreadNumber(b + Zeros(5 - n));
    TailWeights(n);
    Cancel(Number(32, ToDigits(b)), Power(32, 8 - DigitsFor(n)), Number(256, b), Power(2, Padding(n)));
  }

  lemma Padded(base: nat, s: seq<int>, n: nat)
    ensures Number(base, s + Zeros(n)) == Number(base, s) * Power(base, n)
  {
    NumberConcat(base, s, Zeros(n));
    NumberOfZeros(base, n);
  }

  lemma DigitsCut(b: seq<Byte>)
    requires |b| < 5
    ensures Number(32, Spread(b + Zeros(5 - |b|))) == Number(32, ToDigits(b)) * Power(32, 8 - DigitsFor(|b|))
  {
    CutDigitsAreZero(b + Zeros(5 - |b|), |b|);
    Padded(32, ToDigits(b), 8 - DigitsFor(|b|));
  }

  lemma Cancel(x: int, u: int, y: int, v: int)
    requires u >= 1 && x * u == y * (v * u)
    ensures x == y * v
  {
    assert y * (v * u) == (y * v) * u;
    assert (x - y * v) * u == 0;
  }

  lemma TailWeights(n: nat)
    requires n < 5
    ensures Power(32, 8 - DigitsFor(n)) >= 1
    ensures Power(256, 5 - n) == Power(2, Padding(n)) * Power(32, 8 - DigitsFor(n))
  {
    assert Power(32, 2) == 0x400 && Power(32, 4) == 0x10_0000 && Power(32, 6) == 0x4000_0000;
    assert Power(32, 8) == 0x100_0000_0000;
    assert Power(256, 2) == 0x1_0000 && Power(256, 4) == 0x1_0000_0000 && Power(2, 2) == 4;
  }

  /** One, three or six digits left over at the end hold no byte and are dropped without an error. */
  lemma LeftoverDropped(d: seq<Digit>)
    requires |d| == 1 || |d| == 3 || |d| == 6
    ensures FromDigits(d) == []
  {
  }
}
