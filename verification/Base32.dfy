/**
 The two byte-level encodings under an ETag: base-128 varints as Protocol Buffers define them, and
 base32 without padding (sections 3.2 and 6 of RFC 4648) over the ETag alphabet.
 */
module Varint {
  import opened Wrappers

  type Byte = b: int | 0 <= b < 256

  const U64 := 0x1_0000_0000_0000_0000

  /** A value read from the front of some bytes, and how many bytes it took. */
  datatype Read = Read(value: nat, len: nat)

  /** `AppendVarint`: seven bits at a time, low bits first, the top bit meaning "more follows". */
  function Encode(v: nat): (r: seq<Byte>)
    ensures r != []
  {
    if v < 128 then [v] else [v % 128 + 128] + Encode(v / 128)
  }

  /** `ConsumeVarint` with `k` bytes behind it: the tenth byte may hold only one bit. */
  function DecodeFrom(src: seq<Byte>, k: nat): (r: Option<Read>)
    requires k <= 9
    ensures r.Some? ==> 1 <= r.value.len <= |src|
    decreases |src|
  {
    if src == [] then None
    else if k == 9 then (if src[0] < 2 then Some(Read(src[0], 1)) else None)
    else if src[0] < 128 then Some(Read(src[0], 1))
    else
      match DecodeFrom(src[1..], k + 1)
      case None => None
      case Some(r) => Some(Read(src[0] - 128 + 128 * r.value, r.len + 1))
  }

  /** The value and the number of bytes read, or None for truncated and overflowing input. */
  function Decode(src: seq<Byte>): (r: Option<Read>)
    ensures r.Some? ==> 1 <= r.value.len <= |src|
  {
    DecodeFrom(src, 0)
  }

  /** What is left of 64 bits after `k` bytes: 2 to the power 64 - 7k. */
  function Bound(k: nat): (b: nat)
    requires k <= 9
  {
    match k
    case 0 => U64
    case 1 => 0x200_0000_0000_0000
    case 2 => 0x4_0000_0000_0000
    case 3 => 0x800_0000_0000
    case 4 => 0x10_0000_0000
    case 5 => 0x2000_0000
    case 6 => 0x40_0000
    case 7 => 0x8000
    case 8 => 0x100
    case 9 => 2
  }

  lemma BoundStep(k: nat)
    requires k < 9
    ensures Bound(k) == 128 * Bound(k + 1)
  {
  }

  lemma {:induction false} RoundTripFrom(v: nat, rest: seq<Byte>, k: nat)
    requires k <= 9 && v < Bound(k)
    ensures DecodeFrom(Encode(v) + rest, k) == Some(Read(v, |Encode(v)|))
    decreases 9 - k
  {
    var src := Encode(v) + rest;
    if v >= 128 {
      BoundStep(k);
      RoundTripFrom(v / 128, rest, k + 1);
      assert src[1..] == Encode(v / 128) + rest;
    }
  }

  /** What is read fits in 64 bits. */
  lemma {:induction false} DecodeBounded(src: seq<Byte>, k: nat)
    requires k <= 9 && DecodeFrom(src, k).Some?
    ensures DecodeFrom(src, k).value.value < Bound(k)
    decreases 9 - k
  {
    if k < 9 {
      BoundStep(k);
      if src[0] >= 128 {
        DecodeBounded(src[1..], k + 1);
      }
    }
  }

  // ----- the value of the bytes

  /** Seven bits per byte, the low ones first. */
  function Leb(bs: seq<Byte>): nat {
    if bs == [] then 0 else bs[0] % 128 + 128 * Leb(bs[1..])
  }

  /** Every byte but the last says that more follow. */
  predicate OneVarint(bs: seq<Byte>) {
    bs != [] && bs[|bs| - 1] < 128 && forall i :: 0 <= i < |bs| - 1 ==> bs[i] >= 128
  }

  lemma OneVarintTail(bs: seq<Byte>)
    requires |bs| > 1
    ensures OneVarint(bs) <==> bs[0] >= 128 && OneVarint(bs[1..])
  {
    var t := bs[1..];
    assert t[|t| - 1] == bs[|bs| - 1];
    if bs[0] >= 128 && OneVarint(t) {
      forall i | 0 <= i < |bs| - 1 ensures bs[i] >= 128 {
        assert i > 0 ==> bs[i] == t[i - 1];
      }
    }
  }

  /** What is written for a value: one varint that stands for it, with no needless last byte. */
  lemma {:induction false} EncodeIsLeb(v: nat)
    ensures OneVarint(Encode(v)) && Leb(Encode(v)) == v
    ensures |Encode(v)| > 1 ==> Encode(v)[|Encode(v)| - 1] != 0
  {
    var bs := Encode(v);
    if v >= 128 {
      EncodeIsLeb(v / 128);
      assert bs[1..] == Encode(v / 128);
      OneVarintTail(bs);
    } else {
      assert bs[1..] == [];
    }
  }

  /**
   What is read, from any bytes: a first varint of at most ten bytes, needless ones included, as
   the value it stands for, if that fits in 64 bits; otherwise nothing.
   */
  lemma {:induction false} DecodesExactly(src: seq<Byte>, k: nat, n: nat)
    requires k <= 9 && 1 <= n <= |src|
    ensures DecodeFrom(src, k).Some? && DecodeFrom(src, k).value.len == n <==>
      n <= 10 - k && OneVarint(src[..n]) && Leb(src[..n]) < Bound(k)
    ensures DecodeFrom(src, k).Some? && DecodeFrom(src, k).value.len == n ==>
      DecodeFrom(src, k).value.value == Leb(src[..n])
    decreases 9 - k
  {
    var front := src[..n];
    assert front[0] == src[0];
    if n == 1 {
      assert front[1..] == [];
    } else {
      assert front[1..] == src[1..][..n - 1];
      OneVarintTail(front);
      if k < 9 {
        BoundStep(k);
        DecodesExactly(src[1..], k + 1, n - 1);
      }
    }
  }

  lemma RoundTrip(v: nat, rest: seq<Byte>)
    requires v < U64
    ensures Decode(Encode(v) + rest) == Some(Read(v, |Encode(v)|))
  {
    RoundTripFrom(v, rest, 0);
  }
}

module Base32 {
  import opened Wrappers
  import opened Varint

  type Digit = d: int | 0 <= d < 32

  const ALPHABET := "QRSTVWXYZabcdefghjklmnpqrstvwxyz"

  /** The alphabet is six runs of consecutive letters. */
  function CharOf(d: Digit): char {
    if d < 4 then 'Q' + d as char
    else if d < 9 then 'V' + (d - 4) as char
    else if d < 17 then 'a' + (d - 9) as char
    else if d < 22 then 'j' + (d - 17) as char
    else if d < 27 then 'p' + (d - 22) as char
    else 'v' + (d - 27) as char
  }

  lemma AlphabetRuns(d: Digit)
    ensures CharOf(d) == ALPHABET[d]
  {
  }

  function DigitOf(c: char): Option<Digit> {
    if 'Q' <= c <= 'T' then Some((c - 'Q') as int)
    else if 'V' <= c <= 'Z' then Some((c - 'V') as int + 4)
    else if 'a' <= c <= 'h' then Some((c - 'a') as int + 9)
    else if 'j' <= c <= 'n' then Some((c - 'j') as int + 17)
    else if 'p' <= c <= 't' then Some((c - 'p') as int + 22)
    else if 'v' <= c <= 'z' then Some((c - 'v') as int + 27)
    else None
  }

  lemma TablesAgree(d: Digit)
    ensures DigitOf(CharOf(d)) == Some(d) && CharOf(d) != '\r' && CharOf(d) != '\n'
  {
  }

  // ----- one quantum: five bytes, eight digits

  function Spread(b: seq<Byte>): (d: seq<Digit>)
    requires |b| == 5
    ensures |d| == 8
  {
    [b[0] / 8, b[0] % 8 * 4 + b[1] / 64, b[1] / 2 % 32, b[1] % 2 * 16 + b[2] / 16,
     b[2] % 16 * 2 + b[3] / 128, b[3] / 4 % 32, b[3] % 4 * 8 + b[4] / 32, b[4] % 32]
  }

  function Pack(digits: seq<Digit>): (b: seq<Byte>)
    requires |digits| == 8
    ensures |b| == 5
  {
    var d: seq<int> := digits;
    [d[0] * 8 + d[1] / 4, d[1] % 4 * 64 + d[2] * 2 + d[3] / 16, d[3] % 16 * 16 + d[4] / 2,
     d[4] % 2 * 128 + d[5] * 4 + d[6] / 8, d[6] % 8 * 32 + d[7]]
  }

  // Each byte comes back from the two or three digits it was spread over.

  lemma Byte0(b0: Byte, b1: Byte)
    ensures b0 / 8 * 8 + (b0 % 8 * 4 + b1 / 64) / 4 == b0
  {
  }

  lemma Byte1(b0: Byte, b1: Byte, b2: Byte)
    ensures (b0 % 8 * 4 + b1 / 64) % 4 * 64 + b1 / 2 % 32 * 2 + (b1 % 2 * 16 + b2 / 16) / 16 == b1
  {
    assert (b0 % 8 * 4 + b1 / 64) % 4 == b1 / 64;
    assert (b1 % 2 * 16 + b2 / 16) / 16 == b1 % 2;
    assert b1 / 2 / 32 == b1 / 64;
  }

  lemma Byte2(b1: Byte, b2: Byte, b3: Byte)
    ensures (b1 % 2 * 16 + b2 / 16) % 16 * 16 + (b2 % 16 * 2 + b3 / 128) / 2 == b2
  {
  }

  lemma Byte3(b2: Byte, b3: Byte, b4: Byte)
    ensures (b2 % 16 * 2 + b3 / 128) % 2 * 128 + b3 / 4 % 32 * 4 + (b3 % 4 * 8 + b4 / 32) / 8 == b3
  {
    assert (b2 % 16 * 2 + b3 / 128) % 2 == b3 / 128;
    assert (b3 % 4 * 8 + b4 / 32) / 8 == b3 % 4;
    assert b3 / 4 / 32 == b3 / 128;
  }

  lemma Byte4(b3: Byte, b4: Byte)
    ensures (b3 % 4 * 8 + b4 / 32) % 8 * 32 + b4 % 32 == b4
  {
  }

  lemma PackSpread(b: seq<Byte>)
    requires |b| == 5
    ensures Pack(Spread(b)) == b
  {
    var r := Pack(Spread(b));
    assert r[0] == b[0] by { Byte0(b[0], b[1]); }
    assert r[1] == b[1] by { Byte1(b[0], b[1], b[2]); }
    assert r[2] == b[2] by { Byte2(b[1], b[2], b[3]); }
    assert r[3] == b[3] by { Byte3(b[2], b[3], b[4]); }
    assert r[4] == b[4] by { Byte4(b[3], b[4]); }
  }

  /** Digits needed for a final group of fewer than five bytes. */
  function DigitsFor(bytes: nat): (n: nat)
    requires bytes < 5
    ensures n < 8
  {
    match bytes case 0 => 0 case 1 => 2 case 2 => 4 case 3 => 5 case 4 => 7
  }

  /** Bytes in a final group of fewer than eight digits; one, three or six digits hold none. */
  function BytesFor(digits: nat): (n: nat)
    requires digits < 8
    ensures n < 5
  {
    match digits case 2 => 1 case 4 => 2 case 5 => 3 case 7 => 4 case _ => 0
  }

  function Zeros(n: nat): (z: seq<int>)
    ensures |z| == n && forall i :: 0 <= i < n ==> z[i] == 0
  {
    seq(n, i => 0)
  }

  // ----- whole sequences

  function ToDigits(b: seq<Byte>): seq<Digit> {
    if |b| >= 5 then Spread(b[..5]) + ToDigits(b[5..])
    else Spread(b + Zeros(5 - |b|))[..DigitsFor(|b|)]
  }

  function FromDigits(d: seq<Digit>): seq<Byte> {
    if |d| >= 8 then Pack(d[..8]) + FromDigits(d[8..])
    else Pack(d + Zeros(8 - |d|))[..BytesFor(|d|)]
  }

  /** The digits cut from a final group are zero, so cutting them loses nothing. */
  lemma CutDigitsAreZero(p: seq<Byte>, n: nat)
    requires |p| == 5 && n < 5 && forall i :: n <= i < 5 ==> p[i] == 0
    ensures Spread(p)[..DigitsFor(n)] + Zeros(8 - DigitsFor(n)) == Spread(p)
  {
    var d := Spread(p);
    assert n <= 4 ==> d[7] == 0;
    assert n <= 3 ==> d[6] == 0 && d[5] == 0;
    assert n <= 2 ==> d[4] == 0;
    assert n <= 1 ==> d[3] == 0 && d[2] == 0;
    assert n <= 0 ==> d[1] == 0 && d[0] == 0;
  }

  lemma TailRoundTrip(b: seq<Byte>)
    requires |b| < 5
    ensures FromDigits(ToDigits(b)) == b
  {
    var p := b + Zeros(5 - |b|);
    PackSpread(p);
    CutDigitsAreZero(p, |b|);
    assert BytesFor(DigitsFor(|b|)) == |b|;
    assert p[..|b|] == b;
  }

  lemma {:induction false} DigitsRoundTrip(b: seq<Byte>)
    ensures FromDigits(ToDigits(b)) == b
    decreases |b|
  {
    if |b| >= 5 {
      var d := ToDigits(b);
      assert d[..8] == Spread(b[..5]) && d[8..] == ToDigits(b[5..]);
      PackSpread(b[..5]);
      DigitsRoundTrip(b[5..]);
      assert b == b[..5] + b[5..];
    } else {
      TailRoundTrip(b);
    }
  }

  function Chars(d: seq<Digit>): (s: string)
    ensures |s| == |d|
  {
    seq(|d|, i requires 0 <= i < |d| => CharOf(d[i]))
  }

  /** Line breaks are skipped; any other character outside the alphabet is an error. */
  function Digits(s: string): Option<seq<Digit>> {
    if s == [] then Some([])
    else if s[0] == '\r' || s[0] == '\n' then Digits(s[1..])
    else
      match (DigitOf(s[0]), Digits(s[1..]))
      case (Some(d), Some(rest)) => Some([d] + rest)
      case _ => None
  }

  lemma {:induction false} CharsRoundTrip(d: seq<Digit>)
    ensures Digits(Chars(d)) == Some(d)
    decreases |d|
  {
    if d != [] {
      TablesAgree(d[0]);
      CharsRoundTrip(d[1..]);
      assert Chars(d)[1..] == Chars(d[1..]);
      assert CharOf(d[0]) == Chars(d)[0];
      assert d == [d[0]] + d[1..];
    }
  }

  function Encode(b: seq<Byte>): string {
    Chars(ToDigits(b))
  }

  function Decode(s: string): Option<seq<Byte>> {
    match Digits(s)
    case None => None
    case Some(d) => Some(FromDigits(d))
  }

  lemma RoundTrip(b: seq<Byte>)
    ensures Decode(Encode(b)) == Some(b)
  {
    CharsRoundTrip(ToDigits(b));
    DigitsRoundTrip(b);
  }

  lemma {:induction false} LineBreakSkipped(s: string, c: char, t: string)
    requires c == '\r' || c == '\n'
    ensures Digits(s + [c] + t) == Digits(s + t)
    decreases |s|
  {
    if s == [] {
      assert s + [c] + t == [c] + t && s + t == t && ([c] + t)[1..] == t;
    } else {
      LineBreakSkipped(s[1..], c, t);
      assert (s + [c] + t)[1..] == s[1..] + [c] + t && (s + t)[1..] == s[1..] + t;
    }
  }

  /** A string with a character that is neither in the alphabet nor a line break does not decode. */
  lemma {:induction false} ForeignCharacter(s: string, i: nat)
    requires i < |s| && DigitOf(s[i]).None? && s[i] != '\r' && s[i] != '\n'
    ensures Decode(s).None?
    decreases |s|
  {
    if i > 0 {
      ForeignCharacter(s[1..], i - 1);
    }
  }
}
