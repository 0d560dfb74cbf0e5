/**
 ETags and object identifiers of pkg/etag: a (type, oid, version) triple written as three varints
 and then base32 text, and its alternative, the oid in decimal.
 */
module Etag {
  import opened Collections
  import opened Wrappers
  import opened Varint
  import Base32
  import Decimal

  const U32 := 0x1_0000_0000

  type EtagType = t: int | 0 <= t < 0x1_0000_0000
  type Int32 = v: int | -0x8000_0000 <= v < 0x8000_0000
  type Int64 = v: int | -0x8000_0000_0000_0000 <= v < 0x8000_0000_0000_0000

  datatype Tag = Tag(typ: EtagType, oid: Int64, ver: Int32)

  /** A reference to an object, with its version if the text carried one. */
  datatype Tid = Tid(oid: Int64, ver: Option<Int32>)

  datatype Error =
    | BadType | BadOid | BadVersion | InvalidEncoding | Malformed | IllegalType | InvalidFormat

  // ----- Go's integer conversions

  function ToU64(x: int): (r: nat)
    ensures r < U64
  {
    x % U64
  }

  function ToInt32(x: nat): Int32 {
    var low := x % U32;
    if low < 0x8000_0000 then low else low - U32
  }

  function ToInt64(x: nat): Int64 {
    var low := x % U64;
    if low < 0x8000_0000_0000_0000 then low else low - U64
  }

  function ToType(x: nat): EtagType {
    x % U32
  }

  lemma ConversionsInvert(t: EtagType, o: Int64, v: Int32)
    ensures ToType(ToU64(t)) == t && ToInt64(ToU64(o)) == o && ToInt32(ToU64(v)) == v
  {
  }

  /** Go's conversions drop high bits: what they take away is a multiple of their width. */
  lemma ConversionsTruncate(x: nat)
    ensures x - ToType(x) == U32 * (x / U32)
    ensures x - ToInt32(x) == U32 * (x / U32) || x - ToInt32(x) == U32 * (x / U32 + 1)
    ensures x - ToInt64(x) == U64 * (x / U64) || x - ToInt64(x) == U64 * (x / U64 + 1)
  {
  }

  // ----- bytes

  function AppendTag(t: Tag): seq<Byte> {
    Varint.Encode(ToU64(t.ver)) + Varint.Encode(ToU64(t.typ)) + Varint.Encode(ToU64(t.oid))
  }

  datatype Reads = Reads(values: seq<nat>, len: nat)

  /** `e` varints in a row: their values and the bytes read. */
  function ConsumeVarints(src: seq<Byte>, e: nat): (r: Option<Reads>)
    ensures r.Some? ==> |r.value.values| == e && r.value.len <= |src|
  {
    if e == 0 then Some(Reads([], 0))
    else
      var init := ConsumeVarints(src, e - 1);
      if init.None? then None
      else
        var next := Varint.Decode(src[init.value.len..]);
        if next.None? then None
        else Some(Reads(init.value.values + [next.value.value], init.value.len + next.value.len))
  }

  /** After `e` varints that end at `pos`, one more in its encoding is read as itself. */
  lemma ConsumeNext(src: seq<Byte>, pos: nat, v: nat, rest: seq<Byte>, e: nat, vs: seq<nat>)
    requires v < U64 && pos <= |src| && src[pos..] == Varint.Encode(v) + rest
    requires ConsumeVarints(src, e) == Some(Reads(vs, pos))
    ensures
      var next := pos + |Varint.Encode(v)|;
      && ConsumeVarints(src, e + 1) == Some(Reads(vs + [v], next))
      && next <= |src| && src[next..] == rest
  {
    Varint.RoundTrip(v, rest);
    ConsumeStep(src, e, Reads(vs, pos), Some(Read(v, |Varint.Encode(v)|)));
    DropTwice(src, pos, |Varint.Encode(v)|);
  }

  /** The tag at the front of `src` and its length. */
  function TagAt(src: seq<Byte>): Option<(Tag, nat)> {
    match ConsumeVarints(src, 3)
    case None => None
    case Some(r) => Some((Tag(ToType(r.values[1]), ToInt64(r.values[2]), ToInt32(r.values[0])), r.len))
  }

  /** The first `e` varints of `src` have the values `v` and end at `n`. */
  ghost predicate ReadSoFar(src: seq<Byte>, e: nat, v: seq<nat>, n: nat) {
    n <= |src| && ConsumeVarints(src, e) == Some(Reads(v, n)) && (e > 0 ==> n > 0)
  }

  lemma ReadNext(src: seq<Byte>, e: nat, v: seq<nat>, n: nat)
    requires e < 3 && ReadSoFar(src, e, v, n)
    ensures
      var d := Varint.Decode(src[n..]);
      if d.Some? then ReadSoFar(src, e + 1, v + [d.value.value], n + d.value.len)
      else ConsumeVarints(src, 3).None?
  {
    var d := Varint.Decode(src[n..]);
    ConsumeStep(src, e, Reads(v, n), d);
    if d.None? {
      AbsentStays(src, e + 1, 3);
    }
  }

  /** The loop of `ConsumeTag`. */
  method ReadValues(src: seq<Byte>) returns (r: Option<Reads>)
    ensures r == ConsumeVarints(src, 3)
    ensures r.Some? ==> r.value.len > 0
  {
    var v: seq<nat>, n: nat := [], 0;
    for e := 0 to 3
      invariant ReadSoFar(src, e, v, n)
    {
      var d := Varint.Decode(src[n..]);
      ReadNext(src, e, v, n);
      if d.None? {
        return None;
      }
      v, n := v + [d.value.value], n + d.value.len;
    }
    return Some(Reads(v, n));
  }

  lemma ConsumeStep(src: seq<Byte>, e: nat, r: Reads, d: Option<Read>)
    requires r.len <= |src| && ConsumeVarints(src, e) == Some(r) && d == Varint.Decode(src[r.len..])
    ensures d.None? ==> ConsumeVarints(src, e + 1).None?
    ensures d.Some? ==>
      ConsumeVarints(src, e + 1) == Some(Reads(r.values + [d.value.value], r.len + d.value.len))
  {
  }

  /** `ConsumeTag`: a length of zero reports malformed input. */
  method ConsumeTag(src: seq<Byte>) returns (t: Tag, n: nat)
    ensures TagAt(src).Some? ==> (t, n) == TagAt(src).value && n > 0
    ensures TagAt(src).None? ==> n == 0 && t == Tag(0, 0, 0)
  {
    var r := ReadValues(src);
    if r.None? {
      return Tag(0, 0, 0), 0;
    }
    var v := r.value.values;
    return Tag(ToType(v[1]), ToInt64(v[2]), ToInt32(v[0])), r.value.len;
  }

  lemma {:induction false} AbsentStays(src: seq<Byte>, e: nat, e': nat)
    requires e <= e' && ConsumeVarints(src, e).None?
    ensures ConsumeVarints(src, e').None?
    decreases e'
  {
    if e < e' {
      AbsentStays(src, e, e' - 1);
    }
  }

  /** The layout: version, type and oid, in that order, as varints, whatever follows them. */
  lemma TagLayout(t: Tag, rest: seq<Byte>)
    ensures ConsumeVarints(AppendTag(t) + rest, 3) ==
      Some(Reads([ToU64(t.ver), ToU64(t.typ), ToU64(t.oid)], |AppendTag(t)|))
  {
    ThreeVarints(ToU64(t.ver), ToU64(t.typ), ToU64(t.oid), rest);
  }

  lemma ThreeVarints(v: nat, y: nat, o: nat, rest: seq<Byte>)
    requires v < U64 && y < U64 && o < U64
    ensures
      var src := Varint.Encode(v) + Varint.Encode(y) + Varint.Encode(o);
      ConsumeVarints(src + rest, 3) == Some(Reads([v, y, o], |src|))
  {
    var a, b, c := Varint.Encode(v), Varint.Encode(y), Varint.Encode(o);
    var src := a + b + c + rest;
    ConcatRight(a, b, c, rest);
    assert src[0..] == src;
    ConsumeNext(src, 0, v, b + (c + rest), 0, []);
    ConsumeNext(src, |a|, y, c + rest, 1, [] + [v]);
    ConsumeNext(src, |a| + |b|, o, rest, 2, [] + [v] + [y]);
    assert [] + [v] + [y] + [o] == [v, y, o];
  }

  /** Reading back a tag gives the same tag, for every 32-bit type and version and 64-bit oid. */
  lemma TagRoundTrip(t: Tag)
    ensures TagAt(AppendTag(t)) == Some((t, |AppendTag(t)|))
  {
    TagLayout(t, []);
    assert AppendTag(t) + [] == AppendTag(t);
    ConversionsInvert(t.typ, t.oid, t.ver);
  }

  /** The whole text must be the tag: with anything behind it decoding fails. */
  lemma TrailingBytesRefused(t: Tag, rest: seq<Byte>)
    requires rest != []
    ensures DecodeEtag(Base32.Encode(AppendTag(t) + rest)) == Err(Malformed)
  {
    Base32.RoundTrip(AppendTag(t) + rest);
    TagLayout(t, rest);
  }

  // ----- text

  function EncodeEtag(t: Tag): Result<string, Error> {
    if t.typ <= 0 then Err(BadType)
    else if t.oid < 1 then Err(BadOid)
    else if t.ver < 0 then Err(BadVersion)
    else Ok(Base32.Encode(AppendTag(t)))
  }

  /** `DecodeEtag`: the whole text must be one tag; its fields are not checked. */
  function DecodeEtag(s: string): Result<Tag, Error> {
    match Base32.Decode(s)
    case None => Err(InvalidEncoding)
    case Some(src) =>
      match TagAt(src)
      case None => Err(Malformed)
      case Some((t, n)) => if n <= 0 || n < |src| then Err(Malformed) else Ok(t)
  }

  lemma TextRoundTrip(t: Tag)
    ensures DecodeEtag(Base32.Encode(AppendTag(t))) == Ok(t)
  {
    Base32.RoundTrip(AppendTag(t));
    TagRoundTrip(t);
  }

  /** Encoding succeeds exactly on valid triples, and decoding gives the same triple back. */
  lemma EtagRoundTrip(t: Tag)
    ensures EncodeEtag(t).Ok? <==> t.typ >= 1 && t.oid >= 1 && t.ver >= 0
    ensures EncodeEtag(t).Ok? ==> DecodeEtag(EncodeEtag(t).value) == Ok(t)
  {
    TextRoundTrip(t);
  }

  /** Hence no two triples share an ETag. */
  lemma EncodeInjective(t: Tag, u: Tag)
    requires EncodeEtag(t).Ok? && EncodeEtag(t) == EncodeEtag(u)
    ensures t == u
  {
    EtagRoundTrip(t);
    EtagRoundTrip(u);
  }

  // ----- decimal identifiers

  function GetOid(id: string): Result<Int64, Error> {
    match Decimal.ParseInt(id)
    case None => Err(InvalidFormat)
    case Some(oid) => if oid < 1 then Err(InvalidFormat) else Ok(oid)
  }

  function GetId(oid: Int64): Result<string, Error> {
    if oid < 1 then Err(BadOid) else Ok(Decimal.Itoa(oid))
  }

  /** Identifiers are the positive 64-bit numbers in decimal, and only those. */
  lemma OidsArePositive(s: string, oid: Int64)
    ensures GetOid(s) == Ok(oid) <==> Decimal.ParseInt(s) == Some(oid) && oid >= 1
    ensures GetId(oid).Ok? <==> oid >= 1
  {
  }

  lemma IdRoundTrip(oid: Int64)
    requires oid >= 1
    ensures GetId(oid).Ok? && GetOid(GetId(oid).value) == Ok(oid)
  {
    Decimal.ParseFormatted(oid);
  }

  /** No text is both an ETag and a decimal identifier. */
  lemma LanguagesDisjoint(s: string)
    requires GetOid(s).Ok?
    ensures DecodeEtag(s).Err?
  {
    var digits := if s[0] == '-' || s[0] == '+' then s[1..] else s;
    var i := |s| - 1;
    assert Decimal.IsDigit(digits[|digits| - 1]) && s[i] == digits[|digits| - 1];
    Base32.ForeignCharacter(s, i);
  }

  /** `EtagOrId`: an ETag of the expected type, or else an identifier. */
  function EtagOrId(of: EtagType, s: string): Result<Tid, Error> {
    match DecodeEtag(s)
    case Ok(t) => if of != t.typ then Err(IllegalType) else Ok(Tid(t.oid, Some(t.ver)))
    case Err(_) =>
      match GetOid(s)
      case Err(e) => Err(e)
      case Ok(oid) => if oid < 1 then Err(BadOid) else Ok(Tid(oid, None))
  }

  /** The two notations do not get in each other's way: each is read back as what it was. */
  lemma EtagOrIdRecovers(t: Tag, of: EtagType)
    requires EncodeEtag(t).Ok?
    ensures EtagOrId(of, EncodeEtag(t).value) ==
      if of == t.typ then Ok(Tid(t.oid, Some(t.ver))) else Err(IllegalType)
    ensures GetId(t.oid).Ok? && EtagOrId(of, GetId(t.oid).value) == Ok(Tid(t.oid, None))
  {
    EtagRoundTrip(t);
    IdRoundTrip(t.oid);
    LanguagesDisjoint(GetId(t.oid).value);
  }

  /**
   The identifier branch yields positive oids only; the ETag branch passes on whatever the bytes
   hold, so a hand-made tag brings any oid through, zero and negative ones included.
   */
  lemma EtagBranchUnchecked(of: EtagType, oid: Int64, ver: Int32, s: string)
    ensures EtagOrId(of, Base32.Encode(AppendTag(Tag(of, oid, ver)))) == Ok(Tid(oid, Some(ver)))
    ensures EtagOrId(of, s).Ok? && EtagOrId(of, s).value.ver.None? ==> EtagOrId(of, s).value.oid >= 1
  {
    TextRoundTrip(Tag(of, oid, ver));
  }

  /** Decoding is not injective: a line break anywhere in the text is skipped. */
  lemma LineBreakSkipped(s: string, c: char, t: string)
    requires c == '\r' || c == '\n'
    ensures DecodeEtag(s + [c] + t) == DecodeEtag(s + t)
  {
    Base32.LineBreakSkipped(s, c, t);
  }
}
