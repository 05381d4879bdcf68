/** Request identifiers: a version 4 UUID (section 4.4 of RFC 4122) made from 16 random bytes,
    with the version (section 4.1.3) and variant (section 4.1.1) bits forced and the bytes
    written as 8-4-4-4-12 lower-case hexadecimal digits; and the choice between an incoming
    `X-Request-ID` header and a fresh identifier, which is put both in the response header and
    in the request context. */
module RequestId {
  import opened Common
  import opened Strs

  /** The identifier used when the random source fails. */
  const Fallback: string := "00000000-0000-4000-8000-000000000000"

  /** The high nibble of byte 6 becomes 4, the version. */
  function SetVersion(b: byte): byte
  {
    (b & 0x0f) | 0x40
  }

  /** The two top bits of byte 8 become `10`, the variant. */
  function SetVariant(b: byte): byte
  {
    (b & 0x3f) | 0x80
  }

  /** The 16 bytes once version and variant are set: the version nibble of byte 6 is 4, the top
      bits of byte 8 are `10`, and every other bit of the input is kept. */
  function Stamped(u: seq<byte>): (r: seq<byte>)
    requires |u| == 16
    ensures |r| == 16
    ensures forall i :: 0 <= i < 16 && i != 6 && i != 8 ==> r[i] == u[i]
    ensures r[6] >> 4 == 4 && r[6] & 0x0f == u[6] & 0x0f
    ensures r[8] >> 6 == 2 && r[8] & 0x3f == u[8] & 0x3f
  {
    u[6 := SetVersion(u[6])][8 := SetVariant(u[8])]
  }

  /** Each byte as two lower-case hexadecimal digits, as the `%x` verb writes a byte slice. */
  function Hex(bs: seq<byte>): (s: string)
    ensures |s| == 2 * |bs|
  {
    if bs == [] then "" else [Hi(bs[0]), Lo(bs[0])] + Hex(bs[1..])
  }

  function Hi(b: byte): char
  {
    LowerHexDigit(b as int / 16)
  }

  function Lo(b: byte): char
  {
    LowerHexDigit(b as int % 16)
  }

  /** The 8-4-4-4-12 layout of the 16 bytes: 36 characters with a dash between groups. */
  function Format(u: seq<byte>): (s: string)
    requires |u| == 16
    ensures |s| == 36
    ensures forall k :: 0 <= k < 36 && IsDashIndex(k) ==> s[k] == '-'
  {
    Groups(Hex(u[..4]), Hex(u[4..6]), Hex(u[6..8]), Hex(u[8..10]), Hex(u[10..16]));
    Hex(u[..4]) + "-" + Hex(u[4..6]) + "-" + Hex(u[6..8]) + "-" + Hex(u[8..10]) + "-" + Hex(u[10..16])
  }

  /** `newUUIDv4`: `random` is what the random source read into the 16-byte array, and
      `readOk` whether it succeeded. The version and variant bytes are overwritten in place
      before the array is formatted. */
  method NewUUIDv4(random: seq<byte>, readOk: bool) returns (id: string)
    requires |random| == 16
    ensures id == if readOk then Format(Stamped(random)) else Fallback
    ensures IsV4(id)
  {
    var uuid := new byte[16](i requires 0 <= i < 16 => random[i]);
    assert uuid[..] == random;
    if !readOk {
      FallbackIsV4(Fallback);
      return Fallback;
    }
    uuid[6] := (uuid[6] & 0x0f) | 0x40;
    assert uuid[..] == random[6 := SetVersion(random[6])];
    uuid[8] := (uuid[8] & 0x3f) | 0x80;
    id := Format(uuid[..]);
    NewIdProperties(random, readOk, id);
  }

  // ---------------------------------------------------------------------------------------
  // The textual form, independently of how it is produced
  // ---------------------------------------------------------------------------------------

  predicate IsLowerHex(c: char)
  {
    ('0' <= c <= '9') || ('a' <= c <= 'f')
  }

  predicate IsDashIndex(k: int)
  {
    k == 8 || k == 13 || k == 18 || k == 23
  }

  /** The pattern a version 4 UUID matches: 36 characters, dashes at 8, 13, 18 and 23, '4' at 14,
      one of '8', '9', 'a', 'b' at 19, and lower-case hexadecimal digits everywhere else. */
  predicate IsV4(s: string)
  {
    && |s| == 36
    && forall k :: 0 <= k < 36 ==>
         if IsDashIndex(k) then s[k] == '-'
         else if k == 14 then s[k] == '4'
         else if k == 19 then s[k] in "89ab"
         else IsLowerHex(s[k])
  }

  /** Where the high digit of byte `i` sits in the text. */
  function Pos(i: int): int
  {
    2 * i + (if i >= 4 then 1 else 0) + (if i >= 6 then 1 else 0) + (if i >= 8 then 1 else 0)
      + (if i >= 10 then 1 else 0)
  }

  /** The byte a non-dash position of the text belongs to. */
  function Slot(k: int): (i: int)
    requires 0 <= k < 36 && !IsDashIndex(k)
    ensures 0 <= i < 16 && (k == Pos(i) || k == Pos(i) + 1)
  {
    if k < 8 then k / 2
    else if k < 13 then 4 + (k - 9) / 2
    else if k < 18 then 6 + (k - 14) / 2
    else if k < 23 then 8 + (k - 19) / 2
    else 10 + (k - 24) / 2
  }

  function ByteAt(s: string, i: int): byte
    requires |s| == 36 && 0 <= i < 16
    requires IsHexDigit(s[Pos(i)]) && IsHexDigit(s[Pos(i) + 1])
  {
    (HexValue(s[Pos(i)]) * 16 + HexValue(s[Pos(i) + 1])) as byte
  }

  predicate Decodable(s: string)
  {
    |s| == 36 && forall i :: 0 <= i < 16 ==> IsHexDigit(s[Pos(i)]) && IsHexDigit(s[Pos(i) + 1])
  }

  /** The 16 bytes a UUID text stands for. */
  function Decode(s: string): seq<byte>
    requires Decodable(s)
  {
    seq(16, i requires 0 <= i < 16 => ByteAt(s, i))
  }

  // ---------------------------------------------------------------------------------------

  lemma {:induction false} HexAt(bs: seq<byte>, k: int)
    requires 0 <= k < |bs|
    ensures Hex(bs)[2 * k] == Hi(bs[k]) && Hex(bs)[2 * k + 1] == Lo(bs[k])
    decreases |bs|
  {
    if k > 0 {
      HexAt(bs[1..], k - 1);
    }
  }

  /** Where each group lands in the 8-4-4-4-12 layout. */
  lemma Groups(a: string, b: string, c: string, d: string, e: string)
    requires |a| == 8 && |b| == 4 && |c| == 4 && |d| == 4 && |e| == 12
    ensures var s := a + "-" + b + "-" + c + "-" + d + "-" + e;
            && |s| == 36
            && s[8] == '-' && s[13] == '-' && s[18] == '-' && s[23] == '-'
  {
  }

  /** The character at a non-dash position of the layout. */
  lemma GroupChar(a: string, b: string, c: string, d: string, e: string, k: int)
    requires |a| == 8 && |b| == 4 && |c| == 4 && |d| == 4 && |e| == 12
    requires 0 <= k < 36 && !IsDashIndex(k)
    ensures var s := a + "-" + b + "-" + c + "-" + d + "-" + e;
            s[k] == if k < 8 then a[k] else if k < 13 then b[k - 9] else if k < 18 then c[k - 14]
                    else if k < 23 then d[k - 19] else e[k - 24]
  {
  }

  /** Every byte's two digits sit at `Pos(i)` and `Pos(i) + 1`, between the four dashes. */
  lemma FormatLayout(u: seq<byte>)
    requires |u| == 16
    ensures |Format(u)| == 36
    ensures forall k :: 0 <= k < 36 && IsDashIndex(k) ==> Format(u)[k] == '-'
    ensures forall i :: 0 <= i < 16 ==> Format(u)[Pos(i)] == Hi(u[i]) && Format(u)[Pos(i) + 1] == Lo(u[i])
  {
    forall i | 0 <= i < 16
      ensures Format(u)[Pos(i)] == Hi(u[i]) && Format(u)[Pos(i) + 1] == Lo(u[i])
    {
      FormatAt(u, i);
    }
    Groups(Hex(u[..4]), Hex(u[4..6]), Hex(u[6..8]), Hex(u[8..10]), Hex(u[10..16]));
  }

  lemma FormatAt(u: seq<byte>, i: int)
    requires |u| == 16 && 0 <= i < 16
    ensures Format(u)[Pos(i)] == Hi(u[i]) && Format(u)[Pos(i) + 1] == Lo(u[i])
  {
    var a, b, c, d, e := Hex(u[..4]), Hex(u[4..6]), Hex(u[6..8]), Hex(u[8..10]), Hex(u[10..16]);
    GroupChar(a, b, c, d, e, Pos(i));
    GroupChar(a, b, c, d, e, Pos(i) + 1);
    if i < 4 {
      GroupAt(u, 0, 4, i);
      assert u[..4] == u[0..4];
    } else if i < 6 {
      GroupAt(u, 4, 6, i);
    } else if i < 8 {
      GroupAt(u, 6, 8, i);
    } else if i < 10 {
      GroupAt(u, 8, 10, i);
    } else {
      GroupAt(u, 10, 16, i);
    }
  }

  /** The digits of byte `i` inside the digits of the group `u[lo..hi]`. */
  lemma GroupAt(u: seq<byte>, lo: int, hi: int, i: int)
    requires 0 <= lo <= i < hi <= |u|
    ensures var g := Hex(u[lo..hi]);
            g[2 * (i - lo)] == Hi(u[i]) && g[2 * (i - lo) + 1] == Lo(u[i])
  {
    HexAt(u[lo..hi], i - lo);
  }

  lemma Nibbles(b: byte)
    ensures b as int / 16 == (b >> 4) as int && b as int % 16 == (b & 0x0f) as int
    ensures ((b as int / 16) * 16 + b as int % 16) as byte == b
  {
  }

  /** The digit written for the version and the one written for the variant. */
  lemma StampedDigits(u: seq<byte>)
    requires |u| == 16
    ensures Hi(Stamped(u)[6]) == '4'
    ensures Hi(Stamped(u)[8]) in "89ab"
  {
    var r := Stamped(u);
    Nibbles(r[6]);
    Nibbles(r[8]);
    var v := r[8] as int / 16;
    assert r[8] as int / 64 == 2 by {
      VariantHigh(r[8]);
    }
    assert 8 <= v < 12;
    assert LowerHexDigit(v) in "89ab" by {
      if v == 8 { assert LowerHexDigit(v) == "89ab"[0]; }
      else if v == 9 { assert LowerHexDigit(v) == "89ab"[1]; }
      else if v == 10 { assert LowerHexDigit(v) == "89ab"[2]; }
      else { assert LowerHexDigit(v) == "89ab"[3]; }
    }
  }

  lemma VariantHigh(b: byte)
    requires b >> 6 == 2
    ensures b as int / 64 == 2
  {
  }

  /** Every identifier made from random bytes has the version 4 form. */
  lemma FormatIsV4(u: seq<byte>)
    requires |u| == 16
    ensures IsV4(Format(Stamped(u)))
  {
    var r := Stamped(u);
    var s := Format(r);
    FormatLayout(r);
    StampedDigits(u);
    forall k | 0 <= k < 36 && !IsDashIndex(k)
      ensures if k == 14 then s[k] == '4' else if k == 19 then s[k] in "89ab" else IsLowerHex(s[k])
    {
      var i := Slot(k);
      if k == 14 {
        assert i == 6 && k == Pos(6);
      } else if k == 19 {
        assert i == 8 && k == Pos(8);
      } else if k == Pos(i) {
        assert s[k] == Hi(r[i]);
      } else {
        assert s[k] == Lo(r[i]);
      }
    }
  }

  /** Reading the hexadecimal digits back gives the bytes that were formatted. */
  lemma DecodeFormat(u: seq<byte>)
    requires |u| == 16
    ensures Decodable(Format(u)) && Decode(Format(u)) == u
  {
    var s := Format(u);
    assert |s| == 36;
    forall i | 0 <= i < 16
      ensures IsHexDigit(s[Pos(i)]) && IsHexDigit(s[Pos(i) + 1])
      ensures ByteAt(s, i) == u[i]
    {
      FormatAt(u, i);
      DigitsOfByte(u[i]);
    }
  }

  /** A byte's two digits read back as the byte. */
  lemma DigitsOfByte(b: byte)
    ensures IsHexDigit(Hi(b)) && IsHexDigit(Lo(b))
    ensures (HexValue(Hi(b)) * 16 + HexValue(Lo(b))) as byte == b
  {
    Nibbles(b);
  }

  /** What `newUUIDv4` returns, from any random bytes, has the version 4 form, and decodes to
      those bytes with only the version and variant bits changed. */
  lemma NewIdProperties(random: seq<byte>, readOk: bool, id: string)
    requires |random| == 16
    requires id == if readOk then Format(Stamped(random)) else Fallback
    ensures IsV4(id)
    ensures readOk ==> Decodable(id) && Decode(id) == Stamped(random)
  {
    if readOk {
      FormatIsV4(random);
      DecodeFormat(Stamped(random));
    } else {
      FallbackIsV4(id);
    }
  }

  /** The identifier used on failure has the version 4 form too. */
  lemma FallbackIsV4(s: string)
    requires s == Fallback
    ensures IsV4(s)
  {
    assert |s| == 36;
    forall k | 0 <= k < 36
      ensures if IsDashIndex(k) then s[k] == '-'
              else if k == 14 then s[k] == '4'
              else if k == 19 then s[k] in "89ab"
              else IsLowerHex(s[k])
    {
      if k == 19 {
        assert s[k] == "89ab"[0];
      }
    }
  }

  // ---------------------------------------------------------------------------------------
  // Choosing the request's identifier
  // ---------------------------------------------------------------------------------------

  const HeaderXRequestId: string := "X-Request-ID"

  /** The context key under which the identifier is stored. */
  const RequestIdKey: string := "request_id"

  /** Header fields by canonical name, each with its first value. */
  type Headers = map<string, string>

  /** `Header.Get`: "" when the field is absent. */
  function HeaderGet(h: Headers, name: string): string
  {
    StringAt(h, name)
  }

  /** A value stored in a request context. Only the package's own key type can reach the
      identifier's entry, so the keys here are the names of that type's keys. */
  datatype CtxValue = StringValue(s: string) | OtherValue

  type Context = map<string, CtxValue>

  /** `RequestIDFromContext`: the stored identifier, or "" when none is stored or the stored
      value is not a string. */
  function FromContext(ctx: Context): (id: string)
    ensures RequestIdKey !in ctx ==> id == ""
    ensures id != "" ==> RequestIdKey in ctx && ctx[RequestIdKey] == StringValue(id)
    ensures RequestIdKey in ctx && ctx[RequestIdKey].StringValue? ==> id == ctx[RequestIdKey].s
  {
    if RequestIdKey in ctx && ctx[RequestIdKey].StringValue? then ctx[RequestIdKey].s else ""
  }

  /** What the middleware hands on: the response headers and the request's context. */
  datatype Handoff = Handoff(response: Headers, ctx: Context)

  /** The `RequestID` middleware before it calls the next handler: an incoming non-empty
      `X-Request-ID` is kept, otherwise `generated` is used, and the choice is written into the
      response header and into the context. */
  function WithRequestId(request: Headers, generated: string, response: Headers, ctx: Context): (h: Handoff)
    ensures var incoming := HeaderGet(request, HeaderXRequestId);
            && HeaderGet(h.response, HeaderXRequestId) == FromContext(h.ctx)
            && FromContext(h.ctx) == (if incoming != "" then incoming else generated)
    ensures forall k :: k != HeaderXRequestId ==> (k in h.response <==> k in response)
    ensures forall k :: k in response && k != HeaderXRequestId ==> h.response[k] == response[k]
    ensures forall k :: k != RequestIdKey ==> (k in h.ctx <==> k in ctx)
    ensures forall k :: k in ctx && k != RequestIdKey ==> h.ctx[k] == ctx[k]
  {
    var incoming := HeaderGet(request, HeaderXRequestId);
    var id := if incoming == "" then generated else incoming;
    Handoff(response[HeaderXRequestId := id], ctx[RequestIdKey := StringValue(id)])
  }

  /** With no incoming identifier, the one the handler sees has the version 4 form. */
  lemma GeneratedIdIsV4(request: Headers, random: seq<byte>, readOk: bool, response: Headers, ctx: Context)
    requires |random| == 16
    requires HeaderGet(request, HeaderXRequestId) == ""
    ensures var generated := if readOk then Format(Stamped(random)) else Fallback;
            var h := WithRequestId(request, generated, response, ctx);
            IsV4(FromContext(h.ctx)) && FromContext(h.ctx) != ""
  {
    var generated := if readOk then Format(Stamped(random)) else Fallback;
    NewIdProperties(random, readOk, generated);
  }
}
