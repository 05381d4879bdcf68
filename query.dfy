/** Query-component escaping in the manner of Go's `net/url`: `QueryUnescape` decodes the
    percent-encoding of section 2.1 of RFC 3986 and turns '+' into a space, and `QueryEscape`,
    which `Values.Encode` applies to every key and value, is its inverse. Strings are byte
    strings: every char stands for one byte. A parsed query is a map from key to its values. */
module Query {
  import opened Common
  import opened Strs

  predicate IsBytes(s: string)
  {
    forall i :: 0 <= i < |s| ==> s[i] as int < 256
  }

  /** The byte written as two hexadecimal digits. */
  function HexByte(hi: char, lo: char): (c: char)
    requires IsHexDigit(hi) && IsHexDigit(lo)
    ensures c as int == HexValue(hi) * 16 + HexValue(lo) && c as int < 256
  {
    (HexValue(hi) * 16 + HexValue(lo)) as char
  }

  /** `url.QueryUnescape`. A '%' not followed by two hexadecimal digits is an error that names the
      malformed escape (at most three bytes from the '%'), as Go's `EscapeError` does; the first
      malformed escape from the left is the one reported. */
  function Unescape(s: string): (r: Result<string, string>)
    ensures r.Ok? ==> |r.value| <= |s|
    ensures r.Ok? && '%' !in s && '+' !in s ==> r.value == s
    ensures r.Err? ==> '%' in s && 1 <= |r.error| <= 3 && r.error[0] == '%'
    decreases |s|
  {
    if s == "" then Ok("")
    else if s[0] == '%' then
      if |s| < 3 || !IsHexDigit(s[1]) || !IsHexDigit(s[2]) then
        Err(if |s| < 3 then s else s[..3])
      else
        match Unescape(s[3..])
        case Err(e) => Err(e)
        case Ok(t) => Ok([HexByte(s[1], s[2])] + t)
    else
      match Unescape(s[1..])
      case Err(e) => Err(e)
      case Ok(t) => Ok([PlusAsSpace(s[0])] + t)
  }

  /** In a query component '+' stands for a space. */
  function PlusAsSpace(c: char): char
  {
    if c == '+' then ' ' else c
  }

  /** One step of decoding an ordinary byte. */
  lemma UnescapeCharUnfold(s: string)
    requires s != "" && s[0] != '%'
    ensures Unescape(s).Ok? <==> Unescape(s[1..]).Ok?
    ensures Unescape(s).Ok? ==> Unescape(s) == Ok([PlusAsSpace(s[0])] + Unescape(s[1..]).value)
    ensures Unescape(s).Err? ==> Unescape(s) == Unescape(s[1..])
  {
  }

  /** Bytes `QueryEscape` leaves as they are. */
  predicate Unreserved(c: char)
  {
    ('a' <= c <= 'z') || ('A' <= c <= 'Z') || ('0' <= c <= '9') || c == '-' || c == '_' || c == '.' || c == '~'
  }

  /** One byte as `QueryEscape` writes it: unreserved bytes stay, a space becomes '+', anything
      else becomes '%' and two upper-case hexadecimal digits. */
  function EscapeByte(c: char): (r: string)
    requires c as int < 256
    ensures 1 <= |r| <= 3
    ensures forall e :: e in r ==> Unreserved(e) || e == '+' || e == '%'
  {
    if Unreserved(c) then [c]
    else if c == ' ' then "+"
    else ['%', UpperHexDigit(c as int / 16), UpperHexDigit(c as int % 16)]
  }

  /** `url.QueryEscape`. */
  function Escape(s: string): (r: string)
    requires IsBytes(s)
    ensures |s| <= |r| <= 3 * |s|
    ensures forall e :: e in r ==> Unreserved(e) || e == '+' || e == '%'
    decreases |s|
  {
    if s == "" then "" else EscapeByte(s[0]) + Escape(s[1..])
  }

  /** A complete prefix decodes on its own: what follows it is decoded independently. */
  lemma {:induction false} UnescapeAppend(a: string, b: string)
    requires Unescape(a).Ok?
    ensures Unescape(b).Ok? ==> Unescape(a + b) == Ok(Unescape(a).value + Unescape(b).value)
    ensures Unescape(b).Err? ==> Unescape(a + b) == Unescape(b)
    decreases |a|
  {
    if a == "" {
      assert a + b == b;
      assert Unescape(a).value == "";
      if Unescape(b).Ok? {
        assert "" + Unescape(b).value == Unescape(b).value;
      }
    } else if a[0] == '%' {
      assert |a| >= 3 && IsHexDigit(a[1]) && IsHexDigit(a[2]);
      UnescapeEscapeUnfold(a);
      UnescapeAppend(a[3..], b);
      UnescapeEscapeStep(a, b);
    } else {
      UnescapeCharUnfold(a);
      UnescapeAppend(a[1..], b);
      DropConcat(a, b, 1);
      UnescapeCharStep(a, b, a + b);
    }
  }

  lemma UnescapeEscapeStep(a: string, b: string)
    requires Unescape(a).Ok? && a != "" && a[0] == '%'
    requires Unescape(b).Ok? ==> Unescape(a[3..] + b) == Ok(Unescape(a[3..]).value + Unescape(b).value)
    requires Unescape(b).Err? ==> Unescape(a[3..] + b) == Unescape(b)
    ensures Unescape(b).Ok? ==> Unescape(a + b) == Ok(Unescape(a).value + Unescape(b).value)
    ensures Unescape(b).Err? ==> Unescape(a + b) == Unescape(b)
  {
    var ab := a + b;
    assert |a| >= 3 && IsHexDigit(a[1]) && IsHexDigit(a[2]);
    assert ab[0] == '%' && ab[1] == a[1] && ab[2] == a[2];
    DropConcat(a, b, 3);
    UnescapeEscapeUnfold(a);
    UnescapeEscapeUnfold(ab);
    if Unescape(b).Ok? {
      ConsAssoc(HexByte(a[1], a[2]), Unescape(a[3..]).value, Unescape(b).value);
    }
  }

  /** One step of decoding a well-formed escape. */
  lemma UnescapeEscapeUnfold(s: string)
    requires |s| >= 3 && s[0] == '%' && IsHexDigit(s[1]) && IsHexDigit(s[2])
    ensures Unescape(s).Ok? <==> Unescape(s[3..]).Ok?
    ensures Unescape(s).Ok? ==> Unescape(s) == Ok([HexByte(s[1], s[2])] + Unescape(s[3..]).value)
    ensures Unescape(s).Err? ==> Unescape(s) == Unescape(s[3..])
  {
  }

  lemma UnescapeCharStep(a: string, b: string, ab: string)
    requires Unescape(a).Ok? && a != "" && a[0] != '%' && ab == a + b
    requires Unescape(b).Ok? ==> Unescape(ab[1..]) == Ok(Unescape(a[1..]).value + Unescape(b).value)
    requires Unescape(b).Err? ==> Unescape(ab[1..]) == Unescape(b)
    ensures Unescape(b).Ok? ==> Unescape(ab) == Ok(Unescape(a).value + Unescape(b).value)
    ensures Unescape(b).Err? ==> Unescape(ab) == Unescape(b)
  {
    assert ab[0] == a[0];
    UnescapeCharUnfold(a);
    UnescapeCharUnfold(ab);
    if Unescape(b).Ok? {
      ConsAssoc(PlusAsSpace(a[0]), Unescape(a[1..]).value, Unescape(b).value);
    }
  }

  lemma DropConcat(a: string, b: string, k: nat)
    requires k <= |a|
    ensures (a + b)[k..] == a[k..] + b
  {
  }

  // Associativity is kept out of the larger proofs, where the solver handles it poorly.
  lemma ConsAssoc(x: char, t1: string, t: string)
    ensures ([x] + t1) + t == [x] + (t1 + t)
  {
  }

  lemma UnescapeEscapeByte(c: char)
    requires c as int < 256
    ensures Unescape(EscapeByte(c)) == Ok([c])
  {
    var e := EscapeByte(c);
    if Unreserved(c) {
      assert e[0] == c && c != '%' && c != '+';
      assert e[1..] == "";
      assert [c] + "" == [c];
    } else if c == ' ' {
      assert e == "+" && e[1..] == "";
      assert Unescape(e) == Ok([PlusAsSpace('+')] + "");
      assert [PlusAsSpace('+')] + "" == [c];
    } else {
      assert |e| == 3 && e[0] == '%';
      assert e[3..] == "";
      assert HexByte(e[1], e[2]) as int == c as int;
      assert HexByte(e[1], e[2]) == c;
      assert [c] + "" == [c];
    }
  }

  /** `QueryUnescape(QueryEscape(s)) == s` for every byte string. */
  lemma {:induction false} UnescapeEscape(s: string)
    requires IsBytes(s)
    ensures Unescape(Escape(s)) == Ok(s)
    decreases |s|
  {
    if s != "" {
      UnescapeEscapeByte(s[0]);
      UnescapeEscape(s[1..]);
      UnescapeAppend(EscapeByte(s[0]), Escape(s[1..]));
      assert [s[0]] + s[1..] == s;
    }
  }

  /** Decoding a byte string gives a byte string, never a longer one. */
  lemma {:induction false} UnescapeBytes(s: string)
    requires IsBytes(s) && Unescape(s).Ok?
    ensures IsBytes(Unescape(s).value)
    ensures |Unescape(s).value| <= |s|
    decreases |s|
  {
    if s != "" {
      if s[0] == '%' {
        UnescapeBytes(s[3..]);
      } else {
        UnescapeBytes(s[1..]);
      }
    }
  }

  // ---------------------------------------------------------------------------------------
  // Parsed queries (`url.Values`)
  // ---------------------------------------------------------------------------------------

  type Values = map<string, seq<string>>

  /** `Values.Get`: the first value of the key, "" when there is none. */
  function Get(q: Values, key: string): (v: string)
    ensures v != "" ==> key in q && |q[key]| > 0 && v == q[key][0]
    ensures key in q && |q[key]| > 0 ==> v == q[key][0]
  {
    if key in q && |q[key]| > 0 then q[key][0] else ""
  }

  /** `Values.Set`: the key's values become exactly `[v]`. */
  function Set(q: Values, key: string, v: string): (r: Values)
    ensures Get(r, key) == v
    ensures forall k :: k != key ==> (k in r <==> k in q) && (k in q ==> r[k] == q[k])
  {
    q[key := [v]]
  }
}
