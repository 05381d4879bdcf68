/** Decimal integers in the manner of Go's `strconv`: `ParseInt(s, 10, 64)`, built on the digit
    loop of `ParseUint` with its cut-off and overflow checks, and `FormatInt(n, 10)`, its inverse. */
module StrConv {
  import opened Common

  /** `strconv.ErrSyntax` and `strconv.ErrRange`. */
  datatype NumError = ErrSyntax | ErrRange

  const MaxUint64: int := 0xffff_ffff_ffff_ffff

  /** The first accumulated value that no further digit may be appended to without overflow. */
  const Cutoff: int := MaxUint64 / 10 + 1

  predicate IsDigit(c: char)
  {
    '0' <= c <= '9'
  }

  predicate AllDigits(s: string)
  {
    forall i :: 0 <= i < |s| ==> IsDigit(s[i])
  }

  function DigitValue(c: char): (d: nat)
    requires IsDigit(c)
    ensures d < 10
  {
    c as int - '0' as int
  }

  /** The value of the digits `s` read onto the value `n`, without any bound. */
  function Acc(n: nat, s: string): nat
    requires AllDigits(s)
    decreases |s|
  {
    if s == "" then n else Acc(n * 10 + DigitValue(s[0]), s[1..])
  }

  /** The digit loop of `ParseUint` in base 10 for 64 bits: a byte that is not a digit is a syntax
      error, and reaching the cut-off or passing the largest `uint64` is a range error, whichever
      the loop meets first. */
  function ScanUint(n: nat, s: string): (r: Result<nat, NumError>)
    ensures r.Ok? ==> AllDigits(s) && r.value >= n
    ensures r.Ok? && s != "" ==> r.value <= MaxUint64
    decreases |s|
  {
    if s == "" then Ok(n)
    else if !IsDigit(s[0]) then Err(ErrSyntax)
    else if n >= Cutoff then Err(ErrRange)
    else
      var n1 := n * 10 + DigitValue(s[0]);
      if n1 > MaxUint64 then Err(ErrRange)
      else
        var r := ScanUint(n1, s[1..]);
        assert r.Ok? ==> forall i :: 1 <= i < |s| ==> s[i] == s[1..][i - 1];
        r
  }

  /** `strconv.ParseUint(s, 10, 64)`. */
  function ParseUint64(s: string): (r: Result<nat, NumError>)
    ensures r.Ok? <==> s != "" && AllDigits(s) && Acc(0, s) <= MaxUint64
    ensures r.Ok? ==> r.value == Acc(0, s)
  {
    if s == "" then Err(ErrSyntax)
    else
      ScanUintSpec(0, s);
      ScanUint(0, s)
  }

  /** `strconv.ParseInt(s, 10, 64)`: an optional sign, then the digits of `ParseUint`; the
      magnitude may reach 2^63 only for a negative number. */
  function ParseInt64(s: string): (r: Result<int64, NumError>)
    ensures s == "" ==> r == Err(ErrSyntax)
    ensures r.Ok? ==> var body := if s[0] == '+' || s[0] == '-' then s[1..] else s;
                      body != "" && AllDigits(body) && (r.value < 0 ==> s[0] == '-')
  {
    if s == "" then Err(ErrSyntax)
    else
      var neg := s[0] == '-';
      var body := if s[0] == '+' || s[0] == '-' then s[1..] else s;
      match ParseUint64(body)
      case Err(e) => Err(e)
      case Ok(un) =>
        if !neg && un >= 0x8000_0000_0000_0000 then Err(ErrRange)
        else if neg && un > 0x8000_0000_0000_0000 then Err(ErrRange)
        else Ok((if neg then -(un as int) else un as int) as int64)
  }

  function DigitChar(d: nat): (c: char)
    requires d < 10
    ensures IsDigit(c) && DigitValue(c) == d
  {
    ('0' as int + d) as char
  }

  /** The decimal digits of `m`, without leading zeros. */
  function Digits(m: nat): (s: string)
    ensures s != "" && AllDigits(s)
  {
    if m < 10 then [DigitChar(m)] else Digits(m / 10) + [DigitChar(m % 10)]
  }

  /** `strconv.FormatInt(n, 10)`. */
  function FormatInt(n: int64): (r: string)
    ensures r != "" && (r[0] == '-' <==> n < 0)
    ensures AllDigits(if n < 0 then r[1..] else r)
  {
    if n < 0 then "-" + Digits(-(n as int)) else Digits(n as int)
  }

  // ---------------------------------------------------------------------------------------

  lemma {:induction false} AccAppend(n: nat, a: string, b: string)
    requires AllDigits(a) && AllDigits(b)
    ensures AllDigits(a + b)
    ensures Acc(n, a + b) == Acc(Acc(n, a), b)
    decreases |a|
  {
    if a == "" {
      assert a + b == b;
    } else {
      assert (a + b)[0] == a[0];
      assert (a + b)[1..] == a[1..] + b;
      AccAppend(n * 10 + DigitValue(a[0]), a[1..], b);
    }
  }

  /** Reading more digits never makes the value smaller. */
  lemma {:induction false} AccGrows(n: nat, s: string)
    requires AllDigits(s)
    ensures Acc(n, s) >= n
    ensures s != "" ==> Acc(n, s) >= n * 10 + DigitValue(s[0])
    decreases |s|
  {
    if s != "" {
      AccGrows(n * 10 + DigitValue(s[0]), s[1..]);
    }
  }

  /** The loop succeeds exactly on digit strings whose value fits `uint64`, and then yields that
      value; a syntax error means a byte is not a digit, and digits whose value is too large give
      a range error. */
  lemma {:induction false} ScanUintSpec(n: nat, s: string)
    requires n <= MaxUint64
    ensures ScanUint(n, s).Ok? <==> AllDigits(s) && Acc(n, s) <= MaxUint64
    ensures ScanUint(n, s).Ok? ==> ScanUint(n, s).value == Acc(n, s)
    ensures ScanUint(n, s) == Err(ErrSyntax) ==> !AllDigits(s)
    ensures AllDigits(s) && Acc(n, s) > MaxUint64 ==> ScanUint(n, s) == Err(ErrRange)
    decreases |s|
  {
    if s != "" && IsDigit(s[0]) {
      var n1 := n * 10 + DigitValue(s[0]);
      if AllDigits(s) {
        AccGrows(n, s);
        AccGrows(n1, s[1..]);
      }
      if n < Cutoff && n1 <= MaxUint64 {
        ScanUintSpec(n1, s[1..]);
        assert AllDigits(s) <==> AllDigits(s[1..]) by {
          if AllDigits(s[1..]) {
            forall i | 0 <= i < |s|
              ensures IsDigit(s[i])
            {
              if i > 0 {
                assert s[i] == s[1..][i - 1];
              }
            }
          }
        }
      }
    }
  }

  /** `ParseInt` succeeds exactly on an optional sign followed by at least one digit whose
      value, with the sign, fits `int64`; and then gives that value. */
  lemma ParseInt64Spec(s: string)
    ensures ParseInt64(s).Ok? <==>
              && s != ""
              && var body := if s[0] == '+' || s[0] == '-' then s[1..] else s;
                 && body != "" && AllDigits(body)
                 && (if s[0] == '-' then Acc(0, body) <= 0x8000_0000_0000_0000
                     else Acc(0, body) <= MaxInt64)
    ensures ParseInt64(s).Ok? ==>
              var body := if s[0] == '+' || s[0] == '-' then s[1..] else s;
              ParseInt64(s).value as int == if s[0] == '-' then -(Acc(0, body) as int) else Acc(0, body) as int
  {
    if s != "" {
      var body := if s[0] == '+' || s[0] == '-' then s[1..] else s;
      ScanUintSpec(0, body);
    }
  }

  lemma {:induction false} DigitsValue(m: nat)
    ensures Acc(0, Digits(m)) == m
    decreases m
  {
    if m >= 10 {
      DigitsValue(m / 10);
      var last := [DigitChar(m % 10)];
      AccAppend(0, Digits(m / 10), last);
      assert last[1..] == "";
    }
  }

  /** `ParseInt(FormatInt(n, 10), 10, 64)` gives back `n`. */
  lemma ParseFormat(n: int64)
    ensures ParseInt64(FormatInt(n)) == Ok(n)
  {
    var m: nat := if n < 0 then -(n as int) else n as int;
    DigitsValue(m);
    var s := FormatInt(n);
    var d := Digits(m);
    assert d[0] != '+' && d[0] != '-';
    if n < 0 {
      assert s[0] == '-' && s[1..] == d;
    } else {
      assert s == d;
    }
    ParseInt64Spec(s);
  }
}
