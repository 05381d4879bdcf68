/** The few pieces of Go's `strings` package the core relies on, over `seq<char>`.
    Strings are byte strings in Go; here every char stands for one byte. */
module Strs {

  /** `strings.Contains(s, sub)`: some suffix of `s` starts with `sub`. */
  predicate Contains(s: string, sub: string)
    decreases |s|
  {
    sub <= s || (|s| > 0 && Contains(s[1..], sub))
  }

  /** `sub` occurs in `s` starting at index `i`. */
  ghost predicate MatchesAt(s: string, sub: string, i: nat)
  {
    i + |sub| <= |s| && s[i..i + |sub|] == sub
  }

  /** The positional reading of `strings.Contains`: `sub` occurs at some index of `s`. */
  ghost predicate OccursAt(s: string, sub: string)
  {
    exists i: nat :: MatchesAt(s, sub, i)
  }

  lemma {:induction false} ContainsIffOccurs(s: string, sub: string)
    ensures Contains(s, sub) <==> OccursAt(s, sub)
    decreases |s|
  {
    if sub <= s {
      assert MatchesAt(s, sub, 0);
    } else {
      if |s| > 0 {
        ContainsIffOccurs(s[1..], sub);
        if OccursAt(s[1..], sub) {
          var i: nat :| MatchesAt(s[1..], sub, i);
          assert s[i + 1..i + 1 + |sub|] == s[1..][i..i + |sub|];
          assert MatchesAt(s, sub, i + 1);
        }
      }
      if OccursAt(s, sub) {
        var i: nat :| MatchesAt(s, sub, i);
        assert i > 0;
        assert s[1..][i - 1..i - 1 + |sub|] == s[i..i + |sub|];
        assert MatchesAt(s[1..], sub, i - 1);
      }
    }
  }

  /** A two-character pattern found in `a + b` lies in `a`, in `b`, or across the seam. */
  lemma {:induction false} ContainsPairConcat(a: string, b: string, x: char, y: char)
    requires Contains(a + b, [x, y])
    ensures Contains(a, [x, y]) || Contains(b, [x, y])
            || (|a| > 0 && |b| > 0 && a[|a| - 1] == x && b[0] == y)
    decreases |a|
  {
    if |a| == 0 {
      assert a + b == b;
    } else if [x, y] <= a + b {
      if |a| >= 2 {
        assert (a + b)[0] == a[0] && (a + b)[1] == a[1];
        assert [x, y] <= a;
      } else {
        assert (a + b)[0] == a[0] && (a + b)[1] == b[0];
      }
    } else {
      assert (a + b)[1..] == a[1..] + b;
      ContainsPairConcat(a[1..], b, x, y);
      if Contains(a[1..], [x, y]) {
        assert Contains(a, [x, y]);
      } else if !Contains(b, [x, y]) {
        assert a[1..][|a[1..]| - 1] == a[|a| - 1];
      }
    }
  }

  /** Prefixing a character that cannot start a two-character pattern does not create it. */
  lemma ContainsPairCons(c: char, s: string, x: char, y: char)
    requires Contains([c] + s, [x, y])
    requires c != x
    ensures Contains(s, [x, y])
  {
    assert ([c] + s)[0] == c;
    assert !([x, y] <= [c] + s);
    assert ([c] + s)[1..] == s;
  }

  /** ASCII lowering of one byte. */
  function LowerChar(c: char): char
  {
    if 'A' <= c <= 'Z' then (c as int + 32) as char else c
  }

  /** `strings.ToLower`, restricted to ASCII letters. */
  function ToLower(s: string): (r: string)
    ensures |r| == |s|
    ensures forall i :: 0 <= i < |s| ==> r[i] == LowerChar(s[i])
  {
    seq(|s|, i requires 0 <= i < |s| => LowerChar(s[i]))
  }

  predicate IsHexDigit(c: char)
  {
    ('0' <= c <= '9') || ('a' <= c <= 'f') || ('A' <= c <= 'F')
  }

  /** Value of a hexadecimal digit, either case. */
  function HexValue(c: char): (v: nat)
    requires IsHexDigit(c)
    ensures v < 16
  {
    if '0' <= c <= '9' then c as int - '0' as int
    else if 'a' <= c <= 'f' then c as int - 'a' as int + 10
    else c as int - 'A' as int + 10
  }

  /** Lower-case hexadecimal digit of a nibble. */
  function LowerHexDigit(n: nat): (c: char)
    requires n < 16
    ensures IsHexDigit(c) && HexValue(c) == n
    ensures '0' <= c <= '9' || 'a' <= c <= 'f'
  {
    if n < 10 then ('0' as int + n) as char else ('a' as int + n - 10) as char
  }

  /** Upper-case hexadecimal digit of a nibble. */
  function UpperHexDigit(n: nat): (c: char)
    requires n < 16
    ensures IsHexDigit(c) && HexValue(c) == n
  {
    if n < 10 then ('0' as int + n) as char else ('A' as int + n - 10) as char
  }
}
