/** Integer parsing as `int.Parse`, `int.TryParse` and `long.TryParse` do it with
    `NumberStyles.Integer` and the invariant culture's signs, and the wrap-around of
    unchecked 32-bit addition. */
module Numbers {
  import opened Wrappers
  import Text

  const Int32Min: int := -0x8000_0000
  const Int32Max: int := 0x7FFF_FFFF
  const Int64Min: int := -0x8000_0000_0000_0000
  const Int64Max: int := 0x7FFF_FFFF_FFFF_FFFF

  /** The white space `NumberStyles.AllowLeadingWhite`/`AllowTrailingWhite` skip:
      U+0009 to U+000D and U+0020 (narrower than `char.IsWhiteSpace`). */
  predicate IsNumberWhite(c: char) {
    '\t' <= c <= '\r' || c == ' '
  }

  predicate IsDigit(c: char) {
    '0' <= c <= '9'
  }

  /** The value of a non-empty run of ASCII digits, most significant first; `None`
      when `s` is empty or holds anything but digits. */
  function ParseDigits(s: string): (r: Option<nat>)
    ensures r.Some? ==> |s| > 0 && IsDigit(s[0])
    decreases |s|
  {
    if |s| == 0 || !IsDigit(s[|s| - 1]) then None
    else
      var d := s[|s| - 1] as int - '0' as int;
      if |s| == 1 then Some(d)
      else match ParseDigits(s[..|s| - 1])
        case None => None
        case Some(v) => Some(10 * v + d)
  }

  /** An optional sign followed by digits, accepted when its value lies in [lo, hi]. */
  function ParseSigned(t: string, lo: int, hi: int): (r: Option<int>)
    ensures r.Some? ==> lo <= r.value <= hi
  {
    if |t| == 0 then None
    else
      var digits := if t[0] == '-' || t[0] == '+' then t[1..] else t;
      match ParseDigits(digits)
      case None => None
      case Some(n) =>
        var v: int := if t[0] == '-' then 0 - n else n;
        if lo <= v <= hi then Some(v) else None
  }

  /** Parses an optionally signed decimal integer, surrounded by optional number white
      space, and accepts it only when it lies in [lo, hi]; `None` is what makes
      `TryParse` return false and `Parse` throw. */
  function ParseInteger(s: string, lo: int, hi: int): (r: Option<int>)
    ensures r.Some? ==> lo <= r.value <= hi
    decreases |s|
  {
    if |s| > 0 && IsNumberWhite(s[0]) then ParseInteger(s[1..], lo, hi)
    else if |s| > 0 && IsNumberWhite(s[|s| - 1]) then ParseInteger(s[..|s| - 1], lo, hi)
    else ParseSigned(s, lo, hi)
  }

  /** `int.TryParse` / `int.Parse` / `Convert.ToInt32` on a non-null string. */
  function ParseInt32(s: string): Option<int> {
    ParseInteger(s, Int32Min, Int32Max)
  }

  /** `long.TryParse` on a non-null string. */
  function ParseInt64(s: string): Option<int> {
    ParseInteger(s, Int64Min, Int64Max)
  }

  /** A string that `string.IsNullOrWhiteSpace` calls blank never parses as a number,
      even when it holds white space that the number parser does not skip. */
  lemma {:induction false} BlankDoesNotParse(s: string, lo: int, hi: int)
    ensures Text.IsBlank(s) ==> ParseInteger(s, lo, hi) == None
    decreases |s|
  {
    if Text.IsBlank(s) && |s| > 0 {
      if IsNumberWhite(s[0]) {
        assert Text.IsBlank(s[1..]) by {
          assert forall i :: 0 <= i < |s[1..]| ==> s[1..][i] == s[i + 1];
        }
        BlankDoesNotParse(s[1..], lo, hi);
      } else if IsNumberWhite(s[|s| - 1]) {
        assert Text.IsBlank(s[..|s| - 1]) by {
          assert forall i :: 0 <= i < |s| - 1 ==> s[..|s| - 1][i] == s[i];
        }
        BlankDoesNotParse(s[..|s| - 1], lo, hi);
      } else {
        assert Text.IsWhiteSpace(s[0]);
        if |s| > 1 {
          assert Text.IsWhiteSpace(s[1]);
          assert s[1..][0] == s[1];
        }
      }
    }
  }

  function DigitChar(d: nat): char
    requires d < 10
  {
    ('0' as int + d) as char
  }

  /** The shortest decimal spelling of a natural number. */
  function DigitString(n: nat): string
  {
    if n < 10 then [DigitChar(n)] else DigitString(n / 10) + [DigitChar(n % 10)]
  }

  /** The invariant-culture spelling of an integer, as `ToString()` gives it. */
  function FormatInteger(n: int): string {
    if n < 0 then "-" + DigitString(-n) else DigitString(n)
  }

  lemma {:induction false} DigitStringValue(n: nat)
    ensures |DigitString(n)| > 0 && IsDigit(DigitString(n)[0])
    ensures IsDigit(DigitString(n)[|DigitString(n)| - 1])
    ensures ParseDigits(DigitString(n)) == Some(n)
  {
    if n >= 10 {
      DigitStringValue(n / 10);
      var s := DigitString(n);
      assert s[..|s| - 1] == DigitString(n / 10);
    }
  }

  /** Parsing undoes formatting for every integer in the accepted range. */
  lemma ParseFormatRoundTrip(n: int, lo: int, hi: int)
    requires lo <= n <= hi
    ensures ParseInteger(FormatInteger(n), lo, hi) == Some(n)
  {
    var f := FormatInteger(n);
    var d := DigitString(if n < 0 then -n else n);
    DigitStringValue(if n < 0 then -n else n);
    if n < 0 {
      assert f[1..] == d;
    }
  }

  /** Unchecked 32-bit two's-complement wrap-around of an integer. */
  function Wrap32(x: int): (r: int)
    ensures Int32Min <= r <= Int32Max
    ensures (x - r) % 0x1_0000_0000 == 0
  {
    (x - Int32Min) % 0x1_0000_0000 + Int32Min
  }

  /** Wrap-around leaves values that already fit in 32 bits alone. */
  lemma Wrap32InRange(x: int)
    requires Int32Min <= x <= Int32Max
    ensures Wrap32(x) == x
  {
  }
}
