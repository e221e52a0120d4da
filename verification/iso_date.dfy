/**
 * The `YYYY-MM-DD` strings that date inputs hold and that
 * `toISOString().split('T')[0]` produces, with their round trip.
 */
module IsoDate {
  import opened Wrappers
  import opened Calendar

  predicate IsDigit(c: char) { '0' <= c <= '9' }

  predicate AllDigits(s: string) {
    forall i :: 0 <= i < |s| ==> IsDigit(s[i])
  }

  function DigitChar(n: int): (c: char)
    requires 0 <= n <= 9
    ensures IsDigit(c)
  {
    ('0' as int + n) as char
  }

  function DigitValue(c: char): (n: int)
    requires IsDigit(c)
    ensures 0 <= n <= 9
  {
    c as int - '0' as int
  }

  function Pow10(n: nat): (p: nat)
    ensures p >= 1
  {
    if n == 0 then 1 else 10 * Pow10(n - 1)
  }

  /** `n` written with exactly `width` decimal digits, zero-padded on the left. */
  function Pad(n: nat, width: nat): (s: string)
    ensures |s| == width
    ensures AllDigits(s)
  {
    if width == 0 then [] else Pad(n / 10, width - 1) + [DigitChar(n % 10)]
  }

  /** The number a string of decimal digits denotes. */
  function ReadNat(s: string): (n: nat)
    requires AllDigits(s)
    ensures n < Pow10(|s|)
  {
    if |s| == 0 then 0 else ReadNat(s[..|s| - 1]) * 10 + DigitValue(s[|s| - 1])
  }

  /** Reading back a padded number gives the number, when it fits the width. */
  lemma {:induction false} ReadPad(n: nat, width: nat)
    requires n < Pow10(width)
    ensures ReadNat(Pad(n, width)) == n
  {
    if width > 0 {
      var s := Pad(n, width);
      assert s[..width - 1] == Pad(n / 10, width - 1);
      ReadPad(n / 10, width - 1);
    } else {
      assert n == 0;
    }
  }

  /** Padding the number a digit string denotes gives the string back. */
  lemma {:induction false} PadRead(s: string)
    requires AllDigits(s)
    ensures Pad(ReadNat(s), |s|) == s
  {
    if |s| > 0 {
      var init := s[..|s| - 1];
      var d := DigitValue(s[|s| - 1]);
      var n := ReadNat(init) * 10 + d;
      assert n / 10 == ReadNat(init) && n % 10 == d;
      PadRead(init);
      assert s == init + [s[|s| - 1]];
    }
  }

  /** Years that `Date` can represent; `toISOString` throws outside them. */
  predicate Representable(d: Date) {
    0 <= d.year <= 275759
  }

  /**
   * The date part of `toISOString()`: four-digit years as `YYYY-MM-DD`,
   * later years in the expanded form `+YYYYYY-MM-DD`.
   */
  function Format(d: Date): (s: string)
    requires Valid(d) && Representable(d)
    ensures d.year <= 9999 ==> |s| == 10
    ensures d.year > 9999 ==> |s| == 13 && s[0] == '+'
  {
    var ymd := "-" + Pad(d.month as nat, 2) + "-" + Pad(d.day as nat, 2);
    if d.year <= 9999 then Pad(d.year as nat, 4) + ymd
    else "+" + Pad(d.year as nat, 6) + ymd
  }

  /**
   * Parses `YYYY-MM-DD`; `None` stands for JavaScript's Invalid Date. Only
   * days that exist are accepted.
   */
  function Parse(s: string): (r: Option<Date>)
    ensures r.Some? ==> Valid(r.value) && 0 <= r.value.year <= 9999
    ensures r.Some? ==> |s| == 10
  {
    if |s| == 10 && AllDigits(s[..4]) && s[4] == '-' && AllDigits(s[5..7]) && s[7] == '-' && AllDigits(s[8..]) then
      var d := Date(ReadNat(s[..4]), ReadNat(s[5..7]), ReadNat(s[8..]));
      if Valid(d) then Some(d) else None
    else None
  }

  /** Formatting then parsing a four-digit-year date gives the date back. */
  lemma ParseFormat(d: Date)
    requires Valid(d) && 0 <= d.year <= 9999
    ensures Parse(Format(d)) == Some(d)
  {
    var y, m, dd := Pad(d.year as nat, 4), Pad(d.month as nat, 2), Pad(d.day as nat, 2);
    var s := Format(d);
    assert s == y + "-" + m + "-" + dd;
    assert s[..4] == y && s[4] == '-' && s[5..7] == m && s[7] == '-' && s[8..] == dd;
    assert Pow10(2) == 100 && Pow10(4) == 10000;
    ReadPad(d.year as nat, 4);
    ReadPad(d.month as nat, 2);
    ReadPad(d.day as nat, 2);
  }

  /** The round trip for any representable date: it holds for every four-digit year. */
  lemma ParseFormatFourDigits(d: Date)
    requires Valid(d) && Representable(d)
    ensures d.year <= 9999 ==> Parse(Format(d)) == Some(d)
  {
    if d.year <= 9999 {
      ParseFormat(d);
    }
  }

  /** A string that parses is exactly the formatting of what it parses to. */
  lemma FormatParse(s: string)
    requires Parse(s).Some?
    ensures Format(Parse(s).value) == s
  {
    var d := Parse(s).value;
    PadRead(s[..4]);
    PadRead(s[5..7]);
    PadRead(s[8..]);
    assert s == s[..4] + "-" + s[5..7] + "-" + s[8..];
  }
}
