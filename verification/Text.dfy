/** Characters and numerals shared by the text formats. */
module Text {
  import opened NeTypes

  /** `char::is_whitespace`. */
  predicate IsWhitespace(c: char) {
    || '\U{9}' <= c <= '\U{D}' || c == ' ' || c == '\U{85}' || c == '\U{A0}' || c == '\U{1680}'
    || '\U{2000}' <= c <= '\U{200A}' || c == '\U{2028}' || c == '\U{2029}' || c == '\U{202F}' || c == '\U{205F}'
    || c == '\U{3000}'
  }

  /** The text without its whitespace. */
  function Strip(s: string): string {
    if s == "" then ""
    else if IsWhitespace(s[|s| - 1]) then Strip(s[..|s| - 1])
    else Strip(s[..|s| - 1]) + [s[|s| - 1]]
  }

  predicate Visible(s: string) { forall i :: 0 <= i < |s| ==> !IsWhitespace(s[i]) }

  lemma {:induction false} StripKeepsVisible(s: string)
    ensures Visible(Strip(s)) && (Visible(s) ==> Strip(s) == s)
  {
    if s != "" {
      StripKeepsVisible(s[..|s| - 1]);
      assert s == s[..|s| - 1] + [s[|s| - 1]];
    }
  }

  lemma StripSnoc(s: string, c: char)
    ensures Strip(s + [c]) == Strip(s) + if IsWhitespace(c) then "" else [c]
  {
    assert (s + [c])[..|s|] == s;
  }

  lemma {:induction false} StripAppend(a: string, b: string)
    ensures Strip(a + b) == Strip(a) + Strip(b)
  {
    if b == "" {
      assert a + b == a;
    } else {
      var init, last := b[..|b| - 1], b[|b| - 1];
      StripAppend(a, init);
      StripSnoc(a + init, last);
      StripSnoc(init, last);
      assert b == init + [last] && a + b == a + init + [last];
    }
  }

  predicate Blank(s: string) { forall i :: 0 <= i < |s| ==> IsWhitespace(s[i]) }

  lemma {:induction false} StripBlank(s: string)
    requires Blank(s)
    ensures Strip(s) == ""
  {
    if s != "" { StripBlank(s[..|s| - 1]); }
  }

  lemma StripAround(before: string, s: string, after: string)
    requires Blank(before) && Blank(after)
    ensures Strip(before + s + after) == Strip(s)
  {
    calc {
      Strip(before + s + after);
      { StripAppend(before + s, after); StripBlank(after); }
      Strip(before + s);
      { StripAppend(before, s); StripBlank(before); }
      Strip(s);
    }
  }

  // ----- Numerals -----

  predicate Radix(radix: nat) { radix == 10 || radix == 16 }

  /** `char::to_digit`. */
  function DigitValue(c: char, radix: nat): Option<nat> {
    var v := if '0' <= c <= '9' then c as nat - '0' as nat
             else if 'a' <= c <= 'f' then c as nat - 'a' as nat + 10
             else if 'A' <= c <= 'F' then c as nat - 'A' as nat + 10
             else radix;
    if v < radix then Some(v) else None
  }

  function Digit(d: nat): (c: char)
    requires d < 16
    ensures forall radix :: d < radix ==> DigitValue(c, radix) == Some(d)
  {
    if d < 10 then '0' + d as char else 'a' + (d - 10) as char
  }

  /** The usual rendering, without leading zeros and in lower case. */
  function Numeral(n: nat, radix: nat): (s: string)
    requires Radix(radix)
    ensures |s| > 0 && forall i :: 0 <= i < |s| ==> DigitValue(s[i], radix).Some?
  {
    if n < radix then [Digit(n)] else Numeral(n / radix, radix) + [Digit(n % radix)]
  }

  /** The digits' value, unless one is no digit or the value reaches the limit. */
  function Digits(s: string, radix: nat, limit: nat): Option<nat> {
    if s == "" then Some(0)
    else
      var init, d := Digits(s[..|s| - 1], radix, limit), DigitValue(s[|s| - 1], radix);
      if init.None? || d.None? || radix * init.value + d.value >= limit then None
      else Some(radix * init.value + d.value)
  }

  /** `from_str_radix` of an unsigned type: one leading '+' is allowed, no digits are not. */
  function ParseUint(s: string, radix: nat, limit: nat): Option<nat> {
    if s == "" || s == "+" then None
    else if s[0] == '+' then Digits(s[1..], radix, limit)
    else Digits(s, radix, limit)
  }

  lemma {:induction false} DigitsOfNumeral(n: nat, radix: nat, limit: nat)
    requires Radix(radix) && n < limit
    ensures Digits(Numeral(n, radix), radix, limit) == Some(n)
  {
    var s := Numeral(n, radix);
    if n < radix {
      assert s[..0] == "" && Digits("", radix, limit) == Some(0);
      assert DigitValue(s[0], radix) == Some(n);
    } else {
      DigitsOfNumeral(n / radix, radix, limit);
      assert s[..|s| - 1] == Numeral(n / radix, radix);
      assert DigitValue(s[|s| - 1], radix) == Some(n % radix);
    }
  }

  /** Parsing undoes rendering. */
  lemma NumeralRoundTrip(n: nat, radix: nat, limit: nat)
    requires Radix(radix) && n < limit
    ensures ParseUint(Numeral(n, radix), radix, limit) == Some(n)
  {
    DigitsOfNumeral(n, radix, limit);
    assert DigitValue(Numeral(n, radix)[0], radix).Some?;
  }

  lemma {:induction false} DigitsTooBig(n: nat, radix: nat, limit: nat)
    requires Radix(radix) && n >= limit
    ensures Digits(Numeral(n, radix), radix, limit) == None
  {
    var s := Numeral(n, radix);
    if n < radix {
      assert s[..0] == "" && Digits("", radix, limit) == Some(0);
      assert DigitValue(s[0], radix) == Some(n);
    } else {
      if n / radix < limit { DigitsOfNumeral(n / radix, radix, limit); } else { DigitsTooBig(n / radix, radix, limit); }
      assert s[..|s| - 1] == Numeral(n / radix, radix);
      assert DigitValue(s[|s| - 1], radix) == Some(n % radix);
    }
  }

  /** A number that does not fit the type is refused. */
  lemma NumeralTooBig(n: nat, radix: nat, limit: nat)
    requires Radix(radix) && n >= limit
    ensures ParseUint(Numeral(n, radix), radix, limit) == None
  {
    DigitsTooBig(n, radix, limit);
    assert DigitValue(Numeral(n, radix)[0], radix).Some?;
  }

  lemma {:induction false} DigitsSound(s: string, radix: nat, limit: nat)
    requires Digits(s, radix, limit).Some? && limit > 0
    ensures Digits(s, radix, limit).value < limit
    ensures forall i :: 0 <= i < |s| ==> DigitValue(s[i], radix).Some?
  {
    if s != "" { DigitsSound(s[..|s| - 1], radix, limit); }
  }

  /** What is accepted is below the limit, and is digits behind at most one '+'. */
  lemma ParseUintSound(s: string, radix: nat, limit: nat)
    requires ParseUint(s, radix, limit).Some? && limit > 0
    ensures ParseUint(s, radix, limit).value < limit
    ensures var digits := if s != "" && s[0] == '+' then s[1..] else s;
            digits != "" && forall i :: 0 <= i < |digits| ==> DigitValue(digits[i], radix).Some?
  {
    DigitsSound(if s[0] == '+' then s[1..] else s, radix, limit);
  }

  /** Numerals are in lower case, and only that of 0 begins with '0'. */
  lemma {:induction false} NumeralCanonical(n: nat, radix: nat)
    requires Radix(radix)
    ensures var s := Numeral(n, radix);
            && (forall i :: 0 <= i < |s| ==> '0' <= s[i] <= '9' || 'a' <= s[i] <= 'f')
            && (s[0] == '0' ==> n == 0)
  {
    if n >= radix { NumeralCanonical(n / radix, radix); }
  }

  lemma NumeralInjective(m: nat, n: nat, radix: nat)
    requires Radix(radix) && Numeral(m, radix) == Numeral(n, radix)
    ensures m == n
  {
    DigitsOfNumeral(m, radix, m + n + 1);
    DigitsOfNumeral(n, radix, m + n + 1);
  }
}
