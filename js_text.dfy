/**
 * The JavaScript string and number built-ins the core relies on: `toLowerCase`,
 * `length` (UTF-16 code units), `includes`, number-to-string of a natural number,
 * and `Number.parseInt` with its default decimal reading.
 * Dafny strings are sequences of Unicode scalar values.
 */
module JsText {
  import opened Common

  // ---------------------------------------------------------------- case

  /** Latin-1 capitals À–Þ (but not ×) and Cyrillic А–Я: lowercased 32 code points up. */
  predicate IsShift32Capital(c: char)
  {
    ('A' <= c <= 'Z') || ('\U{00C0}' <= c <= '\U{00DE}' && c != '\U{00D7}') || ('\U{0410}' <= c <= '\U{042F}')
  }

  /** Capitals paired with the next code point: the even members of the Latin Extended-A and
      Cyrillic pair runs, and the odd members of the runs that start on an odd code point. */
  predicate IsPairCapital(c: char)
  {
    var n := c as int;
    || (n % 2 == 0 && (0x0100 <= n <= 0x012F || 0x0132 <= n <= 0x0137 || 0x014A <= n <= 0x0177
                       || 0x0460 <= n <= 0x0481 || 0x048A <= n <= 0x04BF || 0x04D0 <= n <= 0x052F))
    || (n % 2 == 1 && (0x0139 <= n <= 0x0148 || 0x0179 <= n <= 0x017E || 0x04C1 <= n <= 0x04CE))
  }

  /** A capital letter whose lower-case form this model knows. */
  predicate IsCapital(c: char)
  {
    || IsShift32Capital(c)
    || IsPairCapital(c)
    || ('\U{0400}' <= c <= '\U{040F}')
    || c == '\U{0178}'
    || c == '\U{04C0}'
  }

  /** `toLowerCase` on one character. */
  function LowerChar(c: char): (r: char)
    ensures !IsCapital(c) ==> r == c
    ensures IsShift32Capital(c) ==> r as int == c as int + 32
    ensures IsPairCapital(c) ==> r as int == c as int + 1
    ensures '\U{0400}' <= c <= '\U{040F}' ==> r as int == c as int + 80
    ensures c == '\U{0178}' ==> r == '\U{00FF}'
    ensures c == '\U{04C0}' ==> r == '\U{04CF}'
    ensures !IsCapital(r)
  {
    if IsShift32Capital(c) then (c as int + 32) as char
    else if IsPairCapital(c) then (c as int + 1) as char
    else if '\U{0400}' <= c <= '\U{040F}' then (c as int + 80) as char
    else if c == '\U{0178}' then '\U{00FF}'
    else if c == '\U{04C0}' then '\U{04CF}'
    else c
  }

  /** `String.prototype.toLowerCase`, character by character. */
  function ToLower(s: string): (r: string)
    ensures |r| == |s|
    ensures forall i :: 0 <= i < |s| ==> r[i] == LowerChar(s[i])
    ensures forall i :: 0 <= i < |s| ==> !IsCapital(r[i])
  {
    seq(|s|, i requires 0 <= i < |s| => LowerChar(s[i]))
  }

  /** Accented Latin and extended Cyrillic capitals lowercase as in JavaScript: "Ärger" and "ärger",
      or "Ґ" and "ґ", are the same name once lowercased. */
  lemma ToLowerExamples()
    ensures ToLower("Ärger") == ToLower("ärger") == "ärger"
    ensures ToLower("Ґ") == "ґ"
    ensures ToLower("Ŷ") == "ŷ" && ToLower("Ź") == "ź"
  {
    assert "Ärger"[0] == 'Ä' && LowerChar('Ä') == 'ä';
    assert forall i :: 1 <= i < 5 ==> "Ärger"[i] == "ärger"[i];
  }

  // ---------------------------------------------------------------- length

  /** How many UTF-16 code units encode `c`: two for characters outside the Basic Multilingual Plane. */
  function CodeUnits(c: char): (n: nat)
  {
    if c as int > 0xFFFF then 2 else 1
  }

  /** `String.prototype.length`: the number of UTF-16 code units. */
  function Utf16Length(s: string): (n: nat)
    ensures |s| <= n <= 2 * |s|
    ensures (forall i :: 0 <= i < |s| ==> s[i] as int <= 0xFFFF) ==> n == |s|
  {
    if s == [] then 0 else Utf16Length(s[..|s| - 1]) + CodeUnits(s[|s| - 1])
  }

  // ---------------------------------------------------------------- search

  /** `sub` occurs in `s` starting at position `i`. */
  predicate OccursAt(s: string, sub: string, i: int)
  {
    0 <= i <= |s| - |sub| && s[i..i + |sub|] == sub
  }

  /** `s.includes(sub)`: `sub` occurs in `s` at some position. */
  predicate Includes(s: string, sub: string)
    ensures Includes(s, sub) ==> |sub| <= |s|
    ensures s == sub ==> Includes(s, sub)
  {
    assert s == sub ==> OccursAt(s, sub, 0) by {
      if s == sub {
        assert s[0..|sub|] == s;
      }
    }
    exists i :: 0 <= i <= |s| && OccursAt(s, sub, i)
  }

  /** Every string includes the empty query. */
  lemma IncludesEmpty(s: string)
    ensures Includes(s, "")
  {
    assert OccursAt(s, "", 0);
  }

  // ---------------------------------------------------------------- numbers

  predicate IsDigit(c: char)
  {
    '0' <= c <= '9'
  }

  predicate AllDigits(s: string)
  {
    forall i :: 0 <= i < |s| ==> IsDigit(s[i])
  }

  function DigitChar(d: nat): (c: char)
    requires d < 10
    ensures IsDigit(c) && c as int - '0' as int == d
  {
    ('0' as int + d) as char
  }

  /** The decimal text of a natural number, as a template literal `${n}` writes it. */
  function NatToString(n: nat): (r: string)
    ensures |r| >= 1 && AllDigits(r)
    ensures r[0] == '0' ==> n == 0
  {
    if n < 10 then [DigitChar(n)] else NatToString(n / 10) + [DigitChar(n % 10)]
  }

  /** The value of a string of decimal digits. */
  function DecimalValue(d: string): (v: nat)
    requires AllDigits(d)
  {
    if d == [] then 0 else DecimalValue(d[..|d| - 1]) * 10 + (d[|d| - 1] as int - '0' as int)
  }

  /** Reading back the digits of `n` gives `n`. */
  lemma {:induction false} DecimalValueOfNatToString(n: nat)
    ensures DecimalValue(NatToString(n)) == n
  {
    if n >= 10 {
      var r := NatToString(n);
      assert r[..|r| - 1] == NatToString(n / 10);
      DecimalValueOfNatToString(n / 10);
    }
  }

  /** Different numbers have different decimal texts. */
  lemma NatToStringInjective(m: nat, n: nat)
    requires NatToString(m) == NatToString(n)
    ensures m == n
  {
    DecimalValueOfNatToString(m);
    DecimalValueOfNatToString(n);
  }

  /** The white space that `parseInt` skips: ECMAScript's WhiteSpace and LineTerminator characters. */
  predicate IsJsSpace(c: char)
  {
    c == '\t' || c == '\n' || c == '\U{000B}' || c == '\U{000C}' || c == '\r' || c == ' '
    || c == '\U{00A0}' || c == '\U{1680}' || ('\U{2000}' <= c <= '\U{200A}')
    || c == '\U{2028}' || c == '\U{2029}' || c == '\U{202F}' || c == '\U{205F}'
    || c == '\U{3000}' || c == '\U{FEFF}'
  }

  /** Drops the leading white space. */
  function TrimStart(s: string): (r: string)
    ensures |r| <= |s| && r == s[|s| - |r|..]
    ensures r == [] || !IsJsSpace(r[0])
    ensures s == [] || !IsJsSpace(s[0]) ==> r == s
  {
    if s != [] && IsJsSpace(s[0]) then TrimStart(s[1..]) else s
  }

  /** The length of the longest prefix of decimal digits. */
  function LeadingDigits(s: string): (k: nat)
    ensures k <= |s|
    ensures AllDigits(s[..k])
    ensures k < |s| ==> !IsDigit(s[k])
  {
    if s == [] || !IsDigit(s[0]) then 0
    else
      var k := 1 + LeadingDigits(s[1..]);
      assert s[..k] == [s[0]] + s[1..][..k - 1];
      k
  }

  /** What follows an optional leading sign. */
  function Unsigned(t: string): (r: string)
    ensures t != [] && (t[0] == '-' || t[0] == '+') ==> r == t[1..]
    ensures t == [] || (t[0] != '-' && t[0] != '+') ==> r == t
  {
    if t != [] && (t[0] == '-' || t[0] == '+') then t[1..] else t
  }

  /** The value of the leading run of decimal digits; `None` when there is none. */
  function LeadingValue(body: string): (r: Option<nat>)
    ensures r.None? <==> body == [] || !IsDigit(body[0])
  {
    var k := LeadingDigits(body);
    if k == 0 then None else Some(DecimalValue(body[..k]))
  }

  /** The number read after the white space: an optional sign, then the leading digits. */
  function ParseTrimmed(t: string): (r: Option<int>)
    ensures r.None? <==> LeadingDigits(Unsigned(t)) == 0
    ensures r.Some? && r.value < 0 ==> t[0] == '-'
  {
    match LeadingValue(Unsigned(t))
    case None => None
    case Some(v) => Some(if t != [] && t[0] == '-' then -(v as int) else v)
  }

  /**
   * `Number.parseInt(s)` with no radix: skip leading white space, read an optional sign,
   * then the longest run of decimal digits; no digits gives NaN (`None`).
   */
  function ParseInt(s: string): (r: Option<int>)
    ensures r.None? <==> LeadingDigits(Unsigned(TrimStart(s))) == 0
  {
    ParseTrimmed(TrimStart(s))
  }

  lemma LeadingDigitsOfDigits(d: string)
    requires AllDigits(d)
    ensures LeadingDigits(d) == |d|
  {
  }

  /** The digits of a natural number read back as that number. */
  lemma LeadingValueOfNatToString(n: nat)
    ensures LeadingValue(NatToString(n)) == Some(n)
  {
    var d := NatToString(n);
    LeadingDigitsOfDigits(d);
    assert d[..|d|] == d;
    DecimalValueOfNatToString(n);
  }

  /** `parseInt` reads back the text of a natural number. */
  lemma ParseIntOfNatToString(n: nat)
    ensures ParseInt(NatToString(n)) == Some(n)
  {
    var d := NatToString(n);
    assert TrimStart(d) == d by { assert IsDigit(d[0]); }
    assert ParseTrimmed(d) == Some(n) by {
      assert Unsigned(d) == d;
      LeadingValueOfNatToString(n);
    }
  }

  /** `parseInt` reads back a minus sign followed by the text of a natural number. */
  lemma ParseIntOfNegated(n: nat)
    ensures ParseInt("-" + NatToString(n)) == Some(-(n as int))
  {
    var d := NatToString(n);
    var s := "-" + d;
    assert s[0] == '-' && s[1..] == d;
    assert TrimStart(s) == s;
    assert ParseTrimmed(s) == Some(-(n as int)) by {
      assert Unsigned(s) == d;
      LeadingValueOfNatToString(n);
    }
  }

  /** Text with no digit after the optional sign is not a number. */
  lemma ParseIntOfNoDigits(s: string)
    requires s == [] || (!IsDigit(s[0]) && !IsJsSpace(s[0]) && s[0] != '-' && s[0] != '+')
    ensures ParseInt(s) == None
  {
  }
}
