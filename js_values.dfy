/** JavaScript values as they reach the student routes and the browser script,
    and the few standard-library operations on them that both sides use:
    truthiness, `String(v)`, `v.toString()`, `parseInt`, `trim`,
    `toLowerCase` and `includes`. Strings are ASCII text. */
module JsValues {

  datatype Option<+T> = None | Some(value: T)

  /** A field of a parsed JSON request body, or a number computed from one.
      `Undefined` is a missing field; `NaN` is what `parseInt` gives back
      when there is no number to read. */
  datatype Value = Undefined | Null | Bool(b: bool) | Num(n: int) | NaN | Str(s: string)

  /** JavaScript's falsy values, as far as `Value` can hold them. */
  predicate Falsy(v: Value)
  {
    v == Undefined || v == Null || v == NaN || v == Bool(false) || v == Num(0) || v == Str("")
  }

  /** The condition of `if (v)` and of `v || w`. */
  predicate Truthy(v: Value)
  {
    match v
    case Undefined => false
    case Null => false
    case Bool(b) => b
    case Num(n) => n != 0
    case NaN => false
    case Str(s) => s != ""
  }

  /** A value is truthy exactly when it is not one of the falsy values. */
  lemma TruthyIff(v: Value)
    ensures Truthy(v) <==> !Falsy(v)
  {
  }

  // ---------------------------------------------------------------------------
  // Characters

  /** The ASCII part of the white space that `trim` and `parseInt` skip. */
  predicate IsSpace(c: char)
  {
    c == ' ' || c == '\t' || c == '\n' || c == '\r' || c == '\U{0B}' || c == '\U{0C}'
  }

  predicate IsDecimalDigit(c: char)
  {
    '0' <= c <= '9'
  }

  /** A digit of the given radix (10, or 16 after a `0x` prefix). */
  predicate IsDigitIn(c: char, radix: int)
  {
    IsDecimalDigit(c) || (radix == 16 && ('a' <= c <= 'f' || 'A' <= c <= 'F'))
  }

  function DigitValue(c: char): (d: nat)
    requires IsDigitIn(c, 16)
    ensures d < 16
    ensures IsDecimalDigit(c) <==> d < 10
  {
    if IsDecimalDigit(c) then c as int - '0' as int
    else if 'a' <= c <= 'f' then c as int - 'a' as int + 10
    else c as int - 'A' as int + 10
  }

  /** The character that writes the decimal digit `d`. */
  function DigitChar(d: nat): (c: char)
    requires d < 10
    ensures IsDecimalDigit(c) && DigitValue(c) == d
  {
    ('0' as int + d) as char
  }

  function LowerChar(c: char): char
  {
    if 'A' <= c <= 'Z' then (c as int - 'A' as int + 'a' as int) as char else c
  }

  /** `s.toLowerCase()` on ASCII text. */
  function Lower(s: string): string
  {
    if s == [] then [] else [LowerChar(s[0])] + Lower(s[1..])
  }

  /** Lower-casing keeps the length, turns each upper-case letter into its
      lower-case letter, leaves no upper-case letter, and keeps every other
      character. */
  lemma {:induction false} LowerCases(s: string)
    ensures |Lower(s)| == |s|
    ensures forall i :: 0 <= i < |s| && 'A' <= s[i] <= 'Z' ==>
      Lower(s)[i] == (s[i] as int - 'A' as int + 'a' as int) as char
    ensures forall i :: 0 <= i < |s| ==> !('A' <= Lower(s)[i] <= 'Z')
    ensures forall i :: 0 <= i < |s| && !('A' <= s[i] <= 'Z') ==> Lower(s)[i] == s[i]
  {
    if s != [] {
      LowerCases(s[1..]);
      var rest := Lower(s[1..]);
      assert Lower(s) == [LowerChar(s[0])] + rest;
      assert forall i :: 1 <= i < |s| ==> Lower(s)[i] == rest[i - 1] && s[i] == s[1..][i - 1];
    }
  }

  /** Lower-casing twice is lower-casing once. */
  lemma LowerIdempotent(s: string)
    ensures Lower(Lower(s)) == Lower(s)
  {
    LowerCases(s);
    LowerCases(Lower(s));
  }

  // ---------------------------------------------------------------------------
  // trim

  /** Drops the white space at the front of `s`. */
  function TrimStart(s: string): (r: string)
    ensures |r| <= |s| && r == s[|s| - |r|..]
    ensures r == [] || !IsSpace(r[0])
    ensures forall k :: 0 <= k < |s| - |r| ==> IsSpace(s[k])
  {
    if s != [] && IsSpace(s[0]) then
      var r := TrimStart(s[1..]);
      assert s[1..][|s| - 1 - |r|..] == s[|s| - |r|..];
      assert forall k :: 1 <= k < |s| - |r| ==> s[k] == s[1..][k - 1];
      r
    else s
  }

  /** Drops the white space at the end of `s`. */
  function TrimEnd(s: string): (r: string)
    ensures |r| <= |s| && r == s[..|r|]
    ensures r == [] || !IsSpace(r[|r| - 1])
    ensures forall k :: |r| <= k < |s| ==> IsSpace(s[k])
  {
    if s != [] && IsSpace(s[|s| - 1]) then
      var r := TrimEnd(s[..|s| - 1]);
      assert s[..|s| - 1][..|r|] == s[..|r|];
      assert forall k :: |r| <= k < |s| - 1 ==> s[k] == s[..|s| - 1][k];
      r
    else s
  }

  /** `r` is `s` with white space only in front of and behind position `i`. */
  ghost predicate TrimmedAt(s: string, r: string, i: int)
  {
    && 0 <= i && i + |r| <= |s| && r == s[i..i + |r|]
    && (forall k :: 0 <= k < i ==> IsSpace(s[k]))
    && (forall k :: i + |r| <= k < |s| ==> IsSpace(s[k]))
  }

  /** Trimming both ends leaves the piece of `s` that starts where the
      leading white space ends. */
  lemma TrimPiece(s: string)
    ensures TrimmedAt(s, TrimEnd(TrimStart(s)), |s| - |TrimStart(s)|)
  {
    var t := TrimStart(s);
    var r := TrimEnd(t);
    var i := |s| - |t|;
    assert t == s[i..];
    assert forall k :: 0 <= k < i ==> IsSpace(s[k]);
    assert r == t[..|r|];
    assert forall k :: |r| <= k < |t| ==> IsSpace(t[k]);
    PieceOfSuffix(s, t, r, i);
  }

  /** A prefix `r` of the suffix `t` of `s` that starts at `i`, with white
      space in front of `t` and behind `r`, is a trimmed piece of `s`. */
  lemma PieceOfSuffix(s: string, t: string, r: string, i: int)
    requires 0 <= i <= |s| && t == s[i..]
    requires forall k :: 0 <= k < i ==> IsSpace(s[k])
    requires |r| <= |t| && r == t[..|r|]
    requires forall k :: |r| <= k < |t| ==> IsSpace(t[k])
    ensures TrimmedAt(s, r, i)
  {
    forall k | i + |r| <= k < |s|
      ensures IsSpace(s[k])
    {
      assert s[k] == t[k - i];
    }
  }

  /** `s.trim()`. */
  function Trim(s: string): string
  {
    TrimEnd(TrimStart(s))
  }

  /** A trimmed string is a piece of the original with only white space
      around it, and neither starts nor ends with white space. */
  lemma TrimIsPiece(s: string)
    ensures Trim(s) == [] || (!IsSpace(Trim(s)[0]) && !IsSpace(Trim(s)[|Trim(s)| - 1]))
    ensures exists i :: TrimmedAt(s, Trim(s), i)
  {
    TrimPiece(s);
    var t := TrimStart(s);
    assert Trim(s) == [] || Trim(s)[0] == t[0];
  }

  /** What the form checks rely on: a trimmed string is empty exactly when
      the original holds nothing but white space. */
  lemma TrimEmptyIff(s: string)
    ensures Trim(s) == [] <==> forall k :: 0 <= k < |s| ==> IsSpace(s[k])
  {
    var t := TrimStart(s);
    if Trim(s) != [] {
      var r := Trim(s);
      assert r[0] == t[0] && t[0] == s[|s| - |t|];
    }
  }

  // ---------------------------------------------------------------------------
  // includes

  /** `s.includes(t)`: some position of `s` starts a copy of `t`. */
  function Contains(s: string, t: string): bool
    decreases |s|
  {
    if |t| > |s| then false
    else if s[..|t|] == t then true
    else Contains(s[1..], t)
  }

  ghost predicate OccursAt(s: string, t: string, i: int)
  {
    0 <= i && i + |t| <= |s| && s[i..i + |t|] == t
  }

  /** `Contains` finds an occurrence exactly when there is one. */
  lemma {:induction false} ContainsIff(s: string, t: string)
    ensures Contains(s, t) <==> exists i :: OccursAt(s, t, i)
    decreases |s|
  {
    if |t| > |s| {
    } else if s[..|t|] == t {
      assert OccursAt(s, t, 0);
    } else {
      ContainsIff(s[1..], t);
      if Contains(s[1..], t) {
        var i :| OccursAt(s[1..], t, i);
        assert s[1..][i..i + |t|] == s[i + 1..i + 1 + |t|];
        assert OccursAt(s, t, i + 1);
      }
      if exists i :: OccursAt(s, t, i) {
        var i :| OccursAt(s, t, i);
        assert i != 0;
        assert s[1..][i - 1..i - 1 + |t|] == s[i..i + |t|];
        assert OccursAt(s[1..], t, i - 1);
      }
    }
  }

  // ---------------------------------------------------------------------------
  // Number to text

  /** The decimal digits of `n`, without leading zeros. */
  function NatText(n: nat): (r: string)
    ensures r != []
    ensures forall k :: 0 <= k < |r| ==> IsDecimalDigit(r[k])
    ensures |r| > 1 ==> r[0] != '0'
  {
    if n < 10 then [DigitChar(n)] else NatText(n / 10) + [DigitChar(n % 10)]
  }

  /** `String(n)` for an integer `n`. */
  function Decimal(n: int): string
  {
    if n < 0 then "-" + NatText(-n) else NatText(n)
  }

  /** `String(v)`: the text a template literal or `parseInt` reads from `v`. */
  function ToText(v: Value): string
  {
    match v
    case Undefined => "undefined"
    case Null => "null"
    case Bool(b) => if b then "true" else "false"
    case Num(n) => Decimal(n)
    case NaN => "NaN"
    case Str(s) => s
  }

  /** `v.toString()`: `None` is the TypeError thrown for undefined and null.
      For a number the text is one that `parseInt` reads back as the same
      number, which is what the routes do with an id the page has written. */
  function ToStringCall(v: Value): (r: Option<string>)
    ensures r.None? <==> v.Undefined? || v.Null?
    ensures r.Some? ==> r.value == ToText(v)
    ensures v.Num? ==> r.Some? && ParseText(r.value) == v
  {
    if v.Undefined? || v.Null? then None
    else if v.Num? then DecimalRoundTrip(v.n); Some(ToText(v))
    else Some(ToText(v))
  }

  // ---------------------------------------------------------------------------
  // parseInt

  /** The longest prefix of `s` made of digits of the radix. */
  function LeadingDigits(s: string, radix: int): (r: string)
    ensures |r| <= |s| && r == s[..|r|]
    ensures forall k :: 0 <= k < |r| ==> IsDigitIn(r[k], radix)
    ensures |r| < |s| ==> !IsDigitIn(s[|r|], radix)
  {
    if s == [] || !IsDigitIn(s[0], radix) then [] else [s[0]] + LeadingDigits(s[1..], radix)
  }

  /** The number that a string of digits writes in the radix. */
  function DigitsValue(d: string, radix: nat): (r: nat)
    requires forall k :: 0 <= k < |d| ==> IsDigitIn(d[k], 16)
  {
    if d == [] then 0 else DigitsValue(d[..|d| - 1], radix) * radix + DigitValue(d[|d| - 1])
  }

  /** The unsigned part of `parseInt`: an optional `0x` prefix, then as
      many digits as there are; no digit at all gives NaN. */
  function ParseMagnitude(u: string): (r: Value)
    ensures r.NaN? || (r.Num? && r.n >= 0)
    ensures r.Num? ==> u != [] && IsDecimalDigit(u[0])
  {
    var hex := |u| >= 2 && u[0] == '0' && (u[1] == 'x' || u[1] == 'X');
    var radix := if hex then 16 else 10;
    var digits := LeadingDigits(if hex then u[2..] else u, radix);
    if digits == [] then NaN else Num(DigitsValue(digits, radix))
  }

  /** A sign in front of the magnitude: `-` negates it, `+` is skipped. */
  function ParseSigned(t: string): (r: Value)
    ensures r.Num? || r.NaN?
  {
    if t != [] && t[0] == '-' then
      match ParseMagnitude(t[1..])
      case Num(m) => Num(-m)
      case _ => NaN
    else if t != [] && t[0] == '+' then ParseMagnitude(t[1..])
    else ParseMagnitude(t)
  }

  /** `parseInt(s)` with no radix argument: skip leading white space, then
      read an optional sign and the magnitude. */
  function ParseText(s: string): (r: Value)
    ensures r.Num? || r.NaN?
  {
    ParseSigned(TrimStart(s))
  }

  lemma {:induction false} NatTextValue(n: nat)
    ensures DigitsValue(NatText(n), 10) == n
    decreases n
  {
    if n >= 10 {
      var prefix := NatText(n / 10);
      var s := prefix + [DigitChar(n % 10)];
      assert s[..|s| - 1] == prefix;
      NatTextValue(n / 10);
    }
  }

  lemma LeadingDigitsOfDigits(s: string, radix: int)
    requires forall k :: 0 <= k < |s| ==> IsDecimalDigit(s[k])
    ensures LeadingDigits(s, radix) == s
  {
  }

  lemma MagnitudeOfDigits(digits: string)
    requires digits != []
    requires forall k :: 0 <= k < |digits| ==> IsDecimalDigit(digits[k])
    ensures ParseMagnitude(digits) == Num(DigitsValue(digits, 10))
  {
    var hex := |digits| >= 2 && digits[0] == '0' && (digits[1] == 'x' || digits[1] == 'X');
    assert !hex by {
      if |digits| >= 2 { assert IsDecimalDigit(digits[1]); }
    }
    LeadingDigitsOfDigits(digits, 10);
    assert LeadingDigits(digits, 10) == digits;
  }

  /** Text that does not start with white space is not trimmed. */
  lemma TrimStartKeeps(s: string)
    requires s != [] && !IsSpace(s[0])
    ensures TrimStart(s) == s
  {
  }

  /** Text that starts with a digit has no sign. */
  lemma SignedOfDigitLed(t: string)
    requires t != [] && IsDecimalDigit(t[0])
    ensures ParseSigned(t) == ParseMagnitude(t)
  {
  }

  /** A leading minus negates the magnitude that follows it. */
  lemma SignedOfMinus(t: string, m: nat)
    requires t != [] && t[0] == '-'
    requires ParseMagnitude(t[1..]) == Num(m)
    ensures ParseSigned(t) == Num(-(m as int))
  {
  }

  /** `parseInt` of a string of decimal digits reads all of them. */
  lemma ParseUnsigned(digits: string)
    requires digits != []
    requires forall k :: 0 <= k < |digits| ==> IsDecimalDigit(digits[k])
    ensures ParseText(digits) == Num(DigitsValue(digits, 10))
  {
    assert IsDecimalDigit(digits[0]);
    TrimStartKeeps(digits);
    SignedOfDigitLed(digits);
    MagnitudeOfDigits(digits);
  }

  /** `parseInt` of a minus sign followed by decimal digits reads the
      negated number. */
  lemma ParseNegative(digits: string)
    requires digits != []
    requires forall k :: 0 <= k < |digits| ==> IsDecimalDigit(digits[k])
    ensures ParseText("-" + digits) == Num(-(DigitsValue(digits, 10) as int))
  {
    var s := "-" + digits;
    assert s[0] == '-' && s[1..] == digits;
    TrimStartKeeps(s);
    MagnitudeOfDigits(digits);
    SignedOfMinus(s, DigitsValue(digits, 10));
  }

  /** Reading back the decimal text of an integer gives the integer: an id
      written into a URL by the browser reaches the routes unchanged. */
  lemma DecimalRoundTrip(n: int)
    ensures ParseText(Decimal(n)) == Num(n)
  {
    var m: nat := if n < 0 then -n else n;
    NatTextValue(m);
    if n < 0 {
      ParseNegative(NatText(m));
    } else {
      ParseUnsigned(NatText(m));
    }
  }

  /** `parseInt(v)`: the value is first turned into text. The result is an
      integer or NaN, and an integer comes back unchanged. */
  function ParseInt(v: Value): (r: Value)
    ensures r.Num? || r.NaN?
    ensures v.Num? ==> r == v
  {
    if v.Num? then DecimalRoundTrip(v.n); ParseText(ToText(v))
    else ParseText(ToText(v))
  }
}
