/**
 * Which strings JavaScript's `isNaN` accepts as numbers. `isNaN(value)` on a
 * string converts it with StringToNumber, whose grammar is StringNumericLiteral
 * (ECMA-262, section 7.1.4.1): optional white space and line terminators around
 * either nothing at all (the number 0), a signed decimal literal (with
 * `Infinity`, a fraction and an exponent), or an unsigned `0b`/`0o`/`0x`
 * integer. The string is NaN exactly when it does not match.
 */
module JsNumber {

  /** StrWhiteSpaceChar: a WhiteSpace or LineTerminator code point. */
  predicate IsStrWhiteSpaceChar(c: char)
  {
    c == '\t' || c == '\U{000B}' || c == '\U{000C}' || c == '\U{FEFF}'
    || c == '\n' || c == '\r' || c == '\U{2028}' || c == '\U{2029}'
    || IsSpaceSeparator(c)
  }

  /** The code points of Unicode category Zs. */
  predicate IsSpaceSeparator(c: char)
  {
    c == ' ' || c == '\U{00A0}' || c == '\U{1680}' || ('\U{2000}' <= c <= '\U{200A}')
    || c == '\U{202F}' || c == '\U{205F}' || c == '\U{3000}'
  }

  /** `s` without its leading white space. */
  function TrimStart(s: string): (r: string)
    ensures |r| <= |s|
    ensures r == s[|s| - |r|..]
    ensures forall i :: 0 <= i < |s| - |r| ==> IsStrWhiteSpaceChar(s[i])
    ensures r == [] || !IsStrWhiteSpaceChar(r[0])
  {
    if s != [] && IsStrWhiteSpaceChar(s[0]) then TrimStart(s[1..]) else s
  }

  /** `s` without its trailing white space. */
  function TrimEnd(s: string): (r: string)
    ensures |r| <= |s|
    ensures r == s[..|r|]
    ensures forall i :: |r| <= i < |s| ==> IsStrWhiteSpaceChar(s[i])
    ensures r == [] || !IsStrWhiteSpaceChar(r[|r| - 1])
  {
    if s != [] && IsStrWhiteSpaceChar(s[|s| - 1]) then TrimEnd(s[..|s| - 1]) else s
  }

  predicate IsDecimalDigit(c: char) { '0' <= c <= '9' }
  predicate IsBinaryDigit(c: char) { c == '0' || c == '1' }
  predicate IsOctalDigit(c: char) { '0' <= c <= '7' }
  predicate IsHexDigit(c: char) { IsDecimalDigit(c) || ('a' <= c <= 'f') || ('A' <= c <= 'F') }

  /** DecimalDigits, possibly empty. */
  predicate AllDecimalDigits(s: string)
  {
    forall i :: 0 <= i < |s| ==> IsDecimalDigit(s[i])
  }

  /** The index of the first `c` in `s`, or `|s|` when there is none. */
  function IndexOf(s: string, c: char): (k: nat)
    ensures k <= |s|
    ensures c !in s[..k]
    ensures k < |s| ==> s[k] == c
  {
    if s == [] || s[0] == c then 0
    else
      var k := 1 + IndexOf(s[1..], c);
      assert s[..k] == [s[0]] + s[1..][..k - 1];
      k
  }

  /** The index of the first exponent indicator `e` or `E`, or `|s|`. */
  function IndexOfExponent(s: string): (k: nat)
    ensures k <= |s|
    ensures forall i :: 0 <= i < k ==> s[i] != 'e' && s[i] != 'E'
    ensures k < |s| ==> s[k] == 'e' || s[k] == 'E'
  {
    if s == [] || s[0] == 'e' || s[0] == 'E' then 0 else 1 + IndexOfExponent(s[1..])
  }

  /** Digits with at most one `.`, and at least one digit: `1`, `1.`, `.5`, `1.5`. */
  predicate IsMantissa(m: string)
  {
    var d := IndexOf(m, '.');
    if d == |m| then m != [] && AllDecimalDigits(m)
    else AllDecimalDigits(m[..d]) && AllDecimalDigits(m[d + 1..]) && |m| >= 2
  }

  /** SignedInteger: an optional sign and at least one digit. */
  predicate IsSignedInteger(x: string)
  {
    if x != [] && (x[0] == '+' || x[0] == '-') then x[1..] != [] && AllDecimalDigits(x[1..])
    else x != [] && AllDecimalDigits(x)
  }

  /** StrUnsignedDecimalLiteral: `Infinity`, or a mantissa with an optional exponent part. */
  predicate IsStrUnsignedDecimalLiteral(s: string)
  {
    s == "Infinity"
    || var k := IndexOfExponent(s);
       IsMantissa(s[..k]) && (k == |s| || IsSignedInteger(s[k + 1..]))
  }

  /** StrDecimalLiteral: an optional sign before an unsigned decimal literal. */
  predicate IsStrDecimalLiteral(s: string)
  {
    if s != [] && (s[0] == '+' || s[0] == '-') then IsStrUnsignedDecimalLiteral(s[1..])
    else IsStrUnsignedDecimalLiteral(s)
  }

  /** NonDecimalIntegerLiteral without separators: `0b`, `0o` or `0x` and at least one digit. */
  predicate IsNonDecimalIntegerLiteral(s: string)
  {
    |s| >= 3 && s[0] == '0' &&
    (if s[1] == 'b' || s[1] == 'B' then forall i :: 2 <= i < |s| ==> IsBinaryDigit(s[i])
     else if s[1] == 'o' || s[1] == 'O' then forall i :: 2 <= i < |s| ==> IsOctalDigit(s[i])
     else if s[1] == 'x' || s[1] == 'X' then forall i :: 2 <= i < |s| ==> IsHexDigit(s[i])
     else false)
  }

  /** `!isNaN(s)`: `s` is a StringNumericLiteral. */
  predicate IsNumeric(s: string)
  {
    var t := TrimEnd(TrimStart(s));
    t == [] || IsStrDecimalLiteral(t) || IsNonDecimalIntegerLiteral(t)
  }

  /**
   * A one-character string is a number exactly when the character is a decimal
   * digit or white space (which converts to 0); every other single character,
   * `.`, a sign and an operator included, is NaN.
   */
  lemma SingleCharNumeric(c: char)
    ensures IsNumeric([c]) <==> IsDecimalDigit(c) || IsStrWhiteSpaceChar(c)
  {
    if IsStrWhiteSpaceChar(c) {
      assert TrimStart([c]) == [];
    } else {
      assert TrimStart([c]) == [c];
      assert TrimEnd([c]) == [c];
      assert IsStrDecimalLiteral([c]) <==> IsStrUnsignedDecimalLiteral([c]) by {
        if c == '+' || c == '-' {
          assert !IsStrUnsignedDecimalLiteral([]);
        }
      }
      if c == 'e' || c == 'E' {
        assert IndexOfExponent([c]) == 0;
      } else {
        assert IndexOfExponent([c]) == 1;
        assert [c][..1] == [c];
        if c == '.' {
          assert IndexOf([c], '.') == 0;
        } else {
          assert IndexOf([c], '.') == 1;
        }
      }
    }
  }

  /** A non-empty run of decimal digits is a number. */
  lemma DigitsNumeric(s: string)
    requires s != [] && AllDecimalDigits(s)
    ensures IsNumeric(s)
  {
    assert !IsStrWhiteSpaceChar(s[0]) && !IsStrWhiteSpaceChar(s[|s| - 1]);
    assert TrimStart(s) == s;
    assert TrimEnd(s) == s;
    var d := IndexOf(s, '.');
    assert d == |s|;
    var k := IndexOfExponent(s);
    assert k == |s|;
    assert s[..k] == s;
    assert IsMantissa(s);
    assert IsStrUnsignedDecimalLiteral(s);
  }

  /** The two-letter strings the calculator sends besides single characters are NaN. */
  lemma ClearLabelNotNumeric()
    ensures !IsNumeric("AC")
  {
    assert TrimStart("AC") == "AC";
    assert TrimEnd("AC") == "AC";
    assert IndexOfExponent("AC") == 2;
    assert IndexOf("AC", '.') == 2;
  }
}
