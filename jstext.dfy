/**
 * The few pieces of JavaScript string behaviour the script relies on:
 * the whitespace class shared by `\s` and `String.prototype.trim`, `trim`
 * itself, `String(n)` for a non-negative integer, and `padStart`.
 */
module JsText {

  /** The characters `\s` matches in a JavaScript regular expression; they are
      also exactly the WhiteSpace and LineTerminator characters `trim` removes. */
  predicate IsWhitespace(c: char) {
    c == '\t' || c == '\n' || c == '\U{000B}' || c == '\U{000C}' || c == '\r' || c == ' '
    || c == '\U{00A0}' || c == '\U{1680}' || ('\U{2000}' <= c <= '\U{200A}')
    || c == '\U{2028}' || c == '\U{2029}' || c == '\U{202F}' || c == '\U{205F}'
    || c == '\U{3000}' || c == '\U{FEFF}'
  }

  predicate AllWhitespace(s: string) {
    forall i :: 0 <= i < |s| ==> IsWhitespace(s[i])
  }

  /** `String.prototype.trim`: whitespace is dropped from both ends until a
      character that is not whitespace is at each end, or nothing is left. */
  function Trim(s: string): (r: string)
    ensures |r| <= |s|
    ensures r == [] || (!IsWhitespace(r[0]) && !IsWhitespace(r[|r| - 1]))
    ensures r == [] <==> AllWhitespace(s)
  {
    if |s| > 0 && IsWhitespace(s[0]) then
      var r := Trim(s[1..]);
      assert AllWhitespace(s) <==> AllWhitespace(s[1..]) by {
        if AllWhitespace(s[1..]) {
          forall i | 0 <= i < |s| ensures IsWhitespace(s[i]) {
            if i > 0 { assert s[i] == s[1..][i - 1]; }
          }
        }
      }
      r
    else if |s| > 0 && IsWhitespace(s[|s| - 1]) then
      var r := Trim(s[..|s| - 1]);
      // s[0] is not whitespace, and it is still the first character of the prefix.
      assert s[..|s| - 1][0] == s[0];
      r
    else
      s
  }

  /** The trimmed string is the slice `s[i..j]` of the input, and what lies
      outside the slice is whitespace. With the ends of the result not being
      whitespace (from `Trim`'s contract), this says the result is the input with
      its leading and trailing whitespace removed. */
  lemma {:induction false} TrimIsInfix(s: string) returns (i: nat, j: nat)
    ensures TrimSlice(s, i, j)
  {
    if |s| > 0 && IsWhitespace(s[0]) {
      var i', j' := TrimIsInfix(s[1..]);
      i, j := i' + 1, j' + 1;
      TrimSliceFront(s, i', j');
    } else if |s| > 0 && IsWhitespace(s[|s| - 1]) {
      i, j := TrimIsInfix(s[..|s| - 1]);
      TrimSliceBack(s, i, j);
    } else {
      i, j := 0, |s|;
      assert s[..0] == [] && s[|s|..] == [];
    }
  }

  /** `Trim(s)` is `s[i..j]` and only whitespace lies outside it. */
  ghost predicate TrimSlice(s: string, i: nat, j: nat) {
    i <= j <= |s| && Trim(s) == s[i..j] && AllWhitespace(s[..i]) && AllWhitespace(s[j..])
  }

  lemma TrimSliceFront(s: string, i: nat, j: nat)
    requires |s| > 0 && IsWhitespace(s[0]) && TrimSlice(s[1..], i, j)
    ensures TrimSlice(s, i + 1, j + 1)
  {
    var t := s[1..];
    assert Trim(s) == Trim(t);
    assert t[i..j] == s[i + 1..j + 1];
    assert s[..i + 1] == [s[0]] + t[..i];
    AllWhitespaceConcat([s[0]], t[..i]);
    assert s[j + 1..] == t[j..];
  }

  lemma TrimSliceBack(s: string, i: nat, j: nat)
    requires |s| > 0 && !IsWhitespace(s[0]) && IsWhitespace(s[|s| - 1]) && TrimSlice(s[..|s| - 1], i, j)
    ensures TrimSlice(s, i, j)
  {
    var t := s[..|s| - 1];
    assert Trim(s) == Trim(t);
    assert t[i..j] == s[i..j];
    assert t[..i] == s[..i];
    assert s[j..] == t[j..] + [s[|s| - 1]];
    AllWhitespaceConcat(t[j..], [s[|s| - 1]]);
  }

  lemma AllWhitespaceConcat(a: string, b: string)
    requires AllWhitespace(a) && AllWhitespace(b)
    ensures AllWhitespace(a + b)
  {
    forall k | 0 <= k < |a + b|
      ensures IsWhitespace((a + b)[k])
    {
      if k >= |a| {
        assert (a + b)[k] == b[k - |a|];
      }
    }
  }

  /** Surrounding blanks and line breaks go, inner text stays. */
  lemma TrimExample()
    ensures Trim(" a@b.co\n") == "a@b.co"
  {
    var s := " a@b.co\n";
    assert IsWhitespace(' ') && IsWhitespace('\n') && !IsWhitespace('a') && !IsWhitespace('o');
    assert s[1..] == "a@b.co\n";
    assert Trim(s) == Trim("a@b.co\n");
    assert "a@b.co\n"[..6] == "a@b.co";
    assert Trim("a@b.co\n") == Trim("a@b.co");
    assert Trim("a@b.co") == "a@b.co";
  }

  /** Trimming a trimmed string changes nothing. */
  lemma TrimIdempotent(s: string)
    ensures Trim(Trim(s)) == Trim(s)
  {
  }

  predicate IsDigit(c: char) {
    '0' <= c <= '9'
  }

  predicate AllDigits(s: string) {
    forall i :: 0 <= i < |s| ==> IsDigit(s[i])
  }

  function DigitChar(d: nat): (c: char)
    requires d < 10
    ensures IsDigit(c) && (c as int) - ('0' as int) == d
  {
    ('0' as int + d) as char
  }

  /** `String(n)` for a non-negative integer below 10^21 (JavaScript switches to
      exponent notation only from there): its decimal digits, with no leading zero. */
  function NatToString(n: nat): (s: string)
    ensures |s| >= 1 && AllDigits(s)
    ensures n < 10 <==> |s| == 1
    ensures 10 <= n < 100 <==> |s| == 2
    ensures |s| > 1 ==> s[0] != '0'
  {
    if n < 10 then [DigitChar(n)] else NatToString(n / 10) + [DigitChar(n % 10)]
  }

  /** The number a string of decimal digits denotes: the partner of NatToString. */
  function DecimalValue(s: string): nat
    requires AllDigits(s)
  {
    if s == [] then 0
    else DecimalValue(s[..|s| - 1]) * 10 + ((s[|s| - 1] as int) - ('0' as int))
  }

  /** Reading back what NatToString wrote gives the number. */
  lemma {:induction false} DecimalValueOfNatToString(n: nat)
    ensures DecimalValue(NatToString(n)) == n
  {
    if n >= 10 {
      DecimalValueOfNatToString(n / 10);
      var s := NatToString(n);
      assert s[..|s| - 1] == NatToString(n / 10);
    }
  }

  /** A leading zero does not change the value of a digit string. */
  lemma {:induction false} DecimalValueLeadingZero(s: string)
    requires AllDigits(s)
    ensures AllDigits("0" + s) && DecimalValue("0" + s) == DecimalValue(s)
  {
    if s != [] {
      var z := "0" + s;
      assert z[..|z| - 1] == "0" + s[..|s| - 1];
      DecimalValueLeadingZero(s[..|s| - 1]);
    }
  }

  function Repeat(c: char, k: nat): (r: string)
    ensures |r| == k && forall i :: 0 <= i < k ==> r[i] == c
  {
    if k == 0 then [] else [c] + Repeat(c, k - 1)
  }

  /** `s.padStart(width, [fill])`: fill characters are put in front until the
      string is `width` long; a string already that long is returned unchanged. */
  function PadStart(s: string, width: nat, fill: char): (r: string)
    ensures |r| == if |s| >= width then |s| else width
    ensures r[|r| - |s|..] == s
    ensures forall i :: 0 <= i < |r| - |s| ==> r[i] == fill
  {
    if |s| >= width then s else Repeat(fill, width - |s|) + s
  }

  /** Two-digit zero padding of a number below 100 keeps its value and gives two digits. */
  lemma PadStartTwoDigits(n: nat)
    requires n < 100
    ensures var r := PadStart(NatToString(n), 2, '0');
      |r| == 2 && AllDigits(r) && DecimalValue(r) == n
  {
    DecimalValueOfNatToString(n);
    if n < 10 {
      assert PadStart(NatToString(n), 2, '0') == "0" + NatToString(n);
      DecimalValueLeadingZero(NatToString(n));
    }
  }
}
