/** Character classes and case folding of ASCII text. */
module Text {
  predicate IsDigit(c: char) { '0' <= c <= '9' }

  predicate IsAlnum(c: char) {
    IsDigit(c) || 'a' <= c <= 'z' || 'A' <= c <= 'Z'
  }

  predicate IsHex(c: char) {
    IsDigit(c) || 'a' <= c <= 'f' || 'A' <= c <= 'F'
  }

  predicate AllHex(text: string) {
    forall i | 0 <= i < |text| :: IsHex(text[i])
  }

  function LowerChar(c: char): char {
    if 'A' <= c <= 'Z' then (c as int + 32) as char else c
  }

  function Lower(text: string): string {
    seq(|text|, i requires 0 <= i < |text| => LowerChar(text[i]))
  }

  function HexDigit(c: char): nat
    requires IsHex(c)
  {
    if IsDigit(c) then c as int - '0' as int
    else LowerChar(c) as int - 'a' as int + 10
  }

  function HexValue(text: string): nat
    requires AllHex(text)
  {
    if text == "" then 0 else 16 * HexValue(text[..|text| - 1]) + HexDigit(text[|text| - 1])
  }

  /** The text without colons and hyphens. */
  function Compact(text: string): string {
    if text == "" then ""
    else (if text[0] in {':', '-'} then "" else [text[0]]) + Compact(text[1..])
  }

  lemma {:induction false} CompactAppend(a: string, b: string)
    ensures Compact(a + b) == Compact(a) + Compact(b)
  {
    if a == "" {
      assert a + b == b;
    } else {
      assert (a + b)[1..] == a[1..] + b;
      CompactAppend(a[1..], b);
    }
  }

  lemma {:induction false} CompactOfHex(text: string)
    requires AllHex(text)
    ensures Compact(text) == text
  {
    if text != "" {
      CompactOfHex(text[1..]);
      assert text == [text[0]] + text[1..];
    }
  }

  const UPPER_CASE := "ABCDEFGHIJKLMNOPQRSTUVWXYZ"
  const LOWER_CASE := "abcdefghijklmnopqrstuvwxyz"

  /** Lower-casing turns the one alphabet into the other, letter by letter, and leaves every other character. */
  lemma LowerIsFolding(text: string, i: nat)
    requires i < |text|
    ensures |Lower(text)| == |text|
    ensures forall k | 0 <= k < 26 :: text[i] == UPPER_CASE[k] ==> Lower(text)[i] == LOWER_CASE[k]
    ensures text[i] !in UPPER_CASE ==> Lower(text)[i] == text[i]
  {
    forall k | 0 <= k < 26
      ensures UPPER_CASE[k] as int == 'A' as int + k && LOWER_CASE[k] as int == 'a' as int + k
    {
    }
    if 'A' <= text[i] <= 'Z' {
      var k := text[i] as int - 'A' as int;
      assert UPPER_CASE[k] == text[i];
    }
  }

  const DIGITS := "0123456789"

  lemma DigitsAre(c: char)
    ensures IsDigit(c) <==> c in DIGITS
  {
    if IsDigit(c) {
      assert DIGITS[c as int - '0' as int] == c;
    }
  }

  lemma CapitalsAre(c: char)
    ensures 'A' <= c <= 'Z' <==> c in UPPER_CASE
  {
    if 'A' <= c <= 'Z' {
      assert UPPER_CASE[c as int - 'A' as int] == c;
    }
  }

  lemma SmallLettersAre(c: char)
    ensures 'a' <= c <= 'z' <==> c in LOWER_CASE
  {
    if 'a' <= c <= 'z' {
      assert LOWER_CASE[c as int - 'a' as int] == c;
    }
  }

  lemma HexLettersAre(c: char)
    ensures 'A' <= c <= 'F' <==> c in "ABCDEF"
    ensures 'a' <= c <= 'f' <==> c in "abcdef"
  {
    if 'A' <= c <= 'F' {
      assert "ABCDEF"[c as int - 'A' as int] == c;
    }
    if 'a' <= c <= 'f' {
      assert "abcdef"[c as int - 'a' as int] == c;
    }
  }

  /** The character classes, spelled out. */
  lemma ClassesAre(c: char)
    ensures IsDigit(c) <==> c in DIGITS
    ensures IsAlnum(c) <==> c in DIGITS || c in UPPER_CASE || c in LOWER_CASE
    ensures IsHex(c) <==> c in DIGITS || c in "ABCDEF" || c in "abcdef"
  {
    DigitsAre(c);
    CapitalsAre(c);
    SmallLettersAre(c);
    HexLettersAre(c);
    hide DIGITS, UPPER_CASE, LOWER_CASE, IsDigit;
  }

  /** A hex digit counts by its place among the sixteen. */
  lemma HexDigitIs(c: char, k: nat)
    requires k < 16 && IsHex(c)
    ensures HexDigit(c) == k <==>
              if k < 10 then c == DIGITS[k] else c == UPPER_CASE[k - 10] || c == LOWER_CASE[k - 10]
  {
  }

  /** Text is compacted character by character, dropping colons and hyphens. */
  lemma {:induction false} CompactMembers(text: string, c: char)
    ensures c in Compact(text) <==> c in text && c != ':' && c != '-'
  {
    if text != "" {
      CompactMembers(text[1..], c);
      assert text == [text[0]] + text[1..];
    }
  }
}
