/**
 * Decimal and hexadecimal numerals, and splitting text on a separator:
 * the text-level pieces the address grammars and renderings are built from.
 */
module Numerals {

  predicate IsDigit(c: char) { '0' <= c <= '9' }

  predicate IsHexDigit(c: char) { IsDigit(c) || 'a' <= c <= 'f' || 'A' <= c <= 'F' }

  predicate AllDigits(s: string) { forall i | 0 <= i < |s| :: IsDigit(s[i]) }

  predicate AllHexDigits(s: string) { forall i | 0 <= i < |s| :: IsHexDigit(s[i]) }

  /** The value of one decimal or hexadecimal digit (either case). */
  function DigitValue(c: char): (d: nat)
    requires IsHexDigit(c)
    ensures d < 16
    ensures IsDigit(c) ==> d < 10
  {
    if IsDigit(c) then c as int - '0' as int
    else if 'a' <= c <= 'f' then c as int - 'a' as int + 10
    else c as int - 'A' as int + 10
  }

  /** The digit for d, lower-case for 10..15. */
  function DigitChar(d: nat): (c: char)
    requires d < 16
    ensures IsHexDigit(c) && DigitValue(c) == d
    ensures IsDigit(c) <==> d < 10
  {
    if d < 10 then ('0' as int + d) as char else ('a' as int + d - 10) as char
  }

  function DecimalValue(s: string): nat
    requires AllDigits(s)
  {
    if |s| == 0 then 0 else DecimalValue(s[..|s| - 1]) * 10 + DigitValue(s[|s| - 1])
  }

  function HexValue(s: string): nat
    requires AllHexDigits(s)
  {
    if |s| == 0 then 0 else HexValue(s[..|s| - 1]) * 16 + DigitValue(s[|s| - 1])
  }

  /** The shortest decimal numeral of v. */
  function DecimalText(v: nat): (s: string)
    ensures 1 <= |s| && AllDigits(s)
  {
    if v < 10 then [DigitChar(v)] else DecimalText(v / 10) + [DigitChar(v % 10)]
  }

  /** The numeral of a two-digit number, digit by digit. */
  lemma DecimalTextOfTwo(v: nat, a: nat, b: nat)
    requires 1 <= a < 10 && b < 10 && v == 10 * a + b
    ensures DecimalText(v) == [DigitChar(a), DigitChar(b)]
  {
    assert v / 10 == a && v % 10 == b;
  }

  /** The numeral of a three-digit number, digit by digit. */
  lemma DecimalTextOfThree(v: nat, a: nat, b: nat, c: nat)
    requires 1 <= a < 10 && b < 10 && c < 10 && v == 100 * a + 10 * b + c
    ensures DecimalText(v) == [DigitChar(a), DigitChar(b), DigitChar(c)]
  {
    assert v / 10 == 10 * a + b && v % 10 == c;
    DecimalTextOfTwo(10 * a + b, a, b);
  }

  /** The shortest lower-case hexadecimal numeral of v. */
  function HexText(v: nat): (s: string)
    ensures 1 <= |s| && AllHexDigits(s)
  {
    if v < 16 then [DigitChar(v)] else HexText(v / 16) + [DigitChar(v % 16)]
  }

  /** DecimalText is an inverse of DecimalValue, and writes no leading zero. */
  lemma {:induction false} DecimalTextRoundTrip(v: nat)
    ensures DecimalValue(DecimalText(v)) == v
    ensures |DecimalText(v)| > 1 ==> DecimalText(v)[0] != '0'
    ensures v < 10 ==> |DecimalText(v)| == 1
    ensures v < 100 ==> |DecimalText(v)| <= 2
    ensures v < 1000 ==> |DecimalText(v)| <= 3
  {
    if v >= 10 {
      DecimalTextRoundTrip(v / 10);
      var s := DecimalText(v);
      assert s[..|s| - 1] == DecimalText(v / 10);
      assert s[0] == DecimalText(v / 10)[0];
      if v / 10 < 10 {
        assert DigitValue(s[0]) == v / 10;
      }
    }
  }

  /** HexText is an inverse of HexValue and needs at most four digits below 2^16. */
  lemma {:induction false} HexTextRoundTrip(v: nat)
    ensures HexValue(HexText(v)) == v
    ensures v < 0x10 ==> |HexText(v)| == 1
    ensures v < 0x100 ==> |HexText(v)| <= 2
    ensures v < 0x1000 ==> |HexText(v)| <= 3
    ensures v < 0x10000 ==> |HexText(v)| <= 4
  {
    if v >= 16 {
      HexTextRoundTrip(v / 16);
      var s := HexText(v);
      assert s[..|s| - 1] == HexText(v / 16);
    }
  }

  /** A numeral of at most four hexadecimal digits denotes a value below 2^16. */
  lemma {:induction false} HexValueBound(s: string)
    requires AllHexDigits(s)
    ensures |s| <= 1 ==> HexValue(s) < 0x10
    ensures |s| <= 2 ==> HexValue(s) < 0x100
    ensures |s| <= 3 ==> HexValue(s) < 0x1000
    ensures |s| <= 4 ==> HexValue(s) < 0x10000
  {
    if |s| > 0 {
      HexValueBound(s[..|s| - 1]);
    }
  }

  /** The fields of s between occurrences of sep, empty fields kept. */
  function Split(s: string, sep: char): (fields: seq<string>)
    ensures |fields| >= 1
    decreases |s|
  {
    if |s| == 0 then [""]
    else
      var rest := Split(s[1..], sep);
      if s[0] == sep then [""] + rest else [[s[0]] + rest[0]] + rest[1..]
  }

  /** The fields joined with sep between consecutive ones. */
  function Join(fields: seq<string>, sep: char): string
    requires |fields| >= 1
  {
    if |fields| == 1 then fields[0] else fields[0] + [sep] + Join(fields[1..], sep)
  }

  /** Text that splits into more than one field holds the separator. */
  lemma {:induction false} SeparatorOfSplit(s: string, sep: char)
    ensures |Split(s, sep)| > 1 ==> sep in s
    decreases |s|
  {
    if |s| > 0 && s[0] != sep {
      SeparatorOfSplit(s[1..], sep);
      assert forall c | c in s[1..] :: c in s;
    }
  }

  lemma {:induction false} SplitWithoutSeparator(s: string, sep: char)
    requires sep !in s
    ensures Split(s, sep) == [s]
  {
    if |s| > 0 {
      SplitWithoutSeparator(s[1..], sep);
      assert [s[0]] + s[1..] == s;
    }
  }

  lemma {:induction false} SplitAfterField(field: string, sep: char, rest: string)
    requires sep !in field
    ensures Split(field + [sep] + rest, sep) == [field] + Split(rest, sep)
  {
    var s := field + [sep] + rest;
    if |field| == 0 {
      assert s[1..] == rest;
    } else {
      assert s[1..] == field[1..] + [sep] + rest;
      SplitAfterField(field[1..], sep, rest);
      assert [field[0]] + field[1..] == field;
    }
  }

  /** Splitting undoes joining fields that do not contain the separator. */
  lemma {:induction false} SplitJoin(fields: seq<string>, sep: char)
    requires |fields| >= 1
    requires forall i | 0 <= i < |fields| :: sep !in fields[i]
    ensures Split(Join(fields, sep), sep) == fields
  {
    if |fields| == 1 {
      SplitWithoutSeparator(fields[0], sep);
    } else {
      SplitJoin(fields[1..], sep);
      SplitAfterField(fields[0], sep, Join(fields[1..], sep));
      assert [fields[0]] + fields[1..] == fields;
    }
  }

  /** Joining undoes splitting. */
  lemma {:induction false} JoinSplit(s: string, sep: char)
    ensures Join(Split(s, sep), sep) == s
    decreases |s|
  {
    if |s| > 0 {
      JoinSplit(s[1..], sep);
      var rest := Split(s[1..], sep);
      if s[0] == sep {
        assert Split(s, sep)[1..] == rest;
      } else {
        var fields := Split(s, sep);
        assert fields[0] == [s[0]] + rest[0];
        if |rest| > 1 {
          assert fields[1..] == rest[1..];
        }
      }
    }
  }

  /** Joined decimal fields consist of digits and separators only. */
  lemma {:induction false} JoinOfDigits(fields: seq<string>, sep: char)
    requires |fields| >= 1
    requires forall k | 0 <= k < |fields| :: AllDigits(fields[k])
    ensures forall i | 0 <= i < |Join(fields, sep)| :: Join(fields, sep)[i] == sep || IsDigit(Join(fields, sep)[i])
  {
    if |fields| > 1 {
      JoinOfDigits(fields[1..], sep);
    }
  }
}
