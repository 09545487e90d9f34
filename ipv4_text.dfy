/**
 * The IPv4 text grammar of IPParser (a dotted quad of decimal segments),
 * the conversion of such text to its four octets, and the dotted-decimal
 * rendering of four octets.
 */
module IPv4Text {
  import opened Numerals
  import opened BigEndian

  /**
   * One decimal segment. The source's pattern
   * (25[0-5]|(2[0-4]|1{0,1}[0-9]){0,1}[0-9]) has exactly these five shapes:
   * 25[0-5], [0-9], [0-9][0-9], 1[0-9][0-9] and 2[0-4][0-9].
   */
  predicate IsSegment(s: string)
  {
    || (|s| == 3 && s[0] == '2' && s[1] == '5' && '0' <= s[2] <= '5')
    || (|s| == 1 && IsDigit(s[0]))
    || (|s| == 2 && IsDigit(s[0]) && IsDigit(s[1]))
    || (|s| == 3 && s[0] == '1' && IsDigit(s[1]) && IsDigit(s[2]))
    || (|s| == 3 && s[0] == '2' && '0' <= s[1] <= '4' && IsDigit(s[2]))
  }

  lemma DecimalValueOfThree(s: string)
    requires |s| == 3 && AllDigits(s)
    ensures DecimalValue(s) == 100 * DigitValue(s[0]) + 10 * DigitValue(s[1]) + DigitValue(s[2])
  {
    var two := s[..2];
    assert two[..1] == s[..1] && two[1] == s[1];
    DecimalValueOfTwo(two);
  }

  lemma DecimalValueOfTwo(s: string)
    requires |s| == 2 && AllDigits(s)
    ensures DecimalValue(s) == 10 * DigitValue(s[0]) + DigitValue(s[1])
  {
    var one := s[..1];
    assert one[..0] == [] && one[0] == s[0];
    assert DecimalValue(one) == DigitValue(s[0]);
  }

  /**
   * A segment is accepted exactly when it is one to three digits denoting at
   * most 255, without a leading zero in the three-digit case ("01" passes,
   * "001" does not).
   */
  lemma SegmentExactly(s: string)
    ensures IsSegment(s) <==>
      1 <= |s| <= 3 && AllDigits(s) && DecimalValue(s) <= 255 && (|s| == 3 ==> s[0] != '0')
  {
    if |s| == 3 && AllDigits(s) {
      DecimalValueOfThree(s);
    } else if |s| == 2 && AllDigits(s) {
      DecimalValueOfTwo(s);
    }
  }

  lemma RejectedSegments()
    ensures !IsSegment("256") && !IsSegment("999") && !IsSegment("001")
    ensures IsSegment("255") && IsSegment("01") && IsSegment("0")
  {
  }

  /** A whole string of four segments joined by three dots ((segment\.){3}segment). */
  predicate IsIPv4Address(s: string)
  {
    var fields := Split(s, '.');
    |fields| == 4 && forall i | 0 <= i < 4 :: IsSegment(fields[i])
  }

  function SegmentValue(segment: string): Byte
    requires IsSegment(segment)
  {
    SegmentExactly(segment);
    DecimalValue(segment)
  }

  /** The four octets a dotted-decimal address denotes. */
  function Octets(s: string): (b: seq<Byte>)
    requires IsIPv4Address(s)
    ensures |b| == 4
  {
    var fields := Split(s, '.');
    [SegmentValue(fields[0]), SegmentValue(fields[1]), SegmentValue(fields[2]), SegmentValue(fields[3])]
  }

  /** Dotted-decimal text of four octets, each without leading zeros. */
  function Render(b: seq<Byte>): string
    requires |b| == 4
  {
    Join([DecimalText(b[0]), DecimalText(b[1]), DecimalText(b[2]), DecimalText(b[3])], '.')
  }

  /** Every rendering is accepted by the grammar and converts back to the same octets. */
  lemma RenderRoundTrip(b: seq<Byte>)
    requires |b| == 4
    ensures IsIPv4Address(Render(b))
    ensures Octets(Render(b)) == b
  {
    var texts := [DecimalText(b[0]), DecimalText(b[1]), DecimalText(b[2]), DecimalText(b[3])];
    forall i | 0 <= i < 4
      ensures '.' !in texts[i] && IsSegment(texts[i]) && DecimalValue(texts[i]) == b[i]
    {
      DecimalTextRoundTrip(b[i]);
      SegmentExactly(texts[i]);
    }
    SplitJoin(texts, '.');
  }

  /**
   * Any four accepted segments joined by dots, in whichever spelling the
   * grammar admits (such as "01"), form an accepted address whose octets are
   * the segments' decimal values.
   */
  lemma SegmentsTextOctets(f: seq<string>)
    requires |f| == 4 && forall i | 0 <= i < 4 :: IsSegment(f[i])
    ensures IsIPv4Address(Join(f, '.'))
    ensures Octets(Join(f, '.')) ==
      [SegmentValue(f[0]), SegmentValue(f[1]), SegmentValue(f[2]), SegmentValue(f[3])]
  {
    forall i | 0 <= i < 4
      ensures '.' !in f[i]
    {
      SegmentExactly(f[i]);
    }
    SplitJoin(f, '.');
  }

  lemma ExampleJoin()
    ensures Join(["10", "0", "0", "01"], '.') == "10.0.0.01"
  {
    var f := ["10", "0", "0", "01"];
    assert f[1..][1..][1..] == ["01"];
    assert Join(f[1..][1..], '.') == "0.01";
    assert Join(f[1..], '.') == "0.0.01";
  }

  /** A segment with a leading zero converts to its decimal value: "10.0.0.01" is 10.0.0.1. */
  lemma LeadingZeroSegmentExample()
    ensures IsIPv4Address("10.0.0.01")
    ensures Octets("10.0.0.01") == [10, 0, 0, 1]
  {
    var f := ["10", "0", "0", "01"];
    ExampleJoin();
    RejectedSegments();
    SegmentsTextOctets(f);
    assert SegmentValue("10") == 10 by { assert "10"[..1] == "1"; }
    assert SegmentValue("01") == 1 by { assert "01"[..1] == "0"; }
  }

  /** An accepted address consists of digits and dots only; in particular it has no colon. */
  lemma Alphabet(s: string)
    requires IsIPv4Address(s)
    ensures forall i | 0 <= i < |s| :: s[i] == '.' || IsDigit(s[i])
    ensures ':' !in s
  {
    var fields := Split(s, '.');
    forall k | 0 <= k < |fields|
      ensures AllDigits(fields[k])
    {
      SegmentExactly(fields[k]);
    }
    JoinSplit(s, '.');
    JoinOfDigits(fields, '.');
  }
}
