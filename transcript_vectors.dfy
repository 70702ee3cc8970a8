/** The concrete cases of the transcript unit tests, stated about the model. */
module TranscriptVectors {
  import opened Types
  import opened Wrappers
  import opened JsString
  import opened Seqs
  import opened TranscriptUtils

  lemma ParseTimestamp1_30Pieces()
    ensures "1" + "." + "30" == "1.30"
    ensures DigitsValue("1") * 60 + DigitsValue("30") == 90
  {
    assert "1"[..0] == "" && "30"[..1] == "3";
  }

  /** "1.30" is 90 seconds: 1 minute 30 seconds. */
  lemma ParseTimestamp1_30()
    ensures ParseTimestamp("1.30") == 90
  {
    ParseTimestamp1_30Pieces();
    DecimalLabel("1", "30");
  }

  lemma ParseTimestamp12_34Pieces()
    ensures "12" + "." + "34" == "12.34"
    ensures DigitsValue("12") * 60 + DigitsValue("34") == 754
  {
    assert "12"[..1] == "1" && "34"[..1] == "3";
  }

  /** "12.34" is 754 seconds: multi-digit minutes and seconds. */
  lemma ParseTimestamp12_34()
    ensures ParseTimestamp("12.34") == 754
  {
    ParseTimestamp12_34Pieces();
    DecimalLabel("12", "34");
  }

  lemma ParseTimestamp2_60Pieces()
    ensures "2" + "." + "60" == "2.60"
    ensures DigitsValue("2") * 60 + DigitsValue("60") == 180
  {
    assert "2"[..0] == "" && "60"[..1] == "6";
  }

  /** "2.60" is 180 seconds: seconds are not range-checked. */
  lemma ParseTimestamp2_60()
    ensures ParseTimestamp("2.60") == 180
  {
    ParseTimestamp2_60Pieces();
    DecimalLabel("2", "60");
  }

  lemma ParseTimestamp00_05Pieces()
    ensures "00" + "." + "05" == "00.05"
    ensures DigitsValue("00") * 60 + DigitsValue("05") == 5
  {
    assert "00"[..1] == "0" && "05"[..1] == "0";
  }

  /** "00.05" is 5 seconds: leading zeros are read. */
  lemma ParseTimestamp00_05()
    ensures ParseTimestamp("00.05") == 5
  {
    ParseTimestamp00_05Pieces();
    DecimalLabel("00", "05");
  }

  lemma ParseTimestamp1_3Pieces()
    ensures "1" + "." + "3" == "1.3"
    ensures DigitsValue("1") * 60 + DigitsValue("3") == 63
  {
  }

  /** "1.3" is 63 seconds: one-digit seconds are a number, not tenths. */
  lemma ParseTimestamp1_3()
    ensures ParseTimestamp("1.3") == 63
  {
    ParseTimestamp1_3Pieces();
    DecimalLabel("1", "3");
  }

  lemma ParseTimestamp0_5Pieces()
    ensures "0" + "." + "5" == "0.5"
    ensures DigitsValue("0") * 60 + DigitsValue("5") == 5
  {
  }

  /** "0.5" is 5 seconds: one-digit seconds. */
  lemma ParseTimestamp0_5()
    ensures ParseTimestamp("0.5") == 5
  {
    ParseTimestamp0_5Pieces();
    DecimalLabel("0", "5");
  }

  lemma ParseTimestamp0_00Pieces()
    ensures "0" + "." + "00" == "0.00"
    ensures DigitsValue("0") * 60 + DigitsValue("00") == 0
  {
    assert "00"[..1] == "0";
  }

  /** "0.00" is 0 seconds: a genuine zero. */
  lemma ParseTimestamp0_00()
    ensures ParseTimestamp("0.00") == 0
  {
    ParseTimestamp0_00Pieces();
    DecimalLabel("0", "00");
  }

  /** "" is 0 seconds: empty label. */
  lemma ParseTimestampEmpty()
    ensures ParseTimestamp("") == 0
  {
  }

  /** "1." is 0 seconds: empty seconds piece. */
  lemma ParseTimestampNoSeconds()
    ensures ParseTimestamp("1.") == 0
  {
  }

  /** ".30" is 0 seconds: empty minutes piece. */
  lemma ParseTimestampNoMinutes()
    ensures ParseTimestamp(".30") == 0
  {
  }

  /** "200" is 0 seconds: no dot. */
  lemma ParseTimestampNoDot()
    ensures ParseTimestamp("200") == 0
  {
  }

  lemma ParseTimestampNonNumericPieces()
    ensures "xyz" + "." + "50" == "xyz.50"
    ensures '.' !in "xyz" && '.' !in "50"
    ensures ParseInt("xyz") == None
  {
    ParseIntNoDigits("xyz");
  }

  /** "xyz.50" is 0 seconds: non-numeric minutes. */
  lemma ParseTimestampNonNumeric()
    ensures ParseTimestamp("xyz.50") == 0
  {
    ParseTimestampNonNumericPieces();
    NonNumericLabel("xyz", "50");
  }

  // validateTranscriptMessage

  lemma WellFormedPieces()
    ensures "0" + "." + "10" == "0.10"
    ensures DigitsValue("10") == 10
  {
    assert "10"[..1] == "1";
  }

  /** The valid example: "0.10", speaker "A", text "ok". */
  lemma ValidateWellFormed()
    ensures ValidateTranscriptMessage(Some(RawMessage(Some("0.10"), Some("A"), Some("ok")))) == Validation(true, None)
  {
    WellFormedPieces();
    DecimalLabelIsValid("0", "10");
  }

  /** `null` is rejected first. */
  lemma ValidateNull()
    ensures ValidateTranscriptMessage(None) == Validation(false, Some(NullMessageError))
  {
  }

  /** `{}`: the missing timestamp is reported before the other missing fields. */
  lemma ValidateEmptyObject()
    ensures ValidateTranscriptMessage(Some(RawMessage(None, None, None))) == Validation(false, Some(TimestampFieldError))
  {
  }

  /** A numeric speaker is not a string. */
  lemma ValidateNumericSpeaker()
    ensures ValidateTranscriptMessage(Some(RawMessage(Some("0.05"), None, Some("t")))) == Validation(false, Some(SpeakerFieldError))
  {
  }

  /** A numeric text is not a string. */
  lemma ValidateNumericText()
    ensures ValidateTranscriptMessage(Some(RawMessage(Some("0.05"), Some("A"), None))) == Validation(false, Some(TextFieldError))
  {
  }

  lemma NonNumericPieces()
    ensures "a" + "." + "10" == "a.10"
    ensures '.' !in "a" && '.' !in "10"
  {
  }

  lemma LetterIsNotANumber()
    ensures ParseInt("a") == None
  {
    ParseIntNoDigits("a");
  }

  /** "a.10": the minutes piece is not a number. */
  lemma ValidateNonNumeric()
    ensures ValidateTranscriptMessage(Some(RawMessage(Some("a.10"), Some("A"), Some("t")))) == Validation(false, Some(NonNumericError))
  {
    var message := Some(RawMessage(Some("a.10"), Some("A"), Some("t")));
    assert ValidateTranscriptMessage(message) == CheckTimestamp("a.10");
    NonNumericDotTen();
  }

  lemma NonNumericDotTen()
    ensures CheckTimestamp("a.10") == Validation(false, Some(NonNumericError))
  {
    NonNumericPieces();
    LetterIsNotANumber();
    PiecesRejected("a", "10");
  }

  lemma SecondsOutOfRangePieces()
    ensures "1" + "." + "60" == "1.60"
    ensures DigitsValue("60") == 60
  {
    assert "60"[..1] == "6";
  }

  /** "1.60": sixty seconds is out of range. */
  lemma ValidateSecondsOutOfRange()
    ensures ValidateTranscriptMessage(Some(RawMessage(Some("1.60"), Some("A"), Some("t")))) == Validation(false, Some(SecondsRangeError))
  {
    SecondsOutOfRangePieces();
    SecondsOutOfRangeRejected("1", "60");
  }

  /** "1.2.3": more than one dot. */
  lemma ValidateTwoDots()
    ensures ValidateTranscriptMessage(Some(RawMessage(Some("1.2.3"), Some("A"), Some("ok")))) == Validation(false, Some(TimestampFormatError))
  {
  }

  // The three-message transcript of the other unit tests

  const Sample: seq<TranscriptMessage> := [
    TranscriptMessage("0.05", "A", "hello"),
    TranscriptMessage("1.00", "B", "hi"),
    TranscriptMessage("2.30", "C", "hey")
  ]

  lemma ParseTimestamp0_05Pieces()
    ensures "0" + "." + "05" == "0.05"
    ensures DigitsValue("0") * 60 + DigitsValue("05") == 5
  {
    assert "05"[..1] == "0";
  }

  /** "0.05" is 5 seconds. */
  lemma ParseTimestamp0_05()
    ensures ParseTimestamp("0.05") == 5
  {
    ParseTimestamp0_05Pieces();
    DecimalLabel("0", "05");
  }

  lemma ParseTimestamp1_00Pieces()
    ensures "1" + "." + "00" == "1.00"
    ensures DigitsValue("1") * 60 + DigitsValue("00") == 60
  {
    assert "00"[..1] == "0";
  }

  /** "1.00" is 60 seconds. */
  lemma ParseTimestamp1_00()
    ensures ParseTimestamp("1.00") == 60
  {
    ParseTimestamp1_00Pieces();
    DecimalLabel("1", "00");
  }

  lemma ParseTimestamp2_30Pieces()
    ensures "2" + "." + "30" == "2.30"
    ensures DigitsValue("2") * 60 + DigitsValue("30") == 150
  {
    assert "30"[..1] == "3";
  }

  /** "2.30" is 150 seconds. */
  lemma ParseTimestamp2_30()
    ensures ParseTimestamp("2.30") == 150
  {
    ParseTimestamp2_30Pieces();
    DecimalLabel("2", "30");
  }

  /** Three messages at 5, 60 and 150 seconds, as in the sample. */
  predicate AtSampleTimes(m0: TranscriptMessage, m1: TranscriptMessage, m2: TranscriptMessage) {
    && ParseTimestamp(m0.timestamp) == 5
    && ParseTimestamp(m1.timestamp) == 60
    && ParseTimestamp(m2.timestamp) == 150
  }

  /** `getMessagesUpToTime(messages, 0)`: nothing yet. */
  lemma UpTo0(m0: TranscriptMessage, m1: TranscriptMessage, m2: TranscriptMessage)
    requires AtSampleTimes(m0, m1, m2)
    ensures MessagesUpToTime([m0, m1, m2], 0.0, 0) == Batch([], 0)
  {
    assert !DueAt(0.0)(m0);
  }

  /** `getMessagesUpToTime(messages, 5)`: the first message, due exactly then. */
  lemma UpTo5(m0: TranscriptMessage, m1: TranscriptMessage, m2: TranscriptMessage)
    requires AtSampleTimes(m0, m1, m2)
    ensures MessagesUpToTime([m0, m1, m2], 5.0, 0) == Batch([m0], 1)
  {
    var all, due := [m0, m1, m2], DueAt(5.0);
    assert due(m0) && !due(m1);
    assert ScanEnd(all, due, 1) == 1;
    assert all[0..1] == [m0];
  }

  /** `getMessagesUpToTime(messages, 60)`: the first two messages. */
  lemma UpTo60(m0: TranscriptMessage, m1: TranscriptMessage, m2: TranscriptMessage)
    requires AtSampleTimes(m0, m1, m2)
    ensures MessagesUpToTime([m0, m1, m2], 60.0, 0) == Batch([m0, m1], 2)
  {
    var all, due := [m0, m1, m2], DueAt(60.0);
    assert due(m0) && due(m1) && !due(m2);
    assert ScanEnd(all, due, 2) == 2;
    assert all[0..2] == [m0, m1];
  }

  /** `getMessagesUpToTime(messages, 200, 1)`: the remaining two, and the cursor at the end. */
  lemma UpTo200From1(m0: TranscriptMessage, m1: TranscriptMessage, m2: TranscriptMessage)
    requires AtSampleTimes(m0, m1, m2)
    ensures MessagesUpToTime([m0, m1, m2], 200.0, 1) == Batch([m1, m2], 3)
  {
    var all, due := [m0, m1, m2], DueAt(200.0);
    assert due(m1) && due(m2);
    assert ScanEnd(all, due, 3) == 3;
    assert ScanEnd(all, due, 2) == 3;
    assert all[1..3] == [m1, m2];
  }

  /** `getTimeUntilNextMessage(messages, 66, 0)`: the first message is past, so 0. */
  lemma TimeUntilPast(m0: TranscriptMessage, m1: TranscriptMessage, m2: TranscriptMessage)
    requires AtSampleTimes(m0, m1, m2)
    ensures GetTimeUntilNextMessage([m0, m1, m2], 66.0, 0) == Some(0.0)
  {
  }

  /** `getTimeUntilNextMessage(messages, 50, 1)`: the second message is 10 seconds ahead. */
  lemma TimeUntilAhead(m0: TranscriptMessage, m1: TranscriptMessage, m2: TranscriptMessage)
    requires AtSampleTimes(m0, m1, m2)
    ensures GetTimeUntilNextMessage([m0, m1, m2], 50.0, 1) == Some(10.0)
  {
  }

  /** `getTimeUntilNextMessage(messages, 0, 3)`: no message left. */
  lemma TimeUntilEnd(m0: TranscriptMessage, m1: TranscriptMessage, m2: TranscriptMessage)
    ensures GetTimeUntilNextMessage([m0, m1, m2], 0.0, 3) == None
  {
  }

  /** `filterMessagesByTimeRange` over [6, 150]: the last two messages. */
  lemma RangeHoldsLastTwo(m0: TranscriptMessage, m1: TranscriptMessage, m2: TranscriptMessage)
    requires AtSampleTimes(m0, m1, m2)
    ensures FilterMessagesByTimeRange([m0, m1, m2], 6.0, 150.0) == [m1, m2]
  {
    var inRange := InRange(6.0, 150.0);
    assert !inRange(m0) && inRange(m1) && inRange(m2);
    FilterThree(m0, m1, m2, inRange);
  }

  /** `filterMessagesByTimeRange` over [151, 200]: nothing. */
  lemma RangeHoldsNothing(m0: TranscriptMessage, m1: TranscriptMessage, m2: TranscriptMessage)
    requires AtSampleTimes(m0, m1, m2)
    ensures FilterMessagesByTimeRange([m0, m1, m2], 151.0, 200.0) == []
  {
    var inRange := InRange(151.0, 200.0);
    assert !inRange(m0) && !inRange(m1) && !inRange(m2);
    FilterThree(m0, m1, m2, inRange);
  }

  lemma FilterThree<T(!new)>(a: T, b: T, c: T, p: T -> bool)
    ensures Filter([a, b, c], p) ==
            (if p(a) then [a] else []) + ((if p(b) then [b] else []) + (if p(c) then [c] else []))
  {
    assert [a, b, c][1..] == [b, c] && [b, c][1..] == [c] && [c][1..] == [];
    var last := Filter([c], p);
    assert last == (if p(c) then [c] else []);
    var tail := Filter([b, c], p);
    assert tail == (if p(b) then [b] else []) + last;
  }

  /** The sample transcript of the unit tests meets the cases above. */
  lemma SampleCases()
    ensures Sample == [Sample[0], Sample[1], Sample[2]]
    ensures AtSampleTimes(Sample[0], Sample[1], Sample[2])
  {
    ParseTimestamp0_05();
    ParseTimestamp1_00();
    ParseTimestamp2_30();
  }

  /** `getMessagesUpToTime([], 100)`. */
  lemma EmptyUpTo100()
    ensures MessagesUpToTime([], 100.0, 0) == Batch([], 0)
  {
  }

  /** `shouldShowMessage` on "1.30" at 90 and 89 seconds. */
  lemma ShowAt90()
    ensures ShouldShowMessage(TranscriptMessage("1.30", "X", "t"), 90.0)
    ensures !ShouldShowMessage(TranscriptMessage("1.30", "X", "t"), 89.0)
  {
    ParseTimestamp1_30();
  }

  /** `getNextMessage` at 0, 2 and past the end. */
  lemma SampleNext()
    ensures GetNextMessage(Sample, 0) == Some(Sample[0])
    ensures GetNextMessage(Sample, 2) == Some(Sample[2])
    ensures GetNextMessage(Sample, 3) == None
  {
  }

  /** `getTranscriptProgress` at 2 of 4, 0 of 0 and 5 of 4. */
  lemma ProgressExamples()
    ensures GetTranscriptProgress(2, 4) == 50.0
    ensures GetTranscriptProgress(0, 0) == 0.0
    ensures GetTranscriptProgress(5, 4) == 100.0
  {
  }
}
