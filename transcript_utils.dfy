/**
 * Radio transcript helpers: "M.SS" timestamp labels, the playback cursor that
 * releases messages as time advances, and small queries over the message list.
 * Playback times are real numbers of seconds; parsed timestamps are integers.
 */
module TranscriptUtils {
  import opened Wrappers
  import opened Types
  import opened JsString
  import opened Seqs

  // ---------------------------------------------------------------------------
  // Timestamp labels

  /** `minutes * 60 + seconds` when both parts parsed, else 0. */
  function Combine(minutes: Option<int>, seconds: Option<int>): (total: int) {
    if minutes.Some? && seconds.Some? then minutes.value * 60 + seconds.value else 0
  }

  /**
   * `parseTimestamp(timestamp)`: split at ".", demand exactly two pieces, read
   * each with `parseInt`; any failure gives 0. Seconds are not range-checked.
   */
  function ParseTimestamp(timestamp: string): (total: int) {
    var parts := Split(timestamp, '.');
    if |parts| != 2 then 0 else Combine(ParseInt(parts[0]), ParseInt(parts[1]))
  }

  /**
   * Minutes and in-range seconds are recovered from the total: the reading of
   * an "M.SS" label with seconds in 0..59 loses nothing.
   */
  lemma CombineDecomposes(minutes: int, seconds: int)
    requires 0 <= seconds < 60
    ensures var total := Combine(Some(minutes), Some(seconds));
      total / 60 == minutes && total % 60 == seconds
  {
    var total := minutes * 60 + seconds;
    assert total == 60 * minutes + seconds;
  }

  /** A label with no dot, or with more than one, parses to 0. */
  lemma ParseTimestampNeedsOneDot(timestamp: string)
    requires multiset(timestamp)['.'] != 1
    ensures ParseTimestamp(timestamp) == 0
  {
    SplitCount(timestamp, '.');
  }

  /** A label with one dot is read piece by piece: minutes before the dot, seconds after it. */
  lemma ParseTimestampOfPieces(minutes: string, seconds: string)
    requires '.' !in minutes && '.' !in seconds
    ensures ParseTimestamp(minutes + "." + seconds) == Combine(ParseInt(minutes), ParseInt(seconds))
  {
    SplitTwo(minutes, '.', seconds);
    assert minutes + "." + seconds == minutes + ['.'] + seconds;
  }

  /** A piece `parseInt` cannot read makes the whole label 0. */
  lemma NonNumericLabel(minutes: string, seconds: string)
    requires '.' !in minutes && '.' !in seconds
    requires ParseInt(minutes).None? || ParseInt(seconds).None?
    ensures ParseTimestamp(minutes + "." + seconds) == 0
  {
    ParseTimestampOfPieces(minutes, seconds);
  }

  /** Every label with exactly one dot has that shape. */
  lemma OneDotLabel(timestamp: string)
    requires multiset(timestamp)['.'] == 1
    ensures exists minutes, seconds :: '.' !in minutes && '.' !in seconds && timestamp == minutes + "." + seconds
  {
    SplitCount(timestamp, '.');
    SplitJoin(timestamp, '.');
    SplitPiecesAvoidSeparator(timestamp, '.');
    var parts := Split(timestamp, '.');
    assert Join(parts, '.') == parts[0] + ['.'] + Join(parts[1..], '.');
    assert timestamp == parts[0] + "." + parts[1];
  }

  /** The canonical "M.SS" label: minutes in decimal, a dot, seconds as two digits. */
  function FormatTimestamp(minutes: nat, seconds: nat): (stamp: string)
    requires seconds < 60
  {
    ToDecimal(minutes) + "." + PadSeconds(seconds)
  }

  /** The seconds of a canonical label, zero-padded to two digits. */
  function PadSeconds(seconds: nat): (padded: string)
    requires seconds < 60
  {
    if seconds < 10 then "0" + ToDecimal(seconds) else ToDecimal(seconds)
  }

  /** Parsing a canonical label gives back its number of seconds. */
  lemma ParseFormattedTimestamp(minutes: nat, seconds: nat)
    requires seconds < 60
    ensures ParseTimestamp(FormatTimestamp(minutes, seconds)) == 60 * minutes + seconds
  {
    var m := ToDecimal(minutes);
    ReadNumeral(m);
    NumeralHasNoDot(m);
    ReadPaddedSeconds(seconds);
    ParseTimestampOfPieces(m, PadSeconds(seconds));
  }

  lemma NumeralHasNoDot(d: string)
    requires AllDigits(d)
    ensures '.' !in d
  {
  }

  lemma ReadPaddedSeconds(seconds: nat)
    requires seconds < 60
    ensures '.' !in PadSeconds(seconds)
    ensures ParseInt(PadSeconds(seconds)) == Some(seconds)
  {
    var d := ToDecimal(seconds);
    LeadingZero(d);
    var s := PadSeconds(seconds);
    assert AllDigits(s) && DigitsValue(s) == seconds;
    assert '.' !in s;
    ReadNumeral(s);
  }

  /** A label made of two decimal numerals reads as minutes and seconds. */
  lemma DecimalLabel(minutes: string, seconds: string)
    requires minutes != [] && AllDigits(minutes) && seconds != [] && AllDigits(seconds)
    ensures ParseTimestamp(minutes + "." + seconds) == DigitsValue(minutes) * 60 + DigitsValue(seconds)
  {
    ReadNumeral(minutes);
    ReadNumeral(seconds);
    ParseTimestampOfPieces(minutes, seconds);
  }

  // ---------------------------------------------------------------------------
  // Validating a message read from an untyped source

  const NullMessageError := "Message is null or undefined"
  const TimestampFieldError := "Invalid or missing timestamp"
  const SpeakerFieldError := "Invalid or missing speaker"
  const TextFieldError := "Invalid or missing text"
  const TimestampFormatError := "Timestamp must be in M.SS format"
  const NonNumericError := "Timestamp contains non-numeric values"
  const SecondsRangeError := "Seconds must be between 0 and 59"

  /**
   * A message as it may arrive from JSON: each field is `Some` when it holds a
   * string and `None` when it is missing or holds a value of another type.
   */
  datatype RawMessage = RawMessage(timestamp: Option<string>, speaker: Option<string>, text: Option<string>)

  /** The field holds a non-empty string (a truthy string in JavaScript). */
  predicate IsFilled(field: Option<string>) {
    field.Some? && field.value != ""
  }

  /**
   * The timestamp rule of the validator, stated without `split`: exactly one
   * dot, a `parseInt`-readable piece before it and a readable piece after it
   * whose value lies in 0..59.
   */
  ghost predicate IsMssLabel(timestamp: string) {
    exists minutes, seconds ::
      '.' !in minutes && '.' !in seconds && timestamp == minutes + "." + seconds &&
      ParseInt(minutes).Some? && ParseInt(seconds).Some? && 0 <= ParseInt(seconds).value < 60
  }

  /** The numeric checks of the validator on the two parsed pieces. */
  function CheckPieces(minutes: Option<int>, seconds: Option<int>): (v: Validation) {
    if minutes.None? || seconds.None? then Validation(false, Some(NonNumericError))
    else if seconds.value < 0 || seconds.value >= 60 then Validation(false, Some(SecondsRangeError))
    else Validation(true, None)
  }

  /** The format checks of `validateTranscriptMessage` on a non-empty timestamp string. */
  function CheckTimestamp(timestamp: string): (v: Validation) {
    var parts := Split(timestamp, '.');
    if |parts| != 2 then Validation(false, Some(TimestampFormatError))
    else CheckPieces(ParseInt(parts[0]), ParseInt(parts[1]))
  }

  /** A label with no dot, or with more than one, is not in "M.SS" format. */
  lemma CheckTimestampNeedsOneDot(timestamp: string)
    requires multiset(timestamp)['.'] != 1
    ensures CheckTimestamp(timestamp) == Validation(false, Some(TimestampFormatError))
  {
    SplitCount(timestamp, '.');
  }

  /**
   * The numeric checks on a one-dot label: a piece `parseInt` cannot read is
   * reported as non-numeric, and readable seconds outside 0..59 as out of range.
   */
  lemma PiecesRejected(minutes: string, seconds: string)
    requires '.' !in minutes && '.' !in seconds
    ensures ParseInt(minutes).None? || ParseInt(seconds).None? ==>
      CheckTimestamp(minutes + "." + seconds) == Validation(false, Some(NonNumericError))
    ensures ParseInt(minutes).Some? && ParseInt(seconds).Some? && !(0 <= ParseInt(seconds).value < 60) ==>
      CheckTimestamp(minutes + "." + seconds) == Validation(false, Some(SecondsRangeError))
  {
    CheckTimestampOfPieces(minutes, seconds);
  }

  /** A split into exactly two pieces puts the label back together around its one dot. */
  lemma TwoPieces(timestamp: string)
    requires |Split(timestamp, '.')| == 2
    ensures var parts := Split(timestamp, '.');
      '.' !in parts[0] && '.' !in parts[1] && timestamp == parts[0] + "." + parts[1]
  {
    SplitJoin(timestamp, '.');
    SplitPiecesAvoidSeparator(timestamp, '.');
    var parts := Split(timestamp, '.');
    assert Join(parts, '.') == parts[0] + ['.'] + Join(parts[1..], '.');
  }

  /** A label with one dot is checked piece by piece. */
  lemma CheckTimestampOfPieces(minutes: string, seconds: string)
    requires '.' !in minutes && '.' !in seconds
    ensures CheckTimestamp(minutes + "." + seconds) == CheckPieces(ParseInt(minutes), ParseInt(seconds))
  {
    SplitTwo(minutes, '.', seconds);
    assert minutes + "." + seconds == minutes + ['.'] + seconds;
  }

  /** The split-based checks accept exactly the "M.SS" labels. */
  lemma CheckTimestampAcceptsMss(timestamp: string)
    ensures CheckTimestamp(timestamp).isValid <==> IsMssLabel(timestamp)
  {
    if CheckTimestamp(timestamp).isValid {
      AcceptedIsMss(timestamp);
    }
    if IsMssLabel(timestamp) {
      MssIsAccepted(timestamp);
    }
  }

  lemma AcceptedIsMss(timestamp: string)
    requires CheckTimestamp(timestamp).isValid
    ensures IsMssLabel(timestamp)
  {
    var parts := Split(timestamp, '.');
    TwoPieces(timestamp);
    var minutes, seconds := parts[0], parts[1];
    assert '.' !in minutes && '.' !in seconds && timestamp == minutes + "." + seconds;
    assert ParseInt(minutes).Some? && ParseInt(seconds).Some? && 0 <= ParseInt(seconds).value < 60;
  }

  lemma MssIsAccepted(timestamp: string)
    requires IsMssLabel(timestamp)
    ensures CheckTimestamp(timestamp).isValid
  {
    var minutes, seconds :| '.' !in minutes && '.' !in seconds && timestamp == minutes + "." + seconds &&
      ParseInt(minutes).Some? && ParseInt(seconds).Some? && 0 <= ParseInt(seconds).value < 60;
    ReadablePieces(minutes, seconds);
  }

  /**
   * `validateTranscriptMessage(message)`: the first failing check names the
   * error; `message` is `None` for `null` and `undefined`.
   */
  function ValidateTranscriptMessage(message: Option<RawMessage>): (r: Validation)
    ensures r.isValid <==> r.error.None?
    ensures message.None? ==> r.error == Some(NullMessageError)
    ensures message.Some? && !IsFilled(message.value.timestamp) ==> r.error == Some(TimestampFieldError)
    ensures message.Some? && IsFilled(message.value.timestamp) && !IsFilled(message.value.speaker) ==>
      r.error == Some(SpeakerFieldError)
    ensures (message.Some? && IsFilled(message.value.timestamp) && IsFilled(message.value.speaker) &&
             !IsFilled(message.value.text)) ==> r.error == Some(TextFieldError)
    ensures (message.Some? && IsFilled(message.value.timestamp) && IsFilled(message.value.speaker) &&
             IsFilled(message.value.text)) ==> r == CheckTimestamp(message.value.timestamp.value)
    ensures r.isValid <==>
      message.Some? && IsFilled(message.value.timestamp) && IsFilled(message.value.speaker) &&
      IsFilled(message.value.text) && IsMssLabel(message.value.timestamp.value)
  {
    if message.None? then Validation(false, Some(NullMessageError))
    else if !IsFilled(message.value.timestamp) then Validation(false, Some(TimestampFieldError))
    else if !IsFilled(message.value.speaker) then Validation(false, Some(SpeakerFieldError))
    else if !IsFilled(message.value.text) then Validation(false, Some(TextFieldError))
    else
      var timestamp := message.value.timestamp.value;
      CheckTimestampAcceptsMss(timestamp);
      CheckTimestamp(timestamp)
  }

  /**
   * A valid message's timestamp is read by `parseTimestamp` as whole minutes
   * and a seconds part in 0..59, so its value determines both.
   */
  lemma ValidMessageTime(message: Option<RawMessage>)
    requires ValidateTranscriptMessage(message).isValid
    ensures var timestamp := message.value.timestamp.value;
      exists minutes, seconds ::
        '.' !in minutes && '.' !in seconds && timestamp == minutes + "." + seconds &&
        ParseInt(minutes).Some? && ParseInt(seconds).Some? && 0 <= ParseInt(seconds).value < 60 &&
        ParseTimestamp(timestamp) == ParseInt(minutes).value * 60 + ParseInt(seconds).value
  {
    MssLabelTime(message.value.timestamp.value);
  }

  lemma MssLabelTime(timestamp: string)
    requires IsMssLabel(timestamp)
    ensures exists minutes, seconds ::
      '.' !in minutes && '.' !in seconds && timestamp == minutes + "." + seconds &&
      ParseInt(minutes).Some? && ParseInt(seconds).Some? && 0 <= ParseInt(seconds).value < 60 &&
      ParseTimestamp(timestamp) == ParseInt(minutes).value * 60 + ParseInt(seconds).value
  {
    var minutes, seconds :| '.' !in minutes && '.' !in seconds && timestamp == minutes + "." + seconds &&
      ParseInt(minutes).Some? && ParseInt(seconds).Some? && 0 <= ParseInt(seconds).value < 60;
    ParseTimestampOfPieces(minutes, seconds);
  }

  /** A message with a canonical label and non-empty speaker and text is valid. */
  lemma FormattedMessageIsValid(minutes: nat, seconds: nat, speaker: string, text: string)
    requires seconds < 60 && speaker != "" && text != ""
    ensures ValidateTranscriptMessage(Some(RawMessage(Some(FormatTimestamp(minutes, seconds)), Some(speaker), Some(text)))).isValid
  {
    var m := ToDecimal(minutes);
    ReadNumeral(m);
    NumeralHasNoDot(m);
    ReadPaddedSeconds(seconds);
    CheckTimestampOfPieces(m, PadSeconds(seconds));
  }

  /** Decimal seconds of 60 or more are reported as out of range. */
  lemma SecondsOutOfRangeRejected(minutes: string, seconds: string)
    requires minutes != [] && AllDigits(minutes) && seconds != [] && AllDigits(seconds)
    requires DigitsValue(seconds) >= 60
    ensures CheckTimestamp(minutes + "." + seconds) == Validation(false, Some(SecondsRangeError))
  {
    ReadNumeral(minutes);
    ReadNumeral(seconds);
    NumeralHasNoDot(minutes);
    NumeralHasNoDot(seconds);
    PiecesRejected(minutes, seconds);
  }

  /** A label of two decimal numerals with seconds below 60 passes the timestamp checks. */
  lemma DecimalLabelIsValid(minutes: string, seconds: string)
    requires minutes != [] && AllDigits(minutes) && seconds != [] && AllDigits(seconds)
    requires DigitsValue(seconds) < 60
    ensures CheckTimestamp(minutes + "." + seconds).isValid
  {
    ReadNumeral(minutes);
    ReadNumeral(seconds);
    NumeralHasNoDot(minutes);
    NumeralHasNoDot(seconds);
    ReadablePieces(minutes, seconds);
  }

  /** Two dot-free pieces `parseInt` reads pass the checks when the seconds lie in 0..59. */
  lemma ReadablePieces(minutes: string, seconds: string)
    requires '.' !in minutes && '.' !in seconds
    requires ParseInt(minutes).Some? && ParseInt(seconds).Some? && 0 <= ParseInt(seconds).value < 60
    ensures CheckTimestamp(minutes + "." + seconds).isValid
  {
    CheckTimestampOfPieces(minutes, seconds);
  }

  // ---------------------------------------------------------------------------
  // Releasing messages as playback advances

  /** `shouldShowMessage(message, currentTime)`: the message's time has come. */
  predicate ShouldShowMessage(message: TranscriptMessage, currentTime: real) {
    currentTime >= ParseTimestamp(message.timestamp) as real
  }

  /** Once shown, a message stays shown as playback time advances. */
  lemma ShouldShowMonotone(message: TranscriptMessage, t1: real, t2: real)
    requires t1 <= t2 && ShouldShowMessage(message, t1)
    ensures ShouldShowMessage(message, t2)
  {
  }

  /** `ShouldShowMessage` at a fixed playback time, as a predicate on messages. */
  function DueAt(currentTime: real): (due: TranscriptMessage -> bool)
    ensures forall m :: due(m) == ShouldShowMessage(m, currentTime)
  {
    (m: TranscriptMessage) => ShouldShowMessage(m, currentTime)
  }

  /**
   * Where the cursor stops when it starts at `index`: the first position at or
   * after `index` whose message is not `due`, or the end of the list.
   */
  function ScanEnd(allMessages: seq<TranscriptMessage>, due: TranscriptMessage -> bool, index: nat): (stop: nat)
    ensures index <= stop
    ensures index <= |allMessages| ==> stop <= |allMessages|
    ensures index > |allMessages| ==> stop == index
    ensures forall j :: index <= j < stop ==> due(allMessages[j])
    ensures stop < |allMessages| ==> !due(allMessages[stop])
    decreases |allMessages| - index
  {
    if index < |allMessages| && due(allMessages[index]) then ScanEnd(allMessages, due, index + 1)
    else index
  }

  /** What one call of the cursor scan returns: the released messages and where the cursor now stands. */
  datatype Batch = Batch(messages: seq<TranscriptMessage>, newIndex: nat)

  /** The batch `getMessagesUpToTime(allMessages, currentTime, previousIndex)` returns. */
  function MessagesUpToTime(allMessages: seq<TranscriptMessage>, currentTime: real, previousIndex: nat): (batch: Batch) {
    var stop := ScanEnd(allMessages, DueAt(currentTime), previousIndex);
    if previousIndex <= |allMessages| then Batch(allMessages[previousIndex..stop], stop)
    else Batch([], stop)
  }

  /**
   * What the batch promises: the cursor never moves back, the messages
   * released are exactly those it passed, each is due, and the message it
   * stops at is not.
   */
  lemma MessagesUpToTimeReleasesDue(allMessages: seq<TranscriptMessage>, currentTime: real, previousIndex: nat)
    ensures var b := MessagesUpToTime(allMessages, currentTime, previousIndex);
      && previousIndex <= b.newIndex
      && (previousIndex <= |allMessages| ==>
            b.newIndex <= |allMessages| && b.messages == allMessages[previousIndex..b.newIndex])
      && (previousIndex > |allMessages| ==> b == Batch([], previousIndex))
      && (forall j :: 0 <= j < |b.messages| ==> ShouldShowMessage(b.messages[j], currentTime))
      && (b.newIndex < |allMessages| ==> !ShouldShowMessage(allMessages[b.newIndex], currentTime))
  {
  }

  /** `getMessagesUpToTime`: advance the cursor over every due message, stopping at the first one still in the future. */
  method GetMessagesUpToTime(allMessages: seq<TranscriptMessage>, currentTime: real, previousIndex: nat)
    returns (messages: seq<TranscriptMessage>, newIndex: nat)
    ensures Batch(messages, newIndex) == MessagesUpToTime(allMessages, currentTime, previousIndex)
  {
    ghost var due := DueAt(currentTime);
    messages := [];
    var index := previousIndex;
    while index < |allMessages|
      invariant previousIndex <= index
      invariant previousIndex <= |allMessages| ==>
                  index <= |allMessages| && messages == allMessages[previousIndex..index]
      invariant previousIndex > |allMessages| ==> index == previousIndex && messages == []
      invariant ScanEnd(allMessages, due, index) == ScanEnd(allMessages, due, previousIndex)
      decreases |allMessages| - index
    {
      var message := allMessages[index];
      var messageTimestamp := ParseTimestamp(message.timestamp);
      if currentTime >= messageTimestamp as real {
        assert due(message);
        assert allMessages[previousIndex..index + 1] == allMessages[previousIndex..index] + [message];
        messages := messages + [message];
        index := index + 1;
      } else {
        assert !due(message);
        break;
      }
    }
    newIndex := index;
    assert ScanEnd(allMessages, due, index) == index;
  }

  /** Scanning over messages that are all due lands where scanning from after them lands. */
  lemma {:induction false} ScanEndSkipsDue(allMessages: seq<TranscriptMessage>, due: TranscriptMessage -> bool, lo: nat, hi: nat)
    requires lo <= hi <= |allMessages|
    requires forall j :: lo <= j < hi ==> due(allMessages[j])
    ensures ScanEnd(allMessages, due, lo) == ScanEnd(allMessages, due, hi)
    decreases hi - lo
  {
    if lo < hi {
      ScanEndSkipsDue(allMessages, due, lo + 1, hi);
    }
  }

  /**
   * Resuming the scan: a call at time `t1` followed by a call at a later time
   * `t2` from the returned cursor releases, in total, exactly what one call at
   * `t2` releases, and leaves the cursor at the same place.
   */
  lemma Resumable(allMessages: seq<TranscriptMessage>, t1: real, t2: real, previousIndex: nat)
    requires t1 <= t2
    ensures var first := MessagesUpToTime(allMessages, t1, previousIndex);
            var second := MessagesUpToTime(allMessages, t2, first.newIndex);
            var whole := MessagesUpToTime(allMessages, t2, previousIndex);
            first.messages + second.messages == whole.messages && second.newIndex == whole.newIndex
  {
    if previousIndex <= |allMessages| {
      StillDue(t1, t2);
      ScanResumes(allMessages, DueAt(t1), DueAt(t2), previousIndex);
    }
  }

  /** What is due at `t1` is still due at a later `t2`. */
  lemma StillDue(t1: real, t2: real)
    requires t1 <= t2
    ensures forall m :: DueAt(t1)(m) ==> DueAt(t2)(m)
  {
    forall m | DueAt(t1)(m)
      ensures DueAt(t2)(m)
    {
      ShouldShowMonotone(m, t1, t2);
    }
  }

  /**
   * Scanning with `early` and then resuming with a weaker `late` ends where
   * one scan with `late` ends, and the two stretches passed make up the one.
   */
  lemma ScanResumes(allMessages: seq<TranscriptMessage>, early: TranscriptMessage -> bool, late: TranscriptMessage -> bool, lo: nat)
    requires lo <= |allMessages|
    requires forall m :: early(m) ==> late(m)
    ensures var mid := ScanEnd(allMessages, early, lo);
            var stop := ScanEnd(allMessages, late, mid);
            && ScanEnd(allMessages, late, lo) == stop
            && allMessages[lo..mid] + allMessages[mid..stop] == allMessages[lo..stop]
  {
    var mid := ScanEnd(allMessages, early, lo);
    ScanEndSkipsDue(allMessages, late, lo, mid);
  }

  /** Messages in playback order: parsed timestamps never decrease. */
  ghost predicate IsChronological(allMessages: seq<TranscriptMessage>) {
    forall i, j :: 0 <= i < j < |allMessages| ==>
      ParseTimestamp(allMessages[i].timestamp) <= ParseTimestamp(allMessages[j].timestamp)
  }

  /** `due` never holds after a message for which it fails. */
  ghost predicate DueInOrder(allMessages: seq<TranscriptMessage>, due: TranscriptMessage -> bool) {
    forall i, j :: 0 <= i < j < |allMessages| && due(allMessages[j]) ==> due(allMessages[i])
  }

  /** On a chronological transcript the messages due at any time come first. */
  lemma ChronologicalDueInOrder(allMessages: seq<TranscriptMessage>, currentTime: real)
    requires IsChronological(allMessages)
    ensures DueInOrder(allMessages, DueAt(currentTime))
  {
    forall i, j | 0 <= i < j < |allMessages| && DueAt(currentTime)(allMessages[j])
      ensures DueAt(currentTime)(allMessages[i])
    {
      assert ParseTimestamp(allMessages[i].timestamp) <= ParseTimestamp(allMessages[j].timestamp);
    }
  }

  /** When the due messages come first, a scan from the start releases exactly the due messages. */
  lemma ScanReleasesAllDue(allMessages: seq<TranscriptMessage>, due: TranscriptMessage -> bool)
    requires DueInOrder(allMessages, due)
    ensures allMessages[..ScanEnd(allMessages, due, 0)] == Filter(allMessages, due)
  {
    var stop := ScanEnd(allMessages, due, 0);
    forall i | stop < i < |allMessages|
      ensures !due(allMessages[i])
    {
    }
    FilterPrefix(allMessages, due, stop);
  }

  /**
   * On a chronological transcript the early stop loses nothing: a scan from
   * the start releases exactly the messages that are due.
   */
  lemma ChronologicalScanReleasesAllDue(allMessages: seq<TranscriptMessage>, currentTime: real)
    requires IsChronological(allMessages)
    ensures MessagesUpToTime(allMessages, currentTime, 0).messages == Filter(allMessages, DueAt(currentTime))
  {
    ChronologicalDueInOrder(allMessages, currentTime);
    ScanReleasesAllDue(allMessages, DueAt(currentTime));
    assert allMessages[0..ScanEnd(allMessages, DueAt(currentTime), 0)] ==
           allMessages[..ScanEnd(allMessages, DueAt(currentTime), 0)];
  }

  // ---------------------------------------------------------------------------
  // Queries over the message list

  /** `getNextMessage(allMessages, currentIndex)`: the message under the cursor, if any. */
  function GetNextMessage(allMessages: seq<TranscriptMessage>, currentIndex: int): (r: Option<TranscriptMessage>)
    ensures r.None? <==> currentIndex >= |allMessages| || currentIndex < 0
    ensures r.Some? ==> r.value == allMessages[currentIndex]
  {
    if currentIndex >= |allMessages| || currentIndex < 0 then None else Some(allMessages[currentIndex])
  }

  /**
   * `getTimeUntilNextMessage(allMessages, currentTime, currentIndex)`: how long
   * until the message under the cursor is due; 0 once it is due, absent at the end.
   */
  function GetTimeUntilNextMessage(allMessages: seq<TranscriptMessage>, currentTime: real, currentIndex: int): (r: Option<real>)
    ensures r.None? <==> GetNextMessage(allMessages, currentIndex).None?
    ensures r.Some? ==> r.value >= 0.0
    ensures r.Some? ==> (r.value == 0.0 <==> ShouldShowMessage(allMessages[currentIndex], currentTime))
    ensures r.Some? && r.value > 0.0 ==>
              currentTime + r.value == ParseTimestamp(allMessages[currentIndex].timestamp) as real
  {
    match GetNextMessage(allMessages, currentIndex)
    case None => None
    case Some(next) =>
      var timeUntil := ParseTimestamp(next.timestamp) as real - currentTime;
      Some(if timeUntil > 0.0 then timeUntil else 0.0)
  }

  /**
   * `filterMessagesByTimeRange(messages, startTime, endTime)`: the messages
   * whose time lies in the closed interval, in list order, independent of the cursor.
   */
  function FilterMessagesByTimeRange(messages: seq<TranscriptMessage>, startTime: real, endTime: real): (r: seq<TranscriptMessage>)
    ensures FilteredFrom(r, messages, (m: TranscriptMessage) =>
              startTime <= ParseTimestamp(m.timestamp) as real <= endTime)
    ensures |r| <= |messages|
  {
    FilterIsFilteredFrom(messages, InRange(startTime, endTime));
    Filter(messages, InRange(startTime, endTime))
  }

  /** The range test of `filterMessagesByTimeRange`, as a predicate on messages. */
  function InRange(startTime: real, endTime: real): (inRange: TranscriptMessage -> bool)
    ensures forall m :: inRange(m) == (startTime <= ParseTimestamp(m.timestamp) as real <= endTime)
  {
    (m: TranscriptMessage) =>
      var messageTime := ParseTimestamp(m.timestamp) as real;
      messageTime >= startTime && messageTime <= endTime
  }

  /** An empty interval selects nothing. */
  lemma EmptyRangeSelectsNothing(messages: seq<TranscriptMessage>, startTime: real, endTime: real)
    requires startTime > endTime
    ensures FilterMessagesByTimeRange(messages, startTime, endTime) == []
  {
  }

  /** `getTranscriptProgress(currentIndex, totalMessages)`: percent of the transcript passed, capped at 100. */
  function GetTranscriptProgress(currentIndex: int, totalMessages: int): (r: real)
    ensures totalMessages == 0 ==> r == 0.0
    ensures r <= 100.0
    ensures totalMessages > 0 && currentIndex >= 0 ==> r >= 0.0
    ensures totalMessages > 0 && currentIndex >= totalMessages ==> r == 100.0
    ensures totalMessages > 0 && currentIndex <= totalMessages ==>
              r * (totalMessages as real) == 100.0 * (currentIndex as real)
  {
    if totalMessages == 0 then 0.0
    else
      var share := (currentIndex as real / totalMessages as real) * 100.0;
      ProgressShare(currentIndex, totalMessages);
      if share < 100.0 then share else 100.0
  }

  /** The uncapped share `currentIndex / totalMessages * 100` on a non-empty transcript. */
  lemma ProgressShare(currentIndex: int, totalMessages: int)
    requires totalMessages != 0
    ensures var share := (currentIndex as real / totalMessages as real) * 100.0;
            totalMessages > 0 ==>
              && share * (totalMessages as real) == 100.0 * (currentIndex as real)
              && (currentIndex >= 0 ==> share >= 0.0)
              && (share < 100.0 <==> currentIndex < totalMessages)
  {
    if totalMessages > 0 {
      var c, t := currentIndex as real, totalMessages as real;
      ShareScales(c, t);
      if currentIndex >= 0 {
        ShareNonNegative(c, t);
      }
      ShareBelowWhole(c, t);
    }
  }

  lemma ShareScales(c: real, t: real)
    requires t > 0.0
    ensures (c / t * 100.0) * t == 100.0 * c
  {
    var q := c / t;
    assert q * t == c;
    assert (q * 100.0) * t == 100.0 * (q * t);
  }

  lemma ShareNonNegative(c: real, t: real)
    requires t > 0.0 && c >= 0.0
    ensures c / t * 100.0 >= 0.0
  {
    assert c / t >= 0.0;
  }

  lemma ShareBelowWhole(c: real, t: real)
    requires t > 0.0
    ensures c / t * 100.0 < 100.0 <==> c < t
  {
    var q := c / t;
    assert q * t == c;
    assert q * 100.0 < 100.0 <==> q < 1.0;
    assert q < 1.0 <==> q * t < t;
  }
}
