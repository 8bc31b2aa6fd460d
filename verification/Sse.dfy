/**
 Server-sent events: cutting a byte stream into events as it arrives, running each through a
 chain of processors, and the event that tells a caller a processor refused.

 Lines and fields are read as sections 9.2.5 and 9.2.6 of the WHATWG HTML Living Standard say.
 */
module Sse {
  import opened Bytes
  import opened Common
  import opened Texts

  // ----- the splitter -----

  /** A line ending of some length, none, or one that only the next byte can tell. */
  datatype Ending = Line(length: nat) | Not | Unknown

  function EndingAt(buffer: Text, at: nat, atEnd: bool): Ending {
    if at >= |buffer| then (if atEnd then Not else Unknown)
    else if buffer[at] == LF then Line(1)
    else if buffer[at] != CR then Not
    else if at + 1 < |buffer| then (if buffer[at + 1] == LF then Line(2) else Line(1))
    else if atEnd then Line(1)
    else Unknown
  }

  /** The position past the first two adjacent line endings from `at` on, if they are all there to see. */
  function FirstEnd(buffer: Text, at: nat, atEnd: bool): (end: Option<nat>)
    ensures end.Some? ==> at < end.value <= |buffer|
    decreases |buffer| - at
  {
    if at >= |buffer| then None
    else
      match EndingAt(buffer, at, atEnd)
      case Unknown => None
      case Not => FirstEnd(buffer, at + 1, atEnd)
      case Line(first) =>
        match EndingAt(buffer, at + first, atEnd)
        case Line(second) => Some(at + first + second)
        case Unknown => None
        case Not => FirstEnd(buffer, at + first, atEnd)
  }

  /**
   The loop the splitter runs. At the end of a stream it ends the first event where reading line
   by line does; before that it answers an end exactly when every way the stream can go on ends
   the first event there.
   */
  method EventEnd(buffer: Text, atEnd: bool) returns (end: Option<nat>)
    ensures end == FirstEnd(buffer, 0, atEnd)
    ensures atEnd ==> end == LineEnd(buffer, 0)
    ensures !atEnd ==> forall e: nat :: end == Some(e) <==> forall more :: LineEnd(buffer + more, 0) == Some(e)
  {
    hide LineEnd;
    TheScanFollowsTheLines(buffer, 0);
    AnEndIsKnownExactly(buffer);
    end := Scan(buffer, atEnd);
  }

  /** The loop itself, position by position. */
  method Scan(buffer: Text, atEnd: bool) returns (end: Option<nat>)
    ensures end == FirstEnd(buffer, 0, atEnd)
  {
    var at := 0;
    while at < |buffer|
      invariant FirstEnd(buffer, at, atEnd) == FirstEnd(buffer, 0, atEnd)
      decreases |buffer| - at
    {
      match EndingAt(buffer, at, atEnd) {
        case Line(first) =>
          match EndingAt(buffer, at + first, atEnd) {
            case Line(second) => return Some(at + first + second);
            case Unknown => return None;
            case Not => at := at + first;
          }
        case Unknown => return None;
        case Not => at := at + 1;
      }
    }
    end := None;
  }

  /** An end found before the stream's end is the end, whatever bytes follow. */
  lemma {:induction false} AFoundEndStands(buffer: Text, more: Text, at: nat, atEnd: bool)
    requires FirstEnd(buffer, at, false).Some?
    ensures FirstEnd(buffer + more, at, atEnd) == FirstEnd(buffer, at, false)
    decreases |buffer| - at
  {
    assert EndingAt(buffer + more, at, atEnd) == EndingAt(buffer, at, false);
    match EndingAt(buffer, at, false)
    case Not => AFoundEndStands(buffer, more, at + 1, atEnd);
    case Line(first) =>
      assert EndingAt(buffer + more, at + first, atEnd) == EndingAt(buffer, at + first, false);
      if EndingAt(buffer, at + first, false).Not? {
        AFoundEndStands(buffer, more, at + first, atEnd);
      }
  }

  /** An end that neither the stream stopping here nor a line feed coming next would move is known already. */
  lemma {:induction false} AnEndThatStandsIsFound(buffer: Text, at: nat, e: nat)
    requires FirstEnd(buffer, at, true) == Some(e) && FirstEnd(buffer + [LF], at, true) == Some(e)
    ensures FirstEnd(buffer, at, false) == Some(e)
    decreases |buffer| - at
  {
    var more := buffer + [LF];
    assert at + 1 < |buffer| ==> more[at + 1] == buffer[at + 1];
    match EndingAt(buffer, at, false)
    case Not => AnEndThatStandsIsFound(buffer, at + 1, e);
    case Unknown =>
    case Line(first) =>
      assert EndingAt(more, at, true) == EndingAt(buffer, at, true) == Line(first);
      if EndingAt(buffer, at + first, false).Not? {
        AnEndThatStandsIsFound(buffer, at + first, e);
      }
  }

  /** Before the stream's end, an end is found exactly when it is the end however the stream goes on. */
  lemma AnEndIsKnownExactly(buffer: Text)
    ensures forall e: nat ::
              FirstEnd(buffer, 0, false) == Some(e) <==> forall more :: LineEnd(buffer + more, 0) == Some(e)
  {
    forall e: nat
      ensures FirstEnd(buffer, 0, false) == Some(e) <==> forall more :: LineEnd(buffer + more, 0) == Some(e)
    {
      OneEndIsKnownExactly(buffer, e);
    }
  }

  lemma OneEndIsKnownExactly(buffer: Text, e: nat)
    ensures FirstEnd(buffer, 0, false) == Some(e) <==> forall more :: LineEnd(buffer + more, 0) == Some(e)
  {
    hide FirstEnd, LineEnd;
    if FirstEnd(buffer, 0, false) == Some(e) {
      forall more ensures LineEnd(buffer + more, 0) == Some(e) {
        AFoundEndStands(buffer, more, 0, true);
        TheScanFollowsTheLines(buffer + more, 0);
      }
    } else if forall more :: LineEnd(buffer + more, 0) == Some(e) {
      assert buffer + [] == buffer;
      assert LineEnd(buffer + [], 0) == LineEnd(buffer + [LF], 0) == Some(e);
      TheScanFollowsTheLines(buffer, 0);
      TheScanFollowsTheLines(buffer + [LF], 0);
      AnEndThatStandsIsFound(buffer, 0, e);
    }
  }

  /** The complete events of a buffer, in order. */
  function Split(buffer: Text, atEnd: bool): seq<Text>
    decreases |buffer|
  {
    var end := FirstEnd(buffer, 0, atEnd);
    if end.None? then [] else [buffer[..end.value]] + Split(buffer[end.value..], atEnd)
  }

  /** What is left of a buffer once its complete events are taken. */
  function Rest(buffer: Text, atEnd: bool): Text
    decreases |buffer|
  {
    var end := FirstEnd(buffer, 0, atEnd);
    if end.None? then buffer else Rest(buffer[end.value..], atEnd)
  }

  /** Taking what is complete now and going on with what is left loses and moves nothing. */
  lemma {:induction false} SplittingEarlyChangesNothing(buffer: Text, more: Text, atEnd: bool)
    ensures Split(buffer + more, atEnd) == Split(buffer, false) + Split(Rest(buffer, false) + more, atEnd)
    ensures Rest(buffer + more, atEnd) == Rest(Rest(buffer, false) + more, atEnd)
    decreases |buffer|
  {
    var end := FirstEnd(buffer, 0, false);
    if end.Some? {
      var e := end.value;
      AFoundEndStands(buffer, more, 0, atEnd);
      assert (buffer + more)[..e] == buffer[..e] && (buffer + more)[e..] == buffer[e..] + more;
      SplittingEarlyChangesNothing(buffer[e..], more, atEnd);
    }
  }

  lemma {:induction false} NothingCompleteIsLeft(buffer: Text, atEnd: bool)
    ensures FirstEnd(Rest(buffer, atEnd), 0, atEnd).None?
    decreases |buffer|
  {
    var end := FirstEnd(buffer, 0, atEnd);
    if end.Some? {
      NothingCompleteIsLeft(buffer[end.value..], atEnd);
    }
  }

  function Joined(pieces: seq<Text>): Text {
    if pieces == [] then [] else pieces[0] + Joined(pieces[1..])
  }

  lemma {:induction false} JoinedTogether(a: seq<Text>, b: seq<Text>)
    ensures Joined(a + b) == Joined(a) + Joined(b)
  {
    if a == [] {
      assert a + b == b;
    } else {
      assert (a + b)[1..] == a[1..] + b;
      JoinedTogether(a[1..], b);
    }
  }

  /** No byte is lost: the events and what is left are the buffer. */
  lemma {:induction false} SplitLosesNothing(buffer: Text, atEnd: bool)
    ensures Joined(Split(buffer, atEnd)) + Rest(buffer, atEnd) == buffer
    decreases |buffer|
  {
    var end := FirstEnd(buffer, 0, atEnd);
    if end.None? {
      assert Joined([]) + buffer == buffer;
    } else {
      hide FirstEnd, Joined;
      var first, rest := buffer[..end.value], buffer[end.value..];
      SplitLosesNothing(rest, atEnd);
      JoinedBehind(first, Split(rest, atEnd), Rest(rest, atEnd));
      assert buffer == first + rest;
    }
  }

  lemma JoinedBehind(first: Text, pieces: seq<Text>, rest: Text)
    ensures Joined([first] + pieces) + rest == first + (Joined(pieces) + rest)
  {
    assert ([first] + pieces)[1..] == pieces;
  }

  // ----- lines, as the standard reads them -----

  predicate EndsLine(b: Byte) {
    b == LF || b == CR
  }

  /** Where the line that starts at `at` stops. */
  function Break(text: Text, at: nat): (n: nat)
    requires at <= |text|
    ensures at <= n <= |text|
    ensures forall i :: at <= i < n ==> !EndsLine(text[i])
    ensures n < |text| ==> EndsLine(text[n])
    decreases |text| - at
  {
    if at == |text| || EndsLine(text[at]) then at else Break(text, at + 1)
  }

  /** Where the line after it starts: past LF, CR, or CR and LF together. */
  function Past(text: Text, n: nat): (m: nat)
    requires n < |text| && EndsLine(text[n])
    ensures n < m <= |text|
  {
    if text[n] == CR && n + 1 < |text| && text[n + 1] == LF then n + 2 else n + 1
  }

  /** The lines from `at` on that are ended. */
  function LinesFrom(text: Text, at: nat): seq<Text>
    requires at <= |text|
    decreases |text| - at
  {
    var n := Break(text, at);
    if n == |text| then [] else [text[at..n]] + LinesFrom(text, Past(text, n))
  }

  function Lines(text: Text): seq<Text> {
    LinesFrom(text, 0)
  }

  /** Where the first event ends by lines: after the first blank line that is not the very first. */
  function LineEnd(text: Text, at: nat): (end: Option<nat>)
    requires at <= |text|
    ensures end.Some? ==> at < end.value <= |text|
    decreases |text| - at
  {
    var n := Break(text, at);
    if n == |text| then None
    else
      var past := Past(text, n);
      if past < |text| && EndsLine(text[past]) then Some(Past(text, past)) else LineEnd(text, past)
  }

  lemma {:induction false} ScanFindsTheBreak(buffer: Text, at: nat)
    requires at <= |buffer|
    ensures FirstEnd(buffer, at, true) == FirstEnd(buffer, Break(buffer, at), true)
    decreases |buffer| - at
  {
    if at < |buffer| && !EndsLine(buffer[at]) {
      ScanFindsTheBreak(buffer, at + 1);
    }
  }

  /** The scan over bytes finds the end the lines say. */
  lemma {:induction false} TheScanFollowsTheLines(buffer: Text, at: nat)
    requires at <= |buffer|
    ensures FirstEnd(buffer, at, true) == LineEnd(buffer, at)
    decreases |buffer| - at
  {
    ScanFindsTheBreak(buffer, at);
    var n := Break(buffer, at);
    if n < |buffer| {
      var past := Past(buffer, n);
      assert EndingAt(buffer, n, true) == Line(past - n);
      TheScanFollowsTheLines(buffer, past);
    }
  }

  /** A prefix that reaches past a line's ending has the same line. */
  lemma {:induction false} BreakOfPrefix(text: Text, at: nat, e: nat)
    requires at <= |text|
    requires Break(text, at) < |text| && Past(text, Break(text, at)) <= e <= |text|
    ensures Break(text[..e], at) == Break(text, at)
    ensures Past(text[..e], Break(text, at)) == Past(text, Break(text, at))
    decreases |text| - at
  {
  }

  /** What ends an event: two lines at least, the last of them blank, and no blank one between. */
  predicate EventShaped(lines: seq<Text>) {
    && |lines| >= 2 && lines[|lines| - 1] == []
    && forall i :: 0 < i < |lines| - 1 ==> lines[i] != []
  }

  lemma TheFirstLine(text: Text, at: nat)
    requires at <= |text| && Break(text, at) < |text|
    ensures LinesFrom(text, at) == [text[at..Break(text, at)]] + LinesFrom(text, Past(text, Break(text, at)))
  {
  }

  /** The first line of a prefix that reaches past it. */
  lemma TheFirstLineOfPrefix(text: Text, at: nat, e: nat)
    requires at <= |text|
    requires Break(text, at) < |text| && Past(text, Break(text, at)) <= e <= |text|
    ensures LinesFrom(text[..e], at) == [text[at..Break(text, at)]] + LinesFrom(text[..e], Past(text, Break(text, at)))
  {
    hide LinesFrom, Break, Past;
    BreakOfPrefix(text, at, e);
    TheFirstLine(text[..e], at);
    assert text[..e][at..Break(text, at)] == text[at..Break(text, at)];
  }

  lemma ShapedBehind(line: Text, lines: seq<Text>)
    requires EventShaped(lines) && lines[0] != []
    ensures EventShaped([line] + lines)
  {
  }

  /** Cutting a text at an event's end cuts it between lines. */
  lemma {:induction false} AnEventIsWholeLines(text: Text, at: nat)
    requires at <= |text| && LineEnd(text, at).Some?
    ensures
      var e := LineEnd(text, at).value;
      LinesFrom(text, at) == LinesFrom(text[..e], at) + LinesFrom(text, e) && EventShaped(LinesFrom(text[..e], at))
    decreases |text| - at
  {
    var e := LineEnd(text, at).value;
    var n := Break(text, at);
    var past := Past(text, n);
    hide LinesFrom, EventShaped;
    TheFirstLine(text, at);
    TheFirstLineOfPrefix(text, at, e);
    if past < |text| && EndsLine(text[past]) {
      AnEventEnds(text, past, e);
      ShapedAtOnce(text[at..n]);
    } else {
      AnEventIsWholeLines(text, past);
      TheFirstLineOfPrefix(text, past, e);
      ShapedBehind(text[at..n], LinesFrom(text[..e], past));
    }
  }

  lemma ShapedAtOnce(line: Text)
    ensures EventShaped([line] + [[]])
  {
  }

  lemma AnEventEnds(text: Text, past: nat, e: nat)
    requires past < |text| && EndsLine(text[past]) && e == Past(text, past)
    ensures LinesFrom(text, past) == [[]] + LinesFrom(text, e) && LinesFrom(text[..e], past) == [[]]
  {
    assert Break(text, past) == past;
    TheFirstLine(text, past);
    TheFirstLineOfPrefix(text, past, e);
    assert text[past..past] == [];
  }

  lemma {:induction false} LinesShift(text: Text, from: nat, at: nat)
    requires from <= at <= |text|
    ensures LinesFrom(text, at) == LinesFrom(text[from..], at - from)
    decreases |text| - at
  {
    BreakShifts(text, from, at);
    var n := Break(text, at);
    if n < |text| {
      assert text[from..][at - from..n - from] == text[at..n];
      assert Past(text[from..], n - from) == Past(text, n) - from;
      LinesShift(text, from, Past(text, n));
    }
  }

  lemma {:induction false} BreakShifts(text: Text, from: nat, at: nat)
    requires from <= at <= |text|
    ensures Break(text[from..], at - from) == Break(text, at) - from
    decreases |text| - at
  {
  }

  /** Where the splitter finds no event, no line but the first is blank. */
  lemma {:induction false} NoEventMeansNoBlankLine(text: Text, at: nat)
    requires at <= |text| && LineEnd(text, at).None?
    ensures forall i :: 0 < i < |LinesFrom(text, at)| ==> LinesFrom(text, at)[i] != []
    decreases |text| - at
  {
    var n := Break(text, at);
    if n < |text| {
      NoEventMeansNoBlankLine(text, Past(text, n));
    }
  }

  /** The lines of each event, one event after the other. */
  function LinesOfEach(events: seq<Text>): seq<Text> {
    if events == [] then [] else Lines(events[0]) + LinesOfEach(events[1..])
  }

  /**
   What the splitter cuts: every event is whole lines, two at least, the last blank and none
   before it but perhaps the first; what is left holds no further blank line; and the lines of
   the events and of what is left are the lines of the stream, so no line ending is ever cut.
   */
  lemma {:induction false} EventsAreTheStandards(stream: Text)
    ensures forall i :: 0 <= i < |Split(stream, true)| ==> EventShaped(Lines(Split(stream, true)[i]))
    ensures forall i :: 0 < i < |Lines(Rest(stream, true))| ==> Lines(Rest(stream, true))[i] != []
    ensures Lines(stream) == LinesOfEach(Split(stream, true)) + Lines(Rest(stream, true))
    decreases |stream|
  {
    TheScanFollowsTheLines(stream, 0);
    var end := FirstEnd(stream, 0, true);
    if end.None? {
      NoEventMeansNoBlankLine(stream, 0);
    } else {
      hide Lines, EventShaped, FirstEnd;
      TheFirstEventOff(stream, end.value);
      EventsAreTheStandards(stream[end.value..]);
    }
  }

  lemma TheFirstEventOff(stream: Text, e: nat)
    requires LineEnd(stream, 0) == Some(e)
    ensures EventShaped(Lines(stream[..e])) && Lines(stream) == Lines(stream[..e]) + Lines(stream[e..])
  {
    hide LinesFrom, LineEnd, EventShaped;
    AnEventIsWholeLines(stream, 0);
    LinesShift(stream, e, e);
  }

  // ----- fields, as the standard reads them -----

  const EVENT: Text := [101, 118, 101, 110, 116]         // "event"
  const DATA: Text := [100, 97, 116, 97]                 // "data"
  const ERROR: Text := [101, 114, 114, 111, 114]         // "error"
  const MESSAGE: Text := [109, 101, 115, 115, 97, 103, 101] // "message"

  /** An event as a client is handed it. */
  datatype Message = Message(kind: Text, data: Text)

  /** What a client has gathered of the event it is reading. */
  datatype Reader = Reader(kind: Text, data: Text)

  const IDLE: Reader := Reader([], [])

  function ColonAt(line: Text): (n: nat)
    ensures n <= |line|
  {
    if line == [] || line[0] == COLON then 0 else 1 + ColonAt(line[1..])
  }

  /** The name and value of a field: what is before the first colon, and what is after it and one space. */
  function Field(line: Text): (Text, Text) {
    var n := ColonAt(line);
    if n == |line| then (line, [])
    else if n + 1 < |line| && line[n + 1] == SPACE then (line[..n], line[n + 2..])
    else (line[..n], line[n + 1..])
  }

  function TakeLine(r: Reader, line: Text): Reader {
    if line == [] then IDLE
    else
      var (name, value) := Field(line);
      if name == EVENT then r.(kind := value)
      else if name == DATA then r.(data := r.data + value + [LF])
      else r
  }

  function Dispatched(r: Reader, line: Text): seq<Message> {
    if line != [] || r.data == [] then []
    else [Message(if r.kind == [] then MESSAGE else r.kind, r.data[..|r.data| - 1])]
  }

  function TakeLines(r: Reader, lines: seq<Text>): Reader
    decreases lines
  {
    if lines == [] then r else TakeLines(TakeLine(r, lines[0]), lines[1..])
  }

  /** The events a client is handed as it reads these lines. */
  function Messages(r: Reader, lines: seq<Text>): seq<Message>
    decreases lines
  {
    if lines == [] then []
    else Dispatched(r, lines[0]) + Messages(TakeLine(r, lines[0]), lines[1..])
  }

  /** How a client reads a field: the name to the first colon, and the value behind it without one leading space. */
  lemma AFieldReads(name: Text, value: Text)
    requires COLON !in name
    ensures Field(name) == (name, [])
    ensures Field(name + [COLON, SPACE] + value) == (name, value)
    ensures value == [] || value[0] != SPACE ==> Field(name + [COLON] + value) == (name, value)
  {
    ColonAfterName(name, [SPACE] + value);
    ColonAfterName(name, value);
    NoColonIn(name);
    var spaced, close := name + [COLON, SPACE] + value, name + [COLON] + value;
    assert spaced == name + [COLON] + ([SPACE] + value);
    assert spaced[..|name|] == name && spaced[|name| + 2..] == value;
    assert close[..|name|] == name && close[|name| + 1..] == value;
  }

  lemma {:induction false} NoColonIn(name: Text)
    requires COLON !in name
    ensures ColonAt(name) == |name|
  {
    if name != [] {
      NoColonIn(name[1..]);
    }
  }

  /** A client skips comments and fields it does not know, and is handed a message without a kind as `message`. */
  lemma AClientReads(r: Reader, line: Text, value: Text)
    ensures line != [] && Field(line).0 != EVENT && Field(line).0 != DATA ==>
              TakeLine(r, line) == r && Dispatched(r, line) == []
    ensures Dispatched(Reader([], value + [LF]), []) == [Message(MESSAGE, value)]
    ensures Dispatched(Reader(r.kind, []), []) == []
  {
    assert (value + [LF])[..|value|] == value;
  }

  lemma {:induction false} ReadingInParts(r: Reader, a: seq<Text>, b: seq<Text>)
    ensures Messages(r, a + b) == Messages(r, a) + Messages(TakeLines(r, a), b)
    ensures TakeLines(r, a + b) == TakeLines(TakeLines(r, a), b)
    decreases a
  {
    hide TakeLine, Dispatched;
    if a == [] {
      assert a + b == b;
    } else {
      assert (a + b)[0] == a[0] && (a + b)[1..] == a[1..] + b;
      ReadingInParts(TakeLine(r, a[0]), a[1..], b);
    }
  }

  function MessagesOfEach(events: seq<Text>): seq<Message> {
    if events == [] then [] else Messages(IDLE, Lines(events[0])) + MessagesOfEach(events[1..])
  }

  lemma {:induction false} ReadingEachEvent(events: seq<Text>, rest: seq<Text>)
    requires forall i :: 0 <= i < |events| ==> EventShaped(Lines(events[i]))
    ensures Messages(IDLE, LinesOfEach(events) + rest) == MessagesOfEach(events) + Messages(IDLE, rest)
  {
    hide Lines, Dispatched;
    if events == [] {
      assert LinesOfEach(events) + rest == rest;
    } else {
      var lines := Lines(events[0]);
      assert LinesOfEach(events) + rest == lines + (LinesOfEach(events[1..]) + rest);
      ReadingInParts(IDLE, lines, LinesOfEach(events[1..]) + rest);
      ABlankLineResets(IDLE, lines);
      ReadingEachEvent(events[1..], rest);
    }
  }

  lemma ABlankLineResets(r: Reader, lines: seq<Text>)
    requires lines != [] && lines[|lines| - 1] == []
    ensures TakeLines(r, lines) == IDLE
  {
    var n := |lines| - 1;
    assert lines == lines[..n] + [[]];
    ReadingInParts(r, lines[..n], [[]]);
  }

  lemma {:induction false} NoBlankLineHandsNothing(r: Reader, lines: seq<Text>)
    requires forall i :: 0 <= i < |lines| ==> lines[i] != []
    ensures Messages(r, lines) == []
    decreases lines
  {
    if lines != [] {
      hide TakeLine;
      NoBlankLineHandsNothing(TakeLine(r, lines[0]), lines[1..]);
    }
  }

  /** Lines of which only the first may be blank hand a client that begins with them nothing. */
  lemma ARestHandsNothing(lines: seq<Text>)
    requires forall i :: 0 < i < |lines| ==> lines[i] != []
    ensures Messages(IDLE, lines) == []
  {
    if lines != [] {
      hide TakeLine;
      NoBlankLineHandsNothing(TakeLine(IDLE, lines[0]), lines[1..]);
    }
  }

  /**
   Splitting keeps the meaning: a client reading event by event is handed exactly what the stream
   says, and what is left over at the end says nothing, so that it may be passed on as it is.
   */
  lemma SplittingKeepsMeaning(stream: Text)
    ensures Messages(IDLE, Lines(stream)) == MessagesOfEach(Split(stream, true))
    ensures Messages(IDLE, Lines(Rest(stream, true))) == []
  {
    hide Lines, Messages;
    EventsAreTheStandards(stream);
    ReadingEachEvent(Split(stream, true), Lines(Rest(stream, true)));
    ARestHandsNothing(Lines(Rest(stream, true)));
  }

  // ----- the event that tells of a refusal -----

  /** Every CRLF made a LF. */
  function WithoutCrLf(text: Text): Text {
    if |text| < 2 then text
    else if text[0] == CR && text[1] == LF then [LF] + WithoutCrLf(text[2..])
    else [text[0]] + WithoutCrLf(text[1..])
  }

  /** Every CR made a LF. */
  function WithoutCr(text: Text): Text {
    seq(|text|, i requires 0 <= i < |text| => if text[i] == CR then LF else text[i])
  }

  /** The pieces between line feeds and carriage returns, of which there is always one. */
  function Pieces(text: Text): (pieces: seq<Text>)
    ensures pieces != []
    decreases |text|
  {
    var n := Break(text, 0);
    if n == |text| then [text] else [text[..n]] + Pieces(text[n + 1..])
  }

  function DataLine(piece: Text): Text {
    DATA + [COLON, SPACE] + piece
  }

  function DataLines(pieces: seq<Text>): seq<Text> {
    seq(|pieces|, i requires 0 <= i < |pieces| => DataLine(pieces[i]))
  }

  /** Lines as bytes, each ended by a LF. */
  function Document(lines: seq<Text>): Text {
    if lines == [] then [] else lines[0] + [LF] + Document(lines[1..])
  }

  /** The refusal as lines: its kind, a data line for each piece of the reason, and a blank one. */
  function ErrorLines(reason: Text): seq<Text> {
    [EVENT + [COLON, SPACE] + ERROR] + DataLines(Pieces(WithoutCrLf(reason))) + [[]]
  }

  function ErrorText(reason: Text): Text {
    Document(ErrorLines(reason))
  }

  lemma {:induction false} DocumentTogether(a: seq<Text>, b: seq<Text>)
    ensures Document(a + b) == Document(a) + Document(b)
  {
    if a == [] {
      assert a + b == b;
    } else {
      assert (a + b)[0] == a[0] && (a + b)[1..] == a[1..] + b;
      DocumentTogether(a[1..], b);
    }
  }

  /** The loop that writes it, a piece at a time. */
  method ErrorEvent(reason: Text) returns (event: Text)
    ensures event == ErrorText(reason)
  {
    hide Break, WithoutCrLf;
    var kind := EVENT + [COLON, SPACE] + ERROR;
    event := kind + [LF];
    var pieces := Pieces(WithoutCrLf(reason));
    assert Document([kind]) == event;
    for i := 0 to |pieces|
      invariant event == Document([kind] + DataLines(pieces[..i]))
    {
      event := event + DATA + [COLON, SPACE] + pieces[i] + [LF];
      var line := DataLine(pieces[i]);
      assert pieces[..i + 1] == pieces[..i] + [pieces[i]];
      assert [kind] + DataLines(pieces[..i + 1]) == [kind] + DataLines(pieces[..i]) + [line];
      DocumentTogether([kind] + DataLines(pieces[..i]), [line]);
    }
    assert pieces[..|pieces|] == pieces;
    DocumentTogether([kind] + DataLines(pieces), [[]]);
    event := event + [LF];
  }

  predicate Clean(line: Text) {
    forall i :: 0 <= i < |line| ==> !EndsLine(line[i])
  }

  lemma {:induction false} BreakAfterCleanLine(line: Text, rest: Text, at: nat)
    requires Clean(line) && at <= |line|
    ensures Break(line + [LF] + rest, at) == |line|
    decreases |line| - at
  {
    if at < |line| {
      BreakAfterCleanLine(line, rest, at + 1);
    }
  }

  lemma {:induction false} ADocumentIsItsLines(lines: seq<Text>)
    requires forall i :: 0 <= i < |lines| ==> Clean(lines[i])
    ensures Lines(Document(lines)) == lines
  {
    if lines != [] {
      var rest := Document(lines[1..]);
      var text := lines[0] + [LF] + rest;
      BreakAfterCleanLine(lines[0], rest, 0);
      assert text == Document(lines) && text[0..|lines[0]|] == lines[0];
      LinesShift(text, |lines[0]| + 1, |lines[0]| + 1);
      assert text[|lines[0]| + 1..] == rest;
      ADocumentIsItsLines(lines[1..]);
    }
  }

  lemma {:induction false} PiecesAreClean(text: Text)
    ensures forall i :: 0 <= i < |Pieces(text)| ==> Clean(Pieces(text)[i])
    decreases |text|
  {
    var n := Break(text, 0);
    if n < |text| {
      PiecesAreClean(text[n + 1..]);
    }
  }

  lemma ErrorLinesAreClean(reason: Text)
    ensures forall i :: 0 <= i < |ErrorLines(reason)| ==> Clean(ErrorLines(reason)[i])
    ensures EventShaped(ErrorLines(reason))
  {
    hide Break, WithoutCrLf, Pieces;
    PiecesAreClean(WithoutCrLf(reason));
  }

  /** Lines with one blank among them, the last, are one event to the splitter, neither more nor less. */
  lemma ShapedLinesAreOneEvent(lines: seq<Text>)
    requires EventShaped(lines) && forall i :: 0 <= i < |lines| ==> Clean(lines[i])
    requires lines[0] != []
    ensures FirstEnd(Document(lines), 0, true) == Some(|Document(lines)|)
  {
    var text := Document(lines);
    ADocumentIsItsLines(lines);
    TheScanFollowsTheLines(text, 0);
    if LineEnd(text, 0).None? {
      NoEventMeansNoBlankLine(text, 0);
      assert false;
    } else {
      var e := LineEnd(text, 0).value;
      AnEventIsWholeLines(text, 0);
      var event := LinesFrom(text[..e], 0);
      assert lines == event + LinesFrom(text, e);
      assert lines[|event| - 1] == [];
      DocumentEndsInLf(lines);
    }
  }

  lemma {:induction false} DocumentEndsInLf(lines: seq<Text>)
    requires lines != []
    ensures Document(lines) != [] && Document(lines)[|Document(lines)| - 1] == LF
  {
    if |lines| > 1 {
      DocumentEndsInLf(lines[1..]);
    }
  }

  lemma {:induction false} DocumentHasNoCr(lines: seq<Text>)
    requires forall i :: 0 <= i < |lines| ==> Clean(lines[i])
    ensures forall i :: 0 <= i < |Document(lines)| ==> Document(lines)[i] != CR
  {
    if lines != [] {
      DocumentHasNoCr(lines[1..]);
    }
  }

  /** Without carriage returns nothing waits for the byte after it. */
  lemma {:induction false} WithoutCrNothingWaits(buffer: Text, at: nat)
    requires forall i :: 0 <= i < |buffer| ==> buffer[i] != CR
    requires FirstEnd(buffer, at, true).Some?
    ensures FirstEnd(buffer, at, false) == FirstEnd(buffer, at, true)
    decreases |buffer| - at
  {
    match EndingAt(buffer, at, true)
    case Not => WithoutCrNothingWaits(buffer, at + 1);
    case Line(first) =>
      if EndingAt(buffer, at + first, true).Not? {
        WithoutCrNothingWaits(buffer, at + first);
      }
  }

  /**
   Whatever the reason says, telling it is exactly one event, at once and at the end of the
   stream: no reason adds events of its own.
   */
  lemma ARefusalIsOneEvent(reason: Text, atEnd: bool)
    ensures FirstEnd(ErrorText(reason), 0, atEnd) == Some(|ErrorText(reason)|)
  {
    hide FirstEnd, Document, ErrorLines;
    ErrorLinesAreClean(reason);
    assert ErrorLines(reason)[0] != [] by { TheFirstErrorLine(reason); }
    ShapedLinesAreOneEvent(ErrorLines(reason));
    DocumentHasNoCr(ErrorLines(reason));
    WithoutCrNothingWaits(ErrorText(reason), 0);
  }

  lemma TheFirstErrorLine(reason: Text)
    ensures ErrorLines(reason)[0] == EVENT + [COLON, SPACE] + ERROR
  {
  }

  function JoinedByLf(pieces: seq<Text>): Text
    requires pieces != []
  {
    if |pieces| == 1 then pieces[0] else pieces[0] + [LF] + JoinedByLf(pieces[1..])
  }

  lemma WithoutCrInParts(a: Text, x: Byte, b: Text)
    requires EndsLine(x) && forall i :: 0 <= i < |a| ==> a[i] != CR
    ensures WithoutCr(a + [x] + b) == a + [LF] + WithoutCr(b)
  {
  }

  lemma OnePieceOff(text: Text, n: nat)
    requires n == Break(text, 0) < |text|
    ensures WithoutCr(text) == text[..n] + [LF] + WithoutCr(text[n + 1..])
  {
    hide WithoutCr, Break;
    assert forall i :: 0 <= i < n ==> !EndsLine(text[i]);
    WithoutCrInParts(text[..n], text[n], text[n + 1..]);
    assert text == text[..n] + [text[n]] + text[n + 1..];
  }

  lemma {:induction false} PiecesJoin(text: Text)
    ensures JoinedByLf(Pieces(text)) == WithoutCr(text)
    decreases |text|
  {
    var n := Break(text, 0);
    if n < |text| {
      PiecesJoin(text[n + 1..]);
      OnePieceOff(text, n);
      assert Pieces(text) == [text[..n]] + Pieces(text[n + 1..]);
      assert Pieces(text)[1..] == Pieces(text[n + 1..]);
    }
  }

  lemma ReadsADataLine(r: Reader, piece: Text)
    ensures TakeLine(r, DataLine(piece)) == r.(data := r.data + piece + [LF])
    ensures Dispatched(r, DataLine(piece)) == []
  {
    var line := DataLine(piece);
    ColonAfterName(DATA, [SPACE] + piece);
    assert line == DATA + [COLON] + ([SPACE] + piece);
    assert line[..4] == DATA && line[6..] == piece;
  }

  lemma {:induction false} ColonAfterName(name: Text, rest: Text)
    requires forall i :: 0 <= i < |name| ==> name[i] != COLON
    ensures ColonAt(name + [COLON] + rest) == |name|
  {
    if name != [] {
      assert (name + [COLON] + rest)[1..] == name[1..] + [COLON] + rest;
      ColonAfterName(name[1..], rest);
    }
  }

  lemma {:induction false} ReadsTheDataLines(r: Reader, pieces: seq<Text>)
    requires pieces != []
    ensures TakeLines(r, DataLines(pieces)) == r.(data := r.data + JoinedByLf(pieces) + [LF])
    ensures Messages(r, DataLines(pieces)) == []
    decreases pieces
  {
    hide TakeLine, Dispatched, DataLine;
    ReadsADataLine(r, pieces[0]);
    var r' := r.(data := r.data + pieces[0] + [LF]);
    assert DataLines(pieces)[1..] == DataLines(pieces[1..]);
    if |pieces| == 1 {
      assert DataLines(pieces) == [DataLine(pieces[0])];
    } else {
      ReadsTheDataLines(r', pieces[1..]);
      assert r'.data + JoinedByLf(pieces[1..]) == r.data + JoinedByLf(pieces);
    }
  }

  /** A client reads exactly one event of kind error, its data the reason with its line endings made LF. */
  lemma ARefusalReadsBack(reason: Text)
    ensures Messages(IDLE, Lines(ErrorText(reason))) == [Message(ERROR, WithoutCr(WithoutCrLf(reason)))]
  {
    hide Break, WithoutCrLf, Pieces, TakeLine, Dispatched, DataLine, WithoutCr;
    var pieces := Pieces(WithoutCrLf(reason));
    var kind := EVENT + [COLON, SPACE] + ERROR;
    ErrorLinesAreClean(reason);
    ADocumentIsItsLines(ErrorLines(reason));
    PiecesJoin(WithoutCrLf(reason));
    ReadsTheKindLine();
    var started := Reader(ERROR, []);
    ReadsTheDataLines(started, pieces);
    var gathered := Reader(ERROR, [] + JoinedByLf(pieces) + [LF]);
    assert ErrorLines(reason) == [kind] + (DataLines(pieces) + [[]]);
    ReadingInParts(IDLE, [kind], DataLines(pieces) + [[]]);
    assert TakeLines(IDLE, [kind]) == started && Messages(IDLE, [kind]) == [];
    ReadingInParts(started, DataLines(pieces), [[]]);
    assert Messages(gathered, [[]]) == Dispatched(gathered, []);
    DispatchesAtTheBlank(JoinedByLf(pieces));
  }

  /** The lines of a reason, its last one ended as any other, are what is left between its line feeds. */
  lemma {:induction false} AReasonsLines(reason: Text)
    ensures Lines(reason + [CR]) == Pieces(WithoutCrLf(reason))
    decreases |reason|
  {
    var n, ended := Break(reason, 0), reason + [CR];
    BreakBefore(reason, 0);
    if n == |reason| {
      NothingToMend(reason);
      assert ended[0..n] == reason && Past(ended, n) == |ended|;
      assert LinesFrom(ended, |ended|) == [];
      TheFirstLine(ended, 0);
    } else {
      var past := Past(reason, n);
      var rest := reason[past..];
      assert ended[past..] == rest + [CR] && ended[0..n] == reason[..n];
      LinesShift(ended, past, past);
      AReasonsLines(rest);
      MendedAtABreak(reason, n);
    }
  }

  lemma {:induction false} BreakBefore(text: Text, at: nat)
    requires at <= |text|
    ensures Break(text + [CR], at) == Break(text, at)
    decreases |text| - at
  {
    if at < |text| && !EndsLine(text[at]) {
      BreakBefore(text, at + 1);
    }
  }

  lemma {:induction false} NothingToMend(text: Text)
    requires forall i :: 0 <= i < |text| ==> !EndsLine(text[i])
    ensures WithoutCrLf(text) == text && Pieces(text) == [text]
    decreases |text|
  {
    if |text| >= 2 {
      NothingToMend(text[1..]);
      assert text == [text[0]] + text[1..];
    }
  }

  lemma {:induction false} MendedAtABreak(text: Text, n: nat)
    requires n == Break(text, 0) < |text|
    ensures Pieces(WithoutCrLf(text)) == [text[..n]] + Pieces(WithoutCrLf(text[Past(text, n)..]))
    decreases |text|
  {
    var rest := WithoutCrLf(text[Past(text, n)..]);
    var x := if Past(text, n) == n + 2 then LF else text[n];
    Mended(text, n);
    var mended := text[..n] + [x] + rest;
    FirstBreakIs(text[..n], x, rest);
    assert mended[..n] == text[..n] && mended[n + 1..] == rest;
  }

  lemma {:induction false} Mended(text: Text, n: nat)
    requires n < |text| && EndsLine(text[n]) && forall i :: 0 <= i < n ==> !EndsLine(text[i])
    ensures WithoutCrLf(text) ==
            text[..n] + [if Past(text, n) == n + 2 then LF else text[n]] + WithoutCrLf(text[Past(text, n)..])
    decreases n
  {
    if n == 0 {
      assert |text| == 1 ==> text[1..] == [] && text == [text[0]];
    } else {
      assert WithoutCrLf(text) == [text[0]] + WithoutCrLf(text[1..]);
      hide WithoutCrLf;
      Mended(text[1..], n - 1);
      var past := Past(text, n);
      assert Past(text[1..], n - 1) == past - 1 && text[1..][past - 1..] == text[past..];
      hide Past, EndsLine;
      var x, rest := if past == n + 2 then LF else text[n], WithoutCrLf(text[past..]);
      OneMoreInFront(text, n, x, rest);
    }
  }

  lemma OneMoreInFront(text: Text, n: nat, x: Byte, rest: Text)
    requires 0 < n <= |text|
    ensures [text[0]] + (text[1..][..n - 1] + [x] + rest) == text[..n] + [x] + rest
  {
    assert [text[0]] + text[1..][..n - 1] == text[..n];
  }

  lemma FirstBreakIs(a: Text, x: Byte, b: Text)
    requires EndsLine(x) && forall i :: 0 <= i < |a| ==> !EndsLine(a[i])
    ensures Break(a + [x] + b, 0) == |a|
  {
    var text := a + [x] + b;
    assert text[|a|] == x && forall i :: 0 <= i < |a| ==> text[i] == a[i];
  }

  lemma {:induction false} CutAtLineFeeds(text: Text)
    ensures Cut(LF, WithoutCr(text)) == Pieces(text)
    decreases |text|
  {
    var n := Break(text, 0);
    if n == |text| {
      assert WithoutCr(text) == text;
      CutNowhere(LF, text);
    } else {
      OnePieceOff(text, n);
      CutAtFirst(LF, text[..n], WithoutCr(text[n + 1..]));
      CutAtLineFeeds(text[n + 1..]);
    }
  }

  /** A client that reads a refusal is handed exactly the lines of the reason, one line feed between each. */
  lemma ARefusalKeepsItsLines(reason: Text)
    ensures
      var read := Messages(IDLE, Lines(ErrorText(reason)));
      |read| == 1 && read[0].kind == ERROR && Cut(LF, read[0].data) == Lines(reason + [CR])
  {
    hide Cut, Lines, WithoutCr, WithoutCrLf, Pieces;
    ARefusalReadsBack(reason);
    CutAtLineFeeds(WithoutCrLf(reason));
    AReasonsLines(reason);
  }

  lemma ReadsTheKindLine()
    ensures
      var line := EVENT + [COLON, SPACE] + ERROR;
      TakeLine(IDLE, line) == Reader(ERROR, []) && Dispatched(IDLE, line) == []
  {
    var line := EVENT + [COLON, SPACE] + ERROR;
    ColonAfterName(EVENT, [SPACE] + ERROR);
    assert line == EVENT + [COLON] + ([SPACE] + ERROR);
    assert line[..5] == EVENT && line[7..] == ERROR;
  }

  lemma DispatchesAtTheBlank(data: Text)
    ensures Dispatched(Reader(ERROR, [] + data + [LF]), []) == [Message(ERROR, data)]
  {
    assert ([] + data + [LF])[..|data|] == data;
  }

  // ----- running events through a chain -----

  /** What a chain makes of an event: another event, a refusal shown to the caller, or a failure. */
  datatype Verdict = Passed(event: Text) | Refused(reason: Text) | Failed

  /** A chain decides by the event and by what it has been shown before. */
  type Chain = (seq<Text>, Text) -> Verdict

  /** What arrives from upstream. */
  datatype Frame = Data(bytes: Text) | Trailers(fields: Text) | Broken

  /** What is sent on to the caller. */
  datatype Sent = Chunk(bytes: Text) | Tail(fields: Text) | Abort

  /** A stream in hand: what the chain was shown, what the caller was sent, and whether it goes on. */
  datatype Session = Session(shown: seq<Text>, sent: seq<Sent>, open: bool)

  /** Sends one frame, which a caller that has gone, after `room` of them, does not take. */
  function Send(s: Session, frame: Sent, room: nat): Session {
    if |s.sent| < room then s.(sent := s.sent + [frame]) else s.(open := false)
  }

  /** Shows one event to the chain and sends on what it makes of it. */
  function Show(s: Session, event: Text, chain: Chain, room: nat): Session {
    var shown := s.(shown := s.shown + [event]);
    match chain(s.shown, event)
    case Passed(made) => Send(shown, Chunk(made), room)
    case Refused(reason) => Send(shown, Chunk(ErrorText(reason)), room).(open := false)
    case Failed => Send(shown, Abort, room).(open := false)
  }

  /** Shows events one after another, for as long as the stream goes on. */
  function ShowAll(s: Session, events: seq<Text>, chain: Chain, room: nat): Session
    decreases events
  {
    if events == [] || !s.open then s else ShowAll(Show(s, events[0], chain, room), events[1..], chain, room)
  }

  /** Sends a remainder as a chunk of its own, when there is one and the stream still goes on. */
  function Flush(s: Session, rest: Text, room: nat): Session {
    if !s.open || rest == [] then s else Send(s, Chunk(rest), room)
  }

  /** A stretch of stream that is over, as one piece: its events, then what is left of it. */
  function Finish(s: Session, stream: Text, chain: Chain, room: nat): Session {
    Flush(ShowAll(s, Split(stream, true), chain, room), Rest(stream, true), room)
  }

  /** What a body comes to, each stretch of data taken as one piece however it was cut into frames. */
  function Ideal(s: Session, stream: Text, frames: seq<Frame>, chain: Chain, room: nat): Session
    decreases |frames|
  {
    if !s.open then s
    else if frames == [] then Finish(s, stream, chain, room)
    else
      match frames[0]
      case Data(bytes) => Ideal(s, stream + bytes, frames[1..], chain, room)
      case Trailers(fields) =>
        var done := Finish(s, stream, chain, room);
        Ideal(if done.open then Send(done, Tail(fields), room) else done, [], frames[1..], chain, room)
      case Broken =>
        var done := ShowAll(s, Split(stream, false), chain, room);
        if done.open then Send(done, Abort, room).(open := false) else done
  }

  lemma {:induction false} ShowingInParts(s: Session, a: seq<Text>, b: seq<Text>, chain: Chain, room: nat)
    ensures ShowAll(s, a + b, chain, room) == ShowAll(ShowAll(s, a, chain, room), b, chain, room)
    decreases a
  {
    if a == [] {
      assert a + b == b;
    } else if s.open {
      assert (a + b)[0] == a[0] && (a + b)[1..] == a[1..] + b;
      ShowingInParts(Show(s, a[0], chain, room), a[1..], b, chain, room);
    }
  }

  /** Showing what is complete early, and going on with what is left, comes to the same. */
  lemma {:induction false} ShowingEarlyChangesNothing(s: Session, pending: Text, frames: seq<Frame>, chain: Chain,
                                                      room: nat)
    ensures Ideal(s, pending, frames, chain, room) ==
            Ideal(ShowAll(s, Split(pending, false), chain, room), Rest(pending, false), frames, chain, room)
    decreases |frames|
  {
    hide Split, Rest, Show, FirstEnd;
    var early, left := Split(pending, false), Rest(pending, false);
    var s' := ShowAll(s, early, chain, room);
    assert pending + [] == pending && left + [] == left;
    SplittingEarlyChangesNothing(pending, [], true);
    SplittingEarlyChangesNothing(pending, [], false);
    ShowingInParts(s, early, Split(left, true), chain, room);
    ShowingInParts(s, early, Split(left, false), chain, room);
    if frames != [] && frames[0].Data? {
      var more := frames[0].bytes;
      ShowingEarlyChangesNothing(s, pending + more, frames[1..], chain, room);
      ShowingEarlyChangesNothing(s', left + more, frames[1..], chain, room);
      SplittingEarlyChangesNothing(pending, more, false);
      ShowingInParts(s, early, Split(left + more, false), chain, room);
    }
  }

  /** The bytes of a run of data frames, put together. */
  function AllBytes(frames: seq<Frame>): Text
    requires forall i :: 0 <= i < |frames| ==> frames[i].Data?
  {
    if frames == [] then [] else frames[0].bytes + AllBytes(frames[1..])
  }

  /** What pumping frame by frame comes to: each frame's events are shown as it arrives, and the rest waits. */
  function Pumped(s: Session, pending: Text, frames: seq<Frame>, chain: Chain, room: nat): Session
    decreases |frames|
  {
    if !s.open then s
    else if frames == [] then Finish(s, pending, chain, room)
    else
      match frames[0]
      case Data(bytes) =>
        var buffer := pending + bytes;
        Pumped(ShowAll(s, Split(buffer, false), chain, room), Rest(buffer, false), frames[1..], chain, room)
      case Trailers(fields) =>
        var done := Finish(s, pending, chain, room);
        Pumped(if done.open then Send(done, Tail(fields), room) else done, [], frames[1..], chain, room)
      case Broken => Send(s, Abort, room).(open := false)
  }

  /** Frame by frame comes to the same as each stretch of data in one piece, trailers and failures included. */
  lemma {:induction false} PumpingIsIdeal(s: Session, pending: Text, frames: seq<Frame>, chain: Chain, room: nat)
    requires FirstEnd(pending, 0, false).None?
    ensures Pumped(s, pending, frames, chain, room) == Ideal(s, pending, frames, chain, room)
    decreases |frames|
  {
    hide Rest, Show, FirstEnd, Finish;
    if s.open && frames != [] {
      match frames[0]
      case Data(bytes) =>
        var buffer := pending + bytes;
        ShowingEarlyChangesNothing(s, buffer, frames[1..], chain, room);
        NothingCompleteIsLeft(buffer, false);
        PumpingIsIdeal(ShowAll(s, Split(buffer, false), chain, room), Rest(buffer, false), frames[1..], chain, room);
      case Trailers(fields) =>
        var done := Finish(s, pending, chain, room);
        NothingIsWaiting();
        PumpingIsIdeal(if done.open then Send(done, Tail(fields), room) else done, [], frames[1..], chain, room);
      case Broken =>
    }
  }

  lemma NothingIsWaiting()
    ensures FirstEnd([], 0, false).None?
  {
  }

  lemma {:induction false} IdealIsOnePiece(s: Session, stream: Text, frames: seq<Frame>, chain: Chain, room: nat)
    requires s.open && forall i :: 0 <= i < |frames| ==> frames[i].Data?
    ensures Ideal(s, stream, frames, chain, room) == Finish(s, stream + AllBytes(frames), chain, room)
    decreases frames
  {
    if frames == [] {
      assert stream + [] == stream;
    } else {
      IdealIsOnePiece(s, stream + frames[0].bytes, frames[1..], chain, room);
      assert stream + frames[0].bytes + AllBytes(frames[1..]) == stream + AllBytes(frames);
    }
  }

  /** However a stream is cut into data frames, pumping them comes to what the whole of it does in one piece. */
  lemma CutsDoNotMatter(s: Session, frames: seq<Frame>, chain: Chain, room: nat)
    requires s.open && forall i :: 0 <= i < |frames| ==> frames[i].Data?
    ensures Pumped(s, [], frames, chain, room) == Finish(s, AllBytes(frames), chain, room)
  {
    hide Finish, Ideal, Pumped;
    NothingIsWaiting();
    PumpingIsIdeal(s, [], frames, chain, room);
    IdealIsOnePiece(s, [], frames, chain, room);
    assert [] + AllBytes(frames) == AllBytes(frames);
  }

  function Chunks(pieces: seq<Text>): seq<Sent> {
    seq(|pieces|, i requires 0 <= i < |pieces| => Chunk(pieces[i]))
  }

  lemma {:induction false} AnIdentityPassesEveryEvent(s: Session, events: seq<Text>, chain: Chain, room: nat)
    requires s.open && |s.sent| + |events| <= room
    requires forall shown, event :: chain(shown, event) == Passed(event)
    ensures ShowAll(s, events, chain, room) == Session(s.shown + events, s.sent + Chunks(events), true)
    decreases events
  {
    if events != [] {
      var s' := Show(s, events[0], chain, room);
      AnIdentityPassesEveryEvent(s', events[1..], chain, room);
      assert s'.shown + events[1..] == s.shown + events;
      assert s'.sent + Chunks(events[1..]) == s.sent + Chunks(events);
    } else {
      assert s.shown + events == s.shown && s.sent + Chunks(events) == s.sent;
    }
  }

  /** What the caller was sent, as bytes. */
  function Delivered(sent: seq<Sent>): Text {
    if sent == [] then []
    else (if sent[0].Chunk? then sent[0].bytes else []) + Delivered(sent[1..])
  }

  lemma {:induction false} ChunksDeliverTheirBytes(pieces: seq<Text>)
    ensures Delivered(Chunks(pieces)) == Joined(pieces)
  {
    if pieces != [] {
      assert Chunks(pieces)[1..] == Chunks(pieces[1..]);
      ChunksDeliverTheirBytes(pieces[1..]);
    }
  }

  /**
   A chain that changes nothing changes nothing: however the stream was cut, it is shown exactly
   the events of the whole stream, and the caller is delivered exactly the bytes that came.
   */
  lemma AnIdentityChainIsTransparent(frames: seq<Frame>, chain: Chain, room: nat)
    requires forall i :: 0 <= i < |frames| ==> frames[i].Data?
    requires forall shown, event :: chain(shown, event) == Passed(event)
    requires |Split(AllBytes(frames), true)| < room
    ensures
      var end := Pumped(Session([], [], true), [], frames, chain, room);
      end.shown == Split(AllBytes(frames), true) && Delivered(end.sent) == AllBytes(frames)
  {
    hide Pumped, Finish, Split, Delivered;
    CutsDoNotMatter(Session([], [], true), frames, chain, room);
    AnIdentityFinishes(AllBytes(frames), chain, room);
  }

  /** The pieces a stream is sent in by a chain that changes nothing: its events, and what is left. */
  function PiecesOf(stream: Text): seq<Text> {
    Split(stream, true) + if Rest(stream, true) == [] then [] else [Rest(stream, true)]
  }

  lemma AnIdentityFinishes(stream: Text, chain: Chain, room: nat)
    requires forall shown, event :: chain(shown, event) == Passed(event)
    requires |Split(stream, true)| < room
    ensures
      var end := Finish(Session([], [], true), stream, chain, room);
      end.shown == Split(stream, true) && Delivered(end.sent) == stream
  {
    hide Split, Rest, ShowAll, Delivered;
    var events := Split(stream, true);
    AnIdentityPassesEveryEvent(Session([], [], true), events, chain, room);
    assert [] + events == events && [] + Chunks(events) == Chunks(events);
    assert Finish(Session([], [], true), stream, chain, room).sent == Chunks(PiecesOf(stream));
    ChunksDeliverTheirBytes(PiecesOf(stream));
    PiecesAreTheStream(stream);
  }

  lemma PiecesAreTheStream(stream: Text)
    ensures Joined(PiecesOf(stream)) == stream
  {
    hide Split, Rest;
    var events, rest := Split(stream, true), Rest(stream, true);
    SplitLosesNothing(stream, true);
    JoinedTogether(events, [rest]);
    assert Joined([rest]) == rest + Joined([]) == rest;
    assert rest == [] ==> PiecesOf(stream) == events;
  }

  // ----- what a chain makes of events is what the caller gets -----

  /** What a chain that passes each of the first events of a stream makes of them. */
  ghost predicate Makes(chain: Chain, shown: seq<Text>, events: seq<Text>, made: seq<Text>) {
    && |made| <= |events|
    && forall i :: 0 <= i < |made| ==> chain(shown + events[..i], events[i]) == Passed(made[i])
  }

  /** Where events pass, the chain is shown them in order and the caller sent what was made of each. */
  lemma {:induction false} WhatIsMadeIsSent(s: Session, events: seq<Text>, made: seq<Text>, chain: Chain, room: nat)
    requires s.open && Makes(chain, s.shown, events, made) && Fits(s, made, room)
    ensures ShowAll(s, events, chain, room) ==
            ShowAll(Session(s.shown + events[..|made|], s.sent + Chunks(made), true), events[|made|..], chain, room)
    decreases |made|
  {
    if made == [] {
      assert s.shown + events[..0] == s.shown && s.sent + Chunks(made) == s.sent && events[0..] == events;
    } else {
      assert s.shown + events[..0] == s.shown;
      var s' := Show(s, events[0], chain, room);
      assert s' == Session(s.shown + [events[0]], s.sent + [Chunk(made[0])], true);
      assert ShowAll(s, events, chain, room) == ShowAll(s', events[1..], chain, room);
      MakesOn(chain, s.shown, events, made);
      hide Show, ShowAll, Makes;
      WhatIsMadeIsSent(s', events[1..], made[1..], chain, room);
      MadeInFront(s, events, made);
    }
  }

  lemma MakesOn(chain: Chain, shown: seq<Text>, events: seq<Text>, made: seq<Text>)
    requires Makes(chain, shown, events, made) && made != []
    ensures Makes(chain, shown + [events[0]], events[1..], made[1..])
  {
    forall i | 0 <= i < |made| - 1
      ensures chain(shown + [events[0]] + events[1..][..i], events[1..][i]) == Passed(made[1..][i])
    {
      assert shown + [events[0]] + events[1..][..i] == shown + events[..i + 1];
    }
  }

  lemma MadeInFront(s: Session, events: seq<Text>, made: seq<Text>)
    requires 0 < |made| <= |events|
    ensures s.shown + [events[0]] + events[1..][..|made| - 1] == s.shown + events[..|made|]
    ensures s.sent + [Chunk(made[0])] + Chunks(made[1..]) == s.sent + Chunks(made)
    ensures events[1..][|made| - 1..] == events[|made|..]
  {
  }

  /** A refusal as the caller gets it: one event, which a client reads as one error of that reason. */
  ghost predicate Tells(frame: Sent, reason: Text) {
    && frame.Chunk?
    && (forall atEnd :: FirstEnd(frame.bytes, 0, atEnd) == Some(|frame.bytes|))
    && Messages(IDLE, Lines(frame.bytes)) == [Message(ERROR, WithoutCr(WithoutCrLf(reason)))]
  }

  /** Whether the caller has room for what was made. */
  ghost predicate Fits(s: Session, made: seq<Text>, room: nat) {
    made == [] || |s.sent| + |made| <= room
  }

  /**
   What comes of showing a chain events, by what it makes of them. All passed: all shown, and what was
   made of each sent. The first refused: what was made before it, then one frame that tells of the
   refusal. The first that fails: what was made before it, then an abort. A caller that is gone: what it
   had room for. Nothing after any of the last three is shown or sent.
   */
  ghost predicate ChainDecides(before: Session, events: seq<Text>, chain: Chain, room: nat, end: Session) {
    && (forall made ::
          Makes(chain, before.shown, events, made) && |made| == |events| && Fits(before, made, room) ==>
          end == Session(before.shown + events, before.sent + Chunks(made), true))
    && (forall made ::
          Makes(chain, before.shown, events, made) && |made| < |events| && |before.sent| + |made| < room ==>
          Stops(before, events, made, chain, end))
    && (forall made ::
          && Makes(chain, before.shown, events, made) && |made| < |events|
          && Fits(before, made, room) && |before.sent| + |made| >= room ==>
          end == Session(before.shown + events[..|made| + 1], before.sent + Chunks(made), false))
  }

  /** How a stream ends at the first event that is not passed. */
  ghost predicate Stops(before: Session, events: seq<Text>, made: seq<Text>, chain: Chain, end: Session)
    requires |made| < |events|
  {
    var verdict := chain(before.shown + events[..|made|], events[|made|]);
    && (verdict.Refused? || verdict.Failed? ==>
          && !end.open && end.shown == before.shown + events[..|made| + 1]
          && |end.sent| == |before.sent| + |made| + 1
          && end.sent[..|end.sent| - 1] == before.sent + Chunks(made))
    && (verdict.Refused? ==> Tells(end.sent[|end.sent| - 1], verdict.reason))
    && (verdict.Failed? ==> end.sent[|end.sent| - 1] == Abort)
  }

  lemma ARefusalTells(reason: Text)
    ensures Tells(Chunk(ErrorText(reason)), reason)
  {
    hide FirstEnd, ErrorText, Messages, Lines;
    ARefusalIsOneEvent(reason, true);
    ARefusalIsOneEvent(reason, false);
    ARefusalReadsBack(reason);
  }

  lemma TheChainDecides(s: Session, events: seq<Text>, chain: Chain, room: nat)
    requires s.open
    ensures ChainDecides(s, events, chain, room, ShowAll(s, events, chain, room))
  {
    hide Stops, ShowAll, Makes, Chunks;
    forall made | Makes(chain, s.shown, events, made) && |made| == |events| && Fits(s, made, room)
      ensures ShowAll(s, events, chain, room) == Session(s.shown + events, s.sent + Chunks(made), true)
    {
      PassedAll(s, events, made, chain, room);
    }
    forall made | Makes(chain, s.shown, events, made) && |made| < |events| && |s.sent| + |made| < room
      ensures Stops(s, events, made, chain, ShowAll(s, events, chain, room))
    {
      StoppedAt(s, events, made, chain, room);
    }
    forall made | && Makes(chain, s.shown, events, made) && |made| < |events|
                  && Fits(s, made, room) && |s.sent| + |made| >= room
      ensures ShowAll(s, events, chain, room) ==
              Session(s.shown + events[..|made| + 1], s.sent + Chunks(made), false)
    {
      CallerGoneAt(s, events, made, chain, room);
    }
  }

  lemma PassedAll(s: Session, events: seq<Text>, made: seq<Text>, chain: Chain, room: nat)
    requires s.open && Makes(chain, s.shown, events, made) && |made| == |events| && Fits(s, made, room)
    ensures ShowAll(s, events, chain, room) == Session(s.shown + events, s.sent + Chunks(made), true)
  {
    WhatIsMadeIsSent(s, events, made, chain, room);
    assert events[..|made|] == events && events[|made|..] == [];
  }

  lemma StoppedAt(s: Session, events: seq<Text>, made: seq<Text>, chain: Chain, room: nat)
    requires s.open && |made| < |events| && Makes(chain, s.shown, events, made) && |s.sent| + |made| < room
    ensures Stops(s, events, made, chain, ShowAll(s, events, chain, room))
  {
    hide ErrorText, Tells, Makes, Chunks;
    var n := |made|;
    WhatIsMadeIsSent(s, events, made, chain, room);
    assert events[n..][0] == events[n];
    assert s.shown + events[..n] + [events[n]] == s.shown + events[..n + 1];
    var verdict := chain(s.shown + events[..n], events[n]);
    if verdict.Refused? {
      ARefusalTells(verdict.reason);
    }
    ChunksCount(made);
  }

  lemma ChunksCount(pieces: seq<Text>)
    ensures |Chunks(pieces)| == |pieces|
  {
  }

  lemma CallerGoneAt(s: Session, events: seq<Text>, made: seq<Text>, chain: Chain, room: nat)
    requires s.open && |made| < |events| && Makes(chain, s.shown, events, made)
    requires Fits(s, made, room) && |s.sent| + |made| >= room
    ensures ShowAll(s, events, chain, room) == Session(s.shown + events[..|made| + 1], s.sent + Chunks(made), false)
  {
    hide ErrorText, Makes, Chunks;
    var n := |made|;
    WhatIsMadeIsSent(s, events, made, chain, room);
    ChunksCount(made);
    assert events[n..][0] == events[n];
    assert s.shown + events[..n] + [events[n]] == s.shown + events[..n + 1];
  }

  /** One turn of the loop: the first event is shown, and the rest follows while the stream goes on. */
  lemma ShowingTheFirst(s: Session, pending: Text, atEnd: bool, chain: Chain, room: nat)
    requires s.open
    ensures
      var all := ShowAll(s, Split(pending, atEnd), chain, room);
      match FirstEnd(pending, 0, atEnd)
      case None => all == s && Rest(pending, atEnd) == pending
      case Some(end) =>
        var first := Show(s, pending[..end], chain, room);
        && Rest(pending, atEnd) == Rest(pending[end..], atEnd)
        && all == if first.open then ShowAll(first, Split(pending[end..], atEnd), chain, room) else first
  {
    hide FirstEnd, Show;
    var end := FirstEnd(pending, 0, atEnd);
    if end.Some? {
      assert Split(pending, atEnd)[1..] == Split(pending[end.value..], atEnd);
    }
  }

  predicate AllData(frames: seq<Frame>) {
    forall i :: 0 <= i < |frames| ==> frames[i].Data?
  }

  /** How a body ends: with its last data, with trailers, or broken off. */
  lemma {:induction false} HowABodyEnds(s: Session, stream: Text, frames: seq<Frame>, last: Frame,
                                        chain: Chain, room: nat)
    requires s.open && AllData(frames) && !last.Data?
    ensures
      var whole := stream + AllBytes(frames);
      Ideal(s, stream, frames + [last], chain, room) ==
      if last.Broken? then
        var shown := ShowAll(s, Split(whole, false), chain, room);
        if shown.open then Send(shown, Abort, room).(open := false) else shown
      else
        var done := Finish(s, whole, chain, room);
        if done.open then Send(done, Tail(last.fields), room) else done
    decreases |frames|
  {
    hide Split, ShowAll, Rest;
    if frames == [] {
      assert frames + [last] == [last] && stream + [] == stream && [last][1..] == [];
      NothingToFinish(chain, room);
    } else {
      assert (frames + [last])[0] == frames[0] && (frames + [last])[1..] == frames[1..] + [last];
      HowABodyEnds(s, stream + frames[0].bytes, frames[1..], last, chain, room);
      assert stream + frames[0].bytes + AllBytes(frames[1..]) == stream + AllBytes(frames);
    }
  }

  lemma NothingToFinish(chain: Chain, room: nat)
    ensures forall d: Session :: Finish(d, [], chain, room) == d
  {
    assert Split([], true) == [] && Rest([], true) == [];
  }

  /**
   What a stream leaves that is over: what the chain decides of its events and then, if it goes on, what
   is left of it as it stands and a tail, as far as the caller has room.
   */
  ghost predicate Leaves(start: Session, stream: Text, tail: seq<Sent>, chain: Chain, room: nat,
                         shown: seq<Text>, sent: seq<Sent>)
  {
    var more := (if Rest(stream, true) == [] then [] else [Chunk(Rest(stream, true))]) + tail;
    exists mid ::
      && ChainDecides(start, Split(stream, true), chain, room, mid) && shown == mid.shown
      && sent == if mid.open then mid.sent + more[..Max(0, Min(|more|, room - |mid.sent|))] else mid.sent
  }

  /** What a stream leaves that breaks off: what the chain decides of what is complete, and an abort. */
  ghost predicate BreaksOff(start: Session, stream: Text, chain: Chain, room: nat, shown: seq<Text>, sent: seq<Sent>) {
    exists mid ::
      && ChainDecides(start, Split(stream, false), chain, room, mid) && shown == mid.shown
      && sent == if mid.open && |mid.sent| < room then mid.sent + [Abort] else mid.sent
  }

  lemma AStreamLeaves(s: Session, stream: Text, chain: Chain, room: nat)
    requires s.open
    ensures
      var end := Finish(s, stream, chain, room);
      Leaves(s, stream, [], chain, room, end.shown, end.sent)
  {
    hide Split, Rest, ShowAll, ChainDecides;
    TheChainDecides(s, Split(stream, true), chain, room);
    var mid := ShowAll(s, Split(stream, true), chain, room);
    assert ChainDecides(s, Split(stream, true), chain, room, mid);
  }

  lemma AStreamWithATailLeaves(s: Session, stream: Text, fields: Text, chain: Chain, room: nat)
    requires s.open
    ensures
      var done := Finish(s, stream, chain, room);
      var end := if done.open then Send(done, Tail(fields), room) else done;
      Leaves(s, stream, [Tail(fields)], chain, room, end.shown, end.sent)
  {
    hide Split, Rest, ShowAll, ChainDecides;
    TheChainDecides(s, Split(stream, true), chain, room);
    var mid, rest := ShowAll(s, Split(stream, true), chain, room), Rest(stream, true);
    assert ChainDecides(s, Split(stream, true), chain, room, mid);
    var more := (if rest == [] then [] else [Chunk(rest)]) + [Tail(fields)];
    assert rest == [] ==> more == [Tail(fields)];
    assert rest != [] ==> more == [Chunk(rest), Tail(fields)];
  }

  lemma ABrokenStreamLeaves(s: Session, stream: Text, chain: Chain, room: nat)
    requires s.open
    ensures
      var mid := ShowAll(s, Split(stream, false), chain, room);
      var end := if mid.open then Send(mid, Abort, room).(open := false) else mid;
      BreaksOff(s, stream, chain, room, end.shown, end.sent)
  {
    hide Split, ShowAll, ChainDecides;
    TheChainDecides(s, Split(stream, false), chain, room);
  }

  lemma TheEnding(s: Session, frames: seq<Frame>, chain: Chain, room: nat)
    requires s.open && frames != [] && AllData(frames[..|frames| - 1]) && !frames[|frames| - 1].Data?
    ensures
      var data, last, end := AllBytes(frames[..|frames| - 1]), frames[|frames| - 1], Ideal(s, [], frames, chain, room);
      && (last.Trailers? ==> Leaves(s, data, [Tail(last.fields)], chain, room, end.shown, end.sent))
      && (last.Broken? ==> BreaksOff(s, data, chain, room, end.shown, end.sent))
  {
    hide Ideal, Finish, Leaves, BreaksOff, ShowAll, Split;
    var init, last := frames[..|frames| - 1], frames[|frames| - 1];
    assert frames == init + [last] && [] + AllBytes(init) == AllBytes(init);
    HowABodyEnds(s, [], init, last, chain, room);
    if last.Broken? {
      ABrokenStreamLeaves(s, AllBytes(init), chain, room);
    } else {
      AStreamWithATailLeaves(s, AllBytes(init), last.fields, chain, room);
    }
  }

  /** The buffer and the caller's end of one streamed body. */
  class Pump {
    const chain: Chain
    const room: nat
    var pending: Text
    var shown: seq<Text>
    var sent: seq<Sent>

    constructor (chain: Chain, room: nat)
      ensures this.chain == chain && this.room == room && pending == [] && shown == [] && sent == []
    {
      this.chain, this.room := chain, room;
      pending, shown, sent := [], [], [];
    }

    method SendOn(frame: Sent) returns (taken: bool)
      modifies this`sent
      ensures Session(shown, sent, taken) == Send(Session(shown, old(sent), true), frame, room)
    {
      taken := |sent| < room;
      if taken {
        sent := sent + [frame];
      }
    }

    /** One event run through the chain and on, answering whether the stream still goes on. */
    method Forward(event: Text) returns (goesOn: bool)
      modifies this`shown, this`sent
      ensures Session(shown, sent, goesOn) == Show(Session(old(shown), old(sent), true), event, chain, room)
    {
      hide ErrorText;
      var verdict := chain(shown, event);
      shown := shown + [event];
      match verdict {
        case Passed(made) => goesOn := SendOn(Chunk(made));
        case Refused(reason) =>
          var text := ErrorEvent(reason);
          var _ := SendOn(Chunk(text));
          goesOn := false;
        case Failed =>
          var _ := SendOn(Abort);
          goesOn := false;
      }
    }

    /** The loop over the buffer's complete events, answering whether the stream still goes on. */
    method ForwardEvents(atEnd: bool) returns (goesOn: bool)
      modifies this
      ensures Session(shown, sent, goesOn) ==
              ShowAll(Session(old(shown), old(sent), true), Split(old(pending), atEnd), chain, room)
      ensures goesOn ==> pending == Rest(old(pending), atEnd)
      ensures ChainDecides(Session(old(shown), old(sent), true), Split(old(pending), atEnd), chain, room,
                           Session(shown, sent, goesOn))
    {
      hide ChainDecides, FirstEnd, ErrorText, LineEnd, Show, ShowAll, Split, Rest;
      TheChainDecides(Session(shown, sent, true), Split(pending, atEnd), chain, room);
      ghost var start := Session(shown, sent, true);
      ghost var events := Split(pending, atEnd);
      var end := EventEnd(pending, atEnd);
      while end.Some?
        invariant end == FirstEnd(pending, 0, atEnd)
        invariant Rest(pending, atEnd) == Rest(old(pending), atEnd)
        invariant ShowAll(start, events, chain, room) ==
                  ShowAll(Session(shown, sent, true), Split(pending, atEnd), chain, room)
        decreases |pending|
      {
        var event := pending[..end.value];
        ShowingTheFirst(Session(shown, sent, true), pending, atEnd, chain, room);
        pending := pending[end.value..];
        goesOn := Forward(event);
        if !goesOn {
          return;
        }
        end := EventEnd(pending, atEnd);
      }
      ShowingTheFirst(Session(shown, sent, true), pending, atEnd, chain, room);
      goesOn := true;
    }

    method FlushPending() returns (goesOn: bool)
      modifies this
      ensures Session(shown, sent, goesOn) == Flush(Session(old(shown), old(sent), true), old(pending), room)
      ensures goesOn ==> pending == []
    {
      if pending == [] {
        return true;
      }
      goesOn := SendOn(Chunk(pending));
      pending := [];
    }

    /**
     Pumps a whole body, frame by frame. The chain is shown, and the caller sent, exactly what they
     would be had each stretch of data arrived in one piece; where all of it is data, what the whole
     stream gives; and under a chain that changes nothing, the stream's events and the stream's bytes.
     */
    method Run(frames: seq<Frame>)
      requires pending == []
      modifies this
      ensures
        var end := Ideal(Session(old(shown), old(sent), true), [], frames, chain, room);
        shown == end.shown && sent == end.sent
      ensures AllData(frames) ==>
        var end := Finish(Session(old(shown), old(sent), true), AllBytes(frames), chain, room);
        shown == end.shown && sent == end.sent
      ensures AllData(frames) ==>
        Leaves(Session(old(shown), old(sent), true), AllBytes(frames), [], chain, room, shown, sent)
      ensures frames != [] && AllData(frames[..|frames| - 1]) ==>
        var start := Session(old(shown), old(sent), true);
        var data, last := AllBytes(frames[..|frames| - 1]), frames[|frames| - 1];
        && (last.Trailers? ==> Leaves(start, data, [Tail(last.fields)], chain, room, shown, sent))
        && (last.Broken? ==> BreaksOff(start, data, chain, room, shown, sent))
      ensures
        && AllData(frames)
        && (forall before, event :: chain(before, event) == Passed(event))
        && old(shown) == [] && old(sent) == [] && |Split(AllBytes(frames), true)| < room
        ==> shown == Split(AllBytes(frames), true) && Delivered(sent) == AllBytes(frames)
    {
      ghost var start := Session(shown, sent, true);
      Drive(frames);
      hide Pumped, Ideal, Finish, Split, Delivered, Leaves, BreaksOff;
      NothingIsWaiting();
      PumpingIsIdeal(start, [], frames, chain, room);
      if frames != [] && AllData(frames[..|frames| - 1]) && !frames[|frames| - 1].Data? {
        TheEnding(start, frames, chain, room);
      }
      if AllData(frames) {
        CutsDoNotMatter(start, frames, chain, room);
        AStreamLeaves(start, AllBytes(frames), chain, room);
        if (forall before, event :: chain(before, event) == Passed(event)) && start == Session([], [], true)
           && |Split(AllBytes(frames), true)| < room {
          AnIdentityChainIsTransparent(frames, chain, room);
        }
      }
    }

    /** The loop over the frames. */
    method Drive(frames: seq<Frame>)
      modifies this
      ensures
        var end := Pumped(Session(old(shown), old(sent), true), old(pending), frames, chain, room);
        shown == end.shown && sent == end.sent
    {
      ghost var pumped := Pumped(Session(shown, sent, true), pending, frames, chain, room);
      var i := 0;
      while i < |frames|
        invariant 0 <= i <= |frames|
        invariant pumped == Pumped(Session(shown, sent, true), pending, frames[i..], chain, room)
      {
        assert frames[i..][0] == frames[i] && frames[i..][1..] == frames[i + 1..];
        match frames[i] {
          case Broken =>
            var _ := SendOn(Abort);
            return;
          case Data(bytes) =>
            pending := pending + bytes;
            var goesOn := ForwardEvents(false);
            if !goesOn {
              return;
            }
          case Trailers(fields) =>
            var goesOn := ForwardEvents(true);
            if goesOn {
              goesOn := FlushPending();
            }
            if goesOn {
              goesOn := SendOn(Tail(fields));
            }
            if !goesOn {
              return;
            }
        }
        i := i + 1;
      }
      var goesOn := ForwardEvents(true);
      if goesOn {
        var _ := FlushPending();
      }
    }
  }
}
