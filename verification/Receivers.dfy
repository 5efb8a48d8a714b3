/**
 The two receivers of serial output: the COM2 collector reads a socket, the serial tail polls
 a file. Both record every complete line once and in order on the acceptance timeline.
 */
module Receivers {
  import opened Bytes
  import opened Results
  import opened Timeline
  import opened Lines
  import opened Utf8

  // ----------------------------------------------------------- the COM2 collector

  function Tagged(source: string, lines: seq<string>): (es: seq<Event>)
    ensures |es| == |lines|
  {
    seq(|lines|, i requires 0 <= i < |lines| => (source, lines[i]))
  }

  lemma TaggedSnoc(source: string, lines: seq<string>, line: string)
    ensures Tagged(source, lines + [line]) == Tagged(source, lines) + [(source, line)]
  {
  }

  lemma TaggedAppends(source: string, xs: seq<string>, ys: seq<string>)
    ensures Tagged(source, xs + ys) == Tagged(source, xs) + Tagged(source, ys)
  {
  }

  function DecodeAll<T>(decode: seq<T> -> string, lines: seq<seq<T>>): (r: seq<string>)
    ensures |r| == |lines|
  {
    seq(|lines|, i requires 0 <= i < |lines| => decode(lines[i]))
  }

  /** The lines of a whole stream. */
  function LinesOf<T(==)>(decode: seq<T> -> string, stream: seq<T>, newline: T, cr: T): seq<string> {
    DecodeAll(decode, Whole(stream, newline, cr).lines)
  }

  datatype Com2Error = Closed | TimedOut

  /** The bytes that have arrived; a timeout brings none. */
  function Arrived<T>(incoming: seq<Option<seq<T>>>): seq<T> {
    if incoming == [] then []
    else
      Arrived(incoming[..|incoming| - 1]) +
        match incoming[|incoming| - 1] { case None => [] case Some(chunk) => chunk }
  }

  lemma NothingArrived<T>()
    ensures Arrived<T>([]) == []
  {
  }

  lemma ArrivedNext<T>(incoming: seq<Option<seq<T>>>, k: nat)
    requires k < |incoming|
    ensures Arrived(incoming[..k + 1]) ==
      Arrived(incoming[..k]) + match incoming[k] { case None => [] case Some(chunk) => chunk }
  {
    assert incoming[..k + 1][..k] == incoming[..k];
  }

  /** `Com2Collector`: splits bytes, and decodes complete lines, with whatever decoder. */
  class Com2Collector<T(==)> {
    const timeline: AcceptanceTimeline
    const decode: seq<T> -> string
    const newline: T
    const cr: T
    var captured: seq<T>
    var remainder: seq<T>
    var completeLines: seq<string>
    ghost var received: Received<T>

    ghost predicate Valid()
      reads this
    {
      remainder == received.rest && completeLines == DecodeAll(decode, received.lines)
    }

    /** What was received is what the captured stream holds as a whole. */
    ghost predicate Synced()
      reads this
    {
      Valid() && received == Whole(captured, newline, cr)
    }

    constructor (timeline: AcceptanceTimeline, decode: seq<T> -> string, newline: T, cr: T)
      ensures Synced() && captured == []
      ensures this.timeline == timeline && this.decode == decode && this.newline == newline && this.cr == cr
    {
      this.timeline, this.decode, this.newline, this.cr := timeline, decode, newline, cr;
      captured, remainder, completeLines, received := [], [], [], Received([], []);
      new;
      ChunkIndependent<T>([], newline, cr);
    }

    /** `_record_complete_lines`: the new lines go to the list and to the timeline, in order. */
    method RecordCompleteLines(chunk: seq<T>)
      requires Valid()
      modifies this`remainder, this`completeLines, this`received, timeline
      ensures Valid() && received == Feed(old(received), chunk, newline, cr)
      ensures old(completeLines) <= completeLines
      ensures timeline.events == old(timeline.events) + Tagged("COM2", completeLines[|old(completeLines)|..])
    {
      hide Split, Strip;
      var parts := Split(remainder + chunk, newline);
      remainder := Unfinished(parts);
      var finished := Finished(parts);
      ghost var before, events := completeLines, timeline.events;
      ghost var added: seq<string> := [];
      assert completeLines == before + added && timeline.events == events + Tagged("COM2", added);
      for i := 0 to |finished|
        invariant remainder == Unfinished(parts) && received == old(received)
        invariant |added| == i && forall j | 0 <= j < i :: added[j] == decode(Strip(finished[j], cr))
        invariant completeLines == before + added
        invariant timeline.events == events + Tagged("COM2", added)
      {
        var complete := decode(Strip(finished[i], cr));
        TaggedSnoc("COM2", added, complete);
        completeLines := completeLines + [complete];
        timeline.Record("COM2", complete);
        added := added + [complete];
      }
      received := Feed(received, chunk, newline, cr);
      assert completeLines == DecodeAll(decode, received.lines);
      assert completeLines[|before|..] == added;
    }

    /** One chunk from the socket. */
    method Receive(chunk: seq<T>)
      requires Synced()
      modifies this, timeline
      ensures Synced() && captured == old(captured) + chunk && old(completeLines) <= completeLines
      ensures timeline.events == old(timeline.events) + Tagged("COM2", completeLines[|old(completeLines)|..])
    {
      hide Feed, Whole;
      FeedExtends(captured, chunk, newline, cr);
      captured := captured + chunk;
      RecordCompleteLines(chunk);
    }

    /**
     `read_until`: one item for each turn of the loop up to the deadline, with what `recv` returns in
     it: a timeout, a chunk, or an empty chunk from a closed socket. However the stream is cut, the
     lines are those of the whole captured stream, each recorded once and in order, and reading
     stops at the first chunk that completes the marker.
     */
    method ReadUntil(marker: string, turns: seq<Option<seq<T>>>) returns (r: Result<seq<T>, Com2Error>, used: nat)
      requires Synced()
      modifies this, timeline
      ensures Synced() && used <= |turns| && captured == old(captured) + Arrived(turns[..used])
      ensures old(completeLines) <= completeLines
      ensures timeline.events == old(timeline.events) + Tagged("COM2", completeLines[|old(completeLines)|..])
      ensures r.Ok? <==> turns != [] && marker in completeLines
      ensures r.Ok? ==> r.value == Arrived(turns[..used])
      ensures r == Err(Closed) ==> used < |turns| && turns[used] == Some([])
      ensures r == Err(TimedOut) ==> used == |turns|
      ensures forall k | 0 <= k < used ::
        marker !in LinesOf(decode, old(captured) + Arrived(turns[..k]), newline, cr)
    {
      hide Feed, Whole, DecodeAll, Arrived;
      var start := |captured|;
      used := 0;
      assert Arrived<T>(turns[..0]) == [] by {
        NothingArrived<T>();
      }
      while used < |turns|
        invariant used <= |turns| && Synced() && (used > 0 ==> marker !in completeLines)
        invariant captured == old(captured) + Arrived(turns[..used])
        invariant old(completeLines) <= completeLines
        invariant timeline.events == old(timeline.events) + Tagged("COM2", completeLines[|old(completeLines)|..])
        invariant forall k | 0 <= k < used ::
          marker !in LinesOf(decode, old(captured) + Arrived(turns[..k]), newline, cr)
      {
        if marker in completeLines {
          r := Ok(captured[start..]);
          return;
        }
        ghost var earlier := completeLines;
        assert earlier == LinesOf(decode, captured, newline, cr);
        ArrivedNext(turns, used);
        match turns[used] {
          case None =>
            used := used + 1;
          case Some(chunk) =>
            if chunk == [] {
              r := Err(Closed);
              return;
            }
            Receive(chunk);
            used := used + 1;
            TaggedAppends("COM2", earlier[|old(completeLines)|..], completeLines[|earlier|..]);
            assert completeLines[|old(completeLines)|..]
                == earlier[|old(completeLines)|..] + completeLines[|earlier|..];
            if marker in completeLines {
              r := Ok(captured[start..]);
              return;
            }
        }
      }
      r := Err(TimedOut);
    }
  }

  // ------------------------------------------------------------- the serial tail

  /** The characters of recorded lines that are not line ends. */
  function VisibleIn(r: Received<char>): nat {
    VisibleOf(r.lines) + Visible(r.rest)
  }

  function VisibleOf(lines: seq<string>): nat {
    if lines == [] then 0 else Visible(lines[0]) + VisibleOf(lines[1..])
  }

  lemma {:induction false} SplitKeepsVisible(s: string)
    ensures VisibleOf(Split(s, '\n')) == Visible(s)
  {
    if s == [] {
      assert Split(s, '\n')[1..] == [];
    } else {
      SplitKeepsVisible(s[1..]);
      var rest, parts := Split(s[1..], '\n'), Split(s, '\n');
      if s[0] == '\n' {
        assert parts[1..] == rest;
      } else {
        assert parts[1..] == rest[1..] && parts[0][1..] == rest[0];
      }
    }
  }

  lemma {:induction false} StripKeepsVisible(line: string)
    ensures Visible(Strip(line, '\r')) == Visible(line)
  {
    if line != [] && line[|line| - 1] == '\r' {
      var front := line[..|line| - 1];
      StripKeepsVisible(front);
      assert line == front + "\r";
      VisibleAppends(front, "\r");
    }
  }

  lemma {:induction false} StripAllKeepsVisible(lines: seq<string>)
    ensures VisibleOf(StripAll(lines, '\r')) == VisibleOf(lines)
  {
    if lines != [] {
      StripKeepsVisible(lines[0]);
      StripAllKeepsVisible(lines[1..]);
      assert StripAll(lines, '\r')[1..] == StripAll(lines[1..], '\r');
    }
  }

  lemma {:induction false} VisibleOfLast(lines: seq<string>)
    requires lines != []
    ensures VisibleOf(lines) == VisibleOf(lines[..|lines| - 1]) + Visible(lines[|lines| - 1])
  {
    if |lines| > 1 {
      VisibleOfLast(lines[1..]);
      assert lines[1..][..|lines| - 2] == lines[..|lines| - 1][1..];
    }
  }

  lemma WholeKeepsVisible(text: string)
    ensures VisibleIn(Whole(text, '\n', '\r')) == Visible(text)
  {
    hide Split, StripAll, Visible, VisibleOf, Whole;
    var parts := Split(text, '\n');
    WholeIsSplit(text, '\n', '\r');
    SplitKeepsVisible(text);
    VisibleOfLast(parts);
    StripAllKeepsVisible(Finished(parts));
  }

  /**
   A file read in pieces: its lines are those of the file decoded as a whole exactly if every piece
   starts at a boundary of the decoder.
   */
  lemma PiecesShowFileIff(pieces: seq<bytes>)
    ensures Whole(DecodePieces(pieces), '\n', '\r') == Whole(Decode(Flatten(pieces)), '\n', '\r') <==> CleanCuts(pieces)
  {
    hide Split, StripAll, Decode, CleanCuts, Flatten, Whole;
    PiecesDecodeIff(pieces);
    WholeKeepsVisible(Decode(Flatten(pieces)));
    WholeKeepsVisible(DecodePieces(pieces));
  }

  /** For the file of a text: its lines are those of the text exactly if no piece starts inside a character. */
  lemma PiecesShowTextIff(pieces: seq<bytes>, text: string)
    requires Flatten(pieces) == Encode(text)
    ensures Whole(DecodePieces(pieces), '\n', '\r') == Whole(text, '\n', '\r') <==> StartsClean(pieces)
  {
    hide Decode, Encode, CleanCuts, StartsClean, Flatten, Whole;
    PiecesShowFileIff(pieces);
    EncodedCleanIff(pieces, text);
    DecodeEncoded(text, []);
    EmptyDecodes();
    assert Encode(text) + [] == Encode(text) && text + [] == text;
  }

  /** Each content of the file continues the one before. */
  ghost predicate Grows(before: bytes, files: seq<bytes>)
    decreases |files|
  {
    files == [] || (before <= files[0] && Grows(files[0], files[1..]))
  }

  /** What each reading finds new. */
  ghost function Increments(before: bytes, files: seq<bytes>): seq<bytes>
    requires Grows(before, files)
    decreases |files|
  {
    if files == [] then [] else [files[0][|before|..]] + Increments(files[0], files[1..])
  }

  lemma NothingWhole()
    ensures Flatten([]) == [] && Whole(DecodePieces([]), '\n', '\r') == Received([], [])
  {
    ChunkIndependent<char>([], '\n', '\r');
  }

  /** `SerialTail`: every poll decodes what is new in the file by itself. */
  class SerialTail {
    const timeline: AcceptanceTimeline
    var offset: nat
    var remainder: string
    var lines: seq<string>
    ghost var pieces: seq<bytes>

    ghost predicate Valid()
      reads this
    {
      offset == |Flatten(pieces)| && Received(lines, remainder) == Whole(DecodePieces(pieces), '\n', '\r')
    }

    constructor (timeline: AcceptanceTimeline)
      ensures Valid() && pieces == [] && lines == [] && this.timeline == timeline
    {
      this.timeline := timeline;
      offset, remainder, lines, pieces := 0, "", [], [];
      new;
      NothingWhole();
    }

    /** `poll`: a missing file changes nothing, a longer one continues, a shorter one starts over. */
    method Poll(file: Option<bytes>) returns (progress: bool)
      requires Valid()
      modifies this, timeline
      ensures Valid()
      ensures file.None? ==>
        pieces == old(pieces) && lines == old(lines) && !progress && timeline.events == old(timeline.events)
      ensures file.Some? ==> Flatten(pieces) == Seen(old(Flatten(pieces)), file.value)
      ensures file.Some? && old(offset) <= |file.value| ==>
        && pieces == old(pieces) + [file.value[old(offset)..]]
        && old(lines) <= lines && (progress <==> |lines| > |old(lines)|)
        && timeline.events == old(timeline.events) + Tagged("COM1", lines[|old(lines)|..])
      ensures file.Some? && |file.value| < old(offset) ==>
        && pieces == [file.value] && (progress <==> lines != [])
        && timeline.events == old(timeline.events) + Tagged("COM1", lines)
    {
      if file.None? {
        return false;
      }
      var data := file.value;
      hide Split, Whole, Decode, DecodePieces, Flatten, StripAll;
      if |data| < offset {
        offset, remainder, lines := 0, "", [];
        pieces := [];
        NothingWhole();
      }
      ghost var known := pieces;
      var chunk := Decode(data[offset..]);
      pieces := pieces + [data[offset..]];
      FlattenSnoc(known, data[offset..]);
      DecodePiecesSnoc(known, data[offset..]);
      FeedExtends(DecodePieces(known), chunk, '\n', '\r');
      offset := |data|;
      var parts := Split(remainder + chunk, '\n');
      remainder := Unfinished(parts);
      var finished := Finished(parts);
      ghost var before := lines;
      AddLines(finished);
      assert lines[|before|..] == StripAll(finished, '\r');
      progress := finished != [];
    }

    method AddLines(finished: seq<string>)
      modifies this`lines, timeline
      ensures lines == old(lines) + StripAll(finished, '\r')
      ensures timeline.events == old(timeline.events) + Tagged("COM1", StripAll(finished, '\r'))
    {
      hide Strip;
      ghost var added: seq<string> := [];
      assert lines == old(lines) + added && timeline.events == old(timeline.events) + Tagged("COM1", added);
      for i := 0 to |finished|
        invariant |added| == i && forall j | 0 <= j < i :: added[j] == Strip(finished[j], '\r')
        invariant lines == old(lines) + added
        invariant timeline.events == old(timeline.events) + Tagged("COM1", added)
      {
        var complete := Strip(finished[i], '\r');
        TaggedSnoc("COM1", added, complete);
        lines := lines + [complete];
        timeline.Record("COM1", complete);
        added := added + [complete];
      }
      assert added == StripAll(finished, '\r');
    }

    /** Polls of a growing file: together they have seen the last content, and recorded each line once and in order. */
    method PollGrowing(files: seq<bytes>)
      requires Valid() && Grows(Flatten(pieces), files)
      modifies this, timeline
      ensures Valid() && pieces == old(pieces) + Increments(old(Flatten(pieces)), files)
      ensures Flatten(pieces) == if files == [] then old(Flatten(pieces)) else files[|files| - 1]
      ensures old(lines) <= lines
      ensures timeline.events == old(timeline.events) + Tagged("COM1", lines[|old(lines)|..])
      decreases |files|
    {
      hide Whole, DecodePieces, Flatten, Tagged;
      ghost var before, start, events := Flatten(pieces), lines, timeline.events;
      if files == [] {
        assert lines[|start|..] == [] && events + Tagged("COM1", []) == events;
      } else {
        var _ := Poll(Some(files[0]));
        SeenIsFileIff(before, files[0]);
        ghost var first := lines;
        PollGrowing(files[1..]);
        TaggedAppends("COM1", first[|start|..], lines[|first|..]);
        assert lines[|start|..] == first[|start|..] + lines[|first|..];
      }
    }

    /** A new tail shows the file, decoded as a whole, exactly if every poll started at a boundary of the decoder. */
    method PollAll(files: seq<bytes>)
      requires Valid() && pieces == [] && lines == [] && Grows([], files)
      modifies this, timeline
      ensures Valid() && pieces == Increments([], files)
      ensures Flatten(pieces) == if files == [] then [] else files[|files| - 1]
      ensures timeline.events == old(timeline.events) + Tagged("COM1", lines)
      ensures Received(lines, remainder) == Whole(Decode(Flatten(pieces)), '\n', '\r') <==> CleanCuts(pieces)
    {
      hide Whole, Decode, DecodePieces, CleanCuts, Flatten, Tagged, Increments;
      NothingWhole();
      PollGrowing(files);
      assert lines[0..] == lines && [] + Increments([], files) == Increments([], files);
      PiecesShowFileIff(pieces);
    }
  }
}
