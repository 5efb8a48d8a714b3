/**
 Reassembling lines from a stream that arrives in pieces. The serial tail and the COM2
 collector keep the unfinished line and split again at every piece; the result does not
 depend on where the pieces were cut.
 */
module Lines {
  // ---------------------------------------------------------------- splitting

  /** `s.split(newline)`. */
  function Split<T(==)>(s: seq<T>, newline: T): (parts: seq<seq<T>>)
    ensures |parts| >= 1
  {
    if s == [] then [[]]
    else
      var rest := Split(s[1..], newline);
      if s[0] == newline then [[]] + rest else [[s[0]] + rest[0]] + rest[1..]
  }

  function Join<T>(parts: seq<seq<T>>, newline: T): seq<T>
    requires |parts| >= 1
  {
    if |parts| == 1 then parts[0] else parts[0] + [newline] + Join(parts[1..], newline)
  }

  ghost predicate Unbroken<T>(parts: seq<seq<T>>, newline: T) {
    forall i | 0 <= i < |parts| :: newline !in parts[i]
  }

  lemma {:induction false} SplitJoins<T>(s: seq<T>, newline: T)
    ensures Join(Split(s, newline), newline) == s && Unbroken(Split(s, newline), newline)
  {
    if s != [] {
      SplitJoins(s[1..], newline);
      var rest := Split(s[1..], newline);
      var parts := Split(s, newline);
      if s[0] == newline {
        assert parts[1..] == rest;
      } else {
        assert parts[1..] == rest[1..] && parts[0] == [s[0]] + rest[0];
        assert Join(parts, newline) == [s[0]] + Join(rest, newline);
      }
    }
  }

  /** Splitting is the only way to cut a text into unbroken parts. */
  lemma {:induction false} SplitUnique<T>(parts: seq<seq<T>>, newline: T)
    requires |parts| >= 1 && Unbroken(parts, newline)
    ensures Split(Join(parts, newline), newline) == parts
    decreases |parts|, |parts[0]|
  {
    var s := Join(parts, newline);
    if parts[0] == [] {
      if |parts| > 1 {
        SplitUnique(parts[1..], newline);
        assert s[1..] == Join(parts[1..], newline);
      }
    } else {
      var shorter := [parts[0][1..]] + parts[1..];
      assert Unbroken(shorter, newline) by {
        forall i | 0 <= i < |shorter| ensures newline !in shorter[i] {
          assert newline !in parts[i];
        }
      }
      assert parts[0][0] != newline by {
        assert parts[0][0] in parts[0];
      }
      SplitUnique(shorter, newline);
      assert shorter[1..] == parts[1..];
      assert s[1..] == Join(shorter, newline);
      assert s[0] == parts[0][0] && [s[0]] + parts[0][1..] == parts[0];
      assert Split(s, newline) == [[s[0]] + shorter[0]] + shorter[1..];
    }
  }

  function Finished<T>(parts: seq<seq<T>>): seq<seq<T>>
    requires |parts| >= 1
  {
    parts[..|parts| - 1]
  }

  function Unfinished<T>(parts: seq<seq<T>>): seq<T>
    requires |parts| >= 1
  {
    parts[|parts| - 1]
  }

  /** Putting an element in front of the first of several parts. */
  lemma GrowFirst<T>(c: T, rest: seq<seq<T>>, more: seq<seq<T>>)
    requires |rest| > 1
    ensures var parts, whole := [[c] + rest[0]] + rest[1..], Finished(rest) + more;
      && Unfinished(parts) == Unfinished(rest)
      && [[c] + whole[0]] + whole[1..] == Finished(parts) + more
  {
    var parts, whole := [[c] + rest[0]] + rest[1..], Finished(rest) + more;
    assert whole[0] == rest[0] && whole[1..] == rest[1..|rest| - 1] + more;
    assert Finished(parts) == [[c] + rest[0]] + rest[1..|rest| - 1];
  }

  /** Putting an empty part in front. */
  lemma GrowEmpty<T>(rest: seq<seq<T>>, more: seq<seq<T>>)
    requires |rest| >= 1
    ensures Unfinished([[]] + rest) == Unfinished(rest)
    ensures [[]] + (Finished(rest) + more) == Finished([[]] + rest) + more
  {
    assert Finished([[]] + rest) == [[]] + Finished(rest);
  }

  /** Only the unfinished line of what came before matters for what comes next. */
  lemma {:induction false} SplitAppends<T>(s: seq<T>, t: seq<T>, newline: T)
    ensures Split(s + t, newline)
         == Finished(Split(s, newline)) + Split(Unfinished(Split(s, newline)) + t, newline)
  {
    if s == [] {
      assert s + t == t && [] + t == t;
      assert Finished(Split(s, newline)) == [];
    } else {
      var rest := Split(s[1..], newline);
      SplitAppends(s[1..], t, newline);
      assert (s + t)[1..] == s[1..] + t;
      var more := Split(Unfinished(rest) + t, newline);
      if s[0] == newline {
        GrowEmpty(rest, more);
      } else if |rest| > 1 {
        GrowFirst(s[0], rest, more);
      } else {
        SplitAppendsOpen(s, t, newline, rest[0]);
      }
    }
  }

  lemma SplitAppendsOpen<T>(s: seq<T>, t: seq<T>, newline: T, line: seq<T>)
    requires s != [] && s[0] != newline && Split(s[1..], newline) == [line]
    requires Split(s[1..] + t, newline) == Split(line + t, newline)
    ensures Split(s, newline) == [[s[0]] + line]
    ensures Split(s + t, newline) == Split([s[0]] + line + t, newline)
  {
    hide Split;
    SplitCons(s[0], s[1..], newline);
    SplitCons(s[0], s[1..] + t, newline);
    SplitCons(s[0], line + t, newline);
    assert s == [s[0]] + s[1..] && s + t == [s[0]] + (s[1..] + t) && [s[0]] + line + t == [s[0]] + (line + t);
  }

  lemma SplitCons<T>(c: T, s: seq<T>, newline: T)
    ensures var rest := Split(s, newline);
      Split([c] + s, newline) == if c == newline then [[]] + rest else [[c] + rest[0]] + rest[1..]
  {
    assert ([c] + s)[1..] == s;
  }

  /** `line.rstrip(carriage return)`. */
  function Strip<T(==)>(line: seq<T>, cr: T): seq<T> {
    if line != [] && line[|line| - 1] == cr then Strip(line[..|line| - 1], cr) else line
  }

  function StripAll<T(==)>(lines: seq<seq<T>>, cr: T): (r: seq<seq<T>>)
    ensures |r| == |lines|
  {
    seq(|lines|, i requires 0 <= i < |lines| => Strip(lines[i], cr))
  }

  lemma StripAllAppends<T>(xs: seq<seq<T>>, ys: seq<seq<T>>, cr: T)
    ensures StripAll(xs + ys, cr) == StripAll(xs, cr) + StripAll(ys, cr)
  {
  }

  // ------------------------------------------------------------------ receivers

  /** A receiver's memory: recorded lines and the start of the next one. */
  datatype Received<T> = Received(lines: seq<seq<T>>, rest: seq<T>)

  /** One piece of the stream. */
  function Feed<T(==)>(r: Received<T>, piece: seq<T>, newline: T, cr: T): Received<T> {
    var parts := Split(r.rest + piece, newline);
    Received(r.lines + StripAll(Finished(parts), cr), Unfinished(parts))
  }

  function FeedAll<T(==)>(r: Received<T>, pieces: seq<seq<T>>, newline: T, cr: T): Received<T> {
    if pieces == [] then r
    else Feed(FeedAll(r, pieces[..|pieces| - 1], newline, cr), pieces[|pieces| - 1], newline, cr)
  }

  /** The whole text at once. */
  function Whole<T(==)>(text: seq<T>, newline: T, cr: T): Received<T> {
    Feed(Received([], []), text, newline, cr)
  }

  lemma WholeIsSplit<T>(text: seq<T>, newline: T, cr: T)
    ensures var parts := Split(text, newline);
      Whole(text, newline, cr) == Received(StripAll(Finished(parts), cr), Unfinished(parts))
  {
    hide Split, StripAll;
    assert [] + text == text;
    var parts := Split(text, newline);
    assert [] + StripAll(Finished(parts), cr) == StripAll(Finished(parts), cr);
  }

  function Concat<T>(pieces: seq<seq<T>>): seq<T> {
    if pieces == [] then [] else Concat(pieces[..|pieces| - 1]) + pieces[|pieces| - 1]
  }

  lemma FeedExtends<T>(text: seq<T>, piece: seq<T>, newline: T, cr: T)
    ensures Feed(Whole(text, newline, cr), piece, newline, cr) == Whole(text + piece, newline, cr)
  {
    hide Split, StripAll;
    assert [] + text == text && [] + (text + piece) == text + piece;
    var parts := Split(text, newline);
    SplitAppends(text, piece, newline);
    var more := Split(Unfinished(parts) + piece, newline);
    assert Finished(Finished(parts) + more) == Finished(parts) + Finished(more);
    StripAllAppends(Finished(parts), Finished(more), cr);
    assert [] + StripAll(Finished(parts) + Finished(more), cr)
        == ([] + StripAll(Finished(parts), cr)) + StripAll(Finished(more), cr);
  }

  /** However the stream is cut, the lines and the unfinished line are those of the whole text. */
  lemma {:induction false} ChunkIndependent<T>(pieces: seq<seq<T>>, newline: T, cr: T)
    ensures FeedAll(Received([], []), pieces, newline, cr) == Whole(Concat(pieces), newline, cr)
  {
    if pieces == [] {
      var nothing: seq<T> := [];
      assert [] + nothing == nothing;
      assert Split(nothing, newline) == [nothing];
      assert StripAll(Finished([nothing]), cr) == [];
    } else {
      ChunkIndependent(pieces[..|pieces| - 1], newline, cr);
      FeedExtends(Concat(pieces[..|pieces| - 1]), pieces[|pieces| - 1], newline, cr);
    }
  }

  // ------------------------------------------------------- a file read again and again

  /** The text a poll has seen: it keeps what it saw before, unless the file got shorter. */
  function Seen<T>(before: seq<T>, data: seq<T>): (text: seq<T>)
    ensures |text| == |data|
  {
    if |data| < |before| then data else before + data[|before|..]
  }

  /** That is the file itself exactly if the file was appended to or got shorter since. */
  lemma SeenIsFileIff<T>(before: seq<T>, data: seq<T>)
    ensures Seen(before, data) == data <==> before <= data || |data| < |before|
  {
    if |before| <= |data| {
      assert Seen(before, data)[..|before|] == before;
      assert data == data[..|before|] + data[|before|..];
    }
  }

  /** A log replaced by another of the same length goes unseen. */
  lemma ReplacedLogUnseen()
    ensures Seen("boot", "halt") == "boot"
  {
    assert "halt"[4..] == "";
  }
}
