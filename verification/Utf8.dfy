/**
 Decoding UTF-8 the way Python does with `errors="replace"` (section 3.9 of the Unicode
 Standard: one replacement character for each maximal part of an ill-formed sequence), and
 what happens when a text is decoded piece by piece: it comes back exactly if no piece
 starts inside a character.
 */
module Utf8 {
  import opened Bytes

  const REPLACEMENT: char := '\U{FFFD}'

  // ------------------------------------------------------------------- decoder

  predicate Continuation(b: byte) {
    0x80 <= b < 0xC0
  }

  /** The length that a first byte announces; 0 for bytes that cannot be first. */
  function Announced(first: byte): nat {
    if first < 0x80 then 1
    else if 0xC2 <= first < 0xE0 then 2
    else if 0xE0 <= first < 0xF0 then 3
    else if 0xF0 <= first < 0xF5 then 4
    else 0
  }

  /** The second byte excludes overlong forms, surrogates and what is beyond U+10FFFF. */
  predicate Second(first: byte, b: byte) {
    && Continuation(b)
    && (first == 0xE0 ==> 0xA0 <= b) && (first == 0xED ==> b < 0xA0)
    && (first == 0xF0 ==> 0x90 <= b) && (first == 0xF4 ==> b < 0x90)
  }

  /** How many bytes belong to the first character, or to the longest start of one. */
  function Span(s: bytes): (n: nat)
    requires s != []
    ensures 1 <= n <= |s|
  {
    var n := Announced(s[0]);
    if n < 2 || |s| < 2 || !Second(s[0], s[1]) then 1
    else if n < 3 || |s| < 3 || !Continuation(s[2]) then 2
    else if n < 4 || |s| < 4 || !Continuation(s[3]) then 3
    else 4
  }

  predicate Complete(s: bytes) {
    s != [] && Span(s) == Announced(s[0])
  }

  /** Six more bits. */
  function More(v: int, b: byte): int {
    64 * v + b - 0x80
  }

  /** The value that the first n bytes of a sequence spell. */
  function Value(s: bytes, n: nat): int
    requires 1 <= n <= 4 && n <= |s|
  {
    var first: int := s[0];
    if n == 1 then first
    else if n == 2 then More(first - 0xC0, s[1])
    else if n == 3 then More(More(first - 0xE0, s[1]), s[2])
    else More(More(More(first - 0xF0, s[1]), s[2]), s[3])
  }

  function Character(s: bytes): char
    requires Complete(s)
  {
    Value(s, Span(s)) as char
  }

  /** `s.decode("utf-8", errors="replace")`. */
  function Decode(s: bytes): string {
    if s == [] then []
    else [if Complete(s) then Character(s) else REPLACEMENT] + Decode(s[Span(s)..])
  }

  // ------------------------------------------------------------------- encoder

  function EncodeOne(c: char): (s: bytes)
    ensures 1 <= |s| <= 4
  {
    var v := c as int;
    if v < 0x80 then [v]
    else if v < 0x800 then [0xC0 + v / 64, 0x80 + v % 64]
    else if v < 0x1_0000 then [0xE0 + v / 64 / 64, 0x80 + v / 64 % 64, 0x80 + v % 64]
    else [0xF0 + v / 64 / 64 / 64, 0x80 + v / 64 / 64 % 64, 0x80 + v / 64 % 64, 0x80 + v % 64]
  }

  function Encode(text: string): bytes {
    if text == [] then [] else EncodeOne(text[0]) + Encode(text[1..])
  }

  ghost predicate Stray(q: bytes) {
    forall i | 0 <= i < |q| :: Continuation(q[i])
  }

  /** One encoded character: a first byte that announces the length, then continuation bytes. */
  lemma EncodedShape(c: char)
    ensures var e := EncodeOne(c);
      && Announced(e[0]) == |e| && !Continuation(e[0]) && Stray(e[1..]) && (|e| >= 2 ==> Second(e[0], e[1]))
      && (|e| == 1 <==> c as int < 0x80)
  {
  }

  lemma EncodedSpan(c: char, rest: bytes)
    ensures var s := EncodeOne(c) + rest; Complete(s) && Span(s) == |EncodeOne(c)| && s[Span(s)..] == rest
  {
    hide EncodeOne;
    EncodedShape(c);
    var e, s := EncodeOne(c), EncodeOne(c) + rest;
    assert forall i | 1 <= i < |e| :: s[i] == e[1..][i - 1];
  }

  lemma EncodedValue(c: char)
    ensures Value(EncodeOne(c), |EncodeOne(c)|) == c as int
  {
  }

  lemma EncodedCharacter(c: char, s: bytes)
    requires Complete(s) && Span(s) == |EncodeOne(c)| && s[..Span(s)] == EncodeOne(c)
    ensures Character(s) == c
  {
    hide EncodeOne, Span, Complete;
    var e := EncodeOne(c);
    EncodedValue(c);
    assert forall i | 0 <= i < |e| :: s[i] == s[..Span(s)][i];
  }

  /** Decoding undoes encoding, whatever follows. */
  lemma {:induction false} DecodeEncoded(text: string, rest: bytes)
    ensures Decode(Encode(text) + rest) == text + Decode(rest)
    decreases |text|
  {
    hide EncodeOne, Character, Span, Complete;
    if text == [] {
      assert Encode(text) + rest == rest;
    } else {
      var c, more := text[0], Encode(text[1..]) + rest;
      var s := Encode(text) + rest;
      assert s == EncodeOne(c) + more;
      EncodedSpan(c, more);
      assert s[..Span(s)] == EncodeOne(c);
      EncodedCharacter(c, s);
      DecodeEncoded(text[1..], rest);
    }
  }

  /** The start of a character decodes to one replacement character. */
  lemma DecodeCut(c: char, p: bytes)
    requires p != [] && p < EncodeOne(c)
    ensures Decode(p) == [REPLACEMENT]
  {
    hide EncodeOne;
    EncodedShape(c);
    var e := EncodeOne(c);
    assert forall i | 1 <= i < |p| :: p[i] == e[1..][i - 1];
    assert Span(p) == |p| && p[|p|..] == [];
  }

  function Replaced(n: nat): (s: string)
    ensures |s| == n
  {
    seq(n, _ => REPLACEMENT)
  }

  /** The rest of a character decodes to one replacement character for each byte. */
  lemma {:induction false} DecodeStray(q: bytes, rest: bytes)
    requires Stray(q)
    ensures Decode(q + rest) == Replaced(|q|) + Decode(rest)
    decreases |q|
  {
    hide Decode;
    if q == [] {
      assert q + rest == rest;
    } else {
      StrayFirst(q + rest);
      assert (q + rest)[1..] == q[1..] + rest;
      DecodeStray(q[1..], rest);
      assert Replaced(|q|) == [REPLACEMENT] + Replaced(|q| - 1);
    }
  }

  lemma StrayFirst(s: bytes)
    requires s != [] && Continuation(s[0])
    ensures Decode(s) == [REPLACEMENT] + Decode(s[1..])
  {
    assert Announced(s[0]) == 0 && Span(s) == 1;
  }

  // ------------------------------------------------------- decoding piece by piece

  /** Each piece decoded by itself. */
  function DecodePieces(pieces: seq<bytes>): string {
    if pieces == [] then [] else Decode(pieces[0]) + DecodePieces(pieces[1..])
  }

  lemma {:induction false} DecodePiecesSnoc(pieces: seq<bytes>, piece: bytes)
    ensures DecodePieces(pieces + [piece]) == DecodePieces(pieces) + Decode(piece)
  {
    if pieces == [] {
      assert pieces + [piece] == [piece];
    } else {
      assert (pieces + [piece])[1..] == pieces[1..] + [piece];
      DecodePiecesSnoc(pieces[1..], piece);
    }
  }

  // ----------------------------------------------- what survives in lines

  /** The characters other than line ends. */
  function Visible(text: string): nat {
    if text == [] then 0
    else (if text[0] == '\n' || text[0] == '\r' then 0 else 1) + Visible(text[1..])
  }

  lemma {:induction false} VisibleAppends(s: string, t: string)
    ensures Visible(s + t) == Visible(s) + Visible(t)
  {
    if s == [] {
      assert s + t == t;
    } else {
      assert (s + t)[1..] == s[1..] + t;
      VisibleAppends(s[1..], t);
    }
  }

  lemma {:induction false} VisibleReplaced(n: nat)
    ensures Visible(Replaced(n)) == n
  {
    if n > 0 {
      assert Replaced(n)[1..] == Replaced(n - 1);
      VisibleReplaced(n - 1);
    }
  }

  lemma VisibleFirst(c: char, text: string)
    requires c != '\n' && c != '\r'
    ensures Visible([c] + text) == 1 + Visible(text)
  {
    assert ([c] + text)[1..] == text;
  }

  // ----------------------------------------------------------------------- cuts

  /** A cut of some bytes at k falls between what the decoder takes as characters or parts of one. */
  ghost predicate Boundary(s: bytes, k: nat)
    decreases |s|
  {
    k == 0 || (s != [] && Span(s) <= k && Boundary(s[Span(s)..], k - Span(s)))
  }

  /** What stands behind a character does not change it. */
  lemma SpanInFront(s: bytes, k: nat)
    requires s != [] && Span(s) <= k <= |s|
    ensures Span(s[..k]) == Span(s) && (Complete(s[..k]) <==> Complete(s))
    ensures Complete(s) ==> Character(s[..k]) == Character(s)
  {
    assert forall i | 0 <= i < k :: s[..k][i] == s[i];
  }

  /** A cut inside a character, or inside a part of one: its start becomes one replacement character. */
  lemma CutInside(s: bytes, k: nat)
    requires s != [] && 0 < k < Span(s)
    ensures Decode(s[..k]) == [REPLACEMENT] && Stray(s[k..Span(s)])
    ensures Complete(s) ==> Character(s) != '\n' && Character(s) != '\r'
  {
    var p := s[..k];
    assert forall i | 0 <= i < k :: p[i] == s[i];
    assert Span(p) == k && !Complete(p) && p[k..] == [];
  }

  lemma DecodeFirst(s: bytes)
    requires s != []
    ensures Decode(s) == [if Complete(s) then Character(s) else REPLACEMENT] + Decode(s[Span(s)..])
  {
  }

  /**
   Decoding both sides of a cut by themselves gives what the whole decodes to, if the cut is at a
   boundary; otherwise there are too many visible characters.
   */
  lemma {:induction false} CutDecodes(s: bytes, k: nat)
    requires k <= |s|
    ensures Boundary(s, k) ==> Decode(s[..k]) + Decode(s[k..]) == Decode(s)
    ensures !Boundary(s, k) ==> Visible(Decode(s[..k])) + Visible(Decode(s[k..])) > Visible(Decode(s))
    decreases |s|
  {
    hide Decode, Span, Complete, Character, Visible;
    if k == 0 {
      EmptyDecodes();
      assert s[..0] == [] && s[0..] == s;
    } else if k < Span(s) {
      CutVisible(s, k);
    } else {
      var n, rest := Span(s), s[Span(s)..];
      var c := if Complete(s) then Character(s) else REPLACEMENT;
      SpanInFront(s, k);
      DecodeFirst(s);
      DecodeFirst(s[..k]);
      assert s[..k][n..] == rest[..k - n] && s[k..] == rest[k - n..];
      CutDecodes(rest, k - n);
      VisibleAppends([c], Decode(rest));
      VisibleAppends([c], Decode(rest[..k - n]));
    }
  }

  lemma CutVisible(s: bytes, k: nat)
    requires s != [] && 0 < k < Span(s)
    ensures Visible(Decode(s[..k])) + Visible(Decode(s[k..])) > Visible(Decode(s))
  {
    hide Decode, Span, Complete, Character, Visible;
    var n := Span(s);
    var q, rest := s[k..n], s[n..];
    CutInside(s, k);
    DecodeFirst(s);
    assert s[k..] == q + rest;
    DecodeStray(q, rest);
    VisibleAppends(Replaced(|q|), Decode(rest));
    VisibleReplaced(|q|);
    VisibleReplaced(1);
    assert Replaced(1) == [REPLACEMENT];
    VisibleFirst(if Complete(s) then Character(s) else REPLACEMENT, Decode(rest));
  }

  lemma EmptyDecodes()
    ensures Decode([]) == []
  {
  }

  /** Behind a boundary the boundaries are those of what is left. */
  lemma {:induction false} BoundaryShifts(s: bytes, j: nat, k: nat)
    requires j + k <= |s| && Boundary(s, j)
    ensures Boundary(s, j + k) <==> Boundary(s[j..], k)
    decreases |s|
  {
    hide Span;
    if j == 0 {
      assert s[0..] == s;
    } else {
      var n := Span(s);
      assert s[n..][j - n..] == s[j..];
      BoundaryShifts(s[n..], j - n, k);
    }
  }

  // --------------------------------------------------------------------- pieces

  /** Every piece starts at a boundary of the whole. */
  ghost predicate CleanCuts(pieces: seq<bytes>) {
    forall i | 0 <= i < |pieces| :: Boundary(Flatten(pieces), PartOffset(pieces, i))
  }

  lemma CleanStep(pieces: seq<bytes>)
    requires |pieces| >= 1 && Boundary(Flatten(pieces), |pieces[0]|)
    ensures CleanCuts(pieces) <==> CleanCuts(pieces[1..])
  {
    hide Boundary;
    var s, rest := Flatten(pieces), pieces[1..];
    assert s[|pieces[0]|..] == Flatten(rest);
    forall i | 0 <= i < |rest|
      ensures Boundary(s, PartOffset(pieces, i + 1)) <==> Boundary(Flatten(rest), PartOffset(rest, i))
    {
      FlattenAt(rest, i);
      BoundaryShifts(s, |pieces[0]|, PartOffset(rest, i));
    }
    StartIsBoundary(s);
    assert forall i | 1 <= i < |pieces| ::
      Boundary(s, PartOffset(pieces, i)) <==> Boundary(Flatten(rest), PartOffset(rest, i - 1));
  }

  lemma StartIsBoundary(s: bytes)
    ensures Boundary(s, 0)
  {
  }

  /** A cut behind the first piece that is not at a boundary. */
  lemma UncleanStep(pieces: seq<bytes>)
    requires |pieces| >= 2 && !Boundary(Flatten(pieces), |pieces[0]|)
    ensures !CleanCuts(pieces)
  {
    hide Boundary, Flatten;
    assert PartOffset(pieces, 1) == |pieces[0]| + PartOffset(pieces[1..], 0) == |pieces[0]|;
  }

  lemma {:induction false} EndIsBoundary(s: bytes)
    ensures Boundary(s, |s|)
    decreases |s|
  {
    if s != [] {
      EndIsBoundary(s[Span(s)..]);
    }
  }

  lemma {:induction false} PiecesKeepVisible(pieces: seq<bytes>)
    ensures Visible(DecodePieces(pieces)) >= Visible(Decode(Flatten(pieces)))
  {
    hide Decode, Visible;
    if pieces == [] {
      EmptyDecodes();
    } else {
      PiecesKeepVisible(pieces[1..]);
      FirstPiece(pieces);
    }
  }

  lemma FirstPiece(pieces: seq<bytes>)
    requires pieces != []
    ensures var x, s := pieces[0], Flatten(pieces);
      && |x| <= |s| && Visible(DecodePieces(pieces)) == Visible(Decode(x)) + Visible(DecodePieces(pieces[1..]))
      && (Boundary(s, |x|) ==> Decode(x) + Decode(Flatten(pieces[1..])) == Decode(s))
      && (Boundary(s, |x|) ==> Visible(Decode(x)) + Visible(Decode(Flatten(pieces[1..]))) == Visible(Decode(s)))
      && (!Boundary(s, |x|) ==> Visible(Decode(x)) + Visible(Decode(Flatten(pieces[1..]))) > Visible(Decode(s)))
  {
    hide Decode, Visible, Boundary;
    var x, rest := pieces[0], Flatten(pieces[1..]);
    var s := x + rest;
    assert s[..|x|] == x && s[|x|..] == rest;
    CutDecodes(s, |x|);
    VisibleAppends(Decode(x), Decode(rest));
    VisibleAppends(Decode(x), DecodePieces(pieces[1..]));
  }

  /**
   Bytes decoded piece by piece are the bytes decoded as a whole exactly if every piece starts at a
   boundary. Otherwise even the number of visible characters is wrong.
   */
  lemma {:induction false} PiecesDecodeIff(pieces: seq<bytes>)
    ensures DecodePieces(pieces) == Decode(Flatten(pieces)) <==> CleanCuts(pieces)
    ensures !CleanCuts(pieces) ==> Visible(DecodePieces(pieces)) > Visible(Decode(Flatten(pieces)))
  {
    hide Decode, Visible, Boundary, CleanCuts;
    if pieces == [] {
      EmptyDecodes();
      NothingIsClean();
    } else {
      var x, rest := pieces[0], pieces[1..];
      FirstPiece(pieces);
      if Boundary(Flatten(pieces), |x|) {
        PiecesDecodeIff(rest);
        CleanStep(pieces);
        SameFront(Decode(x), DecodePieces(rest), Decode(Flatten(rest)));
      } else {
        PiecesKeepVisible(rest);
        assert rest != [] by {
          EndIsBoundary(Flatten(pieces));
        }
        UncleanStep(pieces);
      }
    }
  }

  lemma NothingIsClean()
    ensures CleanCuts([])
  {
  }

  lemma SameFront(front: string, s: string, t: string)
    ensures front + s == front + t <==> s == t
  {
    assert (front + s)[|front|..] == s && (front + t)[|front|..] == t;
  }

  // -------------------------------------------------------------- pieces of a text

  /** The boundaries of an encoded text are where no character goes on. */
  lemma {:induction false} EncodedBoundary(text: string, k: nat)
    requires k <= |Encode(text)|
    ensures Boundary(Encode(text), k) <==> k == |Encode(text)| || !Continuation(Encode(text)[k])
    decreases |text|
  {
    hide EncodeOne, Span, Complete, Continuation;
    if text != [] {
      var e, more := EncodeOne(text[0]), Encode(text[1..]);
      EncodedSpan(text[0], more);
      EncodedShape(text[0]);
      if 0 < k < |e| {
        assert Encode(text)[k] == e[1..][k - 1];
      } else if k >= |e| {
        EncodedBoundary(text[1..], k - |e|);
      }
    }
  }

  /** No piece starts with the rest of a character. */
  ghost predicate StartsClean(pieces: seq<bytes>) {
    forall i | 0 <= i < |pieces| && pieces[i] != [] :: !Continuation(pieces[i][0])
  }

  /** For an encoded text that is all there is to clean cuts. */
  lemma EncodedCleanIff(pieces: seq<bytes>, text: string)
    requires Flatten(pieces) == Encode(text)
    ensures CleanCuts(pieces) <==> StartsClean(pieces)
  {
    hide Boundary, Encode, Continuation, Flatten, PartOffset;
    if CleanCuts(pieces) {
      forall i | 0 <= i < |pieces| && pieces[i] != [] ensures !Continuation(pieces[i][0]) {
        PieceStart(pieces, text, i);
      }
    }
    if StartsClean(pieces) {
      forall i | 0 <= i < |pieces| ensures Boundary(Flatten(pieces), PartOffset(pieces, i)) {
        PieceStart(pieces, text, i);
        if PartOffset(pieces, i) < |Encode(text)| {
          var j := NextStart(pieces, i);
        }
      }
    }
  }

  lemma PieceStart(pieces: seq<bytes>, text: string, i: nat)
    requires Flatten(pieces) == Encode(text) && i < |pieces|
    ensures var k := PartOffset(pieces, i);
      && k + |pieces[i]| <= |Encode(text)| && (pieces[i] != [] ==> Encode(text)[k] == pieces[i][0])
      && (Boundary(Flatten(pieces), k) <==> k == |Encode(text)| || !Continuation(Encode(text)[k]))
  {
    hide Boundary, Encode, Continuation;
    FlattenAt(pieces, i);
    EncodedBoundary(text, PartOffset(pieces, i));
  }

  /** The piece that holds the byte where piece i starts. */
  lemma {:induction false} NextStart(pieces: seq<bytes>, i: nat) returns (j: nat)
    requires i < |pieces| && PartOffset(pieces, i) < |Flatten(pieces)|
    ensures j < |pieces| && pieces[j] != [] && pieces[j][0] == Flatten(pieces)[PartOffset(pieces, i)]
    decreases |pieces| - i
  {
    FlattenAt(pieces, i);
    if pieces[i] != [] {
      j := i;
    } else {
      PartOffsetNext(pieces, i);
      FlattenLength(pieces);
      j := NextStart(pieces, i + 1);
    }
  }

  /** The first byte of a two-byte character in one piece and the second in the next: two characters, both wrong. */
  lemma CutCharacterDecodesWrong()
    ensures Decode([0xC3, 0xA9]) == [0xE9 as char]
    ensures DecodePieces([[0xC3], [0xA9]]) == [REPLACEMENT, REPLACEMENT]
  {
    var c := 0xE9 as char;
    assert EncodeOne(c) == [0xC3, 0xA9] && Encode([c]) == EncodeOne(c) + Encode([]);
    DecodeEncoded([c], []);
    assert Encode([c]) + [] == [0xC3, 0xA9];
    DecodeCut(c, [0xC3]);
    DecodeStray([0xA9], []);
    assert [0xA9] + [] == [0xA9] && Replaced(1) == [REPLACEMENT];
    assert [[0xC3], [0xA9]][1..] == [[0xA9]];
  }
}
