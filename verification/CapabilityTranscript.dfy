/**
 Where a report stands in a serial transcript. The script looks for its lines by their starts,
 wants each kind once and in order, and the entries in between; that accepts exactly the
 transcripts whose capability lines, everything else left out, are a whole accepted report.
 */
module CapabilityTranscript {
  import opened Results
  import opened Timeline
  import opened Capabilities
  import opened CapabilityText
  import opened CapabilityReport
  import StatusLine

  // --------------------------------------------------------------------- markers

  datatype Slot = StatusSlot | PointerSlot | PresentSlot | AbsentSlot | EntrySlot | SummarySlot

  function Name(slot: Slot): string {
    match slot
    case StatusSlot => "PCI_CAPABILITIES_STATUS="
    case PointerSlot => "PCI_CAPABILITY_POINTER="
    case PresentSlot => "PCI_CAPABILITY_LIST_PRESENT"
    case AbsentSlot => "PCI_CAPABILITY_LIST_ABSENT"
    case EntrySlot => "PCI_CAPABILITY_ENTRY="
    case SummarySlot => "PCI_CAPABILITY_SUMMARY="
  }

  function Marker(slot: Slot): string {
    PREFIX + Name(slot)
  }

  /** The two state markers are whole lines, the others start a line. */
  predicate Belongs(line: string, slot: Slot) {
    if slot.PresentSlot? || slot.AbsentSlot? then line == Marker(slot) else Marker(slot) <= line
  }

  function SlotOf(line: string): Option<Slot> {
    if Belongs(line, StatusSlot) then Some(StatusSlot)
    else if Belongs(line, PointerSlot) then Some(PointerSlot)
    else if Belongs(line, PresentSlot) then Some(PresentSlot)
    else if Belongs(line, AbsentSlot) then Some(AbsentSlot)
    else if Belongs(line, EntrySlot) then Some(EntrySlot)
    else if Belongs(line, SummarySlot) then Some(SummarySlot)
    else None
  }

  lemma BelongsUnique(line: string, a: Slot, b: Slot)
    requires Belongs(line, a) && Belongs(line, b)
    ensures a == b
  {
    NamesInLine(line, a);
    NamesInLine(line, b);
    NamesDiffer();
  }

  lemma NamesInLine(line: string, slot: Slot)
    requires Belongs(line, slot)
    ensures Name(slot) <= line[|PREFIX|..] && |PREFIX| <= |line|
  {
    hide Name;
    assert Marker(slot) <= line;
    assert line[|PREFIX|..][..|Name(slot)|] == line[..|Marker(slot)|][|PREFIX|..] == Name(slot);
  }

  /** Three characters tell the markers apart. */
  lemma NamesDiffer()
    ensures forall s: Slot :: |Name(s)| > 20
    ensures Name(StatusSlot)[13] == 'I' && forall s: Slot | s != StatusSlot :: Name(s)[13] == 'Y'
    ensures Name(PointerSlot)[15] == 'P' && Name(EntrySlot)[15] == 'E' && Name(SummarySlot)[15] == 'S'
    ensures Name(PresentSlot)[15] == 'L' && Name(AbsentSlot)[15] == 'L'
    ensures Name(PresentSlot)[20] == 'P' && Name(AbsentSlot)[20] == 'A'
  {
  }

  lemma SlotOfIff(line: string, slot: Slot)
    ensures SlotOf(line) == Some(slot) <==> Belongs(line, slot)
  {
    hide Belongs;
    if Belongs(line, slot) {
      BelongsUnique(line, slot, SlotOf(line).value);
    }
  }

  function Tokens(serial: seq<string>): (t: seq<Option<Slot>>)
    ensures |t| == |serial| && forall i | 0 <= i < |t| :: t[i] == SlotOf(serial[i])
  {
    seq(|serial|, i requires 0 <= i < |serial| => SlotOf(serial[i]))
  }

  // ---------------------------------------------------------------------- values

  /** `write_hex_u64_value` for w digits. */
  function PrintHex(v: nat, w: nat): (s: string)
    ensures |s| == w
  {
    if w == 0 then [] else PrintHex(v / 16, w - 1) + [Digit(v % 16)]
  }

  predicate AllDigits(s: string) {
    forall i | 0 <= i < |s| :: IsDigit(s[i])
  }

  function ParseHex(s: string): nat
    requires AllDigits(s)
  {
    if s == [] then 0 else 16 * ParseHex(s[..|s| - 1]) + DigitValue(s[|s| - 1])
  }

  lemma {:induction false} HexPrinted(v: nat, w: nat)
    requires v < StatusLine.Pow16(w)
    ensures AllDigits(PrintHex(v, w)) && ParseHex(PrintHex(v, w)) == v
    decreases w
  {
    if w > 0 {
      HexPrinted(v / 16, w - 1);
      var s := PrintHex(v, w);
      assert s[..w - 1] == PrintHex(v / 16, w - 1);
    }
  }

  lemma {:induction false} HexPrints(s: string)
    requires AllDigits(s)
    ensures ParseHex(s) < StatusLine.Pow16(|s|) && PrintHex(ParseHex(s), |s|) == s
  {
    if s != [] {
      var init, last := s[..|s| - 1], s[|s| - 1];
      HexPrints(init);
      assert IsDigit(last) && s == init + [last];
      StatusLine.SplitDigit(ParseHex(init), DigitValue(last));
    }
  }

  const U64_LIMIT := 0x1_0000_0000_0000_0000

  /** The pattern of the status value. */
  function ParseStatus(s: string): Option<nat> {
    if |s| == 18 && s[..2] == "0x" && AllDigits(s[2..]) then Some(ParseHex(s[2..])) else None
  }

  /** The pattern of the pointer value. */
  function ParsePointer(s: string): Option<u8> {
    var (v, rest) :- TakeByte(s);
    if rest == "" then Some(v) else None
  }

  function StatusLineOf(status: nat): string {
    Marker(StatusSlot) + ("0x" + PrintHex(status, 16))
  }

  function PointerLineOf(pointer: u8): string {
    Marker(PointerSlot) + PrintByte(pointer)
  }

  function StateLineOf(present: bool): string {
    Marker(if present then PresentSlot else AbsentSlot)
  }

  /** `line.removeprefix(marker)`. */
  function ValueOf(line: string, slot: Slot): string
    requires Belongs(line, slot)
  {
    line[|Marker(slot)|..]
  }

  lemma StatusPrinted(status: nat)
    requires status < U64_LIMIT
    ensures ParseStatus("0x" + PrintHex(status, 16)) == Some(status)
  {
    hide PrintHex, ParseHex, AllDigits, StatusLine.Pow16;
    StatusLine.Pow16Values();
    HexPrinted(status, 16);
    var s := "0x" + PrintHex(status, 16);
    assert s[..2] == "0x" && s[2..] == PrintHex(status, 16);
  }

  lemma StatusPrints(s: string)
    requires ParseStatus(s).Some?
    ensures ParseStatus(s).value < U64_LIMIT && s == "0x" + PrintHex(ParseStatus(s).value, 16)
  {
    hide PrintHex, ParseHex, AllDigits, StatusLine.Pow16;
    StatusLine.Pow16Values();
    HexPrints(s[2..]);
    assert s == s[..2] + s[2..];
  }

  lemma StatusIff(line: string, status: nat)
    ensures Belongs(line, StatusSlot) && ParseStatus(ValueOf(line, StatusSlot)) == Some(status) <==>
      status < U64_LIMIT && line == StatusLineOf(status)
  {
    hide Marker, ParseStatus, PrintHex;
    var marker := Marker(StatusSlot);
    if Belongs(line, StatusSlot) && ParseStatus(ValueOf(line, StatusSlot)) == Some(status) {
      StatusPrints(ValueOf(line, StatusSlot));
      assert line == marker + ValueOf(line, StatusSlot);
    }
    if status < U64_LIMIT && line == StatusLineOf(status) {
      StatusPrinted(status);
      assert line[..|marker|] == marker && line[|marker|..] == "0x" + PrintHex(status, 16);
    }
  }

  lemma PointerIff(line: string, pointer: u8)
    ensures Belongs(line, PointerSlot) && ParsePointer(ValueOf(line, PointerSlot)) == Some(pointer) <==>
      line == PointerLineOf(pointer)
  {
    hide Marker, TakeByte, PrintByte;
    var marker := Marker(PointerSlot);
    if Belongs(line, PointerSlot) && ParsePointer(ValueOf(line, PointerSlot)) == Some(pointer) {
      var s := ValueOf(line, PointerSlot);
      BytePrints(s);
      assert PrintByte(pointer) + "" == PrintByte(pointer) && line == marker + s;
    }
    if line == PointerLineOf(pointer) {
      assert line[..|marker|] == marker && line[|marker|..] == PrintByte(pointer);
      BytePrinted(pointer, "");
      assert PrintByte(pointer) + "" == PrintByte(pointer);
    }
  }

  lemma StateIff(line: string, present: bool)
    ensures Belongs(line, if present then PresentSlot else AbsentSlot) <==> line == StateLineOf(present)
  {
  }

  /** Lines that can be read as entries or as a summary are found as such. */
  lemma ReadLinesBelong(line: string)
    ensures ParseEntry(line).Some? ==> Belongs(line, EntrySlot)
    ensures ParseSummary(line).Some? ==> Belongs(line, SummarySlot)
  {
    hide ParseFields, ParseClaims;
    assert ENTRY_START == Marker(EntrySlot) + "ID=";
    assert SUMMARY_START == Marker(SummarySlot) + "PM=";
  }

  // --------------------------------------------------------------------- section

  /** The capability lines of a transcript. */
  function Section(serial: seq<string>): seq<string> {
    if serial == [] then []
    else (if SlotOf(serial[0]).Some? then [serial[0]] else []) + Section(serial[1..])
  }

  lemma {:induction false} SectionAppends(s: seq<string>, t: seq<string>)
    ensures Section(s + t) == Section(s) + Section(t)
  {
    hide SlotOf;
    if s == [] {
      assert s + t == t;
    } else {
      assert (s + t)[1..] == s[1..] + t;
      SectionAppends(s[1..], t);
    }
  }

  lemma SectionOne(line: string)
    ensures Section([line]) == if SlotOf(line).Some? then [line] else []
  {
    assert [line][1..] == [];
  }

  lemma {:induction false} SectionOfOthers(s: seq<string>)
    ensures Section(s) == [] <==> forall i | 0 <= i < |s| :: SlotOf(s[i]).None?
  {
    hide SlotOf;
    if s != [] {
      SectionOfOthers(s[1..]);
      assert forall i | 1 <= i < |s| :: s[i] == s[1..][i - 1];
    }
  }

  /** Where the first capability line stands. */
  lemma {:induction false} PeelFirst(serial: seq<string>, x: string, rest: seq<string>) returns (i: nat)
    requires Section(serial) == [x] + rest
    ensures i < |serial| && serial[i] == x && SlotOf(x).Some? && Section(serial[i + 1..]) == rest
    ensures forall n | 0 <= n < i :: SlotOf(serial[n]).None?
    decreases |serial|
  {
    hide SlotOf;
    if SlotOf(serial[0]).Some? {
      i := 0;
      assert Section(serial)[0] == serial[0] && Section(serial)[1..] == Section(serial[1..]) == rest;
    } else {
      assert Section(serial) == Section(serial[1..]);
      var j := PeelFirst(serial[1..], x, rest);
      i := j + 1;
      assert serial[1..][j + 1..] == serial[i + 1..];
      assert forall n | 1 <= n < i :: serial[n] == serial[1..][n - 1];
    }
  }

  /** Where the last one stands. */
  lemma {:induction false} PeelLast(serial: seq<string>, front: seq<string>, x: string) returns (m: nat)
    requires Section(serial) == front + [x]
    ensures m < |serial| && serial[m] == x && SlotOf(x).Some? && Section(serial[..m]) == front
    ensures forall n | m < n < |serial| :: SlotOf(serial[n]).None?
    decreases |serial|
  {
    hide SlotOf, Section;
    if serial == [] {
      NothingInSection();
      assert false;
    }
    var init, last := serial[..|serial| - 1], serial[|serial| - 1];
    assert serial == init + [last];
    SectionAppends(init, [last]);
    SectionOne(last);
    if SlotOf(last).Some? {
      m := |serial| - 1;
      assert (front + [x])[|front|] == (Section(init) + [last])[|front|];
      assert front == (front + [x])[..|front|] == (Section(init) + [last])[..|front|] == Section(init);
    } else {
      assert Section(init) + [] == Section(init);
      m := PeelLast(init, front, x);
      assert init[..m] == serial[..m];
    }
  }

  lemma NothingInSection()
    ensures Section([]) == []
  {
  }

  lemma {:induction false} SectionMembers(serial: seq<string>, n: nat)
    requires n < |serial| && SlotOf(serial[n]).Some?
    ensures serial[n] in Section(serial)
  {
    hide SlotOf;
    if n > 0 {
      SectionMembers(serial[1..], n - 1);
    }
  }

  // ------------------------------------------------------------------ the script

  /** One line of each kind, in order, and the entries between state and summary. */
  ghost predicate Arranged(t: seq<Option<Slot>>, i: nat, j: nat, k: nat, m: nat) {
    && i < j < k < m < |t|
    && t[i] == Some(StatusSlot) && t[j] == Some(PointerSlot) && t[k] in {Some(PresentSlot), Some(AbsentSlot)}
    && t[m] == Some(SummarySlot)
    && forall n | 0 <= n < |t| && n != i && n != j && n != k && n != m ::
         t[n] == None || (t[n] == Some(EntrySlot) && k < n < m)
  }

  ghost predicate Accepts(serial: seq<string>, i: nat, j: nat, k: nat, m: nat) {
    && Arranged(Tokens(serial), i, j, k, m) && i < j < k < m < |serial|
    && (var status := ParseStatus(ValueAt(serial, i, StatusSlot));
        var pointer := ParsePointer(ValueAt(serial, j, PointerSlot));
        && status.Some? && pointer.Some?
        && ReportAccepted(status.value, SlotOf(serial[k]) == Some(PresentSlot), pointer.value,
                          Section(serial[k + 1..m]), serial[m]))
  }

  /** The value behind a marker; empty if the line does not have the marker. */
  function ValueAt(serial: seq<string>, i: nat, slot: Slot): string
    requires i < |serial|
  {
    if Belongs(serial[i], slot) then ValueOf(serial[i], slot) else ""
  }

  ghost predicate SectionAccepted(serial: seq<string>) {
    exists i, j, k, m :: Accepts(serial, i, j, k, m)
  }

  ghost predicate IsReport(section: seq<string>, status: nat, present: bool, pointer: u8, lines: seq<string>,
                           summary: string)
  {
    && status < U64_LIMIT && ReportAccepted(status, present, pointer, lines, summary)
    && section == [StatusLineOf(status), PointerLineOf(pointer), StateLineOf(present)] + lines + [summary]
  }

  /** The section of an arranged transcript. */
  lemma ArrangedSection(serial: seq<string>, i: nat, j: nat, k: nat, m: nat)
    requires Arranged(Tokens(serial), i, j, k, m)
    ensures Section(serial) == [serial[i], serial[j], serial[k]] + Section(serial[k + 1..m]) + [serial[m]]
  {
    hide SlotOf, Section;
    var n := |serial|;
    SectionFrom(serial, 0, i, n);
    SectionFrom(serial, i + 1, j, n);
    SectionFrom(serial, j + 1, k, n);
    SectionFrom(serial, m, m, n);
    SectionStretch(serial, m + 1, n);
    assert serial[k + 1..n] == serial[k + 1..m] + serial[m..n];
    SectionAppends(serial[k + 1..m], serial[m..n]);
    assert serial[0..n] == serial;
  }

  lemma SectionStretch(serial: seq<string>, lo: nat, hi: nat)
    requires lo <= hi <= |serial| && forall n | lo <= n < hi :: Tokens(serial)[n] == None
    ensures Section(serial[lo..hi]) == []
  {
    hide SlotOf;
    forall n | 0 <= n < hi - lo ensures SlotOf(serial[lo..hi][n]).None? {
      assert Tokens(serial)[lo + n] == None;
    }
    SectionOfOthers(serial[lo..hi]);
  }

  /** A stretch whose first capability line stands at i. */
  lemma SectionFrom(serial: seq<string>, lo: nat, i: nat, hi: nat)
    requires lo <= i < hi <= |serial| && Tokens(serial)[i].Some? && forall n | lo <= n < i :: Tokens(serial)[n] == None
    ensures Section(serial[lo..hi]) == [serial[i]] + Section(serial[i + 1..hi])
  {
    hide SlotOf, Section;
    SectionStretch(serial, lo, i);
    assert serial[lo..hi] == serial[lo..i] + ([serial[i]] + serial[i + 1..hi]);
    SectionAppends(serial[lo..i], [serial[i]] + serial[i + 1..hi]);
    SectionAppends([serial[i]], serial[i + 1..hi]);
    SectionOne(serial[i]);
  }

  lemma AcceptedIsReport(serial: seq<string>, i: nat, j: nat, k: nat, m: nat)
    requires Accepts(serial, i, j, k, m)
    ensures exists status, present, pointer, lines, summary ::
      IsReport(Section(serial), status, present, pointer, lines, summary)
  {
    hide SlotOf, ReportAccepted, Marker, ParseStatus, ParsePointer, StatusLineOf, PointerLineOf, StateLineOf, Section;
    ArrangedSection(serial, i, j, k, m);
    var present := SlotOf(serial[k]) == Some(PresentSlot);
    SlotOfIff(serial[i], StatusSlot);
    SlotOfIff(serial[j], PointerSlot);
    SlotOfIff(serial[k], if present then PresentSlot else AbsentSlot);
    var status := ParseStatus(ValueAt(serial, i, StatusSlot)).value;
    var pointer := ParsePointer(ValueAt(serial, j, PointerSlot)).value;
    StatusIff(serial[i], status);
    PointerIff(serial[j], pointer);
    StateIff(serial[k], present);
    assert IsReport(Section(serial), status, present, pointer, Section(serial[k + 1..m]), serial[m]);
  }

  /** Where the lines of a section stand that begins with three lines and ends with one. */
  lemma PlaceSection(serial: seq<string>, a: string, b: string, c: string, lines: seq<string>, z: string)
    returns (i: nat, j: nat, k: nat, m: nat)
    requires Section(serial) == [a, b, c] + lines + [z]
    ensures i < j < k < m < |serial| && Section(serial[k + 1..m]) == lines
    ensures serial[i] == a && serial[j] == b && serial[k] == c && serial[m] == z
    ensures forall n | 0 <= n < |serial| && !(k < n < m) && n != i && n != j && n != k && n != m ::
      SlotOf(serial[n]).None?
  {
    hide SlotOf, Section;
    assert [a, b, c] + lines + [z] == [a] + ([b, c] + lines + [z]);
    i := PeelFirst(serial, a, [b, c] + lines + [z]);
    assert [b, c] + lines + [z] == [b] + ([c] + lines + [z]);
    j := PeelFrom(serial, i + 1, b, [c] + lines + [z]);
    assert [c] + lines + [z] == [c] + (lines + [z]);
    k := PeelFrom(serial, j + 1, c, lines + [z]);
    var n := PeelLast(serial[k + 1..], lines, z);
    m := k + 1 + n;
    assert serial[k + 1..][..n] == serial[k + 1..m];
    assert forall n | m < n < |serial| :: serial[n] == serial[k + 1..][n - k - 1];
  }

  lemma PeelFrom(serial: seq<string>, lo: nat, x: string, rest: seq<string>) returns (i: nat)
    requires lo <= |serial| && Section(serial[lo..]) == [x] + rest
    ensures lo <= i < |serial| && serial[i] == x && Section(serial[i + 1..]) == rest
    ensures forall n | lo <= n < i :: SlotOf(serial[n]).None?
  {
    hide SlotOf, Section;
    var j := PeelFirst(serial[lo..], x, rest);
    i := lo + j;
    assert serial[lo..][j + 1..] == serial[i + 1..];
    assert forall n | lo <= n < i :: serial[n] == serial[lo..][n - lo];
  }

  /** A transcript whose section is a report is accepted. */
  lemma ReportIsAccepted(serial: seq<string>, status: nat, present: bool, pointer: u8, lines: seq<string>,
                         summary: string)
    requires IsReport(Section(serial), status, present, pointer, lines, summary)
    ensures SectionAccepted(serial)
  {
    hide SlotOf, Section, StatusLineOf, PointerLineOf, StateLineOf, ReportAccepted, Arranged, ParseStatus, ParsePointer;
    var i, j, k, m := PlaceSection(serial, StatusLineOf(status), PointerLineOf(pointer), StateLineOf(present),
                                   lines, summary);
    PlacedIsArranged(serial, status, present, pointer, lines, summary, i, j, k, m);
    ReportValues(serial, status, present, pointer, i, j, k);
    assert Accepts(serial, i, j, k, m);
  }

  /** The values of the three lines in front. */
  lemma ReportValues(serial: seq<string>, status: nat, present: bool, pointer: u8, i: nat, j: nat, k: nat)
    requires status < U64_LIMIT && i < |serial| && j < |serial| && k < |serial|
    requires serial[i] == StatusLineOf(status) && serial[j] == PointerLineOf(pointer)
    requires serial[k] == StateLineOf(present)
    ensures ParseStatus(ValueAt(serial, i, StatusSlot)) == Some(status)
    ensures ParsePointer(ValueAt(serial, j, PointerSlot)) == Some(pointer)
    ensures SlotOf(serial[i]) == Some(StatusSlot) && SlotOf(serial[j]) == Some(PointerSlot)
    ensures SlotOf(serial[k]) == Some(if present then PresentSlot else AbsentSlot)
  {
    hide SlotOf, Belongs, StatusLineOf, PointerLineOf, StateLineOf, ParseStatus, ParsePointer;
    StatusIff(serial[i], status);
    PointerIff(serial[j], pointer);
    StateIff(serial[k], present);
    SlotOfIff(serial[i], StatusSlot);
    SlotOfIff(serial[j], PointerSlot);
    SlotOfIff(serial[k], if present then PresentSlot else AbsentSlot);
  }

  lemma PlacedIsArranged(serial: seq<string>, status: nat, present: bool, pointer: u8, lines: seq<string>,
                         summary: string, i: nat, j: nat, k: nat, m: nat)
    requires status < U64_LIMIT && ReportAccepted(status, present, pointer, lines, summary)
    requires i < j < k < m < |serial| && Section(serial[k + 1..m]) == lines
    requires serial[i] == StatusLineOf(status) && serial[j] == PointerLineOf(pointer)
    requires serial[k] == StateLineOf(present) && serial[m] == summary
    requires forall n | 0 <= n < |serial| && !(k < n < m) && n != i && n != j && n != k && n != m ::
      SlotOf(serial[n]).None?
    ensures Arranged(Tokens(serial), i, j, k, m)
  {
    hide SlotOf, Section, StatusLineOf, PointerLineOf, StateLineOf, ReportAccepted, ParseStatus, ParsePointer;
    ReportValues(serial, status, present, pointer, i, j, k);
    ReportedLinesBelong(status, present, pointer, lines, summary);
    forall n | k < n < m ensures SlotOf(serial[n]) == None || SlotOf(serial[n]) == Some(EntrySlot) {
      if SlotOf(serial[n]).Some? {
        assert serial[k + 1..m][n - k - 1] == serial[n];
        SectionMembers(serial[k + 1..m], n - k - 1);
      }
    }
  }

  lemma ReportedLinesBelong(status: nat, present: bool, pointer: u8, lines: seq<string>, summary: string)
    requires ReportAccepted(status, present, pointer, lines, summary)
    ensures SlotOf(summary) == Some(SummarySlot) && forall line | line in lines :: SlotOf(line) == Some(EntrySlot)
  {
    hide SlotOf, Belongs, ParseEntry, ParseSummary, TraversalAccepted;
    var es, claims :| Reads(es, claims, lines, summary) && TraversalAccepted(status, present, pointer, es, claims);
    ReadLinesBelong(summary);
    SlotOfIff(summary, SummarySlot);
    forall line | line in lines ensures SlotOf(line) == Some(EntrySlot) {
      var i :| 0 <= i < |lines| && lines[i] == line;
      assert ParseEntry(lines[i]) == Some(es[i]);
      ReadLinesBelong(line);
      SlotOfIff(line, EntrySlot);
    }
  }

  /**
   The script accepts exactly the transcripts whose capability lines are the status, the pointer, the
   state, the entries and the summary of an accepted report, in this order and with nothing else.
   */
  lemma TranscriptIff(serial: seq<string>)
    ensures SectionAccepted(serial) <==> exists status, present, pointer, lines, summary ::
      IsReport(Section(serial), status, present, pointer, lines, summary)
  {
    hide Accepts, IsReport, Section;
    if SectionAccepted(serial) {
      var i, j, k, m :| Accepts(serial, i, j, k, m);
      AcceptedIsReport(serial, i, j, k, m);
    }
    if status, present, pointer, lines, summary :|
      IsReport(Section(serial), status, present, pointer, lines, summary)
    {
      ReportIsAccepted(serial, status, present, pointer, lines, summary);
    }
  }

  /** With a status of one byte: exactly the transcripts whose section the kernel can print, for any device. */
  lemma TranscriptIffEmitted(device: Config, serial: seq<string>)
    ensures (exists status, present, pointer, lines, summary | status < 256 ::
               IsReport(Section(serial), status, present, pointer, lines, summary)) <==>
      exists config: Config, status, present, pointer, lines, summary ::
        && SameDevice(config, device) && Emits(config, status, pointer, present, lines, summary)
        && Section(serial) == [StatusLineOf(status), PointerLineOf(pointer), StateLineOf(present)] + lines + [summary]
  {
    hide Emits, SameDevice, ReportAccepted, Section, StatusLineOf, PointerLineOf, StateLineOf;
    if status, present, pointer, lines, summary :|
      status < 256 && IsReport(Section(serial), status, present, pointer, lines, summary)
    {
      var config := AcceptedIsEmitted(device, status, present, pointer, lines, summary);
    }
    if config: Config, status, present, pointer, lines, summary :|
      && SameDevice(config, device) && Emits(config, status, pointer, present, lines, summary)
      && Section(serial) == [StatusLineOf(status), PointerLineOf(pointer), StateLineOf(present)] + lines + [summary]
    {
      EmittedIsAccepted(config, status, pointer, present, lines, summary);
      assert IsReport(Section(serial), status, present, pointer, lines, summary);
    }
  }

  // ------------------------------------------------------------------ the search

  /** The line at i is the only one of these kinds. */
  ghost predicate Once(t: seq<Option<Slot>>, slots: set<Slot>, i: nat) {
    i < |t| && forall n | 0 <= n < |t| :: t[n].Some? && t[n].value in slots <==> n == i
  }

  ghost predicate EntriesBetween(t: seq<Option<Slot>>, k: nat, m: nat) {
    forall n | 0 <= n < |t| && t[n] == Some(EntrySlot) :: k < n < m
  }

  /** The script's counts and comparisons say just that the lines are arranged. */
  lemma ArrangedIffOnce(t: seq<Option<Slot>>, i: nat, j: nat, k: nat, m: nat)
    ensures Arranged(t, i, j, k, m) <==>
      && Once(t, {StatusSlot}, i) && Once(t, {PointerSlot}, j) && Once(t, {PresentSlot, AbsentSlot}, k)
      && Once(t, {SummarySlot}, m) && i < j < k < m && EntriesBetween(t, k, m)
  {
    if && Once(t, {StatusSlot}, i) && Once(t, {PointerSlot}, j) && Once(t, {PresentSlot, AbsentSlot}, k)
       && Once(t, {SummarySlot}, m) && i < j < k < m && EntriesBetween(t, k, m)
    {
      forall n | 0 <= n < |t| && n != i && n != j && n != k && n != m
        ensures t[n] == None || (t[n] == Some(EntrySlot) && k < n < m)
      {
        if t[n].Some? {
          KindsOf(t[n].value);
        }
      }
    }
  }

  lemma KindsOf(slot: Slot)
    ensures slot in {StatusSlot} || slot in {PointerSlot} || slot in {PresentSlot, AbsentSlot} || slot in {SummarySlot}
      || slot == EntrySlot
  {
  }

  lemma OnceUnique(t: seq<Option<Slot>>, slots: set<Slot>, i: nat, j: nat)
    requires Once(t, slots, i) && Once(t, slots, j)
    ensures i == j
  {
    assert t[i].Some? && t[i].value in slots;
  }

  lemma ArrangedUnique(t: seq<Option<Slot>>, i: nat, j: nat, k: nat, m: nat, a: nat, b: nat, c: nat, d: nat)
    requires Arranged(t, i, j, k, m) && Arranged(t, a, b, c, d)
    ensures i == a && j == b && k == c && m == d
  {
    hide Arranged, Once;
    ArrangedIffOnce(t, i, j, k, m);
    ArrangedIffOnce(t, a, b, c, d);
    OnceUnique(t, {StatusSlot}, i, a);
    OnceUnique(t, {PointerSlot}, j, b);
    OnceUnique(t, {PresentSlot, AbsentSlot}, k, c);
    OnceUnique(t, {SummarySlot}, m, d);
  }

  /** `require_exactly_one` and its like: the place of the only line of a kind. */
  method Only(t: seq<Option<Slot>>, slot: Slot) returns (r: Option<nat>)
    ensures r.Some? ==> Once(t, {slot}, r.value)
    ensures r.None? ==> forall i: nat :: !Once(t, {slot}, i)
  {
    var found := Matches(t, Some(slot));
    if |found| == 1 {
      assert found[0] in found && forall n | n in found :: n == found[0];
      r := Some(found[0]);
    } else {
      r := None;
      assert |found| >= 2 ==> found[0] in found && found[1] in found;
      forall i: nat ensures !Once(t, {slot}, i) {
        assert i < |t| && t[i] == Some(slot) ==> i in found;
      }
    }
  }

  /** The line of the list state, whichever of the two it is. */
  method OnlyState(t: seq<Option<Slot>>) returns (r: Option<nat>)
    ensures r.Some? ==> Once(t, {PresentSlot, AbsentSlot}, r.value)
    ensures r.None? ==> forall i: nat :: !Once(t, {PresentSlot, AbsentSlot}, i)
  {
    var present := Matches(t, Some(PresentSlot));
    var absent := Matches(t, Some(AbsentSlot));
    if |present| + |absent| == 1 {
      r := Some(if |present| == 1 then present[0] else absent[0]);
      assert forall n | n in present || n in absent :: n == r.value;
      assert r.value in present || r.value in absent;
    } else {
      r := None;
      assert |present| >= 2 ==> present[0] in present && present[1] in present;
      assert |absent| >= 2 ==> absent[0] in absent && absent[1] in absent;
      assert |present| >= 1 && |absent| >= 1 ==> present[0] in present && absent[0] in absent;
      forall i: nat ensures !Once(t, {PresentSlot, AbsentSlot}, i) {
        assert i < |t| && t[i] == Some(PresentSlot) ==> i in present;
        assert i < |t| && t[i] == Some(AbsentSlot) ==> i in absent;
      }
    }
  }

  /** The positions of the section, if its lines are arranged. */
  method FindSection(t: seq<Option<Slot>>) returns (r: Option<(nat, nat, nat, nat)>)
    ensures r.Some? ==> Arranged(t, r.value.0, r.value.1, r.value.2, r.value.3)
    ensures r.None? ==> forall i: nat, j: nat, k: nat, m: nat :: !Arranged(t, i, j, k, m)
  {
    hide Arranged, Once;
    var i := Only(t, StatusSlot);
    var j := Only(t, PointerSlot);
    var k := OnlyState(t);
    var m := Only(t, SummarySlot);
    forall a: nat, b: nat, c: nat, d: nat ensures Arranged(t, a, b, c, d) ==>
      && i == Some(a) && j == Some(b) && k == Some(c) && m == Some(d) && a < b < c < d && EntriesBetween(t, c, d)
    {
      ArrangedIffOnce(t, a, b, c, d);
      if Arranged(t, a, b, c, d) {
        OnceUnique(t, {StatusSlot}, i.value, a);
        OnceUnique(t, {PointerSlot}, j.value, b);
        OnceUnique(t, {PresentSlot, AbsentSlot}, k.value, c);
        OnceUnique(t, {SummarySlot}, m.value, d);
      }
    }
    if i.None? || j.None? || k.None? || m.None? || !(i.value < j.value < k.value < m.value) {
      return None;
    }
    var entries := Matches(t, Some(EntrySlot));
    for n := 0 to |entries|
      invariant forall e | 0 <= e < n :: k.value < entries[e] < m.value
    {
      if !(k.value < entries[n] < m.value) {
        assert entries[n] in entries;
        return None;
      }
    }
    assert EntriesBetween(t, k.value, m.value) by {
      forall n | 0 <= n < |t| && t[n] == Some(EntrySlot) ensures k.value < n < m.value {
        assert n in entries;
      }
    }
    ArrangedIffOnce(t, i.value, j.value, k.value, m.value);
    r := Some((i.value, j.value, k.value, m.value));
  }

  /** The traversal section of `assert_capability_probe_report`. */
  method CheckTranscript(serial: seq<string>) returns (ok: bool)
    ensures ok <==> SectionAccepted(serial)
  {
    hide SlotOf, Section, ReportAccepted, ParseStatus, ParsePointer, Arranged, ValueAt;
    var found := FindSection(Tokens(serial));
    if found.None? {
      return false;
    }
    var (i, j, k, m) := found.value;
    ArrangedInOrder(Tokens(serial), i, j, k, m);
    forall a: nat, b: nat, c: nat, d: nat
      ensures Arranged(Tokens(serial), a, b, c, d) ==> a == i && b == j && c == k && d == m
    {
      if Arranged(Tokens(serial), a, b, c, d) {
        ArrangedUnique(Tokens(serial), a, b, c, d, i, j, k, m);
      }
    }
    assert SectionAccepted(serial) <==> Accepts(serial, i, j, k, m);
    var status := ParseStatus(ValueAt(serial, i, StatusSlot));
    var pointer := ParsePointer(ValueAt(serial, j, PointerSlot));
    if status.None? || pointer.None? {
      return false;
    }
    var present := SlotOf(serial[k]) == Some(PresentSlot);
    ok := CheckReport(status.value, present, pointer.value, Section(serial[k + 1..m]), serial[m]);
  }

  lemma ArrangedInOrder(t: seq<Option<Slot>>, i: nat, j: nat, k: nat, m: nat)
    requires Arranged(t, i, j, k, m)
    ensures i < j < k < m < |t|
  {
  }
}
