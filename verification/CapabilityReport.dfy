/**
 The kernel's walk through the capability list, and the report that the script accepts. The
 kernel reads one byte of the status register, so it prints statuses below 256; the script
 takes any. Of the reports with such a status the script accepts exactly those that the kernel
 can emit: for every accepted one, and for every device, there is a configuration space of that
 device on which it prints just this.
 */
module CapabilityReport {
  import opened Results
  import opened Capabilities
  import opened CapabilityText

  // ------------------------------------------------------- configuration space

  /** The 256 bytes of configuration space. */
  type Config = s: seq<u8> | |s| == 256 witness seq(256, _ => 0)

  /** What the kernel reads at an offset. */
  function EntryIn(config: Config, p: u8): Entry
    requires ValidPointer(p)
  {
    var (kind, headerLen) := Recognised(config[p]);
    Entry(config[p], p, config[p + 1], kind, headerLen)
  }

  ghost function SpaceIn(config: Config): Space {
    map p: u8 | 0 <= p < 256 && ValidPointer(p) :: EntryIn(config, p)
  }

  lemma SpaceInWellFormed(config: Config)
    ensures WellFormed(SpaceIn(config)) && forall p: u8 :: p in SpaceIn(config) <==> ValidPointer(p)
    ensures forall p: u8 | ValidPointer(p) :: SpaceIn(config)[p] == EntryIn(config, p)
  {
  }

  /** The walk ends, and no recognised header leaves configuration space. */
  ghost predicate Traversable(config: Config, first: u8) {
    && Walk(SpaceIn(config), first, MAX_ENTRIES).Some?
    && AllLocallyValid(Walk(SpaceIn(config), first, MAX_ENTRIES).value)
  }

  // ----------------------------------------------------------- the kernel's walk

  datatype Snapshot = Snapshot(entries: seq<Entry>, summary: Summary)

  datatype WalkError = InvalidPointer(offset: u8) | RepeatedOffset(offset: u8) | EntryLimitExceeded
                     | RecognizedHeaderOutOfBounds(id: u8, offset: u8, headerLen: u8)

  const NO_CLAIMS := Summary(None, None, None, None)

  ghost predicate Matching(summary: Summary, es: seq<Entry>) {
    forall kind :: summary.Of(kind) == FirstOf(es, kind)
  }

  predicate HeaderFits(e: Entry) {
    e.headerLen.Some? ==> e.offset + e.headerLen.value - 1 <= 0xFF
  }

  function Following(es: seq<Entry>, i: nat, current: u8): u8
    requires i < |es|
  {
    if i + 1 < |es| then es[i + 1].offset else current
  }

  /** The entries passed on the way from `first` to `current`. */
  ghost predicate Trail(config: Config, first: u8, es: seq<Entry>, current: u8) {
    && first == (if es == [] then current else es[0].offset)
    && (forall i | 0 <= i < |es| :: ValidPointer(es[i].offset) && es[i] == EntryIn(config, es[i].offset))
    && (forall i | 0 <= i < |es| :: HeaderFits(es[i]) && es[i].next == Following(es, i, current))
    && DistinctOffsets(es) && |es| <= MAX_ENTRIES
  }

  /** The one reason to stop at `current`, in the order of the checks. */
  ghost predicate Stops(config: Config, es: seq<Entry>, current: u8, error: WalkError) {
    && current != 0
    && if |es| == MAX_ENTRIES then error == EntryLimitExceeded
       else if !ValidPointer(current) then error == InvalidPointer(current)
       else if exists i | 0 <= i < |es| :: es[i].offset == current then error == RepeatedOffset(current)
       else
         var e := EntryIn(config, current);
         !HeaderFits(e) && error == RecognizedHeaderOutOfBounds(e.id, current, e.headerLen.value)
  }

  /** `parse_capability_list`: the loop that follows the NEXT pointers. */
  method ParseCapabilityList(present: bool, first: u8, config: Config) returns (r: Result<Snapshot, WalkError>)
    ensures !present ==> r == Ok(Snapshot([], NO_CLAIMS))
    ensures present ==> (r.Ok? <==> Traversable(config, first))
    ensures present && r.Ok? ==> Walk(SpaceIn(config), first, MAX_ENTRIES) == Some(r.value.entries)
    ensures r.Ok? ==> Matching(r.value.summary, r.value.entries)
    ensures r.Err? ==> exists es, current :: Trail(config, first, es, current) && Stops(config, es, current, r.error)
  {
    hide Recognised, ValidPointer, Traversable;
    if !present {
      return Ok(Snapshot([], NO_CLAIMS));
    }
    var current, entries, summary := first, [], NO_CLAIMS;
    while current != 0
      invariant Trail(config, first, entries, current) && Matching(summary, entries)
      decreases MAX_ENTRIES - |entries|
    {
      if |entries| == MAX_ENTRIES {
        TrailStops(config, first, entries, current, EntryLimitExceeded);
        return Err(EntryLimitExceeded);
      }
      if !ValidPointer(current) {
        TrailStops(config, first, entries, current, InvalidPointer(current));
        return Err(InvalidPointer(current));
      }
      for i := 0 to |entries|
        invariant forall j | 0 <= j < i :: entries[j].offset != current
      {
        if entries[i].offset == current {
          TrailStops(config, first, entries, current, RepeatedOffset(current));
          return Err(RepeatedOffset(current));
        }
      }
      var e := EntryIn(config, current);
      if !HeaderFits(e) {
        var error := RecognizedHeaderOutOfBounds(e.id, current, e.headerLen.value);
        TrailStops(config, first, entries, current, error);
        return Err(error);
      }
      TrailGrows(config, first, entries, e);
      SummaryGrows(summary, entries, e);
      entries := entries + [e];
      if summary.Of(e.kind).None? {
        summary := summary.With(e.kind, current);
      }
      current := e.next;
    }
    TrailEnds(config, first, entries);
    r := Ok(Snapshot(entries, summary));
  }

  lemma TrailGrows(config: Config, first: u8, es: seq<Entry>, e: Entry)
    requires ValidPointer(e.offset) && e == EntryIn(config, e.offset) && HeaderFits(e)
    requires Trail(config, first, es, e.offset) && |es| < MAX_ENTRIES
    requires forall i | 0 <= i < |es| :: es[i].offset != e.offset
    ensures Trail(config, first, es + [e], e.next)
  {
    hide ValidPointer, EntryIn, HeaderFits;
    var more := es + [e];
    forall i | 0 <= i < |more| ensures HeaderFits(more[i]) && more[i].next == Following(more, i, e.next) {
      if i < |es| {
        assert es[i].next == Following(es, i, e.offset);
      }
    }
  }

  lemma SummaryGrows(summary: Summary, es: seq<Entry>, e: Entry)
    requires Matching(summary, es)
    ensures Matching(if summary.Of(e.kind).None? then summary.With(e.kind, e.offset) else summary, es + [e])
  {
    forall kind ensures
      (if summary.Of(e.kind).None? then summary.With(e.kind, e.offset) else summary).Of(kind) == FirstOf(es + [e], kind)
    {
      FirstOfSnoc(es, e, kind);
      assert summary.Of(kind) == FirstOf(es, kind);
    }
  }

  /** A trail that has come to the null pointer is an accepted list, and the whole walk. */
  lemma TrailEnds(config: Config, first: u8, es: seq<Entry>)
    requires Trail(config, first, es, 0)
    ensures Accepted(es) && Traversable(config, first) && Walk(SpaceIn(config), first, MAX_ENTRIES) == Some(es)
  {
    hide Recognised;
    SpaceInWellFormed(config);
    forall i | 0 <= i < |es| ensures LocallyValid(es[i]) && es[i].next == NextOffset(es, i) {
      assert es[i].next == Following(es, i, 0);
    }
    LinkedIsWalk(SpaceIn(config), es, MAX_ENTRIES);
  }

  /** A complete walk goes along every trail. */
  lemma {:induction false} WalkFollowsTrail(config: Config, first: u8, es: seq<Entry>, current: u8)
    requires Trail(config, first, es, current) && Walk(SpaceIn(config), first, MAX_ENTRIES).Some?
    ensures es <= Walk(SpaceIn(config), first, MAX_ENTRIES).value
    ensures Walk(SpaceIn(config), current, MAX_ENTRIES - |es|)
         == Some(Walk(SpaceIn(config), first, MAX_ENTRIES).value[|es|..])
    decreases |es|
  {
    hide Trail, ValidPointer, EntryIn, Walk;
    var ws := Walk(SpaceIn(config), first, MAX_ENTRIES).value;
    TrailIsShort(config, first, es, current);
    if es == [] {
      assert ws[0..] == ws;
    } else {
      var init, last := es[..|es| - 1], es[|es| - 1];
      TrailInit(config, first, es, current);
      WalkFollowsTrail(config, first, init, last.offset);
      SpaceInWellFormed(config);
      var rest := Walk(SpaceIn(config), last.offset, MAX_ENTRIES - |init|).value;
      WalkStep(SpaceIn(config), last.offset, MAX_ENTRIES - |init|);
      assert rest == ws[|init|..] && rest[0] == last && rest[1..] == ws[|es|..];
      assert es == init + [last] == ws[..|es|];
    }
  }

  lemma WalkStep(space: Space, p: u8, limit: nat)
    requires p != 0 && Walk(space, p, limit).Some?
    ensures limit > 0 && p in space && Walk(space, p, limit).value != []
    ensures Walk(space, p, limit).value[0] == space[p]
    ensures Walk(space, space[p].next, limit - 1) == Some(Walk(space, p, limit).value[1..])
  {
  }

  lemma PointerIsNotNull(p: u8)
    ensures ValidPointer(p) ==> p != 0
  {
  }

  lemma FrontIsDistinct(es: seq<Entry>)
    requires es != [] && DistinctOffsets(es)
    ensures DistinctOffsets(es[..|es| - 1])
  {
  }

  lemma TrailInit(config: Config, first: u8, es: seq<Entry>, current: u8)
    requires Trail(config, first, es, current) && es != []
    ensures Trail(config, first, es[..|es| - 1], es[|es| - 1].offset) && es[|es| - 1].next == current
    ensures var last := es[|es| - 1].offset; last != 0 && ValidPointer(last) && es[|es| - 1] == EntryIn(config, last)
  {
    hide EntryIn, HeaderFits, ValidPointer, DistinctOffsets;
    PointerIsNotNull(es[|es| - 1].offset);
    FrontIsDistinct(es);
    var init, last := es[..|es| - 1], es[|es| - 1];
    forall i | 0 <= i < |init| ensures HeaderFits(init[i]) && init[i].next == Following(init, i, last.offset) {
      assert es[i].next == Following(es, i, current);
    }
    assert es[|es| - 1].next == Following(es, |es| - 1, current);
  }

  /** On a traversable list a trail that is not at its end can go on. */
  lemma TraversableGoesOn(config: Config, first: u8, es: seq<Entry>, current: u8)
    requires Traversable(config, first) && Trail(config, first, es, current) && current != 0
    ensures |es| < MAX_ENTRIES && ValidPointer(current) && HeaderFits(EntryIn(config, current))
    ensures forall i | 0 <= i < |es| :: es[i].offset != current
  {
    hide Trail, ValidPointer, Recognised, Walk;
    var space := SpaceIn(config);
    var ws := Walk(space, first, MAX_ENTRIES).value;
    WalkFollowsTrail(config, first, es, current);
    TrailIsShort(config, first, es, current);
    SpaceInWellFormed(config);
    WalkStep(space, current, MAX_ENTRIES - |es|);
    assert ws[|es|..][0] == ws[|es|] == EntryIn(config, current);
    EndingWalkIsSimple(space, first, MAX_ENTRIES);
    assert LocallyValid(ws[|es|]);
    forall i | 0 <= i < |es| ensures es[i].offset != current {
      assert ws[i] == es[i] && ws[i].offset != ws[|es|].offset;
    }
  }

  /** Where the kernel stops with an error there is no traversable list. */
  lemma TrailStops(config: Config, first: u8, es: seq<Entry>, current: u8, error: WalkError)
    requires Trail(config, first, es, current) && Stops(config, es, current, error)
    ensures !Traversable(config, first)
    ensures exists es, current :: Trail(config, first, es, current) && Stops(config, es, current, error)
  {
    hide Trail, ValidPointer, EntryIn, HeaderFits, Traversable;
    if Traversable(config, first) {
      TraversableGoesOn(config, first, es, current);
    }
  }

  lemma TrailIsShort(config: Config, first: u8, es: seq<Entry>, current: u8)
    requires Trail(config, first, es, current)
    ensures |es| <= MAX_ENTRIES && (es == [] ==> first == current)
  {
  }

  // ------------------------------------------------------------------ the report

  /** Bit 4 of the status register: the device has a capability list. */
  predicate ListBit(status: nat) {
    status / 16 % 2 == 1
  }

  function PrintAll(es: seq<Entry>): (lines: seq<string>)
    ensures |lines| == |es| && forall i | 0 <= i < |es| :: lines[i] == PrintEntry(es[i])
  {
    seq(|es|, i requires 0 <= i < |es| => PrintEntry(es[i]))
  }

  function SummaryOf(es: seq<Entry>): Summary {
    Summary(FirstOf(es, PowerManagement), FirstOf(es, PciExpress), FirstOf(es, Msi), FirstOf(es, MsiX))
  }

  /** The entries that the kernel reports, if it does not stop with an error. */
  ghost function Reported(config: Config, status: nat, pointer: u8): Option<seq<Entry>> {
    if !ListBit(status) then Some([])
    else if Traversable(config, pointer) then Walk(SpaceIn(config), pointer, MAX_ENTRIES)
    else None
  }

  /** `run` and `emit_ready`, as far as the capability list goes: status and pointer are bytes 0x06 and 0x34. */
  ghost predicate Emits(config: Config, status: nat, pointer: u8, present: bool, lines: seq<string>, summary: string) {
    && status == config[0x06] && pointer == config[0x34]
    && Reported(config, status, pointer).Some? && present == ListBit(status)
    && lines == PrintAll(Reported(config, status, pointer).value)
    && summary == PrintSummary(SummaryOf(Reported(config, status, pointer).value))
  }

  /** The entries and the summary behind the lines of a report. */
  ghost predicate Reads(es: seq<Entry>, claims: Summary, lines: seq<string>, summary: string) {
    && |lines| == |es| && (forall i | 0 <= i < |es| :: ParseEntry(lines[i]) == Some(es[i]))
    && ParseSummary(summary) == Some(claims)
  }

  ghost predicate TraversalAccepted(status: nat, present: bool, pointer: u8, es: seq<Entry>, claims: Summary) {
    && present == ListBit(status)
    && Accepted(es) && (present ==> pointer == FirstOffset(es))
    && DistinctClaims(claims) && Matching(claims, es)
    && (!present ==> es == [] && claims == NO_CLAIMS)
  }

  ghost predicate ReportAccepted(status: nat, present: bool, pointer: u8, lines: seq<string>, summary: string) {
    exists es, claims :: Reads(es, claims, lines, summary) && TraversalAccepted(status, present, pointer, es, claims)
  }

  /** `len(claimed) != len(set(claimed))`. */
  predicate ClaimsTwice(s: Summary) {
    || (s.pm.Some? && (s.pm == s.pcie || s.pm == s.msi || s.pm == s.msix))
    || (s.pcie.Some? && (s.pcie == s.msi || s.pcie == s.msix))
    || (s.msi.Some? && s.msi == s.msix)
  }

  lemma ClaimsTwiceIff(s: Summary)
    ensures ClaimsTwice(s) <==> !DistinctClaims(s)
  {
    if DistinctClaims(s) {
      assert s.Of(PowerManagement) == s.pm && s.Of(PciExpress) == s.pcie && s.Of(Msi) == s.msi && s.Of(MsiX) == s.msix;
    }
  }

  /** The traversal section of `assert_capability_probe_report`, after its lines are found. */
  method CheckReport(status: nat, present: bool, pointer: u8, lines: seq<string>, summary: string) returns (ok: bool)
    ensures ok <==> ReportAccepted(status, present, pointer, lines, summary)
  {
    hide ParseEntry, ParseSummary, Accepted, DistinctClaims, Matching;
    if ListBit(status) != present || ParseSummary(summary).None? {
      return false;
    }
    var es: seq<Entry> := [];
    for i := 0 to |lines|
      invariant |es| == i && forall j | 0 <= j < i :: ParseEntry(lines[j]) == Some(es[j])
    {
      var e := ParseEntry(lines[i]);
      if e.None? {
        return false;
      }
      es := es + [e.value];
    }
    var claims := ParseSummary(summary).value;
    forall fs, ds | Reads(fs, ds, lines, summary) ensures fs == es && ds == claims {
    }
    assert Reads(es, claims, lines, summary);
    var refusal := Validate(es);
    if refusal.Some? || (present && pointer != FirstOffset(es)) {
      return false;
    }
    ClaimsTwiceIff(claims);
    if ClaimsTwice(claims) {
      return false;
    }
    var matches := SummaryMatches(claims, es);
    assert matches <==> Matching(claims, es) by {
      MatchingIs(claims, es);
    }
    ok := matches && (present || (es == [] && claims == NO_CLAIMS));
  }

  lemma MatchingIs(claims: Summary, es: seq<Entry>)
    ensures Matching(claims, es) <==> forall kind :: claims.Of(kind) == FirstOf(es, kind)
    ensures Matching(claims, es) <==> claims == SummaryOf(es)
  {
    assert forall kind :: SummaryOf(es).Of(kind) == FirstOf(es, kind);
    SummaryEquality(claims, SummaryOf(es));
  }

  lemma ReadsIffPrinted(es: seq<Entry>, claims: Summary, lines: seq<string>, summary: string)
    ensures Reads(es, claims, lines, summary) <==> lines == PrintAll(es) && summary == PrintSummary(claims)
  {
    hide ParseEntry, PrintEntry, ParseSummary, PrintSummary;
    SummaryLineIff(summary, claims);
    if |lines| == |es| {
      forall i | 0 <= i < |es| ensures ParseEntry(lines[i]) == Some(es[i]) <==> lines[i] == PrintEntry(es[i]) {
        EntryLineIff(lines[i], es[i]);
      }
    }
  }

  /** Of entries in one configuration space, the report is accepted exactly if they are what the kernel reports. */
  lemma AcceptedIffReported(config: Config, status: nat, pointer: u8, es: seq<Entry>)
    requires Lists(SpaceIn(config), es)
    ensures TraversalAccepted(status, ListBit(status), pointer, es, SummaryOf(es))
       <==> Reported(config, status, pointer) == Some(es)
  {
    hide Accepted, DistinctClaims, Matching, Walk, AllLocallyValid;
    SpaceInWellFormed(config);
    AcceptedIffWalk(SpaceIn(config), es);
    MatchingIs(SummaryOf(es), es);
    if Accepted(es) {
      MatchingSummaryIsDistinct(SummaryOf(es), es);
    }
    if ListBit(status) && Reported(config, status, pointer) == Some(es) {
      WalkIsLinked(SpaceIn(config), pointer, MAX_ENTRIES);
    }
    if !ListBit(status) && es == [] {
      NothingReported();
    }
  }

  lemma NothingReported()
    ensures Accepted([]) && SummaryOf([]) == NO_CLAIMS
  {
  }

  /** A configuration space that holds given entries; aligned entries do not touch each other. */
  lemma {:induction false} ConfigWith(es: seq<Entry>) returns (config: Config)
    requires AllLocallyValid(es) && DistinctOffsets(es)
    ensures Lists(SpaceIn(config), es)
    ensures forall i | 0 <= i < |es| :: EntryIn(config, es[i].offset) == es[i]
  {
    hide Recognised;
    if es == [] {
      config := seq(256, _ => 0);
    } else {
      var init, e := es[..|es| - 1], es[|es| - 1];
      assert AllLocallyValid(init) by {
        assert forall i | 0 <= i < |init| :: init[i] == es[i];
      }
      var before := ConfigWith(init);
      assert LocallyValid(e);
      config := before[e.offset := e.id][e.offset + 1 := e.next];
      forall i | 0 <= i < |es| ensures EntryIn(config, es[i].offset) == es[i] {
        assert LocallyValid(es[i]);
        if i < |init| {
          assert es[i] == init[i] && es[i].offset != e.offset;
          assert EntryIn(before, init[i].offset) == init[i];
        }
      }
    }
    SpaceInWellFormed(config);
    forall i | 0 <= i < |es| ensures es[i].offset in SpaceIn(config) && SpaceIn(config)[es[i].offset] == es[i] {
      assert LocallyValid(es[i]);
    }
  }

  lemma EmittedIsAccepted(config: Config, status: nat, pointer: u8, present: bool, lines: seq<string>, summary: string)
    requires Emits(config, status, pointer, present, lines, summary)
    ensures ReportAccepted(status, present, pointer, lines, summary) && status < 256
  {
    hide Reads, TraversalAccepted, Reported;
    var es := Reported(config, status, pointer).value;
    ReportedLists(config, status, pointer);
    AcceptedIffReported(config, status, pointer, es);
    ReadsIffPrinted(es, SummaryOf(es), lines, summary);
  }

  lemma ReportedLists(config: Config, status: nat, pointer: u8)
    requires Reported(config, status, pointer).Some?
    ensures Lists(SpaceIn(config), Reported(config, status, pointer).value)
  {
    if ListBit(status) {
      SpaceInWellFormed(config);
      WalkIsLinked(SpaceIn(config), pointer, MAX_ENTRIES);
    }
  }

  /** The same header, but for the status and the pointer: the identity of a device stands there. */
  ghost predicate SameDevice(a: Config, b: Config) {
    forall i | 0 <= i < 0x40 && i != 0x06 && i != 0x34 :: a[i] == b[i]
  }

  lemma AcceptedIsEmitted(device: Config, status: nat, present: bool, pointer: u8, lines: seq<string>, summary: string)
    returns (config: Config)
    requires ReportAccepted(status, present, pointer, lines, summary) && status < 256
    ensures SameDevice(config, device) && Emits(config, status, pointer, present, lines, summary)
  {
    hide Reads, Accepted, Matching, DistinctClaims, Reported;
    var es, claims :| Reads(es, claims, lines, summary) && TraversalAccepted(status, present, pointer, es, claims);
    AcceptedParts(es);
    MatchingIs(claims, es);
    ReadsIffPrinted(es, claims, lines, summary);
    var entries := ConfigWith(es);
    config := device[..0x40][0x06 := status][0x34 := pointer] + entries[0x40..];
    SameSpace(entries, config);
    AcceptedIffReported(config, status, pointer, es);
  }

  /** The capability list lies behind the header, so the header does not change it. */
  lemma SameSpace(a: Config, b: Config)
    requires a[0x40..] == b[0x40..]
    ensures SpaceIn(a) == SpaceIn(b)
  {
    forall p: u8 | ValidPointer(p) ensures EntryIn(a, p) == EntryIn(b, p) {
      assert a[p] == a[0x40..][p - 0x40] && a[p + 1] == a[0x40..][p + 1 - 0x40];
    }
  }

  lemma AcceptedParts(es: seq<Entry>)
    requires Accepted(es)
    ensures AllLocallyValid(es) && DistinctOffsets(es)
  {
  }

  /**
   Of the reports with a status of one byte the script accepts exactly those that the kernel prints
   for some configuration space, and the device does not matter.
   */
  lemma ReportIffEmitted(device: Config, status: nat, present: bool, pointer: u8, lines: seq<string>, summary: string)
    ensures ReportAccepted(status, present, pointer, lines, summary) && status < 256 <==>
      exists config: Config :: SameDevice(config, device) && Emits(config, status, pointer, present, lines, summary)
  {
    hide ReportAccepted, Emits, SameDevice;
    if ReportAccepted(status, present, pointer, lines, summary) && status < 256 {
      var config := AcceptedIsEmitted(device, status, present, pointer, lines, summary);
    }
    if config: Config :| SameDevice(config, device) && Emits(config, status, pointer, present, lines, summary) {
      EmittedIsAccepted(config, status, pointer, present, lines, summary);
    }
  }

  /** A wider status is accepted as well, and never printed: status 0x110 and an empty list. */
  lemma WideStatusAccepted(config: Config)
    ensures ReportAccepted(0x110, true, 0, [], PrintSummary(NO_CLAIMS))
    ensures !Emits(config, 0x110, 0, true, [], PrintSummary(NO_CLAIMS))
  {
    hide Reads, PrintSummary, Accepted, DistinctClaims, Matching;
    ReadsIffPrinted([], NO_CLAIMS, [], PrintSummary(NO_CLAIMS));
    assert PrintAll([]) == [];
    NothingReported();
    MatchingIs(NO_CLAIMS, []);
    MatchingIs(SummaryOf([]), []);
    MatchingSummaryIsDistinct(NO_CLAIMS, []) by {
      MatchingIs(NO_CLAIMS, []);
    }
    assert TraversalAccepted(0x110, true, 0, [], NO_CLAIMS);
  }
}
