/**
 The PCI capability list of the hardware probe (section 6.7 of the PCI Local Bus
 Specification 3.0): what `validate_capability_entries` accepts is exactly a walk through
 configuration space along the NEXT pointers.
 */
module Capabilities {
  import opened Results

  type u8 = v: int | 0 <= v < 256

  datatype Kind = PowerManagement | PciExpress | Msi | MsiX | Unknown

  datatype Entry = Entry(id: u8, offset: u8, next: u8, kind: Kind, headerLen: Option<u8>)

  const MAX_ENTRIES := 48

  /** What an identifier means: its kind and the length of its header. */
  function Recognised(id: u8): (Kind, Option<u8>) {
    if id == 0x01 then (PowerManagement, Some(0x08))
    else if id == 0x10 then (PciExpress, Some(0x14))
    else if id == 0x05 then (Msi, Some(0x0A))
    else if id == 0x11 then (MsiX, Some(0x0C))
    else (Unknown, None)
  }

  predicate ValidPointer(p: u8) {
    0x40 <= p <= 0xFC && p % 4 == 0
  }

  /** The checks that look at one entry only. */
  predicate LocallyValid(e: Entry) {
    && ValidPointer(e.offset) && (e.next == 0 || ValidPointer(e.next))
    && (e.kind, e.headerLen) == Recognised(e.id)
    && (e.headerLen.Some? ==> e.offset + e.headerLen.value - 1 <= 0xFF)
  }

  ghost predicate AllLocallyValid(es: seq<Entry>) {
    forall i | 0 <= i < |es| :: LocallyValid(es[i])
  }

  function NextOffset(es: seq<Entry>, i: nat): u8
    requires i < |es|
  {
    if i + 1 < |es| then es[i + 1].offset else 0
  }

  ghost predicate Linked(es: seq<Entry>) {
    forall i | 0 <= i < |es| :: es[i].next == NextOffset(es, i)
  }

  ghost predicate DistinctOffsets(es: seq<Entry>) {
    forall i, j | 0 <= i < j < |es| :: es[i].offset != es[j].offset
  }

  /** Everything that the checker demands. */
  ghost predicate Accepted(es: seq<Entry>) {
    |es| <= MAX_ENTRIES && AllLocallyValid(es) && DistinctOffsets(es) && Linked(es)
  }

  datatype Refusal = TooMany | BadOffset | DuplicateOffset | BadNext | WrongKind | HeaderCrosses | TraversalMismatch

  /** The one reason to refuse entry i, in the order of the checks. */
  ghost predicate EntryFault(es: seq<Entry>, i: nat, refusal: Refusal)
    requires i < |es|
  {
    var e := es[i];
    if !ValidPointer(e.offset) then refusal == BadOffset
    else if exists k | 0 <= k < i :: es[k].offset == e.offset then refusal == DuplicateOffset
    else if e.next != 0 && !ValidPointer(e.next) then refusal == BadNext
    else if (e.kind, e.headerLen) != Recognised(e.id) then refusal == WrongKind
    else if !LocallyValid(e) then refusal == HeaderCrosses
    else e.next != NextOffset(es, i) && refusal == TraversalMismatch
  }

  /** Nothing is wrong with the first n entries. */
  ghost predicate Clear(es: seq<Entry>, n: nat)
    requires n <= |es|
  {
    && (forall k | 0 <= k < n :: LocallyValid(es[k]) && es[k].next == NextOffset(es, k))
    && (forall j, k | 0 <= j < k < n :: es[j].offset != es[k].offset)
  }

  ghost predicate OffsetsBefore(es: seq<Entry>, n: nat, offsets: set<u8>)
    requires n <= |es|
  {
    forall o :: o in offsets <==> exists i | 0 <= i < n :: es[i].offset == o
  }

  lemma ClearGrows(es: seq<Entry>, n: nat, offsets: set<u8>)
    requires n < |es| && Clear(es, n) && OffsetsBefore(es, n, offsets)
    requires LocallyValid(es[n]) && es[n].next == NextOffset(es, n) && es[n].offset !in offsets
    ensures Clear(es, n + 1) && OffsetsBefore(es, n + 1, offsets + {es[n].offset})
  {
    hide LocallyValid, NextOffset;
    forall o ensures o in offsets + {es[n].offset} <==> exists i | 0 <= i < n + 1 :: es[i].offset == o {
      if o == es[n].offset {
        assert es[n].offset == o;
      }
    }
  }

  /** Entry i is the first that is refused, and this is the reason. */
  ghost predicate FirstFault(es: seq<Entry>, i: nat, refusal: Refusal)
    requires i < |es|
  {
    Clear(es, i) && EntryFault(es, i, refusal)
  }

  ghost predicate Refused(es: seq<Entry>, refusal: Refusal) {
    if |es| > MAX_ENTRIES then refusal == TooMany else exists i | 0 <= i < |es| :: FirstFault(es, i, refusal)
  }

  /** The specification names one refusal, and only for lists that are not accepted. */
  lemma RefusalUnique(es: seq<Entry>, a: Refusal, b: Refusal)
    requires Refused(es, a) && Refused(es, b)
    ensures a == b && !Accepted(es)
  {
    hide FirstFault, Accepted;
    if |es| > MAX_ENTRIES {
      TooManyRefused(es);
    } else {
      var i :| 0 <= i < |es| && FirstFault(es, i, a);
      var j :| 0 <= j < |es| && FirstFault(es, j, b);
      FaultBlocks(es, i, a, j, b);
      FaultBlocks(es, j, b, i, a);
    }
  }

  lemma TooManyRefused(es: seq<Entry>)
    requires |es| > MAX_ENTRIES
    ensures !Accepted(es)
  {
  }

  lemma FaultBlocks(es: seq<Entry>, i: nat, a: Refusal, j: nat, b: Refusal)
    requires i < |es| && FirstFault(es, i, a) && j < |es| && FirstFault(es, j, b)
    ensures j <= i && !Accepted(es) && (i == j ==> a == b)
  {
    hide ValidPointer, Recognised;
  }

  /** One turn of the loop, with the offsets of the entries before. */
  method CheckEntry(es: seq<Entry>, index: nat, offsets: set<u8>) returns (r: Option<Refusal>)
    requires index < |es| && OffsetsBefore(es, index, offsets)
    ensures r.None? <==>
      LocallyValid(es[index]) && es[index].next == NextOffset(es, index) && es[index].offset !in offsets
    ensures r.Some? ==> EntryFault(es, index, r.value)
  {
    hide Recognised, ValidPointer;
    var e := es[index];
    if !ValidPointer(e.offset) {
      return Some(BadOffset);
    }
    if e.offset in offsets {
      return Some(DuplicateOffset);
    }
    if e.next != 0 && !ValidPointer(e.next) {
      return Some(BadNext);
    }
    if (e.kind, e.headerLen) != Recognised(e.id) {
      return Some(WrongKind);
    }
    if e.headerLen.Some? && e.offset + e.headerLen.value - 1 > 0xFF {
      return Some(HeaderCrosses);
    }
    if e.next != NextOffset(es, index) {
      return Some(TraversalMismatch);
    }
    return None;
  }

  /** `validate_capability_entries`, after the lines are parsed. */
  method Validate(es: seq<Entry>) returns (r: Option<Refusal>)
    ensures r.None? <==> Accepted(es)
    ensures r.Some? ==> Refused(es, r.value)
  {
    hide Clear, OffsetsBefore, LocallyValid, NextOffset, EntryFault, Accepted;
    if |es| > MAX_ENTRIES {
      RefusalUnique(es, TooMany, TooMany);
      return Some(TooMany);
    }
    var offsets: set<u8> := {};
    NothingBefore(es);
    for index := 0 to |es|
      invariant Clear(es, index) && OffsetsBefore(es, index, offsets)
    {
      r := CheckEntry(es, index, offsets);
      if r.Some? {
        assert FirstFault(es, index, r.value);
        RefusalUnique(es, r.value, r.value);
        return;
      }
      ClearGrows(es, index, offsets);
      offsets := offsets + {es[index].offset};
    }
    AllClear(es);
    return None;
  }

  lemma NothingBefore(es: seq<Entry>)
    ensures Clear(es, 0) && OffsetsBefore(es, 0, {})
  {
  }

  lemma AllClear(es: seq<Entry>)
    requires |es| <= MAX_ENTRIES && Clear(es, |es|)
    ensures Accepted(es)
  {
  }

  // --------------------------------------------------------- the walk of a device

  /** Configuration space: what is found at an offset. */
  type Space = map<u8, Entry>

  ghost predicate WellFormed(space: Space) {
    forall o | o in space :: space[o].offset == o
  }

  /** Following the pointers from `p` to the null pointer, through at most `limit` entries. */
  function Walk(space: Space, p: u8, limit: nat): Option<seq<Entry>>
    decreases limit
  {
    if p == 0 then Some([])
    else if limit == 0 || p !in space then None
    else
      var rest :- Walk(space, space[p].next, limit - 1);
      Some([space[p]] + rest)
  }

  function FirstOffset(es: seq<Entry>): u8 {
    if es == [] then 0 else es[0].offset
  }

  ghost predicate Lists(space: Space, es: seq<Entry>) {
    forall i | 0 <= i < |es| :: es[i].offset in space && space[es[i].offset] == es[i]
  }

  lemma {:induction false} LinkedIsWalk(space: Space, es: seq<Entry>, limit: nat)
    requires Lists(space, es) && Linked(es) && |es| <= limit && forall i | 0 <= i < |es| :: es[i].offset != 0
    ensures Walk(space, FirstOffset(es), limit) == Some(es)
    decreases |es|
  {
    if es != [] {
      var rest := es[1..];
      assert Linked(rest) by {
        forall i | 0 <= i < |rest| ensures rest[i].next == NextOffset(rest, i) {
          assert es[i + 1].next == NextOffset(es, i + 1);
        }
      }
      assert Lists(space, rest) by {
        forall i | 0 <= i < |rest| ensures rest[i].offset in space && space[rest[i].offset] == rest[i] {
          assert rest[i] == es[i + 1];
        }
      }
      LinkedIsWalk(space, rest, limit - 1);
      assert es[0].next == NextOffset(es, 0) == FirstOffset(rest);
      assert es == [es[0]] + rest;
    }
  }

  lemma {:induction false} WalkIsLinked(space: Space, p: u8, limit: nat)
    requires WellFormed(space) && Walk(space, p, limit).Some?
    ensures var es := Walk(space, p, limit).value;
      FirstOffset(es) == p && Linked(es) && Lists(space, es) && |es| <= limit
    decreases limit
  {
    if p != 0 {
      WalkIsLinked(space, space[p].next, limit - 1);
      var es, rest := Walk(space, p, limit).value, Walk(space, space[p].next, limit - 1).value;
      assert es[1..] == rest;
      forall i | 0 <= i < |es|
        ensures es[i].next == NextOffset(es, i) && es[i].offset in space && space[es[i].offset] == es[i]
      {
        if i > 0 {
          assert es[i] == rest[i - 1] && rest[i - 1].next == NextOffset(rest, i - 1);
        }
      }
    }
  }

  lemma {:induction false} WalkLonger(space: Space, p: u8, limit: nat, more: nat)
    requires limit <= more && Walk(space, p, limit).Some?
    ensures Walk(space, p, more) == Walk(space, p, limit)
    decreases limit
  {
    if p != 0 {
      WalkLonger(space, space[p].next, limit - 1, more - 1);
    }
  }

  /** The rest of a walk is the walk from there. */
  lemma {:induction false} WalkSuffix(space: Space, p: u8, limit: nat, i: nat)
    requires WellFormed(space) && Walk(space, p, limit).Some? && i < |Walk(space, p, limit).value|
    ensures var es := Walk(space, p, limit).value;
      i <= limit && Walk(space, es[i].offset, limit - i) == Some(es[i..])
    decreases limit
  {
    var es := Walk(space, p, limit).value;
    if i == 0 {
      WalkIsLinked(space, p, limit);
      assert es[0..] == es;
    } else {
      var rest := Walk(space, space[p].next, limit - 1).value;
      WalkSuffix(space, space[p].next, limit - 1, i - 1);
      assert es[i..] == rest[i - 1..] && es[i] == rest[i - 1];
    }
  }

  /** A walk that ends cannot pass the same offset twice. */
  lemma EndingWalkIsSimple(space: Space, p: u8, limit: nat)
    requires WellFormed(space) && Walk(space, p, limit).Some?
    ensures DistinctOffsets(Walk(space, p, limit).value)
  {
    var es := Walk(space, p, limit).value;
    forall i, j | 0 <= i < j < |es| ensures es[i].offset != es[j].offset {
      if es[i].offset == es[j].offset {
        WalkSuffix(space, p, limit, i);
        WalkSuffix(space, p, limit, j);
        WalkLonger(space, es[j].offset, limit - j, limit - i);
      }
    }
  }

  /**
   For entries read from one configuration space, the checker accepts exactly the complete walk
   from the first offset, provided that each entry is valid by itself.
   */
  lemma AcceptedIffWalk(space: Space, es: seq<Entry>)
    requires WellFormed(space) && Lists(space, es)
    ensures Accepted(es) <==> AllLocallyValid(es) && Walk(space, FirstOffset(es), MAX_ENTRIES) == Some(es)
  {
    if Accepted(es) {
      LinkedIsWalk(space, es, MAX_ENTRIES);
    }
    if AllLocallyValid(es) && Walk(space, FirstOffset(es), MAX_ENTRIES) == Some(es) {
      WalkIsLinked(space, FirstOffset(es), MAX_ENTRIES);
      EndingWalkIsSimple(space, FirstOffset(es), MAX_ENTRIES);
    }
  }

  /** Every accepted list is the walk of the configuration space that holds just its entries. */
  lemma AcceptedHasSpace(es: seq<Entry>) returns (space: Space)
    requires Accepted(es)
    ensures WellFormed(space) && Lists(space, es) && Walk(space, FirstOffset(es), MAX_ENTRIES) == Some(es)
  {
    space := SpaceOf(es);
    LinkedIsWalk(space, es, MAX_ENTRIES);
  }

  lemma {:induction false} SpaceOf(es: seq<Entry>) returns (space: Space)
    requires DistinctOffsets(es)
    ensures WellFormed(space) && Lists(space, es)
    ensures forall o | o in space :: exists i | 0 <= i < |es| :: es[i].offset == o
  {
    if es == [] {
      space := map[];
    } else {
      var init, last := es[..|es| - 1], es[|es| - 1];
      var smaller := SpaceOf(init);
      assert last.offset !in smaller;
      space := smaller[last.offset := last];
      forall i | 0 <= i < |es| ensures es[i].offset in space && space[es[i].offset] == es[i] {
        if i < |init| {
          assert es[i] == init[i];
        }
      }
      forall o | o in space ensures exists i | 0 <= i < |es| :: es[i].offset == o {
        if o == last.offset {
          assert es[|es| - 1].offset == o;
        } else {
          var i :| 0 <= i < |init| && init[i].offset == o;
          assert es[i].offset == o;
        }
      }
    }
  }

  // ------------------------------------------------------------------ pigeonhole

  lemma {:induction false} BoundedSet(s: set<int>, lo: int, n: nat)
    requires forall x | x in s :: lo <= x < lo + n
    ensures |s| <= n
    decreases n
  {
    if n == 0 {
      var none: set<int> := {};
      assert forall x :: x in s <==> x in none;
      assert s == none;
    } else {
      var smaller := s - {lo + n - 1};
      BoundedSet(smaller, lo, n - 1);
      assert s <= smaller + {lo + n - 1};
      assert |s| <= |smaller| + 1;
    }
  }

  lemma {:induction false} SlotsOf(es: seq<Entry>) returns (slots: set<int>)
    requires DistinctOffsets(es) && forall i | 0 <= i < |es| :: ValidPointer(es[i].offset)
    ensures |slots| == |es| && forall x | x in slots :: 16 <= x < 64
    ensures forall x :: x in slots <==> exists i | 0 <= i < |es| :: es[i].offset == 4 * x
  {
    if es == [] {
      slots := {};
    } else {
      var init, last := es[..|es| - 1], es[|es| - 1];
      var smaller := SlotsOf(init);
      var slot := last.offset / 4;
      assert last.offset == 4 * slot;
      forall i | 0 <= i < |init| ensures init[i].offset != 4 * slot {
        assert es[i].offset != es[|es| - 1].offset;
      }
      assert slot !in smaller;
      slots := smaller + {slot};
      forall x ensures x in slots <==> exists i | 0 <= i < |es| :: es[i].offset == 4 * x {
        if x in smaller {
          var i :| 0 <= i < |init| && init[i].offset == 4 * x;
          assert es[i].offset == 4 * x;
        }
        if x == slot {
          assert es[|es| - 1].offset == 4 * x;
        }
        if exists i | 0 <= i < |es| :: es[i].offset == 4 * x {
          var i :| 0 <= i < |es| && es[i].offset == 4 * x;
          if i < |init| {
            assert init[i].offset == 4 * x;
          }
        }
      }
    }
  }

  /** The limit of 48 entries follows from the other checks: there are only 48 offsets. */
  lemma LimitIsImplied(es: seq<Entry>)
    requires DistinctOffsets(es) && forall i | 0 <= i < |es| :: ValidPointer(es[i].offset)
    ensures |es| <= MAX_ENTRIES
  {
    var slots := SlotsOf(es);
    BoundedSet(slots, 16, 48);
  }

  // --------------------------------------------------------------------- summary

  datatype Summary = Summary(pm: Option<u8>, pcie: Option<u8>, msi: Option<u8>, msix: Option<u8>) {
    function Of(kind: Kind): Option<u8> {
      match kind
      case PowerManagement => pm
      case PciExpress => pcie
      case Msi => msi
      case MsiX => msix
      case Unknown => None
    }

    function With(kind: Kind, offset: u8): Summary {
      match kind
      case PowerManagement => this.(pm := Some(offset))
      case PciExpress => this.(pcie := Some(offset))
      case Msi => this.(msi := Some(offset))
      case MsiX => this.(msix := Some(offset))
      case Unknown => this
    }
  }

  /** The offset of the first entry of a kind. */
  function FirstOf(es: seq<Entry>, kind: Kind): Option<u8> {
    if es == [] || kind.Unknown? then None
    else if es[0].kind == kind then Some(es[0].offset)
    else FirstOf(es[1..], kind)
  }

  lemma {:induction false} FirstOfSnoc(es: seq<Entry>, e: Entry, kind: Kind)
    ensures FirstOf(es + [e], kind) ==
      if FirstOf(es, kind).Some? then FirstOf(es, kind)
      else if e.kind == kind && !kind.Unknown? then Some(e.offset) else None
  {
    if es == [] {
      assert es + [e] == [e];
    } else {
      assert (es + [e])[1..] == es[1..] + [e];
      FirstOfSnoc(es[1..], e, kind);
    }
  }

  /** `assert_summary_matches_entries`: the loop keeps the first offset of each kind. */
  method SummaryMatches(summary: Summary, es: seq<Entry>) returns (ok: bool)
    ensures ok <==> forall kind :: summary.Of(kind) == FirstOf(es, kind)
  {
    var expected := Summary(None, None, None, None);
    for i := 0 to |es|
      invariant forall kind :: expected.Of(kind) == FirstOf(es[..i], kind)
    {
      ghost var before := expected;
      if expected.Of(es[i].kind).None? {
        expected := expected.With(es[i].kind, es[i].offset);
      }
      assert es[..i + 1] == es[..i] + [es[i]];
      forall kind ensures expected.Of(kind) == FirstOf(es[..i + 1], kind) {
        FirstOfSnoc(es[..i], es[i], kind);
        assert before.Of(kind) == FirstOf(es[..i], kind);
      }
    }
    assert es[..|es|] == es;
    SummaryEquality(summary, expected);
    ok := summary == expected;
  }

  lemma SummaryEquality(a: Summary, b: Summary)
    ensures a == b <==> forall kind :: a.Of(kind) == b.Of(kind)
  {
    if forall kind :: a.Of(kind) == b.Of(kind) {
      assert a.Of(PowerManagement) == b.Of(PowerManagement) && a.Of(PciExpress) == b.Of(PciExpress);
      assert a.Of(Msi) == b.Of(Msi) && a.Of(MsiX) == b.Of(MsiX);
    }
  }

  /** The duplicate check of `parse_summary`. */
  ghost predicate DistinctClaims(s: Summary) {
    forall k, l | k != l && s.Of(k).Some? && s.Of(l).Some? :: s.Of(k) != s.Of(l)
  }

  lemma {:induction false} FirstOfIsEntry(es: seq<Entry>, kind: Kind) returns (i: nat)
    requires FirstOf(es, kind).Some?
    ensures i < |es| && es[i].kind == kind && FirstOf(es, kind) == Some(es[i].offset)
  {
    if es[0].kind == kind {
      i := 0;
    } else {
      var j := FirstOfIsEntry(es[1..], kind);
      i := j + 1;
    }
  }

  /** A summary that matches accepted entries never trips the duplicate check. */
  lemma MatchingSummaryIsDistinct(summary: Summary, es: seq<Entry>)
    requires Accepted(es) && forall kind :: summary.Of(kind) == FirstOf(es, kind)
    ensures DistinctClaims(summary)
  {
    forall k, l | k != l && summary.Of(k).Some? && summary.Of(l).Some? ensures summary.Of(k) != summary.Of(l) {
      var i := FirstOfIsEntry(es, k);
      var j := FirstOfIsEntry(es, l);
      if i < j {
        assert es[i].offset != es[j].offset;
      } else {
        assert es[j].offset != es[i].offset;
      }
    }
  }
}
