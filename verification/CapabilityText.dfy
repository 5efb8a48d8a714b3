/**
 The serial lines of the capability probe. The kernel prints them, the script matches them
 with strict patterns; the patterns accept exactly what can be printed, and read it back.
 */
module CapabilityText {
  import opened Results
  import opened Capabilities

  const PREFIX := "PYTHOS:CORE:NETWORK_HARDWARE_CAPABILITY_PROBE:"
  const ENTRY_START := PREFIX + "PCI_CAPABILITY_ENTRY=ID="
  const SUMMARY_START := PREFIX + "PCI_CAPABILITY_SUMMARY=PM="

  // -------------------------------------------------------------------- printer

  function Digit(n: nat): char
    requires n < 16
  {
    if n < 10 then '0' + n as char else 'A' + (n - 10) as char
  }

  /** `write_hex_byte`. */
  function PrintByte(v: u8): string {
    ['0', 'x', Digit(v / 16), Digit(v % 16)]
  }

  /** `write_optional_offset`. */
  function PrintOptional(v: Option<u8>): string {
    match v
    case None => "NONE"
    case Some(b) => PrintByte(b)
  }

  /** `kind_label`. */
  function Label(kind: Kind): string {
    match kind
    case PowerManagement => "POWER_MANAGEMENT"
    case PciExpress => "PCIE"
    case Msi => "MSI"
    case MsiX => "MSIX"
    case Unknown => "UNKNOWN"
  }

  /** One turn of `emit_entries`. */
  function PrintEntry(e: Entry): string {
    ENTRY_START + (PrintByte(e.id) + (";OFFSET=" + (PrintByte(e.offset) + (";NEXT=" + (PrintByte(e.next) +
      (";KIND=" + (Label(e.kind) + (";HEADER_LEN=" + PrintOptional(e.headerLen)))))))))
  }

  /** `emit_summary`. */
  function PrintSummary(s: Summary): string {
    SUMMARY_START + (PrintOptional(s.pm) + (";PCIE=" + (PrintOptional(s.pcie) + (";MSI=" + (PrintOptional(s.msi) +
      (";MSIX=" + PrintOptional(s.msix)))))))
  }

  // ------------------------------------------------------------------- scanners

  predicate IsDigit(c: char) {
    '0' <= c <= '9' || 'A' <= c <= 'F'
  }

  function DigitValue(c: char): (v: nat)
    requires IsDigit(c)
    ensures v < 16
  {
    if c <= '9' then c as int - '0' as int else c as int - 'A' as int + 10
  }

  /** What follows a literal. */
  function Expect(s: string, literal: string): Option<string> {
    if literal <= s then Some(s[|literal|..]) else None
  }

  function TakeByte(s: string): Option<(u8, string)> {
    if |s| >= 4 && s[0] == '0' && s[1] == 'x' && IsDigit(s[2]) && IsDigit(s[3])
    then Some((16 * DigitValue(s[2]) + DigitValue(s[3]), s[4..])) else None
  }

  function TakeOptional(s: string): Option<(Option<u8>, string)> {
    if "NONE" <= s then Some((None, s[4..]))
    else
      var (v, rest) :- TakeByte(s);
      Some((Some(v), rest))
  }

  /** An alternative of the pattern holds only if the rest of the pattern can follow it. */
  predicate Labelled(s: string, kind: Kind) {
    Label(kind) <= s && ";" <= s[|Label(kind)|..]
  }

  function TakeKind(s: string): Option<(Kind, string)> {
    if Labelled(s, PowerManagement) then Some((PowerManagement, s[|Label(PowerManagement)|..]))
    else if Labelled(s, PciExpress) then Some((PciExpress, s[|Label(PciExpress)|..]))
    else if Labelled(s, Msi) then Some((Msi, s[|Label(Msi)|..]))
    else if Labelled(s, MsiX) then Some((MsiX, s[|Label(MsiX)|..]))
    else if Labelled(s, Unknown) then Some((Unknown, s[|Label(Unknown)|..]))
    else None
  }

  lemma ExpectPrinted(literal: string, rest: string)
    ensures Expect(literal + rest, literal) == Some(rest)
  {
    assert (literal + rest)[..|literal|] == literal && (literal + rest)[|literal|..] == rest;
  }

  lemma ExpectedPrints(s: string, literal: string)
    requires Expect(s, literal).Some?
    ensures s == literal + Expect(s, literal).value
  {
    assert s[..|literal|] == literal;
  }

  lemma BytePrinted(v: u8, rest: string)
    ensures TakeByte(PrintByte(v) + rest) == Some((v, rest))
  {
    assert (PrintByte(v) + rest)[4..] == rest;
  }

  lemma BytePrints(s: string)
    requires TakeByte(s).Some?
    ensures s == PrintByte(TakeByte(s).value.0) + TakeByte(s).value.1
  {
    var v := TakeByte(s).value.0;
    assert v / 16 == DigitValue(s[2]) && v % 16 == DigitValue(s[3]);
    assert s == [s[0], s[1], s[2], s[3]] + s[4..];
  }

  lemma OptionalPrinted(v: Option<u8>, rest: string)
    ensures TakeOptional(PrintOptional(v) + rest) == Some((v, rest))
  {
    hide TakeByte, Digit;
    var s := PrintOptional(v) + rest;
    match v {
      case None => assert s[..4] == "NONE" && s[4..] == rest;
      case Some(b) =>
        BytePrinted(b, rest);
        assert s[0] == '0' && "NONE"[0] == 'N';
    }
  }

  lemma OptionalPrints(s: string)
    requires TakeOptional(s).Some?
    ensures s == PrintOptional(TakeOptional(s).value.0) + TakeOptional(s).value.1
  {
    hide TakeByte, PrintByte;
    if "NONE" <= s {
      assert s == s[..4] + s[4..];
    } else {
      BytePrints(s);
    }
  }

  lemma LabelUnique(s: string, k: Kind, l: Kind)
    requires Labelled(s, k) && Labelled(s, l)
    ensures k == l
  {
    var a, b := Label(k), Label(l);
    assert forall i | 0 <= i < |a| :: s[i] == a[i];
    assert forall i | 0 <= i < |b| :: s[i] == b[i];
    assert s[|a|] == s[|a|..][0] == ';' && s[|b|] == s[|b|..][0] == ';';
    assert "POWER_MANAGEMENT"[1] == 'O' && "PCIE"[1] == 'C' && "MSIX"[3] == 'X';
  }

  lemma KindPrinted(kind: Kind, rest: string)
    requires ";" <= rest
    ensures TakeKind(Label(kind) + rest) == Some((kind, rest))
  {
    hide Label;
    var s := Label(kind) + rest;
    assert s[..|Label(kind)|] == Label(kind) && s[|Label(kind)|..] == rest;
    assert Labelled(s, kind);
    forall l | Labelled(s, l) ensures l == kind {
      LabelUnique(s, kind, l);
    }
  }

  lemma KindPrints(s: string)
    requires TakeKind(s).Some?
    ensures s == Label(TakeKind(s).value.0) + TakeKind(s).value.1
  {
    hide Label;
    var kind := TakeKind(s).value.0;
    assert Labelled(s, kind) && TakeKind(s).value.1 == s[|Label(kind)|..];
    assert s[..|Label(kind)|] == Label(kind);
  }

  // -------------------------------------------------------------------- parsers

  /** The five fields behind the start of an entry line. */
  function ParseFields(s: string): Option<Entry> {
    var (id, s1) :- TakeByte(s);
    var s2 :- Expect(s1, ";OFFSET=");
    var (offset, s3) :- TakeByte(s2);
    var s4 :- Expect(s3, ";NEXT=");
    var (next, s5) :- TakeByte(s4);
    var s6 :- Expect(s5, ";KIND=");
    var (kind, s7) :- TakeKind(s6);
    var s8 :- Expect(s7, ";HEADER_LEN=");
    var (headerLen, s9) :- TakeOptional(s8);
    if s9 == "" then Some(Entry(id, offset, next, kind, headerLen)) else None
  }

  /** `parse_entry`: the whole line must match. */
  function ParseEntry(line: string): Option<Entry> {
    var s :- Expect(line, ENTRY_START);
    ParseFields(s)
  }

  function ParseClaims(s: string): Option<Summary> {
    var (pm, s1) :- TakeOptional(s);
    var s2 :- Expect(s1, ";PCIE=");
    var (pcie, s3) :- TakeOptional(s2);
    var s4 :- Expect(s3, ";MSI=");
    var (msi, s5) :- TakeOptional(s4);
    var s6 :- Expect(s5, ";MSIX=");
    var (msix, s7) :- TakeOptional(s6);
    if s7 == "" then Some(Summary(pm, pcie, msi, msix)) else None
  }

  /** The pattern of `parse_summary`. */
  function ParseSummary(line: string): Option<Summary> {
    var s :- Expect(line, SUMMARY_START);
    ParseClaims(s)
  }

  lemma EntryPrinted(e: Entry)
    ensures ParseEntry(PrintEntry(e)) == Some(e)
  {
    hide Expect, TakeByte, TakeKind, TakeOptional, PrintByte, PrintOptional, Label;
    var t8 := PrintOptional(e.headerLen);
    var t7 := ";HEADER_LEN=" + t8;
    var t6 := Label(e.kind) + t7;
    var t5 := ";KIND=" + t6;
    var t4 := PrintByte(e.next) + t5;
    var t3 := ";NEXT=" + t4;
    var t2 := PrintByte(e.offset) + t3;
    var t1 := ";OFFSET=" + t2;
    ExpectPrinted(ENTRY_START, PrintByte(e.id) + t1);
    BytePrinted(e.id, t1);
    ExpectPrinted(";OFFSET=", t2);
    BytePrinted(e.offset, t3);
    ExpectPrinted(";NEXT=", t4);
    BytePrinted(e.next, t5);
    ExpectPrinted(";KIND=", t6);
    assert t7[..1] == ";";
    KindPrinted(e.kind, t7);
    ExpectPrinted(";HEADER_LEN=", t8);
    assert t8 + "" == t8;
    OptionalPrinted(e.headerLen, "");
  }

  lemma EntryPrints(line: string)
    requires ParseEntry(line).Some?
    ensures PrintEntry(ParseEntry(line).value) == line
  {
    hide Expect, TakeByte, TakeKind, TakeOptional, PrintByte, PrintOptional, Label;
    ExpectedPrints(line, ENTRY_START);
    var s := Expect(line, ENTRY_START).value;
    BytePrints(s);
    var s1 := TakeByte(s).value.1;
    ExpectedPrints(s1, ";OFFSET=");
    var s2 := Expect(s1, ";OFFSET=").value;
    BytePrints(s2);
    var s3 := TakeByte(s2).value.1;
    ExpectedPrints(s3, ";NEXT=");
    var s4 := Expect(s3, ";NEXT=").value;
    BytePrints(s4);
    var s5 := TakeByte(s4).value.1;
    ExpectedPrints(s5, ";KIND=");
    var s6 := Expect(s5, ";KIND=").value;
    KindPrints(s6);
    var s7 := TakeKind(s6).value.1;
    ExpectedPrints(s7, ";HEADER_LEN=");
    var s8 := Expect(s7, ";HEADER_LEN=").value;
    OptionalPrints(s8);
    assert PrintOptional(TakeOptional(s8).value.0) + "" == PrintOptional(TakeOptional(s8).value.0);
  }

  /** An entry line is read as an entry exactly if it is how the kernel prints that entry. */
  lemma EntryLineIff(line: string, e: Entry)
    ensures ParseEntry(line) == Some(e) <==> line == PrintEntry(e)
  {
    hide ParseEntry, PrintEntry;
    EntryPrinted(e);
    if ParseEntry(line).Some? {
      EntryPrints(line);
    }
  }

  lemma SummaryPrinted(s: Summary)
    ensures ParseSummary(PrintSummary(s)) == Some(s)
  {
    hide Expect, TakeOptional, PrintOptional;
    var t6 := PrintOptional(s.msix);
    var t5 := ";MSIX=" + t6;
    var t4 := PrintOptional(s.msi) + t5;
    var t3 := ";MSI=" + t4;
    var t2 := PrintOptional(s.pcie) + t3;
    var t1 := ";PCIE=" + t2;
    ExpectPrinted(SUMMARY_START, PrintOptional(s.pm) + t1);
    OptionalPrinted(s.pm, t1);
    ExpectPrinted(";PCIE=", t2);
    OptionalPrinted(s.pcie, t3);
    ExpectPrinted(";MSI=", t4);
    OptionalPrinted(s.msi, t5);
    ExpectPrinted(";MSIX=", t6);
    assert t6 + "" == t6;
    OptionalPrinted(s.msix, "");
  }

  lemma SummaryPrints(line: string)
    requires ParseSummary(line).Some?
    ensures PrintSummary(ParseSummary(line).value) == line
  {
    hide Expect, TakeOptional, PrintOptional;
    ExpectedPrints(line, SUMMARY_START);
    var s := Expect(line, SUMMARY_START).value;
    OptionalPrints(s);
    var s1 := TakeOptional(s).value.1;
    ExpectedPrints(s1, ";PCIE=");
    var s2 := Expect(s1, ";PCIE=").value;
    OptionalPrints(s2);
    var s3 := TakeOptional(s2).value.1;
    ExpectedPrints(s3, ";MSI=");
    var s4 := Expect(s3, ";MSI=").value;
    OptionalPrints(s4);
    var s5 := TakeOptional(s4).value.1;
    ExpectedPrints(s5, ";MSIX=");
    var s6 := Expect(s5, ";MSIX=").value;
    OptionalPrints(s6);
    assert PrintOptional(TakeOptional(s6).value.0) + "" == PrintOptional(TakeOptional(s6).value.0);
  }

  /** The same for the summary line. */
  lemma SummaryLineIff(line: string, s: Summary)
    ensures ParseSummary(line) == Some(s) <==> line == PrintSummary(s)
  {
    hide ParseSummary, PrintSummary;
    SummaryPrinted(s);
    if ParseSummary(line).Some? {
      SummaryPrints(line);
    }
  }
}
