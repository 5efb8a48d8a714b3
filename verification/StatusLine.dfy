/**
 The status line of the normal session: hexadecimal fields of fixed width behind a fixed
 prefix. Printing and the strict parser are exact inverses.
 */
module StatusLine {
  import opened Results

  const PREFIX := "PYTHOS:USER:NORMAL_SESSION:STATUS "
  const WIDTH := 640
  const HEIGHT := 480
  const COUNTER_LIMIT := 0x1_0000_0000_0000_0000

  datatype Status = Status(events: nat, commands: nat, revision: nat, active: bool, x: nat, y: nat) {
    /** What the viewport and the activation state allow. */
    predicate Consistent() {
      x < WIDTH && y < HEIGHT && (!active ==> x == 0 && y == 0)
    }

    predicate Printable() {
      Consistent() && events < COUNTER_LIMIT && commands < COUNTER_LIMIT && revision < COUNTER_LIMIT
    }
  }

  // -------------------------------------------------------------- hexadecimal

  function Pow16(n: nat): (p: nat)
    ensures p > 0
  {
    if n == 0 then 1 else 16 * Pow16(n - 1)
  }

  const DIGITS := "0123456789abcdef"

  function Digit(d: nat): char
    requires d < 16
  {
    DIGITS[d]
  }

  predicate IsDigit(c: char) {
    '0' <= c <= '9' || 'a' <= c <= 'f'
  }

  function Value(c: char): (d: nat)
    requires IsDigit(c)
    ensures d < 16
  {
    if c <= '9' then (c - '0') as int else 10 + (c - 'a') as int
  }

  lemma DigitValue(d: nat)
    requires d < 16
    ensures IsDigit(Digit(d)) && Value(Digit(d)) == d
  {
  }

  lemma ValueDigit(c: char)
    requires IsDigit(c)
    ensures Digit(Value(c)) == c
  {
  }

  /** Python's `{n:0wx}`: lower-case digits, at least w of them, zeros in front. */
  function FormatHex(n: nat, w: nat): (s: string)
    ensures |s| >= 1 && |s| >= w
    decreases n + w
  {
    if n < 16 && w <= 1 then [Digit(n)]
    else FormatHex(n / 16, if w > 0 then w - 1 else 0) + [Digit(n % 16)]
  }

  predicate AllDigits(s: string) {
    forall i | 0 <= i < |s| :: IsDigit(s[i])
  }

  /** `int(s, 16)` on digits. */
  function ParseHex(s: string): nat
    requires AllDigits(s)
  {
    if s == [] then 0 else 16 * ParseHex(s[..|s| - 1]) + Value(s[|s| - 1])
  }

  lemma {:induction false} FormatParses(n: nat, w: nat)
    ensures AllDigits(FormatHex(n, w)) && ParseHex(FormatHex(n, w)) == n
    decreases n + w
  {
    hide Digit, Value, IsDigit;
    DigitValue(n % 16);
    if n < 16 && w <= 1 {
      assert [Digit(n)][..0] == [];
    } else {
      var rest := FormatHex(n / 16, if w > 0 then w - 1 else 0);
      FormatParses(n / 16, if w > 0 then w - 1 else 0);
      var s := rest + [Digit(n % 16)];
      assert s[..|s| - 1] == rest;
    }
  }

  /** A field keeps its width exactly as long as the number fits it. */
  lemma {:induction false} FormatWidth(n: nat, w: nat)
    requires w >= 1
    ensures |FormatHex(n, w)| == w <==> n < Pow16(w)
    decreases n + w
  {
    if w == 1 {
      assert Pow16(1) == 16 * Pow16(0);
    } else {
      FormatWidth(n / 16, w - 1);
      assert Pow16(w) == 16 * Pow16(w - 1);
    }
  }

  lemma {:induction false} ParseFormats(s: string)
    requires AllDigits(s) && s != []
    ensures ParseHex(s) < Pow16(|s|) && FormatHex(ParseHex(s), |s|) == s
  {
    hide Digit, Value, IsDigit, FormatHex, Pow16;
    var init, last := s[..|s| - 1], s[|s| - 1];
    assert IsDigit(last);
    ValueDigit(last);
    assert s == init + [last];
    FormatStep(ParseHex(init), Value(last), |s|);
    if init != [] {
      ParseFormats(init);
    }
  }

  lemma FormatStep(high: nat, low: nat, w: nat)
    requires low < 16 && w >= 1 && (w == 1 ==> high == 0)
    ensures Pow16(w) == 16 * Pow16(w - 1) && Pow16(0) == 1
    ensures FormatHex(16 * high + low, w) == (if w == 1 then [] else FormatHex(high, w - 1)) + [Digit(low)]
  {
    hide Digit;
    SplitDigit(high, low);
  }

  lemma SplitDigit(high: nat, low: nat)
    requires low < 16
    ensures (16 * high + low) / 16 == high && (16 * high + low) % 16 == low
  {
  }

  // ------------------------------------------------------------------- printer

  function Flag(active: bool): char {
    if active then '1' else '0'
  }

  /** The line, as the f-string assembles it. */
  function Print(s: Status): string {
    PREFIX + "e" + FormatHex(s.events, 16) + "c" + FormatHex(s.commands, 16) + "r" + FormatHex(s.revision, 16)
      + "a" + [Flag(s.active)] + "x" + FormatHex(s.x, 3) + "y" + FormatHex(s.y, 3)
  }

  // -------------------------------------------------------------------- parser

  datatype ParseError = NotAStatusRecord | ContradictsViewport

  /** The six captured groups, by position: every field of the pattern has a fixed width. */
  datatype Groups = Groups(events: string, commands: string, revision: string, active: char, x: string, y: string) {
    predicate Match() {
      && |events| == |commands| == |revision| == 16 && |x| == |y| == 3
      && AllDigits(events) && AllDigits(commands) && AllDigits(revision) && AllDigits(x) && AllDigits(y)
      && (active == '0' || active == '1')
    }

    function Body(): string {
      "e" + events + "c" + commands + "r" + revision + "a" + [active] + "x" + x + "y" + y
    }
  }

  const BODY_LEN := 61

  /** The pieces of a body, whether or not they match the pattern. */
  function Capture(body: string): (g: Groups)
    requires |body| == BODY_LEN
  {
    Groups(body[1..17], body[18..34], body[35..51], body[52], body[54..57], body[58..61])
  }

  predicate HasLetters(body: string) {
    && |body| == BODY_LEN && body[0] == 'e' && body[17] == 'c' && body[34] == 'r' && body[51] == 'a'
    && body[53] == 'x' && body[57] == 'y'
  }

  /** `parse_status_line`. */
  function Parse(line: string): Result<Status, ParseError> {
    if |line| != |PREFIX| + BODY_LEN || line[..|PREFIX|] != PREFIX then Err(NotAStatusRecord)
    else
      var body := line[|PREFIX|..];
      if !HasLetters(body) || !Capture(body).Match() then Err(NotAStatusRecord)
      else
        var g := Capture(body);
        var s := Status(ParseHex(g.events), ParseHex(g.commands), ParseHex(g.revision), g.active == '1',
                        ParseHex(g.x), ParseHex(g.y));
        if !s.Consistent() then Err(ContradictsViewport) else Ok(s)
  }

  lemma CaptureBody(g: Groups)
    requires |g.events| == |g.commands| == |g.revision| == 16 && |g.x| == |g.y| == 3
    ensures HasLetters(g.Body()) && Capture(g.Body()) == g
  {
    var front := "e" + g.events + "c" + g.commands;
    var back := "r" + g.revision + "a" + [g.active] + "x" + g.x + "y" + g.y;
    var b := g.Body();
    assert b == front + back && |front| == 34;
    assert b[..34] == front && b[34..] == back;
    assert front[0] == 'e' && front[1..17] == g.events && front[17] == 'c' && front[18..34] == g.commands;
    assert back[0] == 'r' && back[1..17] == g.revision && back[17] == 'a' && back[18] == g.active;
    assert back[19] == 'x' && back[20..23] == g.x && back[23] == 'y' && back[24..27] == g.y;
    assert b[35..51] == back[1..17] && b[54..57] == back[20..23] && b[58..61] == back[24..27];
    assert b[1..17] == front[1..17] && b[18..34] == front[18..34];
  }

  lemma BodyCapture(body: string)
    requires HasLetters(body)
    ensures Capture(body).Body() == body
  {
    var g := Capture(body);
    assert body == body[0..1] + body[1..17] + body[17..18] + body[18..34] + body[34..35] + body[35..51]
                 + body[51..52] + body[52..53] + body[53..54] + body[54..57] + body[57..58] + body[58..61];
    assert body[0..1] == "e" && body[17..18] == "c" && body[34..35] == "r" && body[51..52] == "a";
    assert body[52..53] == [g.active] && body[53..54] == "x" && body[57..58] == "y";
  }

  function GroupsOf(s: Status): Groups {
    Groups(FormatHex(s.events, 16), FormatHex(s.commands, 16), FormatHex(s.revision, 16), Flag(s.active),
           FormatHex(s.x, 3), FormatHex(s.y, 3))
  }

  lemma PrintedBody(s: Status)
    ensures Print(s) == PREFIX + GroupsOf(s).Body()
  {
    hide FormatHex;
    assert Print(s) == PREFIX + GroupsOf(s).Body();
  }

  lemma {:induction false} Pow16Splits(j: nat, k: nat)
    ensures Pow16(j + k) == Pow16(j) * Pow16(k)
  {
    if j > 0 {
      Pow16Splits(j - 1, k);
    }
  }

  lemma Pow16Values()
    ensures Pow16(3) == 4096 && Pow16(16) == COUNTER_LIMIT
  {
    assert Pow16(1) == 16 * Pow16(0) && Pow16(2) == 16 * Pow16(1);
    Pow16Splits(2, 2);
    Pow16Splits(4, 4);
    Pow16Splits(8, 8);
  }

  /** A consistent status is read back from its line exactly if its three counters fit 64 bits. */
  lemma PrintParsesIff(s: Status)
    requires s.Consistent()
    ensures Parse(Print(s)) == Ok(s) <==> s.Printable()
    ensures Parse(Print(s)).Ok? ==> s.Printable()
  {
    hide FormatHex, ParseHex, AllDigits, Capture, HasLetters, Groups.Body, Pow16;
    var g := GroupsOf(s);
    PrintedBody(s);
    FormatParses(s.events, 16);
    FormatParses(s.commands, 16);
    FormatParses(s.revision, 16);
    FormatParses(s.x, 3);
    FormatParses(s.y, 3);
    FormatWidth(s.events, 16);
    FormatWidth(s.commands, 16);
    FormatWidth(s.revision, 16);
    FormatWidth(s.x, 3);
    FormatWidth(s.y, 3);
    Pow16Values();
    var line := Print(s);
    assert line[..|PREFIX|] == PREFIX && line[|PREFIX|..] == g.Body();
    BodyLength(g);
    if s.Printable() {
      CaptureBody(g);
    }
  }

  /** A counter that has left its sixteen digits makes the line unreadable. */
  lemma WideCounterUnreadable()
    ensures Parse(Print(Status(COUNTER_LIMIT, 0, 0, false, 0, 0))).Err?
  {
    PrintParsesIff(Status(COUNTER_LIMIT, 0, 0, false, 0, 0));
  }

  lemma BodyLength(g: Groups)
    ensures |g.Body()| == 7 + |g.events| + |g.commands| + |g.revision| + |g.x| + |g.y|
  {
  }

  /** Nothing but printed lines is accepted. */
  lemma AcceptedIsPrinted(line: string)
    requires Parse(line).Ok?
    ensures Parse(line).value.Printable() && Print(Parse(line).value) == line
  {
    hide FormatHex, ParseHex, AllDigits, Capture, HasLetters, Groups.Body, Pow16;
    var body, s := line[|PREFIX|..], Parse(line).value;
    var g := Capture(body);
    Pow16Values();
    ParseFormats(g.events);
    ParseFormats(g.commands);
    ParseFormats(g.revision);
    ParseFormats(g.x);
    ParseFormats(g.y);
    assert GroupsOf(s) == g;
    BodyCapture(body);
    PrintedBody(s);
    assert line == line[..|PREFIX|] + body;
  }
}
