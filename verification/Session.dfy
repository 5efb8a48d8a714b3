/**
 The oracle of the normal session: it counts input events, recognises the activation sequence
 through a sliding window of four keys, moves a clamped cursor and prints status lines.
 */
module Session {
  import opened StatusLine
  import opened Results

  const ACTIVATION := ["spc", "spc", "backspace", "backspace"]
  const START_X := 0x140
  const START_Y := 0x0F0

  datatype Event = Key(key: string) | Motion(dx: int, dy: int) | Idle | AskStatus

  datatype State = State(events: nat, commands: nat, revision: nat, window: seq<string>, active: bool, x: nat, y: nat) {
    function Shown(): Status {
      Status(events, commands, revision, active, x, y)
    }
  }

  const INITIAL := State(0, 0, 0, [], false, 0, 0)

  /** The last n elements, or all of a shorter list. */
  function Last<T>(s: seq<T>, n: nat): seq<T> {
    if |s| <= n then s else s[|s| - n..]
  }

  function Clamp(v: int, max: nat): (r: nat)
    ensures r <= max
    ensures 0 <= v <= max ==> r == v
  {
    if v < 0 then 0 else if v > max then max else v
  }

  function PressKey(s: State, key: string): State {
    var counted := s.(events := s.events + 1, revision := s.revision + 1);
    if s.active then counted
    else
      var window := Last(s.window + [key], 4);
      if window == ACTIVATION then counted.(window := window, active := true, x := START_X, y := START_Y)
      else counted.(window := window)
  }

  function Move(s: State, dx: int, dy: int): State {
    var counted := s.(events := s.events + 1, revision := s.revision + 1);
    if s.active then counted.(x := Clamp(s.x + dx, WIDTH - 1), y := Clamp(s.y + dy, HEIGHT - 1)) else counted
  }

  function Step(s: State, e: Event): State {
    match e
    case Key(key) => PressKey(s, key)
    case Motion(dx, dy) => Move(s, dx, dy)
    case Idle => s
    case AskStatus => s.(commands := s.commands + 1)
  }

  function Run(s: State, es: seq<Event>): State {
    if es == [] then s else Step(Run(s, es[..|es| - 1]), es[|es| - 1])
  }

  /** `StatusOracle`. */
  class StatusOracle {
    var eventCount: nat
    var commandCount: nat
    var revision: nat
    var activation: seq<string>
    var active: bool
    var x: nat
    var y: nat

    ghost function View(): State
      reads this
    {
      State(eventCount, commandCount, revision, activation, active, x, y)
    }

    constructor ()
      ensures View() == INITIAL
    {
      eventCount, commandCount, revision := 0, 0, 0;
      activation, active := [], false;
      x, y := 0, 0;
    }

    /** The body of the loop of `accept_keys`. */
    method AcceptKey(key: string)
      modifies this
      ensures View() == PressKey(old(View()), key)
    {
      eventCount := eventCount + 1;
      revision := revision + 1;
      if !active {
        activation := activation + [key];
        activation := Last(activation, 4);
        if activation == ACTIVATION {
          active := true;
          x, y := START_X, START_Y;
        }
      }
    }

    method AcceptKeys(keys: seq<string>)
      modifies this
      ensures View() == Run(old(View()), KeyEvents(keys))
    {
      hide View, PressKey;
      KeyEventsSnoc([], "");
      for i := 0 to |keys|
        invariant View() == Run(old(View()), KeyEvents(keys[..i]))
      {
        KeyEventsSnoc(keys[..i], keys[i]);
        assert keys[..i + 1] == keys[..i] + [keys[i]];
        RunSnoc(old(View()), KeyEvents(keys[..i]), Key(keys[i]));
        AcceptKey(keys[i]);
      }
      assert keys[..|keys|] == keys;
    }

    method AcceptMotion(dx: int, dy: int)
      modifies this
      ensures View() == Step(old(View()), Motion(dx, dy))
    {
      eventCount := eventCount + 1;
      revision := revision + 1;
      if active {
        x := Clamp(x + dx, WIDTH - 1);
        y := Clamp(y + dy, HEIGHT - 1);
      }
    }

    method NextStatusLine() returns (line: string)
      modifies this
      ensures View() == Step(old(View()), AskStatus)
      ensures line == Print(View().Shown())
    {
      commandCount := commandCount + 1;
      line := PREFIX + "e" + FormatHex(eventCount, 16) + "c" + FormatHex(commandCount, 16)
        + "r" + FormatHex(revision, 16)
        + "a" + [Flag(active)] + "x" + FormatHex(x, 3) + "y" + FormatHex(y, 3);
    }
  }

  function KeyEvents(keys: seq<string>): (es: seq<Event>)
    ensures |es| == |keys|
  {
    seq(|keys|, i requires 0 <= i < |keys| => Key(keys[i]))
  }

  lemma KeyEventsSnoc(keys: seq<string>, key: string)
    ensures KeyEvents(keys + [key]) == KeyEvents(keys) + [Key(key)]
    ensures KeyEvents([]) == []
  {
  }

  lemma RunSnoc(s: State, es: seq<Event>, e: Event)
    ensures Run(s, es + [e]) == Step(Run(s, es), e)
  {
    assert (es + [e])[..|es|] == es;
  }

  lemma {:induction false} RunAppend(s: State, es: seq<Event>, fs: seq<Event>)
    ensures Run(s, es + fs) == Run(Run(s, es), fs)
  {
    if fs == [] {
      assert es + fs == es;
    } else {
      assert (es + fs)[..|es + fs| - 1] == es + fs[..|fs| - 1];
      RunAppend(s, es, fs[..|fs| - 1]);
    }
  }

  // -------------------------------------------------------------- what a run keeps

  function Inputs(es: seq<Event>): nat {
    if es == [] then 0
    else Inputs(es[..|es| - 1]) + (if es[|es| - 1].Key? || es[|es| - 1].Motion? then 1 else 0)
  }

  function Asked(es: seq<Event>): nat {
    if es == [] then 0 else Asked(es[..|es| - 1]) + (if es[|es| - 1].AskStatus? then 1 else 0)
  }

  /** In every reachable state the counters count, and an inactive cursor is at the origin. */
  lemma {:induction false} ReachableInvariant(es: seq<Event>)
    ensures var s := Run(INITIAL, es);
      s.Shown().Consistent() && s.events == s.revision == Inputs(es) && s.commands == Asked(es)
  {
    if es != [] {
      ReachableInvariant(es[..|es| - 1]);
    }
  }

  /** The status line of a reachable state is accepted and exact as long as its counters fit. */
  lemma StatusLineReadable(es: seq<Event>)
    ensures var s := Run(INITIAL, es);
      Parse(Print(s.Shown())) == Ok(s.Shown()) <==> s.events < COUNTER_LIMIT && s.commands < COUNTER_LIMIT
  {
    hide Print, Parse;
    ReachableInvariant(es);
    PrintParsesIff(Run(INITIAL, es).Shown());
  }

  // ------------------------------------------------------------------- activation

  /** The keys of a run, motions and everything else left out. */
  function Keys(es: seq<Event>): seq<string> {
    if es == [] then []
    else Keys(es[..|es| - 1]) + (if es[|es| - 1].Key? then [es[|es| - 1].key] else [])
  }

  ghost predicate OccursAt(p: seq<string>, s: seq<string>, i: nat) {
    i + |p| <= |s| && s[i..i + |p|] == p
  }

  ghost predicate Occurs(p: seq<string>, s: seq<string>) {
    exists i: nat :: OccursAt(p, s, i)
  }

  lemma OccursLater(p: seq<string>, s: seq<string>, k: string)
    requires Occurs(p, s)
    ensures Occurs(p, s + [k])
  {
    var i: nat :| OccursAt(p, s, i);
    assert (s + [k])[i..i + |p|] == s[i..i + |p|];
    assert OccursAt(p, s + [k], i);
  }

  lemma OccursInFront(p: seq<string>, s: seq<string>, k: string, i: nat)
    requires OccursAt(p, s + [k], i)
    ensures i + |p| <= |s| ==> OccursAt(p, s, i)
  {
    if i + |p| <= |s| {
      assert s[i..i + |p|] == (s + [k])[i..i + |p|];
    }
  }

  /** A first occurrence is at the end. */
  lemma OccursNow(p: seq<string>, s: seq<string>, k: string)
    requires !Occurs(p, s) && |p| > 0
    ensures Occurs(p, s + [k]) <==> Last(s + [k], |p|) == p
  {
    var t := s + [k];
    if Occurs(p, t) {
      var i: nat :| OccursAt(p, t, i);
      OccursInFront(p, s, k, i);
      assert t[|t| - |p|..] == t[i..i + |p|];
    }
    if Last(t, |p|) == p {
      assert t[|t| - |p|..] == t[|t| - |p|..|t| - |p| + |p|];
      assert OccursAt(p, t, |t| - |p|);
    }
  }

  lemma LastOfLast(s: seq<string>, k: string, n: nat)
    requires n > 0
    ensures Last(Last(s, n) + [k], n) == Last(s + [k], n)
  {
  }

  lemma {:induction false} WindowInvariant(es: seq<Event>)
    ensures var s := Run(INITIAL, es);
      && (s.active <==> Occurs(ACTIVATION, Keys(es)))
      && (!s.active ==> s.window == Last(Keys(es), 4))
  {
    if es == [] {
      assert !Occurs(ACTIVATION, []);
    } else {
      var init, e := es[..|es| - 1], es[|es| - 1];
      WindowInvariant(init);
      var before := Run(INITIAL, init);
      if e.Key? {
        if before.active {
          OccursLater(ACTIVATION, Keys(init), e.key);
        } else {
          OccursNow(ACTIVATION, Keys(init), e.key);
          LastOfLast(Keys(init), e.key, 4);
        }
      } else {
        assert Keys(es) == Keys(init) + [] == Keys(init);
      }
    }
  }

  /** A run is active exactly if the four keys were pressed one after the other, whatever moved between. */
  lemma ActiveIff(es: seq<Event>)
    ensures Run(INITIAL, es).active <==> Occurs(ACTIVATION, Keys(es))
  {
    WindowInvariant(es);
  }

  lemma {:induction false} ActiveForever(s: State, es: seq<Event>)
    requires s.active
    ensures Run(s, es).active && Run(s, es).window == s.window
  {
    if es != [] {
      ActiveForever(s, es[..|es| - 1]);
    }
  }

  // ----------------------------------------------------------------------- cursor

  /** The motions of a run as one clamped walk. */
  function Walk(x: nat, y: nat, es: seq<Event>): (nat, nat) {
    if es == [] then (x, y)
    else
      var (a, b) := Walk(x, y, es[..|es| - 1]);
      match es[|es| - 1]
      case Motion(dx, dy) => (Clamp(a + dx, WIDTH - 1), Clamp(b + dy, HEIGHT - 1))
      case _ => (a, b)
  }

  lemma {:induction false} CursorWalks(s: State, es: seq<Event>)
    requires s.active
    ensures (Run(s, es).x, Run(s, es).y) == Walk(s.x, s.y, es)
  {
    if es != [] {
      ActiveForever(s, es[..|es| - 1]);
      CursorWalks(s, es[..|es| - 1]);
    }
  }

  /** From the key that activates on, the cursor is the walk of the later motions from the centre. */
  lemma CursorAfterActivation(es: seq<Event>, key: string, later: seq<Event>)
    requires !Run(INITIAL, es).active && Run(INITIAL, es + [Key(key)]).active
    ensures var s := Run(INITIAL, es + [Key(key)] + later);
      s.active && (s.x, s.y) == Walk(START_X, START_Y, later)
  {
    var now := Run(INITIAL, es + [Key(key)]);
    RunSnoc(INITIAL, es, Key(key));
    RunAppend(INITIAL, es + [Key(key)], later);
    ActiveForever(now, later);
    CursorWalks(now, later);
  }

  /** Every active run has such a key. */
  lemma {:induction false} ActivationMoment(es: seq<Event>) returns (before: seq<Event>, key: string, later: seq<Event>)
    requires Run(INITIAL, es).active
    ensures es == before + [Key(key)] + later
    ensures !Run(INITIAL, before).active && Run(INITIAL, before + [Key(key)]).active
  {
    hide PressKey, Move;
    StartsInactive();
    var init, e := es[..|es| - 1], es[|es| - 1];
    assert es == init + [e];
    RunSnoc(INITIAL, init, e);
    hide Run, Step;
    if Run(INITIAL, init).active {
      var rest;
      before, key, rest := ActivationMoment(init);
      later := rest + [e];
      assert before + [Key(key)] + rest + [e] == before + [Key(key)] + later;
    } else {
      OnlyKeysActivate(Run(INITIAL, init), e);
      before, key, later := init, e.key, [];
      assert before + [Key(key)] + [] == before + [Key(key)];
    }
  }

  lemma StartsInactive()
    ensures !Run(INITIAL, []).active
  {
  }

  lemma OnlyKeysActivate(s: State, e: Event)
    requires !s.active && Step(s, e).active
    ensures e.Key?
  {
  }
}
