/** The acceptance timeline, and the two order checks of the acceptance scripts. */
module Timeline {
  type Event = (string, string)

  // -------------------------------------------------------- counting and finding

  function Count<T(==)>(s: seq<T>, x: T): nat {
    if s == [] then 0 else (if s[0] == x then 1 else 0) + Count(s[1..], x)
  }

  /** The first index, or the length. */
  function Index<T(==)>(s: seq<T>, x: T): (i: nat)
    ensures i <= |s| && (i < |s| ==> s[i] == x) && x !in s[..i]
    ensures x in s <==> i < |s|
  {
    if s == [] || s[0] == x then 0 else 1 + Index(s[1..], x)
  }

  lemma {:induction false} CountPositive<T>(s: seq<T>, x: T)
    ensures Count(s, x) > 0 <==> x in s
  {
    if s != [] {
      CountPositive(s[1..], x);
    }
  }

  /** The elements that are among those to keep. */
  function Project<T(==)>(s: seq<T>, keep: set<T>): seq<T> {
    if s == [] then []
    else (if s[0] in keep then [s[0]] else []) + Project(s[1..], keep)
  }

  ghost function Elements<T>(s: seq<T>): set<T> {
    set x | x in s
  }

  ghost predicate Distinct<T>(s: seq<T>) {
    forall i, j | 0 <= i < j < |s| :: s[i] != s[j]
  }

  /** The k-th required element comes before the next one. */
  ghost predicate Precedes<T>(s: seq<T>, required: seq<T>, k: nat)
    requires k + 1 < |required|
  {
    Index(s, required[k]) < Index(s, required[k + 1])
  }

  /** Each required element occurs once, and each before the next. */
  ghost predicate InOrder<T>(s: seq<T>, required: seq<T>) {
    && (forall k | 0 <= k < |required| :: Count(s, required[k]) == 1)
    && (forall k | 0 <= k < |required| - 1 :: Precedes(s, required, k))
  }

  // ------------------------------------------------------- order and projection

  lemma SkipOther<T>(s: seq<T>, required: seq<T>)
    requires s != [] && s[0] !in required
    ensures InOrder(s, required) <==> InOrder(s[1..], required)
  {
    OneShorter(s, required);
    forall k | 0 <= k < |required| - 1 ensures Precedes(s, required, k) <==> Precedes(s[1..], required, k) {
    }
  }

  lemma {:induction false} InOrderIncreasing<T>(s: seq<T>, required: seq<T>, i: nat, j: nat)
    requires InOrder(s, required) && i < j < |required|
    ensures Index(s, required[i]) < Index(s, required[j])
    decreases j - i
  {
    if i + 1 < j {
      InOrderIncreasing(s, required, i, j - 1);
    }
    assert Precedes(s, required, j - 1);
  }

  lemma InOrderDistinct<T>(s: seq<T>, required: seq<T>)
    requires InOrder(s, required)
    ensures Distinct(required)
  {
    forall i, j | 0 <= i < j < |required| ensures required[i] != required[j] {
      InOrderIncreasing(s, required, i, j);
    }
  }

  /** The first of the observed elements must be the first required one. */
  lemma TakeFirst<T>(s: seq<T>, required: seq<T>)
    requires s != [] && s[0] in required
    ensures InOrder(s, required) <==>
      && required[0] == s[0] && s[0] !in s[1..] && s[0] !in required[1..] && InOrder(s[1..], required[1..])
  {
    if InOrder(s, required) {
      FirstFollows(s, required);
    }
    if required[0] == s[0] && s[0] !in s[1..] && s[0] !in required[1..] && InOrder(s[1..], required[1..]) {
      FirstLeads(s, required);
    }
  }

  lemma FirstFollows<T>(s: seq<T>, required: seq<T>)
    requires s != [] && s[0] in required && InOrder(s, required)
    ensures required[0] == s[0] && s[0] !in s[1..] && s[0] !in required[1..] && InOrder(s[1..], required[1..])
  {
    var h, rest := s[0], required[1..];
    InOrderDistinct(s, required);
    var i :| 0 <= i < |required| && required[i] == h;
    if i > 0 {
      InOrderIncreasing(s, required, 0, i);
    }
    assert Count(s, required[0]) == 1;
    CountPositive(s[1..], h);
    OneShorter(s, rest);
    forall k | 0 <= k < |rest| - 1 ensures Precedes(s[1..], rest, k) {
      assert Precedes(s, required, k + 1);
    }
  }

  lemma FirstLeads<T>(s: seq<T>, required: seq<T>)
    requires s != [] && required != [] && required[0] == s[0] && s[0] !in s[1..] && s[0] !in required[1..]
    requires InOrder(s[1..], required[1..])
    ensures InOrder(s, required)
  {
    var rest := required[1..];
    CountPositive(s[1..], s[0]);
    OneShorter(s, rest);
    forall k | 0 <= k < |required| ensures Count(s, required[k]) == 1 {
      if k > 0 {
        assert required[k] == rest[k - 1];
      }
    }
    forall k | 0 <= k < |required| - 1 ensures Precedes(s, required, k) {
      assert required[k + 1] == rest[k];
      if k > 0 {
        assert required[k] == rest[k - 1] && Precedes(s[1..], rest, k - 1);
      }
    }
  }

  lemma OneShorter<T>(s: seq<T>, rest: seq<T>)
    requires s != [] && s[0] !in rest
    ensures forall k | 0 <= k < |rest| :: Count(s, rest[k]) == Count(s[1..], rest[k])
    ensures forall k | 0 <= k < |rest| :: Index(s, rest[k]) == 1 + Index(s[1..], rest[k])
  {
    forall k | 0 <= k < |rest|
      ensures Count(s, rest[k]) == Count(s[1..], rest[k]) && Index(s, rest[k]) == 1 + Index(s[1..], rest[k])
    {
      assert rest[k] in rest;
    }
  }

  lemma {:induction false} ProjectSame<T>(s: seq<T>, a: set<T>, b: set<T>)
    requires forall x | x in s :: x in a <==> x in b
    ensures Project(s, a) == Project(s, b)
  {
    if s != [] {
      assert s[0] in s;
      forall x | x in s[1..] ensures x in a <==> x in b {
        assert x in s;
      }
      ProjectSame(s[1..], a, b);
    }
  }

  lemma {:induction false} ProjectKeeps<T>(s: seq<T>, keep: set<T>, x: T)
    ensures x in Project(s, keep) <==> x in s && x in keep
  {
    if s != [] {
      ProjectKeeps(s[1..], keep, x);
      assert s == [s[0]] + s[1..];
    }
  }

  /**
   Counting once and comparing neighbours accepts exactly the sequences whose required part,
   read in order, is the required list, provided that list has no duplicates.
   */
  lemma {:induction false} InOrderIffProjection<T>(s: seq<T>, required: seq<T>)
    ensures InOrder(s, required) <==> Distinct(required) && Project(s, Elements(required)) == required
    decreases |s|
  {
    var keep := Elements(required);
    if s == [] {
      if required != [] {
        assert Count(s, required[0]) == 0;
      }
    } else if s[0] !in required {
      SkipOther(s, required);
      InOrderIffProjection(s[1..], required);
    } else {
      TakeFirst(s, required);
      HeadKept(s, required);
    }
  }

  lemma HeadKept<T>(s: seq<T>, required: seq<T>)
    requires s != [] && s[0] in required
    ensures Distinct(required) && Project(s, Elements(required)) == required <==>
      required[0] == s[0] && s[0] !in s[1..] && s[0] !in required[1..] && InOrder(s[1..], required[1..])
    decreases |s|, 0
  {
    var h, rest, tail := s[0], required[1..], s[1..];
    InOrderIffProjection(tail, rest);
    assert required == [required[0]] + rest;
    var projected := Project(tail, Elements(required));
    assert Project(s, Elements(required)) == [h] + projected;
    if Distinct(required) && [h] + projected == required {
      assert projected == ([h] + projected)[1..] == rest;
      assert h !in rest;
      ProjectKeeps(tail, Elements(required), h);
      ProjectSame(tail, Elements(required), Elements(rest));
    }
    if required[0] == h && h !in tail && h !in rest && InOrder(tail, rest) {
      ProjectSame(tail, Elements(required), Elements(rest));
    }
  }

  // --------------------------------------------------------------- the two checks

  lemma StepFrom<T>(s: seq<T>, marker: T, i: nat)
    requires i < |s|
    ensures Count(s[i..], marker) == (if s[i] == marker then 1 else 0) + Count(s[i + 1..], marker)
    ensures Index(s[i..], marker) == if s[i] == marker then 0 else 1 + Index(s[i + 1..], marker)
  {
    assert s[i..][0] == s[i] && s[i..][1..] == s[i + 1..];
  }

  /** The indices of a marker, in order. */
  method Matches<T(==)>(observed: seq<T>, marker: T) returns (found: seq<nat>)
    ensures |found| == Count(observed, marker)
    ensures found != [] ==> found[0] == Index(observed, marker)
    ensures forall i :: i in found <==> 0 <= i < |observed| && observed[i] == marker
    ensures forall i, j | 0 <= i < j < |found| :: found[i] < found[j]
  {
    hide Count, Index;
    found := [];
    assert observed[0..] == observed;
    for i := 0 to |observed|
      invariant |found| + Count(observed[i..], marker) == Count(observed, marker)
      invariant found == [] ==> i + Index(observed[i..], marker) == Index(observed, marker)
      invariant found != [] ==> found[0] == Index(observed, marker)
      invariant forall j :: j in found <==> 0 <= j < i && observed[j] == marker
      invariant forall j, k | 0 <= j < k < |found| :: found[j] < found[k]
    {
      StepFrom(observed, marker, i);
      if observed[i] == marker {
        assert forall j :: j in found + [i] <==> j in found || j == i;
        assert forall j | 0 <= j < |found| :: found[j] in found;
        found := found + [i];
      }
    }
    NoneLeft(observed[|observed|..], marker);
  }

  lemma NoneLeft<T>(s: seq<T>, marker: T)
    requires s == []
    ensures Count(s, marker) == 0
  {
  }

  /** `assert_exact_ordered_markers`, for any list of required markers. */
  method ExactOrderedMarkers<T(==)>(observed: seq<T>, required: seq<T>) returns (ok: bool)
    ensures ok <==> Distinct(required) && Project(observed, Elements(required)) == required
  {
    hide Count, Index, Project;
    InOrderIffProjection(observed, required);
    var previous: int := -1;
    for k := 0 to |required|
      invariant forall i | 0 <= i < k :: Count(observed, required[i]) == 1
      invariant forall i | 0 <= i < k - 1 :: Precedes(observed, required, i)
      invariant previous == if k == 0 then -1 else Index(observed, required[k - 1])
    {
      var found := Matches(observed, required[k]);
      if |found| != 1 {
        return false;
      }
      if found[0] <= previous {
        assert !Precedes(observed, required, k - 1);
        return false;
      }
      previous := found[0];
    }
    return true;
  }

  class AcceptanceTimeline {
    var events: seq<Event>

    constructor ()
      ensures events == []
    {
      events := [];
    }

    method Record(source: string, value: string)
      modifies this
      ensures events == old(events) + [(source, value)]
    {
      events := events + [(source, value)];
    }

    /** `assert_before`. */
    method AssertBefore(before: Event, after: Event) returns (ok: bool)
      ensures ok <==>
        && Count(events, before) == 1 && Count(events, after) == 1
        && Index(events, before) < Index(events, after)
    {
      if Count(events, before) != 1 || Count(events, after) != 1 {
        return false;
      }
      return Index(events, before) < Index(events, after);
    }

    /** `assert_live_timeline`: counts first, then the chain of neighbours. */
    method AssertLive(expected: seq<Event>) returns (ok: bool)
      ensures ok <==> Distinct(expected) && Project(events, Elements(expected)) == expected
    {
      hide Count, Index, Project;
      InOrderIffProjection(events, expected);
      for k := 0 to |expected|
        invariant forall i | 0 <= i < k :: Count(events, expected[i]) == 1
      {
        if Count(events, expected[k]) != 1 {
          return false;
        }
      }
      var k := 0;
      while k + 1 < |expected|
        invariant forall i | 0 <= i < k && i + 1 < |expected| :: Precedes(events, expected, i)
      {
        var fine := AssertBefore(expected[k], expected[k + 1]);
        if !fine {
          assert !Precedes(events, expected, k);
          return false;
        }
        k := k + 1;
      }
      return true;
    }
  }
}
