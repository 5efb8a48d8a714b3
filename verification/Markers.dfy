/**
 The boot test's greedy matching of expected markers in a serial log. Greedy matching is
 complete: it succeeds whenever some ordered, non-overlapping placement exists.
 */
module Markers {
  import opened Results

  predicate At(s: string, m: string, i: nat) {
    i + |m| <= |s| && s[i..i + |m|] == m
  }

  /** `str.find(marker, cursor)`: the first place at or behind the cursor. */
  method Find(s: string, m: string, cursor: nat) returns (r: Option<nat>)
    ensures r == First(s, m, cursor)
  {
    var i := cursor;
    while i + |m| <= |s|
      invariant i >= cursor
      invariant First(s, m, cursor) == First(s, m, i)
      decreases |s| - i
    {
      if s[i..i + |m|] == m {
        return Some(i);
      }
      i := i + 1;
    }
    return None;
  }

  function First(s: string, m: string, cursor: nat): (r: Option<nat>)
    ensures r.Some? ==> r.value >= cursor && At(s, m, r.value)
    ensures r.Some? ==> forall i: nat | cursor <= i < r.value :: !At(s, m, i)
    ensures r.None? ==> forall i: nat | cursor <= i :: !At(s, m, i)
    decreases |s| - cursor
  {
    if cursor + |m| > |s| then None
    else if At(s, m, cursor) then Some(cursor)
    else First(s, m, cursor + 1)
  }

  /** Every marker at its place, each behind the end of all earlier ones. */
  ghost predicate Placement(s: string, ms: seq<string>, ps: seq<nat>, from: nat) {
    && |ps| == |ms|
    && (forall i | 0 <= i < |ms| :: At(s, ms[i], ps[i]) && from <= ps[i])
    && (forall i, j | 0 <= i < j < |ms| :: ps[i] + |ms[i]| <= ps[j])
  }

  ghost predicate Placeable(s: string, ms: seq<string>, from: nat) {
    exists ps :: Placement(s, ms, ps, from)
  }

  /** The loop of `assert_markers`, as a function of the cursor. */
  function Greedy(s: string, ms: seq<string>, cursor: nat): Option<seq<nat>> {
    if ms == [] then Some([])
    else
      var i :- First(s, ms[0], cursor);
      var rest :- Greedy(s, ms[1..], i + |ms[0]|);
      Some([i] + rest)
  }

  lemma {:induction false} GreedySound(s: string, ms: seq<string>, cursor: nat)
    requires Greedy(s, ms, cursor).Some?
    ensures Placement(s, ms, Greedy(s, ms, cursor).value, cursor)
    decreases |ms|
  {
    if ms != [] {
      var i := First(s, ms[0], cursor).value;
      GreedySound(s, ms[1..], i + |ms[0]|);
    }
  }

  /** The exchange argument: the earliest place of the first marker leaves the most room. */
  lemma {:induction false} GreedyComplete(s: string, ms: seq<string>, cursor: nat, ps: seq<nat>)
    requires Placement(s, ms, ps, cursor)
    ensures Greedy(s, ms, cursor).Some? && |Greedy(s, ms, cursor).value| == |ms|
    ensures forall i | 0 <= i < |ms| :: Greedy(s, ms, cursor).value[i] <= ps[i]
    decreases |ms|
  {
    hide First, At;
    if ms != [] {
      assert At(s, ms[0], ps[0]);
      var i := First(s, ms[0], cursor).value;
      assert Placement(s, ms[1..], ps[1..], i + |ms[0]|);
      GreedyComplete(s, ms[1..], i + |ms[0]|, ps[1..]);
      var rest := Greedy(s, ms[1..], i + |ms[0]|).value;
      forall k | 0 <= k < |ms| ensures ([i] + rest)[k] <= ps[k] {
        if k > 0 {
          assert rest[k - 1] <= ps[1..][k - 1];
        }
      }
    }
  }

  lemma GreedyIffPlaceable(s: string, ms: seq<string>)
    ensures Greedy(s, ms, 0).Some? <==> Placeable(s, ms, 0)
  {
    if Greedy(s, ms, 0).Some? {
      GreedySound(s, ms, 0);
    }
    if Placeable(s, ms, 0) {
      var ps :| Placement(s, ms, ps, 0);
      GreedyComplete(s, ms, 0, ps);
    }
  }

  ghost predicate Contains(s: string, m: string) {
    exists i: nat :: At(s, m, i)
  }

  /** What `assert_markers` accepts. */
  ghost predicate Accepts(s: string, failures: seq<string>, ms: seq<string>) {
    (forall k | 0 <= k < |failures| :: !Contains(s, failures[k])) && Placeable(s, ms, 0)
  }

  /** `assert_markers`: no failure marker anywhere, then one forward scan. */
  method AssertMarkers(s: string, failures: seq<string>, ms: seq<string>) returns (ok: bool)
    ensures ok <==> Accepts(s, failures, ms)
  {
    hide Greedy, First;
    for k := 0 to |failures|
      invariant forall j | 0 <= j < k :: !Contains(s, failures[j])
    {
      var found := Find(s, failures[k], 0);
      if found.Some? {
        assert Contains(s, failures[k]) by {
          assert At(s, failures[k], found.value);
        }
        return false;
      }
    }
    GreedyIffPlaceable(s, ms);
    var cursor: nat := 0;
    for k := 0 to |ms|
      invariant Greedy(s, ms, 0).Some? <==> Greedy(s, ms[k..], cursor).Some?
    {
      GreedyStep(s, ms[k..], cursor);
      assert ms[k..][0] == ms[k] && ms[k..][1..] == ms[k + 1..];
      var index := Find(s, ms[k], cursor);
      if index.None? {
        return false;
      }
      cursor := index.value + |ms[k]|;
    }
    GreedyEnd(s, cursor);
    assert ms[|ms|..] == [];
    return true;
  }

  lemma GreedyStep(s: string, ms: seq<string>, cursor: nat)
    requires ms != []
    ensures Greedy(s, ms, cursor).Some? <==>
      First(s, ms[0], cursor).Some? && Greedy(s, ms[1..], First(s, ms[0], cursor).value + |ms[0]|).Some?
  {
  }

  lemma GreedyEnd(s: string, cursor: nat)
    ensures Greedy(s, [], cursor).Some?
  {
  }

  // ------------------------------------------------------------- marker tables

  /** Leaving out a stretch of markers keeps a log acceptable. */
  lemma AcceptsWithout(s: string, failures: seq<string>, front: seq<string>, middle: seq<string>, back: seq<string>)
    requires Accepts(s, failures, front + middle + back)
    ensures Accepts(s, failures, front + back)
  {
    var ms := front + middle + back;
    var ps :| Placement(s, ms, ps, 0);
    var n, k := |front|, |middle|;
    var qs := ps[..n] + ps[n + k..];
    var ns := front + back;
    forall i | 0 <= i < |ns| ensures At(s, ns[i], qs[i]) {
      if i < n {
        assert ns[i] == ms[i] && qs[i] == ps[i];
      } else {
        assert ns[i] == ms[i + k] && qs[i] == ps[i + k];
      }
    }
    forall i, j | 0 <= i < j < |ns| ensures qs[i] + |ns[i]| <= qs[j] {
      var a, b := if i < n then i else i + k, if j < n then j else j + k;
      assert ns[i] == ms[a] && qs[i] == ps[a] && ns[j] == ms[b] && qs[j] == ps[b];
    }
    assert Placement(s, ns, qs, 0);
  }

  /** `insert_before`; a missing marker is an error. */
  function InsertBefore(ms: seq<string>, before: string, additions: seq<string>): (r: Option<seq<string>>)
    ensures r.Some? <==> before in ms
  {
    if ms == [] then None
    else if ms[0] == before then Some(additions + ms)
    else
      var rest :- InsertBefore(ms[1..], before, additions);
      Some([ms[0]] + rest)
  }

  lemma {:induction false} InsertBeforeSplits(ms: seq<string>, before: string, additions: seq<string>) returns (k: nat)
    requires before in ms
    ensures k < |ms| && ms[k] == before && before !in ms[..k]
    ensures InsertBefore(ms, before, additions) == Some(ms[..k] + additions + ms[k..])
  {
    if ms[0] == before {
      k := 0;
      assert ms[..0] + additions + ms[0..] == additions + ms;
    } else {
      var j := InsertBeforeSplits(ms[1..], before, additions);
      k := j + 1;
      assert ms[..k] == [ms[0]] + ms[1..][..j] && ms[k..] == ms[1..][j..];
      assert [ms[0]] + (ms[1..][..j] + additions + ms[1..][j..]) == ms[..k] + additions + ms[k..];
    }
  }

  /** A log that passes with the additions passes without them. */
  lemma AcceptsBeforeInsertion(s: string, failures: seq<string>, ms: seq<string>, before: string,
                               additions: seq<string>)
    requires before in ms && Accepts(s, failures, InsertBefore(ms, before, additions).value)
    ensures Accepts(s, failures, ms)
  {
    var k := InsertBeforeSplits(ms, before, additions);
    AcceptsWithout(s, failures, ms[..k], additions, ms[k..]);
    assert ms[..k] + ms[k..] == ms;
  }

  lemma AcceptsPrefix(s: string, failures: seq<string>, ms: seq<string>, k: nat)
    requires k <= |ms| && Accepts(s, failures, ms)
    ensures Accepts(s, failures, ms[..k])
  {
    assert ms == ms[..k] + ms[k..] + [];
    AcceptsWithout(s, failures, ms[..k], ms[k..], []);
    assert ms[..k] + [] == ms[..k];
  }

  // ------------------------------------------------------------- appended output

  lemma {:induction false} PlaceableWithMore(s: string, more: string, ms: seq<string>)
    requires Placeable(s, ms, 0)
    ensures Placeable(s + more, ms, 0)
  {
    var ps :| Placement(s, ms, ps, 0);
    forall i | 0 <= i < |ms| ensures At(s + more, ms[i], ps[i]) {
      assert At(s, ms[i], ps[i]);
      assert (s + more)[ps[i]..ps[i] + |ms[i]|] == s[ps[i]..ps[i] + |ms[i]|];
    }
    assert Placement(s + more, ms, ps, 0);
  }

  /** More output can turn an accepted log into a refused one only through a failure marker. */
  lemma AcceptsWithMore(s: string, more: string, failures: seq<string>, ms: seq<string>)
    requires Accepts(s, failures, ms)
    ensures Accepts(s + more, failures, ms) <==> forall k | 0 <= k < |failures| :: !Contains(s + more, failures[k])
  {
    PlaceableWithMore(s, more, ms);
  }
}
