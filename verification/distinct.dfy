/**
 * RxJava's `distinctUntilChanged` over a finite prefix of the per-tick
 * reachability results: a value is passed on only when it differs from the
 * value passed on just before it, and the first value is always passed on.
 */
module Distinct {
  import opened Wrappers

  /** No two adjacent elements of `s` are equal. */
  predicate NoRepeats(s: seq<bool>)
  {
    forall k :: 0 <= k < |s| - 1 ==> s[k] != s[k + 1]
  }

  /**
   * Specification: `raw` with every run of equal adjacent values collapsed to
   * one value. The first result is always emitted.
   */
  function Collapse(raw: seq<bool>): (r: seq<bool>)
    ensures |r| <= |raw|
    ensures raw != [] ==> r != [] && r[0] == raw[0]
  {
    if |raw| <= 1 then raw
    else if raw[0] == raw[1] then Collapse(raw[1..])
    else [raw[0]] + Collapse(raw[1..])
  }

  /** The last emission always equals the last tick's result. */
  lemma {:induction false} CollapseLast(raw: seq<bool>)
    requires raw != []
    ensures Collapse(raw)[|Collapse(raw)| - 1] == raw[|raw| - 1]
  {
    if |raw| > 1 {
      CollapseLast(raw[1..]);
    }
  }

  /** Consecutive emissions always differ. */
  lemma {:induction false} CollapseNoRepeats(raw: seq<bool>)
    ensures NoRepeats(Collapse(raw))
  {
    if |raw| > 1 {
      CollapseNoRepeats(raw[1..]);
    }
  }

  /**
   * One more tick: its result is emitted exactly when it differs from the
   * previous tick's result (or there was no previous tick).
   */
  lemma {:induction false} CollapseSnoc(raw: seq<bool>, x: bool)
    ensures Collapse(raw + [x]) ==
      if raw != [] && raw[|raw| - 1] == x then Collapse(raw) else Collapse(raw) + [x]
  {
    if |raw| >= 2 {
      assert (raw + [x])[1..] == raw[1..] + [x];
      CollapseSnoc(raw[1..], x);
      if raw[0] != raw[1] {
        assert [raw[0]] + (Collapse(raw[1..]) + [x]) == [raw[0]] + Collapse(raw[1..]) + [x];
      }
    } else if |raw| == 1 {
      assert raw + [x] == [raw[0], x];
    }
  }

  /**
   * Emissions are never retracted: what was emitted after the first `i` ticks
   * is a prefix of what is emitted after all of them, so the order of
   * emissions follows the order of ticks.
   */
  lemma {:induction false} CollapsePrefix(raw: seq<bool>, i: nat)
    requires i <= |raw|
    ensures Collapse(raw[..i]) <= Collapse(raw)
    decreases |raw| - i
  {
    if i == |raw| {
      assert raw[..i] == raw;
    } else {
      CollapsePrefix(raw, i + 1);
      assert raw[..i + 1] == raw[..i] + [raw[i]];
      CollapseSnoc(raw[..i], raw[i]);
    }
  }

  /**
   * Collapsing changes nothing exactly when there is nothing to collapse; in
   * particular collapsing twice is the same as collapsing once.
   */
  lemma {:induction false} CollapseFixpoint(s: seq<bool>)
    ensures Collapse(s) == s <==> NoRepeats(s)
    ensures Collapse(Collapse(s)) == Collapse(s)
  {
    if NoRepeats(s) {
      CollapseIdentity(s);
    } else {
      CollapseNoRepeats(s);
    }
    CollapseNoRepeats(s);
    CollapseIdentity(Collapse(s));
  }

  lemma {:induction false} CollapseIdentity(s: seq<bool>)
    requires NoRepeats(s)
    ensures Collapse(s) == s
  {
    if |s| > 1 {
      assert s[0] != s[1];
      assert NoRepeats(s[1..]) by {
        forall k | 0 <= k < |s[1..]| - 1 ensures s[1..][k] != s[1..][k + 1] {
          assert s[k + 1] != s[k + 2];
        }
      }
      CollapseIdentity(s[1..]);
      assert [s[0]] + s[1..] == s;
    }
  }

  /**
   * The operator itself: walks the ticks in order, keeping the last value it
   * saw, and emits a tick's value only when it differs from that last value.
   */
  method DistinctUntilChanged(raw: seq<bool>) returns (emitted: seq<bool>)
    ensures emitted == Collapse(raw)
  {
    emitted := [];
    var previous: Option<bool> := None;
    for i := 0 to |raw|
      invariant emitted == Collapse(raw[..i])
      invariant previous == if i == 0 then None else Some(raw[i - 1])
    {
      if previous != Some(raw[i]) {
        emitted := emitted + [raw[i]];
      }
      previous := Some(raw[i]);
      assert raw[..i + 1] == raw[..i] + [raw[i]];
      CollapseSnoc(raw[..i], raw[i]);
    }
    assert raw[..|raw|] == raw;
  }
}
