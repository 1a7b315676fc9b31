/** Milestone popups during playback: after every tick the portfolio's
    cumulative return is compared against a fixed threshold table, and each
    threshold fires at most once per run; plus the playback-speed table. */
module Milestones {
  import opened Wrappers
  import opened Types
  import opened MilestoneStore

  datatype Direction = Up | Down

  datatype Milestone = Milestone(key: string, threshold: real, dir: Direction)

  /** The threshold table, in the order thresholds are checked. */
  const MILESTONES: seq<Milestone> := [
    Milestone("+10", 0.10, Up),
    Milestone("+25", 0.25, Up),
    Milestone("+50", 0.50, Up),
    Milestone("-20", -0.20, Down),
    Milestone("-50", -0.50, Down)
  ]

  /** Tick interval in milliseconds for a playback speed; unknown speeds
      play at the 1x interval. */
  function IntervalMs(speed: int): (ms: int)
    ensures speed == 1 || speed == 5 || speed == 10 ==> ms * speed == 500
    ensures !(speed == 1 || speed == 5 || speed == 10) ==> ms == 500
  {
    if speed == 1 then 500 else if speed == 5 then 100 else if speed == 10 then 50 else 500
  }

  /** Cumulative return of the portfolio, as a fraction of its start. */
  function ReturnPct(totalValue: real, startingValue: real): (pct: real)
    requires startingValue > 0.0
    ensures pct * startingValue == totalValue - startingValue
    ensures pct >= 0.0 <==> totalValue >= startingValue
  {
    (totalValue - startingValue) / startingValue
  }

  /** An "up" milestone is reached at or above its threshold, a "down" one
      at or below it. */
  predicate Crossed(m: Milestone, r: real)
  {
    if m.dir == Up then r >= m.threshold else r <= m.threshold
  }

  /** The fired set after checking `ms` in order, starting from `fired`. */
  function FiredAfter(ms: seq<Milestone>, fired: set<string>, r: real): set<string>
  {
    if ms == [] then fired
    else
      var before := FiredAfter(ms[..|ms| - 1], fired, r);
      var m := ms[|ms| - 1];
      if m.key !in before && Crossed(m, r) then before + {m.key} else before
  }

  /** The milestones that fire while checking `ms` in order. */
  function FiringsAfter(ms: seq<Milestone>, fired: set<string>, r: real): seq<Milestone>
  {
    if ms == [] then []
    else
      var before := FiredAfter(ms[..|ms| - 1], fired, r);
      var m := ms[|ms| - 1];
      FiringsAfter(ms[..|ms| - 1], fired, r) + (if m.key !in before && Crossed(m, r) then [m] else [])
  }

  /** Independent reference: the milestones of `ms`, in order, that are
      reached and were not fired before. */
  function Due(ms: seq<Milestone>, fired: set<string>, r: real): seq<Milestone>
  {
    if ms == [] then []
    else (if ms[0].key !in fired && Crossed(ms[0], r) then [ms[0]] else []) + Due(ms[1..], fired, r)
  }

  predicate DistinctKeys(ms: seq<Milestone>)
  {
    forall i, j :: 0 <= i < j < |ms| ==> ms[i].key != ms[j].key
  }

  /** The fired-set bookkeeping, and what the playback hook passes to the store. */
  class Tracker {
    var fired: set<string>

    /** A run starts with nothing fired. */
    constructor()
      ensures fired == {}
    {
      fired := {};
    }

    /** Forget every fired milestone when the run is no longer complete. */
    method OnCompletionChange(isComplete: bool)
      modifies this
      ensures !isComplete ==> fired == {}
      ensures isComplete ==> fired == old(fired)
    {
      if !isComplete {
        fired := {};
      }
    }

    /** The threshold pass after one tick: nothing without a state or without a
      positive starting value; otherwise each milestone not yet fired and
      now reached is marked fired and returned, in table order. */
    method CheckAfterTick(portfolio: Option<Portfolio>) returns (firings: seq<Milestone>)
      modifies this
      ensures portfolio.None? || portfolio.value.startingValue <= 0.0 ==>
        firings == [] && fired == old(fired)
      ensures portfolio.Some? && portfolio.value.startingValue > 0.0 ==>
        var r := ReturnPct(portfolio.value.totalValue, portfolio.value.startingValue);
        firings == FiringsAfter(MILESTONES, old(fired), r)
        && fired == FiredAfter(MILESTONES, old(fired), r)
    {
      firings := [];
      if portfolio.None? || portfolio.value.startingValue <= 0.0 {
        return;
      }
      var r := ReturnPct(portfolio.value.totalValue, portfolio.value.startingValue);
      for i := 0 to |MILESTONES|
        invariant firings == FiringsAfter(MILESTONES[..i], old(fired), r)
        invariant fired == FiredAfter(MILESTONES[..i], old(fired), r)
      {
        var m := MILESTONES[i];
        assert MILESTONES[..i + 1][..i] == MILESTONES[..i];
        if m.key in fired {
          continue;
        }
        var crossed := if m.dir == Up then r >= m.threshold else r <= m.threshold;
        if crossed {
          fired := fired + {m.key};
          firings := firings + [m];
        }
      }
      assert MILESTONES[..|MILESTONES|] == MILESTONES;
    }

    /** The interval callback's milestone part: check, then hand one event
        per firing (made by `makeEvent` from its threshold) to the store. */
    method NotifyAfterTick(portfolio: Option<Portfolio>, store: Store, makeEvent: real -> NarratorEvent)
      requires store.Valid()
      modifies this, store
      ensures store.Valid()
      ensures portfolio.None? || portfolio.value.startingValue <= 0.0 ==>
        fired == old(fired) && store.events == old(store.events)
      ensures portfolio.Some? && portfolio.value.startingValue > 0.0 ==>
        var r := ReturnPct(portfolio.value.totalValue, portfolio.value.startingValue);
        var firings := FiringsAfter(MILESTONES, old(fired), r);
        fired == FiredAfter(MILESTONES, old(fired), r)
        && store.events == LastN(old(store.events) + EventsFor(firings, makeEvent), MAX_EVENTS)
    {
      var firings := CheckAfterTick(portfolio);
      ghost var firedNow := fired;
      ghost var before := store.events;
      var evs := EventsFor(firings, makeEvent);
      AddAllKeepsLastN(before, evs, MAX_EVENTS);
      var i := 0;
      while i < |evs|
        invariant 0 <= i <= |evs|
        invariant store.Valid()
        invariant fired == firedNow
        invariant AddAll(store.events, evs[i..], MAX_EVENTS) == AddAll(before, evs, MAX_EVENTS)
      {
        assert evs[i..][1..] == evs[i + 1..];
        store.AddEvent(evs[i]);
        i := i + 1;
      }
      assert evs[|evs|..] == [];
    }
  }

  /** One event per firing, made from its threshold, in firing order. */
  function EventsFor(firings: seq<Milestone>, makeEvent: real -> NarratorEvent): (es: seq<NarratorEvent>)
    ensures |es| == |firings|
    ensures forall k :: 0 <= k < |firings| ==> es[k] == makeEvent(firings[k].threshold)
  {
    if firings == [] then [] else [makeEvent(firings[0].threshold)] + EventsFor(firings[1..], makeEvent)
  }

  /** `Due` holds exactly the reached, not yet fired milestones of `ms`. */
  lemma {:induction false} DueMembers(ms: seq<Milestone>, fired: set<string>, r: real, m: Milestone)
    ensures m in Due(ms, fired, r) <==> m in ms && m.key !in fired && Crossed(m, r)
    decreases |ms|
  {
    if ms != [] {
      DueMembers(ms[1..], fired, r, m);
      assert ms == [ms[0]] + ms[1..];
    }
  }

  /** The keys of a list of milestones. */
  function Keys(ms: seq<Milestone>): set<string>
  {
    set m | m in ms :: m.key
  }

  /** A key ends up fired exactly when it was fired already or some
      milestone with that key is reached; nothing is ever un-fired. */
  lemma {:induction false} FiredAfterMembers(ms: seq<Milestone>, fired: set<string>, r: real, k: string)
    ensures k in FiredAfter(ms, fired, r) <==>
      k in fired || exists i :: 0 <= i < |ms| && ms[i].key == k && Crossed(ms[i], r)
    decreases |ms|
  {
    if ms != [] {
      var p := ms[..|ms| - 1];
      FiredAfterMembers(p, fired, r, k);
      if exists i :: 0 <= i < |p| && p[i].key == k && Crossed(p[i], r) {
        var i :| 0 <= i < |p| && p[i].key == k && Crossed(p[i], r);
        assert ms[i] == p[i];
      }
      if exists i :: 0 <= i < |ms| && ms[i].key == k && Crossed(ms[i], r) {
        var i :| 0 <= i < |ms| && ms[i].key == k && Crossed(ms[i], r);
        if i < |p| {
          assert p[i] == ms[i];
        }
      }
    }
  }

  /** Each check fires only keys not fired before, each at most once, and
      the new fired set is the old one plus exactly the keys that fired. */
  lemma {:induction false} FiringsAreFresh(ms: seq<Milestone>, fired: set<string>, r: real)
    ensures var fs := FiringsAfter(ms, fired, r);
      FiredAfter(ms, fired, r) == fired + Keys(fs)
      && (forall i :: 0 <= i < |fs| ==> fs[i].key !in fired && Crossed(fs[i], r))
      && (forall i, j :: 0 <= i < j < |fs| ==> fs[i].key != fs[j].key)
    decreases |ms|
  {
    if ms != [] {
      var p := ms[..|ms| - 1];
      FiringsAreFresh(p, fired, r);
      var fp := FiringsAfter(p, fired, r);
      var m := ms[|ms| - 1];
      if m.key !in FiredAfter(p, fired, r) && Crossed(m, r) {
        var fs := fp + [m];
        assert Keys(fs) == Keys(fp) + {m.key};
        forall i, j | 0 <= i < j < |fs|
          ensures fs[i].key != fs[j].key
        {
          if j == |fp| {
            assert fs[i] == fp[i] && fs[i].key in Keys(fp);
          }
        }
      } else {
        assert FiringsAfter(ms, fired, r) == fp + [];
      }
    }
  }

  /** Checking again with the fired set a check produced fires nothing
      and changes nothing: a milestone is never shown twice in a run. */
  lemma RecheckFiresNothing(ms: seq<Milestone>, fired: set<string>, r: real)
    ensures var after := FiredAfter(ms, fired, r);
      FiringsAfter(ms, after, r) == [] && FiredAfter(ms, after, r) == after
  {
    var after := FiredAfter(ms, fired, r);
    forall i | 0 <= i < |ms| && Crossed(ms[i], r)
      ensures ms[i].key in after
    {
      FiredAfterMembers(ms, fired, r, ms[i].key);
    }
    AllReachedFired(ms, after, r);
  }

  /** When every reached milestone is already fired, a check is a no-op. */
  lemma {:induction false} AllReachedFired(ms: seq<Milestone>, fired: set<string>, r: real)
    requires forall i :: 0 <= i < |ms| && Crossed(ms[i], r) ==> ms[i].key in fired
    ensures FiringsAfter(ms, fired, r) == [] && FiredAfter(ms, fired, r) == fired
    decreases |ms|
  {
    if ms != [] {
      var p := ms[..|ms| - 1];
      forall i | 0 <= i < |p| && Crossed(p[i], r)
        ensures p[i].key in fired
      {
        assert p[i] == ms[i];
      }
      AllReachedFired(p, fired, r);
    }
  }

  /** `Due` distributes over concatenation. */
  lemma {:induction false} DueConcat(a: seq<Milestone>, b: seq<Milestone>, fired: set<string>, r: real)
    ensures Due(a + b, fired, r) == Due(a, fired, r) + Due(b, fired, r)
    decreases |a|
  {
    if a == [] {
      assert a + b == b;
    } else {
      assert (a + b)[1..] == a[1..] + b;
      DueConcat(a[1..], b, fired, r);
    }
  }

  /** With distinct keys, the in-order check fires exactly the milestones
      that are reached and were not fired before, in table order. */
  lemma {:induction false} FiringsAreDue(ms: seq<Milestone>, fired: set<string>, r: real)
    requires DistinctKeys(ms)
    ensures FiringsAfter(ms, fired, r) == Due(ms, fired, r)
    decreases |ms|
  {
    if ms != [] {
      var p := ms[..|ms| - 1];
      var m := ms[|ms| - 1];
      assert DistinctKeys(p) by {
        forall i, j | 0 <= i < j < |p|
          ensures p[i].key != p[j].key
        {
          assert p[i] == ms[i] && p[j] == ms[j];
        }
      }
      FiringsAreDue(p, fired, r);
      FiredAfterMembers(p, fired, r, m.key);
      forall i | 0 <= i < |p|
        ensures p[i].key != m.key
      {
        assert p[i] == ms[i];
      }
      var tail := if m.key !in fired && Crossed(m, r) then [m] else [];
      assert FiringsAfter(ms, fired, r) == Due(p, fired, r) + tail;
      assert Due([m], fired, r) == tail + Due([], fired, r);
      assert ms == p + [m];
      DueConcat(p, [m], fired, r);
    }
  }

  /** The table's keys are distinct. */
  lemma MilestoneKeysDistinct()
    ensures DistinctKeys(MILESTONES)
  {
  }

  /** `Due` over the table is `Due` over each milestone in turn. */
  lemma DueOfTable(fired: set<string>, r: real)
    ensures Due(MILESTONES, fired, r) ==
      Due([MILESTONES[0]], fired, r) + Due([MILESTONES[1]], fired, r) + Due([MILESTONES[2]], fired, r)
      + Due([MILESTONES[3]], fired, r) + Due([MILESTONES[4]], fired, r)
  {
    var ms := MILESTONES;
    assert ms == [ms[0]] + ([ms[1]] + ([ms[2]] + ([ms[3]] + [ms[4]])));
    DueConcat([ms[0]], [ms[1]] + ([ms[2]] + ([ms[3]] + [ms[4]])), fired, r);
    DueConcat([ms[1]], [ms[2]] + ([ms[3]] + [ms[4]]), fired, r);
    DueConcat([ms[2]], [ms[3]] + [ms[4]], fired, r);
    DueConcat([ms[3]], [ms[4]], fired, r);
  }

  /** A fresh run at +30% fires +10% then +25%. */
  lemma ThirtyPercentExample()
    ensures FiringsAfter(MILESTONES, {}, 0.3) == [MILESTONES[0], MILESTONES[1]]
  {
    MilestoneKeysDistinct();
    FiringsAreDue(MILESTONES, {}, 0.3);
    DueOfTable({}, 0.3);
  }

  /** A fresh run at -50% fires -20% then -50%. */
  lemma MinusFiftyExample()
    ensures FiringsAfter(MILESTONES, {}, -0.5) == [MILESTONES[3], MILESTONES[4]]
  {
    MilestoneKeysDistinct();
    FiringsAreDue(MILESTONES, {}, -0.5);
    DueOfTable({}, -0.5);
  }

  /** At +60% with +10% already shown, +25% and +50% fire. */
  lemma SixtyPercentAfterTenExample()
    ensures FiringsAfter(MILESTONES, {"+10"}, 0.6) == [MILESTONES[1], MILESTONES[2]]
  {
    MilestoneKeysDistinct();
    FiringsAreDue(MILESTONES, {"+10"}, 0.6);
    DueOfTable({"+10"}, 0.6);
  }

  /** A 5% move fires nothing. */
  lemma SmallMoveExample()
    ensures FiringsAfter(MILESTONES, {}, 0.05) == []
  {
    MilestoneKeysDistinct();
    FiringsAreDue(MILESTONES, {}, 0.05);
    DueOfTable({}, 0.05);
  }

  /** A milestone is reached exactly when the portfolio's value has moved
      past `startingValue * (1 + threshold)` in the milestone's direction. */
  lemma CrossedInValueTerms(m: Milestone, totalValue: real, startingValue: real)
    requires startingValue > 0.0
    ensures Crossed(m, ReturnPct(totalValue, startingValue)) <==>
      if m.dir == Up then totalValue >= startingValue * (1.0 + m.threshold)
      else totalValue <= startingValue * (1.0 + m.threshold)
  {
    var pct := ReturnPct(totalValue, startingValue);
    assert startingValue * (1.0 + m.threshold) - totalValue == startingValue * (m.threshold - pct);
    if pct >= m.threshold {
      assert startingValue * (pct - m.threshold) >= 0.0;
    } else {
      assert startingValue * (m.threshold - pct) > 0.0;
    }
  }
}
