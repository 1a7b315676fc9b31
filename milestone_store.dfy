/** The milestone popup store: a short list of narrator events that keeps
    only the most recent five and lets the user dismiss an event by id. */
module MilestoneStore {

  datatype NarratorSeverity = Info | Warning | Critical

  /** A narrator popup; the store looks only at its `id`. */
  datatype NarratorEvent = NarratorEvent(id: string, severity: NarratorSeverity, content: string)

  const MAX_EVENTS: nat := 5

  /** The last `n` elements, or all of `s` when it is shorter. */
  function LastN(s: seq<NarratorEvent>, n: nat): (r: seq<NarratorEvent>)
    ensures |r| == if |s| < n then |s| else n
    ensures r == s[|s| - |r|..]
  {
    if |s| <= n then s else s[|s| - n..]
  }

  /** The events of `s` whose id differs from `id`, in order. */
  function WithoutId(s: seq<NarratorEvent>, id: string): (r: seq<NarratorEvent>)
    ensures |r| <= |s|
  {
    if s == [] then []
    else (if s[0].id == id then [] else [s[0]]) + WithoutId(s[1..], id)
  }

  class Store {
    var events: seq<NarratorEvent>

    predicate Valid()
      reads this
    {
      |events| <= MAX_EVENTS
    }

    /** The store starts with no events. */
    constructor()
      ensures events == [] && Valid()
    {
      events := [];
    }

    /** Append `e`, then keep only the last five events. */
    method AddEvent(e: NarratorEvent)
      modifies this
      ensures events == LastN(old(events) + [e], MAX_EVENTS)
      ensures Valid()
    {
      events := LastN(events + [e], MAX_EVENTS);
    }

    /** Remove every event with this id. */
    method DismissEvent(id: string)
      requires Valid()
      modifies this
      ensures events == WithoutId(old(events), id)
      ensures Valid()
    {
      events := WithoutId(events, id);
    }
  }

  /** After adding `e` to a valid list: `e` is last, the length is
      `min(|old| + 1, 5)`, and the oldest event is dropped only when the
      list was full. */
  lemma AddEventEffect(before: seq<NarratorEvent>, e: NarratorEvent)
    requires |before| <= MAX_EVENTS
    ensures var r := LastN(before + [e], MAX_EVENTS);
      r[|r| - 1] == e
      && |r| == (if |before| + 1 < MAX_EVENTS then |before| + 1 else MAX_EVENTS)
      && (|before| < MAX_EVENTS ==> r == before + [e])
      && (|before| == MAX_EVENTS ==> r == before[1..] + [e])
  {
    var s := before + [e];
    if |before| == MAX_EVENTS {
      assert s[1..] == before[1..] + [e];
    }
  }

  /** Events added one by one, each followed by a trim to `n`. */
  function AddAll(s: seq<NarratorEvent>, es: seq<NarratorEvent>, n: nat): seq<NarratorEvent>
    decreases |es|
  {
    if es == [] then s else AddAll(LastN(s + [es[0]], n), es[1..], n)
  }

  /** A batch of additions leaves the last `n` of everything added, in order. */
  lemma {:induction false} AddAllKeepsLastN(s: seq<NarratorEvent>, es: seq<NarratorEvent>, n: nat)
    requires n > 0 && |s| <= n
    ensures AddAll(s, es, n) == LastN(s + es, n)
    decreases |es|
  {
    if es == [] {
      assert s + es == s;
    } else {
      var s' := LastN(s + [es[0]], n);
      assert AddAll(s, es, n) == AddAll(s', es[1..], n);
      AddAllKeepsLastN(s', es[1..], n);
      LastNConcat(s + [es[0]], es[1..], n);
      AppendHead(s, es);
    }
  }

  lemma AppendHead(s: seq<NarratorEvent>, es: seq<NarratorEvent>)
    requires es != []
    ensures s + [es[0]] + es[1..] == s + es
  {
    assert es == [es[0]] + es[1..];
  }

  /** Trimming a prefix first does not change the last `n` of the whole. */
  lemma LastNConcat(s: seq<NarratorEvent>, t: seq<NarratorEvent>, n: nat)
    ensures LastN(LastN(s, n) + t, n) == LastN(s + t, n)
  {
    var u := LastN(s, n) + t;
    var w := s + t;
    var r1, r2 := LastN(u, n), LastN(w, n);
    assert |r1| == |r2|;
    forall k | 0 <= k < |r1|
      ensures r1[k] == r2[k]
    {
      var i1, i2 := |u| - |r1| + k, |w| - |r2| + k;
      if i2 >= |s| {
        assert r1[k] == u[i1] == t[i1 - |LastN(s, n)|];
        assert r2[k] == w[i2] == t[i2 - |s|];
      } else {
        assert r1[k] == u[i1] == LastN(s, n)[i1];
        assert r2[k] == w[i2] == s[i2];
      }
    }
  }

  /** Dismissing keeps exactly the events with another id. */
  lemma {:induction false} WithoutIdMembers(s: seq<NarratorEvent>, id: string, e: NarratorEvent)
    ensures e in WithoutId(s, id) <==> e in s && e.id != id
  {
    if s != [] {
      WithoutIdMembers(s[1..], id, e);
      assert s == [s[0]] + s[1..];
    }
  }

  /** Dismissing works element by element, so the kept events stay in
      their original order. */
  lemma {:induction false} WithoutIdConcat(a: seq<NarratorEvent>, b: seq<NarratorEvent>, id: string)
    ensures WithoutId(a + b, id) == WithoutId(a, id) + WithoutId(b, id)
  {
    if a == [] {
      assert a + b == b;
    } else {
      assert (a + b)[1..] == a[1..] + b;
      WithoutIdConcat(a[1..], b, id);
    }
  }

  /** Dismissing an id no event has changes nothing. */
  lemma {:induction false} WithoutAbsentId(s: seq<NarratorEvent>, id: string)
    requires forall k :: 0 <= k < |s| ==> s[k].id != id
    ensures WithoutId(s, id) == s
  {
    if s != [] {
      WithoutAbsentId(s[1..], id);
    }
  }

  /** Dismissing twice is dismissing once. */
  lemma {:induction false} WithoutIdIdempotent(s: seq<NarratorEvent>, id: string)
    ensures WithoutId(WithoutId(s, id), id) == WithoutId(s, id)
  {
    if s != [] {
      WithoutIdIdempotent(s[1..], id);
      WithoutIdConcat(if s[0].id == id then [] else [s[0]], WithoutId(s[1..], id), id);
    }
  }
}
