/** The two best-effort helpers, releaseAll over a list of weak handles and
    release of an object of unknown type, as functions over a world of
    resources. Each helper calls release() once per resource it reaches,
    catches the illegal-state error, logs one debug record for it and
    carries on; any other error escapes and ends the helper. */
module BulkRelease {
  import opened RefCounting

  /** A weak handle as the sweep sees it: a null list entry, a handle whose
      referent the garbage collector has already reclaimed, or a handle
      that still resolves to a resource. */
  datatype Handle = NullHandle | Collected | Alive(id: Id)

  /** An object of unknown type: reference counted or not. */
  datatype Obj = RC(id: Id) | Other

  /** One debug record: the resource whose release failed and the error
      that was caught. */
  datatype Diagnostic = Debug(id: Id, cause: Error)

  /** Everything a helper changes or leaves a trace in: the state of every
      resource, the release attempts made in order, the debug log, and the
      resources whose teardown has run, in order. */
  datatype World = World(
    states: map<Id, State>,
    attempts: seq<Id>,
    diagnostics: seq<Diagnostic>,
    teardowns: seq<Id>)

  /** A helper's outcome: the world it leaves, and Ok or the error that
      escaped it. */
  datatype Swept = Swept(w: World, outcome: Result<()>)

  predicate NoDup(ids: seq<Id>)
  {
    forall i, j :: 0 <= i < j < |ids| ==> ids[i] != ids[j]
  }

  /** No resource has been torn down twice, and every resource torn down is
      freed. */
  predicate Sound(w: World)
  {
    && NoDup(w.teardowns)
    && forall i :: 0 <= i < |w.teardowns| ==>
         w.teardowns[i] in w.states && w.states[w.teardowns[i]].Freed?
  }

  /** Every handle that still resolves names a known resource. */
  predicate Resolvable(states: map<Id, State>, hs: seq<Handle>)
  {
    forall i :: 0 <= i < |hs| && hs[i].Alive? ==> hs[i].id in states
  }

  /** One call of release() on resource `id`, whose teardown throws when
      `id` is in `faults`. */
  function ApplyRelease(w: World, faults: set<Id>, id: Id): (r: Swept)
    requires id in w.states
    ensures r.w.states.Keys == w.states.Keys
    ensures r.w.states[id] == Release(w.states[id], id in faults).next
    ensures forall x :: x in w.states && x != id ==> r.w.states[x] == w.states[x]
    ensures r.w.attempts == w.attempts + [id]
    ensures r.w.diagnostics == w.diagnostics
    ensures r.outcome == Release(w.states[id], id in faults).result
    ensures r.w.teardowns ==
      w.teardowns + if Release(w.states[id], id in faults).teardown then [id] else []
    ensures Sound(w) ==> Sound(r.w)
  {
    var st := Release(w.states[id], id in faults);
    var torn := if st.teardown then w.teardowns + [id] else w.teardowns;
    Swept(World(w.states[id := st.next], w.attempts + [id], w.diagnostics, torn), st.result)
  }

  /** The try/catch around one release() in both helpers: the
      illegal-state error is caught and logged once, anything else escapes. */
  function ReleaseOnce(w: World, faults: set<Id>, id: Id): (r: Swept)
    requires id in w.states
    ensures r.w.states.Keys == w.states.Keys
    ensures forall x :: x in w.states && x != id ==> r.w.states[x] == w.states[x]
    ensures r.w.attempts == w.attempts + [id]
    ensures r.w.diagnostics ==
      w.diagnostics + if w.states[id].Freed? then [Debug(id, IllegalState)] else []
    ensures w.states[id].Freed? ==> r == Swept(w.(attempts := r.w.attempts, diagnostics := r.w.diagnostics), Ok(()))
    ensures w.states[id].Live? ==> RefCount(r.w.states[id]) == RefCount(w.states[id]) - 1
    ensures r.w.teardowns == w.teardowns + if w.states[id] == Live(1) then [id] else []
    ensures r.outcome.Err? <==> RefCount(w.states[id]) == 1 && id in faults
    ensures r.outcome.Err? ==> r.outcome.error == Unexpected
    ensures Sound(w) ==> Sound(r.w)
  {
    var a := ApplyRelease(w, faults, id);
    match a.outcome
    case Err(IllegalState) =>
      Swept(a.w.(diagnostics := a.w.diagnostics + [Debug(id, IllegalState)]), Ok(()))
    case _ => a
  }

  /** One list entry of releaseAll: null and collected handles are skipped
      without any release attempt or record. */
  function Visit(w: World, faults: set<Id>, h: Handle): (r: Swept)
    requires h.Alive? ==> h.id in w.states
    ensures !h.Alive? ==> r == Swept(w, Ok(()))
    ensures h.Alive? ==> r == ReleaseOnce(w, faults, h.id)
  {
    match h
    case Alive(id) => ReleaseOnce(w, faults, id)
    case _ => Swept(w, Ok(()))
  }

  /** The resource one handle resolves to, if any. */
  function Resolved(h: Handle): seq<Id>
  {
    match h
    case Alive(id) => [id]
    case _ => []
  }

  /** The resources the handles still resolve to, in list order. */
  function LiveIds(hs: seq<Handle>): seq<Id>
    decreases |hs|
  {
    if hs == [] then [] else LiveIds(hs[..|hs| - 1]) + Resolved(hs[|hs| - 1])
  }

  /** A resource is among the live ids exactly when some handle in the
      list resolves to it. */
  lemma {:induction false} LiveIdsMembers(hs: seq<Handle>, id: Id)
    ensures id in LiveIds(hs) <==> Alive(id) in hs
    decreases |hs|
  {
    if hs != [] {
      var init := hs[..|hs| - 1];
      assert hs == init + [hs[|hs| - 1]];
      LiveIdsMembers(init, id);
    }
  }

  /** The debug records a sweep over distinct resources `ids` logs: one for
      each resource already freed, in order. */
  function FreedAmong(states: map<Id, State>, ids: seq<Id>): seq<Diagnostic>
    decreases |ids|
  {
    if ids == [] then []
    else
      var id := ids[|ids| - 1];
      FreedAmong(states, ids[..|ids| - 1])
        + if id in states && states[id].Freed? then [Debug(id, IllegalState)] else []
  }

  /** The resources among `ids` holding their last reference, in order:
      those whose release frees them and runs their teardown. */
  function LastHolders(states: map<Id, State>, ids: seq<Id>): seq<Id>
    decreases |ids|
  {
    if ids == [] then []
    else
      var id := ids[|ids| - 1];
      LastHolders(states, ids[..|ids| - 1])
        + if id in states && states[id] == Live(1) then [id] else []
  }

  /** releaseAll: the entries in list order; the first error other than
      the illegal-state error ends the sweep and escapes. */
  function Sweep(w: World, faults: set<Id>, hs: seq<Handle>): (r: Swept)
    requires Resolvable(w.states, hs)
    ensures r.w.states.Keys == w.states.Keys
    ensures w.attempts <= r.w.attempts
    ensures w.diagnostics <= r.w.diagnostics
    ensures r.outcome.Err? ==> r.outcome.error == Unexpected
    ensures Sound(w) ==> Sound(r.w)
    decreases |hs|
  {
    if hs == [] then Swept(w, Ok(()))
    else
      var p := Sweep(w, faults, hs[..|hs| - 1]);
      if p.outcome.Err? then p else Visit(p.w, faults, hs[|hs| - 1])
  }

  /** release(Object): a no-op for an object that is not reference counted,
      otherwise one release attempt inside the same try/catch. */
  function ReleaseAny(w: World, faults: set<Id>, o: Obj): (r: Swept)
    requires o.RC? ==> o.id in w.states
    ensures o.Other? ==> r == Swept(w, Ok(()))
    ensures o.RC? ==> r.w.attempts == w.attempts + [o.id]
    ensures o.RC? ==> r.w.states == w.states[o.id := Release(w.states[o.id], o.id in faults).next]
    ensures o.RC? ==>
      r.w.diagnostics == w.diagnostics + if w.states[o.id].Freed? then [Debug(o.id, IllegalState)] else []
    ensures o.RC? ==>
      r.w.teardowns == w.teardowns + if w.states[o.id] == Live(1) then [o.id] else []
    ensures r.outcome != Err(IllegalState)
    ensures r.outcome.Err? <==> o.RC? && w.states[o.id] == Live(1) && o.id in faults
    ensures Sound(w) ==> Sound(r.w)
  {
    match o
    case RC(id) => ReleaseOnce(w, faults, id)
    case Other => Swept(w, Ok(()))
  }

  /** release(Object) on a reference-counted object does what releaseAll
      does with a one-entry list that resolves to it. */
  lemma ReleaseAnyIsSweepOfOne(w: World, faults: set<Id>, id: Id)
    requires id in w.states
    ensures Resolvable(w.states, [Alive(id)])
    ensures ReleaseAny(w, faults, RC(id)) == Sweep(w, faults, [Alive(id)])
  {
    assert [Alive(id)][..0] == [];
  }

  /** Releasing the last reference twice through release(Object): the
      first call frees the resource and runs its teardown, the second is
      logged and swallowed, and the teardown is never repeated. */
  lemma ReleaseAnyTwice(w: World, id: Id)
    requires Sound(w) && id in w.states && w.states[id] == Live(1)
    ensures var r1 := ReleaseAny(w, {}, RC(id));
      var r2 := ReleaseAny(r1.w, {}, RC(id));
      && r1.outcome == Ok(()) && r2.outcome == Ok(())
      && r1.w.states[id] == Freed && r2.w.states == r1.w.states
      && r1.w.teardowns == w.teardowns + [id] && r2.w.teardowns == r1.w.teardowns
      && r2.w.attempts == w.attempts + [id, id]
      && r2.w.diagnostics == w.diagnostics + [Debug(id, IllegalState)]
  {
  }

  /** Once an error has escaped a prefix of the list, the rest of the list
      is never looked at. */
  lemma {:induction false} EscapeIsFinal(w: World, faults: set<Id>, hs: seq<Handle>, k: nat)
    requires k <= |hs| && Resolvable(w.states, hs)
    requires Sweep(w, faults, hs[..k]).outcome.Err?
    ensures Sweep(w, faults, hs) == Sweep(w, faults, hs[..k])
    decreases |hs|
  {
    if k < |hs| {
      var init := hs[..|hs| - 1];
      assert init[..k] == hs[..k];
      EscapeIsFinal(w, faults, init, k);
    } else {
      assert hs[..k] == hs;
    }
  }

  /** The release attempts a sweep made, in order. */
  function AttemptsMade(w: World, faults: set<Id>, hs: seq<Handle>): seq<Id>
    requires Resolvable(w.states, hs)
  {
    Sweep(w, faults, hs).w.attempts[|w.attempts|..]
  }

  /** Unfolds AttemptsMade by the list's last entry. */
  lemma AttemptsMadeSnoc(w: World, faults: set<Id>, hs: seq<Handle>)
    requires hs != [] && Resolvable(w.states, hs)
    requires Sweep(w, faults, hs[..|hs| - 1]).outcome.Ok?
    ensures AttemptsMade(w, faults, hs) ==
      AttemptsMade(w, faults, hs[..|hs| - 1]) + Resolved(hs[|hs| - 1])
  {
    var p := Sweep(w, faults, hs[..|hs| - 1]);
    assert p.w.attempts == w.attempts + AttemptsMade(w, faults, hs[..|hs| - 1]);
  }

  /** Exactly one release attempt per resolvable entry, in list order, when
      the sweep completes; a prefix of them when an error escapes. */
  lemma {:induction false} SweepAttempts(w: World, faults: set<Id>, hs: seq<Handle>)
    requires Resolvable(w.states, hs)
    ensures AttemptsMade(w, faults, hs) <= LiveIds(hs)
    ensures Sweep(w, faults, hs).outcome.Ok? ==> AttemptsMade(w, faults, hs) == LiveIds(hs)
    decreases |hs|
  {
    if hs != [] {
      var init := hs[..|hs| - 1];
      SweepAttempts(w, faults, init);
      if Sweep(w, faults, init).outcome.Ok? {
        AttemptsMadeSnoc(w, faults, hs);
      }
    }
  }

  /** A sweep touches no resource that none of its handles resolves to. */
  lemma {:induction false} SweepFrame(w: World, faults: set<Id>, hs: seq<Handle>, x: Id)
    requires Resolvable(w.states, hs)
    requires x in w.states && x !in LiveIds(hs)
    ensures Sweep(w, faults, hs).w.states[x] == w.states[x]
    decreases |hs|
  {
    if hs != [] {
      var init := hs[..|hs| - 1];
      assert hs == init + [hs[|hs| - 1]];
      SweepFrame(w, faults, init, x);
    }
  }

  /** Splitting a duplicate-free list keeps both parts duplicate-free and
      apart. */
  lemma NoDupSplit(a: seq<Id>, b: seq<Id>)
    requires NoDup(a + b)
    ensures NoDup(a) && forall x :: x in b ==> x !in a
  {
    forall x | x in b
      ensures x !in a
    {
      var j :| 0 <= j < |b| && b[j] == x;
      forall i | 0 <= i < |a|
        ensures a[i] != x
      {
        assert (a + b)[i] == a[i] && (a + b)[|a| + j] == x;
      }
    }
    forall i, j | 0 <= i < j < |a|
      ensures a[i] != a[j]
    {
      assert (a + b)[i] == a[i] && (a + b)[j] == a[j];
    }
  }

  /** Unfolds FreedAmong by its last resource. */
  lemma FreedAmongSnoc(states: map<Id, State>, ids: seq<Id>, id: Id)
    ensures FreedAmong(states, ids + [id]) ==
      FreedAmong(states, ids) + if id in states && states[id].Freed? then [Debug(id, IllegalState)] else []
  {
    assert (ids + [id])[..|ids|] == ids;
  }

  /** One more release attempt, on a resource whose state the earlier ones
      did not change, logs what FreedAmong predicts for it. */
  lemma DiagnosticsOfOne(w: World, v: World, faults: set<Id>, before: seq<Id>, id: Id)
    requires v.diagnostics == w.diagnostics + FreedAmong(w.states, before)
    requires id in v.states && id in w.states && v.states[id] == w.states[id]
    ensures ReleaseOnce(v, faults, id).w.diagnostics ==
      w.diagnostics + FreedAmong(w.states, before + [id])
  {
    FreedAmongSnoc(w.states, before, id);
    var tail := if w.states[id].Freed? then [Debug(id, IllegalState)] else [];
    assert ReleaseOnce(v, faults, id).w.diagnostics == v.diagnostics + tail;
    assert v.diagnostics + tail == w.diagnostics + (FreedAmong(w.states, before) + tail);
  }

  /** Over distinct resources, the sweep logs exactly one debug record per
      attempted resource that was already freed, in the order it reached
      them, and none for anything else: skipped handles, live resources,
      and the resource whose error escaped. */
  lemma {:induction false} SweepDiagnostics(w: World, faults: set<Id>, hs: seq<Handle>)
    requires Resolvable(w.states, hs) && NoDup(LiveIds(hs))
    ensures Sweep(w, faults, hs).w.diagnostics ==
      w.diagnostics + FreedAmong(w.states, AttemptsMade(w, faults, hs))
    decreases |hs|
  {
    if hs == [] {
      assert AttemptsMade(w, faults, hs) == [];
    } else {
      var init := hs[..|hs| - 1];
      var last := hs[|hs| - 1];
      NoDupSplit(LiveIds(init), Resolved(last));
      SweepDiagnostics(w, faults, init);
      var p := Sweep(w, faults, init);
      if p.outcome.Ok? {
        AttemptsMadeSnoc(w, faults, hs);
        var before := AttemptsMade(w, faults, init);
        var r := Sweep(w, faults, hs);
        assert r == Visit(p.w, faults, last);
        if last.Alive? {
          SweepAttempts(w, faults, init);
          SweepFrame(w, faults, init, last.id);
          DiagnosticsOfOne(w, p.w, faults, before, last.id);
        } else {
          assert before + [] == before;
        }
      }
    }
  }

  /** Unfolds LastHolders by its last resource. */
  lemma LastHoldersSnoc(states: map<Id, State>, ids: seq<Id>, id: Id)
    ensures LastHolders(states, ids + [id]) ==
      LastHolders(states, ids) + if id in states && states[id] == Live(1) then [id] else []
  {
    assert (ids + [id])[..|ids|] == ids;
  }

  /** One more release attempt, on a resource whose state the earlier ones
      did not change, tears down what LastHolders predicts for it. */
  lemma TeardownsOfOne(w: World, v: World, faults: set<Id>, before: seq<Id>, id: Id)
    requires v.teardowns == w.teardowns + LastHolders(w.states, before)
    requires id in v.states && id in w.states && v.states[id] == w.states[id]
    ensures ReleaseOnce(v, faults, id).w.teardowns ==
      w.teardowns + LastHolders(w.states, before + [id])
  {
    var tail: seq<Id> := if w.states[id] == Live(1) then [id] else [];
    var prior := LastHolders(w.states, before);
    assert ReleaseOnce(v, faults, id).w.teardowns == v.teardowns + tail;
    LastHoldersSnoc(w.states, before, id);
    assert v.teardowns + tail == w.teardowns + (prior + tail);
  }

  /** Over distinct resources, the sweep runs the teardown of exactly the
      attempted resources that held their last reference, in the order it
      reached them, and of nothing else. */
  lemma {:induction false} SweepTeardowns(w: World, faults: set<Id>, hs: seq<Handle>)
    requires Resolvable(w.states, hs) && NoDup(LiveIds(hs))
    ensures Sweep(w, faults, hs).w.teardowns ==
      w.teardowns + LastHolders(w.states, AttemptsMade(w, faults, hs))
    decreases |hs|
  {
    if hs == [] {
      assert AttemptsMade(w, faults, hs) == [];
    } else {
      var init := hs[..|hs| - 1];
      var last := hs[|hs| - 1];
      NoDupSplit(LiveIds(init), Resolved(last));
      SweepTeardowns(w, faults, init);
      var p := Sweep(w, faults, init);
      if p.outcome.Ok? {
        AttemptsMadeSnoc(w, faults, hs);
        var before := AttemptsMade(w, faults, init);
        assert Sweep(w, faults, hs) == Visit(p.w, faults, last);
        if last.Alive? {
          SweepAttempts(w, faults, init);
          SweepFrame(w, faults, init, last.id);
          TeardownsOfOne(w, p.w, faults, before, last.id);
        } else {
          assert before + [] == before;
        }
      }
    }
  }

  /** The sweep completes, with nothing escaping, whenever no resource the
      handles resolve to has a teardown that throws: an illegal-state
      failure never stops it. */
  lemma {:induction false} SweepCompletes(w: World, faults: set<Id>, hs: seq<Handle>)
    requires Resolvable(w.states, hs)
    requires forall id :: id in LiveIds(hs) ==> id !in faults
    ensures Sweep(w, faults, hs).outcome.Ok?
    decreases |hs|
  {
    if hs != [] {
      var init := hs[..|hs| - 1];
      assert LiveIds(hs) == LiveIds(init) + Resolved(hs[|hs| - 1]);
      SweepCompletes(w, faults, init);
    }
  }

  /** An error escapes only from the last release attempted, a resource
      whose teardown throws, which that very release has just freed. */
  lemma {:induction false} SweepEscape(w: World, faults: set<Id>, hs: seq<Handle>)
    requires Resolvable(w.states, hs)
    requires Sweep(w, faults, hs).outcome.Err?
    ensures var r := Sweep(w, faults, hs);
      |r.w.attempts| > |w.attempts| &&
      var id := r.w.attempts[|r.w.attempts| - 1];
      id in faults && id in r.w.states && r.w.states[id].Freed? &&
      |r.w.teardowns| > 0 && r.w.teardowns[|r.w.teardowns| - 1] == id
    decreases |hs|
  {
    var init := hs[..|hs| - 1];
    if Sweep(w, faults, init).outcome.Err? {
      SweepEscape(w, faults, init);
    }
  }

  /** Over distinct resources, a sweep that completes has released every
      resource its handles resolve to exactly once, and no other. */
  lemma {:induction false} SweepReleasesEach(w: World, faults: set<Id>, hs: seq<Handle>, x: Id)
    requires Resolvable(w.states, hs) && NoDup(LiveIds(hs)) && x in w.states
    requires Sweep(w, faults, hs).outcome.Ok?
    ensures Sweep(w, faults, hs).w.states[x] ==
      if x in LiveIds(hs) then Release(w.states[x], x in faults).next else w.states[x]
    decreases |hs|
  {
    if hs == [] {
    } else {
      var init := hs[..|hs| - 1];
      var last := hs[|hs| - 1];
      assert LiveIds(hs) == LiveIds(init) + Resolved(last);
      NoDupSplit(LiveIds(init), Resolved(last));
      SweepReleasesEach(w, faults, init, x);
      if last.Alive? && last.id == x {
        SweepFrame(w, faults, init, x);
      }
    }
  }

  /** Unfolds LiveIds by one more entry. */
  lemma LiveIdsOn(hs: seq<Handle>, k: nat)
    requires k < |hs|
    ensures LiveIds(hs[..k + 1]) == LiveIds(hs[..k]) + Resolved(hs[k])
  {
    assert hs[..k + 1][..k] == hs[..k];
  }

  /** releaseAll over handles that resolve to distinct resources, none of
      whose teardowns throws: it completes, makes exactly one release
      attempt per resolvable entry in list order, logs one record per
      resource already freed, and leaves every resource released once if
      some handle resolves to it and untouched otherwise. */
  lemma SweepDistinct(w: World, faults: set<Id>, hs: seq<Handle>)
    requires Resolvable(w.states, hs) && NoDup(LiveIds(hs))
    requires forall id :: id in LiveIds(hs) ==> id !in faults
    ensures var r := Sweep(w, faults, hs);
      && r.outcome == Ok(())
      && r.w.attempts == w.attempts + LiveIds(hs)
      && r.w.diagnostics == w.diagnostics + FreedAmong(w.states, LiveIds(hs))
      && r.w.teardowns == w.teardowns + LastHolders(w.states, LiveIds(hs))
      && forall x :: x in w.states ==>
           r.w.states[x] == if x in LiveIds(hs) then Release(w.states[x], false).next else w.states[x]
  {
    SweepCompletes(w, faults, hs);
    SweepAttempts(w, faults, hs);
    SweepDiagnostics(w, faults, hs);
    SweepTeardowns(w, faults, hs);
    forall x | x in w.states
      ensures Sweep(w, faults, hs).w.states[x] ==
        if x in LiveIds(hs) then Release(w.states[x], false).next else w.states[x]
    {
      SweepReleasesEach(w, faults, hs, x);
    }
  }

  /** The handles of the five-entry sweep below resolve, in order, to four
      distinct resources. */
  lemma FiveHandleIds(states: map<Id, State>, hs: seq<Handle>, a: Id, b: Id, c: Id, e: Id)
    requires a != b && a != c && a != e && b != c && b != e && c != e
    requires a in states && b in states && c in states && e in states
    requires |hs| == 5 && hs[0] == Alive(a) && hs[1] == Alive(b) && hs[2] == Alive(c)
    requires hs[3] == Collected && hs[4] == Alive(e)
    ensures Resolvable(states, hs)
    ensures LiveIds(hs) == [a, b, c, e] && NoDup(LiveIds(hs))
  {
    forall i | 0 <= i < |hs| && hs[i].Alive?
      ensures hs[i].id in states
    {
      assert i == 0 || i == 1 || i == 2 || i == 4;
    }
    assert hs[..0] == [];
    LiveIdsOn(hs, 0);
    LiveIdsOn(hs, 1);
    LiveIdsOn(hs, 2);
    LiveIdsOn(hs, 3);
    LiveIdsOn(hs, 4);
    assert hs[..5] == hs;
  }

  /** Of the four resources of the five-entry sweep, only b is already
      freed and only a holds its last reference. */
  lemma FiveHandleRecords(states: map<Id, State>, a: Id, b: Id, c: Id, e: Id)
    requires a in states && b in states && c in states && e in states
    requires states[a].Live? && states[b] == Freed && states[c].Live? && states[e].Live?
    requires states[a] == Live(1) && states[c] != Live(1) && states[e] != Live(1)
    ensures FreedAmong(states, [a, b, c, e]) == [Debug(b, IllegalState)]
    ensures LastHolders(states, [a, b, c, e]) == [a]
  {
    assert [] + [a] == [a] && [a] + [b] == [a, b];
    assert [a, b] + [c] == [a, b, c] && [a, b, c] + [e] == [a, b, c, e];
    FreedAmongSnoc(states, [], a);
    FreedAmongSnoc(states, [a], b);
    FreedAmongSnoc(states, [a, b], c);
    FreedAmongSnoc(states, [a, b, c], e);
    LastHoldersSnoc(states, [], a);
    LastHoldersSnoc(states, [a], b);
    LastHoldersSnoc(states, [a, b], c);
    LastHoldersSnoc(states, [a, b, c], e);
  }

  /** What a sweep records when its handles resolve, in order, to the four
      distinct resources a, b, c and e, with b already freed and a holding
      its last reference. */
  lemma FourResourceRecords(w: World, faults: set<Id>, hs: seq<Handle>, a: Id, b: Id, c: Id, e: Id)
    requires Resolvable(w.states, hs)
    requires LiveIds(hs) == [a, b, c, e] && NoDup(LiveIds(hs))
    requires a in w.states && b in w.states && c in w.states && e in w.states
    requires w.states[a] == Live(1) && w.states[b] == Freed
    requires w.states[c] == Live(2) && w.states[e] == Live(3)
    requires a !in faults && b !in faults && c !in faults && e !in faults
    ensures var r := Sweep(w, faults, hs);
      && r.outcome == Ok(())
      && r.w.attempts == w.attempts + [a, b, c, e]
      && r.w.diagnostics == w.diagnostics + [Debug(b, IllegalState)]
      && r.w.teardowns == w.teardowns + [a]
  {
    FiveHandleRecords(w.states, a, b, c, e);
    SweepDistinct(w, faults, hs);
  }

  /** Where the same sweep leaves each resource. */
  lemma FourResourceStates(w: World, faults: set<Id>, hs: seq<Handle>, a: Id, b: Id, c: Id, e: Id)
    requires Resolvable(w.states, hs)
    requires LiveIds(hs) == [a, b, c, e] && NoDup(LiveIds(hs))
    requires a in w.states && b in w.states && c in w.states && e in w.states
    requires w.states[a] == Live(1) && w.states[b] == Freed
    requires w.states[c] == Live(2) && w.states[e] == Live(3)
    requires a !in faults && b !in faults && c !in faults && e !in faults
    ensures var r := Sweep(w, faults, hs);
      && r.w.states[a] == Freed && r.w.states[b] == Freed
      && r.w.states[c] == Live(1) && r.w.states[e] == Live(2)
      && forall x :: x in w.states && x !in {a, b, c, e} ==> r.w.states[x] == w.states[x]
  {
    SweepCompletes(w, faults, hs);
    SweepReleasesEach(w, faults, hs, a);
    SweepReleasesEach(w, faults, hs, b);
    SweepReleasesEach(w, faults, hs, c);
    SweepReleasesEach(w, faults, hs, e);
    forall x | x in w.states && x !in {a, b, c, e}
      ensures Sweep(w, faults, hs).w.states[x] == w.states[x]
    {
      SweepFrame(w, faults, hs, x);
    }
  }

  /** The five-entry sweep: the second resource already freed, the fourth
      handle collected. Resources a, b, c and e each get one attempt, in
      that order, the fourth entry is skipped, nothing escapes, one record
      is logged, for b, only a is torn down, and every other resource is
      left as it was. */
  lemma FiveHandleSweep(w: World, faults: set<Id>, hs: seq<Handle>, a: Id, b: Id, c: Id, e: Id)
    requires a != b && a != c && a != e && b != c && b != e && c != e
    requires a in w.states && b in w.states && c in w.states && e in w.states
    requires w.states[a] == Live(1) && w.states[b] == Freed
    requires w.states[c] == Live(2) && w.states[e] == Live(3)
    requires a !in faults && b !in faults && c !in faults && e !in faults
    requires |hs| == 5 && hs[0] == Alive(a) && hs[1] == Alive(b) && hs[2] == Alive(c)
    requires hs[3] == Collected && hs[4] == Alive(e)
    ensures Resolvable(w.states, hs)
    ensures var r := Sweep(w, faults, hs);
      && r.outcome == Ok(())
      && r.w.attempts == w.attempts + [a, b, c, e]
      && r.w.diagnostics == w.diagnostics + [Debug(b, IllegalState)]
      && r.w.teardowns == w.teardowns + [a]
      && r.w.states[a] == Freed && r.w.states[b] == Freed
      && r.w.states[c] == Live(1) && r.w.states[e] == Live(2)
      && forall x :: x in w.states && x !in {a, b, c, e} ==> r.w.states[x] == w.states[x]
  {
    FiveHandleIds(w.states, hs, a, b, c, e);
    FourResourceRecords(w, faults, hs, a, b, c, e);
    FourResourceStates(w, faults, hs, a, b, c, e);
  }
}
