/** The reference-counted resources of a program, held in one registry so
    that a resource reached twice by a sweep needs no reasoning about
    aliasing. Each method updates the registry in place as the matching
    Java method updates its resource, and is proved against the functions
    of RefCounting and BulkRelease. */
module Resources {
  import RefCounting
  import opened BulkRelease

  type Id = RefCounting.Id
  type State = RefCounting.State
  type Result<T> = RefCounting.Result<T>

  class Registry {
    /** The lifecycle state of every resource. */
    var states: map<Id, State>
    /** The resources whose own teardown throws an unchecked exception other
        than IllegalStateException when the count reaches zero. */
    const faults: set<Id>
    /** Every release() call made so far, in order. */
    ghost var attempts: seq<Id>
    /** The debug log. */
    ghost var diagnostics: seq<Diagnostic>
    /** The resources whose teardown has run, in order. */
    ghost var teardowns: seq<Id>

    ghost function Snapshot(): World
      reads this
    {
      World(states, attempts, diagnostics, teardowns)
    }

    /** No resource has been torn down twice, and what was torn down is
        freed. */
    ghost predicate Valid()
      reads this
    {
      Sound(Snapshot())
    }

    constructor (initial: map<Id, State>, faults: set<Id>)
      ensures Valid()
      ensures states == initial && this.faults == faults
      ensures attempts == [] && diagnostics == [] && teardowns == []
    {
      states := initial;
      this.faults := faults;
      attempts := [];
      diagnostics := [];
      teardowns := [];
    }

    /** refCount(): the count resource `id` reports, zero once freed; a
        query that changes nothing. */
    function RefCount(id: Id): (n: nat)
      reads this
      requires id in states
      ensures n == 0 <==> states[id].Freed?
      ensures states[id].Live? ==> n == states[id].count
    {
      RefCounting.RefCount(states[id])
    }

    /** reserve() on resource `id`. */
    method Reserve(id: Id) returns (r: Result<()>)
      requires Valid() && id in states
      modifies this
      ensures Valid()
      ensures var st := RefCounting.Reserve(old(states[id]));
        states == old(states)[id := st.next] && r == st.result
      ensures attempts == old(attempts) && diagnostics == old(diagnostics)
      ensures teardowns == old(teardowns)
    {
      match states[id]
      case Live(c) =>
        states := states[id := RefCounting.Live(c + 1)];
        r := RefCounting.Ok(());
      case Freed =>
        r := RefCounting.Err(RefCounting.IllegalState);
    }

    /** tryReserve() on resource `id`: whether a live resource declines is
        left open, and a decline leaves the count unchanged. */
    method TryReserve(id: Id) returns (r: Result<bool>)
      requires Valid() && id in states
      modifies this
      ensures Valid()
      ensures var st := RefCounting.TryReserve(old(states[id]), r == RefCounting.Ok(true));
        states == old(states)[id := st.next] && r == st.result
      ensures attempts == old(attempts) && diagnostics == old(diagnostics)
      ensures teardowns == old(teardowns)
    {
      match states[id]
      case Live(c) =>
        var admit: bool := *;
        if admit {
          states := states[id := RefCounting.Live(c + 1)];
          r := RefCounting.Ok(true);
        } else {
          r := RefCounting.Ok(false);
        }
      case Freed =>
        r := RefCounting.Err(RefCounting.IllegalState);
    }

    /** release() on resource `id`: the release that reaches zero frees
        the resource and runs its teardown, once. */
    method Release(id: Id) returns (r: Result<()>)
      requires Valid() && id in states
      modifies this
      ensures Valid()
      ensures Swept(Snapshot(), r) == ApplyRelease(old(Snapshot()), faults, id)
    {
      attempts := attempts + [id];
      match states[id]
      case Live(c) =>
        if c == 1 {
          states := states[id := RefCounting.Freed];
          teardowns := teardowns + [id];
          r := if id in faults then RefCounting.Err(RefCounting.Unexpected) else RefCounting.Ok(());
        } else {
          states := states[id := RefCounting.Live(c - 1)];
          r := RefCounting.Ok(());
        }
      case Freed =>
        r := RefCounting.Err(RefCounting.IllegalState);
    }

    /** releaseAll(refCounts): releases what each handle still resolves to,
        in list order, logging and swallowing the illegal-state error; any
        other error ends the loop and is returned. */
    method ReleaseAll(handles: seq<Handle>) returns (r: Result<()>)
      requires Valid() && Resolvable(states, handles)
      modifies this
      ensures Valid()
      ensures Sweep(old(Snapshot()), faults, handles) == Swept(Snapshot(), r)
    {
      ghost var w0 := Snapshot();
      r := RefCounting.Ok(());
      var i := 0;
      while i < |handles|
        invariant 0 <= i <= |handles|
        invariant Valid()
        invariant states.Keys == w0.states.Keys
        invariant Sweep(w0, faults, handles[..i]) == Swept(Snapshot(), RefCounting.Ok(()))
      {
        assert handles[..i + 1][..i] == handles[..i];
        if handles[i].Alive? {
          var id := handles[i].id;
          var e := Release(id);
          if e == RefCounting.Err(RefCounting.IllegalState) {
            diagnostics := diagnostics + [Debug(id, RefCounting.IllegalState)];
          } else if e.Err? {
            EscapeIsFinal(w0, faults, handles, i + 1);
            return e;
          }
        }
        i := i + 1;
      }
      assert handles[..i] == handles;
    }

    /** release(o): releases `o` if it is reference counted, logging and
        swallowing the illegal-state error; any other error is returned. */
    method ReleaseObject(o: Obj) returns (r: Result<()>)
      requires Valid() && (o.RC? ==> o.id in states)
      modifies this
      ensures Valid()
      ensures ReleaseAny(old(Snapshot()), faults, o) == Swept(Snapshot(), r)
    {
      r := RefCounting.Ok(());
      match o
      case RC(id) =>
        var e := Release(id);
        if e == RefCounting.Err(RefCounting.IllegalState) {
          diagnostics := diagnostics + [Debug(id, RefCounting.IllegalState)];
        } else {
          r := e;
        }
      case Other =>
    }
  }
}
