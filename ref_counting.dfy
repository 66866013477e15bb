/** The lifecycle every reference-counted resource promises: a positive
    count that each reservation raises by one and each release lowers by
    one, and a terminal freed state reached when the count drops to zero,
    after which every reservation and release fails with an illegal-state
    error. */
module RefCounting {

  /** Identity of a resource, so that a collection can name it twice
      without any reasoning about aliasing. */
  type Id = nat

  /** The count of a live resource: it is never zero, because the release
      that brings it to zero frees the resource. */
  type Count = n: nat | n >= 1 witness 1

  /** `IllegalState` stands for IllegalStateException, the only error the
      contract names; `Unexpected` stands for any other unchecked
      exception that a concrete resource's own teardown may throw. */
  datatype Error = IllegalState | Unexpected

  datatype Result<T> = Ok(value: T) | Err(error: Error)

  datatype State = Live(count: Count) | Freed

  /** What one call does: the state it leaves, what the caller sees, and
      whether the resource's teardown ran during the call. */
  datatype Step<T> = Step(next: State, result: Result<T>, teardown: bool)

  /** The reference count a resource reports; zero exactly when freed. */
  function RefCount(s: State): (n: nat)
    ensures n == 0 <==> s.Freed?
  {
    match s
    case Live(c) => c
    case Freed => 0
  }

  /** reserve(): one more holder, or an illegal-state error once freed. */
  function Reserve(s: State): (st: Step<()>)
    ensures st.result.Ok? <==> s.Live?
    ensures st.result.Err? ==> st.result.error == IllegalState && st.next == s
    ensures s.Live? ==> st.next.Live? && RefCount(st.next) == RefCount(s) + 1
    ensures !st.teardown
  {
    match s
    case Live(c) => Step(Live(c + 1), Ok(()), false)
    case Freed => Step(Freed, Err(IllegalState), false)
  }

  /** tryReserve(): like reserve, except that a live resource may decline
      (`admit` false) and then returns false with its count unchanged.
      When a resource declines is its own business, so it is a parameter. */
  function TryReserve(s: State, admit: bool): (st: Step<bool>)
    ensures st.result.Err? <==> s.Freed?
    ensures st.result.Err? ==> st.result.error == IllegalState && st.next == s
    ensures st.result == Ok(true) <==> s.Live? && admit
    ensures st.result == Ok(true) ==> st.next.Live? && RefCount(st.next) == RefCount(s) + 1
    ensures st.result == Ok(false) ==> st.next == s
    ensures !st.teardown
  {
    match s
    case Live(c) =>
      if admit then Step(Live(c + 1), Ok(true), false) else Step(s, Ok(false), false)
    case Freed => Step(Freed, Err(IllegalState), false)
  }

  /** release(): one holder fewer; the release that reaches zero frees the
      resource and runs its teardown, which throws when `teardownThrows`.
      Releasing a freed resource is an illegal-state error. */
  function Release(s: State, teardownThrows: bool): (st: Step<()>)
    ensures st.result == Err(IllegalState) <==> s.Freed?
    ensures s.Freed? ==> st.next == Freed && !st.teardown
    ensures s.Live? ==> RefCount(st.next) == RefCount(s) - 1
    ensures st.next.Freed? <==> s.Freed? || RefCount(s) == 1
    ensures st.teardown <==> s.Live? && st.next.Freed?
    ensures st.result == Err(Unexpected) <==> st.teardown && teardownThrows
  {
    match s
    case Live(c) =>
      if c == 1 then Step(Freed, if teardownThrows then Err(Unexpected) else Ok(()), true)
      else Step(Live(c - 1), Ok(()), false)
    case Freed => Step(Freed, Err(IllegalState), false)
  }

  /** A call a holder may make on one resource. */
  datatype Op = ReserveOp | TryReserveOp(admit: bool) | ReleaseOp

  function Next(s: State, op: Op): State
  {
    match op
    case ReserveOp => Reserve(s).next
    case TryReserveOp(admit) => TryReserve(s, admit).next
    case ReleaseOp => Release(s, false).next
  }

  /** The call failed with the illegal-state error. */
  predicate Rejected(s: State, op: Op)
  {
    match op
    case ReserveOp => Reserve(s).result == Err(IllegalState)
    case TryReserveOp(admit) => TryReserve(s, admit).result == Err(IllegalState)
    case ReleaseOp => Release(s, false).result == Err(IllegalState)
  }

  predicate TornDown(s: State, op: Op)
  {
    op.ReleaseOp? && Release(s, false).teardown
  }

  /** The state after a sequence of calls. */
  function Run(s: State, ops: seq<Op>): State
    decreases |ops|
  {
    if ops == [] then s else Run(Next(s, ops[0]), ops[1..])
  }

  /** How many of the calls ran the teardown. */
  function Teardowns(s: State, ops: seq<Op>): nat
    decreases |ops|
  {
    if ops == [] then 0
    else (if TornDown(s, ops[0]) then 1 else 0) + Teardowns(Next(s, ops[0]), ops[1..])
  }

  /** How many of the calls failed with the illegal-state error. */
  function Rejections(s: State, ops: seq<Op>): nat
    decreases |ops|
  {
    if ops == [] then 0
    else (if Rejected(s, ops[0]) then 1 else 0) + Rejections(Next(s, ops[0]), ops[1..])
  }

  /** How far a successful call moves the count: up one for a reservation
      that was admitted, down one for a release. */
  function Delta(op: Op): int
  {
    match op
    case ReserveOp => 1
    case TryReserveOp(admit) => if admit then 1 else 0
    case ReleaseOp => -1
  }

  /** The net number of holders a sequence of calls adds. */
  function Net(ops: seq<Op>): int
    decreases |ops|
  {
    if ops == [] then 0 else Delta(ops[0]) + Net(ops[1..])
  }

  function Reserves(k: nat): seq<Op> { seq(k, _ => ReserveOp) }

  function Releases(k: nat): seq<Op> { seq(k, _ => ReleaseOp) }

  /** Freed is terminal: whatever is called afterwards, the resource stays
      freed, every call fails with the illegal-state error, and the
      teardown never runs again. */
  lemma {:induction false} FreedIsTerminal(ops: seq<Op>)
    ensures Run(Freed, ops) == Freed
    ensures Teardowns(Freed, ops) == 0
    ensures Rejections(Freed, ops) == |ops|
    decreases |ops|
  {
    if ops != [] {
      FreedIsTerminal(ops[1..]);
    }
  }

  /** Over any history the teardown runs at most once, and it runs exactly
      when a resource that started live ends freed. */
  lemma {:induction false} TeardownExactlyOnce(s: State, ops: seq<Op>)
    ensures Teardowns(s, ops) == if s.Live? && Run(s, ops).Freed? then 1 else 0
    decreases |ops|
  {
    if ops == [] {
    } else if s.Freed? {
      FreedIsTerminal(ops);
    } else {
      var t := Next(s, ops[0]);
      if t.Freed? {
        FreedIsTerminal(ops[1..]);
      } else {
        TeardownExactlyOnce(t, ops[1..]);
      }
    }
  }

  /** A resource that is still live after a history never rejected a call
      in it. */
  lemma {:induction false} LiveHistoryNeverRejected(s: State, ops: seq<Op>)
    requires Run(s, ops).Live?
    ensures s.Live? && Rejections(s, ops) == 0
    decreases |ops|
  {
    if ops == [] {
    } else if s.Freed? {
      FreedIsTerminal(ops);
    } else {
      LiveHistoryNeverRejected(Next(s, ops[0]), ops[1..]);
    }
  }

  /** While a resource stays live its count is exactly the count it
      started with plus the reservations admitted minus the releases. */
  lemma {:induction false} LiveCountIsNet(s: State, ops: seq<Op>)
    requires Run(s, ops).Live?
    ensures RefCount(Run(s, ops)) == RefCount(s) + Net(ops)
    decreases |ops|
  {
    if ops != [] {
      var t := Next(s, ops[0]);
      LiveHistoryNeverRejected(s, ops);
      LiveHistoryNeverRejected(t, ops[1..]);
      LiveCountIsNet(t, ops[1..]);
    }
  }

  /** Running two histories one after the other. */
  lemma {:induction false} RunAppend(s: State, a: seq<Op>, b: seq<Op>)
    ensures Run(s, a + b) == Run(Run(s, a), b)
    ensures Teardowns(s, a + b) == Teardowns(s, a) + Teardowns(Run(s, a), b)
    ensures Rejections(s, a + b) == Rejections(s, a) + Rejections(Run(s, a), b)
    decreases |a|
  {
    if a == [] {
      assert a + b == b;
    } else {
      assert (a + b)[0] == a[0];
      assert (a + b)[1..] == a[1..] + b;
      RunAppend(Next(s, a[0]), a[1..], b);
    }
  }

  /** k reservations on a live resource raise its count by k. */
  lemma {:induction false} ReservesAdd(n: Count, k: nat)
    ensures Run(Live(n), Reserves(k)) == Live(n + k)
    ensures Teardowns(Live(n), Reserves(k)) == 0
    ensures Rejections(Live(n), Reserves(k)) == 0
    decreases k
  {
    if k > 0 {
      assert Reserves(k)[0] == ReserveOp;
      assert Reserves(k)[1..] == Reserves(k - 1);
      ReservesAdd(n + 1, k - 1);
    }
  }

  /** k releases on a resource holding more than k lower its count by k and
      leave it live. */
  lemma {:induction false} ReleasesSubtract(n: Count, k: nat)
    requires k < n
    ensures Run(Live(n), Releases(k)) == Live(n - k)
    ensures Teardowns(Live(n), Releases(k)) == 0
    ensures Rejections(Live(n), Releases(k)) == 0
    decreases k
  {
    if k > 0 {
      assert Releases(k)[0] == ReleaseOp;
      assert Releases(k)[1..] == Releases(k - 1);
      ReleasesSubtract(n - 1, k - 1);
    }
  }

  /** N reservations followed by N releases bring a live resource back to
      the count it had, still live, with no failure and no teardown. */
  lemma ReserveReleaseBalance(n: Count, k: nat)
    ensures Run(Live(n), Reserves(k) + Releases(k)) == Live(n)
    ensures Teardowns(Live(n), Reserves(k) + Releases(k)) == 0
    ensures Rejections(Live(n), Reserves(k) + Releases(k)) == 0
  {
    RunAppend(Live(n), Reserves(k), Releases(k));
    ReservesAdd(n, k);
    ReleasesSubtract(n + k, k);
  }

  /** Releasing a resource as many times as its count frees it, and the
      teardown runs exactly once on the way. */
  lemma ReleaseToZero(n: Count)
    ensures Run(Live(n), Releases(n)) == Freed
    ensures Teardowns(Live(n), Releases(n)) == 1
    ensures Rejections(Live(n), Releases(n)) == 0
  {
    assert Releases(n) == Releases(n - 1) + [ReleaseOp];
    RunAppend(Live(n), Releases(n - 1), [ReleaseOp]);
    ReleasesSubtract(n, n - 1);
  }
}
