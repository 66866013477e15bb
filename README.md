# Reference counting in Chronicle Core

This is a Dafny model of the deprecated `net.openhft.chronicle.core.ReferenceCounted` interface. It has three parts:

- **The lifecycle contract.** The interface's doc-comments promise it for every reference-counted resource:
  - `reserve()` adds one holder;
  - `tryReserve()` adds one holder or declines;
  - `release()` removes one holder;
  - `refCount()` reports the count.
  
  Once the count has reached zero the resource is freed. From then on, `reserve`, `tryReserve` and `release` each throw `IllegalStateException`.
- **The two static helpers.**
  - `releaseAll` walks a list of weak references. It releases every resource that is still reachable. It logs and swallows `IllegalStateException`.
  - `release(Object)` does the same for a single object, if that object is reference counted.
- **An imperative registry.** It holds resources by identity. Its methods change each resource's state in place, the way the Java calls do. Each method is proved against the functions above.

Modules:

- `RefCounting` (`ref_counting.dfy`):
  - the state of one resource: `Live(count)` with `count >= 1`, or `Freed`;
  - one pure function per call, returning the next state, the result, and whether the resource's teardown ran;
  - lemmas about any history of calls.
- `BulkRelease` (`bulk_release.dfy`):
  - the two helpers, as functions over a `World`. A `World` holds the state of every resource plus ghost records of the release attempts, the debug log and the teardowns run;
  - lemmas on what a sweep does: its attempts, its log records, its effect on each resource, and how errors escape.
- `Resources` (`registry.dfy`):
  - the class `Registry`, whose fields are updated in place;
  - `ReleaseAll` is a `while` loop, proved against `BulkRelease.Sweep`.

Errors are values: `Result<T> = Ok(value) | Err(error)`.

- `IllegalState` stands for `IllegalStateException`.
- `Unexpected` stands for any other unchecked exception that a concrete resource's teardown may throw when its count reaches zero.
- The set `faults` says which resources throw `Unexpected` on teardown. The interface leaves teardown to the implementor, so the model takes this set as a parameter.

Both helpers catch only `IllegalStateException`, so an `Unexpected` error escapes them:

- in `releaseAll` it ends the loop, and the remaining entries are not visited;
- in `release(Object)` it is returned to the caller.

The model follows the code here. A reading of `release(Object)` as "never throws" holds only for `IllegalStateException`.

## Model

| member | source | states |
|---|---|---|
| RefCounting.RefCount | src/main/java/net/openhft/chronicle/core/ReferenceCounted.java:68-73 | The reported count is zero exactly when the resource has been freed. |
| RefCounting.Reserve | src/main/java/net/openhft/chronicle/core/ReferenceCounted.java:36-44 | Succeeds exactly on a live resource and raises its count by one. On a freed resource it fails with the illegal-state error and changes nothing. It never runs the teardown. |
| RefCounting.TryReserve | src/main/java/net/openhft/chronicle/core/ReferenceCounted.java:46-56 | Fails with the illegal-state error exactly when the resource is freed. Returns true exactly when the resource is live and admits the reservation, and the count then rises by one. Returns false with the state unchanged otherwise. |
| RefCounting.Release | src/main/java/net/openhft/chronicle/core/ReferenceCounted.java:58-66 | Fails with the illegal-state error exactly when the resource is freed, and the state is then unchanged. Otherwise it lowers the count by one. The resource ends freed exactly when its count was one, and only that call runs the teardown. A teardown that throws is the only source of the other error. |
| RefCounting.FreedIsTerminal | src/main/java/net/openhft/chronicle/core/ReferenceCounted.java:41-42 | After being freed a resource stays freed under any further calls. Every call fails with the illegal-state error, and the teardown never runs again. |
| RefCounting.TeardownExactlyOnce | src/main/java/net/openhft/chronicle/core/ReferenceCounted.java:30 | Over any history, the teardown runs once if the resource started live and ended freed, and never otherwise. |
| RefCounting.LiveHistoryNeverRejected | src/main/java/net/openhft/chronicle/core/ReferenceCounted.java:41-42 | A resource still live after a history started live, and none of the calls in the history failed. |
| RefCounting.LiveCountIsNet | src/main/java/net/openhft/chronicle/core/ReferenceCounted.java:39 | While live, the count equals the starting count plus admitted reservations minus releases. |
| RefCounting.RunAppend | src/main/java/net/openhft/chronicle/core/ReferenceCounted.java:36-66 | Running two histories in a row equals running their concatenation. Teardowns and failures add up. |
| RefCounting.ReservesAdd | src/main/java/net/openhft/chronicle/core/ReferenceCounted.java:39 | k reservations raise a live count by exactly k, with no failure and no teardown. |
| RefCounting.ReleasesSubtract | src/main/java/net/openhft/chronicle/core/ReferenceCounted.java:61 | k releases on a count above k lower it by exactly k and leave the resource live. |
| RefCounting.ReserveReleaseBalance | src/main/java/net/openhft/chronicle/core/ReferenceCounted.java:36-66 | k reservations followed by k releases restore the count. The resource stays live, with no failure and no teardown. |
| RefCounting.ReleaseToZero | src/main/java/net/openhft/chronicle/core/ReferenceCounted.java:30 | Releasing as many times as the count frees the resource. The teardown runs exactly once, and no call fails. |
| BulkRelease.ApplyRelease | src/main/java/net/openhft/chronicle/core/ReferenceCounted.java:58-66 | One release() in a world of resources. It changes only that resource's state, as `Release` does. It records one attempt. It appends the resource to the teardown record exactly when this release takes the count from one to zero. It keeps every torn-down resource freed and never tears one down twice. |
| BulkRelease.ReleaseOnce | src/main/java/net/openhft/chronicle/core/ReferenceCounted.java:82-86 | The try/catch around one release(). On a freed resource it returns normally, logs exactly one debug record and changes no state. On a live one it lowers the count by one. It records a teardown exactly when the count was one. An error escapes only when the count was one and the teardown throws, and that error is never the illegal-state one. |
| BulkRelease.Visit | src/main/java/net/openhft/chronicle/core/ReferenceCounted.java:77-81 | A null entry or a collected weak reference is skipped: no attempt, no record, no change. A reference that resolves is released inside the try/catch. |
| BulkRelease.Sweep | src/main/java/net/openhft/chronicle/core/ReferenceCounted.java:76-89 | releaseAll keeps the set of resources. It only appends to the attempts and to the debug log. The only error that can escape it is the non-illegal-state one. It keeps teardowns unique and torn-down resources freed. |
| BulkRelease.LiveIdsMembers | src/main/java/net/openhft/chronicle/core/ReferenceCounted.java:78-81 | A resource is among those the list resolves to exactly when some entry's weak reference still yields it. |
| BulkRelease.ReleaseAny | src/main/java/net/openhft/chronicle/core/ReferenceCounted.java:96-105 | A non-reference-counted object is left alone. Otherwise it makes exactly one attempt, and the resource's new state is what `RefCounting.Release` gives. The old log is kept, and one illegal-state record for that resource is appended exactly when it was already freed. A teardown is recorded exactly when the count was one. An error escapes exactly when the count was one and the teardown throws. So a resource already at zero gets one record and nothing is thrown. The illegal-state error never escapes, and teardowns stay unique. |
| BulkRelease.ReleaseAnyIsSweepOfOne | src/main/java/net/openhft/chronicle/core/ReferenceCounted.java:96-105 | release(o) on a reference-counted object does exactly what releaseAll does on a one-entry list resolving to it. |
| BulkRelease.ReleaseAnyTwice | src/main/java/net/openhft/chronicle/core/ReferenceCounted.java:99-103 | Releasing the last reference twice: the first call frees the resource and runs its teardown. The second is logged once and swallowed, changing no state and running no teardown. |
| BulkRelease.EscapeIsFinal | src/main/java/net/openhft/chronicle/core/ReferenceCounted.java:82-86 | Once an uncaught error escapes at some entry, no later entry of the list is looked at. |
| BulkRelease.SweepAttempts | src/main/java/net/openhft/chronicle/core/ReferenceCounted.java:77-83 | The release attempts are, in list order, a prefix of the resolvable entries' resources. They are all of them when nothing escapes. |
| BulkRelease.SweepFrame | src/main/java/net/openhft/chronicle/core/ReferenceCounted.java:76-89 | A resource that no entry resolves to is left unchanged. |
| BulkRelease.SweepDiagnostics | src/main/java/net/openhft/chronicle/core/ReferenceCounted.java:84-85 | Over distinct resources, the log gains one record per attempted resource that was already freed, in order, and nothing else. |
| BulkRelease.SweepTeardowns | src/main/java/net/openhft/chronicle/core/ReferenceCounted.java:30 | Over distinct resources, the sweep records a teardown for exactly the attempted resources whose count was one, in the order it reached them, and for nothing else. |
| BulkRelease.SweepCompletes | src/main/java/net/openhft/chronicle/core/ReferenceCounted.java:84-86 | When no reached resource's teardown throws, releaseAll returns normally: illegal-state failures never stop it. |
| BulkRelease.SweepEscape | src/main/java/net/openhft/chronicle/core/ReferenceCounted.java:82-86 | An escaping error comes from the last attempt, on a resource whose teardown throws. That resource is now freed, and its teardown is the last one recorded, so that attempt is the one that freed it. |
| BulkRelease.SweepReleasesEach | src/main/java/net/openhft/chronicle/core/ReferenceCounted.java:76-89 | Over distinct resources, a completed releaseAll releases each reached resource exactly once and leaves all others untouched. |
| BulkRelease.SweepDistinct | src/main/java/net/openhft/chronicle/core/ReferenceCounted.java:76-89 | Over distinct resources with no throwing teardown: it completes, makes one attempt per resolvable entry in order, and logs exactly the already-freed ones. It tears down exactly the reached resources that held their last reference, in list order. Each resource is released once if reached and is otherwise untouched. |
| BulkRelease.FiveHandleSweep | src/main/java/net/openhft/chronicle/core/ReferenceCounted.java:76-89 | Five entries: live(1), freed, live(2), collected, live(3). They give attempts on the four resources in order, one record for the freed one, and a teardown of the first resource only. The states end freed, freed, live(1), live(2), and nothing else changes. |
| Resources.Registry.constructor | src/main/java/net/openhft/chronicle/core/ReferenceCounted.java:29-34 | A registry of the given resources, with empty histories, consistent from the start. |
| Resources.Registry.RefCount | src/main/java/net/openhft/chronicle/core/ReferenceCounted.java:68-73 | The count of a resource in the registry: its live count, zero exactly when freed. |
| Resources.Registry.Reserve | src/main/java/net/openhft/chronicle/core/ReferenceCounted.java:36-44 | Updates that one resource in place as `RefCounting.Reserve` says, and returns its result. Nothing else changes. |
| Resources.Registry.TryReserve | src/main/java/net/openhft/chronicle/core/ReferenceCounted.java:46-56 | Updates that one resource in place as `RefCounting.TryReserve` says for the admission it chose, and returns its result. Nothing else changes. |
| Resources.Registry.Release | src/main/java/net/openhft/chronicle/core/ReferenceCounted.java:58-66 | The new registry and result are exactly `BulkRelease.ApplyRelease` of the old one. Registry consistency is preserved. |
| Resources.Registry.ReleaseAll | src/main/java/net/openhft/chronicle/core/ReferenceCounted.java:76-89 | The loop leaves the registry, and returns the result, exactly as `BulkRelease.Sweep` of the old registry. Registry consistency is preserved. |
| Resources.Registry.ReleaseObject | src/main/java/net/openhft/chronicle/core/ReferenceCounted.java:96-105 | Leaves the registry, and returns the result, exactly as `BulkRelease.ReleaseAny` of the old registry. Registry consistency is preserved. |

## Left out

- **Logging.** SLF4J logging is modelled as a ghost list of debug records, one per caught error. The logger's configuration and the exception object's text are not modelled.
- **Weak references and the garbage collector.** These are not modelled. A list entry is given already resolved: null, collected, or a resource.
- **Concurrency.** Thread safety and the atomicity of the count are not modelled. Each call is one indivisible step.
- **Teardown.** What a concrete resource does when freed is not part of this interface. The model records that teardown ran, and whether it throws (the `faults` set).
- **A teardown that throws `IllegalStateException`.** Not modelled: a resource's own teardown can throw only `Unexpected`. In Java, an `IllegalStateException` from the teardown of the releasing call would also be caught and logged. The log clauses of `BulkRelease.ReleaseOnce`, `BulkRelease.ReleaseAny`, `BulkRelease.SweepDiagnostics` and `BulkRelease.SweepDistinct` depend on this. They state one record per already-freed resource and nothing else, and would gain one record per such teardown.
- **Which exceptions are caught.** Only `IllegalStateException` is distinguished. Every other unchecked exception, and every `Error`, is the single `Unexpected` value.
- **`long` overflow.** The count is an unbounded natural, so wrap-around of the `long` count is not modelled.
- **`instanceof`.** The test is a two-case datatype: a reference-counted resource, or another object.
- **Annotations and `@deprecated`.** `@NotNull`, `@Nullable` and the `@deprecated` tag carry no behaviour and are left out.
- **When `tryReserve()` declines.** The interface does not say. `RefCounting.TryReserve` takes the decision as a parameter, and `Resources.Registry.TryReserve` makes it nondeterministically.
- **Aliasing.** Resources are held by identity in one registry, not as separate objects. Two handles to the same resource are two entries with the same id.
- `BulkRelease.SweepDiagnostics`, `BulkRelease.SweepTeardowns`, `BulkRelease.SweepReleasesEach` and `BulkRelease.SweepDistinct` require the handles to resolve to distinct resources. With duplicates, a later release sees the state an earlier one left. `Sweep` and `Registry.ReleaseAll` still model that case exactly, but these four lemmas do not describe it.
