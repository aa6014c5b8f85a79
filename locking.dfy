/**
 * The `sync.RWMutex` discipline of the two stores, seen from one goroutine. A mutator of
 * either store takes the write lock, changes the list, calls `Save`, and releases the write
 * lock on return. The `main.go` `Save` takes the read lock of the same mutex; the `main-ts.go`
 * `Save` takes none.
 */
module Locking {
  import opened Basics

  /** The mutex: whether a writer holds it, and how many readers do. */
  datatype RWMutex = RWMutex(writer: bool, readers: nat)

  const Unlocked := RWMutex(false, 0)

  /** The lock operations, in the order one call performs them. */
  datatype Step = Lock | Unlock | RLock | RUnlock

  /**
   * One step, or None when it cannot proceed. `Lock` waits for no writer and no reader,
   * `RLock` for no writer; the unlocks need what they release. The only holder in sight is
   * the calling goroutine itself, so a step that waits here waits for ever.
   */
  function Apply(l: RWMutex, step: Step): (r: Option<RWMutex>)
    ensures r.Some? && step == Lock ==> !l.writer && l.readers == 0
    ensures r.Some? && step == RLock ==> !l.writer
  {
    match step
    case Lock => if !l.writer && l.readers == 0 then Some(RWMutex(true, 0)) else None
    case Unlock => if l.writer then Some(l.(writer := false)) else None
    case RLock => if !l.writer then Some(l.(readers := l.readers + 1)) else None
    case RUnlock => if l.readers > 0 then Some(l.(readers := l.readers - 1)) else None
  }

  /** The steps in order; None as soon as one cannot proceed. */
  function Run(l: RWMutex, steps: seq<Step>): Option<RWMutex>
    decreases |steps|
  {
    if steps == [] then Some(l)
    else match Apply(l, steps[0])
      case None => None
      case Some(l') => Run(l', steps[1..])
  }

  /** The steps of a call to `Save`: `RLock`/`RUnlock` when it locks, nothing otherwise. */
  function SaveSteps(saveLocks: bool): seq<Step> {
    if saveLocks then [RLock, RUnlock] else []
  }

  /** A mutator: `Lock`, the change, `Save`, then the deferred `Unlock`. */
  function MutatorSteps(saveLocks: bool): seq<Step> {
    [Lock] + SaveSteps(saveLocks) + [Unlock]
  }

  /**
   * As written in `main.go`, a mutator never returns: its `Save` asks for the read lock
   * while the same call holds the write lock, whatever state the mutex started in.
   */
  lemma {:induction false} AsWrittenMutatorBlocks(l: RWMutex)
    ensures Run(l, MutatorSteps(true)) == None
  {
    var steps := MutatorSteps(true);
    assert steps == [Lock, RLock, RUnlock, Unlock];
    if Apply(l, Lock).Some? {
      var held := Apply(l, Lock).value;
      assert Apply(held, RLock) == None;
      assert steps[1..] == [RLock, RUnlock, Unlock];
      assert Run(held, steps[1..]) == None;
    }
  }

  /**
   * With a `Save` that takes no lock, as in `main-ts.go`, a mutator started on a free
   * mutex returns and leaves it free; on a held one it waits.
   */
  lemma {:induction false} UnlockedSaveMutatorCompletes(l: RWMutex)
    ensures Run(l, MutatorSteps(false)) == (if l == Unlocked then Some(Unlocked) else None)
  {
    var steps := MutatorSteps(false);
    assert steps == [Lock, Unlock];
    assert steps[1..] == [Unlock];
    assert steps[1..][1..] == [];
    if l == Unlocked {
      assert Apply(l, Lock) == Some(RWMutex(true, 0));
      assert Apply(RWMutex(true, 0), Unlock) == Some(Unlocked);
    }
  }

  /** `Save` on its own, as at start-up in `main.go`, takes and gives back the read lock. */
  lemma {:induction false} SaveAloneCompletes(l: RWMutex)
    requires !l.writer
    ensures Run(l, SaveSteps(true)) == Some(l)
  {
    var steps := SaveSteps(true);
    assert steps[1..] == [RUnlock];
    assert steps[1..][1..] == [];
  }
}
