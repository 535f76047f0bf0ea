/**
 * The interrupt-masking mutex: a spin lock whose guard also holds an
 * `InterruptGuard`, so that the critical section runs with the CPU's
 * interrupt flag cleared.
 *
 * The state is the core's interrupt-enable flag (class `Cpu`) and each
 * mutex's held bit (class `UninterruptibleMutex`). Every change to either is
 * also appended to a ghost trace of `Effect`s, which is what lets the model
 * state the ORDER of the side effects, such as the guard's field drop order.
 * The live interrupt guards form a ghost stack on the core; its invariant
 * `WellNested` says interrupts stay masked while any guard lives and come
 * back to their earlier value when the last one is dropped.
 */
module UninterruptibleMutex {
  import opened Wrappers

  /** A side effect on the single core, in the order it is performed. */
  datatype Effect = DisableInterrupts | EnableInterrupts | AcquireLock | ReleaseLock

  /** `InterruptGuard`: whether interrupts were enabled when it was created. */
  datatype InterruptGuard = InterruptGuard(wereInterruptsEnabled: bool)

  // ---------------------------------------------------------------------
  // The effects of each operation, and the state they lead to
  // ---------------------------------------------------------------------

  /** `InterruptGuard::new`: disable interrupts only if they were on. */
  function GuardNewEffects(enabled: bool): (effects: seq<Effect>)
    ensures |effects| <= 1 && (effects != [] <==> enabled)
    ensures forall i :: 0 <= i < |effects| ==> effects[i] == DisableInterrupts
  {
    if enabled then [DisableInterrupts] else []
  }

  /** `InterruptGuard::drop`: re-enable interrupts only if they were on at creation. */
  function GuardDropEffects(guard: InterruptGuard): (effects: seq<Effect>)
    ensures |effects| <= 1 && (effects != [] <==> guard.wereInterruptsEnabled)
    ensures forall i :: 0 <= i < |effects| ==> effects[i] == EnableInterrupts
  {
    if guard.wereInterruptsEnabled then [EnableInterrupts] else []
  }

  /** `lock`: the interrupt guard first, then the spin lock. */
  function LockEffects(enabled: bool): (effects: seq<Effect>)
    ensures |effects| == (if enabled then 2 else 1)
    ensures effects[|effects| - 1] == AcquireLock
    ensures forall i :: 0 <= i < |effects| - 1 ==> effects[i] == DisableInterrupts
  {
    GuardNewEffects(enabled) + [AcquireLock]
  }

  /** Dropping an `UninterruptibleMutexGuard`: its fields drop in declaration
      order, `lock` (releasing the spin lock) before `interrupt_guard`. */
  function GuardedUnlockEffects(guard: InterruptGuard): (effects: seq<Effect>)
    ensures |effects| == (if guard.wereInterruptsEnabled then 2 else 1)
    ensures effects[0] == ReleaseLock
    ensures forall i :: 1 <= i < |effects| ==> effects[i] == EnableInterrupts
  {
    [ReleaseLock] + GuardDropEffects(guard)
  }

  /** The interrupt flag after one effect. */
  function InterruptsStep(enabled: bool, e: Effect): bool
  {
    match e
    case DisableInterrupts => false
    case EnableInterrupts => true
    case _ => enabled
  }

  /** The held bit of the mutex after one effect. */
  function LockedStep(locked: bool, e: Effect): bool
  {
    match e
    case AcquireLock => true
    case ReleaseLock => false
    case _ => locked
  }

  /** The interrupt flag after a run of effects. */
  function InterruptsAfter(enabled: bool, effects: seq<Effect>): bool
    decreases |effects|
  {
    if effects == [] then enabled else InterruptsAfter(InterruptsStep(enabled, effects[0]), effects[1..])
  }

  /** The held bit of the mutex after a run of effects. */
  function LockedAfter(locked: bool, effects: seq<Effect>): bool
    decreases |effects|
  {
    if effects == [] then locked else LockedAfter(LockedStep(locked, effects[0]), effects[1..])
  }

  lemma RunOne(enabled: bool, locked: bool, e: Effect)
    ensures InterruptsAfter(enabled, [e]) == InterruptsStep(enabled, e)
    ensures LockedAfter(locked, [e]) == LockedStep(locked, e)
  {
    assert [e][1..] == [];
  }

  lemma {:induction false} InterruptsAfterConcat(enabled: bool, a: seq<Effect>, b: seq<Effect>)
    ensures InterruptsAfter(enabled, a + b) == InterruptsAfter(InterruptsAfter(enabled, a), b)
    decreases |a|
  {
    if a != [] {
      assert (a + b)[0] == a[0] && (a + b)[1..] == a[1..] + b;
      InterruptsAfterConcat(InterruptsStep(enabled, a[0]), a[1..], b);
    } else {
      assert a + b == b;
    }
  }

  lemma {:induction false} LockedAfterConcat(locked: bool, a: seq<Effect>, b: seq<Effect>)
    ensures LockedAfter(locked, a + b) == LockedAfter(LockedAfter(locked, a), b)
    decreases |a|
  {
    if a != [] {
      assert (a + b)[0] == a[0] && (a + b)[1..] == a[1..] + b;
      LockedAfterConcat(LockedStep(locked, a[0]), a[1..], b);
    } else {
      assert a + b == b;
    }
  }

  /** What the body of a critical section may do to the flag and this mutex's held
      bit: nothing, or mask interrupts again. Nested guards taken while interrupts
      are masked perform no interrupt effect at all (`InnerGuardIsInert`). */
  predicate QuietWhileMasked(body: seq<Effect>)
  {
    forall i :: 0 <= i < |body| ==> body[i] == DisableInterrupts
  }

  lemma {:induction false} QuietBodyKeepsState(enabled: bool, locked: bool, body: seq<Effect>, n: nat)
    requires QuietWhileMasked(body) && n <= |body| && !enabled
    ensures !InterruptsAfter(enabled, body[..n]) && LockedAfter(locked, body[..n]) == locked
    decreases n
  {
    if n > 0 {
      assert body[..n] == body[..n - 1] + [body[n - 1]];
      QuietBodyKeepsState(enabled, locked, body, n - 1);
      InterruptsAfterConcat(enabled, body[..n - 1], [body[n - 1]]);
      LockedAfterConcat(locked, body[..n - 1], [body[n - 1]]);
      RunOne(false, locked, body[n - 1]);
    }
  }

  /** `lock`'s effects: the mutex becomes held only at the last one, and by then
      interrupts are masked. */
  lemma LockEffectsRun(enabled: bool, n: nat)
    requires n <= |LockEffects(enabled)|
    ensures LockedAfter(false, LockEffects(enabled)[..n]) <==> n == |LockEffects(enabled)|
    ensures !InterruptsAfter(enabled, LockEffects(enabled))
  {
    var acquire := LockEffects(enabled);
    if enabled {
      assert acquire == [DisableInterrupts] + [AcquireLock];
      RunOne(enabled, false, DisableInterrupts);
      RunOne(false, false, AcquireLock);
      InterruptsAfterConcat(enabled, [DisableInterrupts], [AcquireLock]);
      LockedAfterConcat(false, [DisableInterrupts], [AcquireLock]);
      if n == 1 {
        assert acquire[..n] == [DisableInterrupts];
      } else if n == 2 {
        assert acquire[..n] == acquire;
      }
    } else {
      assert acquire == [AcquireLock];
      RunOne(enabled, false, AcquireLock);
      if n == 1 {
        assert acquire[..n] == acquire;
      }
    }
  }

  /** A guard drop's effects: the mutex is free from the first one on, and the
      flag ends set exactly when the guard recorded it set. */
  lemma GuardedUnlockRun(guard: InterruptGuard, locked: bool, m: nat)
    requires 1 <= m <= |GuardedUnlockEffects(guard)|
    ensures !LockedAfter(locked, GuardedUnlockEffects(guard)[..m])
    ensures InterruptsAfter(false, GuardedUnlockEffects(guard)) == guard.wereInterruptsEnabled
  {
    var release := GuardedUnlockEffects(guard);
    RunOne(false, locked, ReleaseLock);
    if guard.wereInterruptsEnabled {
      assert release == [ReleaseLock] + [EnableInterrupts];
      RunOne(false, false, EnableInterrupts);
      InterruptsAfterConcat(false, [ReleaseLock], [EnableInterrupts]);
      LockedAfterConcat(locked, [ReleaseLock], [EnableInterrupts]);
      if m == 1 {
        assert release[..m] == [ReleaseLock];
      } else {
        assert release[..m] == release;
      }
    } else {
      assert release == [ReleaseLock];
      assert release[..m] == release;
    }
  }

  /**
   * What the mutex exists to guarantee for one critical section: lock, run a body that does
   * not re-enable interrupts, drop the guard. At every point where the mutex
   * is held interrupts are masked, and afterwards the lock is free and the
   * interrupt flag is back at its value before the acquisition.
   */
  lemma CriticalSectionMasked(enabled: bool, body: seq<Effect>)
    requires QuietWhileMasked(body)
    ensures var trace := LockEffects(enabled) + body + GuardedUnlockEffects(InterruptGuard(enabled));
      (forall n :: 0 <= n <= |trace| && LockedAfter(false, trace[..n]) ==> !InterruptsAfter(enabled, trace[..n])) &&
      !LockedAfter(false, trace) && InterruptsAfter(enabled, trace) == enabled
  {
    var acquire, release := LockEffects(enabled), GuardedUnlockEffects(InterruptGuard(enabled));
    var trace := acquire + body + release;
    LockEffectsRun(enabled, |acquire|);
    assert acquire[..|acquire|] == acquire && body[..|body|] == body;
    QuietBodyKeepsState(false, true, body, |body|);
    InterruptsAfterConcat(enabled, acquire, body);
    LockedAfterConcat(false, acquire, body);
    forall n | 0 <= n <= |trace| && LockedAfter(false, trace[..n])
      ensures !InterruptsAfter(enabled, trace[..n])
    {
      if n <= |acquire| {
        assert trace[..n] == acquire[..n];
        LockEffectsRun(enabled, n);
      } else if n <= |acquire| + |body| {
        var m := n - |acquire|;
        assert trace[..n] == acquire + body[..m];
        InterruptsAfterConcat(enabled, acquire, body[..m]);
        QuietBodyKeepsState(false, true, body, m);
      } else {
        var m := n - |acquire| - |body|;
        assert trace[..n] == (acquire + body) + release[..m];
        LockedAfterConcat(false, acquire + body, release[..m]);
        GuardedUnlockRun(InterruptGuard(enabled), true, m);
      }
    }
    assert trace[..|trace|] == trace;
    GuardedUnlockRun(InterruptGuard(enabled), true, |release|);
    assert release[..|release|] == release;
    InterruptsAfterConcat(enabled, acquire + body, release);
    LockedAfterConcat(false, acquire + body, release);
  }

  // ---------------------------------------------------------------------
  // Nested interrupt guards
  // ---------------------------------------------------------------------

  /**
   * The live interrupt guards, outermost first, and the interrupt flag: with
   * no guard the flag is its value outside any critical section; with some,
   * the flag is off, the outermost guard recorded the outside value and every
   * inner one recorded `false`.
   */
  predicate WellNested(enabledOutside: bool, guards: seq<InterruptGuard>, interruptsEnabled: bool)
  {
    if guards == [] then interruptsEnabled == enabledOutside
    else
      !interruptsEnabled && guards[0].wereInterruptsEnabled == enabledOutside &&
      forall i :: 0 < i < |guards| ==> !guards[i].wereInterruptsEnabled
  }

  /** Creating a guard keeps the nesting invariant. */
  lemma GuardNewKeepsNesting(enabledOutside: bool, guards: seq<InterruptGuard>, interruptsEnabled: bool)
    requires WellNested(enabledOutside, guards, interruptsEnabled)
    ensures WellNested(enabledOutside, guards + [InterruptGuard(interruptsEnabled)],
                       InterruptsAfter(interruptsEnabled, GuardNewEffects(interruptsEnabled)))
  {
    var guards' := guards + [InterruptGuard(interruptsEnabled)];
    assert guards'[0].wereInterruptsEnabled == enabledOutside;
    RunOne(interruptsEnabled, false, DisableInterrupts);
  }

  /** Dropping the innermost guard keeps the nesting invariant. */
  lemma GuardDropKeepsNesting(enabledOutside: bool, guards: seq<InterruptGuard>, interruptsEnabled: bool)
    requires WellNested(enabledOutside, guards, interruptsEnabled) && guards != []
    ensures WellNested(enabledOutside, guards[..|guards| - 1],
                       InterruptsAfter(interruptsEnabled, GuardDropEffects(guards[|guards| - 1])))
  {
    RunOne(interruptsEnabled, false, EnableInterrupts);
    var guards' := guards[..|guards| - 1];
    if guards' != [] {
      assert guards'[0] == guards[0];
      assert forall i :: 0 < i < |guards'| ==> guards'[i] == guards[i];
      assert !guards[|guards| - 1].wereInterruptsEnabled;
    }
  }

  /** A guard taken while interrupts are already off records `false` and neither
      its creation nor its drop touches the interrupt flag. */
  lemma InnerGuardIsInert(guards: seq<InterruptGuard>, enabledOutside: bool)
    requires guards != [] && WellNested(enabledOutside, guards, false)
    ensures GuardNewEffects(false) == [] && GuardDropEffects(InterruptGuard(false)) == []
    ensures WellNested(enabledOutside, guards + [InterruptGuard(false)], false)
  {
  }

  /**
   * Nesting in full: take `n` guards one inside the other starting from flag
   * `enabled`, then drop `m` of them innermost first. Interrupts stay off until
   * the outermost guard is dropped, and are back at `enabled` after it.
   */
  lemma {:induction false} NestedGuards(enabled: bool, n: nat, m: nat)
    requires m <= n
    ensures var (guards, flag) := DropInnermost(TakeNested(enabled, n), m);
      |guards| == n - m && WellNested(enabled, guards, flag) &&
      (flag == if m < n then false else enabled)
  {
    TakeNestedWellNested(enabled, n);
    DropInnermostWellNested(enabled, TakeNested(enabled, n), m);
  }

  /** The guard stack and flag after `n` nested `InterruptGuard::new` calls from flag `enabled`. */
  function TakeNested(enabled: bool, n: nat): (state: (seq<InterruptGuard>, bool))
    ensures |state.0| == n
  {
    if n == 0 then ([], enabled)
    else
      var (guards, flag) := TakeNested(enabled, n - 1);
      (guards + [InterruptGuard(flag)], InterruptsAfter(flag, GuardNewEffects(flag)))
  }

  /** The guard stack and flag after dropping the `m` innermost guards, innermost first. */
  function DropInnermost(state: (seq<InterruptGuard>, bool), m: nat): (seq<InterruptGuard>, bool)
    requires m <= |state.0|
    decreases m
  {
    if m == 0 then state
    else
      var (guards, flag) := state;
      DropInnermost((guards[..|guards| - 1], InterruptsAfter(flag, GuardDropEffects(guards[|guards| - 1]))), m - 1)
  }

  lemma {:induction false} TakeNestedWellNested(enabled: bool, n: nat)
    ensures |TakeNested(enabled, n).0| == n
    ensures WellNested(enabled, TakeNested(enabled, n).0, TakeNested(enabled, n).1)
  {
    if n > 0 {
      TakeNestedWellNested(enabled, n - 1);
      var (guards, flag) := TakeNested(enabled, n - 1);
      GuardNewKeepsNesting(enabled, guards, flag);
    }
  }

  lemma {:induction false} DropInnermostWellNested(enabled: bool, state: (seq<InterruptGuard>, bool), m: nat)
    requires m <= |state.0| && WellNested(enabled, state.0, state.1)
    ensures |DropInnermost(state, m).0| == |state.0| - m
    ensures WellNested(enabled, DropInnermost(state, m).0, DropInnermost(state, m).1)
    decreases m
  {
    if m > 0 {
      var (guards, flag) := state;
      GuardDropKeepsNesting(enabled, guards, flag);
      DropInnermostWellNested(enabled, (guards[..|guards| - 1], InterruptsAfter(flag, GuardDropEffects(guards[|guards| - 1]))), m - 1);
    }
  }

  // ---------------------------------------------------------------------
  // The core and the mutex
  // ---------------------------------------------------------------------

  /** The single core: its interrupt-enable flag, the effects performed on it so
      far, the interrupt guards currently alive, the value each live guard is
      owned by (the mutex whose guard holds it), and the flag's value outside
      any critical section. */
  class Cpu {
    var interruptsEnabled: bool
    ghost var trace: seq<Effect>
    ghost var guards: seq<InterruptGuard>
    ghost var owners: seq<object>
    ghost var enabledOutside: bool

    ghost predicate Valid()
      reads this
    {
      |owners| == |guards| && WellNested(enabledOutside, guards, interruptsEnabled)
    }

    constructor (enabled: bool)
      ensures Valid() && interruptsEnabled == enabled && trace == [] && guards == [] && owners == []
    {
      interruptsEnabled := enabled;
      trace := [];
      guards := [];
      owners := [];
      enabledOutside := enabled;
    }

    /** `InterruptGuard::new`: record the flag, then clear it if it was set. The
        new guard is owned by `owner`. */
    method NewInterruptGuard(ghost owner: object) returns (guard: InterruptGuard)
      requires Valid()
      modifies this
      ensures Valid() && enabledOutside == old(enabledOutside)
      ensures guard.wereInterruptsEnabled == old(interruptsEnabled) && !interruptsEnabled
      ensures trace == old(trace) + GuardNewEffects(old(interruptsEnabled))
      ensures guards == old(guards) + [guard] && owners == old(owners) + [owner]
    {
      GuardNewKeepsNesting(enabledOutside, guards, interruptsEnabled);
      var wereInterruptsEnabled := interruptsEnabled;
      if wereInterruptsEnabled {
        interruptsEnabled := false;
        trace := trace + [DisableInterrupts];
      }
      guard := InterruptGuard(wereInterruptsEnabled);
      guards := guards + [guard];
      owners := owners + [owner];
    }

    /** `InterruptGuard::drop` of the innermost live guard: set the flag again
        exactly when it was set at creation, and otherwise leave it alone. */
    method DropInterruptGuard(guard: InterruptGuard, ghost owner: object)
      requires Valid() && guards != [] && guard == guards[|guards| - 1]
      requires owners[|owners| - 1] == owner
      modifies this
      ensures Valid() && enabledOutside == old(enabledOutside)
      ensures interruptsEnabled == (guard.wereInterruptsEnabled || old(interruptsEnabled))
      ensures trace == old(trace) + GuardDropEffects(guard)
      ensures guards == old(guards)[..|old(guards)| - 1] && owners == old(owners)[..|old(owners)| - 1]
      ensures guards == [] ==> interruptsEnabled == enabledOutside
    {
      GuardDropKeepsNesting(enabledOutside, guards, interruptsEnabled);
      if guard.wereInterruptsEnabled {
        interruptsEnabled := true;
        trace := trace + [EnableInterrupts];
      }
      guards := guards[..|guards| - 1];
      owners := owners[..|owners| - 1];
    }
  }

  /** `UninterruptibleMutexGuard`: the spin-lock guard of `lock` and the interrupt guard,
      declared (and so dropped) in that order. */
  datatype UninterruptibleMutexGuard<T> = UninterruptibleMutexGuard(lock: UninterruptibleMutex<T>, interruptGuard: InterruptGuard)

  /** `UninterruptibleMutex`: a protected value and the spin lock's held bit, on one core. */
  class UninterruptibleMutex<T> {
    const cpu: Cpu
    var locked: bool
    var data: T

    /** `UninterruptibleMutex::new`: a free mutex around `value`. */
    constructor (cpu: Cpu, value: T)
      ensures this.cpu == cpu && !locked && data == value
    {
      this.cpu := cpu;
      locked := false;
      data := value;
    }

    /**
     * `lock`: create the interrupt guard, then take the spin lock. The spin is
     * replaced by the requirement that the lock be free: on one core with
     * interrupts masked nothing else could free it.
     */
    method Lock() returns (guard: UninterruptibleMutexGuard<T>)
      requires cpu.Valid() && !locked
      modifies this`locked, cpu
      ensures cpu.Valid() && cpu.enabledOutside == old(cpu.enabledOutside)
      ensures locked && !cpu.interruptsEnabled
      ensures guard.lock == this && guard.interruptGuard.wereInterruptsEnabled == old(cpu.interruptsEnabled)
      ensures cpu.guards == old(cpu.guards) + [guard.interruptGuard] && cpu.owners == old(cpu.owners) + [this]
      ensures cpu.trace == old(cpu.trace) + LockEffects(old(cpu.interruptsEnabled))
    {
      var interruptGuard := cpu.NewInterruptGuard(this);
      locked := true;
      cpu.trace := cpu.trace + [AcquireLock];
      guard := UninterruptibleMutexGuard(this, interruptGuard);
    }

    /**
     * `try_lock`: create the interrupt guard, then try the spin lock once. On
     * success it is `lock`; on failure the guard is dropped at once, so the
     * held bit is untouched and the interrupt flag is back where it was.
     */
    method TryLock() returns (result: Option<UninterruptibleMutexGuard<T>>)
      requires cpu.Valid()
      modifies this`locked, cpu
      ensures cpu.Valid() && cpu.enabledOutside == old(cpu.enabledOutside)
      ensures result.Some? <==> !old(locked)
      ensures result.Some? ==>
        locked && !cpu.interruptsEnabled &&
        result.value.lock == this &&
        result.value.interruptGuard.wereInterruptsEnabled == old(cpu.interruptsEnabled) &&
        cpu.guards == old(cpu.guards) + [result.value.interruptGuard] &&
        cpu.owners == old(cpu.owners) + [this] &&
        cpu.trace == old(cpu.trace) + LockEffects(old(cpu.interruptsEnabled))
      ensures result.None? ==>
        locked && cpu.interruptsEnabled == old(cpu.interruptsEnabled) &&
        cpu.guards == old(cpu.guards) && cpu.owners == old(cpu.owners) &&
        cpu.trace == old(cpu.trace) + GuardNewEffects(old(cpu.interruptsEnabled))
                                    + GuardDropEffects(InterruptGuard(old(cpu.interruptsEnabled)))
    {
      var interruptGuard := cpu.NewInterruptGuard(this);
      if !locked {
        locked := true;
        cpu.trace := cpu.trace + [AcquireLock];
        result := Some(UninterruptibleMutexGuard(this, interruptGuard));
      } else {
        cpu.DropInterruptGuard(interruptGuard, this);
        result := None;
      }
    }

    /** Dropping an `UninterruptibleMutexGuard` of this mutex, the innermost live one,
        which this mutex's `lock` or `try_lock` created (the borrow checker's
        guarantee that a guard cannot be forged or moved to another mutex):
        the spin lock is released first and the interrupt guard dropped second. */
    method Unlock(guard: UninterruptibleMutexGuard<T>)
      requires cpu.Valid() && guard.lock == this
      requires cpu.guards != [] && guard.interruptGuard == cpu.guards[|cpu.guards| - 1]
      requires cpu.owners[|cpu.owners| - 1] == this
      modifies this`locked, cpu
      ensures cpu.Valid() && cpu.enabledOutside == old(cpu.enabledOutside)
      ensures !locked
      ensures cpu.interruptsEnabled == (guard.interruptGuard.wereInterruptsEnabled || old(cpu.interruptsEnabled))
      ensures cpu.guards == old(cpu.guards)[..|old(cpu.guards)| - 1]
      ensures cpu.owners == old(cpu.owners)[..|old(cpu.owners)| - 1]
      ensures cpu.trace == old(cpu.trace) + GuardedUnlockEffects(guard.interruptGuard)
    {
      locked := false;
      cpu.trace := cpu.trace + [ReleaseLock];
      cpu.DropInterruptGuard(guard.interruptGuard, this);
    }

    /** `is_locked`: the held bit; nothing changes. */
    method IsLocked() returns (held: bool)
      ensures held == locked
    {
      held := locked;
    }

    /** `force_unlock`: clear the held bit without touching the interrupt flag. */
    method ForceUnlock()
      modifies this`locked, cpu`trace
      ensures !locked && cpu.trace == old(cpu.trace) + [ReleaseLock]
    {
      locked := false;
      cpu.trace := cpu.trace + [ReleaseLock];
    }

    /** Whether `guard` is a live guard of this mutex: the mutex is held and the
        guard's interrupt guard is on the core's stack, owned by this mutex. */
    ghost predicate HoldsLive(guard: UninterruptibleMutexGuard<T>)
      reads this, cpu
    {
      cpu.Valid() && locked && guard.lock == this &&
      exists i :: 0 <= i < |cpu.guards| && cpu.owners[i] == this && cpu.guards[i] == guard.interruptGuard
    }

    /** `Deref` through a live guard: read the protected value, which happens
        with interrupts masked. */
    method Read(guard: UninterruptibleMutexGuard<T>) returns (value: T)
      requires HoldsLive(guard)
      ensures value == data && !cpu.interruptsEnabled
    {
      value := data;
    }

    /** `DerefMut` through a live guard: change the protected value, nothing
        else, with interrupts masked. */
    method Write(guard: UninterruptibleMutexGuard<T>, update: T -> T)
      requires HoldsLive(guard)
      modifies this`data
      ensures data == update(old(data)) && HoldsLive(guard) && !cpu.interruptsEnabled
    {
      data := update(data);
    }

    /** `get_mut`: exclusive access without locking; it changes the protected
        value and touches neither the held bit nor the interrupt flag. */
    method GetMut(update: T -> T)
      modifies this`data
      ensures data == update(old(data))
    {
      data := update(data);
    }
  }
}
