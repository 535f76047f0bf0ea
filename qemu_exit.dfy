/**
 * The test runner's recovery of the kernel's exit code from the emulator's
 * process status.
 *
 * The emulator's `isa-debug-exit` device ends the emulator with status
 * `(value << 1) | 1` for the value the kernel writes to its port. The runner
 * takes the child's exit code (-1 when it has none), and in test mode turns
 * any code above 0x20 back into `(code >> 1) - 0x10`; otherwise the code is
 * passed through.
 */
module QemuExit {
  import opened Wrappers

  /** A Rust `i32`, the type of a process exit code. */
  newtype i32 = x: int | -0x8000_0000 <= x < 0x8000_0000

  /** `exit_status.code().unwrap_or(-1)`: a child stopped by a signal has no code. */
  function ExitCode(status: Option<i32>): (code: i32)
    ensures status.Some? ==> code == status.value
    ensures status.None? ==> code == -1
  {
    match status
    case Some(code) => code
    case None => -1
  }

  /** `>> 1` on an `i32`: an arithmetic shift, which rounds toward negative infinity. */
  function ShiftRight1(x: i32): (r: i32)
    ensures 2 * (r as int) <= x as int <= 2 * (r as int) + 1
  {
    // Dafny's `/` is Euclidean; for the divisor 2 that is the floor, as the shift is.
    ((x as int) / 2) as i32
  }

  /** The decoding at the end of `run_qemu`. */
  function Decode(status: Option<i32>, isTest: bool): (code: i32)
    ensures status.None? ==> code == -1
    ensures !isTest || ExitCode(status) <= 0x20 ==> code == ExitCode(status)
    ensures isTest && ExitCode(status) > 0x20 ==>
      code >= 0 &&
      2 * (code as int + 0x10) <= ExitCode(status) as int <= 2 * (code as int + 0x10) + 1
  {
    var exitCode := ExitCode(status);
    if isTest && exitCode > 0x20 then ShiftRight1(exitCode) - 0x10 else exitCode
  }

  /** The status `isa-debug-exit` gives the emulator for `value`: `(value << 1) | 1`,
      for values whose status still fits an `i32`. */
  function DebugExitStatus(value: nat): (status: i32)
    requires value < 0x4000_0000
    ensures status as int % 2 == 1 && status as int / 2 == value
  {
    (2 * value + 1) as i32
  }

  /** Round trip: a kernel value of at least 0x10 comes back as `value - 0x10`. */
  lemma DecodeRoundTrip(value: nat)
    requires 0x10 <= value < 0x4000_0000
    ensures Decode(Some(DebugExitStatus(value)), true) as int == value - 0x10
  {
    var status := DebugExitStatus(value);
    assert ExitCode(Some(status)) == status;
  }

  /** A kernel value below 0x10 gives a status of at most 0x1f, which the runner
      passes through undecoded. */
  lemma SmallValuePassesThrough(value: nat)
    requires value < 0x10
    ensures Decode(Some(DebugExitStatus(value)), true) as int == 2 * value + 1
  {
    assert ExitCode(Some(DebugExitStatus(value))) == DebugExitStatus(value);
  }

  /** The low bit is discarded: in test mode the statuses 2k and 2k + 1 above 0x20 decode alike. */
  lemma LowBitDiscarded(k: i32)
    requires 0x20 < 2 * k as int && 2 * k as int + 1 < 0x8000_0000
    ensures Decode(Some(2 * k), true) == Decode(Some(2 * k + 1), true)
  {
    var even, odd := Decode(Some(2 * k), true), Decode(Some(2 * k + 1), true);
    assert ExitCode(Some(2 * k)) == 2 * k && ExitCode(Some(2 * k + 1)) == 2 * k + 1;
    assert even as int + 0x10 == k as int;
    assert odd as int + 0x10 == k as int;
  }
}
