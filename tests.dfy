/** `val_peripheral_execute_tests` of val/src/avs_peripherals.c: either skip
    the whole peripheral group, or run its four checks once each, in a fixed
    order, and OR their statuses together. The checks themselves are defined
    outside this file; here they are a `CheckRunner` that answers each check's
    status and records every call. */
module PeripheralTests {
  import opened PeripheralTable

  /** A status word as the source returns it: a 32-bit value combined bitwise. */
  type Status = bv32

  /** The checks of the peripheral group: d001, d002, d003 and m001. */
  datatype Check = D001 | D002 | D003 | M001

  /** The order in which the sequencer invokes the checks. */
  const BATTERY: seq<Check> := [D001, D002, D003, M001]

  /** The consolidated status of one run of the group, where `run(c, numPe)`
      is the status check `c` returns when handed `numPe`. */
  function Consolidated(run: (Check, u32) -> Status, numPe: u32): Status {
    Merge(run(D001, numPe), run(D002, numPe), run(D003, numPe), run(M001, numPe))
  }

  /** The statuses of the four checks, OR-ed together in the order they ran. */
  function Merge(d001: Status, d002: Status, d003: Status, m001: Status): Status {
    ((d001 | d002) | d003) | m001
  }

  /** Every bit any check sets is set in the consolidated status. */
  lemma ConsolidatedKeepsEveryBit(run: (Check, u32) -> Status, numPe: u32, c: Check)
    ensures run(c, numPe) | Consolidated(run, numPe) == Consolidated(run, numPe)
  {
  }

  /** A bit is set in the consolidated status only if some check set it: a
      mask that misses every check's status misses the consolidated status. */
  lemma ConsolidatedHasNoOtherBit(run: (Check, u32) -> Status, numPe: u32, m: Status)
    requires run(D001, numPe) & m == 0 && run(D002, numPe) & m == 0
    requires run(D003, numPe) & m == 0 && run(M001, numPe) & m == 0
    ensures Consolidated(run, numPe) & m == 0
  {
  }

  /** The checks of the group as the sequencer sees them: calling check `c`
      with a PE count yields `outcome(c, numPe)`, and `log` records every call
      in the order it was made. */
  class CheckRunner {
    const outcome: (Check, u32) -> Status
    ghost var log: seq<Check>

    constructor (outcome: (Check, u32) -> Status)
      ensures this.outcome == outcome && log == []
    {
      this.outcome := outcome;
      log := [];
    }

    /** `d001_entry(num_pe)`, `d002_entry(num_pe)`, ... for `c` = D001, D002, ... */
    method Run(c: Check, numPe: u32) returns (s: Status)
      modifies this
      ensures s == outcome(c, numPe) && log == old(log) + [c]
    {
      s := outcome(c, numPe);
      log := log + [c];
    }
  }

  /** The sequencer. `skipTestNum` is the process-wide `g_skip_test_num`,
      `testNumBase` is AVS_PER_TEST_NUM_BASE and `skipStatus` is
      AVS_STATUS_SKIP. `level` is passed by the caller and not consulted. */
  method ExecuteTests(level: u32, numPe: u32, skipTestNum: u32, testNumBase: u32, skipStatus: Status,
                      checks: CheckRunner)
    returns (status: Status)
    modifies checks
    ensures skipTestNum == testNumBase ==> status == skipStatus && checks.log == old(checks.log)
    ensures skipTestNum != testNumBase ==>
              status == Consolidated(checks.outcome, numPe) && checks.log == old(checks.log) + BATTERY
  {
    if skipTestNum == testNumBase {
      return skipStatus;
    }
    var d001 := checks.Run(D001, numPe);
    var d002 := checks.Run(D002, numPe);
    var d003 := checks.Run(D003, numPe);
    var m001 := checks.Run(M001, numPe);
    status := Merge(d001, d002, d003, m001);
  }
}
