# Peripheral descriptor registry

A Dafny model of the peripheral registry of the SBSA architecture compliance
suite's validation layer (`val/src/avs_peripherals.c`). The platform layer fills
a table of the platform's USB, SATA and UART controllers. The table is a header
with three counts, and then descriptor rows ended by a row of type `0xFF`. On
top of that table the registry offers:

- `val_peripheral_get_entry_index`: maps a peripheral type and a zero-based
  instance number to a row index, or `0xFF` when there is no such row;
- `val_peripheral_get_info`: the query entry point, a `switch` over the query
  kind. The count kinds read the header. The per-peripheral kinds resolve a row
  and read one of its fields;
- `val_peripheral_execute_tests`: either skips the peripheral group, or runs its
  four checks in order and ORs their statuses;
- `val_peripheral_create_info_table` / `val_peripheral_free_info_table`: bind
  the global table pointer to caller memory that the platform layer fills, and
  hand that memory back.

Modules:

- `PeripheralTable` (`table.dfy`): the table as a value. It gives the
  well-formedness the resolver needs, and the resolver's specification
  `EntryIndex`. That specification is the recursive `Scan`, and lemmas tie it to
  per-type counting.
- `PeripheralInfo` (`info.dfy`): `GetInfo`, the dispatcher as written. Each
  failing arm falls through to the next `case`, and SATA_BDF resolves a USB row.
  Lemmas give the fall-through's closed form. `GetInfoIntended` is the
  dispatcher the code evidently meant; it appears under Findings.
- `PeripheralTests` (`tests.dfy`): the sequencer.
- `PeripheralRegistry` (`registry.dfy`): the global pointer as a class
  `Registry`. It holds the create and free methods and `GetEntryIndex`, the
  resolver's loop over the table's row array. `PeripheralInfoTable` is the
  caller-allocated memory. `Scenario` is an end-to-end run over a small
  platform.

The type codes `PERIPHERAL_TYPE_USB/SATA/UART`, `AVS_STATUS_SKIP` and
`AVS_PER_TEST_NUM_BASE` are defined in headers that are not part of this model.
They are parameters: `TypeCodes` for the type codes, plain values for the rest.
The counterexamples assume only that the three type codes differ from each other
and from `0xFF`. The skip switch `g_skip_test_num` is a parameter too.

Three behaviours of the code shape the model:

- `val_peripheral_free_info_table` frees the memory but does not set the table
  pointer to NULL (`val/src/avs_peripherals.c:200`). After a free, the NULL
  check of `val_peripheral_get_info` (`:99`) no longer guards anything.
- When a per-peripheral lookup fails, its `case` arm has no `break`, so the
  query falls through to the next arm (`val/src/avs_peripherals.c:109-152`).
- The SATA_BDF arm resolves its row with PERIPHERAL_TYPE_USB
  (`val/src/avs_peripherals.c:138`).

## Model

| member | source | states |
|---|---|---|
| `PeripheralTable.Scan` | val/src/avs_peripherals.c:72-81 | the scan from row `i` stops at the first terminator: it answers NOT_FOUND or the index of a row of the requested type between `i` and the first terminator |
| `PeripheralTable.ScanCounts` | val/src/avs_peripherals.c:72-82 | the scan from row `i` finds a row exactly when more than `instance` rows of the type lie between `i` and the first terminator; the row it finds has exactly `instance` rows of that type between `i` and itself |
| `PeripheralTable.EntryIndex` | val/src/avs_peripherals.c:67-83 | the resolver answers NOT_FOUND exactly when at most `instance` rows of the type come before the first terminator; otherwise it answers an index before the first terminator, of a row of that type, with exactly `instance` rows of that type before it |
| `PeripheralTable.EntryIndexFindsMatch` | val/src/avs_peripherals.c:72-77 | converse: the row before the terminator that has the type and exactly `instance` rows of that type before it is the row the resolver returns |
| `PeripheralTable.TerminatorTypeNeverResolves` | val/src/avs_peripherals.c:72-73 | resolving type `0xFF` always answers NOT_FOUND, because the loop stops at the first terminator before it compares types |
| `PeripheralRegistry.Registry.GetEntryIndex` | val/src/avs_peripherals.c:67-83 | the in-place loop over the table's row array, with its cursor and its count-down of `instance`, returns what `EntryIndex` specifies; it needs a non-NULL, live, terminated table |
| `PeripheralInfo.GetInfo` | val/src/avs_peripherals.c:94-157 | a NULL table answers 0 for every kind and instance; NUM_USB, NUM_SATA and NUM_UART answer the header's counts; an unrecognised kind answers 0 |
| `PeripheralInfo.CountsIgnoreRowsAndInstance` | val/src/avs_peripherals.c:103-108 | the count queries depend on the header alone, not on the rows or the instance |
| `PeripheralInfo.FallThroughFirstHit` | val/src/avs_peripherals.c:109-156 | entering the `switch` at an arm answers the field of the first arm, in textual order from there, whose lookup succeeds, and 0 when none from there on succeeds |
| `PeripheralInfo.OwnArmHit` | val/src/avs_peripherals.c:109-152 | when an arm's own lookup succeeds it answers its own field of the resolved row (USB_BASE0 base0, SATA_BASE1 base1, UART_GSIV irq, ...); SATA_BDF answers the bdf of the resolved USB row |
| `PeripheralInfo.OwnArmMiss` | val/src/avs_peripherals.c:109-156 | when an arm's own lookup fails it answers what the textually next arm answers, and a failed UART_FLAGS lookup answers 0 |
| `PeripheralInfo.UsbMissSkipsUsbArms` | val/src/avs_peripherals.c:109-144 | with no USB row for the instance, every USB kind answers what SATA_BASE0 answers, and SATA_BDF answers what UART_BASE0 answers |
| `PeripheralInfo.SataMissReachesSataBdf` | val/src/avs_peripherals.c:125-140 | with no SATA row for the instance, SATA_BASE0, SATA_BASE1 and SATA_FLAGS answer what SATA_BDF (a USB lookup) answers |
| `PeripheralInfo.UartMissIsZero` | val/src/avs_peripherals.c:141-156 | with no UART row for the instance, every UART kind answers 0 |
| `PeripheralInfo.OutOfRangeEverywhereIsZero` | val/src/avs_peripherals.c:109-156 | a per-peripheral query answers 0 when the instance is beyond the rows of all three peripheral types |
| `PeripheralInfo.GetInfoIntended` | val/src/avs_peripherals.c:94-157 | corrected dispatcher: same NULL, count and default answers as the source |
| `PeripheralInfo.IntendedArmIsSelfContained` | val/src/avs_peripherals.c:109-152 | corrected dispatcher: each arm answers its field of the `instance`-th row of the type it is named after, and 0 when there is no such row |
| `PeripheralInfo.WrittenAgreesWithIntendedOnHit` | val/src/avs_peripherals.c:109-152 | wherever the source's arm finds its own row, the source and the corrected dispatcher agree, for every kind but SATA_BDF |
| `PeripheralInfo.MissingBreakLeaksSataRow` | val/src/avs_peripherals.c:109-128 | the source's USB_BASE0 query, on a table with no USB row and one SATA row at 0x3000, answers 0x3000; the corrected dispatcher answers 0 |
| `PeripheralInfo.SataBdfReadsUsbRow` | val/src/avs_peripherals.c:137-140 | the source's SATA_BDF query, on a table with USB 0 (bdf 1) and SATA 0 (bdf 2), answers 1; the corrected dispatcher answers 2 |
| `PeripheralTests.CheckRunner.Run` | val/src/avs_peripherals.c:44-47 | one call of a check (`d001_entry(num_pe)`, ...): it answers that check's status for the PE count and appends the check to the record of calls made |
| `PeripheralTests.ExecuteTests` | val/src/avs_peripherals.c:33-53 | when the skip switch equals the group's base number, it answers SKIP and calls no check; otherwise it calls d001, d002, d003 and m001 exactly once each, in that order, and answers the bitwise OR of their four statuses |
| `PeripheralTests.ConsolidatedKeepsEveryBit` | val/src/avs_peripherals.c:44-47 | every bit set by any check's status is set in the consolidated status |
| `PeripheralTests.ConsolidatedHasNoOtherBit` | val/src/avs_peripherals.c:44-47 | a mask that misses the status of all four checks misses the consolidated status |
| `PeripheralRegistry.Registry.constructor` | val/src/avs_peripherals.c:22 | at start the global table pointer is NULL, so queries see no table |
| `PeripheralRegistry.Registry.CreateInfoTable` | val/src/avs_peripherals.c:176-191 | the global pointer then names the caller's memory, the memory holds what the platform layer produced, and queries see exactly that table |
| `PeripheralRegistry.Registry.FreeInfoTable` | val/src/avs_peripherals.c:197-201 | the memory is released and the global pointer keeps its old value (it is not set to NULL); it must not be called again on memory already released, which would free the same pointer twice |
| `PeripheralRegistry.Scenario` | val/src/avs_peripherals.c:94-157 | with one USB controller (base 0x1000) and one UART (interrupt 7): a query before creation answers 0; after creation USB 0 resolves to row 0, USB 1 is not found, USB_BASE0 answers 0x1000, UART_GSIV answers 7 and NUM_SATA answers 0 |

## Findings

| source | as written | input that shows it | evidently intended | confidence | as-written member | corrected member |
|---|---|---|---|---|---|---|
| val/src/avs_peripherals.c:109-152 | the per-peripheral `case` arms end without `break`, so a failed lookup runs into the next arm | a table with no USB row and one SATA row at base 0x3000; query USB_BASE0, instance 0 | a failed lookup answers 0 | high; not executed | `PeripheralInfo.MissingBreakLeaksSataRow` | `PeripheralInfo.IntendedArmIsSelfContained` |
| val/src/avs_peripherals.c:138 | the SATA_BDF arm resolves with PERIPHERAL_TYPE_USB | a table with USB 0 (bdf 1) and SATA 0 (bdf 2); query SATA_BDF, instance 0 | SATA_BDF reads the SATA row's bdf | high; not executed | `PeripheralInfo.SataBdfReadsUsbRow` | `PeripheralInfo.IntendedArmIsSelfContained` |

Both corrections live in `PeripheralInfo.GetInfoIntended`. The registry's queries
and `PeripheralRegistry.Scenario` keep `GetInfo`, because that is what callers of
the source observe. `PeripheralInfo.WrittenAgreesWithIntendedOnHit` states where
the two coincide.

## Left out

- `PeripheralRegistry.Registry.GetEntryIndex`: the source never initialises the
  scan cursor `i` (`val/src/avs_peripherals.c:70`). Its doc comment implies row
  0, so the scan starts there. Reading an uninitialised cursor cannot be
  modelled.
- `PeripheralTable.EntryIndex`, `PeripheralRegistry.Registry.GetEntryIndex`:
  these require a terminator row at index 255 or lower. The source has no
  guard. Without a terminator its scan runs off the table, and a match at index
  255 could not be told apart from "not found". Every row before such a
  terminator has an index of 254 or lower.
- `PeripheralInfo.GetInfo`: per-peripheral kinds require that same table
  shape. They call the resolver, which needs it. The NULL check and the count
  kinds need nothing.
- `PeripheralRegistry.Registry.View`: queries after `FreeInfoTable` read
  released memory, which is undefined behaviour. The model gives no view of a
  released table and says nothing about what such queries return. It proves
  only that the pointer stays non-NULL, so the NULL check no longer protects.
- `pal_peripheral_create_info_table` (`val/src/avs_peripherals.c:182`): the
  platform layer is the `produced` parameter of `CreateInfoTable`. That
  parameter is the table it writes, one row per row of the caller's memory.
- `pal_mem_free` (`val/src/avs_peripherals.c:200`) is modelled only as the
  ghost flag `released`. Memory deallocation itself is not modelled.
- The reinterpretation of the caller's `uint64_t *` buffer as a table
  (`val/src/avs_peripherals.c:180`) is not modelled. The memory is a class with
  a header and an array of rows; the raw byte layout is left out.
- The `val_print` calls (`val/src/avs_peripherals.c:40`, `:50`, `:184-189`)
  are left out: they are logging. That includes the summary of the three counts
  that creation prints and the failure notice of the sequencer.
- `PeripheralTests.ExecuteTests`: `d001_entry`, `d002_entry`, `d003_entry` and
  `m001_entry` are defined elsewhere. They are the `CheckRunner` object. Its
  `outcome` gives each check's status for a PE count, and its ghost `log`
  records the calls. Their own effects are not modelled. The `level` argument
  is accepted and, as in the source, unused.
- `PeripheralRegistry.Registry.FreeInfoTable`: a second free of memory already
  released passes the same pointer to `pal_mem_free` twice, which is undefined
  behaviour. The method requires that this does not happen.
- `PeripheralTests.ConsolidatedHasNoOtherBit`: no claim that a FAIL status
  dominates the result. That depends on the bit patterns of the `AVS_STATUS_*`
  constants, which are not part of this model. The lemmas state the bitwise
  facts that hold for any patterns.
- Field widths: the widths of the descriptor row's fields are not part of this
  model. Every value field is taken as 64-bit, the width of the query's result;
  type tags and instances are 32-bit.
- Repeated queries on an unchanged table give equal answers. This holds by
  construction, because `GetInfo` is a function of the table. No lemma states
  it.
