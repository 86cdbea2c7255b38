/** `val_peripheral_get_info` of val/src/avs_peripherals.c: one query entry
    point over the current table. The per-peripheral arms of its `switch` end
    without `break`, so an arm whose lookup fails runs on into the next arm.
    `GetInfo` models that as written; `GetInfoIntended` is the dispatcher the
    source evidently meant (each arm self-contained, SATA_BDF resolving a SATA
    row), kept beside it to state the two discrepancies. */
module PeripheralInfo {
  import opened PeripheralTable

  /** The values of PERIPHERAL_INFO_e the dispatcher knows, and every other value. */
  datatype InfoKind =
    | NumUsb | NumSata | NumUart
    | UsbBase0 | UsbFlags | UsbGsiv | UsbBdf
    | SataBase0 | SataBase1 | SataFlags | SataBdf
    | UartBase0 | UartGsiv | UartFlags
    | Unrecognised
  {
    /** The kinds answered from a row rather than from the header. */
    predicate PerPeripheral() {
      !(NumUsb? || NumSata? || NumUart? || Unrecognised?)
    }
  }

  /** The per-peripheral `case` labels in the order they appear in the `switch`:
      the order in which a failing arm falls through. */
  const ARMS: seq<InfoKind> :=
    [UsbBase0, UsbFlags, UsbGsiv, UsbBdf,
     SataBase0, SataBase1, SataFlags, SataBdf,
     UartBase0, UartGsiv, UartFlags]

  /** Position of a per-peripheral kind's arm in the `switch`. */
  function ArmIndex(k: InfoKind): (p: nat)
    requires k.PerPeripheral()
    ensures p < |ARMS| && ARMS[p] == k
  {
    match k
    case UsbBase0 => 0
    case UsbFlags => 1
    case UsbGsiv => 2
    case UsbBdf => 3
    case SataBase0 => 4
    case SataBase1 => 5
    case SataFlags => 6
    case SataBdf => 7
    case UartBase0 => 8
    case UartGsiv => 9
    case UartFlags => 10
  }

  /** The peripheral type each arm passes to the resolver, as written: the
      SATA_BDF arm passes PERIPHERAL_TYPE_USB. */
  function WrittenOwner(codes: TypeCodes, k: InfoKind): u32
    requires k.PerPeripheral()
  {
    match k
    case UsbBase0 | UsbFlags | UsbGsiv | UsbBdf => codes.usb
    case SataBase0 | SataBase1 | SataFlags => codes.sata
    case SataBdf => codes.usb
    case UartBase0 | UartGsiv | UartFlags => codes.uart
  }

  /** The peripheral type each arm is named after. */
  function IntendedOwner(codes: TypeCodes, k: InfoKind): u32
    requires k.PerPeripheral()
  {
    match k
    case UsbBase0 | UsbFlags | UsbGsiv | UsbBdf => codes.usb
    case SataBase0 | SataBase1 | SataFlags | SataBdf => codes.sata
    case UartBase0 | UartGsiv | UartFlags => codes.uart
  }

  /** The row field each arm returns. */
  function Field(k: InfoKind, row: InfoBlock): u64
    requires k.PerPeripheral()
  {
    match k
    case UsbBase0 | SataBase0 | UartBase0 => row.base0
    case SataBase1 => row.base1
    case UsbFlags | SataFlags | UartFlags => row.flags
    case UsbGsiv | UartGsiv => row.irq
    case UsbBdf | SataBdf => row.bdf
  }

  /** Whether the arm at position `p` finds its row for `instance`. */
  predicate ArmHits(codes: TypeCodes, rows: seq<InfoBlock>, p: nat, instance: u32)
    requires WellFormed(rows) && p < |ARMS|
  {
    EntryIndex(rows, WrittenOwner(codes, ARMS[p]), instance) != NOT_FOUND
  }

  /** The value the arm at position `p` returns when its lookup succeeds. */
  function ArmValue(codes: TypeCodes, rows: seq<InfoBlock>, p: nat, instance: u32): u64
    requires WellFormed(rows) && p < |ARMS| && ArmHits(codes, rows, p, instance)
  {
    Field(ARMS[p], rows[EntryIndex(rows, WrittenOwner(codes, ARMS[p]), instance)])
  }

  /** Control entering the `switch` at the arm at position `p`: a successful
      lookup returns, a failed one runs into the next arm, and running off the
      last arm reaches `default: break` and the final `return 0`. */
  function FallThrough(codes: TypeCodes, rows: seq<InfoBlock>, p: nat, instance: u32): u64
    requires WellFormed(rows) && p <= |ARMS|
    decreases |ARMS| - p
  {
    if p == |ARMS| then 0
    else if ArmHits(codes, rows, p, instance) then ArmValue(codes, rows, p, instance)
    else FallThrough(codes, rows, p + 1, instance)
  }

  /** What the per-peripheral arms need: rows the resolver can scan. The count
      arms and the null check touch no row. */
  predicate QueryReady(view: Option<TableValue>, kind: InfoKind) {
    view.Some? && kind.PerPeripheral() ==> WellFormed(view.value.rows)
  }

  /** `val_peripheral_get_info(kind, instance)` with `view` the table
      `g_peripheral_info_table` points at (None when it is NULL). */
  function GetInfo(codes: TypeCodes, view: Option<TableValue>, kind: InfoKind, instance: u32): (r: u64)
    requires QueryReady(view, kind)
    ensures view.None? ==> r == 0
    ensures view.Some? && kind == NumUsb ==> r == view.value.header.numUsb
    ensures view.Some? && kind == NumSata ==> r == view.value.header.numSata
    ensures view.Some? && kind == NumUart ==> r == view.value.header.numUart
    ensures kind == Unrecognised ==> r == 0
  {
    match view
    case None => 0
    case Some(t) =>
      match kind
      case NumUsb => t.header.numUsb
      case NumSata => t.header.numSata
      case NumUart => t.header.numUart
      case Unrecognised => 0
      case _ => FallThrough(codes, t.rows, ArmIndex(kind), instance)
  }

  /** The count queries read the header alone: neither the instance nor the rows matter. */
  lemma CountsIgnoreRowsAndInstance(codes: TypeCodes, h: Header, rows1: seq<InfoBlock>, rows2: seq<InfoBlock>,
                                    kind: InfoKind, n1: u32, n2: u32)
    requires kind == NumUsb || kind == NumSata || kind == NumUart
    ensures GetInfo(codes, Some(TableValue(h, rows1)), kind, n1) == GetInfo(codes, Some(TableValue(h, rows2)), kind, n2)
  {
  }

  /** The closed form of the fall-through: entering at arm `p`, the result is
      the value of the first arm at or after `p` whose lookup succeeds, and 0
      when none from `p` on succeeds. */
  lemma {:induction false} FallThroughFirstHit(codes: TypeCodes, rows: seq<InfoBlock>, p: nat, instance: u32)
    requires WellFormed(rows) && p <= |ARMS|
    ensures (forall j :: p <= j < |ARMS| ==> !ArmHits(codes, rows, j, instance)) ==>
              FallThrough(codes, rows, p, instance) == 0
    ensures forall j :: p <= j < |ARMS| && ArmHits(codes, rows, j, instance) &&
                        (forall m :: p <= m < j ==> !ArmHits(codes, rows, m, instance)) ==>
              FallThrough(codes, rows, p, instance) == ArmValue(codes, rows, j, instance)
    decreases |ARMS| - p
  {
    if p < |ARMS| {
      FallThroughFirstHit(codes, rows, p + 1, instance);
      forall j | p <= j < |ARMS| && ArmHits(codes, rows, j, instance) &&
                 (forall m :: p <= m < j ==> !ArmHits(codes, rows, m, instance))
        ensures FallThrough(codes, rows, p, instance) == ArmValue(codes, rows, j, instance)
      {
        if j > p {
          assert !ArmHits(codes, rows, p, instance);
        }
      }
    }
  }

  /** An arm whose own lookup succeeds returns its own field of the resolved
      row; SATA_BDF resolves with the USB type, as written. */
  lemma OwnArmHit(codes: TypeCodes, t: TableValue, kind: InfoKind, instance: u32)
    requires kind.PerPeripheral() && WellFormed(t.rows)
    requires EntryIndex(t.rows, WrittenOwner(codes, kind), instance) != NOT_FOUND
    ensures GetInfo(codes, Some(t), kind, instance) ==
              Field(kind, t.rows[EntryIndex(t.rows, WrittenOwner(codes, kind), instance)])
  {
  }

  /** The arm textually after a per-peripheral arm, if any. */
  function NextArm(k: InfoKind): (next: Option<InfoKind>)
    requires k.PerPeripheral()
    ensures next.Some? ==> next.value.PerPeripheral() && ArmIndex(next.value) == ArmIndex(k) + 1
    ensures next.None? <==> k == UartFlags
  {
    if ArmIndex(k) + 1 < |ARMS| then Some(ARMS[ArmIndex(k) + 1]) else None
  }

  /** An arm whose own lookup fails answers what the next arm answers; a failed
      UART_FLAGS lookup reaches the final `return 0`. */
  lemma OwnArmMiss(codes: TypeCodes, t: TableValue, kind: InfoKind, instance: u32)
    requires kind.PerPeripheral() && WellFormed(t.rows)
    requires EntryIndex(t.rows, WrittenOwner(codes, kind), instance) == NOT_FOUND
    ensures NextArm(kind).Some? ==>
              GetInfo(codes, Some(t), kind, instance) == GetInfo(codes, Some(t), NextArm(kind).value, instance)
    ensures NextArm(kind).None? ==> GetInfo(codes, Some(t), kind, instance) == 0
  {
    var p := ArmIndex(kind);
    assert !ArmHits(codes, t.rows, p, instance);
    assert GetInfo(codes, Some(t), kind, instance) == FallThrough(codes, t.rows, p + 1, instance);
  }

  /** A failed USB lookup sends every USB arm, and SATA_BDF (which also asks
      for USB), on to the group after it. */
  lemma UsbMissSkipsUsbArms(codes: TypeCodes, t: TableValue, kind: InfoKind, instance: u32)
    requires WellFormed(t.rows)
    requires EntryIndex(t.rows, codes.usb, instance) == NOT_FOUND
    ensures kind in {UsbBase0, UsbFlags, UsbGsiv, UsbBdf} ==>
              GetInfo(codes, Some(t), kind, instance) == GetInfo(codes, Some(t), SataBase0, instance)
    ensures GetInfo(codes, Some(t), SataBdf, instance) == GetInfo(codes, Some(t), UartBase0, instance)
  {
    var rows := t.rows;
    assert FallThrough(codes, rows, 3, instance) == FallThrough(codes, rows, 4, instance);
    assert FallThrough(codes, rows, 2, instance) == FallThrough(codes, rows, 4, instance);
    assert FallThrough(codes, rows, 1, instance) == FallThrough(codes, rows, 4, instance);
    assert FallThrough(codes, rows, 0, instance) == FallThrough(codes, rows, 4, instance);
    assert FallThrough(codes, rows, 7, instance) == FallThrough(codes, rows, 8, instance);
  }

  /** A failed SATA lookup sends the three SATA-typed arms on to SATA_BDF, which
      asks for a USB row. */
  lemma SataMissReachesSataBdf(codes: TypeCodes, t: TableValue, kind: InfoKind, instance: u32)
    requires WellFormed(t.rows)
    requires EntryIndex(t.rows, codes.sata, instance) == NOT_FOUND
    ensures kind in {SataBase0, SataBase1, SataFlags} ==>
              GetInfo(codes, Some(t), kind, instance) == GetInfo(codes, Some(t), SataBdf, instance)
  {
    var rows := t.rows;
    assert FallThrough(codes, rows, 6, instance) == FallThrough(codes, rows, 7, instance);
    assert FallThrough(codes, rows, 5, instance) == FallThrough(codes, rows, 7, instance);
    assert FallThrough(codes, rows, 4, instance) == FallThrough(codes, rows, 7, instance);
  }

  /** A failed UART lookup makes every UART arm answer 0. */
  lemma UartMissIsZero(codes: TypeCodes, t: TableValue, kind: InfoKind, instance: u32)
    requires WellFormed(t.rows)
    requires EntryIndex(t.rows, codes.uart, instance) == NOT_FOUND
    ensures kind in {UartBase0, UartGsiv, UartFlags} ==> GetInfo(codes, Some(t), kind, instance) == 0
  {
    if kind in {UartBase0, UartGsiv, UartFlags} {
      FallThroughFirstHit(codes, t.rows, ArmIndex(kind), instance);
    }
  }

  /** A per-peripheral query answers 0 for an instance beyond the rows of every
      peripheral type. For the USB kinds and SATA_BASE0, SATA_BASE1 and
      SATA_FLAGS, running out of rows of the kind's own type alone is not
      enough (see `MissingBreakLeaksSataRow`); for the UART kinds it is (see
      `UartMissIsZero`). */
  lemma OutOfRangeEverywhereIsZero(codes: TypeCodes, t: TableValue, kind: InfoKind, instance: u32)
    requires kind.PerPeripheral() && WellFormed(t.rows)
    requires CountBefore(t.rows, codes.usb, FirstEnd(t.rows)) <= instance
    requires CountBefore(t.rows, codes.sata, FirstEnd(t.rows)) <= instance
    requires CountBefore(t.rows, codes.uart, FirstEnd(t.rows)) <= instance
    ensures GetInfo(codes, Some(t), kind, instance) == 0
  {
    FallThroughFirstHit(codes, t.rows, ArmIndex(kind), instance);
  }

  /** The dispatcher the source evidently intended: every arm resolves the type
      it is named after and ends its case, so a failed lookup answers 0. */
  function GetInfoIntended(codes: TypeCodes, view: Option<TableValue>, kind: InfoKind, instance: u32): (r: u64)
    requires QueryReady(view, kind)
    ensures view.None? ==> r == 0
    ensures view.Some? && kind == NumUsb ==> r == view.value.header.numUsb
    ensures view.Some? && kind == NumSata ==> r == view.value.header.numSata
    ensures view.Some? && kind == NumUart ==> r == view.value.header.numUart
    ensures kind == Unrecognised ==> r == 0
  {
    match view
    case None => 0
    case Some(t) =>
      match kind
      case NumUsb => t.header.numUsb
      case NumSata => t.header.numSata
      case NumUart => t.header.numUart
      case Unrecognised => 0
      case _ =>
        var i := EntryIndex(t.rows, IntendedOwner(codes, kind), instance);
        if i != NOT_FOUND then Field(kind, t.rows[i]) else 0
  }

  /** Each intended arm answers from the `instance`-th row of its own type, and
      0 when its own type has no such row. */
  lemma IntendedArmIsSelfContained(codes: TypeCodes, t: TableValue, kind: InfoKind, instance: u32)
    requires kind.PerPeripheral() && WellFormed(t.rows)
    ensures CountBefore(t.rows, IntendedOwner(codes, kind), FirstEnd(t.rows)) <= instance ==>
              GetInfoIntended(codes, Some(t), kind, instance) == 0
    ensures forall j :: 0 <= j < FirstEnd(t.rows) && t.rows[j].typ == IntendedOwner(codes, kind) &&
                        CountBefore(t.rows, IntendedOwner(codes, kind), j) == instance ==>
              GetInfoIntended(codes, Some(t), kind, instance) == Field(kind, t.rows[j])
  {
    forall j | 0 <= j < FirstEnd(t.rows) && t.rows[j].typ == IntendedOwner(codes, kind) &&
               CountBefore(t.rows, IntendedOwner(codes, kind), j) == instance
      ensures GetInfoIntended(codes, Some(t), kind, instance) == Field(kind, t.rows[j])
    {
      EntryIndexFindsMatch(t.rows, IntendedOwner(codes, kind), instance, j);
    }
  }

  /** Where the source's arm finds its own row, it agrees with the intended
      dispatcher, for every kind but SATA_BDF. */
  lemma WrittenAgreesWithIntendedOnHit(codes: TypeCodes, view: Option<TableValue>, kind: InfoKind, instance: u32)
    requires QueryReady(view, kind) && kind != SataBdf
    requires view.Some? && kind.PerPeripheral() ==>
               EntryIndex(view.value.rows, WrittenOwner(codes, kind), instance) != NOT_FOUND
    ensures GetInfo(codes, view, kind, instance) == GetInfoIntended(codes, view, kind, instance)
  {
  }

  /** A table with one SATA controller and no USB controller. */
  function SataOnlyTable(codes: TypeCodes): TableValue {
    TableValue(Header(0, 1, 0),
               [InfoBlock(codes.sata, 0x3000, 0, 0, 0, 0), InfoBlock(END_TYPE, 0, 0, 0, 0, 0)])
  }

  /** Missing `break`: asking for the base address of USB controller 0 in a
      table without USB controllers answers the base address of the SATA
      controller, where the intended dispatcher answers 0. */
  lemma MissingBreakLeaksSataRow(codes: TypeCodes)
    requires codes.Distinct()
    ensures WellFormed(SataOnlyTable(codes).rows)
    ensures GetInfo(codes, Some(SataOnlyTable(codes)), UsbBase0, 0) == 0x3000
    ensures GetInfoIntended(codes, Some(SataOnlyTable(codes)), UsbBase0, 0) == 0
  {
    var rows := SataOnlyTable(codes).rows;
    assert rows[1].typ == END_TYPE;
    assert FirstEnd(rows) == 1;
    assert CountBefore(rows, codes.usb, 1) == 0;
    assert CountBefore(rows, codes.sata, 1) == 1;
    assert EntryIndex(rows, codes.sata, 0) == 0;
    FallThroughFirstHit(codes, rows, 0, 0);
    assert ArmHits(codes, rows, 4, 0);
  }

  /** A table with USB controller 0 (bus locator 1) and SATA controller 0 (bus locator 2). */
  function UsbAndSataTable(codes: TypeCodes): TableValue {
    TableValue(Header(1, 1, 0),
               [InfoBlock(codes.usb, 0x1000, 0, 0, 0, 1),
                InfoBlock(codes.sata, 0x3000, 0, 0, 0, 2),
                InfoBlock(END_TYPE, 0, 0, 0, 0, 0)])
  }

  /** SATA_BDF resolves with the USB type: it answers the bus locator of USB
      controller 0, where the intended dispatcher answers that of SATA
      controller 0. */
  lemma SataBdfReadsUsbRow(codes: TypeCodes)
    requires codes.Distinct()
    ensures WellFormed(UsbAndSataTable(codes).rows)
    ensures GetInfo(codes, Some(UsbAndSataTable(codes)), SataBdf, 0) == 1
    ensures GetInfoIntended(codes, Some(UsbAndSataTable(codes)), SataBdf, 0) == 2
  {
    var rows := UsbAndSataTable(codes).rows;
    assert rows[2].typ == END_TYPE;
    assert FirstEnd(rows) == 2;
    assert CountBefore(rows, codes.usb, 2) == 1;
    assert CountBefore(rows, codes.sata, 2) == 1;
    EntryIndexFindsMatch(rows, codes.usb, 0, 0);
    EntryIndexFindsMatch(rows, codes.sata, 0, 1);
  }
}
