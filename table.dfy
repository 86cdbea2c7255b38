/** The peripheral descriptor table of val/src/avs_peripherals.c as a value:
    a header of three counts and the rows the platform layer wrote, ended by a
    row whose type is 0xFF. The index resolver (`val_peripheral_get_entry_index`)
    is specified here by the function `EntryIndex`; the loop that computes it
    lives with the registry, which owns the table in memory. */
module PeripheralTable {

  type u32 = x: int | 0 <= x < 0x1_0000_0000
  type u64 = x: int | 0 <= x < 0x1_0000_0000_0000_0000

  datatype Option<T> = None | Some(value: T)

  /** Type tag of the row that ends the table. */
  const END_TYPE: u32 := 0xFF
  /** What the resolver returns when no row matches. */
  const NOT_FOUND: u32 := 0xFF
  /** Highest index the terminator may sit at: every row before it then has an
      index below NOT_FOUND, so a found index is never mistaken for "not found". */
  const MAX_END_INDEX: nat := 255

  /** The values of PERIPHERAL_TYPE_USB, PERIPHERAL_TYPE_SATA and
      PERIPHERAL_TYPE_UART. Their numbers are not part of this model, so every
      member that needs them takes them as a parameter. */
  datatype TypeCodes = TypeCodes(usb: u32, sata: u32, uart: u32) {
    /** The three codes name three different types, none of them the terminator. */
    predicate Distinct() {
      usb != sata && sata != uart && usb != uart &&
      usb != END_TYPE && sata != END_TYPE && uart != END_TYPE
    }
  }

  /** Counts the platform layer reports; trusted as-is, never compared with the rows. */
  datatype Header = Header(numUsb: u32, numSata: u32, numUart: u32)

  /** One descriptor row. The widths of the C structure's fields are not part
      of this model; every value field is taken as 64-bit, the width of the
      result of `val_peripheral_get_info`. */
  datatype InfoBlock = InfoBlock(typ: u32, base0: u64, base1: u64, flags: u64, irq: u64, bdf: u64)

  /** The whole table: what `g_peripheral_info_table` points at. */
  datatype TableValue = TableValue(header: Header, rows: seq<InfoBlock>)

  /** The rows hold a terminator at an index the resolver can report around:
      without one the scan of the source runs off the table. */
  predicate WellFormed(rows: seq<InfoBlock>) {
    exists t :: 0 <= t < |rows| && t <= MAX_END_INDEX && rows[t].typ == END_TYPE
  }

  /** Index of the first terminator at or after `i`. */
  ghost function FirstEndFrom(rows: seq<InfoBlock>, i: nat): (t: nat)
    requires i <= |rows|
    requires exists t :: i <= t < |rows| && rows[t].typ == END_TYPE
    ensures i <= t < |rows| && rows[t].typ == END_TYPE
    ensures forall j :: i <= j < t ==> rows[j].typ != END_TYPE
    decreases |rows| - i
  {
    if rows[i].typ == END_TYPE then i else FirstEndFrom(rows, i + 1)
  }

  /** Index of the first terminator row: the scan never looks past it. */
  ghost function FirstEnd(rows: seq<InfoBlock>): (t: nat)
    requires WellFormed(rows)
    ensures t < |rows| && t <= MAX_END_INDEX && rows[t].typ == END_TYPE
    ensures forall j :: 0 <= j < t ==> rows[j].typ != END_TYPE
  {
    var w :| 0 <= w < |rows| && w <= MAX_END_INDEX && rows[w].typ == END_TYPE;
    FirstEndFrom(rows, 0)
  }

  /** Number of rows of type `typ` among the first `k` rows. */
  function CountBefore(rows: seq<InfoBlock>, typ: u32, k: nat): (n: nat)
    requires k <= |rows|
    ensures n <= k
  {
    if k == 0 then 0
    else CountBefore(rows, typ, k - 1) + (if rows[k - 1].typ == typ then 1 else 0)
  }

  /** A row of type `typ` at index `a` puts every later prefix strictly ahead in the count. */
  lemma {:induction false} CountBeforeGrows(rows: seq<InfoBlock>, typ: u32, a: nat, b: nat)
    requires a < b <= |rows|
    ensures CountBefore(rows, typ, b) >= CountBefore(rows, typ, a) + (if rows[a].typ == typ then 1 else 0)
    decreases b - a
  {
    if b > a + 1 {
      CountBeforeGrows(rows, typ, a, b - 1);
    }
  }

  /** The scan of `val_peripheral_get_entry_index` from row `i` on, with
      `instance` matching rows still to skip. It stops at the first terminator
      before it looks at the requested type. */
  function Scan(rows: seq<InfoBlock>, typ: u32, instance: u32, i: nat): (r: u32)
    requires WellFormed(rows) && i <= FirstEnd(rows)
    ensures r == NOT_FOUND || (i <= r < FirstEnd(rows) && rows[r].typ == typ)
    decreases FirstEnd(rows) - i
  {
    if rows[i].typ == END_TYPE then NOT_FOUND
    else if rows[i].typ == typ then
      if instance == 0 then i else Scan(rows, typ, instance - 1, i + 1)
    else Scan(rows, typ, instance, i + 1)
  }

  /** What the scan from row `i` counts: it finds a row exactly when more than
      `instance` rows of the type lie between `i` and the terminator, and the
      row it finds has exactly `instance` of them between `i` and itself. */
  lemma {:induction false} ScanCounts(rows: seq<InfoBlock>, typ: u32, instance: u32, i: nat)
    requires WellFormed(rows) && i <= FirstEnd(rows)
    ensures Scan(rows, typ, instance, i) == NOT_FOUND <==>
              CountBefore(rows, typ, FirstEnd(rows)) - CountBefore(rows, typ, i) <= instance
    ensures Scan(rows, typ, instance, i) != NOT_FOUND ==>
              CountBefore(rows, typ, Scan(rows, typ, instance, i)) - CountBefore(rows, typ, i) == instance
    decreases FirstEnd(rows) - i
  {
    var e := FirstEnd(rows);
    if i < e {
      assert rows[i].typ != END_TYPE;
      assert CountBefore(rows, typ, i + 1) == CountBefore(rows, typ, i) + (if rows[i].typ == typ then 1 else 0);
      CountBeforeGrows(rows, typ, i, e);
      if rows[i].typ == typ && instance != 0 {
        ScanCounts(rows, typ, instance - 1, i + 1);
        var r := Scan(rows, typ, instance - 1, i + 1);
        if r != NOT_FOUND {
          CountBeforeGrows(rows, typ, i, r);
        }
      } else if rows[i].typ != typ {
        ScanCounts(rows, typ, instance, i + 1);
      }
    }
  }

  /** `val_peripheral_get_entry_index(type, instance)` on the rows of a table:
      the index of the row that is the `instance`-th (zero-based) of type `typ`
      before the first terminator, or NOT_FOUND when there are not that many. */
  function EntryIndex(rows: seq<InfoBlock>, typ: u32, instance: u32): (r: u32)
    requires WellFormed(rows)
    ensures r == NOT_FOUND <==> CountBefore(rows, typ, FirstEnd(rows)) <= instance
    ensures r != NOT_FOUND ==>
              r < FirstEnd(rows) && rows[r].typ == typ && CountBefore(rows, typ, r) == instance
  {
    ScanCounts(rows, typ, instance, 0);
    Scan(rows, typ, instance, 0)
  }

  /** The converse of the found case: the `instance`-th row of a type before the
      terminator is the row the resolver returns. */
  lemma EntryIndexFindsMatch(rows: seq<InfoBlock>, typ: u32, instance: u32, j: nat)
    requires WellFormed(rows)
    requires j < FirstEnd(rows) && rows[j].typ == typ && CountBefore(rows, typ, j) == instance
    ensures EntryIndex(rows, typ, instance) == j
  {
    var e := FirstEnd(rows);
    CountBeforeGrows(rows, typ, j, e);
    var r := EntryIndex(rows, typ, instance);
    if r < j {
      CountBeforeGrows(rows, typ, r, j);
    } else if r > j {
      CountBeforeGrows(rows, typ, j, r);
    }
  }

  /** Asking for the terminator's own type never finds a row: the scan stops at
      the first terminator before it compares types. */
  lemma TerminatorTypeNeverResolves(rows: seq<InfoBlock>, instance: u32)
    requires WellFormed(rows)
    ensures EntryIndex(rows, END_TYPE, instance) == NOT_FOUND
  {
  }
}
