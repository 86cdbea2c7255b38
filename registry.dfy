/** The state of val/src/avs_peripherals.c: the global pointer
    `g_peripheral_info_table` to a table whose memory the caller allocated,
    the two lifecycle calls that bind and release it, and the scan of
    `val_peripheral_get_entry_index` over the table's rows in place. */
module PeripheralRegistry {
  import opened PeripheralTable
  import opened PeripheralInfo

  /** The caller-allocated memory a table lives in: a header and a fixed
      number of descriptor rows. */
  class PeripheralInfoTable {
    var header: Header
    const info: array<InfoBlock>

    /** Memory for `capacity` rows, with whatever it happens to hold. */
    constructor (capacity: nat, garbage: Header)
      ensures info.Length == capacity && fresh(info) && header == garbage
    {
      header := garbage;
      info := new InfoBlock[capacity];
    }

    /** The table this memory holds now. */
    function Value(): (v: TableValue)
      reads this, info
      ensures v.header == header && v.rows == info[..]
    {
      TableValue(header, info[..])
    }
  }

  /** The registry: the global table pointer, and whether the memory it
      points at has been handed back to the platform layer. */
  class Registry {
    var table: PeripheralInfoTable?
    /** Set once `val_peripheral_free_info_table` released the memory. */
    ghost var released: bool

    /** The program's start: the global pointer is NULL. */
    constructor ()
      ensures table == null && !released
      ensures View() == None
    {
      table := null;
      released := false;
    }

    /** The table the queries see: None while the pointer is NULL. Reading
        released memory is undefined, so there is no view of it. */
    function View(): (v: Option<TableValue>)
      reads this, table, if table == null then {} else {table.info}
      requires table != null ==> !released
      ensures v.None? <==> table == null
      ensures v.Some? ==> v.value == table.Value()
    {
      if table == null then None else Some(table.Value())
    }

    /** `val_peripheral_create_info_table(mem)`: point the registry at the
        caller's memory, then let the platform layer fill it; `produced` is
        what the platform layer writes. The summary it prints is not modelled. */
    method CreateInfoTable(mem: PeripheralInfoTable, produced: TableValue)
      requires |produced.rows| == mem.info.Length
      modifies this, mem, mem.info
      ensures table == mem && !released
      ensures mem.header == produced.header && mem.info[..] == produced.rows
      ensures View() == Some(produced)
    {
      table := mem;
      released := false;
      mem.header := produced.header;
      forall k | 0 <= k < mem.info.Length {
        mem.info[k] := produced.rows[k];
      }
    }

    /** `val_peripheral_free_info_table()`: hand the memory back. The pointer
        is left as it was, so after a free of a created table the NULL check
        of `val_peripheral_get_info` no longer guards anything, and a second
        free would release the same memory twice. */
    method FreeInfoTable()
      requires table == null || !released
      modifies this
      ensures table == old(table) && released
    {
      released := true;
    }

    /** `val_peripheral_get_entry_index(typ, instance)`: scan the rows in place
        from row 0 (the source leaves its cursor uninitialised; its comment
        makes row 0 the start), counting down `instance` on every row of the
        type, until the terminator. There is no NULL check in the source. */
    method GetEntryIndex(typ: u32, instance: u32) returns (r: u32)
      requires table != null && !released && WellFormed(table.info[..])
      ensures r == EntryIndex(table.info[..], typ, instance)
    {
      var info := table.info;
      ghost var rows := info[..];
      var i: u32 := 0;
      var left := instance;
      while info[i].typ != END_TYPE
        invariant i <= FirstEnd(rows)
        invariant Scan(rows, typ, left, i) == Scan(rows, typ, instance, 0)
        decreases FirstEnd(rows) - i
      {
        if info[i].typ == typ {
          if left == 0 {
            return i;
          }
          left := left - 1;
        }
        i := i + 1;
      }
      return NOT_FOUND;
    }
  }

  /** The rows of a small platform: USB controller 0 at 0x1000 on interrupt 5,
      UART 0 at 0x2000 on interrupt 7, then the terminator. */
  function ScenarioTable(codes: TypeCodes): TableValue {
    TableValue(Header(1, 0, 1),
               [InfoBlock(codes.usb, 0x1000, 0, 0, 5, 0),
                InfoBlock(codes.uart, 0x2000, 0, 0, 7, 0),
                InfoBlock(END_TYPE, 0, 0, 0, 0, 0)])
  }

  /** A whole run over that platform: before creation every query answers 0;
      once created, USB 0 resolves to row 0, USB 1 is not found, and the
      queries answer the rows' and the header's values. */
  method Scenario(codes: TypeCodes)
    returns (before: u64, usb0: u32, usb1: u32, usbBase: u64, uartGsiv: u64, sataCount: u64)
    requires codes.Distinct()
    ensures before == 0 && usb0 == 0 && usb1 == NOT_FOUND
    ensures usbBase == 0x1000 && uartGsiv == 7 && sataCount == 0
  {
    var registry := new Registry();
    before := GetInfo(codes, registry.View(), UsbBase0, 0);
    var produced := ScenarioTable(codes);
    var mem := new PeripheralInfoTable(|produced.rows|, Header(0, 0, 0));
    registry.CreateInfoTable(mem, produced);
    ghost var rows := produced.rows;
    assert rows[2].typ == END_TYPE;
    assert FirstEnd(rows) == 2;
    EntryIndexFindsMatch(rows, codes.usb, 0, 0);
    EntryIndexFindsMatch(rows, codes.uart, 0, 1);
    assert CountBefore(rows, codes.usb, 2) == 1;
    usb0 := registry.GetEntryIndex(codes.usb, 0);
    usb1 := registry.GetEntryIndex(codes.usb, 1);
    usbBase := GetInfo(codes, registry.View(), UsbBase0, 0);
    uartGsiv := GetInfo(codes, registry.View(), UartGsiv, 0);
    sataCount := GetInfo(codes, registry.View(), NumSata, 0);
    assert FallThrough(codes, rows, 9, 0) == 7;
  }
}
