/** The bootloader's decision and the application's part in it. */
module Bootloader {
  import opened BootState
  import opened Bytes
  import opened Crc32
  import opened Flash
  import opened Layout
  import opened Slot
  import opened Wrappers

  const RAM_START := 0x2000_0000
  const RAM_END := 0x2004_2000

  predicate VectorTableSane(f: Contents) {
    var sp := Unpack(f[APP_VTABLE_OFFSET..APP_VTABLE_OFFSET + 4]);
    var pc := Unpack(f[APP_VTABLE_OFFSET + 4..APP_VTABLE_OFFSET + 8]);
    RAM_START <= sp <= RAM_END && APP_XIP_ADDR <= pc < APP_XIP_ADDR + APP_MAX_SIZE && pc % 2 == 1
  }

  predicate ImageMatches(f: Contents, r: Record) {
    Crc(SlotBytes(f, r.appLen)) == r.appCrc
  }

  /** What the bootloader does: start the application or not, and the record it writes first. */
  datatype Decision = Decision(start: bool, write: Option<Record>)

  function Decide(f: Contents, scratch: u32): Decision {
    if scratch == OTA_ENTER_UPDATE_MAGIC then Decision(false, None)
    else
      match Newest(f)
      case None => Decision(VectorTableSane(f), None)
      case Some(st) =>
        if st.valid == 0 || !VectorTableSane(f) || !ImageMatches(f, st) then Decision(false, None)
        else if st.confirmed != 0 then Decision(true, None)
        else if st.attempts < OTA_MAX_BOOT_ATTEMPTS then
          Decision(true, Some(st.(attempts := st.attempts + 1)))
        else Decision(false, Some(st.(valid := 0)))
  }

  function Store(f: Contents, w: Option<Record>): Contents {
    match w
    case Some(r) => Write(f, r)
    case None => f
  }

  /** The record `ota_confirm` writes, if any. */
  function Confirmation(f: Contents): Option<Record> {
    match Newest(f)
    case None => None
    case Some(st) =>
      if st.valid != 0 && st.confirmed == 0 then Some(st.(confirmed := 1, attempts := 0)) else None
  }

  class Board {
    const chip: Chip
    var scratch: u32

    constructor (chip: Chip, scratch: u32)
      ensures this.chip == chip && this.scratch == scratch
    {
      this.chip := chip;
      this.scratch := scratch;
    }

    /** `decide_boot_app` */
    method DecideBootApp() returns (start: bool)
      requires chip.cells.Length == FLASH_TOTAL
      modifies this`scratch, chip.cells
      ensures scratch == 0
      ensures start == Decide(old(chip.cells[..]), old(scratch)).start
      ensures chip.cells[..] == Store(old(chip.cells[..]), Decide(old(chip.cells[..]), old(scratch)).write)
    {
      var requested := scratch;
      scratch := 0;
      if requested == OTA_ENTER_UPDATE_MAGIC {
        return false;
      }
      var st := BootStateRead(chip);
      var f: Contents := chip.cells[..];
      if st.None? {
        return VectorTableSane(f);
      }
      var r := st.value;
      if r.valid == 0 || !VectorTableSane(f) {
        return false;
      }
      var crc := OtaCrc32(SlotBytes(f, r.appLen));
      if crc != r.appCrc {
        return false;
      }
      if r.confirmed != 0 {
        return true;
      }
      if r.attempts < OTA_MAX_BOOT_ATTEMPTS {
        var _ := BootStateWrite(chip, r.(attempts := r.attempts + 1));
        return true;
      }
      var _ := BootStateWrite(chip, r.(valid := 0));
      return false;
    }

    /** `ota_confirm` */
    method OtaConfirm()
      requires chip.cells.Length == FLASH_TOTAL
      modifies chip.cells
      ensures chip.cells[..] == Store(old(chip.cells[..]), Confirmation(old(chip.cells[..])))
    {
      var st := BootStateRead(chip);
      if st.Some? && st.value.valid != 0 && st.value.confirmed == 0 {
        var _ := BootStateWrite(chip, st.value.(confirmed := 1, attempts := 0));
      }
    }

    /** `ota_request_update`, up to the reset it ends in. */
    method OtaRequestUpdate()
      modifies this`scratch
      ensures scratch == OTA_ENTER_UPDATE_MAGIC
    {
      scratch := OTA_ENTER_UPDATE_MAGIC;
    }
  }
}
