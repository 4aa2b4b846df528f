/** Partition map and limits shared by the bootloader, the application and the host. */
module Layout {
  const XIP_BASE_ADDR := 0x1000_0000
  const FLASH_TOTAL := 0x40_0000
  const FLASH_SECTOR := 4096
  const FLASH_PAGE := 256

  const APP_OFFSET := 0x04_0000
  const APP_XIP_ADDR := XIP_BASE_ADDR + APP_OFFSET
  const APP_VTABLE_OFFSET := APP_OFFSET + 0x100
  const BOOTSTATE_A := 0x3F_E000
  const BOOTSTATE_B := 0x3F_F000
  const APP_MAX_SIZE := BOOTSTATE_A - APP_OFFSET

  /** The slot lies between the bootloader and the two record sectors, which end the chip. */
  lemma PartitionsTile()
    ensures 0x04_0000 == APP_OFFSET && APP_OFFSET + APP_MAX_SIZE == BOOTSTATE_A
    ensures BOOTSTATE_A + FLASH_SECTOR == BOOTSTATE_B && BOOTSTATE_B + FLASH_SECTOR == FLASH_TOTAL == 4 * 1024 * 1024
  {
  }

  const OTA_ENTER_UPDATE_MAGIC := 0x0B00_B1E5
  const OTA_MAX_BOOT_ATTEMPTS := 3
  const OTA_CHUNK_SIZE := 1024
  const BOOT_STATE_MAGIC := 0x3154_5342
}
