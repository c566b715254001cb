/** Which filesystem a volume boot record holds, and where a volume sits. */
module Filesystems {
  import opened Fat
  import opened Machine
  import opened Wrappers

  /** A volume's place: its first sector and how many there are, counted in
      sectors of 512 bytes. */
  datatype VolumeExtent = VolumeExtent(startLba: u32, sectorCount: u32) {
    // Whether an image of `length` bytes holds the whole extent.
    predicate FitsIn(length: nat) { (startLba + sectorCount) * 512 <= length }
  }

  const OFF_OEM := 0x03
  const OFF_SIGNATURE := 0x1FE

  // "EXFAT   " and "NTFS    ".
  const OEM_EXFAT: seq<u8> := [0x45, 0x58, 0x46, 0x41, 0x54, 0x20, 0x20, 0x20]
  const OEM_NTFS: seq<u8> := [0x4E, 0x54, 0x46, 0x53, 0x20, 0x20, 0x20, 0x20]

  function Identify(sector: seq<u8>): Identification {
    if |sector| < VBR_SIZE then Unknown(ShortSector(|sector|))
    else if sector[OFF_SIGNATURE] != 0x55 || sector[OFF_SIGNATURE + 1] != 0xAA then
      Unknown(NoSignature(sector[OFF_SIGNATURE], sector[OFF_SIGNATURE + 1]))
    else if sector[0] != 0xEB && sector[0] != 0xE9 then
      Unknown(NoJumpInstruction(sector[0]))
    else
      var oem := sector[OFF_OEM..OFF_OEM + 8];
      if oem == OEM_EXFAT then Identified(ExFat, None)
      else if oem == OEM_NTFS then Identified(Ntfs, None)
      else IdentifyFat(ReadBpb(sector))
  }
}
