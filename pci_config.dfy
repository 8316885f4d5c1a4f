/**
 * The PCI configuration space as lk's bus manager sees it (PCI Local Bus
 * Specification 3.0, section 6.1): register offsets and bits of the type 0
 * and type 1 headers, the backend through which live registers are read, the
 * ordered log of writes the core issues, and the cached 256-byte header.
 */
module PciConfig {
  import opened Lk

  // Register offsets shared by the type 0 and type 1 headers.
  const VENDOR_ID: nat := 0x00
  const COMMAND: nat := 0x04
  const STATUS: nat := 0x06
  const CLASS_CODE_SUB: nat := 0x0A
  const CLASS_CODE_BASE: nat := 0x0B
  const HEADER_TYPE: nat := 0x0E
  const BASE_ADDRESSES: nat := 0x10
  const CAPABILITIES_PTR: nat := 0x34
  const INTERRUPT_LINE: nat := 0x3C
  const INTERRUPT_PIN: nat := 0x3D

  // Bits of the command, status and header-type registers.
  const COMMAND_IO_EN: bv16 := 0x1
  const COMMAND_MEM_EN: bv16 := 0x2
  const COMMAND_BUS_MASTER_EN: bv16 := 0x4
  const STATUS_NEW_CAPS: bv16 := 0x10
  const HEADER_TYPE_MASK: bv8 := 0x7F
  const HEADER_TYPE_MULTI_FN: bv8 := 0x80

  // Class codes of a PCI-to-PCI bridge with normal decode.
  const CLASS_BRIDGE: bv8 := 0x6
  const SUBCLASS_PCI_BRIDGE: bv8 := 0x4

  datatype Width = Byte | Half | Word

  /** One configuration write issued to the function. */
  datatype Write = Write(width: Width, offset: nat, value: bv32)

  function WriteByte(offset: nat, v: bv8): Write { Write(Byte, offset, v as bv32) }
  function WriteHalf(offset: nat, v: bv16): Write { Write(Half, offset, v as bv32) }
  function WriteWord(offset: nat, v: bv32): Write { Write(Word, offset, v) }

  /**
   * The live configuration registers of one function as a backend returns
   * them (pci_read_config_byte/half/word), status and value.
   */
  datatype Space = Space(byte: nat -> Read<bv8>, half: nat -> Read<bv16>, word: nat -> Read<bv32>)

  /** The cached header (pci_config_t): type 0 and type 1 layouts overlaid on the same 256 bytes. */
  type Config = s: seq<bv8> | |s| == 256 witness seq(256, _ => 0 as bv8)

  function Half16(c: Config, off: nat): bv16
    requires off + 2 <= 256
  {
    (c[off] as bv16) | ((c[off + 1] as bv16) << 8)
  }

  function Word32(c: Config, off: nat): bv32
    requires off + 4 <= 256
  {
    (c[off] as bv32) | ((c[off + 1] as bv32) << 8) | ((c[off + 2] as bv32) << 16) | ((c[off + 3] as bv32) << 24)
  }

  function VendorId(c: Config): bv16 { Half16(c, VENDOR_ID) }
  function CommandReg(c: Config): bv16 { Half16(c, COMMAND) }
  function StatusReg(c: Config): bv16 { Half16(c, STATUS) }
  function CapabilitiesPtr(c: Config): bv8 { c[CAPABILITIES_PTR] }

  /** device::header_type(): the layout number without the multi-function bit. */
  function HeaderType(c: Config): bv8 { c[HEADER_TYPE] & HEADER_TYPE_MASK }

  /** config_.type0.base_addresses[i]. */
  function BarWord(c: Config, i: nat): bv32
    requires i < 6
  {
    Word32(c, BASE_ADDRESSES + 4 * i)
  }

  function BarOffset(i: nat): nat { BASE_ADDRESSES + 4 * i }
}
