/** The eBPF instruction record both analysis engines consume, and the opcode pieces they
    cut it into.  Neither engine shares anything else with the other. */
module Isa {

  const TWO8 := 0x100
  const TWO16 := 0x1_0000
  const TWO32 := 0x1_0000_0000
  const TWO63 := 0x8000_0000_0000_0000
  const TWO64 := 0x1_0000_0000_0000_0000

  type u8 = x: int | 0 <= x < 0x100
  type u32 = x: int | 0 <= x < 0x1_0000_0000
  type u64 = x: int | 0 <= x < 0x1_0000_0000_0000_0000
  type i16 = x: int | -0x8000 <= x < 0x8000
  type i32 = x: int | -0x8000_0000 <= x < 0x8000_0000

  /** A four-bit register field: 11 to 15 are encodable and name no register. */
  type RegField = x: int | 0 <= x < 16

  datatype Option<+T> = None | Some(value: T)

  /** `struct bpf_insn`. */
  datatype Insn = Insn(code: bv8, dst: RegField, src: RegField, off: i16, imm: i32)

  type Program = seq<Insn>

  const LD: bv8 := 0x00
  const LDX: bv8 := 0x01
  const ST: bv8 := 0x02
  const STX: bv8 := 0x03
  const ALU: bv8 := 0x04
  const JMP: bv8 := 0x05
  const JMP32: bv8 := 0x06
  const ALU64: bv8 := 0x07

  /** The code of LD_IMM64, which occupies two slots. */
  const LD_IMM64: bv8 := 0x18

  const MODE_MEM: bv8 := 0x60
  const MODE_MEMSX: bv8 := 0x80
  const MODE_ATOMIC: bv8 := 0xc0

  function Class(c: bv8): bv8 { c & 0x07 }
  function Op(c: bv8): bv8 { c & 0xf0 }
  function Size(c: bv8): bv8 { c & 0x18 }
  function Mode(c: bv8): bv8 { c & 0xe0 }

  /** The BPF_X bit: the second operand is a register. */
  predicate SrcIsReg(c: bv8) { c & 0x08 != 0 }
}
