/**
 * The shared vocabulary of the assembler (src/common.h and the node shapes of parser.h):
 * machine integer ranges, tokens, sections, AST nodes and the fixed lookup tables of the
 * instruction set.
 */
module Common {

  const TWO_32: int := 0x1_0000_0000

  /** C++ `uint32_t`. */
  type uint32 = x: int | 0 <= x < TWO_32

  /** C++ `uint8_t`, one byte of an output image. */
  type byte = x: int | 0 <= x < 256

  /** A value of a 5-bit register field. */
  type RegNum = x: int | 0 <= x < 32

  /** A value of a 6-bit opcode or funct field. */
  type Code6 = x: int | 0 <= x < 64

  // ---------------------------------------------------------------------------
  // Tokens

  datatype TokenKind = EoF | Ident | Number | Register | Inst | Dot | Comma | Colon | LParen | RParen | Illegal

  /** A token and the line counter of the lexer when the token was handed out. */
  datatype Token = Token(kind: TokenKind, literal: string, line: int)

  // ---------------------------------------------------------------------------
  // Sections and AST nodes

  datatype Section = Text | Data

  /**
   * The closed set of statement kinds. Every variant carries the two fields of the C++ base
   * `Node` that pass 1 fills in: the section-relative `address` and the owning `section`.
   * A node built by the parser has address 0 and section Text (the defaults of `Node`).
   */
  datatype Node =
    | RType(mnemonic: string, rd: string, rs: string, rt: string, address: uint32, section: Section)
    | IType(mnemonic: string, rt: string, rs: string, immOrLabel: string, isLabelRef: bool,
            address: uint32, section: Section)
    | Directive(name: string, values: seq<string>, address: uint32, section: Section)
    | Label(name: string, address: uint32, section: Section)
  {
    predicate IsInstruction() { RType? || IType? }

    /** The fields pass 1 writes still hold their defaults: address 0, section TEXT. */
    predicate Unplaced() { address == 0 && section == Text }

    /** The node with the fields pass 1 writes reset to their defaults. */
    function Unannotated(): Node { this.(address := 0, section := Text) }

    /** The node as pass 1 leaves it: in `section`, at `address`. */
    function PlacedAt(section: Section, address: uint32): Node { this.(address := address, section := section) }
  }

  // ---------------------------------------------------------------------------
  // Lookup tables

  const RTYPE_INSTRUCTIONS: set<string> := {"mult", "add", "sub", "sll", "srl", "and", "or", "not"}

  const ITYPE_INSTRUCTIONS: set<string> := {"lw", "sw", "beq"}

  /** Built in the source as the union of the two sets above; `InstructionsPartition` shows it is. */
  const INSTRUCTIONS: set<string> := {"mult", "add", "sub", "sll", "srl", "and", "or", "not", "lw", "sw", "beq"}

  const REGISTERS: set<string> := {
    "a0", "a1", "a2", "a3", "a4", "a5", "a6", "a7",
    "r0", "r1", "r2", "r3", "r4", "r5", "r6", "r7",
    "s0", "s1", "s2", "s3", "s4", "s5", "s6", "s7",
    "t0", "t1", "t2", "t3", "t4", "t5", "t6", "t7"
  }

  const FUNCT_CODES: map<string, Code6> := map[
    "mult" := 0x18, "add" := 0x20, "sub" := 0x22, "sll" := 0x04,
    "srl" := 0x06, "and" := 0x24, "or" := 0x25, "not" := 0x27
  ]

  const OPCODES: map<string, Code6> := map["lw" := 0x23, "sw" := 0x2B, "beq" := 0x04]

  const REG_MAP: map<string, RegNum> := map[
    "a0" := 0, "a1" := 1, "a2" := 2, "a3" := 3, "a4" := 4, "a5" := 5, "a6" := 6, "a7" := 7,
    "r0" := 8, "r1" := 9, "r2" := 10, "r3" := 11, "r4" := 12, "r5" := 13, "r6" := 14, "r7" := 15,
    "s0" := 16, "s1" := 17, "s2" := 18, "s3" := 19, "s4" := 20, "s5" := 21, "s6" := 22, "s7" := 23,
    "t0" := 24, "t1" := 25, "t2" := 26, "t3" := 27, "t4" := 28, "t5" := 29, "t6" := 30, "t7" := 31
  ]

  predicate IsShift(mnemonic: string) { mnemonic == "sll" || mnemonic == "srl" }

  // ---------------------------------------------------------------------------
  // Properties of the lookup tables

  /** The register banks in index order: a0-a7, r0-r7, s0-s7, t0-t7. */
  const BANKS: string := "arst"

  /** Independent description of the register naming scheme: bank letter, then index in bank. */
  function RegisterName(index: int): (name: string)
    requires 0 <= index < 32
    ensures |name| == 2
  {
    [BANKS[index / 8], ('0' as int + index % 8) as char]
  }

  lemma InstructionsPartition()
    ensures INSTRUCTIONS == RTYPE_INSTRUCTIONS + ITYPE_INSTRUCTIONS
    ensures RTYPE_INSTRUCTIONS !! ITYPE_INSTRUCTIONS
    ensures |RTYPE_INSTRUCTIONS| == 8 && |ITYPE_INSTRUCTIONS| == 3
  {
  }

  lemma RegistersAreRegMapKeys()
    ensures REG_MAP.Keys == REGISTERS
  {
  }

  /**
   * Register number i is named by bank letter i / 8 and digit i % 8, and every name in the
   * table is the bank name of its number: the table is a bijection from the 32 names onto
   * 0..31, with no collision and no gap.
   */
  lemma RegMapFollowsBanks()
    ensures forall i :: 0 <= i < 32 ==> RegisterName(i) in REG_MAP && REG_MAP[RegisterName(i)] == i
    ensures forall name :: name in REG_MAP ==> RegisterName(REG_MAP[name]) == name
    ensures forall n, n' :: n in REG_MAP && n' in REG_MAP && REG_MAP[n] == REG_MAP[n'] ==> n == n'
  {
    forall i | 0 <= i < 32
      ensures RegisterName(i) in REG_MAP && REG_MAP[RegisterName(i)] == i
    {
      var b, j := i / 8, i % 8;
      assert RegisterName(i) == [BANKS[b], ('0' as int + j) as char];
      if b == 0 { BankA(j); } else if b == 1 { BankR(j); } else if b == 2 { BankS(j); } else { BankT(j); }
    }
    forall name | name in REG_MAP
      ensures RegisterName(REG_MAP[name]) == name
    {
      RegMapNamesAreBankNames(name);
    }
  }

  /** Each of the 32 names is the bank letter and digit of its number. */
  lemma RegMapNamesAreBankNames(name: string)
    requires name in REG_MAP
    ensures RegisterName(REG_MAP[name]) == name
  {
    assert |name| == 2;
    if name[0] == 'a' { BankNameOf(name, 'a'); }
    else if name[0] == 'r' { BankNameOf(name, 'r'); }
    else if name[0] == 's' { BankNameOf(name, 's'); }
    else { BankNameOf(name, 't'); }
  }

  lemma BankNameOf(name: string, bank: char)
    requires name in REG_MAP && |name| == 2 && name[0] == bank
    ensures RegisterName(REG_MAP[name]) == name
  {
    var i := REG_MAP[name];
    assert name == [name[0], name[1]];
  }

  /** The eight entries of one bank (split per bank to keep each proof small). */
  lemma BankA(j: int)
    requires 0 <= j < 8
    ensures var name := ['a', ('0' as int + j) as char]; name in REG_MAP && REG_MAP[name] == j
  {
  }

  lemma BankR(j: int)
    requires 0 <= j < 8
    ensures var name := ['r', ('0' as int + j) as char]; name in REG_MAP && REG_MAP[name] == 8 + j
  {
  }

  lemma BankS(j: int)
    requires 0 <= j < 8
    ensures var name := ['s', ('0' as int + j) as char]; name in REG_MAP && REG_MAP[name] == 16 + j
  {
  }

  lemma BankT(j: int)
    requires 0 <= j < 8
    ensures var name := ['t', ('0' as int + j) as char]; name in REG_MAP && REG_MAP[name] == 24 + j
  {
  }

  lemma FunctCodesCoverRType()
    ensures FUNCT_CODES.Keys == RTYPE_INSTRUCTIONS
    ensures forall m, m' :: m in FUNCT_CODES && m' in FUNCT_CODES && FUNCT_CODES[m] == FUNCT_CODES[m'] ==> m == m'
  {
  }

  lemma OpcodesCoverIType()
    ensures OPCODES.Keys == ITYPE_INSTRUCTIONS
    ensures OPCODES["lw"] == 0x23 && OPCODES["sw"] == 0x2B && OPCODES["beq"] == 0x04
    ensures forall m :: m in OPCODES ==> OPCODES[m] != 0
    ensures forall m, m' :: m in OPCODES && m' in OPCODES && OPCODES[m] == OPCODES[m'] ==> m == m'
  {
  }
}
