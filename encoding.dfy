/**
 * The bit-packing half of code_gen.cpp: `get_reg_num`, `encode_r`, `encode_i` and
 * `encode_word`, each a pure function of its inputs that either gives a 32-bit machine word
 * or fails with an error kind.
 *
 * A machine word is built in the source by OR-ing shifted fields that do not overlap; over
 * unbounded integers that OR is the sum of each field times a power of two. The field
 * extractors below (`OpcodeOf`, `RsOf`, ...) read the MIPS layout back independently, and the
 * lemmas state each encoder's result through them.
 */
module Encoding {
  import opened Wrappers
  import opened Common
  import opened CNumbers
  import opened Symbols

  /** What the code generator throws (the message text is not modelled). */
  datatype GenError =
    | UnknownRType(mnemonic: string)   // encode_r: no funct code
    | UnknownIType(mnemonic: string)   // encode_i: no opcode
    | InvalidRegister(name: string)    // get_reg_num
    | ShiftOutOfRange                  // encode_r: literal shift amount outside [0, 31]
    | ShiftLiteralOutOfRange           // encode_r: std::out_of_range from stoll, not caught there
    | UnresolvedLabel(name: string)    // encode_i, encode_word
    | InvalidImmediate(text: string)   // encode_i: stoll failed on the literal
    | ImmediateOverflow                // encode_i: immediate outside [-32768, 32767]
    | DuplicateLabel(name: string)     // pass1, from SymbolTable::add
    | InstructionInData                // pass1
    | WordInText                       // pass1

  // ---------------------------------------------------------------------------
  // The MIPS word layout

  /** Bits 31..26. */
  function OpcodeOf(w: uint32): nat { w / 0x400_0000 }
  /** Bits 25..21. */
  function RsOf(w: uint32): nat { w / 0x20_0000 % 32 }
  /** Bits 20..16. */
  function RtOf(w: uint32): nat { w / 0x1_0000 % 32 }
  /** Bits 15..11. */
  function RdOf(w: uint32): nat { w / 0x800 % 32 }
  /** Bits 10..6. */
  function ShamtOf(w: uint32): nat { w / 0x40 % 32 }
  /** Bits 5..0. */
  function FunctOf(w: uint32): nat { w % 0x40 }
  /** Bits 15..0. */
  function Imm16Of(w: uint32): nat { w % 0x1_0000 }

  /** A 16-bit field read as a two's complement number. */
  function SignExtend16(u: int): int { if u >= 0x8000 then u - 0x1_0000 else u }

  /**
   * Where a branch word `w` at address `addr` jumps: the next instruction's address plus four
   * times the sign-extended offset field, modulo 2^32.
   */
  function BranchTarget(addr: uint32, w: uint32): uint32 {
    ToUint32(addr + 4 + 4 * SignExtend16(Imm16Of(w)))
  }

  /** `(rs << 21) | (rt << 16) | (rd << 11) | (shamt << 6) | funct`, opcode 0. */
  function PackR(rs: RegNum, rt: RegNum, rd: RegNum, shamt: RegNum, funct: Code6): uint32 {
    rs * 0x20_0000 + rt * 0x1_0000 + rd * 0x800 + shamt * 0x40 + funct
  }

  /** `(opcode << 26) | (rs << 21) | (rt << 16) | imm16`. */
  function PackI(opcode: Code6, rs: RegNum, rt: RegNum, imm16: nat): uint32
    requires imm16 < 0x1_0000
  {
    opcode * 0x400_0000 + rs * 0x20_0000 + rt * 0x1_0000 + imm16
  }

  /** The R-format fields read back from a packed word are the ones packed: no field overlaps another. */
  lemma PackRFields(rs: RegNum, rt: RegNum, rd: RegNum, shamt: RegNum, funct: Code6)
    ensures var w := PackR(rs, rt, rd, shamt, funct);
      && OpcodeOf(w) == 0 && RsOf(w) == rs && RtOf(w) == rt && RdOf(w) == rd
      && ShamtOf(w) == shamt && FunctOf(w) == funct
  {
    var w := PackR(rs, rt, rd, shamt, funct);
    assert w / 0x40 == rs * 0x8000 + rt * 0x400 + rd * 0x20 + shamt;
    assert w / 0x800 == rs * 0x400 + rt * 0x20 + rd;
    assert w / 0x1_0000 == rs * 0x20 + rt;
    assert w / 0x20_0000 == rs;
  }

  /** The I-format fields read back from a packed word are the ones packed. */
  lemma PackIFields(opcode: Code6, rs: RegNum, rt: RegNum, imm16: nat)
    requires imm16 < 0x1_0000
    ensures var w := PackI(opcode, rs, rt, imm16);
      OpcodeOf(w) == opcode && RsOf(w) == rs && RtOf(w) == rt && Imm16Of(w) == imm16
  {
    var w := PackI(opcode, rs, rt, imm16);
    assert w / 0x1_0000 == opcode * 0x400 + rs * 0x20 + rt;
    assert w / 0x20_0000 == opcode * 0x20 + rs;
  }

  // ---------------------------------------------------------------------------
  // The encoders

  /** `get_reg_num`: the number of a register name (without '$'). */
  function GetRegNum(reg: string): (r: Result<RegNum, GenError>)
    ensures r.Ok? <==> reg in REG_MAP
    ensures r.Ok? ==> r.value == REG_MAP[reg] && r.value < 32
    ensures r.Err? ==> r.error == InvalidRegister(reg)
  {
    if reg in REG_MAP then Ok(REG_MAP[reg]) else Err(InvalidRegister(reg))
  }

  /**
   * The (rs, rt, shamt) fields of `sll`/`srl`, given rs's register number. A third operand
   * that `stoll` reads as a number is the shift amount, narrowed to `int32_t`, and the value
   * register moves to rt; a third operand that is not a number is the amount register and
   * goes to rs, the value register to rt. An `out_of_range` from `stoll` is not caught here.
   */
  function ShiftFields(inst: Node, rsNum: RegNum): (r: Result<(RegNum, RegNum, RegNum), GenError>)
    requires inst.RType?
    ensures r.Ok? ==> r.value.1 == rsNum && (r.value.0 == 0 || r.value.2 == 0)
    ensures r.Err? ==> r.error in {ShiftOutOfRange, ShiftLiteralOutOfRange, InvalidRegister(inst.rt)}
  {
    match StrToLL(inst.rt)
    case Converted(v) =>
      var amount := ToInt32(v);
      if amount < 0 || amount > 31 then Err(ShiftOutOfRange)
      // the source looks rs up a second time here; it is the same register number
      else Ok((0, rsNum, amount))
    case InvalidArgument =>
      var amountReg :- GetRegNum(inst.rt);
      Ok((amountReg, rsNum, 0))
    case OutOfRange =>
      Err(ShiftLiteralOutOfRange)
  }

  /** `encode_r` */
  function EncodeR(inst: Node): (r: Result<uint32, GenError>)
    requires inst.RType?
    ensures r.Ok? ==> inst.mnemonic in FUNCT_CODES && inst.rs in REG_MAP && inst.rd in REG_MAP
    ensures r.Err? ==>
      r.error.UnknownRType? || r.error.InvalidRegister? || r.error == ShiftOutOfRange || r.error == ShiftLiteralOutOfRange
  {
    if inst.mnemonic !in FUNCT_CODES then Err(UnknownRType(inst.mnemonic))
    else
      var funct := FUNCT_CODES[inst.mnemonic];
      var rs :- GetRegNum(inst.rs);
      var rd :- GetRegNum(inst.rd);
      var fields :- if IsShift(inst.mnemonic) then ShiftFields(inst, rs)
                    else var rt :- GetRegNum(inst.rt); Ok((rs, rt, 0));
      Ok(PackR(fields.0, fields.1, rd, fields.2, funct))
  }

  /**
   * `beq`'s offset: the label's address minus the address of the next instruction, both
   * converted to `int32_t`, divided by 4 rounding toward zero. The subtraction is taken
   * modulo 2^32 (it overflows `int` only for addresses two gigabytes apart).
   */
  function BranchOffset(target: uint32, currentAddr: uint32): (imm: int32)
    ensures var d := BranchDistance(target, currentAddr);
      && (d >= 0 ==> 0 <= d - 4 * imm < 4)
      && (d < 0 ==> -4 < d - 4 * imm <= 0)
  {
    CDiv4(BranchDistance(target, currentAddr))
  }

  /** `static_cast<int32_t>(label_addr) - static_cast<int32_t>(current_addr + 4)`, in `int32_t`. */
  function BranchDistance(target: uint32, currentAddr: uint32): int32 {
    ToInt32(ToInt32(target) - ToInt32(ToUint32(currentAddr + 4)))
  }

  /** The `int32_t imm` of `encode_i`, before its range check. */
  function Immediate(inst: Node, currentAddr: uint32, symbols: map<string, uint32>): (r: Result<int32, GenError>)
    requires inst.IType?
    ensures r.Err? ==>
      r.error == if inst.isLabelRef then UnresolvedLabel(inst.immOrLabel) else InvalidImmediate(inst.immOrLabel)
  {
    if inst.isLabelRef then
      match Lookup(symbols, inst.immOrLabel)
      case None => Err(UnresolvedLabel(inst.immOrLabel))
      case Some(target) =>
        if inst.mnemonic == "beq" then Ok(BranchOffset(target, currentAddr))
        else Ok(ToInt32(target))
    else
      match StrToLL(inst.immOrLabel)
      case Converted(v) => Ok(ToInt32(v))
      case _ => Err(InvalidImmediate(inst.immOrLabel))
  }

  /** `encode_i`; the symbol table is passed as its map from names to addresses. */
  function EncodeI(inst: Node, currentAddr: uint32, symbols: map<string, uint32>): (r: Result<uint32, GenError>)
    requires inst.IType?
    ensures r.Ok? ==> inst.mnemonic in OPCODES && inst.rt in REG_MAP && (inst.rs == "" || inst.rs in REG_MAP)
    ensures r.Err? ==>
      || r.error.UnknownIType? || r.error.InvalidRegister? || r.error.UnresolvedLabel?
      || r.error.InvalidImmediate? || r.error == ImmediateOverflow
  {
    if inst.mnemonic !in OPCODES then Err(UnknownIType(inst.mnemonic))
    else
      var opcode := OPCODES[inst.mnemonic];
      var rs :- if inst.rs == "" then Ok(0) else GetRegNum(inst.rs);
      var rt :- GetRegNum(inst.rt);
      var imm :- Immediate(inst, currentAddr, symbols);
      if imm < -32768 || imm > 32767 then Err(ImmediateOverflow)
      // static_cast<uint32_t>(imm) & 0xFFFF: the low 16 bits of the two's complement form
      else Ok(PackI(opcode, rs, rt, imm % 0x1_0000))
  }

  /** `encode_word`: an integer literal (any `stoll` failure falls through), else a label. */
  function EncodeWord(val: string, symbols: map<string, uint32>): (r: Result<uint32, GenError>)
    ensures r.Err? <==> !StrToLL(val).Converted? && val !in symbols
    ensures r.Err? ==> r.error == UnresolvedLabel(val)
  {
    match StrToLL(val)
    case Converted(v) => Ok(ToUint32(v))
    case _ =>
      match Lookup(symbols, val)
      case Some(addr) => Ok(addr)
      case None => Err(UnresolvedLabel(val))
  }

  // ---------------------------------------------------------------------------
  // What the encoders produce

  /** Taking the low 16 bits of an immediate in [-32768, 32767] and sign-extending gives it back. */
  lemma SignExtendInverts(imm: int)
    requires -32768 <= imm <= 32767
    ensures SignExtend16(imm % 0x1_0000) == imm
  {
  }

  /**
   * `encode_r` succeeds exactly when the mnemonic has a funct code, rs and rd are registers,
   * and the third operand is a register or, for `sll`/`srl`, a literal shift amount in [0, 31];
   * the word then has opcode 0, the funct code, rd in bits 15..11, and for non-shifts rs and
   * rt in place with shamt 0.
   */
  lemma EncodeRFields(inst: Node)
    requires inst.RType?
    ensures EncodeR(inst).Ok? <==>
      && inst.mnemonic in FUNCT_CODES && inst.rs in REG_MAP && inst.rd in REG_MAP
      && if !IsShift(inst.mnemonic) then inst.rt in REG_MAP
         else match StrToLL(inst.rt)
              case Converted(v) => 0 <= ToInt32(v) <= 31
              case InvalidArgument => inst.rt in REG_MAP
              case OutOfRange => false
    ensures EncodeR(inst).Ok? ==>
      var w := EncodeR(inst).value;
      && OpcodeOf(w) == 0 && FunctOf(w) == FUNCT_CODES[inst.mnemonic] && RdOf(w) == REG_MAP[inst.rd]
      && (!IsShift(inst.mnemonic) ==>
            RsOf(w) == REG_MAP[inst.rs] && RtOf(w) == REG_MAP[inst.rt] && ShamtOf(w) == 0)
  {
    if EncodeR(inst).Ok? {
      EncodeRPacked(inst);
    }
  }

  /** A successful `encode_r` packs rd, the funct code and the fields chosen for rs, rt, shamt. */
  lemma EncodeRPacked(inst: Node)
    requires inst.RType? && EncodeR(inst).Ok?
    ensures var w := EncodeR(inst).value;
      && OpcodeOf(w) == 0 && FunctOf(w) == FUNCT_CODES[inst.mnemonic] && RdOf(w) == REG_MAP[inst.rd]
      && var fields := if IsShift(inst.mnemonic) then ShiftFields(inst, REG_MAP[inst.rs]).value
                       else (REG_MAP[inst.rs], REG_MAP[inst.rt], 0);
         RsOf(w) == fields.0 && RtOf(w) == fields.1 && ShamtOf(w) == fields.2
  {
    var fields := if IsShift(inst.mnemonic) then ShiftFields(inst, REG_MAP[inst.rs]).value
                  else (REG_MAP[inst.rs], REG_MAP[inst.rt], 0);
    PackRFields(fields.0, fields.1, REG_MAP[inst.rd], fields.2, FUNCT_CODES[inst.mnemonic]);
  }

  /**
   * The asymmetric `sll`/`srl` placement: with a literal amount, rs is 0, the value register
   * goes to rt and the amount to shamt; with an amount register, that register goes to rs and
   * the value register to rt, with shamt 0.
   */
  lemma ShiftFieldPlacement(inst: Node)
    requires inst.RType? && IsShift(inst.mnemonic) && EncodeR(inst).Ok?
    ensures var w := EncodeR(inst).value;
      match StrToLL(inst.rt)
      case Converted(v) => ShamtOf(w) == ToInt32(v) && RsOf(w) == 0 && RtOf(w) == REG_MAP[inst.rs]
      case InvalidArgument => ShamtOf(w) == 0 && RsOf(w) == REG_MAP[inst.rt] && RtOf(w) == REG_MAP[inst.rs]
      case OutOfRange => false
  {
    EncodeRPacked(inst);
  }

  /**
   * `encode_i` succeeds exactly when the mnemonic has an opcode, the base is absent or a
   * register, rt is a register and the immediate is computable and fits 16 signed bits; the
   * word then carries the opcode, rs (0 without a base), rt and that immediate.
   */
  lemma EncodeIFields(inst: Node, currentAddr: uint32, symbols: map<string, uint32>)
    requires inst.IType?
    ensures EncodeI(inst, currentAddr, symbols).Ok? <==>
      && inst.mnemonic in OPCODES && (inst.rs == "" || inst.rs in REG_MAP) && inst.rt in REG_MAP
      && Immediate(inst, currentAddr, symbols).Ok?
      && -32768 <= Immediate(inst, currentAddr, symbols).value <= 32767
    ensures EncodeI(inst, currentAddr, symbols).Ok? ==>
      var w := EncodeI(inst, currentAddr, symbols).value;
      && OpcodeOf(w) == OPCODES[inst.mnemonic]
      && RsOf(w) == (if inst.rs == "" then 0 else REG_MAP[inst.rs])
      && RtOf(w) == REG_MAP[inst.rt]
      && SignExtend16(Imm16Of(w)) == Immediate(inst, currentAddr, symbols).value
  {
    if EncodeI(inst, currentAddr, symbols).Ok? {
      var imm := Immediate(inst, currentAddr, symbols).value;
      SignExtendInverts(imm);
      PackIFields(OPCODES[inst.mnemonic], if inst.rs == "" then 0 else REG_MAP[inst.rs], REG_MAP[inst.rt], imm % 0x1_0000);
    }
  }

  /**
   * Where the immediate comes from: a label reference that is not bound is an error; `lw`/`sw`
   * use the label's absolute address; a literal is what `stoll` reads, and one it cannot read
   * is an error.
   */
  lemma ImmediateSources(inst: Node, currentAddr: uint32, symbols: map<string, uint32>)
    requires inst.IType?
    ensures inst.isLabelRef ==> (Immediate(inst, currentAddr, symbols).Ok? <==> inst.immOrLabel in symbols)
    ensures inst.isLabelRef && inst.mnemonic != "beq" && inst.immOrLabel in symbols && symbols[inst.immOrLabel] < 0x8000_0000 ==>
      Immediate(inst, currentAddr, symbols) == Ok(symbols[inst.immOrLabel])
    ensures !inst.isLabelRef ==> (Immediate(inst, currentAddr, symbols).Ok? <==> StrToLL(inst.immOrLabel).Converted?)
    ensures !inst.isLabelRef && StrToLL(inst.immOrLabel).Converted? && -32768 <= StrToLL(inst.immOrLabel).value <= 32767 ==>
      Immediate(inst, currentAddr, symbols) == Ok(StrToLL(inst.immOrLabel).value)
  {
  }

  /**
   * When the label and the branch's own address are multiples of 4 (which pass 1 guarantees),
   * C's truncating division in the `beq` offset is exact, and the target the hardware computes
   * from it, the next instruction's address plus four times the offset modulo 2^32, is the label.
   */
  lemma BranchOffsetIsExact(target: uint32, currentAddr: uint32)
    requires target % 4 == 0 && currentAddr % 4 == 0
    ensures (target - (currentAddr + 4) - 4 * BranchOffset(target, currentAddr)) % TWO_32 == 0
    ensures ToUint32(currentAddr + 4 + 4 * BranchOffset(target, currentAddr)) == target
  {
    var d := BranchDistance(target, currentAddr);
    var e := target - (currentAddr + 4);
    BranchDistanceWraps(target, currentAddr);
    CongruentCombination(d - e, 0, 0, 0);
    CongruentMultipleOf4(d, e);
    assert 4 * BranchOffset(target, currentAddr) == d;
    CongruentToUint32(currentAddr + 4 + d, target);
  }

  /** The `int32_t` distance differs from the true one only by the wrap-arounds of the conversions. */
  lemma BranchDistanceWraps(target: uint32, currentAddr: uint32)
    ensures (BranchDistance(target, currentAddr) - (target - (currentAddr + 4))) % TWO_32 == 0
  {
    var a := ToInt32(target);
    var next := ToUint32(currentAddr + 4);
    var b := ToInt32(next);
    var d := ToInt32(a - b);
    CongruentCombination(d - (a - b), a - target, b - next, next - (currentAddr + 4));
    assert d - (target - (currentAddr + 4)) == (d - (a - b)) + (a - target) - (b - next) - (next - (currentAddr + 4));
  }

  /** Multiples of 2^32 are closed under sums and differences. */
  lemma CongruentCombination(w: int, x: int, y: int, z: int)
    requires w % TWO_32 == 0 && x % TWO_32 == 0 && y % TWO_32 == 0 && z % TWO_32 == 0
    ensures (w + x - y - z) % TWO_32 == 0 && (-(w + x - y - z)) % TWO_32 == 0
  {
    var k := w / TWO_32 + x / TWO_32 - y / TWO_32 - z / TWO_32;
    assert w + x - y - z == k * TWO_32;
    assert -(w + x - y - z) == (-k) * TWO_32;
  }

  lemma CongruentMultipleOf4(d: int, e: int)
    requires (d - e) % TWO_32 == 0 && e % 4 == 0
    ensures d % 4 == 0
  {
    var j := (d - e) / TWO_32;
    assert d == e + 4 * (j * 0x4000_0000);
  }

  lemma CongruentToUint32(x: int, t: uint32)
    requires (x - t) % TWO_32 == 0
    ensures ToUint32(x) == t
  {
    var j := (x - t) / TWO_32;
    assert x == t + j * TWO_32;
  }

  /** The encoded `beq` leads back to its label: decoding the offset field finds the target. */
  lemma BeqEncodesTarget(inst: Node, currentAddr: uint32, symbols: map<string, uint32>)
    requires inst.IType? && inst.mnemonic == "beq" && inst.isLabelRef
    requires EncodeI(inst, currentAddr, symbols).Ok?
    requires currentAddr % 4 == 0 && inst.immOrLabel in symbols && symbols[inst.immOrLabel] % 4 == 0
    ensures var w := EncodeI(inst, currentAddr, symbols).value;
      BranchTarget(currentAddr, w) == symbols[inst.immOrLabel]
  {
    EncodeIFields(inst, currentAddr, symbols);
    BranchOffsetIsExact(symbols[inst.immOrLabel], currentAddr);
  }

  /**
   * `encode_word`: a value `stoll` reads is that number modulo 2^32; any other value is looked
   * up as a label, and an unbound one is an error. A label name never reads as a number.
   */
  lemma EncodeWordSources(val: string, symbols: map<string, uint32>)
    ensures StrToLL(val).Converted? ==> EncodeWord(val, symbols) == Ok(ToUint32(StrToLL(val).value))
    ensures !StrToLL(val).Converted? ==> (EncodeWord(val, symbols).Ok? <==> val in symbols)
    ensures !StrToLL(val).Converted? && val in symbols ==> EncodeWord(val, symbols) == Ok(symbols[val])
    ensures |val| > 0 && (IsAlpha(val[0]) || val[0] == '_') ==> !StrToLL(val).Converted?
  {
    if |val| > 0 && (IsAlpha(val[0]) || val[0] == '_') {
      IdentifierIsNotNumber(val);
    }
  }

  // ---------------------------------------------------------------------------
  // Worked examples

  /** The register numbers and packed words the examples below use. */
  lemma ExampleRegisters()
    ensures GetRegNum("a0") == Ok(0) && GetRegNum("a1") == Ok(1) && GetRegNum("t0") == Ok(24)
  {
    assert "a0" in REG_MAP && REG_MAP["a0"] == 0;
    assert "a1" in REG_MAP && REG_MAP["a1"] == 1;
    assert "t0" in REG_MAP && REG_MAP["t0"] == 24;
  }

  lemma ExampleWords()
    ensures PackR(0, 0, 24, 4, 0x04) == 0x0000_C104
    ensures PackI(0x04, 0, 1, 1) == 0x1001_0001
    ensures PackI(0x23, 0, 24, 100) == 0x8C18_0064
  {
  }

  /** `sll $t0, $a0, 4`: rd = t0 (24), rt = a0 (0), shamt 4, funct 0x04. */
  lemma ShiftLeftExample()
    ensures EncodeR(RType("sll", "t0", "a0", "4", 0, Text)) == Ok(0x0000_C104)
  {
    ExampleRegisters();
    ExampleWords();
    ShiftExampleFields();
  }

  lemma ShiftExampleFields()
    ensures ShiftFields(RType("sll", "t0", "a0", "4", 0, Text), 0) == Ok((0, 0, 4))
  {
    assert DigitsValue("4", 10) == 4 by {
      assert "4"[..0] == "";
    }
    PlainDecimal("4");
    assert StrToLL("4") == Converted(4);
  }

  /** `beq $a0, $a1, L` at address 0 with L at 8: offset (8 - 4) / 4 = 1. */
  lemma BranchExample()
    ensures EncodeI(IType("beq", "a1", "a0", "L", true, 0, Text), 0, map["L" := 8]) == Ok(0x1001_0001)
  {
    var inst := IType("beq", "a1", "a0", "L", true, 0, Text);
    ExampleRegisters();
    ExampleWords();
    assert BranchOffset(8, 0) == 1;
    assert Immediate(inst, 0, map["L" := 8]) == Ok(1);
  }

  /** `lw $t0, 100`: opcode 0x23, no base, rt = t0 (24), immediate 100. */
  lemma LoadExample()
    ensures EncodeI(IType("lw", "t0", "", "100", false, 0, Text), 0, map[]) == Ok(0x8C18_0064)
  {
    var inst := IType("lw", "t0", "", "100", false, 0, Text);
    ExampleRegisters();
    ExampleWords();
    assert DigitsValue("100", 10) == 100 by {
      assert "100"[..2] == "10" && "10"[..1] == "1";
    }
    PlainDecimal("100");
    assert Immediate(inst, 0, map[]) == Ok(100);
  }
}
