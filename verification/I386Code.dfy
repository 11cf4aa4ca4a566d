/** Code emission for the i386 (sr_i386/emit_code.c): addressing forms, relative jumps and the predicted
    form of the jump behind a call, against what the processor makes of the bytes. The decoding follows
    the Intel 64 and IA-32 Software Developer's Manual, Volume 2A, section 2.1.5, tables 2-2 and 2-3. */
module I386Code {
  import opened Bytes

  const REG_ESP: nat := 4
  const REG_EBP: nat := 5
  const SIB_FOLLOWS: nat := 4
  const NO_INDEX: nat := 4
  const MOD_BASE: nat := 0
  const MOD_BASE_DISP_8: nat := 1
  const MOD_BASE_DISP_32: nat := 2
  const INT4_MIN: int := -0x8000_0000
  const INT4_MAX: int := 0x7FFF_FFFF

  predicate IsInt4(x: int) { INT4_MIN <= x <= INT4_MAX }

  predicate IsInt1(x: int) { -128 <= x <= 127 }

  /** Four bytes as a signed number. */
  function Signed32(b: seq<Byte>): int
    requires |b| == 4
  {
    if Word(b) > INT4_MAX then Word(b) - WORD else Word(b)
  }

  function Signed8(b: Byte): int {
    if (b as int) > 127 then b - 256 else b
  }

  lemma Signed32Le4(x: int)
    requires IsInt4(x)
    ensures Signed32(Le4(x)) == x
  {
    if x < 0 {
      SameBytes(x);
      WordOfLe4(x + WORD);
    } else {
      WordOfLe4(x);
    }
  }

  lemma SameBytes(x: int)
    ensures Le4(x + 0x1_0000_0000) == Le4(x)
  {
    Byte0(x);
    Byte1(x);
    Byte2(x);
    Byte3(x);
  }

  lemma Byte0(x: int)
    ensures (x + 0x1_0000_0000) % 256 == x % 256
  {
  }

  lemma Byte1(x: int)
    ensures (x + 0x1_0000_0000) / 256 % 256 == x / 256 % 256
  {
    assert (x + 0x1_0000_0000) / 256 == x / 256 + 0x100_0000;
  }

  lemma Byte2(x: int)
    ensures (x + 0x1_0000_0000) / 65536 % 256 == x / 65536 % 256
  {
    assert (x + 0x1_0000_0000) / 65536 == x / 65536 + 0x1_0000;
  }

  lemma Byte3(x: int)
    ensures (x + 0x1_0000_0000) / 16777216 % 256 == x / 16777216 % 256
  {
    assert (x + 0x1_0000_0000) / 16777216 == x / 16777216 + 0x100;
  }

  lemma Signed8Low(x: int)
    requires IsInt1(x)
    ensures Signed8(x % 256) == x
  {
  }

  // Addressing forms.

  /** ModR/M and SIB bytes from their fields. */
  function Pack(mod_: nat, reg: nat, rm: nat): Byte
    requires mod_ < 4 && reg < 8 && rm < 8
  {
    64 * mod_ + 8 * reg + rm
  }

  /** What an addressing form means: register field, base register if any, displacement, and how many
      bytes the form takes. */
  datatype Form = Form(reg: nat, base: Base, disp: int, length: nat) | NotDecoded

  datatype Base = NoBase | Base(r: nat)

  function DispLength(mod_: nat): nat {
    if mod_ == MOD_BASE_DISP_8 then 1 else if mod_ == MOD_BASE_DISP_32 then 4 else 0
  }

  function DispAt(b: seq<Byte>, p: nat, n: nat): int
    requires n == 0 || n == 1 || n == 4
    requires p + n <= |b|
  {
    if n == 0 then 0 else if n == 1 then Signed8(b[p]) else Signed32(b[p..p + 4])
  }

  /** The memory forms without an index register; any other form is not decoded. */
  function Decode(b: seq<Byte>): Form {
    if b == [] then NotDecoded
    else
      var mod_, reg, rm := b[0] / 64, b[0] / 8 % 8, b[0] % 8;
      if mod_ == 3 then NotDecoded
      else if rm != SIB_FOLLOWS then
        if mod_ == MOD_BASE && rm == REG_EBP then Absolute(b, reg, 1)
        else if 1 + DispLength(mod_) > |b| then NotDecoded
        else Form(reg, Base(rm), DispAt(b, 1, DispLength(mod_)), 1 + DispLength(mod_))
      else if |b| < 2 || b[1] / 8 % 8 != NO_INDEX then NotDecoded
      else if mod_ == MOD_BASE && b[1] % 8 == REG_EBP then Absolute(b, reg, 2)
      else if 2 + DispLength(mod_) > |b| then NotDecoded
      else Form(reg, Base(b[1] % 8), DispAt(b, 2, DispLength(mod_)), 2 + DispLength(mod_))
  }

  /** A 32-bit address without a base. */
  function Absolute(b: seq<Byte>, reg: nat, p: nat): Form {
    if p + 4 > |b| then NotDecoded else Form(reg, NoBase, Signed32(b[p..p + 4]), p + 4)
  }

  /** The static state of the emitter. */
  class Emitter {
    var codeBuf: seq<Byte>
    var jmpOffset: int
    var callVariant: nat
    var force32: bool

    constructor ()
      ensures codeBuf == [] && jmpOffset == 0 && callVariant == 0 && !force32
    {
      codeBuf, jmpOffset, callVariant, force32 := [], 0, 0, false;
    }

    /** emit_base_offset. The bytes mean the base and offset asked for, whatever follows them, except
        for base EBP with offset zero. */
    method EmitBaseOffset(regOpcode: nat, baseReg: nat, offset: int)
      requires regOpcode < 8 && baseReg < 8 && IsInt4(offset)
      modifies this`codeBuf
      ensures codeBuf == old(codeBuf) + Encode(regOpcode, baseReg, offset, force32)
    {
      var mod_ := if offset == 0 then MOD_BASE else if IsInt1(offset) && !force32 then MOD_BASE_DISP_8
        else MOD_BASE_DISP_32;
      if baseReg == REG_ESP || (baseReg == REG_EBP && offset == 0) {
        codeBuf := codeBuf + [Pack(mod_, regOpcode, SIB_FOLLOWS)];
        codeBuf := codeBuf + [Pack(0, NO_INDEX, baseReg)];
      } else {
        codeBuf := codeBuf + [Pack(mod_, regOpcode, baseReg)];
      }
      if offset == 0 {
      } else if IsInt1(offset) && !force32 {
        codeBuf := codeBuf + [offset % 256];
      } else {
        codeBuf := codeBuf + Le4(offset);
      }
    }

    /** emit_jmp: the displacement is counted from the end of the instruction. The answer is whether the
        two assertions about the predicted form hold. */
    method EmitJmp(vaxIn: VaxJump) returns (asPredicted: bool)
      modifies this`codeBuf, this`jmpOffset
      ensures codeBuf == old(codeBuf) + EncodeJump(vaxIn, old(jmpOffset) - |old(codeBuf)|, callVariant)
      ensures jmpOffset == old(jmpOffset) - |codeBuf| + (if old(jmpOffset) == |old(codeBuf)| then 1 else 0)
      ensures asPredicted <==> (vaxIn in {BRB, BRW, JMP} && old(jmpOffset) != |old(codeBuf)| ==>
        callVariant == 0 || callVariant == |codeBuf| - |old(codeBuf)|)
    {
      asPredicted := true;
      jmpOffset := jmpOffset - |codeBuf|;
      if jmpOffset == 0 {
        codeBuf := codeBuf + [NOP];
      } else if IsInt1(jmpOffset - 2) && JMP_LONG_INST_SIZE != callVariant {
        jmpOffset := jmpOffset - 2;
        if Unconditional(vaxIn) {
          asPredicted := callVariant == 0 || callVariant == BRB_INST_SIZE;
        }
        codeBuf := codeBuf + [ShortOpcode(vaxIn), jmpOffset % 256];
      } else {
        if Unconditional(vaxIn) {
          asPredicted := callVariant == 0 || callVariant == JMP_LONG_INST_SIZE;
        }
        EmitLong(vaxIn);
      }
    }

    /** The forms with a displacement of four bytes. */
    method EmitLong(vaxIn: VaxJump)
      modifies this`codeBuf, this`jmpOffset
      ensures codeBuf == old(codeBuf) + LongJump(vaxIn, old(jmpOffset))
      ensures jmpOffset == old(jmpOffset) - |LongJump(vaxIn, old(jmpOffset))|
    {
      if Unconditional(vaxIn) {
        jmpOffset := jmpOffset - 5;
        codeBuf := codeBuf + ([JMP_JV] + Le4(jmpOffset));
      } else {
        jmpOffset := jmpOffset - 6;
        codeBuf := codeBuf + ([TWO_BYTE_ESCAPE, LongOpcode(vaxIn)] + Le4(jmpOffset));
      }
    }

    /** emit_xfer: a call through the transfer table, whose base is in EBX. */
    method EmitXfer(xfer: int)
      requires IsInt4(xfer)
      modifies this`codeBuf
      ensures codeBuf == old(codeBuf) + EncodeCall(xfer, force32)
    {
      codeBuf := codeBuf + [GRP5_PREFIX];
      EmitBaseOffset(CALL_EV, REG_EBX, xfer);
    }

    /** The code of a call triple: the call and the jump behind it, at distance `jump` from the start.
        The form of the jump is predicted before either is emitted, as in trip_gen. The prediction is
        contradicted for one distance, and only where the table offset is zero. */
    method EmitCallTriple(jump: int, xferShort: int, xferLong: int)
      returns (call: seq<Byte>, branch: seq<Byte>, asPredicted: bool)
      requires IsInt4(xferShort) && IsInt4(xferLong) && !force32
      modifies this
      ensures asPredicted <==> !(xferShort == 0 && jump == 132)
      ensures callVariant == Predict(jump, xferShort)
      ensures call == EncodeCall(if callVariant == BRB_INST_SIZE then xferShort else xferLong, false)
      ensures branch == EncodeJump(if callVariant == BRB_INST_SIZE then BRB else JMP, jump - |call|, callVariant)
      ensures xferShort != 0 && jump != |call| ==> |branch| == callVariant
    {
      jmpOffset := jump;
      var off := jmpOffset - (if IsInt1(xferShort) then XFER_BYTE_INST_SIZE else XFER_LONG_INST_SIZE);
      callVariant := if IsInt1(off - BRB_INST_SIZE) then BRB_INST_SIZE else JMP_LONG_INST_SIZE;
      codeBuf := [];
      EmitXfer(if callVariant == BRB_INST_SIZE then xferShort else xferLong);
      call := codeBuf;
      jmpOffset := jmpOffset - |codeBuf|;
      codeBuf := [];
      asPredicted := EmitJmp(if callVariant == BRB_INST_SIZE then BRB else JMP);
      branch := codeBuf;
    }
  }

  /** The bytes of an addressing form. */
  function Encode(reg: nat, base: nat, offset: int, force32: bool): seq<Byte>
    requires reg < 8 && base < 8
  {
    var short_ := IsInt1(offset) && !force32;
    var mod_ := if offset == 0 then MOD_BASE else if short_ then MOD_BASE_DISP_8 else MOD_BASE_DISP_32;
    var head := if base == REG_ESP || (base == REG_EBP && offset == 0)
      then [Pack(mod_, reg, SIB_FOLLOWS), Pack(0, NO_INDEX, base)] else [Pack(mod_, reg, base)];
    head + if offset == 0 then [] else if short_ then [offset % 256] else Le4(offset)
  }

  lemma PackFields(mod_: nat, reg: nat, rm: nat)
    requires mod_ < 4 && reg < 8 && rm < 8
    ensures var b := Pack(mod_, reg, rm); b / 64 == mod_ && b / 8 % 8 == reg && b % 8 == rm
  {
    assert Pack(mod_, reg, rm) / 8 == 8 * mod_ + reg;
  }

  /** The bytes decode to what was asked for exactly when it was not EBP with offset zero; then they
      stand for an address without a base, from bytes that were not emitted. */
  lemma DecodesBack(reg: nat, base: nat, offset: int, force32: bool, rest: seq<Byte>)
    requires reg < 8 && base < 8 && IsInt4(offset)
    ensures var b := Encode(reg, base, offset, force32);
      Decode(b + rest) == Form(reg, Base(base), offset, |b|) <==> !(base == REG_EBP && offset == 0)
    ensures base == REG_EBP && offset == 0 ==> |Encode(reg, base, offset, force32)| == 2
    ensures base == REG_EBP && offset == 0 ==>
      Decode(Encode(reg, base, offset, force32) + rest)
        == if |rest| >= 4 then Form(reg, NoBase, Signed32(rest[..4]), 6) else NotDecoded
  {
    var b := Encode(reg, base, offset, force32);
    var mod_ := if offset == 0 then MOD_BASE else if IsInt1(offset) && !force32 then MOD_BASE_DISP_8
      else MOD_BASE_DISP_32;
    PackFields(mod_, reg, SIB_FOLLOWS);
    PackFields(0, NO_INDEX, base);
    PackFields(mod_, reg, base);
    var p := if base == REG_ESP || (base == REG_EBP && offset == 0) then 2 else 1;
    if offset == 0 {
      if base == REG_EBP && |rest| >= 4 {
        assert (b + rest)[2..6] == rest[..4];
      }
    } else if IsInt1(offset) && !force32 {
      Signed8Low(offset);
    } else {
      Signed32Le4(offset);
      assert (b + rest)[p..p + 4] == Le4(offset);
    }
  }

  /** The size of the form: the displacement takes no byte if it is zero, one if it fits one and four are not
      forced, and else four. */
  lemma FormSize(reg: nat, base: nat, offset: int, force32: bool)
    requires reg < 8 && base < 8
    ensures var head := if base == REG_ESP || (base == REG_EBP && offset == 0) then 2 else 1;
      |Encode(reg, base, offset, force32)| == head +
        if offset == 0 then 0 else if -128 <= offset < 128 && !force32 then 1 else 4
  {
  }

  // Relative jumps.

  const NOP: Byte := 0x90
  const JMP_JB: Byte := 0xEB
  const JMP_JV: Byte := 0xE9
  const TWO_BYTE_ESCAPE: Byte := 0x0F
  const GRP5_PREFIX: Byte := 0xFF
  const CALL_EV: nat := 2
  const REG_EBX: nat := 3
  const XFER_BYTE_INST_SIZE: int := 3
  const XFER_LONG_INST_SIZE: int := 6
  const BRB_INST_SIZE: nat := 2
  const JMP_LONG_INST_SIZE: nat := 5

  datatype VaxJump = BEQL | BGEQ | BGTR | BLEQ | BLSS | BNEQ | BRB | BRW | JMP

  predicate Unconditional(v: VaxJump) { v == BRB || v == BRW || v == JMP }

  function ShortOpcode(v: VaxJump): Byte {
    match v
    case BEQL => 0x74
    case BGEQ => 0x7D
    case BGTR => 0x7F
    case BLEQ => 0x7E
    case BLSS => 0x7C
    case BNEQ => 0x75
    case BRB => JMP_JB
    case BRW => JMP_JB
    case JMP => JMP_JB
  }

  /** The second opcode byte of the long conditional jumps. */
  function LongOpcode(v: VaxJump): Byte
    requires !Unconditional(v)
  {
    ShortOpcode(v) + 0x10
  }

  /** The bytes of a jump over distance `d`, counted from the jump's own first byte. */
  function EncodeJump(v: VaxJump, d: int, variant: nat): seq<Byte> {
    if d == 0 then [NOP]
    else if IsInt1(d - 2) && variant != JMP_LONG_INST_SIZE then [ShortOpcode(v), (d - 2) % 256]
    else LongJump(v, d)
  }

  function LongJump(v: VaxJump, d: int): seq<Byte> {
    if Unconditional(v) then [JMP_JV] + Le4(d - 5) else [TWO_BYTE_ESCAPE, LongOpcode(v)] + Le4(d - 6)
  }

  function EncodeCall(xfer: int, force32: bool): seq<Byte> {
    [GRP5_PREFIX] + Encode(CALL_EV, REG_EBX, xfer, force32)
  }

  /** The form predicted for the jump behind a call. */
  function Predict(jump: int, xfer: int): nat {
    if IsInt1(jump - (if IsInt1(xfer) then XFER_BYTE_INST_SIZE
                      else XFER_LONG_INST_SIZE) - BRB_INST_SIZE) then BRB_INST_SIZE
    else JMP_LONG_INST_SIZE
  }

  /** When a jump is taken, by the flags of a comparison. */
  datatype Cond = Always | Equal | NotEqual | Less | GreaterEqual | LessEqual | Greater

  function CondOf(v: VaxJump): Cond {
    match v
    case BEQL => Equal
    case BGEQ => GreaterEqual
    case BGTR => Greater
    case BLEQ => LessEqual
    case BLSS => Less
    case BNEQ => NotEqual
    case BRB => Always
    case BRW => Always
    case JMP => Always
  }

  /** A jump as the processor reads it; the displacement counts from the next instruction. `NoOp` does nothing. */
  datatype Jump = Jump(cond: Cond, disp: int, length: nat) | NoOp(length: nat) | NotJump

  /** Condition codes, in the low four bits of the opcode. */
  function CondCode(c: int): Jump {
    if c == 4 then Jump(Equal, 0, 0) else if c == 5 then Jump(NotEqual, 0, 0) else if c == 12 then Jump(Less, 0, 0)
    else if c == 13 then Jump(GreaterEqual, 0, 0) else if c == 14 then Jump(LessEqual, 0, 0)
      else if c == 15 then Jump(Greater, 0, 0)
    else NotJump
  }

  function DecodeJump(b: seq<Byte>): Jump {
    if |b| >= 1 && b[0] == 0x90 then NoOp(1)
    else if |b| >= 2 && b[0] == 0xEB then Jump(Always, Signed8(b[1]), 2)
    else if |b| >= 2 && 0x70 <= b[0] < 0x80 then WithDisp(CondCode(b[0] - 0x70), Signed8(b[1]), 2)
    else if |b| >= 5 && b[0] == 0xE9 then Jump(Always, Signed32(b[1..5]), 5)
    else if |b| >= 6 && b[0] == 0x0F && 0x80 <= b[1] < 0x90 then WithDisp(CondCode(b[1] - 0x80), Signed32(b[2..6]), 6)
    else NotJump
  }

  function WithDisp(j: Jump, disp: int, length: nat): Jump {
    if j.Jump? then Jump(j.cond, disp, length) else NotJump
  }

  /** Bytes that decode to a jump of their own length to distance `d`. */
  predicate LeadsTo(b: seq<Byte>, rest: seq<Byte>, v: VaxJump, d: int) {
    var j := DecodeJump(b + rest);
    j.Jump? && j.cond == CondOf(v) && j.length == |b| && j.length + j.disp == d
  }

  /** Where there is nothing to jump over, a single byte does nothing. */
  lemma JumpsNowhere(v: VaxJump, variant: nat, rest: seq<Byte>)
    ensures var b := EncodeJump(v, 0, variant); DecodeJump(b + rest) == NoOp(|b|) && |b| == 1
  {
  }

  /** The short form is taken where the distance fits a byte, unless the long one has been predicted. */
  lemma JumpSize(v: VaxJump, d: int, variant: nat)
    ensures |EncodeJump(v, d, variant)| ==
      if d == 0 then 1 else if -128 <= d - 2 < 128 && variant != 5 then 2 else if v in {BRB, BRW, JMP} then 5 else 6
  {
  }

  /** A near call to the address in memory at a base register plus displacement, as the processor reads it:
      opcode 0xFF with 2 in the register field. */
  function DecodeCall(b: seq<Byte>): Form {
    if b == [] || b[0] != 0xFF then NotDecoded
    else
      var f := Decode(b[1..]);
      if f.Form? && f.reg == 2 then Form(f.reg, f.base, f.disp, f.length + 1) else NotDecoded
  }

  /** The call goes through the entry at `xfer` of the table that register 3, EBX, points to. */
  lemma CallsThrough(xfer: int, force32: bool, rest: seq<Byte>)
    requires IsInt4(xfer)
    ensures var b := EncodeCall(xfer, force32); DecodeCall(b + rest) == Form(2, Base(3), xfer, |b|)
  {
    var form := Encode(CALL_EV, REG_EBX, xfer, force32);
    assert (EncodeCall(xfer, force32) + rest)[1..] == form + rest;
    DecodesBack(CALL_EV, REG_EBX, xfer, force32, rest);
  }

  lemma ShortLeads(v: VaxJump, d: int, rest: seq<Byte>)
    requires IsInt1(d - 2)
    ensures LeadsTo([ShortOpcode(v), (d - 2) % 256], rest, v, d)
  {
    Signed8Low(d - 2);
  }

  lemma LongLeads(v: VaxJump, d: int, rest: seq<Byte>)
    requires IsInt4(d - 5) && Unconditional(v)
    ensures LeadsTo([JMP_JV] + Le4(d - 5), rest, v, d)
  {
    var b := [JMP_JV] + Le4(d - 5);
    Signed32Le4(d - 5);
    assert (b + rest)[1..5] == Le4(d - 5);
  }

  lemma LongBranchLeads(v: VaxJump, d: int, rest: seq<Byte>)
    requires IsInt4(d - 6) && !Unconditional(v)
    ensures LeadsTo([TWO_BYTE_ESCAPE, LongOpcode(v)] + Le4(d - 6), rest, v, d)
  {
    var b := [TWO_BYTE_ESCAPE, LongOpcode(v)] + Le4(d - 6);
    Signed32Le4(d - 6);
    assert (b + rest)[2..6] == Le4(d - 6);
  }

  /** The bytes of a jump are taken on the right condition and lead exactly to the target, in every
      form and with every prediction. */
  lemma JumpsToTarget(v: VaxJump, d: int, variant: nat, rest: seq<Byte>)
    requires d != 0 && IsInt4(d - 5) && IsInt4(d - 6)
    ensures LeadsTo(EncodeJump(v, d, variant), rest, v, d)
  {
    if IsInt1(d - 2) && variant != JMP_LONG_INST_SIZE {
      ShortLeads(v, d, rest);
    } else if Unconditional(v) {
      LongLeads(v, d, rest);
    } else {
      LongBranchLeads(v, d, rest);
    }
  }
}
