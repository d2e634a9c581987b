// The opcode table shared by the assembler, the loader and the virtual machine.
module Opcodes {
  import opened Bytes

  // Reg stands for I_REG and D_REG, which are encoded alike.
  datatype ArgType = Reg | DataRef | Offset | LabelRef | Imm

  const JMP: nat := 38
  const JMPI: nat := 39
  const LOADA: nat := 46
  const INCLSIJMPI: nat := 50
  const DECGRIJMPI: nat := 51
  const LOADL: nat := 54
  const JSR: nat := 56
  const RTS: nat := 58
  const LOAD: nat := 59
  const MAXOPCODES: nat := 61

  function ArgTypes(op: nat): seq<ArgType> {
    if op < JMP then [Reg, Reg, Reg]
    else if op == JMP || op == JSR then [LabelRef]
    else if op == JMPI then [Reg, LabelRef]
    else if op <= 45 then [Reg]
    else if op <= 47 || op == LOAD then [DataRef, Offset, Reg]
    else if op <= 49 then [Imm, Imm, Imm, Imm]
    else if op <= DECGRIJMPI then [Reg, Reg, LabelRef]
    else if op <= 53 || op == 60 then [Reg, Reg]
    else if op == LOADL then [LabelRef, Reg]
    else if op == 55 || op == 57 then [Reg]
    else []
  }

  function Width(t: ArgType): nat {
    if t.Reg? || t.Imm? then 1 else 8
  }

  function Widths(tys: seq<ArgType>): nat {
    if tys == [] then 0 else Widths(tys[..|tys| - 1]) + Width(tys[|tys| - 1])
  }

  function InstrSize(op: nat): nat {
    1 + Widths(ArgTypes(op))
  }

  // The bytes of operands in the object file: big endian, registers cut to one byte.
  function EncodeArgs(tys: seq<ArgType>, vals: seq<int>): (w: seq<byte>)
    requires |tys| == |vals|
    ensures |w| == Widths(tys)
  {
    var last := |tys| - 1;
    if last < 0 then [] else EncodeArgs(tys[..last], vals[..last]) + Word(vals[last], Width(tys[last]))
  }

  function EncodeInstr(op: nat, vals: seq<int>): (w: seq<byte>)
    requires op < MAXOPCODES && |vals| == |ArgTypes(op)|
    ensures |w| == InstrSize(op) && w[0] == op
  {
    [op] + EncodeArgs(ArgTypes(op), vals)
  }
}
