/** The instruction set and the opcode decoder (`impl From<u16> for Instruction`).

    The decoder is partial: opcodes that match no arm reach a `todo!()`, so
    `Decode` returns `None` exactly outside the domain `Decodable`.  `Encode`
    is an independent inverse: it rebuilds the opcode of every instruction the
    decoder can produce, and the two round trips are proved below.
 */
module Instructions {
  import opened Bytes

  datatype Instruction =
    | SystemAddress(addr: u16)
    | ClearScreen
    | Return
    | JumpAddress(addr: u16)
    | CallAddress(addr: u16)
    | SkipEqualRegByte(reg: byte, value: byte)
    | SkipNotEqualRegByte(reg: byte, value: byte)
    | SkipEqualRegisters(regs: byte)
    | LoadByte(target: byte, value: byte)
    | AddByte(reg: byte, value: byte)
    | LoadRegister(regs: byte)
    | Or(regs: byte)
    | And(regs: byte)
    | Xor(regs: byte)
    | Add(regs: byte)
    | Sub(regs: byte)
    | ShiftRight(regs: byte)
    | SubInverted(regs: byte)
    | ShiftLeft(regs: byte)
    | SkipNotEqualReg(regs: byte)
    | LoadI(addr: u16)
    | JumpAddressOffset(addr: u16)
    | RandRange(reg: byte, mask: byte)
    | Draw(position: byte, bytes: byte)
    | SkipPressed(reg: byte)
    | SkipNotPressed(reg: byte)
    | LoadRegisterDelayTimer(reg: byte)
    | LoadKeyPress(reg: byte)
    | LoadDelayTimerRegister(reg: byte)
    | LoadSoundTimerRegister(reg: byte)
    | AddAddressRegister(reg: byte)
    | LoadSpriteAddress(reg: byte)
  {
    /** Variants that carry a 12-bit address. */
    predicate HasAddress() {
      SystemAddress? || JumpAddress? || CallAddress? || LoadI? || JumpAddressOffset?
    }

    /** Variants that carry a register id in a field of their own. */
    predicate HasRegister() {
      || SkipEqualRegByte? || SkipNotEqualRegByte? || AddByte? || RandRange?
      || SkipPressed? || SkipNotPressed? || LoadRegisterDelayTimer? || LoadKeyPress?
      || LoadDelayTimerRegister? || LoadSoundTimerRegister? || AddAddressRegister?
      || LoadSpriteAddress?
    }

    /** Variants that carry an immediate byte operand in `value`. */
    predicate HasByte() {
      SkipEqualRegByte? || SkipNotEqualRegByte? || LoadByte? || AddByte?
    }

    /** Variants that carry a register pair `xy` packed into one byte. */
    predicate HasRegisterPair() {
      || SkipEqualRegisters? || LoadRegister? || Or? || And? || Xor? || Add?
      || Sub? || ShiftRight? || SubInverted? || ShiftLeft? || SkipNotEqualReg?
    }
  }

  // Opcode fields, named as in the usual `_nnn`, `_x__`, `__y_`, `___n`, `__kk` notation.

  /** The high nibble: the instruction family. */
  function Family(op: u16): nat { op / 0x1000 }

  /** The second nibble, `x`. */
  function X(op: u16): nat { (op / 0x100) % 0x10 }

  /** The third nibble, `y`. */
  function Y(op: u16): nat { (op / 0x10) % 0x10 }

  /** The low nibble, `n`. */
  function N(op: u16): nat { op % 0x10 }

  /** The low byte, `kk`. */
  function Kk(op: u16): nat { op % 0x100 }

  /** The low twelve bits, `nnn`. */
  function Nnn(op: u16): nat { op % 0x1000 }

  // The source's own conversions of the opcode.

  /** `(value >> 8) as u8`: the high byte, family nibble included. */
  function HighByte(op: u16): byte { op / 0x100 }

  /** `(value >> 4) as u8`: the middle byte, truncated to eight bits. */
  function MiddleByte(op: u16): byte { (op / 0x10) % 0x100 }

  /** `value as u8`: the low byte. */
  function LowByte(op: u16): byte { op % 0x100 }

  /** The opcodes for which the decoder does not reach its `todo!()`. */
  predicate Decodable(op: u16) {
    var f := Family(op);
    || f in {0x0, 0x1, 0x2, 0x3, 0x4, 0x6, 0x7, 0xA, 0xB, 0xC, 0xD}
    || (f in {0x5, 0x9} && N(op) == 0)
    || (f == 0x8 && (N(op) <= 7 || N(op) == 0xE))
    || (f == 0xE && Kk(op) in {0x9E, 0xA1})
    || (f == 0xF && Kk(op) in {0x07, 0x0A, 0x15, 0x18, 0x1E, 0x29})
  }

  /** Decodes one opcode; `None` stands for the `todo!()` arm. */
  function Decode(op: u16): (r: Option<Instruction>)
    ensures r.Some? <==> Decodable(op)
    ensures op == 0x00E0 ==> r == Some(ClearScreen)
    ensures op == 0x00EE ==> r == Some(Return)
    ensures op <= 0x0FFF && op != 0x00E0 && op != 0x00EE ==> r == Some(SystemAddress(op))
  {
    Fields(op);
    var f := Family(op);
    var low := N(op);
    var kk := Kk(op);
    if op == 0x00E0 then Some(ClearScreen)
    else if op == 0x00EE then Some(Return)
    else if f == 0x0 then Some(SystemAddress(op))
    else if f == 0x1 then Some(JumpAddress(Nnn(op)))
    else if f == 0x2 then Some(CallAddress(Nnn(op)))
    else if f == 0x3 then Some(SkipEqualRegByte(HighByte(op) % 0x10, LowByte(op)))
    else if f == 0x4 then Some(SkipNotEqualRegByte(HighByte(op) % 0x10, LowByte(op)))
    else if f == 0x5 then
      if low == 0 then Some(SkipEqualRegisters(MiddleByte(op))) else None
    else if f == 0x6 then Some(LoadByte(HighByte(op), LowByte(op)))
    else if f == 0x7 then Some(AddByte(HighByte(op) % 0x10, LowByte(op)))
    else if f == 0x8 then
      if low == 0x0 then Some(LoadRegister(MiddleByte(op)))
      else if low == 0x1 then Some(Or(MiddleByte(op)))
      else if low == 0x2 then Some(And(MiddleByte(op)))
      else if low == 0x3 then Some(Xor(MiddleByte(op)))
      else if low == 0x4 then Some(Add(MiddleByte(op)))
      else if low == 0x5 then Some(Sub(MiddleByte(op)))
      else if low == 0x6 then Some(ShiftRight(MiddleByte(op)))
      else if low == 0x7 then Some(SubInverted(MiddleByte(op)))
      else if low == 0xE then Some(ShiftLeft(MiddleByte(op)))
      else None
    else if f == 0x9 then
      if low == 0 then Some(SkipNotEqualReg(MiddleByte(op))) else None
    else if f == 0xA then Some(LoadI(Nnn(op)))
    else if f == 0xB then Some(JumpAddressOffset(Nnn(op)))
    else if f == 0xC then Some(RandRange(HighByte(op) % 0x10, LowByte(op)))
    else if f == 0xD then Some(Draw(HighByte(op), LowByte(op)))
    else if f == 0xE then
      if kk == 0x9E then Some(SkipPressed(HighByte(op) % 0x10))
      else if kk == 0xA1 then Some(SkipNotPressed(HighByte(op) % 0x10))
      else None
    else
      if kk == 0x07 then Some(LoadRegisterDelayTimer(HighByte(op) % 0x10))
      else if kk == 0x0A then Some(LoadKeyPress(HighByte(op) % 0x10))
      else if kk == 0x15 then Some(LoadDelayTimerRegister(HighByte(op) % 0x10))
      else if kk == 0x18 then Some(LoadSoundTimerRegister(HighByte(op) % 0x10))
      else if kk == 0x1E then Some(AddAddressRegister(HighByte(op) % 0x10))
      else if kk == 0x29 then Some(LoadSpriteAddress(HighByte(op) % 0x10))
      else None
  }

  /** Jumps, calls, `LoadI` and `JumpAddressOffset` carry `nnn`, so their
      address is always below 0x1000; `SystemAddress` carries the whole opcode,
      which is `nnn` as well. */
  lemma DecodeAddress(op: u16)
    requires Decode(op).Some? && Decode(op).value.HasAddress()
    ensures Decode(op).value.addr == Nnn(op) < 0x1000
  {
    Fields(op);
  }

  /** The byte-immediate, key, timer and I-register forms name register `x`,
      the second nibble, so the id is always below 16. */
  lemma DecodeRegister(op: u16)
    requires Decode(op).Some? && Decode(op).value.HasRegister()
    ensures Decode(op).value.reg == X(op) < 16
  {
    Fields(op);
  }

  /** Every byte operand is the low byte `kk` of the opcode. */
  lemma DecodeByteOperand(op: u16)
    requires Decode(op).Some?
    ensures Decode(op).value.HasByte() ==> Decode(op).value.value == Kk(op)
    ensures Decode(op).value.RandRange? ==> Decode(op).value.mask == Kk(op)
    ensures Decode(op).value.Draw? ==> Decode(op).value.bytes == Kk(op)
  {
    Fields(op);
  }

  /** `5xy0`, `8xyN` and `9xy0` carry the middle byte `xy`: its high nibble is
      `x` and its low nibble is `y`. */
  lemma DecodeRegisterPair(op: u16)
    requires Decode(op).Some? && Decode(op).value.HasRegisterPair()
    ensures Decode(op).value.regs / 16 == X(op)
    ensures Decode(op).value.regs % 16 == Y(op)
  {
    Fields(op);
  }

  /** `LoadByte` and `Draw` keep the family nibble in their first field
      (`0x60 | x` and `0xD0 | x`), so that field is never a register id. */
  lemma DecodeUnmaskedHighByte(op: u16)
    requires Decode(op).Some? && (Decode(op).value.LoadByte? || Decode(op).value.Draw?)
    ensures Decode(op).value.LoadByte? ==> Decode(op).value.target == 0x60 + X(op)
    ensures Decode(op).value.Draw? ==> Decode(op).value.position == 0xD0 + X(op)
    ensures Decode(op).value.LoadByte? ==> Decode(op).value.target >= 16
    ensures Decode(op).value.Draw? ==> Decode(op).value.position >= 16
  {
    Fields(op);
  }

  /** The instructions the decoder can produce: the shapes `Encode` inverts. */
  predicate WellFormed(ins: Instruction) {
    match ins
    case SystemAddress(a) => a < 0x1000 && a != 0x00E0 && a != 0x00EE
    case LoadByte(t, _) => 0x60 <= t < 0x70
    case Draw(p, _) => 0xD0 <= p < 0xE0
    case _ =>
      && (ins.HasAddress() ==> ins.addr < 0x1000)
      && (ins.HasRegister() ==> ins.reg < 16)
  }

  /** The opcode of an instruction, written out family by family. */
  function Encode(ins: Instruction): (op: u16)
    requires WellFormed(ins)
  {
    match ins
    case SystemAddress(a) => a
    case ClearScreen => 0x00E0
    case Return => 0x00EE
    case JumpAddress(a) => 0x1000 + a
    case CallAddress(a) => 0x2000 + a
    case SkipEqualRegByte(x, kk) => 0x3000 + x * 0x100 + kk
    case SkipNotEqualRegByte(x, kk) => 0x4000 + x * 0x100 + kk
    case SkipEqualRegisters(xy) => 0x5000 + xy * 0x10
    case LoadByte(t, kk) => t * 0x100 + kk
    case AddByte(x, kk) => 0x7000 + x * 0x100 + kk
    case LoadRegister(xy) => 0x8000 + xy * 0x10
    case Or(xy) => 0x8001 + xy * 0x10
    case And(xy) => 0x8002 + xy * 0x10
    case Xor(xy) => 0x8003 + xy * 0x10
    case Add(xy) => 0x8004 + xy * 0x10
    case Sub(xy) => 0x8005 + xy * 0x10
    case ShiftRight(xy) => 0x8006 + xy * 0x10
    case SubInverted(xy) => 0x8007 + xy * 0x10
    case ShiftLeft(xy) => 0x800E + xy * 0x10
    case SkipNotEqualReg(xy) => 0x9000 + xy * 0x10
    case LoadI(a) => 0xA000 + a
    case JumpAddressOffset(a) => 0xB000 + a
    case RandRange(x, kk) => 0xC000 + x * 0x100 + kk
    case Draw(p, kk) => p * 0x100 + kk
    case SkipPressed(x) => 0xE09E + x * 0x100
    case SkipNotPressed(x) => 0xE0A1 + x * 0x100
    case LoadRegisterDelayTimer(x) => 0xF007 + x * 0x100
    case LoadKeyPress(x) => 0xF00A + x * 0x100
    case LoadDelayTimerRegister(x) => 0xF015 + x * 0x100
    case LoadSoundTimerRegister(x) => 0xF018 + x * 0x100
    case AddAddressRegister(x) => 0xF01E + x * 0x100
    case LoadSpriteAddress(x) => 0xF029 + x * 0x100
  }

  /** The nibble decomposition every field extraction rests on. */
  lemma Fields(op: u16)
    ensures op == Family(op) * 0x1000 + X(op) * 0x100 + Y(op) * 0x10 + N(op)
    ensures Family(op) < 16 && X(op) < 16 && Y(op) < 16 && N(op) < 16
    ensures Kk(op) == Y(op) * 0x10 + N(op)
    ensures Nnn(op) == X(op) * 0x100 + Kk(op)
    ensures HighByte(op) == Family(op) * 0x10 + X(op)
    ensures MiddleByte(op) == X(op) * 0x10 + Y(op)
    ensures HighByte(op) % 0x10 == X(op)
    ensures MiddleByte(op) / 0x10 == X(op) && MiddleByte(op) % 0x10 == Y(op)
    ensures LowByte(op) == Kk(op)
  {
    var n, q1 := op % 0x10, op / 0x10;
    var y, q2 := q1 % 0x10, q1 / 0x10;
    var x, f := q2 % 0x10, q2 / 0x10;
    assert op == q1 * 0x10 + n && q1 == q2 * 0x10 + y && q2 == f * 0x10 + x;
    assert f < 0x10;
    assert op == f * 0x1000 + x * 0x100 + y * 0x10 + n;
    Compose(f, x, y, n);
  }

  /** Reading the fields back from an opcode assembled out of four nibbles. */
  lemma Compose(f: nat, x: nat, y: nat, n: nat)
    requires f < 16 && x < 16 && y < 16 && n < 16
    ensures var op := f * 0x1000 + x * 0x100 + y * 0x10 + n;
            && op < 0x1_0000
            && Family(op) == f && X(op) == x && Y(op) == y && N(op) == n
            && Kk(op) == y * 0x10 + n && Nnn(op) == x * 0x100 + y * 0x10 + n
            && HighByte(op) == f * 0x10 + x && MiddleByte(op) == x * 0x10 + y
            && HighByte(op) % 0x10 == x
            && MiddleByte(op) / 0x10 == x && MiddleByte(op) % 0x10 == y
  {
    var op := f * 0x1000 + x * 0x100 + y * 0x10 + n;
    var high, low8 := f * 0x10 + x, y * 0x10 + n;
    var upper := high * 0x10 + y;
    DivMod(op, 0x1000, f, x * 0x100 + low8);
    DivMod(op, 0x100, high, low8);
    DivMod(op, 0x10, upper, n);
    DivMod(high, 0x10, f, x);
    DivMod(upper, 0x10, high, y);
    DivMod(upper, 0x100, f, x * 0x10 + y);
    DivMod(x * 0x10 + y, 0x10, x, y);
  }

  /** Every opcode the decoder accepts is rebuilt exactly by `Encode`: decoding
      loses no bit of a decodable opcode. */
  lemma EncodeDecode(op: u16)
    requires Decodable(op)
    ensures WellFormed(Decode(op).value)
    ensures Encode(Decode(op).value) == op
  {
    var f := Family(op);
    Fields(op);
    if f in {0x0, 0x1, 0x2, 0xA, 0xB} {
      EncodeDecodeAddress(op);
    } else if f in {0x3, 0x4, 0x6, 0x7, 0xC, 0xD} {
      EncodeDecodeImmediate(op);
    } else if f in {0x5, 0x8, 0x9} {
      EncodeDecodePair(op);
    } else {
      EncodeDecodeKeyTimer(op);
    }
  }

  /** `EncodeDecode` for the families `0nnn`, `1nnn`, `2nnn`, `Annn` and `Bnnn`. */
  lemma EncodeDecodeAddress(op: u16)
    requires Decodable(op) && Family(op) in {0x0, 0x1, 0x2, 0xA, 0xB}
    ensures WellFormed(Decode(op).value)
    ensures Encode(Decode(op).value) == op
  {
    Fields(op);
    if Decode(op).value.HasAddress() {
      DecodeAddress(op);
    }
  }

  /** `EncodeDecode` for the families `3xkk`, `4xkk`, `6xkk`, `7xkk`, `Cxkk` and `Dxyn`. */
  lemma EncodeDecodeImmediate(op: u16)
    requires Decodable(op) && Family(op) in {0x3, 0x4, 0x6, 0x7, 0xC, 0xD}
    ensures WellFormed(Decode(op).value)
    ensures Encode(Decode(op).value) == op
  {
    Fields(op);
    var ins := Decode(op).value;
    if ins.HasRegister() { DecodeRegister(op); }
    if ins.LoadByte? || ins.Draw? { DecodeUnmaskedHighByte(op); }
    DecodeByteOperand(op);
  }

  /** `EncodeDecode` for the register-pair families `5xy0`, `8xyN` and `9xy0`. */
  lemma EncodeDecodePair(op: u16)
    requires Decodable(op) && Family(op) in {0x5, 0x8, 0x9}
    ensures WellFormed(Decode(op).value)
    ensures Encode(Decode(op).value) == op
  {
    Fields(op);
    DecodeRegisterPair(op);
  }

  /** `EncodeDecode` for the key and timer families `Ex..` and `Fx..`. */
  lemma EncodeDecodeKeyTimer(op: u16)
    requires Decodable(op) && Family(op) in {0xE, 0xF}
    ensures WellFormed(Decode(op).value)
    ensures Encode(Decode(op).value) == op
  {
    Fields(op);
    DecodeRegister(op);
  }

  /** `DecodeEncode` for the address-carrying and literal forms. */
  lemma DecodeEncodeAddress(ins: Instruction)
    requires WellFormed(ins) && (ins.HasAddress() || ins.ClearScreen? || ins.Return?)
    ensures Decode(Encode(ins)) == Some(ins)
  {
    match ins
    case ClearScreen => Compose(0, 0, 0xE, 0);
    case Return => Compose(0, 0, 0xE, 0xE);
    case SystemAddress(a) => ComposeAddress(0, a);
    case JumpAddress(a) => ComposeAddress(1, a);
    case CallAddress(a) => ComposeAddress(2, a);
    case LoadI(a) => ComposeAddress(0xA, a);
    case JumpAddressOffset(a) => ComposeAddress(0xB, a);
  }

  /** `Compose` for a family nibble followed by a 12-bit address. */
  lemma ComposeAddress(f: nat, a: nat)
    requires f < 16 && a < 0x1000
    ensures f * 0x1000 + a < 0x1_0000
    ensures Family(f * 0x1000 + a) == f && Nnn(f * 0x1000 + a) == a
    ensures X(f * 0x1000 + a) == a / 0x100 && Kk(f * 0x1000 + a) == a % 0x100
    ensures N(f * 0x1000 + a) == a % 0x10 && Y(f * 0x1000 + a) == (a / 0x10) % 0x10
  {
    var n, q := a % 0x10, a / 0x10;
    var y, x := q % 0x10, q / 0x10;
    assert a == q * 0x10 + n && q == x * 0x10 + y;
    assert x < 0x10;
    DivMod(a, 0x100, x, y * 0x10 + n);
    Compose(f, x, y, n);
  }

  /** `DecodeEncode` for the forms with a register field and an immediate byte. */
  lemma DecodeEncodeImmediate(ins: Instruction)
    requires WellFormed(ins)
    requires ins.HasByte() || ins.RandRange? || ins.Draw?
    ensures Decode(Encode(ins)) == Some(ins)
  {
    if ins.SkipEqualRegByte? || ins.SkipNotEqualRegByte? {
      DecodeEncodeSkipByte(ins);
    } else {
      DecodeEncodeLoadByte(ins);
    }
  }

  /** `DecodeEncode` for `3xkk` and `4xkk`. */
  lemma DecodeEncodeSkipByte(ins: Instruction)
    requires WellFormed(ins) && (ins.SkipEqualRegByte? || ins.SkipNotEqualRegByte?)
    ensures Decode(Encode(ins)) == Some(ins)
  {
    match ins
    case SkipEqualRegByte(x, kk) => Compose(3, x, kk / 0x10, kk % 0x10);
    case SkipNotEqualRegByte(x, kk) => Compose(4, x, kk / 0x10, kk % 0x10);
  }

  /** `DecodeEncode` for `6xkk`, `7xkk`, `Cxkk` and `Dxyn`. */
  lemma DecodeEncodeLoadByte(ins: Instruction)
    requires WellFormed(ins) && (ins.LoadByte? || ins.AddByte? || ins.RandRange? || ins.Draw?)
    ensures Decode(Encode(ins)) == Some(ins)
  {
    match ins
    case LoadByte(t, kk) => Compose(6, t - 0x60, kk / 0x10, kk % 0x10);
    case AddByte(x, kk) => Compose(7, x, kk / 0x10, kk % 0x10);
    case RandRange(x, kk) => Compose(0xC, x, kk / 0x10, kk % 0x10);
    case Draw(p, kk) => Compose(0xD, p - 0xD0, kk / 0x10, kk % 0x10);
  }

  /** `DecodeEncode` for the register-pair forms `5xy0`, `8xyN` and `9xy0`. */
  lemma DecodeEncodePair(ins: Instruction)
    requires WellFormed(ins) && ins.HasRegisterPair()
    ensures Decode(Encode(ins)) == Some(ins)
  {
    var xy := ins.regs;
    if ins.SkipEqualRegisters? {
      Compose(5, xy / 0x10, xy % 0x10, 0);
    } else if ins.SkipNotEqualReg? {
      Compose(9, xy / 0x10, xy % 0x10, 0);
    } else {
      DecodeEncodeArithmetic(ins);
    }
  }

  /** `DecodeEncode` for the arithmetic family `8xyN`. */
  lemma DecodeEncodeArithmetic(ins: Instruction)
    requires WellFormed(ins) && ins.HasRegisterPair()
    requires !ins.SkipEqualRegisters? && !ins.SkipNotEqualReg?
    ensures Decode(Encode(ins)) == Some(ins)
  {
    var xy := ins.regs;
    var n := match ins
      case Or(_) => 0x1
      case And(_) => 0x2
      case Xor(_) => 0x3
      case Add(_) => 0x4
      case Sub(_) => 0x5
      case ShiftRight(_) => 0x6
      case SubInverted(_) => 0x7
      case ShiftLeft(_) => 0xE
      case _ => 0x0;
    Compose(8, xy / 0x10, xy % 0x10, n);
  }

  /** `DecodeEncode` for the key and timer forms `Ex..` and `Fx..`. */
  lemma DecodeEncodeKeyTimer(ins: Instruction)
    requires WellFormed(ins) && ins.HasRegister()
    requires !(ins.HasByte() || ins.RandRange?)
    ensures Decode(Encode(ins)) == Some(ins)
  {
    match ins
    case SkipPressed(x) => Compose(0xE, x, 0x9, 0xE);
    case SkipNotPressed(x) => Compose(0xE, x, 0xA, 0x1);
    case LoadRegisterDelayTimer(x) => Compose(0xF, x, 0x0, 0x7);
    case LoadKeyPress(x) => Compose(0xF, x, 0x0, 0xA);
    case LoadDelayTimerRegister(x) => Compose(0xF, x, 0x1, 0x5);
    case LoadSoundTimerRegister(x) => Compose(0xF, x, 0x1, 0x8);
    case AddAddressRegister(x) => Compose(0xF, x, 0x1, 0xE);
    case LoadSpriteAddress(x) => Compose(0xF, x, 0x2, 0x9);
  }

  /** Every instruction the decoder can produce is produced from its encoding. */
  lemma DecodeEncode(ins: Instruction)
    requires WellFormed(ins)
    ensures Decodable(Encode(ins))
    ensures Decode(Encode(ins)) == Some(ins)
  {
    if ins.HasAddress() || ins.ClearScreen? || ins.Return? {
      DecodeEncodeAddress(ins);
    } else if ins.HasByte() || ins.RandRange? || ins.Draw? {
      DecodeEncodeImmediate(ins);
    } else if ins.HasRegisterPair() {
      DecodeEncodePair(ins);
    } else {
      DecodeEncodeKeyTimer(ins);
    }
  }

  /** Decoding is injective on its domain. */
  lemma DecodeInjective(a: u16, b: u16)
    requires Decodable(a) && Decodable(b)
    requires Decode(a) == Decode(b)
    ensures a == b
  {
    EncodeDecode(a);
    EncodeDecode(b);
  }
}
