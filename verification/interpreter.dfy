/** One iteration of the interpreter's main loop as a pure step function.

    A step checks the program counter, fetches the word at it, decodes it,
    runs the instruction's arm and then does the generic `pointer += 2`.  The
    arms are the loop's match arms: the ALU flag goes to the loop-local `vf`,
    never to register 15; the key, timer and I-register arms (`Ex..`, `Fx..`)
    end in `todo!()`.  Rust panics (an `unwrap` of `None`, `todo!()`, a
    debug-build overflow of `+` or `-`) end the run and are the outcome
    `Panicked`.

    `Variant` selects between the loop as written and a corrected loop that
    differs only where the written one evidently misses its intent: the
    `LoadByte` register, the `Draw` origin registers, the program counter after
    `JumpAddress`, `CallAddress`, `Return` and `JumpAddressOffset`, and the
    byte order of the fetch.  Every other arm is shared.
 */
module Interpreter {
  import opened Bytes
  import opened Instructions
  import opened RegisterFile
  import opened Display
  import Ram

  datatype Variant = AsWritten | Corrected

  /** The loop's state: `pointer`, the register file, memory, the frame buffer
      and the local flag `vf`. */
  datatype State = State(pointer: u16, regs: Registers, mem: Ram.Memory, buffer: Screen, vf: bool)

  /** `Running` after a completed iteration; `Halted` when the loop breaks at
      `pointer >= 0xFFF`; `Spinning` for `SystemAddress`, whose `continue`
      skips the advance and so repeats the same instruction forever;
      `Panicked` when the iteration panics. */
  datatype Outcome = Running(state: State) | Halted | Spinning | Panicked

  /** Data register `id` (`get_value(id).unwrap()` for an id known to be below 16). */
  function V(s: State, id: nat): byte
    requires id < 16
  {
    s.regs.data[id]
  }

  /** The generic `pointer += 2` that ends every iteration. */
  function Advance(s: State): (o: Outcome)
    ensures s.pointer + 2 <= 0xFFFF ==> o == Running(s.(pointer := s.pointer + 2))
    ensures s.pointer + 2 > 0xFFFF ==> o == Panicked
  {
    if s.pointer + 2 > 0xFFFF then Panicked else Running(s.(pointer := s.pointer + 2))
  }

  /** A conditional skip: an extra `pointer += 2` when `cond` holds, then the advance. */
  function SkipIf(s: State, cond: bool): Outcome {
    if !cond then Advance(s)
    else if s.pointer + 2 > 0xFFFF then Panicked
    else Advance(s.(pointer := s.pointer + 2))
  }

  /** `*registers.get_value_mut(id).unwrap() = value`, then the advance. */
  function WriteRegister(s: State, id: byte, value: byte): Outcome {
    match SetValue(s.regs, id, value)
    case None => Panicked
    case Some(regs) => Advance(s.(regs := regs))
  }

  /** `(*register, vf) = (value, flag)` for a register id below 16, then the advance. */
  function WriteWithFlag(s: State, id: nat, value: byte, flag: bool): Outcome
    requires id < 16
  {
    Advance(s.(regs := SetValue(s.regs, id, value).value, vf := flag))
  }

  /** The registers holding the sprite origin: `(position >> 4, position & 0xF)`
      as written, where `position` is the unmasked `0xD0 | x`; `(x, y)` corrected. */
  function DrawOrigin(position: byte, bytes: byte, v: Variant): (xy: (nat, nat))
    ensures xy.0 < 16 && xy.1 < 16
  {
    if v.AsWritten? then (position / 16, position % 16) else (position % 16, bytes / 16)
  }

  /** Rows i..n-1 of a `Draw`: row i is the byte at `I + i`, drawn at column
      offset `i / 5` and row `(i % 5 + y) % 32`.  Panics when `I + i`
      overflows or leaves memory. */
  function DrawSprite(buffer: Screen, mem: Ram.Memory, base: u16, x: nat, y: nat, n: nat, i: nat): (r: Checked<Screen>)
    ensures r.Ok? <==> i >= n || base + n <= Ram.Size
    ensures i >= n ==> r == Ok(buffer)
    decreases n - i
  {
    if i >= n then Ok(buffer)
    else if base + i > 0xFFFF then Panic
    else match Ram.Load(mem, base + i)
      case None => Panic
      case Some(b) =>
        var row := DrawByte(buffer, x + i / 5, SpriteRow(y, i), b).0;
        DrawSprite(row, mem, base, x, y, n, i + 1)
  }

  /** The screen row that sprite row i of a `Draw` from row `y` lands on. */
  function SpriteRow(y: nat, i: nat): nat {
    (i % 5 + y) % Height
  }

  /** No sprite row from i to n-1 lands on screen row `row`. */
  predicate RowSpared(y: nat, n: nat, i: nat, row: nat) {
    forall j | i <= j < n :: SpriteRow(y, j) != row
  }

  /** A row spared by sprite rows i..n-1 is not row i and is spared by the rest. */
  lemma SparedRowStep(y: nat, n: nat, i: nat, row: nat)
    requires i < n && RowSpared(y, n, i, row)
    ensures SpriteRow(y, i) != row && RowSpared(y, n, i + 1, row)
  {
  }

  /** One row of a draw that stays inside memory: row i is drawn, then the rest. */
  lemma DrawSpriteStep(buffer: Screen, mem: Ram.Memory, base: u16, x: nat, y: nat, n: nat, i: nat)
    requires i < n && base + n <= Ram.Size
    ensures DrawSprite(buffer, mem, base, x, y, n, i)
            == DrawSprite(DrawByte(buffer, x + i / 5, SpriteRow(y, i), mem.data[base + i]).0, mem, base, x, y, n, i + 1)
  {
  }

  /** A successful draw of rows i..n-1 changes only pixels on the screen rows
      those sprite rows land on: pixel `k` on any other row keeps its value. */
  lemma {:induction false} DrawSpriteKeepsOtherRows(buffer: Screen, mem: Ram.Memory, base: u16, x: nat, y: nat, n: nat, i: nat, k: nat)
    requires k < 2048 && RowSpared(y, n, i, k / Width)
    ensures var r := DrawSprite(buffer, mem, base, x, y, n, i);
            r.Ok? ==> r.value[k] == buffer[k]
    decreases n - i
  {
    if i < n && base + n <= Ram.Size {
      var row := DrawByte(buffer, x + i / 5, SpriteRow(y, i), mem.data[base + i]).0;
      DrawSpriteStep(buffer, mem, base, x, y, n, i);
      SparedRowStep(y, n, i, k / Width);
      DrawByteOtherRow(buffer, x + i / 5, SpriteRow(y, i), mem.data[base + i], k);
      DrawSpriteKeepsOtherRows(row, mem, base, x, y, n, i + 1, k);
    }
  }

  /** Sprite row j of a `Draw` at `(x, y)` writes pixel `k`: `k` lies on the
      screen row it lands on, within the eight columns from `x + j / 5`. */
  predicate Covers(x: nat, y: nat, j: nat, k: nat) {
    k / Width == SpriteRow(y, j) && Offset(x + j / 5, k) < 8
  }

  /** The last of sprite rows lo..hi-1 that writes pixel `k`, if any. */
  function LastCover(x: nat, y: nat, lo: nat, hi: nat, k: nat): (r: Option<nat>)
    ensures r.Some? ==> lo <= r.value < hi && Covers(x, y, r.value, k)
    ensures r.Some? ==> forall j | r.value < j < hi :: !Covers(x, y, j, k)
    ensures r.None? ==> forall j | lo <= j < hi :: !Covers(x, y, j, k)
    decreases hi - lo
  {
    if hi <= lo then None
    else if Covers(x, y, hi - 1, k) then Some(hi - 1)
    else LastCover(x, y, lo, hi - 1, k)
  }

  /** Pixel `k` after sprite rows i..n-1 are drawn over `buffer`, stated without
      the loop: the bit of the last sprite row that writes it (each row
      overwrites, so the last one wins), or its old value when no row does. */
  function DrawnPixel(buffer: Screen, mem: Ram.Memory, base: u16, x: nat, y: nat, n: nat, i: nat, k: nat): u32
    requires k < 2048 && (i >= n || base + n <= Ram.Size)
  {
    match LastCover(x, y, i, n, k)
    case None => buffer[k]
    case Some(j) => PixelValue(SpriteBit(mem.data[base + j], Offset(x + j / 5, k)))
  }

  /** Widening the search down by one row: row lo counts only when no later row
      writes the pixel. */
  lemma {:induction false} LastCoverStep(x: nat, y: nat, lo: nat, hi: nat, k: nat)
    requires lo < hi
    ensures LastCover(x, y, lo, hi, k)
            == if LastCover(x, y, lo + 1, hi, k).Some? then LastCover(x, y, lo + 1, hi, k)
               else if Covers(x, y, lo, k) then Some(lo) else None
    decreases hi - lo
  {
    if !Covers(x, y, hi - 1, k) && lo + 1 < hi {
      LastCoverStep(x, y, lo, hi - 1, k);
    }
  }

  /** Over the screen sprite row i leaves, rows i+1..n-1 yield the pixel that
      rows i..n-1 yield over the original. */
  lemma DrawnPixelStep(buffer: Screen, row: Screen, mem: Ram.Memory, base: u16, x: nat, y: nat, n: nat, i: nat, k: nat)
    requires k < 2048 && i < n && base + n <= Ram.Size
    requires row == DrawByte(buffer, x + i / 5, SpriteRow(y, i), mem.data[base + i]).0
    ensures DrawnPixel(row, mem, base, x, y, n, i + 1, k) == DrawnPixel(buffer, mem, base, x, y, n, i, k)
  {
    var pixel := if Covers(x, y, i, k) then PixelValue(SpriteBit(mem.data[base + i], Offset(x + i / 5, k))) else buffer[k];
    assert row[k] == pixel by {
      DrawBytePixel(buffer, x + i / 5, SpriteRow(y, i), mem.data[base + i], k);
    }
    DrawnPixelShift(buffer, row, mem, base, x, y, n, i, k);
  }

  /** The same, for any screen whose pixel `k` shows what sprite row i draws there. */
  lemma DrawnPixelShift(buffer: Screen, row: Screen, mem: Ram.Memory, base: u16, x: nat, y: nat, n: nat, i: nat, k: nat)
    requires k < 2048 && i < n && base + n <= Ram.Size
    requires row[k] == if Covers(x, y, i, k) then PixelValue(SpriteBit(mem.data[base + i], Offset(x + i / 5, k))) else buffer[k]
    ensures DrawnPixel(row, mem, base, x, y, n, i + 1, k) == DrawnPixel(buffer, mem, base, x, y, n, i, k)
  {
    LastCoverStep(x, y, i, n, k);
    var later := LastCover(x, y, i + 1, n, k);
    if later.Some? {
      assert LastCover(x, y, i, n, k) == later;
    } else if Covers(x, y, i, k) {
      assert LastCover(x, y, i, n, k) == Some(i);
    } else {
      assert LastCover(x, y, i, n, k).None?;
    }
  }

  /** Row i of the loop passes the pixel on: if rows i+1..n-1 leave it as
      `DrawnPixel` says over any screen, so do rows i..n-1. */
  lemma DrawSpritePixelStep(buffer: Screen, mem: Ram.Memory, base: u16, x: nat, y: nat, n: nat, i: nat, next: nat, k: nat)
    requires k < 2048 && i < n && base + n <= Ram.Size && next == i + 1
    requires forall b: Screen :: DrawSprite(b, mem, base, x, y, n, next).value[k] == DrawnPixel(b, mem, base, x, y, n, next, k)
    ensures DrawSprite(buffer, mem, base, x, y, n, i).value[k] == DrawnPixel(buffer, mem, base, x, y, n, i, k)
  {
    var row := DrawByte(buffer, x + i / 5, SpriteRow(y, i), mem.data[base + i]).0;
    calc {
      DrawSprite(buffer, mem, base, x, y, n, i).value[k];
      == { DrawSpriteStep(buffer, mem, base, x, y, n, i); }
      DrawSprite(row, mem, base, x, y, n, next).value[k];
      DrawnPixel(row, mem, base, x, y, n, next, k);
      == { DrawnPixelStep(buffer, row, mem, base, x, y, n, i, k); }
      DrawnPixel(buffer, mem, base, x, y, n, i, k);
    }
  }

  /** The row loop of a `Draw` leaves every pixel as `DrawnPixel` describes it,
      whenever its rows lie in memory. */
  lemma {:induction false} DrawSpritePixel(buffer: Screen, mem: Ram.Memory, base: u16, x: nat, y: nat, n: nat, i: nat, k: nat)
    requires k < 2048 && (i >= n || base + n <= Ram.Size)
    ensures DrawSprite(buffer, mem, base, x, y, n, i).Ok?
    ensures DrawSprite(buffer, mem, base, x, y, n, i).value[k] == DrawnPixel(buffer, mem, base, x, y, n, i, k)
    decreases n - i
  {
    if i >= n {
      assert LastCover(x, y, i, n, k).None?;
    } else {
      var next := i + 1;
      forall b: Screen
        ensures DrawSprite(b, mem, base, x, y, n, next).value[k] == DrawnPixel(b, mem, base, x, y, n, next, k)
      {
        DrawSpritePixel(b, mem, base, x, y, n, next, k);
      }
      DrawSpritePixelStep(buffer, mem, base, x, y, n, i, next, k);
    }
  }

  /** `ClearScreen`: `buffer.fill(0)`. */
  function ClearArm(s: State): Outcome {
    Advance(s.(buffer := Blank()))
  }

  /** `JumpAddress`: `pointer = address`, then the advance as written. */
  function JumpArm(s: State, a: u16, v: Variant): Outcome {
    if v.AsWritten? then Advance(s.(pointer := a)) else Running(s.(pointer := a))
  }

  /** `5xy0` (`equal`) and `9xy0`: compare `Vy` (`regs & 0xF`) with `Vx`. */
  function SkipPairArm(s: State, regs: byte, equal: bool): Outcome {
    SkipIf(s, (V(s, regs % 16) == V(s, regs / 16)) == equal)
  }

  /** `6xkk`: the register id is the field as decoded (`0x60 | x`) as written,
      its low nibble corrected. */
  function LoadByteArm(s: State, target: byte, b: byte, v: Variant): Outcome {
    WriteRegister(s, if v.AsWritten? then target else target % 16, b)
  }

  /** `Annn`: `*registers.address_mut() = address`. */
  function LoadIArm(s: State, a: u16): Outcome {
    Advance(s.(regs := SetAddress(s.regs, a)))
  }

  /** `Cxkk`: the random byte masked with `kk`. */
  function RandArm(s: State, reg: byte, mask: byte, rnd: byte): Outcome {
    WriteRegister(s, reg % 16, BitAnd(rnd, mask))
  }

  /** `Return`: `pointer = memory.pop().unwrap() - 2` as written, the popped
      address itself corrected; then the advance. */
  function ReturnArm(s: State, v: Variant): Outcome
    requires Ram.Valid(s.mem)
  {
    match Ram.Pop(s.mem)
    case (_, None) => Panicked
    case (mem, Some(top)) =>
      if v.Corrected? then Advance(s.(mem := mem, pointer := top))
      else if top < 2 then Panicked
      else Advance(s.(mem := mem, pointer := top - 2))
  }

  /** `CallAddress`: pushes the pointer (ignoring whether the push succeeded)
      and jumps; as written the advance follows. */
  function CallArm(s: State, a: u16, v: Variant): Outcome
    requires Ram.Valid(s.mem)
  {
    var next := s.(mem := Ram.Push(s.mem, s.pointer).0, pointer := a);
    if v.AsWritten? then Advance(next) else Running(next)
  }

  /** `JumpAddressOffset`: `pointer = address + I` then the advance as written;
      `pointer = address + V0` corrected. */
  function JumpOffsetArm(s: State, a: u16, v: Variant): Outcome {
    if v.AsWritten? then
      if a + Address(s.regs) > 0xFFFF then Panicked
      else Advance(s.(pointer := a + Address(s.regs)))
    else if a + V(s, 0) > 0xFFFF then Panicked
    else Running(s.(pointer := a + V(s, 0)))
  }

  /** `3xkk` (`equal`) and `4xkk`: compare register `reg` with the byte. */
  function SkipByteArm(s: State, reg: byte, b: byte, equal: bool): Outcome {
    match GetValue(s.regs, reg)
    case None => Panicked
    case Some(value) => SkipIf(s, (value == b) == equal)
  }

  /** `7xkk`: `+=` on a byte, which panics on overflow. */
  function AddByteArm(s: State, reg: byte, b: byte): Outcome {
    match GetValue(s.regs, reg)
    case None => Panicked
    case Some(value) => if value + b > 0xFF then Panicked else WriteRegister(s, reg, value + b)
  }

  /** The value `8xy0` to `8xy3` store: `Vy`, `Vx | Vy`, `Vx & Vy` or `Vx ^ Vy`. */
  function LogicValue(s: State, ins: Instruction): byte
    requires ins.LoadRegister? || ins.Or? || ins.And? || ins.Xor?
  {
    var x, y := ins.regs / 16, ins.regs % 16;
    match ins
    case LoadRegister(_) => V(s, y)
    case Or(_) => BitOr(V(s, x), V(s, y))
    case And(_) => BitAnd(V(s, x), V(s, y))
    case Xor(_) => BitXor(V(s, x), V(s, y))
  }

  /** `8xy0` to `8xy3`: `Vx` gets the logic value. */
  function LogicArm(s: State, ins: Instruction): Outcome
    requires ins.LoadRegister? || ins.Or? || ins.And? || ins.Xor?
  {
    WriteRegister(s, ins.regs / 16, LogicValue(s, ins))
  }

  /** `8xy4` to `8xy7` and `8xyE`: the flag-setting arithmetic.  The shifts act
      on register y (`regs & 0xF`). */
  function ArithmeticArm(s: State, ins: Instruction): Outcome
    requires ins.Add? || ins.Sub? || ins.ShiftRight? || ins.SubInverted? || ins.ShiftLeft?
  {
    var x, y := ins.regs / 16, ins.regs % 16;
    match ins
    case Add(_) => WriteWithFlag(s, x, (V(s, x) + V(s, y)) % 0x100, V(s, x) + V(s, y) > 0xFF)
    case Sub(_) => WriteWithFlag(s, x, (V(s, x) - V(s, y)) % 0x100, V(s, x) < V(s, y))
    case ShiftRight(_) => WriteWithFlag(s, y, V(s, y) / 2, V(s, y) % 2 == 1)
    case SubInverted(_) => WriteWithFlag(s, x, (V(s, y) - V(s, x)) % 0x100, V(s, y) < V(s, x))
    case ShiftLeft(_) => WriteWithFlag(s, y, (2 * V(s, y)) % 0x100, V(s, y) >= 0x80)
  }

  /** `Dxyn`: draws `n` rows from the origin registers; the collision result
      of `draw_byte` is discarded. */
  function DrawArm(s: State, position: byte, bytes: byte, v: Variant): Outcome
    requires Ram.Valid(s.mem)
  {
    var origin := DrawOrigin(position, bytes, v);
    match DrawSprite(s.buffer, s.mem, Address(s.regs), V(s, origin.0), V(s, origin.1), bytes % 16, 0)
    case Panic => Panicked
    case Ok(buffer) => Advance(s.(buffer := buffer))
  }

  /** `8xy0` to `8xy3`. */
  predicate IsLogic(ins: Instruction) {
    ins.LoadRegister? || ins.Or? || ins.And? || ins.Xor?
  }

  /** `8xy4` to `8xy7` and `8xyE`. */
  predicate IsArithmetic(ins: Instruction) {
    ins.Add? || ins.Sub? || ins.ShiftRight? || ins.SubInverted? || ins.ShiftLeft?
  }

  /** The arm for one instruction followed by the generic advance. */
  function Execute(s: State, ins: Instruction, rnd: byte, v: Variant): (o: Outcome)
    requires Ram.Valid(s.mem)
  {
    if IsLogic(ins) then LogicArm(s, ins)
    else if IsArithmetic(ins) then ArithmeticArm(s, ins)
    else match ins
      case SystemAddress(_) => Spinning
      case ClearScreen => ClearArm(s)
      case Return => ReturnArm(s, v)
      case JumpAddress(a) => JumpArm(s, a, v)
      case CallAddress(a) => CallArm(s, a, v)
      case SkipEqualRegByte(reg, b) => SkipByteArm(s, reg, b, true)
      case SkipNotEqualRegByte(reg, b) => SkipByteArm(s, reg, b, false)
      case SkipEqualRegisters(regs) => SkipPairArm(s, regs, true)
      case SkipNotEqualReg(regs) => SkipPairArm(s, regs, false)
      case LoadByte(target, b) => LoadByteArm(s, target, b, v)
      case AddByte(reg, b) => AddByteArm(s, reg, b)
      case LoadI(a) => LoadIArm(s, a)
      case JumpAddressOffset(a) => JumpOffsetArm(s, a, v)
      case RandRange(reg, mask) => RandArm(s, reg, mask, rnd)
      case Draw(position, bytes) => DrawArm(s, position, bytes, v)
      case _ =>
        // SkipPressed, SkipNotPressed and the Fx.. forms: `todo!()`
        Panicked
  }

  /** The little-endian word at `pointer` (`u16::from_le_bytes` of
      `slice(pointer..pointer + 2)`) as written; the big-endian one corrected.
      The slice is refused, and its `unwrap` panics, at `pointer == 0xFFE`. */
  function Fetch(s: State, v: Variant): (r: Checked<u16>)
    requires s.pointer < 0xFFF
    ensures r.Ok? <==> s.pointer < 0xFFE
    ensures r.Ok? && v.AsWritten? ==>
              r.value == s.mem.data[s.pointer] as int + 0x100 * s.mem.data[s.pointer + 1] as int
    ensures r.Ok? && v.Corrected? ==>
              r.value == 0x100 * s.mem.data[s.pointer] as int + s.mem.data[s.pointer + 1] as int
  {
    match Ram.Slice(s.mem, s.pointer, s.pointer + 2)
    case Panic => Panic
    case Ok(None) => Panic
    case Ok(Some(word)) =>
      if v.AsWritten? then Ok(Ram.WordOf(word[0], word[1])) else Ok(Ram.WordOf(word[1], word[0]))
  }

  /** One iteration of the main loop. */
  function Step(s: State, rnd: byte, v: Variant): (o: Outcome)
    requires Ram.Valid(s.mem)
    ensures s.pointer >= 0xFFF ==> o == Halted
    ensures s.pointer == 0xFFE ==> o == Panicked
    ensures s.pointer < 0xFFE && Decodable(Fetch(s, v).value) ==>
              o == Execute(s, Decode(Fetch(s, v).value).value, rnd, v)
    ensures s.pointer < 0xFFE && !Decodable(Fetch(s, v).value) ==> o == Panicked
  {
    if s.pointer >= 0xFFF then Halted
    else match Fetch(s, v)
      case Panic => Panicked
      case Ok(op) =>
        match Decode(op)
        case None => Panicked
        case Some(ins) => Execute(s, ins, rnd, v)
  }

  // Properties of the arms

  /** 1 for a set flag, 0 for a clear one. */
  function Flag(b: bool): nat {
    if b then 1 else 0
  }

  /** `t` is `s` after one iteration that wrote at most data register `x` (and
      possibly the flag): same memory, screen, I register and timers, every
      other data register unchanged, and the pointer advanced by 2. */
  predicate WritesOnly(s: State, t: State, x: nat) {
    && t.pointer == s.pointer + 2
    && t.mem == s.mem && t.buffer == s.buffer
    && t.regs.address == s.regs.address
    && t.regs.delay == s.regs.delay && t.regs.sound == s.regs.sound
    && forall j | 0 <= j < 16 && j != x :: t.regs.data[j] == s.regs.data[j]
  }

  /** `Add`: `Vx` and the flag together hold the full 9-bit sum `Vx + Vy`; the
      flag is the loop-local `vf`, so register 15 is written only when x is 15. */
  lemma ExecuteAdd(s: State, regs: byte, rnd: byte, v: Variant)
    requires Ram.Valid(s.mem)
    ensures var o := Execute(s, Add(regs), rnd, v);
            && (s.pointer + 2 > 0xFFFF ==> o == Panicked)
            && (s.pointer + 2 <= 0xFFFF ==>
                  && o.Running? && WritesOnly(s, o.state, regs / 16)
                  && V(o.state, regs / 16) + 0x100 * Flag(o.state.vf) == V(s, regs / 16) + V(s, regs % 16))
  {
  }

  /** `Sub`: `Vx - Vy` is the new `Vx` less a borrow of 256 when the flag is set,
      so the flag means `Vx < Vy` (a borrow, not "no borrow"). */
  lemma ExecuteSub(s: State, regs: byte, rnd: byte, v: Variant)
    requires Ram.Valid(s.mem)
    ensures var o := Execute(s, Sub(regs), rnd, v);
            && (s.pointer + 2 > 0xFFFF ==> o == Panicked)
            && (s.pointer + 2 <= 0xFFFF ==>
                  && o.Running? && WritesOnly(s, o.state, regs / 16)
                  && V(s, regs / 16) - V(s, regs % 16) == V(o.state, regs / 16) - 0x100 * Flag(o.state.vf)
                  && (o.state.vf <==> V(s, regs / 16) < V(s, regs % 16)))
  {
  }

  /** `SubInverted`: `Vy - Vx` is the new `Vx` less a borrow of 256 when the flag
      is set. */
  lemma ExecuteSubInverted(s: State, regs: byte, rnd: byte, v: Variant)
    requires Ram.Valid(s.mem)
    ensures var o := Execute(s, SubInverted(regs), rnd, v);
            && (s.pointer + 2 > 0xFFFF ==> o == Panicked)
            && (s.pointer + 2 <= 0xFFFF ==>
                  && o.Running? && WritesOnly(s, o.state, regs / 16)
                  && V(s, regs % 16) - V(s, regs / 16) == V(o.state, regs / 16) - 0x100 * Flag(o.state.vf)
                  && (o.state.vf <==> V(s, regs % 16) < V(s, regs / 16)))
  {
  }

  /** `ShiftRight` acts on register y (`regs & 0xF`): the new value and the flag
      are the quotient and remainder of the old value by 2. */
  lemma ExecuteShiftRight(s: State, regs: byte, rnd: byte, v: Variant)
    requires Ram.Valid(s.mem)
    ensures var o := Execute(s, ShiftRight(regs), rnd, v);
            && (s.pointer + 2 > 0xFFFF ==> o == Panicked)
            && (s.pointer + 2 <= 0xFFFF ==>
                  && o.Running? && WritesOnly(s, o.state, regs % 16)
                  && 2 * V(o.state, regs % 16) + Flag(o.state.vf) == V(s, regs % 16))
  {
  }

  /** `ShiftLeft` acts on register y: the new value and the flag together are
      twice the old value, the flag being the bit shifted out. */
  lemma ExecuteShiftLeft(s: State, regs: byte, rnd: byte, v: Variant)
    requires Ram.Valid(s.mem)
    ensures var o := Execute(s, ShiftLeft(regs), rnd, v);
            && (s.pointer + 2 > 0xFFFF ==> o == Panicked)
            && (s.pointer + 2 <= 0xFFFF ==>
                  && o.Running? && WritesOnly(s, o.state, regs % 16)
                  && V(o.state, regs % 16) + 0x100 * Flag(o.state.vf) == 2 * V(s, regs % 16))
  {
  }

  /** `LoadRegister` copies `Vy` into `Vx` and changes nothing else. */
  lemma ExecuteLoadRegister(s: State, regs: byte, rnd: byte, v: Variant)
    requires Ram.Valid(s.mem) && s.pointer + 2 <= 0xFFFF
    ensures var o := Execute(s, LoadRegister(regs), rnd, v);
            && o.Running? && WritesOnly(s, o.state, regs / 16) && o.state.vf == s.vf
            && V(o.state, regs / 16) == V(s, regs % 16)
  {
  }

  /** The state after `8xy0` to `8xy3` when the advance cannot overflow. */
  lemma LogicStep(s: State, ins: Instruction, rnd: byte, v: Variant)
    requires Ram.Valid(s.mem) && s.pointer + 2 <= 0xFFFF
    requires ins.LoadRegister? || ins.Or? || ins.And? || ins.Xor?
    ensures Execute(s, ins, rnd, v) ==
              Running(s.(pointer := s.pointer + 2,
                         regs := s.regs.(data := s.regs.data[ins.regs / 16 := LogicValue(s, ins)])))
  {
    WriteStep(s, ins.regs / 16, LogicValue(s, ins));
  }

  /** A register write with an id below 16 and room for the advance. */
  lemma WriteStep(s: State, id: byte, value: byte)
    requires id < 16 && s.pointer + 2 <= 0xFFFF
    ensures WriteRegister(s, id, value) ==
              Running(s.(pointer := s.pointer + 2, regs := s.regs.(data := s.regs.data[id := value])))
  {
  }

  /** `Or`, `And` and `Xor` write only `Vx` and leave the flag alone. */
  lemma ExecuteLogic(s: State, ins: Instruction, rnd: byte, v: Variant)
    requires Ram.Valid(s.mem) && s.pointer + 2 <= 0xFFFF
    requires ins.Or? || ins.And? || ins.Xor?
    ensures var o := Execute(s, ins, rnd, v);
            o.Running? && WritesOnly(s, o.state, ins.regs / 16) && o.state.vf == s.vf
  {
    LogicStep(s, ins, rnd, v);
  }

  /** With x equal to y, `Xor` clears the register. */
  lemma XorWithItself(s: State, regs: byte, rnd: byte, v: Variant)
    requires Ram.Valid(s.mem) && s.pointer + 2 <= 0xFFFF && regs / 16 == regs % 16
    ensures var o := Execute(s, Xor(regs), rnd, v);
            o.Running? && o.state.regs.data[regs / 16] == 0
  {
    ByteWidth();
    BitsSelf(V(s, regs / 16), 8);
    LogicStep(s, Xor(regs), rnd, v);
  }

  /** With x equal to y, `Or` and `And` leave every register as it was. */
  lemma OrAndWithItself(s: State, regs: byte, rnd: byte, v: Variant)
    requires Ram.Valid(s.mem) && s.pointer + 2 <= 0xFFFF && regs / 16 == regs % 16
    ensures var o := Execute(s, Or(regs), rnd, v); o.Running? && o.state.regs == s.regs
    ensures var o := Execute(s, And(regs), rnd, v); o.Running? && o.state.regs == s.regs
  {
    var x := regs / 16;
    ByteWidth();
    BitsSelf(V(s, x), 8);
    assert s.regs.data[x := V(s, x)] == s.regs.data;
    LogicStep(s, Or(regs), rnd, v);
    LogicStep(s, And(regs), rnd, v);
  }

  /** Two identical `Vx ^= Vy` updates of a register bank with x different
      from y cancel out. */
  lemma XorBankTwice(d: Bank, x: nat, y: nat)
    requires x < 16 && y < 16 && x != y
    ensures var d1 := d[x := BitXor(d[x], d[y])];
            d1[x := BitXor(d1[x], d1[y])] == d
  {
    ByteWidth();
    XorInvolution(d[x], d[y], 8);
  }

  /** Applying the same `Xor` twice with x different from y restores every
      register: the arm is its own inverse. */
  lemma XorTwiceRestores(s: State, regs: byte, rnd: byte, v: Variant)
    requires Ram.Valid(s.mem) && s.pointer + 4 <= 0xFFFF && regs / 16 != regs % 16
    ensures var t := Execute(s, Xor(regs), rnd, v).state;
            var u := Execute(t, Xor(regs), rnd, v);
            u.Running? && u.state.regs == s.regs && u.state.pointer == s.pointer + 4
  {
    LogicStep(s, Xor(regs), rnd, v);
    var t := Execute(s, Xor(regs), rnd, v).state;
    LogicStep(t, Xor(regs), rnd, v);
    XorBankTwice(s.regs.data, regs / 16, regs % 16);
  }

  /** `RandRange` stores the random byte masked with the operand: a value whose
      set bits all lie in the mask, so it never exceeds the mask; nothing else
      changes. */
  lemma ExecuteRandRange(s: State, reg: byte, mask: byte, rnd: byte, v: Variant)
    requires Ram.Valid(s.mem) && s.pointer + 2 <= 0xFFFF
    ensures var o := Execute(s, RandRange(reg, mask), rnd, v);
            && o.Running? && WritesOnly(s, o.state, reg % 16) && o.state.vf == s.vf
            && V(o.state, reg % 16) == BitAnd(rnd, mask)
            && BitAnd(V(o.state, reg % 16), mask) == V(o.state, reg % 16)
            && V(o.state, reg % 16) <= mask
  {
    ByteWidth();
    AndUnderMask(rnd, mask, 8);
  }

  /** `AddByte` panics exactly when the sum leaves the byte range (a debug-build
      overflow of `+=`), and otherwise adds the byte to register x alone. */
  lemma ExecuteAddByte(s: State, reg: byte, b: byte, rnd: byte, v: Variant)
    requires Ram.Valid(s.mem) && reg < 16 && s.pointer + 2 <= 0xFFFF
    ensures var o := Execute(s, AddByte(reg, b), rnd, v);
            && (o.Running? <==> V(s, reg) + b < 0x100)
            && (o.Running? ==> WritesOnly(s, o.state, reg) && V(o.state, reg) == V(s, reg) + b)
            && (!o.Running? ==> o == Panicked)
  {
  }

  /** `LoadI` sets the I register to the address and changes nothing else. */
  lemma ExecuteLoadI(s: State, a: u16, rnd: byte, v: Variant)
    requires Ram.Valid(s.mem) && s.pointer + 2 <= 0xFFFF
    ensures var o := Execute(s, LoadI(a), rnd, v);
            && o.Running? && Address(o.state.regs) == a
            && o.state.regs.data == s.regs.data && o.state.pointer == s.pointer + 2
            && o.state.mem == s.mem && o.state.buffer == s.buffer
  {
  }

  /** `Draw` runs on exactly when its rows lie inside memory and the pointer can
      advance. It then changes no register and no memory; pixel `k` shows the
      bit of the last sprite row that writes it, and keeps its value when no
      sprite row does, in particular when it lies on a screen row no sprite row
      lands on. */
  lemma ExecuteDraw(s: State, position: byte, bytes: byte, rnd: byte, v: Variant, k: nat)
    requires Ram.Valid(s.mem) && k < 2048
    ensures var o := Execute(s, Draw(position, bytes), rnd, v);
            o.Running? <==> (bytes % 16 == 0 || Address(s.regs) + bytes % 16 <= Ram.Size) && s.pointer + 2 <= 0xFFFF
    ensures var o := Execute(s, Draw(position, bytes), rnd, v);
            var origin := DrawOrigin(position, bytes, v);
            o.Running? ==>
              && o.state.regs == s.regs && o.state.mem == s.mem && o.state.pointer == s.pointer + 2
              && o.state.buffer[k] == DrawnPixel(s.buffer, s.mem, Address(s.regs), V(s, origin.0), V(s, origin.1), bytes % 16, 0, k)
              && (RowSpared(V(s, origin.1), bytes % 16, 0, k / Width) ==> o.state.buffer[k] == s.buffer[k])
  {
    DrawDispatch(s, position, bytes, rnd, v);
    DrawArmFrame(s, position, bytes, v, k);
  }

  /** `Execute` sends `Draw` to its arm. */
  lemma DrawDispatch(s: State, position: byte, bytes: byte, rnd: byte, v: Variant)
    requires Ram.Valid(s.mem)
    ensures Execute(s, Draw(position, bytes), rnd, v) == DrawArm(s, position, bytes, v)
  {
  }

  /** The `Draw` arm itself, apart from the dispatch. */
  lemma DrawArmFrame(s: State, position: byte, bytes: byte, v: Variant, k: nat)
    requires Ram.Valid(s.mem) && k < 2048
    ensures var o := DrawArm(s, position, bytes, v);
            o.Running? <==> (bytes % 16 == 0 || Address(s.regs) + bytes % 16 <= Ram.Size) && s.pointer + 2 <= 0xFFFF
    ensures var o := DrawArm(s, position, bytes, v);
            var origin := DrawOrigin(position, bytes, v);
            o.Running? ==>
              && o.state.regs == s.regs && o.state.mem == s.mem && o.state.pointer == s.pointer + 2
              && o.state.buffer[k] == DrawnPixel(s.buffer, s.mem, Address(s.regs), V(s, origin.0), V(s, origin.1), bytes % 16, 0, k)
              && (RowSpared(V(s, origin.1), bytes % 16, 0, k / Width) ==> o.state.buffer[k] == s.buffer[k])
  {
    var origin := DrawOrigin(position, bytes, v);
    var n := bytes % 16;
    if n == 0 || Address(s.regs) + n <= Ram.Size {
      DrawSpritePixel(s.buffer, s.mem, Address(s.regs), V(s, origin.0), V(s, origin.1), n, 0, k);
    }
    if RowSpared(V(s, origin.1), n, 0, k / Width) {
      DrawSpriteKeepsOtherRows(s.buffer, s.mem, Address(s.regs), V(s, origin.0), V(s, origin.1), n, 0, k);
    }
  }

  /** `ClearScreen` darkens every pixel and changes nothing else. */
  lemma ExecuteClearScreen(s: State, rnd: byte, v: Variant)
    requires Ram.Valid(s.mem) && s.pointer + 2 <= 0xFFFF
    ensures var o := Execute(s, ClearScreen, rnd, v);
            && o.Running? && (forall k | 0 <= k < 2048 :: o.state.buffer[k] == 0)
            && o.state.regs == s.regs && o.state.mem == s.mem && o.state.pointer == s.pointer + 2
  {
  }

  /** The condition under which a skip instruction skips. */
  predicate SkipTaken(s: State, ins: Instruction)
    requires ins.SkipEqualRegByte? || ins.SkipNotEqualRegByte? || ins.SkipEqualRegisters? || ins.SkipNotEqualReg?
    requires (ins.SkipEqualRegByte? || ins.SkipNotEqualRegByte?) ==> ins.reg < 16
  {
    match ins
    case SkipEqualRegByte(x, kk) => s.regs.data[x] == kk
    case SkipNotEqualRegByte(x, kk) => s.regs.data[x] != kk
    case SkipEqualRegisters(xy) => s.regs.data[xy / 16] == s.regs.data[xy % 16]
    case SkipNotEqualReg(xy) => s.regs.data[xy / 16] != s.regs.data[xy % 16]
  }

  /** A skip moves the pointer 4 when its condition holds (its own `+= 2`, then
      the advance) and 2 otherwise, and changes nothing else. */
  lemma ExecuteSkip(s: State, ins: Instruction, rnd: byte, v: Variant)
    requires Ram.Valid(s.mem) && s.pointer + 4 <= 0xFFFF
    requires ins.SkipEqualRegByte? || ins.SkipNotEqualRegByte? || ins.SkipEqualRegisters? || ins.SkipNotEqualReg?
    requires (ins.SkipEqualRegByte? || ins.SkipNotEqualRegByte?) ==> ins.reg < 16
    ensures Execute(s, ins, rnd, v) == Running(s.(pointer := s.pointer + if SkipTaken(s, ins) then 4 else 2))
  {
  }

  /** The key, timer and I-register arms end in `todo!()`. */
  lemma ExecuteUnimplemented(s: State, ins: Instruction, rnd: byte, v: Variant)
    requires Ram.Valid(s.mem)
    requires ins.HasRegister() && !ins.HasByte() && !ins.RandRange?
    ensures Execute(s, ins, rnd, v) == Panicked
  {
  }

  /** `SystemAddress`, whatever its address, skips the advance and so repeats
      itself forever. */
  lemma ExecuteSystemAddress(s: State, rnd: byte, v: Variant)
    requires Ram.Valid(s.mem)
    ensures forall a: u16 :: Execute(s, SystemAddress(a), rnd, v) == Spinning
  {
  }

  /** No arm touches the timers, every arm keeps the memory invariant, and the
      stack keeps holding program addresses. */
  lemma ExecuteKeepsInvariants(s: State, ins: Instruction, rnd: byte, v: Variant)
    requires Ram.Valid(s.mem) && Ram.HoldsAddresses(s.mem)
    ensures var o := Execute(s, ins, rnd, v);
            o.Running? ==>
              && Ram.Valid(o.state.mem) && Ram.HoldsAddresses(o.state.mem)
              && o.state.regs.delay == s.regs.delay && o.state.regs.sound == s.regs.sound
  {
    if ins.Return? || ins.CallAddress? {
      Ram.StackAddressesPreserved(s.mem, s.pointer, 0, 0);
    } else {
      ArmsKeepMemory(s, ins, rnd, v);
    }
  }

  /** Every arm other than `Return` and `CallAddress` leaves memory as it was,
      and no arm writes a timer. */
  lemma ArmsKeepMemory(s: State, ins: Instruction, rnd: byte, v: Variant)
    requires Ram.Valid(s.mem) && !ins.Return? && !ins.CallAddress?
    ensures var o := Execute(s, ins, rnd, v);
            o.Running? ==>
              && o.state.mem == s.mem
              && o.state.regs.delay == s.regs.delay && o.state.regs.sound == s.regs.sound
  {
    if IsLogic(ins) || IsArithmetic(ins) {
      RegisterArmsKeepMemory(s, ins, rnd, v);
    } else {
      ControlArmsKeepMemory(s, ins, rnd, v);
    }
  }

  /** The register-to-register arms write only data registers and VF. */
  lemma RegisterArmsKeepMemory(s: State, ins: Instruction, rnd: byte, v: Variant)
    requires Ram.Valid(s.mem) && (IsLogic(ins) || IsArithmetic(ins))
    ensures var o := Execute(s, ins, rnd, v);
            o.Running? ==>
              && o.state.mem == s.mem
              && o.state.regs.delay == s.regs.delay && o.state.regs.sound == s.regs.sound
  {
    if IsLogic(ins) {
      assert Execute(s, ins, rnd, v) == LogicArm(s, ins);
    } else {
      assert Execute(s, ins, rnd, v) == ArithmeticArm(s, ins);
    }
  }

  /** The remaining arms touch the pointer, I, one data register or the screen. */
  lemma ControlArmsKeepMemory(s: State, ins: Instruction, rnd: byte, v: Variant)
    requires Ram.Valid(s.mem) && !ins.Return? && !ins.CallAddress?
    requires !IsLogic(ins) && !IsArithmetic(ins)
    ensures var o := Execute(s, ins, rnd, v);
            o.Running? ==>
              && o.state.mem == s.mem
              && o.state.regs.delay == s.regs.delay && o.state.regs.sound == s.regs.sound
  {
    match ins
    case SystemAddress(_) =>
    case ClearScreen =>
    case JumpAddress(_) =>
    case SkipEqualRegByte(_, _) =>
    case SkipNotEqualRegByte(_, _) =>
    case SkipEqualRegisters(_) =>
    case SkipNotEqualReg(_) =>
    case LoadByte(_, _) =>
    case AddByte(_, _) =>
    case LoadI(_) =>
    case JumpAddressOffset(_) =>
    case RandRange(_, _) =>
    case Draw(_, _) =>
    case _ =>
  }

  // Control flow, as written and corrected

  /** As written, a jump lands two bytes past its target, skipping the
      instruction there. */
  lemma JumpTargetAsWritten(s: State, a: u16, rnd: byte)
    requires Ram.Valid(s.mem) && a < 0x1000
    ensures Execute(s, JumpAddress(a), rnd, AsWritten) == Running(s.(pointer := a + 2))
  {
  }

  /** Corrected, a jump lands on its target. */
  lemma JumpTargetCorrected(s: State, a: u16, rnd: byte)
    requires Ram.Valid(s.mem) && a < 0x1000
    ensures Execute(s, JumpAddress(a), rnd, Corrected) == Running(s.(pointer := a))
  {
  }

  /** As written, a call followed by a return comes back to the call itself,
      which then runs again: the subroutine is entered over and over. */
  lemma CallReturnAsWritten(s: State, a: u16, rnd: byte)
    requires Ram.Valid(s.mem) && a < 0x1000
    requires Ram.Depth(s.mem) < Ram.StackCapacity && Ram.Writable(s.pointer)
    ensures var o := Execute(s, CallAddress(a), rnd, AsWritten);
            && o.Running? && o.state.pointer == a + 2
            && var r := Execute(o.state, Return, rnd, AsWritten);
               && r.Running? && r.state.pointer == s.pointer
               && Ram.Stack(r.state.mem) == Ram.Stack(s.mem)
  {
    Ram.PushThenPop(s.mem, s.pointer);
  }

  /** Corrected, a call enters the subroutine at its first instruction and the
      matching return resumes after the call with the stack restored. */
  lemma CallReturnCorrected(s: State, a: u16, rnd: byte)
    requires Ram.Valid(s.mem) && a < 0x1000 && s.pointer + 2 <= 0xFFFF
    requires Ram.Depth(s.mem) < Ram.StackCapacity && Ram.Writable(s.pointer)
    ensures var o := Execute(s, CallAddress(a), rnd, Corrected);
            && o.Running? && o.state.pointer == a
            && var r := Execute(o.state, Return, rnd, Corrected);
               && r.Running? && r.state.pointer == s.pointer + 2
               && Ram.Stack(r.state.mem) == Ram.Stack(s.mem)
  {
    Ram.PushThenPop(s.mem, s.pointer);
  }

  /** `Return` panics on an empty stack (the `unwrap` of `pop`), and as written
      never underflows `popped - 2` while the stack holds program addresses. */
  lemma ReturnPanics(s: State, rnd: byte, v: Variant)
    requires Ram.Valid(s.mem) && Ram.HoldsAddresses(s.mem)
    ensures Ram.Stack(s.mem) == [] ==> Execute(s, Return, rnd, v) == Panicked
    ensures Ram.Stack(s.mem) != [] ==> Execute(s, Return, rnd, v).Running?
  {
    if Ram.Stack(s.mem) != [] {
      var top := Ram.Pop(s.mem).1.value;
      assert Ram.Stack(s.mem) == Ram.Stack(Ram.Pop(s.mem).0) + [top];
      assert Ram.Writable(Ram.Stack(s.mem)[|Ram.Stack(s.mem)| - 1]);
    }
  }

  /** As written, `Bnnn` jumps to `nnn + I`, and then two bytes further. */
  lemma JumpOffsetAsWritten(s: State, a: u16, rnd: byte)
    requires Ram.Valid(s.mem) && a < 0x1000 && s.regs.address < 0x1000
    ensures Execute(s, JumpAddressOffset(a), rnd, AsWritten) == Running(s.(pointer := a + s.regs.address + 2))
  {
  }

  /** Corrected, `Bnnn` jumps to `nnn + V0`. */
  lemma JumpOffsetCorrected(s: State, a: u16, rnd: byte)
    requires Ram.Valid(s.mem) && a < 0x1000
    ensures Execute(s, JumpAddressOffset(a), rnd, Corrected) == Running(s.(pointer := a + s.regs.data[0]))
  {
  }

  /** As written, every `6xkk` panics: the arm indexes the register file with
      the unmasked `0x60 | x`. */
  lemma LoadByteAsWritten(s: State, op: u16, rnd: byte)
    requires Ram.Valid(s.mem)
    requires Decode(op).Some? && Decode(op).value.LoadByte?
    ensures Execute(s, Decode(op).value, rnd, AsWritten) == Panicked
  {
    DecodeUnmaskedHighByte(op);
  }

  /** Corrected, `6xkk` loads `kk` into register x and changes nothing else. */
  lemma LoadByteCorrected(s: State, op: u16, rnd: byte)
    requires Ram.Valid(s.mem) && s.pointer + 2 <= 0xFFFF
    requires Decode(op).Some? && Decode(op).value.LoadByte?
    ensures var o := Execute(s, Decode(op).value, rnd, Corrected);
            o.Running? && WritesOnly(s, o.state, X(op)) && V(o.state, X(op)) == Kk(op)
  {
    DecodeUnmaskedHighByte(op);
    DecodeByteOperand(op);
  }

  /** As written, `Dxyn` takes its column from register 13 (the family nibble
      of `0xD0 | x`) and its row from register x, ignoring y. */
  lemma DrawOriginAsWritten(op: u16)
    requires Decode(op).Some? && Decode(op).value.Draw?
    ensures var d := Decode(op).value;
            DrawOrigin(d.position, d.bytes, AsWritten) == (13, X(op))
  {
    DecodeUnmaskedHighByte(op);
    Fields(op);
  }

  /** Corrected, `Dxyn` takes its column from register x and its row from
      register y. */
  lemma DrawOriginCorrected(op: u16)
    requires Decode(op).Some? && Decode(op).value.Draw?
    ensures var d := Decode(op).value;
            DrawOrigin(d.position, d.bytes, Corrected) == (X(op), Y(op))
  {
    DecodeUnmaskedHighByte(op);
    DecodeByteOperand(op);
    Fields(op);
  }

  /** A program image stores `00E0` (clear screen) as the bytes 0x00, 0xE0.  As
      written the fetch reads them as 0xE000, which the decoder rejects, so the
      step panics. */
  lemma FetchByteOrderAsWritten(s: State, rnd: byte)
    requires Ram.Valid(s.mem) && s.pointer < 0xFFE
    requires s.mem.data[s.pointer] == 0x00 && s.mem.data[s.pointer + 1] == 0xE0
    ensures Fetch(s, AsWritten) == Ok(0xE000)
    ensures Step(s, rnd, AsWritten) == Panicked
  {
    assert Family(0xE000) == 0xE && Kk(0xE000) == 0;
  }

  /** The corrected fetch reads the same two bytes as `ClearScreen`, and the
      step clears the screen. */
  lemma FetchByteOrderCorrected(s: State, rnd: byte)
    requires Ram.Valid(s.mem) && s.pointer < 0xFFE
    requires s.mem.data[s.pointer] == 0x00 && s.mem.data[s.pointer + 1] == 0xE0
    ensures Fetch(s, Corrected) == Ok(0x00E0)
    ensures var o := Step(s, rnd, Corrected);
            && o.Running? && (forall k | 0 <= k < 2048 :: o.state.buffer[k] == 0)
            && o.state.regs == s.regs && o.state.mem == s.mem && o.state.pointer == s.pointer + 2
  {
    DecodeClearScreen();
    ExecuteClearScreen(s, rnd, Corrected);
  }

  /** `00E0` decodes to `ClearScreen`. */
  lemma DecodeClearScreen()
    ensures Decodable(0x00E0) && Decode(0x00E0) == Some(ClearScreen)
  {
  }

  /** Worked example: `8014` adds V1 to V0; with V0 = 250 and V1 = 10 the sum
      wraps to 4 and the flag is set. */
  lemma AddExample(s: State, rnd: byte, v: Variant)
    requires Ram.Valid(s.mem) && s.pointer < 0xFFF
    requires s.regs.data[0] == 250 && s.regs.data[1] == 10
    ensures Decode(0x8014) == Some(Add(0x01))
    ensures var o := Execute(s, Add(0x01), rnd, v);
            o.Running? && V(o.state, 0) == 4 && o.state.vf
  {
    Fields(0x8014);
    ExecuteAdd(s, 0x01, rnd, v);
  }
}
