/** The interpreter's 4096-byte memory and the call stack kept inside it.

    Bytes `[0, 80)` hold the sixteen hexadecimal glyphs, the call stack grows
    upwards from byte 80 towards `0x200`, and `[0x200, 0x1000)` is the program
    region, the only one `store` may write.  The stack pointer is a private
    field, so every `Memory` the program can hold is built by `New` and changed
    only by the operations below; `Valid` is the invariant they keep.
 */
module Ram {
  import opened Bytes

  /** Size of the address space. */
  const Size := 0x1000

  /** First byte of the program region; everything below is write-protected. */
  const ProgramStart := 0x200

  /** Initial stack pointer: sixteen glyphs of five bytes each. */
  const StackBase := 80

  /** How many return addresses fit between `StackBase` and `ProgramStart`:
      a push needs `sp + 2 < 0x200`. */
  const StackCapacity := 215

  type Data = s: seq<byte> | |s| == 0x1000 witness seq(0x1000, _ => 0)

  datatype Memory = Memory(data: Data, sp: u16)

  /** The stack pointer sits on a word boundary inside `[80, 510]`. */
  predicate Valid(m: Memory) {
    m.sp % 2 == 0 && StackBase <= m.sp <= 510
  }

  /** The glyphs for the digits 0 to F, five rows each, pixels in the high nibble. */
  const Glyphs: seq<seq<byte>> := [
    [0xF0, 0x90, 0x90, 0x90, 0xF0], // 0
    [0x20, 0x60, 0x20, 0x20, 0x70], // 1
    [0xF0, 0x10, 0xF0, 0x80, 0xF0], // 2
    [0xF0, 0x10, 0xF0, 0x10, 0xF0], // 3
    [0x90, 0x90, 0xF0, 0x10, 0x10], // 4
    [0xF0, 0x80, 0xF0, 0x10, 0xF0], // 5
    [0xF0, 0x80, 0xF0, 0x90, 0xF0], // 6
    [0xF0, 0x10, 0x20, 0x40, 0x40], // 7
    [0xF0, 0x90, 0xF0, 0x90, 0xF0], // 8
    [0xF0, 0x90, 0xF0, 0x10, 0xF0], // 9
    [0xF0, 0x90, 0xF0, 0x90, 0x90], // A
    [0xE0, 0x90, 0xE0, 0x90, 0xE0], // B
    [0xF0, 0x80, 0x80, 0x80, 0xF0], // C
    [0xE0, 0x90, 0x90, 0x90, 0xE0], // D
    [0xF0, 0x80, 0xF0, 0x80, 0xF0], // E
    [0xF0, 0x80, 0xF0, 0x80, 0x80]  // F
  ]

  /** Builds the power-on memory by copying each glyph into place, as the
      constructor's outer loop does. */
  method New() returns (m: Memory)
    ensures forall d, k | 0 <= d < 16 && 0 <= k < 5 :: m.data[5 * d + k] == Glyphs[d][k]
    ensures forall i | StackBase <= i < Size :: m.data[i] == 0
    ensures m.sp == StackBase
    ensures Valid(m) && Stack(m) == []
  {
    var data: seq<byte> := seq(0x1000, _ => 0);
    var spriteIndex := 0;
    while spriteIndex < |Glyphs|
      invariant 0 <= spriteIndex <= 16 && |data| == 0x1000
      invariant forall d, k | 0 <= d < spriteIndex && 0 <= k < 5 :: data[5 * d + k] == Glyphs[d][k]
      invariant forall i | 5 * spriteIndex <= i < Size :: data[i] == 0
    {
      data := CopyGlyph(data, spriteIndex);
      spriteIndex := spriteIndex + 1;
    }
    m := Memory(data, 16 * 5);
  }

  /** The constructor's inner loop: copies glyph `d` to bytes `[5d, 5d + 5)`
      and leaves every other byte alone. */
  method CopyGlyph(data: seq<byte>, d: nat) returns (data': seq<byte>)
    requires |data| == 0x1000 && d < 16
    ensures |data'| == 0x1000
    ensures forall k | 0 <= k < 5 :: data'[5 * d + k] == Glyphs[d][k]
    ensures forall i | 0 <= i < 0x1000 && (i < 5 * d || 5 * d + 5 <= i) :: data'[i] == data[i]
  {
    var sprite := Glyphs[d];
    data' := data;
    var byteIndex := 0;
    while byteIndex < |sprite|
      invariant 0 <= byteIndex <= 5 && |data'| == 0x1000
      invariant forall k | 0 <= k < byteIndex :: data'[5 * d + k] == sprite[k]
      invariant forall i | 0 <= i < 0x1000 && (i < 5 * d || 5 * d + byteIndex <= i) :: data'[i] == data[i]
    {
      data' := data'[d * |sprite| + byteIndex := sprite[byteIndex]];
      byteIndex := byteIndex + 1;
    }
  }

  /** `load`: the byte at `index`, or `None` past the end of memory. */
  function Load(m: Memory, index: u16): (r: Option<byte>)
    ensures r.Some? <==> index < Size
    ensures r.Some? ==> r.value == m.data[index]
  {
    if index < Size then Some(m.data[index]) else None
  }

  /** The addresses `store` and `IndexMut` accept. */
  predicate Writable(index: int) {
    ProgramStart <= index < Size
  }

  /** `store`: writes one byte of the program region and reports whether it did. */
  function Store(m: Memory, index: u16, value: byte): (r: (Memory, bool))
    ensures r.1 <==> Writable(index)
    ensures !r.1 ==> r.0 == m
    ensures r.0.sp == m.sp
    ensures forall i | 0 <= i < Size && i != index :: r.0.data[i] == m.data[i]
    ensures r.1 ==> r.0.data[index] == value
  {
    if index < ProgramStart || index >= Size then (m, false)
    else (m.(data := m.data[index := value]), true)
  }

  /** Reading after writing: a stored byte is read back, every other byte reads as before. */
  lemma LoadAfterStore(m: Memory, index: u16, value: byte, other: u16)
    ensures Store(m, index, value).1 ==> Load(Store(m, index, value).0, index) == Some(value)
    ensures other != index ==> Load(Store(m, index, value).0, other) == Load(m, other)
  {
  }

  // The stack holds 16-bit words as two bytes in the machine's byte order.
  // The model fixes little-endian order; every property below rests only on
  // the round trip `WordRoundTrip`.

  /** `u16::to_ne_bytes`. */
  function WordBytes(w: u16): (b: seq<byte>)
    ensures |b| == 2
  {
    [w % 0x100, w / 0x100]
  }

  /** `u16::from_ne_bytes`. */
  function WordOf(lo: byte, hi: byte): u16 {
    lo + 0x100 * hi
  }

  /** The byte encoding of a word is decoded back to the same word. */
  lemma WordRoundTrip(w: u16)
    ensures WordOf(WordBytes(w)[0], WordBytes(w)[1]) == w
  {
  }

  /** Number of return addresses on the stack. */
  function Depth(m: Memory): nat
    requires Valid(m)
  {
    (m.sp - StackBase) / 2
  }

  /** The stack as a sequence of return addresses, bottom first. */
  function Stack(m: Memory): (s: seq<u16>)
    requires Valid(m)
    ensures |s| == Depth(m)
  {
    seq(Depth(m), i requires 0 <= i < Depth(m) =>
      WordOf(m.data[StackBase + 2 * i], m.data[StackBase + 2 * i + 1]))
  }

  /** Every word on the stack is a program-region address. */
  predicate HoldsAddresses(m: Memory)
    requires Valid(m)
  {
    forall i | 0 <= i < |Stack(m)| :: Writable(Stack(m)[i])
  }

  /** `push`: stores a program-region address on top of the stack. */
  function Push(m: Memory, address: u16): (r: (Memory, bool))
    requires Valid(m)
    ensures Valid(r.0)
    ensures r.1 <==> Depth(m) < StackCapacity && Writable(address)
    ensures !r.1 ==> r.0 == m
    ensures r.1 ==> Stack(r.0) == Stack(m) + [address]
    ensures r.1 ==> r.0.sp == m.sp + 2
    ensures forall i | 0 <= i < Size && i != m.sp && i != m.sp + 1 :: r.0.data[i] == m.data[i]
  {
    if m.sp + 2 >= ProgramStart || !(ProgramStart <= address < Size) then (m, false)
    else
      var bytes := WordBytes(address);
      var m' := Memory(m.data[m.sp := bytes[0]][m.sp + 1 := bytes[1]], m.sp + 2);
      PushStack(m, address, m');
      (m', true)
  }

  /** The stack after a successful push is the old stack with the address on top. */
  lemma PushStack(m: Memory, address: u16, m': Memory)
    requires Valid(m) && m.sp + 2 < ProgramStart
    requires m' == Memory(m.data[m.sp := WordBytes(address)[0]][m.sp + 1 := WordBytes(address)[1]], m.sp + 2)
    ensures Valid(m') && Stack(m') == Stack(m) + [address]
  {
    assert Depth(m') == Depth(m) + 1;
    forall i | 0 <= i < Depth(m')
      ensures Stack(m')[i] == (Stack(m) + [address])[i]
    {
      if i == Depth(m) {
        assert StackBase + 2 * i == m.sp;
        WordRoundTrip(address);
      }
    }
  }

  /** `pop`: removes and returns the top of the stack, or `None` when it is empty. */
  function Pop(m: Memory): (r: (Memory, Option<u16>))
    requires Valid(m)
    ensures Valid(r.0)
    ensures r.1.None? <==> Stack(m) == []
    ensures r.1.None? ==> r.0 == m
    ensures r.1.Some? ==> Stack(m) == Stack(r.0) + [r.1.value]
    ensures r.1.Some? ==> r.0.sp == m.sp - 2
    ensures r.0.data == m.data
  {
    if m.sp < 82 then (m, None)
    else
      var sp := m.sp - 2;
      var m' := m.(sp := sp);
      assert Stack(m) == Stack(m') + [WordOf(m.data[sp], m.data[sp + 1])];
      (m', Some(WordOf(m.data[sp], m.data[sp + 1])))
  }

  /** A successful push followed by a pop hands back the pushed address and
      restores the stack pointer and the stack. */
  lemma PushThenPop(m: Memory, address: u16)
    requires Valid(m) && Push(m, address).1
    ensures Pop(Push(m, address).0).1 == Some(address)
    ensures Pop(Push(m, address).0).0.sp == m.sp
    ensures Stack(Pop(Push(m, address).0).0) == Stack(m)
  {
    var m1 := Push(m, address).0;
    var (m2, top) := Pop(m1);
    assert Stack(m1) == Stack(m) + [address];
    assert Stack(m1) == Stack(m2) + [top.value];
  }

  /** Pushes keep the stack's words valid addresses, pops keep the remaining
      ones, and stores do not touch the stack at all. */
  lemma StackAddressesPreserved(m: Memory, address: u16, index: u16, value: byte)
    requires Valid(m) && HoldsAddresses(m)
    ensures HoldsAddresses(Push(m, address).0)
    ensures HoldsAddresses(Pop(m).0)
    ensures Valid(Store(m, index, value).0)
    ensures Stack(Store(m, index, value).0) == Stack(m)
  {
    var (p, ok) := Push(m, address);
    if ok {
      forall i | 0 <= i < |Stack(p)|
        ensures Writable(Stack(p)[i])
      {
        if i < |Stack(m)| {
          assert Stack(p)[i] == Stack(m)[i];
        }
      }
    }
    var (q, top) := Pop(m);
    if top.Some? {
      forall i | 0 <= i < |Stack(q)|
        ensures Writable(Stack(q)[i])
      {
        assert Stack(q)[i] == Stack(m)[i];
      }
    }
    var s := Store(m, index, value).0;
    forall i | 0 <= i < Depth(s)
      ensures Stack(s)[i] == Stack(m)[i]
    {
      assert StackBase + 2 * i + 1 < m.sp <= 510 < ProgramStart;
    }
  }

  /** Pushing into a full stack fails and leaves memory, and so every stacked
      address, exactly as it was. */
  lemma OverflowIsClean(m: Memory, address: u16)
    requires Valid(m) && Depth(m) == StackCapacity
    ensures Push(m, address) == (m, false)
  {
  }

  /** `slice`: a copy of `[start, end)` when `end <= 0xFFF`, so byte 0xFFF is
      out of its reach; an inverted range panics like Rust's slice indexing. */
  function Slice(m: Memory, start: u16, end: u16): (r: Checked<Option<seq<byte>>>)
    ensures r.Panic? <==> end <= 0xFFF && start > end
    ensures r.Ok? && r.value.Some? <==> start <= end <= 0xFFF
    ensures r.Ok? && r.value.Some? ==>
              |r.value.value| == end - start &&
              forall k | 0 <= k < end - start :: Load(m, start + k) == Some(r.value.value[k])
  {
    if end <= 0xFFF then
      if start <= end then Ok(Some(m.data[start..end])) else Panic
    else Ok(None)
  }

  /** A mutable slice of `[start, end)` taken when `start >= lower` and
      `end <= upper`, with `src` copied into it (`copy_from_slice`, which panics
      on a length mismatch). */
  function SliceMutFrom(lower: nat, upper: nat, m: Memory, start: u16, end: u16, src: seq<byte>): (r: Checked<Option<Memory>>)
    requires upper <= Size
    ensures r == Ok(None) <==> !(lower <= start && end <= upper)
    ensures r.Panic? <==> lower <= start && end <= upper && (start > end || |src| != end - start)
    ensures r.Ok? && r.value.Some? ==>
              && r.value.value.sp == m.sp
              && (forall k | 0 <= k < |src| :: r.value.value.data[start + k] == src[k])
              && (forall i | 0 <= i < Size && !(start <= i < end) :: r.value.value.data[i] == m.data[i])
  {
    if lower <= start && end <= upper then
      if start <= end && |src| == end - start then
        Ok(Some(m.(data := m.data[..start] + src + m.data[end..])))
      else Panic
    else Ok(None)
  }

  /** `slice_mut`, whose lower bound is the decimal 200 (0xC8), not 0x200, and
      whose upper bound `end <= 0xFFF` treats the exclusive end as inclusive. */
  function SliceMut(m: Memory, start: u16, end: u16, src: seq<byte>): Checked<Option<Memory>> {
    SliceMutFrom(200, 0xFFF, m, start, end, src)
  }

  /** As written, the only way to fill the program region, a mutable slice of
      `0x200..0x1000` (what the main loop asks for before it starts), is refused,
      so the loop's `unwrap` panics before the first instruction. */
  lemma ProgramLoadRefused(m: Memory, rom: seq<byte>)
    ensures SliceMut(m, ProgramStart, Size, rom) == Ok(None)
  {
  }

  /** As written, `slice_mut` grants bytes 200..0x1FF, which lie in the call
      stack: with 61 or more return addresses stacked, writing zeros through
      `slice_mut(200..202)` replaces the 61st with 0, which is not an address. */
  lemma SliceMutCorruptsStack(m: Memory)
    requires Valid(m) && HoldsAddresses(m) && Depth(m) > 60
    ensures SliceMut(m, 200, 202, [0, 0]).Ok?
    ensures var m' := SliceMut(m, 200, 202, [0, 0]).value;
            m'.Some? && Valid(m'.value) && Stack(m'.value)[60] == 0 && !HoldsAddresses(m'.value)
  {
    var m' := SliceMut(m, 200, 202, [0, 0]).value.value;
    assert m'.data[200] == 0 && m'.data[201] == 0;
    assert StackBase + 2 * 60 == 200;
    assert Stack(m')[60] == WordOf(m'.data[200], m'.data[201]) == 0;
  }

  /** `slice_mut` confined to the program region `[0x200, 0x1000)`. */
  function SliceMutProgram(m: Memory, start: u16, end: u16, src: seq<byte>): Checked<Option<Memory>> {
    SliceMutFrom(ProgramStart, Size, m, start, end, src)
  }

  /** Even with the program-region bounds, copying the image into the whole
      region `0x200..0x1000` panics unless the image is exactly `0xE00` bytes
      long: `copy_from_slice` demands equal lengths. */
  lemma ProgramLoadLengthPanics(m: Memory, rom: seq<byte>)
    ensures SliceMutProgram(m, ProgramStart, Size, rom).Panic? <==> |rom| != Size - ProgramStart
  {
  }

  /** Copying the image into a slice of its own length, `0x200..0x200 + len`,
      succeeds for every image that fits the program region: the image lands at
      `0x200` onwards, and every byte outside it, with the stack pointer, is kept. */
  lemma ProgramLoadAccepted(m: Memory, rom: seq<byte>)
    requires |rom| <= Size - ProgramStart
    ensures SliceMutProgram(m, ProgramStart, ProgramStart + |rom|, rom).Ok?
    ensures var r := SliceMutProgram(m, ProgramStart, ProgramStart + |rom|, rom).value;
            && r.Some? && r.value.sp == m.sp
            && (forall k | 0 <= k < |rom| :: Load(r.value, ProgramStart + k) == Some(rom[k]))
            && (forall i | 0 <= i < Size && !(ProgramStart <= i < ProgramStart + |rom|) :: r.value.data[i] == m.data[i])
  {
  }

  /** With the 0x200 bound, a write through the mutable slice never touches the
      font, the stack bytes or the stack pointer. */
  lemma SliceMutProgramKeepsStack(m: Memory, start: u16, end: u16, src: seq<byte>)
    requires Valid(m)
    requires SliceMutProgram(m, start, end, src).Ok?
    requires SliceMutProgram(m, start, end, src).value.Some?
    ensures var m' := SliceMutProgram(m, start, end, src).value.value;
            && Valid(m') && Stack(m') == Stack(m)
            && forall i | 0 <= i < ProgramStart :: m'.data[i] == m.data[i]
  {
    var m' := SliceMutProgram(m, start, end, src).value.value;
    forall i | 0 <= i < Depth(m')
      ensures Stack(m')[i] == Stack(m)[i]
    {
      assert StackBase + 2 * i + 1 < ProgramStart;
    }
  }

  /** `Index`: the byte at `index`, panicking past the end of memory. */
  function Index(m: Memory, index: u16): (r: Checked<byte>)
    ensures r.Ok? <==> Load(m, index).Some?
    ensures r.Ok? ==> Load(m, index) == Some(r.value)
  {
    if index < Size then Ok(m.data[index]) else Panic
  }

  /** `IndexMut` followed by an assignment: panics outside the program region. */
  function IndexMut(m: Memory, index: u16, value: byte): (r: Checked<Memory>)
    ensures r.Ok? <==> Store(m, index, value).1
    ensures r.Ok? ==> r.value == Store(m, index, value).0
  {
    if ProgramStart <= index < Size then Ok(m.(data := m.data[index := value])) else Panic
  }
}
