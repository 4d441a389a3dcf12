/** The register file: sixteen 8-bit data registers, the 16-bit address
    register I and the delay and sound timers.

    The interpreter's main loop calls a `Registers::new` that the register file
    does not define; the model starts from `Zero`, every field 0.
 */
module RegisterFile {
  import opened Bytes

  type Bank = s: seq<byte> | |s| == 16 witness seq(16, _ => 0)

  datatype Registers = Registers(data: Bank, address: u16, delay: byte, sound: byte)

  /** The all-zero register file the main loop starts from. */
  const Zero := Registers(seq(16, _ => 0), 0, 0, 0)

  /** `get_value`: the value of data register `id`, or `None` for an id past 15. */
  function GetValue(r: Registers, id: byte): (v: Option<byte>)
    ensures v.Some? <==> id < 16
    ensures v.Some? ==> v.value == r.data[id]
  {
    if id < 16 then Some(r.data[id]) else None
  }

  /** An assignment through `get_value_mut(id)`: `None` for an id past 15,
      otherwise the register file with register `id` replaced. */
  function SetValue(r: Registers, id: byte, value: byte): (r': Option<Registers>)
    ensures r'.Some? <==> id < 16
    ensures r'.Some? ==> GetValue(r'.value, id) == Some(value)
    ensures r'.Some? ==> forall j: byte | j != id :: GetValue(r'.value, j) == GetValue(r, j)
    ensures r'.Some? ==> r'.value.address == r.address
    ensures r'.Some? ==> r'.value.delay == r.delay && r'.value.sound == r.sound
  {
    if id < 16 then Some(r.(data := r.data[id := value])) else None
  }

  /** `address`. */
  function Address(r: Registers): u16 {
    r.address
  }

  /** An assignment through `address_mut`. */
  function SetAddress(r: Registers, value: u16): (r': Registers)
    ensures Address(r') == value
    ensures r'.data == r.data && r'.delay == r.delay && r'.sound == r.sound
  {
    r.(address := value)
  }

  /** `delay`. */
  function Delay(r: Registers): byte {
    r.delay
  }

  /** `set_delay`: changes the delay timer and nothing else. */
  function SetDelay(r: Registers, value: byte): (r': Registers)
    ensures Delay(r') == value
    ensures r'.data == r.data && r'.address == r.address && r'.sound == r.sound
  {
    r.(delay := value)
  }

  /** `sound_timer`. */
  function SoundTimer(r: Registers): byte {
    r.sound
  }

  /** `set_sound_timer`: changes the sound timer and nothing else. */
  function SetSoundTimer(r: Registers, value: byte): (r': Registers)
    ensures SoundTimer(r') == value
    ensures r'.data == r.data && r'.address == r.address && r'.delay == r.delay
  {
    r.(sound := value)
  }

  /** Subtraction floored at zero. */
  function Monus(a: int, b: nat): nat {
    if a > b then a - b else 0
  }

  /** `cycle`: one timer tick. */
  function Cycle(r: Registers): (r': Registers)
    ensures r'.delay == Monus(r.delay, 1) && r'.sound == Monus(r.sound, 1)
    ensures r'.data == r.data && r'.address == r.address
  {
    var delay := if r.delay > 0 then r.delay - 1 else r.delay;
    var sound := if r.sound > 0 then r.sound - 1 else r.sound;
    r.(delay := delay, sound := sound)
  }

  /** `n` successive ticks. */
  function CycleN(r: Registers, n: nat): Registers
    decreases n
  {
    if n == 0 then r else CycleN(Cycle(r), n - 1)
  }

  /** After `n` ticks each timer has counted down by `n`, stopping at 0; the
      data registers and I are untouched. */
  lemma {:induction false} CycleNCountsDown(r: Registers, n: nat)
    decreases n
    ensures CycleN(r, n).delay == Monus(r.delay, n)
    ensures CycleN(r, n).sound == Monus(r.sound, n)
    ensures CycleN(r, n).data == r.data && CycleN(r, n).address == r.address
  {
    if n > 0 {
      CycleNCountsDown(Cycle(r), n - 1);
    }
  }

  /** Ticking never raises a timer, and a timer at 0 stays at 0. */
  lemma TimersNeverRise(r: Registers, n: nat)
    ensures CycleN(r, n).delay <= r.delay && CycleN(r, n).sound <= r.sound
    ensures r.delay == 0 ==> CycleN(r, n).delay == 0
    ensures r.sound == 0 ==> CycleN(r, n).sound == 0
  {
    CycleNCountsDown(r, n);
  }

  /** `slice`: `None` when `end > 0xFFF`; otherwise Rust indexes the 16-entry
      array, which panics unless `start <= end <= 16`. */
  function Slice(r: Registers, start: u16, end: u16): (s: Checked<Option<seq<byte>>>)
    ensures s == Ok(None) <==> end > 0xFFF
    ensures s.Ok? && s.value.Some? <==> start <= end <= 16
    ensures s.Ok? && s.value.Some? ==>
              |s.value.value| == end - start &&
              forall k | 0 <= k < end - start :: GetValue(r, start + k) == Some(s.value.value[k])
  {
    if end <= 0xFFF then
      if start <= end <= 16 then Ok(Some(r.data[start..end])) else Panic
    else Ok(None)
  }

  /** `slice_mut`: refused unless `start >= 200`, and when granted the index
      `data[start..end]` starts past the 16-entry array and panics, so no
      mutable slice is ever handed out. */
  function SliceMut(r: Registers, start: u16, end: u16): (s: Checked<Option<seq<byte>>>)
    ensures !(s.Ok? && s.value.Some?)
    ensures s.Panic? <==> start >= 200 && end <= 0xFFF
  {
    if start >= 200 && end <= 0xFFF then
      // start >= 200 > |r.data|: the range index fails
      Panic
    else Ok(None)
  }
}
