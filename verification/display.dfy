/** The 64x32 frame buffer and `draw_byte`, which writes one 8-pixel sprite row.

    A pixel is a `u32`: all ones when lit, 0 when dark.  `draw_byte` OVERWRITES
    the eight pixels of the row (it does not XOR them) and reports whether a
    lit sprite bit landed on a pixel that was already nonzero.
 */
module Display {
  import opened Bytes

  const Width := 64
  const Height := 32

  type Screen = s: seq<u32> | |s| == 2048 witness seq(2048, _ => 0)

  /** A lit pixel: the sprite bit copied into all 32 bits of the `u32`. */
  const Lit: u32 := 0xFFFF_FFFF

  /** The all-dark screen, what `buffer.fill(0)` leaves. */
  function Blank(): (r: Screen)
    ensures forall k | 0 <= k < 2048 :: r[k] == 0
  {
    seq(2048, _ => 0)
  }

  /** `byte >> (7 - j) & 1`: sprite bit j, counted from the most significant bit. */
  function SpriteBit(b: byte, j: nat): byte
    requires j < 8
  {
    BitOf(b, 7 - j)
  }

  /** The pixel value for a sprite bit: all ones for 1, zero for 0. */
  function PixelValue(bit: byte): u32 {
    if bit == 1 then Lit else 0
  }

  /** Buffer index of column `(x + j) mod 64` on row `y`. */
  function Cell(x: nat, y: nat, j: nat): nat {
    y * Width + (x + j) % Width
  }

  /** Columns j..7 of the loop in `draw_byte`, with `vf` the flag so far. */
  function DrawFrom(buffer: Screen, x: nat, y: nat, b: byte, j: nat, vf: bool): (Screen, bool)
    requires y < Height && j <= 8
    decreases 8 - j
  {
    if j == 8 then (buffer, vf)
    else
      var cell := Cell(x, y, j);
      var value := PixelValue(SpriteBit(b, j));
      var vf' := vf || (value != 0 && buffer[cell] != 0);
      DrawFrom(buffer[cell := value], x, y, b, j + 1, vf')
  }

  /** The column offset of buffer cell `k` from `x`, if it lies on row `y` within
      eight columns of `x` (wrapping at the right edge). */
  function Offset(x: nat, k: nat): nat {
    (k % Width - x) % Width
  }

  /** The screen `draw_byte` should leave: row `y`, columns `(x + j) mod 64` for
      j < 8, show the sprite bits; every other pixel is as before. */
  function RowImage(buffer: Screen, x: nat, y: nat, b: byte): Screen
    requires y < Height
  {
    seq(2048, k requires 0 <= k < 2048 =>
      if k / Width == y && Offset(x, k) < 8 then PixelValue(SpriteBit(b, Offset(x, k)))
      else buffer[k])
  }

  /** Some lit sprite bit lands on a pixel that was nonzero before the call. */
  predicate Collides(buffer: Screen, x: nat, y: nat, b: byte)
    requires y < Height
  {
    exists j | 0 <= j < 8 :: SpriteBit(b, j) == 1 && buffer[Cell(x, y, j)] != 0
  }

  /** `draw_byte(buffer, x, y, byte)`. */
  function DrawByte(buffer: Screen, x: nat, y: nat, b: byte): (r: (Screen, bool))
    requires y < Height
    ensures r.0 == RowImage(buffer, x, y, b)
    ensures r.1 <==> Collides(buffer, x, y, b)
  {
    DrawFromSpec(buffer, x, y, b, 0, false);
    DrawFrom(buffer, x, y, b, 0, false)
  }

  /** `draw_byte` leaves every pixel off row `y` as it was. */
  lemma DrawByteOtherRow(buffer: Screen, x: nat, y: nat, b: byte, k: nat)
    requires y < Height && k < 2048 && k / Width != y
    ensures DrawByte(buffer, x, y, b).0[k] == buffer[k]
  {
  }

  /** Pixel `k` after `draw_byte`: the sprite bit when `k` is one of the row's
      eight cells, its old value otherwise. */
  lemma DrawBytePixel(buffer: Screen, x: nat, y: nat, b: byte, k: nat)
    requires y < Height && k < 2048
    ensures DrawByte(buffer, x, y, b).0[k]
            == if k / Width == y && Offset(x, k) < 8 then PixelValue(SpriteBit(b, Offset(x, k))) else buffer[k]
  {
  }

  /** Cell j of the row lies on row `y` at offset j from `x`. */
  lemma CellOffset(x: nat, y: nat, j: nat)
    requires y < Height && j < 8
    ensures Cell(x, y, j) < 2048
    ensures Cell(x, y, j) / Width == y && Offset(x, Cell(x, y, j)) == j
  {
    var c := (x + j) % Width;
    assert Cell(x, y, j) == y * Width + c && c < Width;
    assert Cell(x, y, j) % Width == c;
    assert (c - x) % Width == j % Width;
  }

  /** The eight cells of one row are distinct. */
  lemma CellsDistinct(x: nat, y: nat, i: nat, j: nat)
    requires y < Height && i < 8 && j < 8 && i != j
    ensures Cell(x, y, i) != Cell(x, y, j)
  {
    CellOffset(x, y, i);
    CellOffset(x, y, j);
  }

  /** A cell of row `y` whose offset from `x` is below 8 is one of the row's cells. */
  lemma OffsetCell(x: nat, y: nat, k: nat)
    requires y < Height && k < 2048 && k / Width == y && Offset(x, k) < 8
    ensures Cell(x, y, Offset(x, k)) == k
  {
    var j := Offset(x, k);
    assert k == y * Width + k % Width;
    assert (x + j) % Width == k % Width;
  }

  /** The loop from column j on finishes the row image, given that columns below
      j are already drawn and the flag so far records their collisions. */
  lemma {:induction false} DrawFromSpec(buffer: Screen, x: nat, y: nat, b: byte, j: nat, vf: bool)
    requires y < Height && j <= 8
    ensures var (r, f) := DrawFrom(buffer, x, y, b, j, vf);
            && (forall k | 0 <= k < 2048 ::
                  r[k] == if k / Width == y && j <= Offset(x, k) < 8
                          then PixelValue(SpriteBit(b, Offset(x, k))) else buffer[k])
            && (f <==> vf || exists i | j <= i < 8 :: SpriteBit(b, i) == 1 && buffer[Cell(x, y, i)] != 0)
    decreases 8 - j
  {
    if j < 8 {
      var cell := Cell(x, y, j);
      CellOffset(x, y, j);
      var value := PixelValue(SpriteBit(b, j));
      var vf' := vf || (value != 0 && buffer[cell] != 0);
      var next := buffer[cell := value];
      DrawFromSpec(next, x, y, b, j + 1, vf');
      var (r, f) := DrawFrom(next, x, y, b, j + 1, vf');
      forall k | 0 <= k < 2048
        ensures r[k] == if k / Width == y && j <= Offset(x, k) < 8
                        then PixelValue(SpriteBit(b, Offset(x, k))) else buffer[k]
      {
        if k / Width == y && Offset(x, k) == j {
          OffsetCell(x, y, k);
        } else if k == cell {
          assert false;
        }
      }
      forall i | j + 1 <= i < 8
        ensures next[Cell(x, y, i)] == buffer[Cell(x, y, i)]
      {
        CellsDistinct(x, y, i, j);
        CellOffset(x, y, i);
      }
    }
  }
}
