/** Interleaved run-length bitmaps as a stream of pixels: what the orders of a bitmap mean when
    rows, cursors and unrolled loops are left out. */
module RleSpec {
  import opened Bits

  /** The bytes of one pixel: one, two or three of them. */
  type Pixel = seq<byte>

  /** C's `a ^ b`. */
  function Xor(a: nat, b: nat): nat
  {
    if a == 0 then b
    else if b == 0 then a
    else 2 * Xor(a / 2, b / 2) + (a + b) % 2
  }

  lemma {:induction false} XorBound(a: nat, b: nat, n: nat)
    requires a < Pow2(n) && b < Pow2(n)
    ensures Xor(a, b) < Pow2(n)
    decreases n
  {
    if n > 0 {
      XorBound(a / 2, b / 2, n - 1);
    }
  }

  /** A bit of it is set when just one of the two has it set. */
  lemma {:induction false} XorBits(a: nat, b: nat, j: nat)
    ensures Bit(Xor(a, b), j) <==> Bit(a, j) != Bit(b, j)
    decreases j
  {
    XorHalf(a, b);
    if j > 0 {
      XorBits(a / 2, b / 2, j - 1);
    }
  }

  lemma {:induction false} XorHalf(a: nat, b: nat)
    ensures Xor(a, b) / 2 == Xor(a / 2, b / 2) && Xor(a, b) % 2 == (a + b) % 2
  {
    XorNone(a / 2);
    XorNone(b / 2);
  }

  lemma XorNone(a: nat)
    ensures Xor(a, 0) == Xor(0, a) == a
  {
  }

  function XorByte(a: byte, b: byte): byte
  {
    Pow2Octet();
    XorBound(a, b, 8);
    Xor(a, b)
  }

  function XorPixel(p: Pixel, q: Pixel): (r: Pixel)
    requires |p| == |q|
    ensures |r| == |p|
  {
    seq(|p|, i requires 0 <= i < |p| => XorByte(p[i], q[i]))
  }

  function Solid(b: byte, bpp: nat): (p: Pixel)
    ensures |p| == bpp
  {
    seq(bpp, _ => b)
  }

  /** Refused is the C function's False; PastEnd is a read past the end of the input. */
  datatype Verdict = Complete | Refused | PastEnd

  /** What the code byte and its count bytes say. */
  datatype Header = NoHeader | Header(op: nat, count: nat, next: nat)

  function ReadHeader(input: seq<byte>, pos: nat): (h: Header)
    requires pos < |input|
    ensures h.Header? ==> pos < h.next <= |input|
  {
    var code := input[pos];
    var high := code / 16;
    if high == 15 then
      var op := code % 16;
      if op >= 9 then Header(op, if op < 11 then 8 else 1, pos + 1)
      else if pos + 3 > |input| then NoHeader
      else
        var low: int, high8: int := input[pos + 1], input[pos + 2];
        Header(op, low + 256 * high8, pos + 3)
    else if high >= 12 then Counted(input, pos, high - 6, code % 16, 16)
    else Counted(input, pos, high / 2, code % 32, 32)
  }

  /** The short forms: a zero count is continued in the next byte. */
  function Counted(input: seq<byte>, pos: nat, op: nat, field: nat, offset: nat): (h: Header)
    requires pos < |input|
    ensures h.Header? ==> pos < h.next <= |input|
  {
    var masked := op == 2 || op == 7;
    if field != 0 then Header(op, if masked then 8 * field else field, pos + 1)
    else if pos + 1 >= |input| then NoHeader
    else Header(op, input[pos + 1] + (if masked then 1 else offset), pos + 2)
  }

  const FILL: nat := 0
  const MIX: nat := 1
  const FILL_OR_MIX: nat := 2
  const COLOUR: nat := 3
  const COPY: nat := 4
  const BICOLOUR: nat := 8
  const WHITE: nat := 13
  const BLACK: nat := 14

  predicate Known(op: nat) { op <= COPY || op == BICOLOUR || op == WHITE || op == BLACK }

  /** What an order paints with: the first Fill pixel may be mixed; a nonzero fom repeats its mask. */
  datatype Brush = Brush(op: nat, mix: Pixel, colour1: Pixel, colour2: Pixel, fom: byte, mixFirst: bool)
  {
    predicate Valid(bpp: nat) { |mix| == |colour1| == |colour2| == bpp }
  }

  /** The decoder's variables that outlive an order. */
  datatype Regs = Regs(mix: Pixel, last: int, mixFirst: bool)

  datatype Setup = NoSetup | Setup(brush: Brush, next: nat)

  /** The operands that follow a header, and the opcodes that stand for others. */
  function Prepare(input: seq<byte>, h: Header, regs: Regs, bpp: nat, k: nat, width: nat): (s: Setup)
    requires h.Header? && h.next <= |input| && |regs.mix| == bpp
    ensures s.Setup? ==> h.next <= s.next <= |input| && s.brush.Valid(bpp)
  {
    var none := Solid(0, bpp);
    match h.op
    case 0 =>
      var again := regs.last == 0 && k != 0 && k != width;
      Setup(Brush(FILL, regs.mix, none, none, 0, regs.mixFirst || again), h.next)
    case 8 =>
      if h.next + 2 * bpp > |input| then NoSetup
      else
        Setup(Brush(BICOLOUR, regs.mix, input[h.next..h.next + bpp], input[h.next + bpp..h.next + 2 * bpp], 0,
            regs.mixFirst), h.next + 2 * bpp)
    case 3 =>
      if h.next + bpp > |input| then NoSetup
      else Setup(Brush(COLOUR, regs.mix, none, input[h.next..h.next + bpp], 0, regs.mixFirst), h.next + bpp)
    case 6 | 7 =>
      if h.next + bpp > |input| then NoSetup
      else Setup(Brush(h.op - 5, input[h.next..h.next + bpp], none, none, 0, regs.mixFirst), h.next + bpp)
    case 9 => Setup(Brush(FILL_OR_MIX, regs.mix, none, none, 3, regs.mixFirst), h.next)
    case 10 => Setup(Brush(FILL_OR_MIX, regs.mix, none, none, 5, regs.mixFirst), h.next)
    case _ => Setup(Brush(h.op, regs.mix, none, none, 0, regs.mixFirst), h.next)
  }

  /** How many pixels an order paints. */
  function Pixels(op: nat, count: nat): nat { if op == BICOLOUR then 2 * count else count }

  /** The pixel one row earlier, and zero in the first row. */
  function Above(out: seq<Pixel>, width: nat, bpp: nat): Pixel
  {
    if |out| < width || width == 0 then Solid(0, bpp) else out[|out| - width]
  }

  /** The state while an order paints: the pixels so far, the place in the input, the mask in use. */
  datatype Canvas = Canvas(out: seq<Pixel>, pos: nat, mask: byte)

  datatype Dab = NoDab | Dab(pixel: Pixel, pos: nat, mask: byte)

  function Choose(mixed: bool, above: Pixel, mix: Pixel): Pixel
    requires |above| == |mix|
  {
    if mixed then XorPixel(above, mix) else above
  }

  lemma ChosenBytes(mixed: bool, above: Pixel, mix: Pixel)
    requires |above| == |mix|
    ensures var p := Choose(mixed, above, mix);
            |p| == |above| && forall b :: 0 <= b < |p| ==> p[b] == if mixed then XorByte(above[b], mix[b]) else above[b]
  {
  }

  /** Pixel j of an order. */
  function Paint(input: seq<byte>, b: Brush, j: nat, above: Pixel, pos: nat, mask: byte): (d: Dab)
    requires Known(b.op) && b.Valid(|above|) && pos <= |input|
    ensures d.Dab? ==> |d.pixel| == |above| && pos <= d.pos <= |input|
  {
    var bpp := |above|;
    match b.op
    case 0 => Dab(Choose(j == 0 && b.mixFirst, above, b.mix), pos, mask)
    case 1 => Dab(XorPixel(above, b.mix), pos, mask)
    case 2 =>
      if j % 8 != 0 then Dab(Choose(Bit(mask, j % 8), above, b.mix), pos, mask)
      else if b.fom != 0 then Dab(Choose(Bit(b.fom, 0), above, b.mix), pos, b.fom)
      else if pos >= |input| then NoDab
      else Dab(Choose(Bit(input[pos], 0), above, b.mix), pos + 1, input[pos])
    case 3 => Dab(b.colour2, pos, mask)
    case 4 => if pos + bpp > |input| then NoDab else Dab(input[pos..pos + bpp], pos + bpp, mask)
    case 8 => Dab(if j % 2 == 0 then b.colour1 else b.colour2, pos, mask)
    case 13 => Dab(Solid(255, bpp), pos, mask)
    case 14 => Dab(Solid(0, bpp), pos, mask)
  }

  datatype Result = Result(verdict: Verdict, out: seq<Pixel>, pos: nat)

  predicate Uniform(out: seq<Pixel>, bpp: nat) { forall i :: 0 <= i < |out| ==> |out[i]| == bpp }

  /** The pixels j..n of an order, while there is room. */
  function Body(input: seq<byte>, b: Brush, j: nat, n: nat, c: Canvas, width: nat, room: nat, bpp: nat): (r: Result)
    requires j <= n && b.Valid(bpp) && c.pos <= |input| && Uniform(c.out, bpp)
    ensures Uniform(r.out, bpp) && c.out <= r.out && c.pos <= r.pos <= |input|
    ensures r.verdict.Complete? ==> |r.out| == |c.out| + n - j
    decreases n - j
  {
    if j == n then Result(Complete, c.out, c.pos)
    else if |c.out| >= room || !Known(b.op) then Result(Refused, c.out, c.pos)
    else
      var d := Paint(input, b, j, Above(c.out, width, bpp), c.pos, c.mask);
      if d.NoDab? then Result(PastEnd, c.out, c.pos)
      else Body(input, b, j + 1, n, Canvas(c.out + [d.pixel], d.pos, d.mask), width, room, bpp)
  }

  datatype Begun = NotBegun | Begun(brush: Brush, n: nat, next: nat)

  /** The brush of the order at pos and the number of pixels it paints. */
  function Begin(input: seq<byte>, pos: nat, regs: Regs, k: nat, width: nat, bpp: nat): (r: Begun)
    requires pos < |input| && |regs.mix| == bpp
    ensures r.Begun? ==> pos < r.next <= |input| && r.brush.Valid(bpp)
  {
    var h := ReadHeader(input, pos);
    if h.NoHeader? then NotBegun
    else
      var s := Prepare(input, h, regs, bpp, k, width);
      if s.NoSetup? then NotBegun else Begun(s.brush, Pixels(s.brush.op, h.count), s.next)
  }

  /** What a bitmap leaves in the output, and what the function returns. */
  datatype Picture = Picture(verdict: Verdict, out: seq<Pixel>)

  /** All the orders of a bitmap with room for so many pixels, from the one at pos on. */
  function Decode(input: seq<byte>, pos: nat, regs: Regs, out: seq<Pixel>, width: nat, room: nat,
      bpp: nat): (r: Picture)
    requires pos <= |input| && |regs.mix| == bpp && Uniform(out, bpp)
    ensures Uniform(r.out, bpp) && out <= r.out
    decreases |input| - pos
  {
    if pos >= |input| then Picture(Complete, out)
    else
      var s := Begin(input, pos, regs, |out|, width, bpp);
      if s.NotBegun? then Picture(PastEnd, out)
      else
        var r := Body(input, s.brush, 0, s.n, Canvas(out, s.next, 0), width, room, bpp);
        if !r.verdict.Complete? then Picture(r.verdict, r.out)
        else Decode(input, r.pos, After(s.brush, s.n), r.out, width, room, bpp)
  }

  /** A Fill that painted something has used up its mixed pixel. */
  function After(b: Brush, n: nat): Regs
  {
    Regs(b.mix, b.op, b.mixFirst && (b.op != FILL || n == 0))
  }

  function Initial(bpp: nat): Regs { Regs(Solid(255, bpp), -1, false) }
}
