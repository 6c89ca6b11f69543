/** Bitmaps from the sender's side: orders are written as bytes, and the decoder paints what the
    orders mean. */
module RleProofs {
  import opened Bits
  import opened RleSpec
  import Rle

  /** What an order paints; masks and copied pixels travel with it. */
  datatype Stroke =
    | Fill
    | Mix
    | SetMix(mix: Pixel)
    | Mask(masks: seq<byte>)
    | SetMask(mix: Pixel, masks: seq<byte>)
    | Mask3
    | Mask5
    | Colour(colour: Pixel)
    | Copy(pixels: seq<Pixel>)
    | Bicolour(first: Pixel, second: Pixel)
    | White
    | Black

  datatype Order = Order(stroke: Stroke, count: nat)
  {
    /** Counts the header can carry, and operands of the right size. */
    predicate Valid(bpp: nat)
    {
      && 1 <= count < 65536
      && match stroke
         case Fill => true
         case Mix => true
         case SetMix(mix) => |mix| == bpp
         case Mask(masks) => |masks| == (count + 7) / 8
         case SetMask(mix, masks) => |mix| == bpp && |masks| == (count + 7) / 8
         case Mask3 => count == 8
         case Mask5 => count == 8
         case Colour(colour) => |colour| == bpp
         case Copy(pixels) => |pixels| == count && Uniform(pixels, bpp)
         case Bicolour(first, second) => |first| == |second| == bpp
         case White => count == 1
         case Black => count == 1
    }

    /** The number of pixels painted. */
    function Size(): nat { if stroke.Bicolour? then 2 * count else count }

    function Op(): nat
    {
      match stroke
      case Fill => 0
      case Mix => 1
      case SetMix(_) => 6
      case Mask(_) => 2
      case SetMask(_, _) => 7
      case Mask3 => 9
      case Mask5 => 10
      case Colour(_) => 3
      case Copy(_) => 4
      case Bicolour(_, _) => 8
      case White => 13
      case Black => 14
    }
  }

  // The meaning.

  /** Pixel j of an order below `above`. */
  function Tint(o: Order, j: nat, above: Pixel, mix: Pixel, mixFirst: bool): (p: Pixel)
    requires o.Valid(|above|) && |mix| == |above| && j < o.Size()
    ensures |p| == |above|
  {
    match o.stroke
    case Fill => Choose(mixFirst && j == 0, above, mix)
    case Mix => XorPixel(above, mix)
    case SetMix(_) => XorPixel(above, mix)
    case Mask(masks) => Choose(Bit(masks[j / 8], j % 8), above, mix)
    case SetMask(_, masks) => Choose(Bit(masks[j / 8], j % 8), above, mix)
    case Mask3 => Choose(Bit(3, j), above, mix)
    case Mask5 => Choose(Bit(5, j), above, mix)
    case Colour(colour) => colour
    case Copy(pixels) => pixels[j]
    case Bicolour(first, second) => if j % 2 == 0 then first else second
    case White => Solid(255, |above|)
    case Black => Solid(0, |above|)
  }

  /** The mix colour an order paints with. */
  function MixOf(o: Order, mix: Pixel): Pixel
  {
    match o.stroke
    case SetMix(m) => m
    case SetMask(m, _) => m
    case _ => mix
  }

  /** The stream after pixels j.. of an order. */
  function Render(o: Order, j: nat, out: seq<Pixel>, mix: Pixel, mixFirst: bool, width: nat, bpp: nat): (r: seq<Pixel>)
    requires o.Valid(bpp) && |mix| == bpp && j <= o.Size() && Uniform(out, bpp)
    ensures |r| == |out| + o.Size() - j && Uniform(r, bpp) && out <= r
    decreases o.Size() - j
  {
    if j == o.Size() then out
    else Render(o, j + 1, out + [Tint(o, j, Above(out, width, bpp), mix, mixFirst)], mix, mixFirst, width, bpp)
  }

  predicate AllValid(os: seq<Order>, bpp: nat) { forall o <- os :: o.Valid(bpp) }

  /** The stream of a list of orders: a Fill right after a Fill starts with a mixed pixel, unless
      it starts the second row. */
  function RenderAll(os: seq<Order>, out: seq<Pixel>, mix: Pixel, afterFill: bool, width: nat,
      bpp: nat): (r: seq<Pixel>)
    requires AllValid(os, bpp) && |mix| == bpp && Uniform(out, bpp)
    ensures Uniform(r, bpp) && out <= r
    decreases os
  {
    if os == [] then out
    else
      var o := os[0];
      var m := MixOf(o, mix);
      var next := Render(o, 0, out, m, afterFill && |out| != width, width, bpp);
      RenderAll(os[1..], next, m, o.stroke.Fill?, width, bpp)
  }

  // The bytes.

  /** The largest count of the one-byte form, and its code. */
  function Span(op: nat): nat { if op < 5 then 32 else 16 }

  function Code(op: nat): nat { if op < 5 then 32 * op else 16 * (op + 6) }

  predicate Masked(op: nat) { op == 2 || op == 7 }

  predicate Counting(op: nat) { op < 5 || 6 <= op < 9 }

  /** The header, in the shortest form that can carry the count. */
  function WriteHeader(op: nat, count: nat): (s: seq<byte>)
    requires Counting(op) && 1 <= count < 65536
    ensures |s| > 0
  {
    if Masked(op) then
      if count % 8 == 0 && count / 8 < Span(op) then [Code(op) + count / 8]
      else if count <= 256 then [Code(op), count - 1]
      else [240 + op, count % 256, count / 256]
    else
      if count < Span(op) then [Code(op) + count]
      else if count < Span(op) + 256 then [Code(op), count - Span(op)]
      else [240 + op, count % 256, count / 256]
  }

  function Operands(stroke: Stroke): seq<byte>
  {
    match stroke
    case SetMix(mix) => mix
    case SetMask(mix, _) => mix
    case Colour(colour) => colour
    case Bicolour(first, second) => first + second
    case _ => []
  }

  function Join(pixels: seq<Pixel>): seq<byte>
  {
    if pixels == [] then [] else pixels[0] + Join(pixels[1..])
  }

  /** What the pixels j.. still read from the input. */
  function Inline(o: Order, j: nat): seq<byte>
    requires j <= o.count || o.stroke.Bicolour?
  {
    match o.stroke
    case Mask(masks) => if (j + 7) / 8 <= |masks| then masks[(j + 7) / 8..] else []
    case SetMask(_, masks) => if (j + 7) / 8 <= |masks| then masks[(j + 7) / 8..] else []
    case Copy(pixels) => if j <= |pixels| then Join(pixels[j..]) else []
    case _ => []
  }

  function Header(o: Order): seq<byte>
    requires 1 <= o.count < 65536
  {
    match o.stroke
    case Mask3 => [249]
    case Mask5 => [250]
    case White => [253]
    case Black => [254]
    case _ => WriteHeader(o.Op(), o.count)
  }

  function Write(o: Order): seq<byte>
    requires 1 <= o.count < 65536
  {
    Header(o) + Operands(o.stroke) + Inline(o, 0)
  }

  function WriteAll(os: seq<Order>, bpp: nat): seq<byte>
    requires AllValid(os, bpp)
  {
    if os == [] then [] else assert os[0] in os; Write(os[0]) + WriteAll(os[1..], bpp)
  }

  // Reading them back.

  /** A code byte splits into the opcode and the count field. */
  lemma CodeSplits(op: nat, field: nat)
    requires Counting(op) && field < Span(op)
    ensures var c := Code(op) + field;
            && c < 240
            && (op < 5 ==> c / 16 < 12 && c / 16 / 2 == op && c % 32 == field)
            && (op >= 6 ==> 12 <= c / 16 < 15 && c / 16 - 6 == op && c % 16 == field)
  {
  }

  lemma HeaderRoundTrip(input: seq<byte>, pos: nat, op: nat, count: nat)
    requires Counting(op) && 1 <= count < 65536 && Stands(input, pos, WriteHeader(op, count))
    ensures ReadHeader(input, pos) == RleSpec.Header(op, count, pos + |WriteHeader(op, count)|)
  {
    var w := WriteHeader(op, count);
    StandsFirst(input, pos, w, 0);
    if |w| == 3 {
      StandsFirst(input, pos, w, 1);
      StandsFirst(input, pos, w, 2);
      assert w[0] / 16 == 15 && w[0] % 16 == op;
    } else {
      CodeSplits(op, w[0] - Code(op));
      if |w| == 2 {
        StandsFirst(input, pos, w, 1);
      }
    }
  }

  /** The brush of an order. */
  ghost predicate Paints(b: Brush, o: Order, mix: Pixel, mixFirst: bool)
  {
    && b.mix == mix
    && match o.stroke
       case Fill => b.op == FILL && b.mixFirst == mixFirst
       case Mix => b.op == MIX
       case SetMix(_) => b.op == MIX
       case Mask(_) => b.op == FILL_OR_MIX && b.fom == 0
       case SetMask(_, _) => b.op == FILL_OR_MIX && b.fom == 0
       case Mask3 => b.op == FILL_OR_MIX && b.fom == 3
       case Mask5 => b.op == FILL_OR_MIX && b.fom == 5
       case Colour(colour) => b.op == COLOUR && b.colour2 == colour
       case Copy(_) => b.op == COPY
       case Bicolour(first, second) => b.op == BICOLOUR && b.colour1 == first && b.colour2 == second
       case White => b.op == WHITE
       case Black => b.op == BLACK
  }

  lemma HeaderRead(input: seq<byte>, pos: nat, o: Order)
    requires 1 <= o.count < 65536 && Stands(input, pos, Header(o))
    requires (o.stroke.Mask3? || o.stroke.Mask5? ==> o.count == 8)
      && (o.stroke.White? || o.stroke.Black? ==> o.count == 1)
    ensures ReadHeader(input, pos) == RleSpec.Header(o.Op(), o.count, pos + |Header(o)|)
  {
    if o.stroke.Mask3? || o.stroke.Mask5? || o.stroke.White? || o.stroke.Black? {
      StandsFirst(input, pos, Header(o), 0);
    } else {
      HeaderRoundTrip(input, pos, o.Op(), o.count);
    }
  }

  /** Reading the operands gives the brush. */
  lemma OperandsRead(input: seq<byte>, at: nat, o: Order, regs: Regs, k: nat, width: nat, bpp: nat)
    requires o.Valid(bpp) && |regs.mix| == bpp && !regs.mixFirst && Stands(input, at, Operands(o.stroke))
    requires regs.last == 0 ==> k > 0
    ensures var s := Prepare(input, RleSpec.Header(o.Op(), o.count, at), regs, bpp, k, width);
            && s.Setup? && s.next == at + |Operands(o.stroke)|
            && Paints(s.brush, o, MixOf(o, regs.mix), regs.last == 0 && k != width)
            && (!o.stroke.Fill? ==> !s.brush.mixFirst)
  {
    if o.stroke.Bicolour? {
      StandsApart(input, at, o.stroke.first, o.stroke.second);
    }
  }

  /** Reading the start of an order gives its brush and its size. */
  lemma BeginWritten(input: seq<byte>, pos: nat, o: Order, regs: Regs, k: nat, width: nat, bpp: nat)
    requires o.Valid(bpp) && |regs.mix| == bpp && !regs.mixFirst && Stands(input, pos, Write(o))
    requires regs.last == 0 ==> k > 0
    ensures var s := Begin(input, pos, regs, k, width, bpp);
            && s.Begun? && s.n == o.Size()
            && Paints(s.brush, o, MixOf(o, regs.mix), regs.last == 0 && k != width)
            && (!o.stroke.Fill? ==> !s.brush.mixFirst)
            && s.next + |Inline(o, 0)| == pos + |Write(o)| && Stands(input, s.next, Inline(o, 0))
  {
    WriteStands(input, pos, o);
    HeaderRead(input, pos, o);
    var at := pos + |Header(o)|;
    OperandsRead(input, at, o, regs, k, width, bpp);
    var h := RleSpec.Header(o.Op(), o.count, at);
    var s := Prepare(input, h, regs, bpp, k, width);
    SizeOfBrush(s.brush, o, MixOf(o, regs.mix), regs.last == 0 && k != width);
    BeginParts(input, pos, regs, k, width, bpp, h, s);
  }

  lemma WriteStands(input: seq<byte>, pos: nat, o: Order)
    requires 1 <= o.count < 65536 && Stands(input, pos, Write(o))
    ensures Stands(input, pos, Header(o))
    ensures Stands(input, pos + |Header(o)|, Operands(o.stroke))
    ensures Stands(input, pos + |Header(o)| + |Operands(o.stroke)|, Inline(o, 0))
    ensures |Write(o)| == |Header(o)| + |Operands(o.stroke)| + |Inline(o, 0)|
  {
    var h, ops := Header(o), Operands(o.stroke);
    StandsApart(input, pos, h + ops, Inline(o, 0));
    StandsApart(input, pos, h, ops);
  }

  lemma SizeOfBrush(b: Brush, o: Order, mix: Pixel, mixFirst: bool)
    requires Paints(b, o, mix, mixFirst)
    ensures Pixels(b.op, o.count) == o.Size()
  {
  }

  lemma BeginParts(input: seq<byte>, pos: nat, regs: Regs, k: nat, width: nat, bpp: nat, h: RleSpec.Header, s: Setup)
    requires pos < |input| && |regs.mix| == bpp && ReadHeader(input, pos) == h && h.Header?
    requires Prepare(input, h, regs, bpp, k, width) == s && s.Setup?
    ensures Begin(input, pos, regs, k, width, bpp) == Begun(s.brush, Pixels(s.brush.op, h.count), s.next)
  {
  }

  predicate UsesMask(stroke: Stroke) { stroke.Mask? || stroke.SetMask? || stroke.Mask3? || stroke.Mask5? }

  /** The mask byte of pixel j. */
  function MaskOf(o: Order, j: nat): byte
  {
    match o.stroke
    case Mask(masks) => if j / 8 < |masks| then masks[j / 8] else 0
    case SetMask(_, masks) => if j / 8 < |masks| then masks[j / 8] else 0
    case Mask3 => 3
    case Mask5 => 5
    case _ => 0
  }

  predicate MaskReady(o: Order, j: nat, mask: byte)
  {
    UsesMask(o.stroke) && j % 8 != 0 && j < o.Size() ==> mask == MaskOf(o, j)
  }

  lemma EighthsStep(j: nat)
    ensures j % 8 == 0 ==> (j + 7) / 8 == j / 8 && (j + 8) / 8 == j / 8 + 1
    ensures j % 8 != 0 ==> (j + 7) / 8 == j / 8 + 1 == (j + 8) / 8
    ensures (j + 1) % 8 != 0 ==> (j + 1) / 8 == j / 8
  {
  }

  lemma EighthsBound(j: nat, n: nat)
    requires j < n
    ensures j / 8 < (n + 7) / 8 && (j + 8) / 8 <= (n + 7) / 8
  {
  }

  /** The inline bytes from pixel j on, when pixel j reads a mask. */
  lemma MaskRead(input: seq<byte>, pos: nat, masks: seq<byte>, j: nat, n: nat)
    requires j < n && |masks| == (n + 7) / 8
    requires Stands(input, pos, masks[(j + 7) / 8..])
    ensures j % 8 == 0 ==> pos < |input| && input[pos] == masks[j / 8] && Stands(input, pos + 1, masks[(j + 8) / 8..])
    ensures j % 8 != 0 ==> Stands(input, pos, masks[(j + 8) / 8..])
  {
    EighthsStep(j);
    EighthsBound(j, n);
    if j % 8 == 0 {
      var s := masks[j / 8..];
      assert s == [masks[j / 8]] + masks[j / 8 + 1..];
      StandsApart(input, pos, [masks[j / 8]], masks[j / 8 + 1..]);
      StandsFirst(input, pos, s, 0);
    }
  }

  lemma CopyRead(input: seq<byte>, pos: nat, pixels: seq<Pixel>, j: nat)
    requires j < |pixels| && Stands(input, pos, Join(pixels[j..]))
    ensures Stands(input, pos, pixels[j]) && Stands(input, pos + |pixels[j]|, Join(pixels[j + 1..]))
    ensures |Join(pixels[j..])| == |pixels[j]| + |Join(pixels[j + 1..])|
  {
    assert pixels[j..][1..] == pixels[j + 1..];
    StandsApart(input, pos, pixels[j], Join(pixels[j + 1..]));
  }

  /** Pixel j of a masked order. */
  lemma MaskDab(input: seq<byte>, b: Brush, o: Order, j: nat, above: Pixel, c: Canvas, mix: Pixel, masks: seq<byte>)
    requires o.stroke == Mask(masks) || o.stroke == SetMask(mix, masks)
    requires o.Valid(|above|) && j < o.Size() && |mix| == |above| && b.Valid(|above|) && c.pos <= |input|
    requires b.op == FILL_OR_MIX && b.fom == 0 && b.mix == mix
    requires Stands(input, c.pos, masks[EighthsBound(j, o.count); (j + 7) / 8..]) && MaskReady(o, j, c.mask)
    ensures var d := Paint(input, b, j, above, c.pos, c.mask);
            && d.Dab? && d.pixel == (EighthsBound(j, o.count); Choose(Bit(masks[j / 8], j % 8), above, mix))
            && d.pos == c.pos + (if j % 8 == 0 then 1 else 0) && d.mask == masks[j / 8]
  {
    EighthsStep(j);
    EighthsBound(j, o.count);
    MaskRead(input, c.pos, masks, j, o.count);
  }

  /** Pixel j is painted as the order means it, and what is still to be read stands behind it. */
  ghost predicate DabIs(d: Dab, input: seq<byte>, o: Order, j: nat, above: Pixel, pos: nat, mix: Pixel, mixFirst: bool)
    requires o.Valid(|above|) && j < o.Size() && |mix| == |above|
  {
    && d.Dab? && d.pixel == Tint(o, j, above, mix, mixFirst)
    && d.pos + |Inline(o, j + 1)| == pos + |Inline(o, j)|
    && Stands(input, d.pos, Inline(o, j + 1)) && MaskReady(o, j + 1, d.mask)
  }

  lemma InlineMaskWritten(input: seq<byte>, b: Brush, o: Order, j: nat, above: Pixel, c: Canvas, mix: Pixel,
      mixFirst: bool)
    requires o.Valid(|above|) && j < o.Size() && |mix| == |above| && b.Valid(|above|) && c.pos <= |input|
    requires Paints(b, o, mix, mixFirst) && Stands(input, c.pos, Inline(o, j)) && MaskReady(o, j, c.mask)
    requires o.stroke.Mask? || (o.stroke.SetMask? && mix == o.stroke.mix)
    ensures Known(b.op) && DabIs(Paint(input, b, j, above, c.pos, c.mask), input, o, j, above, c.pos, mix, mixFirst)
  {
    hide Paint, Bit, Choose, Stands;
    var masks := o.stroke.masks;
    EighthsStep(j);
    EighthsBound(j, o.count);
    MaskRead(input, c.pos, masks, j, o.count);
    MaskDab(input, b, o, j, above, c, mix, masks);
  }

  lemma DabWritten(input: seq<byte>, b: Brush, o: Order, j: nat, above: Pixel, c: Canvas, mix: Pixel, mixFirst: bool)
    requires o.Valid(|above|) && j < o.Size() && |mix| == |above| && b.Valid(|above|) && c.pos <= |input|
    requires Paints(b, o, mix, mixFirst) && Stands(input, c.pos, Inline(o, j)) && MaskReady(o, j, c.mask)
    requires o.stroke.SetMask? ==> mix == o.stroke.mix
    ensures Known(b.op) && DabIs(Paint(input, b, j, above, c.pos, c.mask), input, o, j, above, c.pos, mix, mixFirst)
  {
    hide Bit, XorPixel, Join;
    if o.stroke.Mask? || o.stroke.SetMask? {
      InlineMaskWritten(input, b, o, j, above, c, mix, mixFirst);
    } else if o.stroke.Copy? {
      CopyRead(input, c.pos, o.stroke.pixels, j);
    }
  }

  /** What the room allows of a stream, and the verdict that goes with it. */
  function Cut(all: seq<Pixel>, room: nat): Picture
  {
    if |all| <= room then Picture(Complete, all) else Picture(Refused, all[..room])
  }

  /** The body paints the order, and refuses exactly the pixel that has no room. */
  lemma {:induction false} BodyWritten(input: seq<byte>, b: Brush, o: Order, j: nat, c: Canvas, mix: Pixel,
      mixFirst: bool, width: nat, room: nat, bpp: nat)
    requires o.Valid(bpp) && j <= o.Size() && |mix| == bpp && b.Valid(bpp) && c.pos <= |input|
    requires Uniform(c.out, bpp) && |c.out| <= room
    requires Paints(b, o, mix, mixFirst) && Stands(input, c.pos, Inline(o, j)) && MaskReady(o, j, c.mask)
    requires o.stroke.SetMask? ==> mix == o.stroke.mix
    ensures var r := Body(input, b, j, o.Size(), c, width, room, bpp);
            && Picture(r.verdict, r.out) == Cut(Render(o, j, c.out, mix, mixFirst, width, bpp), room)
            && (r.verdict.Complete? ==> r.pos == c.pos + |Inline(o, j)|)
    decreases o.Size() - j
  {
    hide Paint, Inline, MaskReady, Stands, Tint, Paints, Above;
    if j == o.Size() {
      InlineEnds(o, bpp);
    } else {
      var above := Above(c.out, width, bpp);
      AboveFits(c.out, width, bpp);
      DabWritten(input, b, o, j, above, c, mix, mixFirst);
      var all := Render(o, j, c.out, mix, mixFirst, width, bpp);
      if |c.out| < room {
        var d := Paint(input, b, j, above, c.pos, c.mask);
        BodyWritten(input, b, o, j + 1, Canvas(c.out + [d.pixel], d.pos, d.mask), mix, mixFirst, width, room, bpp);
      } else {
        assert all[..room] == c.out;
      }
    }
  }

  lemma AboveFits(out: seq<Pixel>, width: nat, bpp: nat)
    requires Uniform(out, bpp)
    ensures |Above(out, width, bpp)| == bpp
  {
  }

  lemma InlineEnds(o: Order, bpp: nat)
    requires o.Valid(bpp)
    ensures Inline(o, o.Size()) == []
  {
  }

  lemma MixKept(o: Order, mix: Pixel, bpp: nat)
    requires o.Valid(bpp) && |mix| == bpp
    ensures |MixOf(o, mix)| == bpp && (o.stroke.SetMask? ==> MixOf(o, mix) == o.stroke.mix)
  {
  }

  /** The registers left by an order are those its meaning leaves. */
  lemma RegsAfter(b: Brush, o: Order, mix: Pixel, mixFirst: bool)
    requires Paints(b, o, mix, mixFirst) && o.Size() > 0 && (!o.stroke.Fill? ==> !b.mixFirst)
    ensures var r := After(b, o.Size());
            r.mix == mix && !r.mixFirst && (r.last == 0 <==> o.stroke.Fill?)
  {
  }

  /** One turn of the decoder, for an order whose body paints `next` as far as there is room. */
  lemma DecodeStep(input: seq<byte>, pos: nat, regs: Regs, out: seq<Pixel>, width: nat, room: nat, bpp: nat, s: Begun,
      r: Result, next: seq<Pixel>)
    requires pos < |input| && |regs.mix| == bpp && Uniform(out, bpp)
    requires s == Begin(input, pos, regs, |out|, width, bpp) && s.Begun?
    requires r == Body(input, s.brush, 0, s.n, Canvas(out, s.next, 0), width, room, bpp)
    requires Picture(r.verdict, r.out) == Cut(next, room)
    ensures |next| > room ==> Decode(input, pos, regs, out, width, room, bpp) == Cut(next, room)
    ensures |next| <= room ==>
      Uniform(next, bpp)
          && Decode(input, pos, regs, out, width, room, bpp) ==
          Decode(input, r.pos, After(s.brush, s.n), next, width, room, bpp)
  {
  }

  /** One order, read back. */
  lemma OrderWritten(input: seq<byte>, pos: nat, o: Order, regs: Regs, out: seq<Pixel>, width: nat, room: nat, bpp: nat)
      returns (s: Begun, r: Result)
    requires o.Valid(bpp) && |regs.mix| == bpp && Uniform(out, bpp) && |out| <= room
    requires Stands(input, pos, Write(o)) && !regs.mixFirst && (regs.last == 0 ==> |out| > 0)
    ensures s == Begin(input, pos, regs, |out|, width, bpp) && s.Begun?
    ensures r == Body(input, s.brush, 0, s.n, Canvas(out, s.next, 0), width, room, bpp)
    ensures |MixOf(o, regs.mix)| == bpp
    ensures Picture(r.verdict, r.out) ==
            Cut(Render(o, 0, out, MixOf(o, regs.mix), regs.last == 0 && |out| != width, width, bpp), room)
    ensures r.verdict.Complete? ==> r.pos == pos + |Write(o)|
    ensures var after := After(s.brush, s.n);
            after.mix == MixOf(o, regs.mix) && !after.mixFirst && (after.last == 0 <==> o.stroke.Fill?)
  {
    BeginWritten(input, pos, o, regs, |out|, width, bpp);
    s := Begin(input, pos, regs, |out|, width, bpp);
    var mix, first := MixOf(o, regs.mix), regs.last == 0 && |out| != width;
    r := Body(input, s.brush, 0, s.n, Canvas(out, s.next, 0), width, room, bpp);
    MixKept(o, regs.mix, bpp);
    BodyWritten(input, s.brush, o, 0, Canvas(out, s.next, 0), mix, first, width, room, bpp);
    RegsAfter(s.brush, o, mix, first);
  }

  lemma CutEarly(next: seq<Pixel>, all: seq<Pixel>, room: nat)
    requires next <= all && |next| > room
    ensures Cut(next, room) == Cut(all, room)
  {
    assert all[..room] == all[..|next|][..room];
  }

  lemma NothingWritten(input: seq<byte>, pos: nat, regs: Regs, out: seq<Pixel>, width: nat, room: nat, bpp: nat)
    requires |regs.mix| == bpp && Uniform(out, bpp) && |out| <= room && pos + |WriteAll([], bpp)| == |input|
    ensures Decode(input, pos, regs, out, width, room, bpp) ==
            Cut(RenderAll([], out, regs.mix, regs.last == 0, width, bpp), room)
  {
  }

  lemma CutComplete(next: seq<Pixel>, room: nat)
    ensures Cut(next, room).verdict.Complete? <==> |next| <= room
  {
  }

  lemma WriteAllIs(os: seq<Order>, bpp: nat)
    requires AllValid(os, bpp) && os != []
    ensures os[0] in os && AllValid(os[1..], bpp) && WriteAll(os, bpp) == Write(os[0]) + WriteAll(os[1..], bpp)
    ensures |Write(os[0])| > 0
  {
  }

  lemma RenderAllIs(os: seq<Order>, out: seq<Pixel>, mix: Pixel, afterFill: bool, width: nat, bpp: nat)
    requires AllValid(os, bpp) && |mix| == bpp && Uniform(out, bpp) && os != []
    ensures os[0] in os
    ensures var m := MixOf(os[0], mix);
            |m| == bpp
            && RenderAll(os, out, mix, afterFill, width, bpp) ==
               RenderAll(os[1..], Render(os[0], 0, out, m, afterFill && |out| != width, width, bpp), m,
                         os[0].stroke.Fill?, width, bpp)
  {
  }

  /** For every list of orders: decoding the bytes they are written as paints what they mean, and
      the decoder refuses exactly when they mean more pixels than the bitmap has. */
  lemma {:induction false} DecodeWritten(input: seq<byte>, pos: nat, os: seq<Order>, regs: Regs, out: seq<Pixel>,
      width: nat, room: nat, bpp: nat)
    requires AllValid(os, bpp) && |regs.mix| == bpp && Uniform(out, bpp) && |out| <= room
    requires Stands(input, pos, WriteAll(os, bpp)) && pos + |WriteAll(os, bpp)| == |input|
    requires !regs.mixFirst && (regs.last == 0 ==> |out| > 0)
    ensures Decode(input, pos, regs, out, width, room, bpp) ==
            Cut(RenderAll(os, out, regs.mix, regs.last == 0, width, bpp), room)
    decreases os
  {
    hide WriteAll, RenderAll, Cut, Write, Begin, Body, Stands, Decode, Render, MixOf;
    if os == [] {
      NothingWritten(input, pos, regs, out, width, room, bpp);
    } else {
      var o := os[0];
      WriteAllIs(os, bpp);
      StandsApart(input, pos, Write(o), WriteAll(os[1..], bpp));
      var s, r := OrderWritten(input, pos, o, regs, out, width, room, bpp);
      RenderAllIs(os, out, regs.mix, regs.last == 0, width, bpp);
      var next := Render(o, 0, out, MixOf(o, regs.mix), regs.last == 0 && |out| != width, width, bpp);
      DecodeStep(input, pos, regs, out, width, room, bpp, s, r, next);
      CutComplete(next, room);
      if |next| <= room {
        DecodeWritten(input, r.pos, os[1..], After(s.brush, s.n), next, width, room, bpp);
      } else {
        CutEarly(next, RenderAll(os, out, regs.mix, regs.last == 0, width, bpp), room);
      }
    }
  }

  /** The same for a whole bitmap. */
  lemma BitmapRoundTrip(os: seq<Order>, width: nat, height: nat, bpp: nat)
    requires AllValid(os, bpp)
    ensures Decode(WriteAll(os, bpp), 0, Initial(bpp), [], width, width * height, bpp) ==
            Cut(RenderAll(os, [], Solid(255, bpp), false, width, bpp), width * height)
  {
    var input := WriteAll(os, bpp);
    assert input[0..0 + |input|] == input;
    DecodeWritten(input, 0, os, Initial(bpp), [], width, width * height, bpp);
  }

  /** So in the buffer of the program every byte of every pixel that the orders mean is in its place. */
  lemma BytesRoundTrip(os: seq<Order>, width: nat, height: nat, bpp: nat, bytes: seq<byte>, k: nat, b: nat)
    requires AllValid(os, bpp)
    requires Rle.Laid(bytes, Decode(WriteAll(os, bpp), 0, Initial(bpp), [], width, width * height, bpp).out, width,
      height, bpp)
    requires var all := RenderAll(os, [], Solid(255, bpp), false, width, bpp); k < |all| <= width * height && b < bpp
    ensures var all := RenderAll(os, [], Solid(255, bpp), false, width, bpp);
            && |all[k]| == bpp && width > 0 && k / width < height
            && var place := bpp * ((height - 1 - k / width) * width + k % width) + b;
               0 <= place < |bytes| && bytes[place] == all[k][b]
  {
    hide RenderAll, Decode, WriteAll;
    BitmapRoundTrip(os, width, height, bpp);
    var all := RenderAll(os, [], Solid(255, bpp), false, width, bpp);
    assert Rle.Placed(bytes, all[k][b], k, b, width, height, bpp) by {
      hide Rle.Placed;
    }
  }
}
