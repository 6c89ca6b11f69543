/** The interleaved run-length decoder as the program runs it: rows from the bottom up, a cursor
    in the row, eight statements at a time. The program has three copies of it, for pixels of one byte,
    of a word of two, and of three bytes; they differ where a pixel is loaded, stored or combined, and
    there the class takes the case of its pixel size. */
module Rle {
  import opened Bits
  import opened Packing
  import opened RleSpec
  import opened Rows

  ghost predicate Odd(j: nat) { j > 0 && !Odd(j - 1) }

  lemma {:induction false} OddIsMod(j: nat)
    ensures Odd(j) <==> j % 2 == 1
  {
    if j > 0 {
      OddIsMod(j - 1);
    }
  }

  /** The C variable `mixmask` after j pixels: shifted, and one again when the bit falls out. */
  ghost function MaskAfter(j: nat): nat
  {
    if j == 0 then 0
    else if MaskAfter(j - 1) == 0 || MaskAfter(j - 1) == 128 then 1
    else 2 * MaskAfter(j - 1)
  }

  /** The mask selects the bits of its byte in turn, and overflows every eighth time. */
  lemma {:induction false} MaskAfterIs(j: nat)
    ensures MaskAfter(j + 1) == Pow2(j % 8)
    ensures (2 * MaskAfter(j)) % 256 == if j % 8 == 0 then 0 else MaskAfter(j + 1)
  {
    if j > 0 {
      MaskAfterIs(j - 1);
      EightSteps((j - 1) % 8);
      NextMod8(j);
    }
  }

  /** C's `mask & mixmask`. */
  function And(a: nat, b: nat): nat
  {
    if a == 0 || b == 0 then 0
    else 2 * And(a / 2, b / 2) + (a % 2) * (b % 2)
  }

  lemma {:induction false} AndPow2(a: nat, k: nat)
    ensures And(a, Pow2(k)) != 0 <==> Bit(a, k)
    decreases k
  {
    if k == 0 {
      assert And(a / 2, 0) == 0;
    } else if a != 0 {
      AndPow2(a / 2, k - 1);
    } else {
      NoBits(k);
    }
  }

  lemma {:induction false} NoBits(k: nat)
    ensures !Bit(0, k)
  {
    if k > 0 {
      NoBits(k - 1);
    }
  }

  lemma NextMod8(j: nat)
    requires j > 0
    ensures j % 8 == if (j - 1) % 8 == 7 then 0 else (j - 1) % 8 + 1
  {
  }

  lemma EightSteps(k: nat)
    requires k < 8
    ensures (2 * Pow2(k)) % 256 == if k == 7 then 0 else Pow2(k + 1)
    ensures Pow2(k) == 128 <==> k == 7
  {
    assert Pow2(3) == 8;
    match k case 0 => case 1 => case 2 => case 3 => case 4 => case 5 => case 6 => case 7 =>
  }

  lemma XorZero(p: Pixel)
    ensures XorPixel(Solid(0, |p|), p) == p
  {
  }

  /** bitmap_decompress1, 2 and 3, for bpp 1, 2 and 3. */
  class Decoder {
    const input: seq<byte>
    const bpp: nat
    const width: nat
    const rows: nat
    const output: array<byte>
    /** The byte order of the machine, which decides what a word holds. */
    const little: bool
    var height: nat
    var x: nat
    var line: int
    var prevline: int
    var pos: nat
    var opcode: int
    var count: int
    var lastopcode: int
    var insertmix: bool
    var bicolour: bool
    var colour1: Pixel
    var colour2: Pixel
    var mix: Pixel
    var mask: byte
    var mixmask: nat
    var fomMask: byte

    /** The finished rows and the one under the cursor, and both as the stream of pixels. */
    ghost var above: seq<seq<Pixel>>
    ghost var row: seq<Pixel>

    ghost function Out(): seq<Pixel>
      reads this`above, this`row
    {
      Flat(above) + row
    }

    predicate Sized()
    {
      1 <= bpp <= 3
    }

    /** The buffer has a place for every pixel. */
    ghost predicate Roomy() { Sized() && output.Length == Spot(bpp, Places(rows, width)) }

    /** The pixels the buffer holds. */
    ghost function Shown(): (p: seq<Pixel>)
      requires Roomy()
      reads output
      ensures |p| == Places(rows, width)
    {
      Unpacked(output[..], bpp, Places(rows, width))
    }

    /** The places of the rows below the one that is written. */
    ghost function Base(): nat
      reads this`height
    {
      Places(height, width)
    }

    /** What a pointer moves by, for n pixels: the pointers are to bytes, or to words. */
    function Unit(n: nat): nat { if bpp == 3 then 3 * n else n }

    /** The cursor: which row of the output is written, which one is above it. */
    ghost predicate Fits()
      reads this`height, this`x, this`line, this`prevline, this`above, this`row
    {
      && Roomy()
      && height <= rows && x <= width
      && (forall r :: 0 <= r < |above| ==> |above[r]| == width)
      && (height == rows ==> x == width && line == -1 && prevline == -1 && above == [] && row == [])
      && (height < rows ==>
            && |above| == rows - height - 1 && |row| == x
            && line == Unit(Base()) && Base() + width <= Places(rows, width)
            && prevline == (if above == [] then -1 else Unit(Base() + width)))
    }

    /** The output holds the rows, the first one last. */
    ghost predicate Shows()
      requires Fits()
      reads this`height, this`x, this`line, this`prevline, this`above, this`row, output
    {
      height < rows ==> Shown()[Base()..Base() + x] == row && Shown()[Base() + width..] == Stack(above)
    }

    ghost predicate Valid()
      reads this, output
    {
      Fits() && Shows() && Uniform(Out(), bpp) && pos <= |input| && |mix| == |colour1| == |colour2| == bpp
    }

    lemma OutLength()
      requires Fits()
      ensures height < rows ==> |Out()| == Places(|above|, width) + x
      ensures height == rows ==> Out() == []
    {
      FlatLength(above, width);
    }

    /** There is room exactly when the cursor is inside a row or another row is left. */
    lemma Room()
      requires Fits()
      ensures height < rows && x < width ==> |Out()| < Places(rows, width)
      ensures x == width && height == 0 ==> |Out()| == Places(rows, width)
      ensures width == 0 ==> |Out()| == Places(rows, width) == 0
    {
      OutLength();
      if height < rows {
        RowsBefore(|above|, rows, width);
      }
      PlacesIs(rows, width);
    }

    /** The pixel above the cursor is the one `width` back in the stream. */
    lemma AbovePixel()
      requires Valid() && height < rows && x < width
      ensures prevline == -1 ==> Above(Out(), width, bpp) == Solid(0, bpp)
      ensures prevline != -1 ==> prevline == Unit(Base() + width) && Base() + width + x < Places(rows, width)
                                 && Shown()[Base() + width + x] == Above(Out(), width, bpp)
    {
      OutLength();
      if prevline != -1 {
        BackOneRow(above, row, width);
        assert Shown()[Base() + width..][x] == Shown()[Base() + width + x];
      }
    }

    // Pixels in the buffer and in the input.

    /** The byte at which element x of a line begins. */
    function Address(start: int, x: nat): int
    {
      if bpp == 1 then start + x else if bpp == 2 then 2 * (start + x) else start + x * 3
    }

    lemma AddressIs(i: nat, x: nat)
      requires Sized()
      ensures Address(Unit(i), x) == Spot(bpp, i + x)
    {
    }

    /** `line[x] = p`: a byte, a word, or three bytes. */
    method Store(p: Pixel)
      requires Fits() && height < rows && x < width && |p| == bpp
      modifies output
      ensures Shown() == old(Shown())[Base() + x := p]
    {
      ghost var was, i, n := output[..], Base() + x, Places(rows, width);
      SpotInside(bpp, i, n);
      match bpp {
        case 1 =>
          output[line + x] := p[0];
        case 2 =>
          StoreWord(line + x, Word(little, p));
          LoadStore(little, p, 0);
        case 3 =>
          output[line + x * 3] := p[0];
          output[line + x * 3 + 1] := p[1];
          output[line + x * 3 + 2] := p[2];
      }
      PixelStored(was, output[..], bpp, n, i, p);
    }

    /** A word stored in the buffer seen as words. */
    method StoreWord(i: nat, w: nat)
      requires 2 * i + 2 <= output.Length && w < 0x10000
      modifies output
      ensures forall k :: 0 <= k < output.Length ==>
                output[k] == if 2 * i <= k < 2 * i + 2 then Stored(little, w)[k - 2 * i] else old(output[k])
    {
      var low, high := w % 256, w / 256;
      if little {
        output[2 * i] := low;
        output[2 * i + 1] := high;
      } else {
        output[2 * i] := high;
        output[2 * i + 1] := low;
      }
    }

    /** A word of the buffer. */
    method LoadWord(i: nat) returns (w: nat)
      requires 2 * i + 2 <= output.Length
      ensures w == Word(little, output[2 * i..2 * i + 2]) && w < 0x10000
    {
      w := Word(little, [output[2 * i], output[2 * i + 1]]);
      assert output[2 * i..2 * i + 2] == [output[2 * i], output[2 * i + 1]];
    }

    /** CVAL once or three times, or CVAL2: one pixel of the input, if it is there. */
    method Take() returns (ok: bool, p: Pixel)
      requires pos <= |input| && Sized()
      modifies this`pos
      ensures ok == (old(pos) + bpp <= |input|)
      ensures ok ==> pos == old(pos) + bpp && p == input[old(pos)..pos]
      ensures !ok ==> pos == old(pos)
    {
      ok, p := pos + bpp <= |input|, [];
      if ok {
        match bpp {
          case 1 =>
            p := [input[pos]];
          case 2 =>
            var w := Word(little, [input[pos], input[pos + 1]]);
            LoadStore(little, [input[pos], input[pos + 1]], w);
            p := Stored(little, w);
          case 3 =>
            p := [input[pos], input[pos + 1], input[pos + 2]];
        }
        pos := pos + bpp;
      }
    }

    /** `line[x] = p`, then `count--; x++`. */
    method Put(p: Pixel)
      requires Valid() && height < rows && x < width && |p| == bpp
      modifies this`x, this`count, this`row, output
      ensures Valid() && x == old(x) + 1 && count == old(count) - 1
      ensures Out() == old(Out()) + [p]
    {
      hide Unpacked, Spot, Flat, Stack;
      ghost var was := Shown();
      Store(p);
      assert Shown()[Base() + width..] == was[Base() + width..];
      assert Shown()[Base()..Base() + x] == was[Base()..Base() + x];
      row := row + [p];
      count, x := count - 1, x + 1;
      assert Out() == old(Out()) + [p];
    }

    // One order.

    /** The order as the stream knows it. */
    ghost predicate Same(b: Brush)
      reads this`opcode, this`mix, this`colour1, this`colour2, this`fomMask
    {
      && b.op == opcode && b.mix == mix && b.fom == fomMask
      && (b.op == BICOLOUR ==> b.colour1 == colour1)
      && (b.op == BICOLOUR || b.op == COLOUR ==> b.colour2 == colour2)
    }

    /** j of its n pixels are painted when the count is left. */
    ghost predicate Counts(b: Brush, j: nat, n: nat, left: int)
      reads this`opcode, this`mix, this`colour1, this`colour2, this`fomMask, this`insertmix, this`bicolour, this`mixmask
    {
      && j <= n && Same(b)
      && insertmix == (b.mixFirst && (b.op != FILL || j == 0))
      && bicolour == (b.op == BICOLOUR && Odd(j))
      && n - j == Left(b.op, left, bicolour)
      && (b.op == FILL_OR_MIX ==> mixmask == MaskAfter(j))
    }

    ghost predicate At(b: Brush, j: nat, n: nat)
      reads this`opcode, this`mix, this`colour1, this`colour2, this`fomMask, this`insertmix, this`bicolour,
        this`mixmask, this`count
    {
      Counts(b, j, n, count)
    }

    /** The pixels still to paint: a pair of colours counts once. */
    static function Left(op: nat, count: int, bicolour: bool): int
    {
      if op == BICOLOUR then 2 * count - (if bicolour then 1 else 0) else count
    }

    /** The mask byte, once the order has one. */
    ghost function InUse(b: Brush, j: nat): byte
      reads this`mask
    {
      if b.op == FILL_OR_MIX && j > 0 then mask else 0
    }

    ghost function Now(b: Brush, j: nat): Canvas
      reads this`above, this`row, this`pos, this`mask
    {
      Canvas(Out(), pos, InUse(b, j))
    }

    /** What the stream says will have come of it. */
    ghost function Rest(b: Brush, j: nat, n: nat): Result
      requires Uniform(Out(), bpp) && pos <= |input| && b.Valid(bpp) && j <= n
      reads this`above, this`row, this`pos, this`mask
    {
      Body(input, b, j, n, Now(b, j), width, Places(rows, width), bpp)
    }

    /** MASK_UPDATE. */
    method MaskUpdate(ghost j: nat) returns (ok: bool)
      requires mixmask == MaskAfter(j) && pos <= |input|
      modifies this`mask, this`mixmask, this`pos
      ensures old(pos) <= pos <= |input|
      ensures ok == (j % 8 != 0 || fomMask != 0 || old(pos) < |input|)
      ensures !ok ==> pos == old(pos)
      ensures ok ==> mixmask == MaskAfter(j + 1) && mixmask == Pow2(j % 8)
      ensures ok ==> mask == if j % 8 != 0 then old(mask) else if fomMask != 0 then fomMask else input[old(pos)]
      ensures ok ==> pos == old(pos) + if j % 8 != 0 || fomMask != 0 then 0 else 1
    {
      MaskAfterIs(j);
      mixmask := (2 * mixmask) % 256;
      if mixmask == 0 {
        if fomMask != 0 {
          mask := fomMask;
        } else {
          if pos >= |input| {
            return false;
          }
          mask := input[pos];
          pos := pos + 1;
        }
        mixmask := 1;
      }
      ok := true;
    }

    /** The pixel above the cursor, as the code reads it. */
    ghost predicate Sees(up: Pixel)
      reads this`x, this`prevline, output
    {
      && Sized() && |up| == bpp
      && (prevline == -1 ==> up == Solid(0, bpp))
      && (prevline != -1 ==>
            && 0 <= prevline && Address(prevline, x) + bpp <= output.Length
            && output[Address(prevline, x)..Address(prevline, x) + bpp] == up)
    }

    /** `prevline[x] ^ mix` or `prevline[x]`, and the first row, which has nothing above it. */
    method Blend(mixed: bool, ghost up: Pixel) returns (p: Pixel)
      requires Sees(up) && |mix| == bpp
      ensures p == Choose(mixed, up, mix) && |p| == |up| == bpp
      ensures forall b :: 0 <= b < bpp ==> p[b] == if mixed then XorByte(up[b], mix[b]) else up[b]
    {
      if prevline == -1 {
        XorZero(mix);
        p := if mixed then mix else Solid(0, bpp);
      } else {
        match bpp {
          case 1 =>
            var b := output[prevline + x];
            p := [if mixed then XorByte(b, mix[0]) else b];
          case 2 =>
            p := BlendWord(mixed, up);
          case 3 =>
            p := BlendBytes(mixed, up);
        }
      }
    }

    /** The two-byte pixel as a word. */
    method BlendWord(mixed: bool, ghost up: Pixel) returns (p: Pixel)
      requires Sees(up) && bpp == |mix| == 2 && prevline != -1
      ensures p == Choose(mixed, up, mix) && |p| == |up| == 2
      ensures forall b :: 0 <= b < 2 ==> p[b] == if mixed then XorByte(up[b], mix[b]) else up[b]
    {
      hide Word, Stored, Xor, XorPixel;
      var w := LoadWord(prevline + x);
      LoadStore(little, up, w);
      if mixed {
        XorWord(little, up, mix);
        w := Xor(w, Word(little, mix));
      }
      p := Stored(little, w);
      ChosenBytes(mixed, up, mix);
    }

    /** The three-byte pixel byte by byte. */
    method BlendBytes(mixed: bool, ghost up: Pixel) returns (p: Pixel)
      requires Sees(up) && bpp == |mix| == 3 && prevline != -1
      ensures p == Choose(mixed, up, mix) && |p| == |up| == 3
      ensures forall b :: 0 <= b < 3 ==> p[b] == if mixed then XorByte(up[b], mix[b]) else up[b]
    {
      hide XorByte;
      var i := prevline + x * 3;
      var b0, b1, b2 := output[i], output[i + 1], output[i + 2];
      assert [b0, b1, b2] == up;
      if mixed {
        b0, b1, b2 := XorByte(b0, mix[0]), XorByte(b1, mix[1]), XorByte(b2, mix[2]);
      }
      p := [b0, b1, b2];
    }

    /** Fill-or-mix. */
    method BlendByMask(ghost b: Brush, ghost j: nat, ghost up: Pixel) returns (ok: bool, p: Pixel)
      requires Sees(up) && |mix| == bpp && pos <= |input| && mixmask == MaskAfter(j)
      requires b.op == FILL_OR_MIX && Same(b) && b.Valid(bpp)
      modifies this`pos, this`mask, this`mixmask
      ensures var d := Paint(input, b, j, up, old(pos), old(InUse(b, j)));
              if ok then d == Dab(p, pos, InUse(b, j + 1)) else d == NoDab && pos == old(pos)
      ensures ok ==> mixmask == MaskAfter(j + 1)
    {
      p := mix;
      ok := MaskUpdate(j);
      if ok {
        AndPow2(mask, j % 8);
        p := Blend(And(mask, mixmask) != 0, up);
      }
    }

    /** The value that one statement of the switch stores at line[x]. */
    method Value(ghost b: Brush, ghost j: nat, ghost n: nat, ghost up: Pixel) returns (ok: bool, p: Pixel)
      requires Sees(up) && b.Valid(bpp) && pos <= |input| && Known(b.op)
      requires At(b, j, n) && j < n
      requires b.op == FILL ==> !insertmix
      modifies this`pos, this`mask, this`mixmask, this`bicolour, this`count
      ensures var d := Paint(input, b, j, up, old(pos), old(InUse(b, j)));
              if ok then d == Dab(p, pos, InUse(b, j + 1)) else d == NoDab && pos == old(pos)
      ensures ok ==> Counts(b, j + 1, n, count - 1)
    {
      OddIsMod(j);
      ok, p := true, mix;
      match opcode {
        case 0 =>
          p := Blend(false, up);
        case 1 =>
          p := Blend(true, up);
        case 2 =>
          ok, p := BlendByMask(b, j, up);
        case 3 =>
          p := colour2;
        case 4 =>
          ok, p := Take();
        case 8 =>
          if bicolour {
            p := colour2;
            bicolour := false;
          } else {
            p := colour1;
            bicolour := true;
            count := count + 1;
          }
        case 13 =>
          p := Solid(255, bpp);
        case 14 =>
          p := Solid(0, bpp);
      }
    }

    /** The cursor stands on a free place below the pixel `width` back. */
    lemma Cursor()
      requires Valid() && height < rows && x < width
      ensures |Out()| < Places(rows, width) && Sees(Above(Out(), width, bpp))
    {
      hide Stack, Flat, Unpacked;
      Room();
      AbovePixel();
      hide Above;
      if prevline != -1 {
        var i := Base() + width;
        AddressIs(i, x);
        SpotInside(bpp, i + x, Places(rows, width));
        PixelsAt(output[..], bpp, Places(rows, width), i + x);
      }
    }

    /** The statement, and the `count--; x++` of REPEAT. */
    method One(ghost b: Brush, ghost j: nat, ghost n: nat) returns (ok: bool)
      requires Valid() && b.Valid(bpp) && At(b, j, n) && j < n && height < rows && x < width && Known(b.op)
      requires b.op == FILL ==> !insertmix
      modifies this`x, this`count, this`row, this`pos, this`mask, this`mixmask, this`bicolour, output
      ensures Valid()
      ensures ok ==> At(b, j + 1, n) && x == old(x) + 1 && Rest(b, j + 1, n) == old(Rest(b, j, n))
      ensures !ok ==> old(Rest(b, j, n)) == Result(PastEnd, Out(), pos)
    {
      hide Shows, Unpacked, Unit, Odd, Left, Body, Paint, Places, Address;
      Cursor();
      BodyStep(input, b, j, n, Now(b, j), width, Places(rows, width), bpp);
      var p;
      ok, p := Value(b, j, n, Above(Out(), width, bpp));
      if ok {
        Put(p);
      }
    }

    /** UNROLL8. */
    method Eight(ghost b: Brush, ghost j: nat, ghost n: nat) returns (ok: bool, ghost k: nat)
      requires Valid() && b.Valid(bpp) && At(b, j, n) && j + 8 <= n && height < rows && x + 8 <= width && Known(b.op)
      requires b.op == FILL ==> !insertmix
      modifies this`x, this`count, this`row, this`pos, this`mask, this`mixmask, this`bicolour, output
      ensures Valid()
      ensures ok ==> k == j + 8 && At(b, k, n) && x == old(x) + 8 && Rest(b, k, n) == old(Rest(b, j, n))
      ensures !ok ==> old(Rest(b, j, n)) == Result(PastEnd, Out(), pos)
    {
      k := j;
      ghost var r := Rest(b, j, n);
      for u := 0 to 8
        invariant Valid() && k == j + u && At(b, k, n) && x == old(x) + u && Rest(b, k, n) == r
      {
        ok := One(b, k, n);
        if !ok { return; }
        k := k + 1;
      }
      ok := true;
    }

    /** The first loop of REPEAT. */
    method RepeatByEight(ghost b: Brush, ghost j: nat, ghost n: nat) returns (ok: bool, ghost k: nat)
      requires Valid() && b.Valid(bpp) && At(b, j, n) && height < rows && Known(b.op)
      requires b.op == FILL ==> !insertmix
      modifies this`x, this`count, this`row, this`pos, this`mask, this`mixmask, this`bicolour, output
      ensures Valid()
      ensures ok ==> j <= k && At(b, k, n) && x == old(x) + (k - j) && Rest(b, k, n) == old(Rest(b, j, n))
      ensures !ok ==> old(Rest(b, j, n)) == Result(PastEnd, Out(), pos)
    {
      k := j;
      ghost var r := Rest(b, j, n);
      while count >= 8 && x + 8 < width
        invariant Valid() && At(b, k, n) && Rest(b, k, n) == r && j <= k && x == old(x) + (k - j)
        decreases n - k
      {
        ok, k := Eight(b, k, n);
        if !ok { return; }
      }
      ok := true;
    }

    /** The second loop of REPEAT. */
    method RepeatByOne(ghost b: Brush, ghost j: nat, ghost n: nat) returns (ok: bool, ghost k: nat)
      requires Valid() && b.Valid(bpp) && At(b, j, n) && height < rows && Known(b.op)
      requires b.op == FILL ==> !insertmix
      modifies this`x, this`count, this`row, this`pos, this`mask, this`mixmask, this`bicolour, output
      ensures Valid()
      ensures ok ==> j <= k && At(b, k, n) && (k == n || x == width) && Rest(b, k, n) == old(Rest(b, j, n))
      ensures ok ==> x == old(x) + (k - j)
      ensures !ok ==> old(Rest(b, j, n)) == Result(PastEnd, Out(), pos)
    {
      k := j;
      ghost var r := Rest(b, j, n);
      while count > 0 && x < width
        invariant Valid() && At(b, k, n) && Rest(b, k, n) == r && j <= k && x == old(x) + (k - j)
        decreases n - k
      {
        ok := One(b, k, n);
        if !ok { return; }
        k := k + 1;
      }
      ok := true;
    }

    /** REPEAT: as many statements as the count and the row allow. */
    method Repeat(ghost b: Brush, ghost j: nat, ghost n: nat) returns (ok: bool, ghost k: nat)
      requires Valid() && b.Valid(bpp) && At(b, j, n) && height < rows && Known(b.op)
      requires b.op == FILL ==> !insertmix
      modifies this`x, this`count, this`row, this`pos, this`mask, this`mixmask, this`bicolour, output
      ensures Valid()
      ensures ok ==> j <= k && At(b, k, n) && (k == n || x == width) && Rest(b, k, n) == old(Rest(b, j, n))
      ensures ok ==> x == old(x) + (k - j)
      ensures !ok ==> old(Rest(b, j, n)) == Result(PastEnd, Out(), pos)
    {
      ok, k := RepeatByEight(b, j, n);
      if ok {
        ok, k := RepeatByOne(b, k, n);
      }
    }

    /** `output + height * width`, of words or of bytes. */
    method LineStart() returns (start: int)
      ensures start == Unit(Base())
    {
      PlacesIs(height, width);
      assert height * (width * 3) == 3 * (height * width);
      start := if bpp == 3 then height * (width * 3) else height * width;
    }

    /** The row under the cursor, if there is one, becomes a finished row. */
    ghost method FinishRow()
      requires Valid() && x >= width
      modifies this`above, this`row
      ensures row == [] && Flat(above) == old(Out())
      ensures |above| == rows - height && forall r :: 0 <= r < |above| ==> |above[r]| == width
      ensures Base() <= Places(rows, width) && Shown()[Base()..] == Stack(above)
    {
      hide Flat, Stack, Uniform, Unpacked, Spot, Unit, Places;
      NoRows<Pixel>();
      if height < rows {
        PushRow(Shown(), Base(), above, row);
        above := above + [row];
      }
      row := [];
    }

    /** The start of a row: one row further up the output. */
    method NextRow()
      requires Valid() && x >= width && height > 0
      modifies this`x, this`height, this`line, this`prevline, this`above, this`row
      ensures Valid() && x == 0 && height == old(height) - 1 && Out() == old(Out())
    {
      hide Flat, Stack, Uniform, Unpacked, Spot, Unit, Roomy;
      RowsBefore(height - 1, rows, width);
      assert Places(height, width) == Places(height - 1, width) + width;
      hide Places;
      FinishRow();
      x := 0;
      height := height - 1;
      prevline := line;
      line := LineStart();
      assert Out() == old(Out());
    }

    /** The extra pixel of a Fill that follows a Fill. */
    method MixedPixel(ghost b: Brush, ghost n: nat)
      requires Valid() && b.Valid(bpp) && At(b, 0, n) && 0 < n && height < rows && x < width
      requires b.op == FILL && insertmix
      modifies this`x, this`count, this`row, this`insertmix, output
      ensures Valid() && At(b, 1, n) && Rest(b, 1, n) == old(Rest(b, 0, n))
    {
      Cursor();
      BodyStep(input, b, 0, n, Now(b, 0), width, Places(rows, width), bpp);
      var p := Blend(true, Above(Out(), width, bpp));
      insertmix := false;
      Put(p);
    }

    /** The switch: what one turn of the body's loop paints. */
    method Switch(ghost b: Brush, ghost j: nat, ghost n: nat) returns (ok: bool, ghost k: nat)
      requires Valid() && b.Valid(bpp) && At(b, j, n) && j < n && height < rows && Known(b.op)
      requires x < width || (b.op == FILL ==> !insertmix)
      modifies this`x, this`row, this`count, this`insertmix, this`pos, this`mask, this`mixmask, this`bicolour, output
      ensures Valid()
      ensures ok ==> At(b, k, n) && Rest(b, k, n) == old(Rest(b, j, n))
      ensures ok ==> j <= k && (old(x) < width ==> j < k && x > 0) && (b.op == FILL ==> !insertmix)
      ensures !ok ==> old(Rest(b, j, n)) == Result(PastEnd, Out(), pos)
    {
      if opcode == 0 && insertmix {
        MixedPixel(b, n);
        ok, k := Repeat(b, 1, n);
      } else {
        ok, k := Repeat(b, j, n);
      }
    }

    /** `if (x >= width)`: on to the next row, if there is one. */
    method Enter(ghost b: Brush, ghost j: nat, ghost n: nat) returns (ok: bool)
      requires Valid() && b.Valid(bpp) && At(b, j, n) && j < n
      modifies this`x, this`height, this`line, this`prevline, this`above, this`row
      ensures Valid() && Out() == old(Out()) && height <= old(height)
      ensures ok ==> height < rows && (x < width || (width == 0 && height < old(height)))
      ensures !ok ==> old(Rest(b, j, n)) == Result(Refused, Out(), pos)
      ensures !Known(b.op) ==> old(Rest(b, j, n)) == Result(Refused, Out(), pos)
    {
      Room();
      BodyRefused(input, b, j, n, Now(b, j), width, Places(rows, width), bpp);
      ok := true;
      if x >= width {
        if height <= 0 {
          return false;
        }
        NextRow();
      }
    }

    /** One turn of the body's loop. */
    method Turn(ghost b: Brush, ghost j: nat, ghost n: nat) returns (v: Verdict, ghost k: nat)
      requires Valid() && b.Valid(bpp) && At(b, j, n) && j < n
      requires width == 0 ==> b.op == FILL ==> !insertmix
      modifies this`x, this`height, this`line, this`prevline, this`above, this`row, this`count, this`insertmix,
        this`pos, this`mask, this`mixmask, this`bicolour, output
      ensures Valid()
      ensures v.Complete? ==> At(b, k, n) && Rest(b, k, n) == old(Rest(b, j, n))
      ensures v.Complete? ==>
        j <= k && (j < k || height < old(height)) && height <= old(height) && (x > 0 || width == 0)
      ensures v.Complete? ==> width == 0 ==> b.op == FILL ==> !insertmix
      ensures !v.Complete? ==> old(Rest(b, j, n)) == Result(v, Out(), pos)
    {
      hide Fits, Shows, Uniform, Flat, Body, Places, MaskAfter, Odd, Left;
      k := j;
      var ok := Enter(b, j, n);
      if !ok || opcode !in {0, 1, 2, 3, 4, 8, 13, 14} {
        return Refused, k;
      }
      ok, k := Switch(b, j, n);
      v := if ok then Complete else PastEnd;
    }

    /** Between orders the cursor stands behind a pixel, or nothing has been painted. */
    ghost predicate Settled()
      reads this`height, this`x
    {
      height == rows || x > 0
    }

    /** The body of an order: `while (count > 0)`. */
    method Order(ghost b: Brush, ghost n: nat) returns (v: Verdict)
      requires Valid() && Settled() && b.Valid(bpp) && At(b, 0, n)
      requires width == 0 ==> b.op == FILL ==> !insertmix
      modifies this`x, this`height, this`line, this`prevline, this`above, this`row, this`count, this`insertmix,
        this`pos, this`mask, this`mixmask, this`bicolour, output
      ensures Valid() && old(Rest(b, 0, n)) == Result(v, Out(), pos)
      ensures v.Complete? ==> insertmix == (b.mixFirst && (b.op != FILL || n == 0)) && !bicolour && Settled()
    {
      ghost var j, r := 0, Rest(b, 0, n);
      if width == 0 && n > 0 {
        Room();
        BodyRefused(input, b, 0, n, Now(b, 0), width, Places(rows, width), bpp);
        assert r.verdict == Refused;
      }
      while count > 0
        invariant Valid() && At(b, j, n) && Rest(b, j, n) == r
        invariant width == 0 ==> b.op == FILL ==> !insertmix
        invariant Settled() || (width == 0 && n > 0)
        decreases n - j, height
      {
        v, j := Turn(b, j, n);
        if !v.Complete? { return; }
      }
      v := Complete;
    }

    // The bitmap.

    constructor (input: seq<byte>, bpp: nat, width: nat, rows: nat, output: array<byte>, little: bool)
      requires 1 <= bpp <= 3 && output.Length == bpp * (width * rows)
      ensures this.input == input && this.bpp == bpp && this.width == width && this.rows == rows
              && this.output == output && this.little == little
      ensures Valid() && Fresh() && Out() == []
    {
      this.input, this.bpp, this.width, this.rows, this.output := input, bpp, width, rows, output;
      this.little := little;
      height, x, line, prevline, pos := rows, width, -1, -1, 0;
      opcode, count, lastopcode := 0, 0, -1;
      insertmix, bicolour := false, false;
      colour1, colour2, mix := Solid(0, bpp), Solid(0, bpp), Solid(255, bpp);
      mask, mixmask, fomMask := 0, 0, 0;
      above, row := [], [];
      new;
      PlacesIs(rows, width);
      SpotIs(bpp, width * rows);
    }

    /** The initial values of the C locals. */
    ghost predicate Fresh()
      reads this
    {
      height == rows && pos == 0 && mix == Solid(255, bpp) && lastopcode == -1 && !insertmix && !bicolour
    }

    /** The code byte and the count. */
    method ReadCode() returns (ok: bool)
      requires pos < |input|
      modifies this`pos, this`opcode, this`count, this`fomMask
      ensures pos <= |input| && fomMask == 0
      ensures var h := ReadHeader(input, old(pos));
              if ok then opcode >= 0 && count >= 0 && h == Header(opcode, count, pos) else h == NoHeader
    {
      fomMask := 0;
      var code := input[pos];
      pos := pos + 1;
      opcode := code / 16;
      var offset: nat;
      match opcode {
        case 12 | 13 | 14 =>
          opcode := opcode - 6;
          count := code % 16;
          offset := 16;
        case 15 =>
          opcode := code % 16;
          if opcode < 9 {
            if pos + 2 > |input| {
              return false;
            }
            count := input[pos];
            count := count + 256 * (input[pos + 1] as int);
            pos := pos + 2;
          } else {
            count := if opcode < 11 then 8 else 1;
          }
          offset := 0;
        case _ =>
          opcode := opcode / 2;
          count := code % 32;
          offset := 32;
      }
      if offset != 0 {
        var isFillOrMix := opcode == 2 || opcode == 7;
        if count == 0 {
          if pos >= |input| {
            return false;
          }
          count := input[pos];
          count := count + if isFillOrMix then 1 else offset;
          pos := pos + 1;
        } else if isFillOrMix {
          count := 8 * count;
        }
      }
      ok := true;
    }

    ghost function Registers(): Regs
      reads this`mix, this`lastopcode, this`insertmix
    {
      Regs(mix, lastopcode, insertmix)
    }

    /** Nothing above the end of a row: the cursor is at the start of the stream or one row on. */
    lemma FirstRowEdge()
      requires Valid() && Settled()
      ensures x == width && prevline == -1 <==> |Out()| == 0 || |Out()| == width
    {
      OutLength();
      if height < rows && above != [] {
        StackLength(above[..|above| - 1], width);
      }
    }

    /** A variable that takes a pixel of the input, if there is one. */
    method TakePixelOr(before: Pixel) returns (ok: bool, p: Pixel)
      requires pos <= |input| && |before| == bpp && Sized()
      modifies this`pos
      ensures ok == (old(pos) + bpp <= |input|)
      ensures ok ==> pos == old(pos) + bpp && p == input[old(pos)..pos]
      ensures !ok ==> pos == old(pos) && p == before
    {
      ok, p := Take();
      if !ok {
        p := before;
      }
    }

    /** The operands of the order, and the opcodes that stand for others. */
    method ReadOperands(ghost k: nat) returns (ok: bool, ghost b: Brush)
      requires Sized() && pos <= |input| && |mix| == |colour1| == |colour2| == bpp
      requires opcode >= 0 && count >= 0 && fomMask == 0
      requires x == width && prevline == -1 <==> k == 0 || k == width
      modifies this`pos, this`opcode, this`colour1, this`colour2, this`mix, this`mask, this`fomMask, this`insertmix
      ensures pos <= |input| && |mix| == |colour1| == |colour2| == bpp
      ensures var s := Prepare(input, Header(old(opcode), old(count), old(pos)), old(Registers()), bpp, k, width);
              if ok then s == Setup(b, pos) else s == NoSetup
      ensures ok ==> opcode >= 0 && Same(b) && insertmix == b.mixFirst
    {
      ok := true;
      match opcode {
        case 0 =>
          if lastopcode == opcode && !(x == width && prevline == -1) {
            insertmix := true;
          }
        case 8 =>
          ok, colour1 := TakePixelOr(colour1);
          if ok {
            ok, colour2 := TakePixelOr(colour2);
          }
        case 3 =>
          ok, colour2 := TakePixelOr(colour2);
        case 6 | 7 =>
          ok, mix := TakePixelOr(mix);
          opcode := opcode - 5;
        case 9 =>
          mask, opcode, fomMask := 0x03, 0x02, 3;
        case 10 =>
          mask, opcode, fomMask := 0x05, 0x02, 5;
        case _ =>
      }
      ghost var s := Prepare(input, Header(old(opcode), old(count), old(pos)), old(Registers()), bpp, k, width);
      b := if s.Setup? then s.brush else Brush(0, [], [], [], 0, false);
    }

    /** The start of an order. */
    method Start() returns (ok: bool, ghost b: Brush, ghost n: nat)
      requires Valid() && Settled() && pos < |input| && !bicolour
      modifies this`pos, this`opcode, this`count, this`colour1, this`colour2, this`mix, this`mask, this`mixmask,
        this`fomMask, this`insertmix, this`lastopcode
      ensures pos <= |input| && |mix| == |colour1| == |colour2| == bpp
      ensures var s := Begin(input, old(pos), old(Registers()), |Out()|, width, bpp);
              if ok then s == Begun(b, n, pos) else s == NotBegun
      ensures ok ==> At(b, 0, n) && lastopcode == b.op
    {
      b, n := Brush(0, [], [], [], 0, false), 0;
      FirstRowEdge();
      ok := ReadCode();
      if ok {
        ok, b := ReadOperands(|Out()|);
        if ok {
          n := Pixels(b.op, count);
        }
      }
      lastopcode := opcode;
      mixmask := 0;
    }

    /** What the stream says of the orders still to come. */
    ghost function Ahead(): Picture
      requires Uniform(Out(), bpp) && pos <= |input| && |mix| == bpp
      reads this`above, this`row, this`pos, this`mix, this`lastopcode, this`insertmix
    {
      Decode(input, pos, Registers(), Out(), width, Places(rows, width), bpp)
    }

    /** One turn of the outer loop. */
    method OneOrder() returns (v: Verdict)
      requires Valid() && Settled() && !bicolour && (width == 0 ==> !insertmix) && pos < |input|
      modifies this, output
      ensures Valid()
      ensures v.Complete? ==> pos > old(pos) && Settled() && !bicolour && (width == 0 ==> !insertmix)
      ensures if v.Complete? then Ahead() == old(Ahead()) else old(Ahead()) == Picture(v, Out())
    {
      hide Fits, Shows, Body, Begin, Flat, Left, MaskAfter, Places;
      var ok;
      ghost var b, n;
      Room();
      ghost var began := Begin(input, pos, Registers(), |Out()|, width, bpp);
      if began.Begun? {
        BeginNarrow(input, pos, Registers(), |Out()|, width, bpp);
      }
      ok, b, n := Start();
      if !ok {
        return PastEnd;
      }
      v := Order(b, n);
    }

    /** The whole function: the output holds the stream the orders describe. */
    method Decompress() returns (v: Verdict)
      requires Valid() && Fresh() && Out() == []
      modifies this, output
      ensures Valid()
      ensures Picture(v, Out()) == Decode(input, 0, Initial(bpp), [], width, width * rows, bpp)
    {
      PlacesIs(rows, width);
      ghost var r := Ahead();
      while pos < |input|
        invariant Valid() && Settled() && !bicolour && (width == 0 ==> !insertmix) && Ahead() == r
        decreases |input| - pos
      {
        v := OneOrder();
        if !v.Complete? { return; }
      }
      v := Complete;
    }

    /** Pixel k of the stream lands in row height - 1 - k / width, column k % width. */
    lemma PixelPlace(k: nat)
      requires Valid() && k < |Out()|
      ensures width > 0 && k / width < rows
      ensures var place := (rows - 1 - k / width) * width + k % width;
              0 <= place < Places(rows, width) && Shown()[place] == Out()[k]
    {
      hide Flat, Stack, Unpacked, Spot, Places;
      OutLength();
      AnyRow(Shown(), above, row, width, rows, k);
    }

    /** And its byte number b lands so many bytes further. */
    lemma BytePlace(k: nat, b: nat)
      requires Valid() && k < |Out()| && b < bpp
      ensures |Out()[k]| == bpp && width > 0 && k / width < rows
      ensures var place := bpp * ((rows - 1 - k / width) * width + k % width) + b;
              0 <= place < output.Length && output[place] == Out()[k][b]
    {
      PixelPlace(k);
      var i := (rows - 1 - k / width) * width + k % width;
      SpotIs(bpp, i);
      SpotInside(bpp, i, Places(rows, width));
      PixelsAt(output[..], bpp, Places(rows, width), i);
    }

    lemma AllPlaced()
      requires Valid()
      ensures Laid(output[..], Out(), width, rows, bpp)
    {
      forall k, b | 0 <= k < |Out()| && 0 <= b < |Out()[k]|
        ensures Placed(output[..], Out()[k][b], k, b, width, rows, bpp)
      {
        BytePlace(k, b);
      }
    }
  }

  /** Byte b of pixel k of the stream, in a buffer with the first row last. */
  ghost predicate Placed(bytes: seq<byte>, value: byte, k: nat, b: nat, width: nat, rows: nat, bpp: nat)
  {
    && width > 0 && k / width < rows
    && var place := bpp * ((rows - 1 - k / width) * width + k % width) + b;
       0 <= place < |bytes| && bytes[place] == value
  }

  /** A stream of pixels in a buffer, byte by byte. */
  ghost predicate Laid(bytes: seq<byte>, out: seq<Pixel>, width: nat, rows: nat, bpp: nat)
  {
    && Uniform(out, bpp)
    && forall k, b {:trigger out[k][b]} :: 0 <= k < |out| && 0 <= b < |out[k]| ==>
         Placed(bytes, out[k][b], k, b, width, rows, bpp)
  }

  /** bitmap_decompress: what the orders describe is in the buffer, byte by byte. */
  method BitmapDecompress(output: array<byte>, width: nat, height: nat, input: seq<byte>, bpp: nat, little: bool)
    returns (v: Verdict)
    requires 1 <= bpp <= 3 && output.Length == bpp * (width * height)
    modifies output
    ensures var p := Decode(input, 0, Initial(bpp), [], width, width * height, bpp);
            v == p.verdict && Laid(output[..], p.out, width, height, bpp)
  {
    hide Decode, Laid, Placed;
    var d := new Decoder(input, bpp, width, height, output, little);
    v := d.Decompress();
    d.AllPlaced();
  }

  /** Where there is nothing to paint no mixed pixel comes up. */
  lemma BeginNarrow(input: seq<byte>, pos: nat, regs: Regs, k: nat, width: nat, bpp: nat)
    requires pos < |input| && |regs.mix| == bpp && Begin(input, pos, regs, k, width, bpp).Begun?
    ensures k == 0 ==> Begin(input, pos, regs, k, width, bpp).brush.mixFirst == regs.mixFirst
  {
  }

  lemma BodyRefused(input: seq<byte>, b: Brush, j: nat, n: nat, c: Canvas, width: nat, room: nat, bpp: nat)
    requires j < n && b.Valid(bpp) && c.pos <= |input| && Uniform(c.out, bpp)
    ensures |c.out| >= room || !Known(b.op) ==>
      Body(input, b, j, n, c, width, room, bpp) == Result(Refused, c.out, c.pos)
  {
  }

  lemma BodyStep(input: seq<byte>, b: Brush, j: nat, n: nat, c: Canvas, width: nat, room: nat, bpp: nat)
    requires j < n && b.Valid(bpp) && c.pos <= |input| && Uniform(c.out, bpp) && |c.out| < room && Known(b.op)
    ensures var d := Paint(input, b, j, Above(c.out, width, bpp), c.pos, c.mask);
            Body(input, b, j, n, c, width, room, bpp) ==
            if d.NoDab? then Result(PastEnd, c.out, c.pos)
            else Body(input, b, j + 1, n, Canvas(c.out + [d.pixel], d.pos, d.mask), width, room, bpp)
  {
  }
}
