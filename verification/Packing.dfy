/** Pixels of one, two or three bytes in a buffer of bytes, and pixels of two bytes as words. */
module Packing {
  import opened Bits
  import opened RleSpec

  /** The place of pixel i. */
  function Spot(bpp: nat, i: nat): nat { if bpp == 1 then i else if bpp == 2 then 2 * i else 3 * i }

  lemma SpotIs(bpp: nat, i: nat)
    requires 1 <= bpp <= 3
    ensures Spot(bpp, i) == bpp * i
  {
  }

  lemma SpotInside(bpp: nat, i: nat, n: nat)
    requires 1 <= bpp <= 3 && i < n
    ensures Spot(bpp, i) + bpp <= Spot(bpp, n)
  {
  }

  function PixelAt(bytes: seq<byte>, bpp: nat, i: nat): (p: Pixel)
    requires Spot(bpp, i) + bpp <= |bytes|
    ensures |p| == bpp
  {
    bytes[Spot(bpp, i)..Spot(bpp, i) + bpp]
  }

  /** A buffer of n pixels as the pixels it holds. */
  function Unpacked(bytes: seq<byte>, bpp: nat, n: nat): (p: seq<Pixel>)
    requires 1 <= bpp <= 3 && |bytes| == Spot(bpp, n)
    ensures |p| == n && forall i :: 0 <= i < n ==> |p[i]| == bpp
  {
    seq(n, i requires 0 <= i < n => (SpotInside(bpp, i, n); PixelAt(bytes, bpp, i)))
  }

  lemma PixelsAt(bytes: seq<byte>, bpp: nat, n: nat, i: nat)
    requires 1 <= bpp <= 3 && |bytes| == Spot(bpp, n) && i < n
    ensures Spot(bpp, i) + bpp <= |bytes| && Unpacked(bytes, bpp, n)[i] == PixelAt(bytes, bpp, i)
  {
  }

  /** Bytes that differ in the place of one pixel. */
  lemma PixelStored(was: seq<byte>, bytes: seq<byte>, bpp: nat, n: nat, i: nat, p: Pixel)
    requires 1 <= bpp <= 3 && |was| == |bytes| == Spot(bpp, n) && i < n && |p| == bpp
    requires forall k :: 0 <= k < |bytes| ==>
               bytes[k] == if Spot(bpp, i) <= k < Spot(bpp, i) + bpp then p[k - Spot(bpp, i)] else was[k]
    ensures Unpacked(bytes, bpp, n) == Unpacked(was, bpp, n)[i := p]
  {
    forall j | 0 <= j < n ensures Unpacked(bytes, bpp, n)[j] == Unpacked(was, bpp, n)[i := p][j] {
      PixelsAt(bytes, bpp, n, j);
      PixelsAt(was, bpp, n, j);
      if j < i {
        SpotInside(bpp, j, i);
      } else if j > i {
        SpotInside(bpp, i, j);
      }
    }
  }

  // Two bytes as a word of the machine.

  /** What a load of 16 bits gives, on a machine of either byte order. */
  function Word(little: bool, p: Pixel): (w: nat)
    requires |p| == 2
    ensures w < 0x10000
  {
    var first: nat, second: nat := p[0], p[1];
    if little then first + 256 * second else 256 * first + second
  }

  /** What a store of 16 bits leaves. */
  function Stored(little: bool, w: nat): (p: Pixel)
    requires w < 0x10000
    ensures |p| == 2
  {
    if little then [w % 256, w / 256] else [w / 256, w % 256]
  }

  lemma LoadStore(little: bool, p: Pixel, w: nat)
    requires |p| == 2 && w < 0x10000
    ensures Stored(little, Word(little, p)) == p && Word(little, Stored(little, w)) == w
  {
  }

  lemma XorStep(a: nat, b: nat)
    ensures Xor(a, b) == 2 * Xor(a / 2, b / 2) + (a + b) % 2
  {
  }

  /** n low bits behind a high part. */
  function Joined(high: nat, low: nat, n: nat): nat
  {
    if n == 0 then high else 2 * Joined(high, low / 2, n - 1) + low % 2
  }

  lemma {:induction false} JoinedIs(high: nat, low: nat, n: nat)
    requires low < Pow2(n)
    ensures Joined(high, low, n) == Pow2(n) * high + low
  {
    if n > 0 {
      JoinedIs(high, low / 2, n - 1);
      var p := Pow2(n - 1);
      assert Pow2(n) * high == 2 * (p * high);
    }
  }

  /** XOR goes bit by bit: the high parts apart from the low ones. */
  lemma {:induction false} XorJoined(a: nat, b: nat, c: nat, d: nat, n: nat)
    requires c < Pow2(n) && d < Pow2(n)
    ensures Xor(Joined(a, c, n), Joined(b, d, n)) == Joined(Xor(a, b), Xor(c, d), n)
  {
    hide Xor, Joined;
    if n == 0 {
      NoneJoined(a, c);
      NoneJoined(b, d);
      NoneJoined(Xor(a, b), Xor(c, d));
    } else {
      HalfJoined(a, c, n);
      HalfJoined(b, d, n);
      HalfJoined(Xor(a, b), Xor(c, d), n);
      XorStep(Joined(a, c, n), Joined(b, d, n));
      XorStep(c, d);
      XorJoined(a, b, c / 2, d / 2, n - 1);
    }
  }

  lemma NoneJoined(high: nat, low: nat)
    ensures Joined(high, low, 0) == high
  {
  }

  lemma HalfJoined(high: nat, low: nat, n: nat)
    requires n > 0
    ensures var v := Joined(high, low, n); v / 2 == Joined(high, low / 2, n - 1) && v % 2 == low % 2
    ensures Joined(high, low, n) == 2 * Joined(high, low / 2, n - 1) + low % 2
  {
  }

  lemma XorTwo(a: byte, b: byte, c: byte, d: byte)
    ensures Xor(256 * (a as int) + c, 256 * (b as int) + d) == 256 * (XorByte(a, b) as int) + XorByte(c, d)
  {
    hide Xor;
    Pow2Octet();
    XorBound(c, d, 8);
    JoinedIs(a, c, 8);
    JoinedIs(b, d, 8);
    JoinedIs(Xor(a, b), Xor(c, d), 8);
    XorJoined(a, b, c, d, 8);
  }

  /** XOR of words is XOR of their bytes. */
  lemma XorWord(little: bool, p: Pixel, q: Pixel)
    requires |p| == |q| == 2
    ensures Xor(Word(little, p), Word(little, q)) < 0x10000
    ensures Stored(little, Xor(Word(little, p), Word(little, q))) == XorPixel(p, q)
  {
    hide Xor, XorByte;
    if little {
      XorTwo(p[1], q[1], p[0], q[0]);
    } else {
      XorTwo(p[0], q[0], p[1], q[1]);
    }
    Bytes(little, XorByte(p[0], q[0]), XorByte(p[1], q[1]));
  }

  lemma Bytes(little: bool, x: byte, y: byte)
    ensures Stored(little, Word(little, [x, y])) == [x, y]
    ensures Word(little, [x, y]) == if little then (x as int) + 256 * (y as int) else 256 * (x as int) + y
  {
  }
}
