/** What is in a decoded picture, pixel by pixel and byte by byte, in terms of the picture itself. */
module RleMeaning {
  import opened Bits
  import opened RleSpec
  import opened RleProofs

  /** The pixel one row up, and zero bytes above the first row. */
  function Up(out: seq<Pixel>, k: nat, width: nat, bpp: nat): Pixel
    requires k <= |out|
  {
    if width == 0 || k < width then seq(bpp, _ => 0) else out[k - width]
  }

  /** The bytes of `up`, each XORed with that of the mix. */
  predicate Mixed(p: Pixel, up: Pixel, mix: Pixel)
  {
    |p| == |up| == |mix| && forall b :: 0 <= b < |p| ==> p[b] == XorByte(up[b], mix[b])
  }

  /** Mixed or as one row up. */
  predicate Either(mixed: bool, p: Pixel, up: Pixel, mix: Pixel) { if mixed then Mixed(p, up, mix) else p == up }

  /** Pixel j of an order. */
  predicate Drawn(p: Pixel, o: Order, j: nat, up: Pixel, mix: Pixel, mixFirst: bool)
    requires o.Valid(|up|) && j < o.Size()
  {
    match o.stroke
    case Fill => Either(j == 0 && mixFirst, p, up, mix)
    case Mix => Mixed(p, up, mix)
    case SetMix(_) => Mixed(p, up, mix)
    case Mask(masks) => Either(masks[j / 8] / Pow2(j % 8) % 2 == 1, p, up, mix)
    case SetMask(_, masks) => Either(masks[j / 8] / Pow2(j % 8) % 2 == 1, p, up, mix)
    case Mask3 => Either(j == 0 || j == 1, p, up, mix)
    case Mask5 => Either(j == 0 || j == 2, p, up, mix)
    case Colour(colour) => p == colour
    case Copy(pixels) => p == pixels[j]
    case Bicolour(first, second) => p == if j % 2 == 0 then first else second
    case White => |p| == |up| && forall b :: 0 <= b < |p| ==> p[b] == 255
    case Black => |p| == |up| && forall b :: 0 <= b < |p| ==> p[b] == 0
  }

  /** The mix an order paints with: its own, or the one in force. */
  function Own(o: Order, mix: Pixel): Pixel
  {
    if o.stroke.SetMix? || o.stroke.SetMask? then o.stroke.mix else mix
  }

  /** The mix order i paints with, and where it begins. */
  function MixIn(os: seq<Order>, i: nat, mix: Pixel): Pixel
    requires i < |os|
  {
    if i == 0 then Own(os[0], mix) else MixIn(os[1..], i - 1, Own(os[0], mix))
  }

  function Begins(os: seq<Order>, i: nat): nat
    requires i <= |os|
  {
    if i == 0 then 0 else os[0].Size() + Begins(os[1..], i - 1)
  }

  lemma TintDrawn(o: Order, j: nat, up: Pixel, mix: Pixel, mixFirst: bool)
    requires o.Valid(|up|) && |mix| == |up| && j < o.Size()
    ensures Drawn(Tint(o, j, up, mix, mixFirst), o, j, up, mix, mixFirst)
  {
    match o.stroke
    case Mask(masks) => BitIs(masks[j / 8], j % 8);
    case SetMask(_, masks) => BitIs(masks[j / 8], j % 8);
    case Mask3 => SmallBits(j);
    case Mask5 => SmallBits(j);
    case _ =>
  }

  lemma SmallBits(j: nat)
    requires j < 8
    ensures (Bit(3, j) <==> j == 0 || j == 1) && (Bit(5, j) <==> j == 0 || j == 2)
  {
    match j case 0 => case 1 => case 2 => case 3 => case 4 => case 5 => case 6 => case 7 =>
  }

  lemma {:induction false} RenderAt(o: Order, i: nat, out: seq<Pixel>, mix: Pixel, mixFirst: bool, width: nat,
      bpp: nat, j: nat)
    requires o.Valid(bpp) && |mix| == bpp && i <= j < o.Size() && Uniform(out, bpp)
    ensures var r := Render(o, i, out, mix, mixFirst, width, bpp);
            var k := |out| + j - i;
            k < |r| && r[k] == Tint(o, j, Up(r, k, width, bpp), mix, mixFirst)
    decreases o.Size() - i
  {
    hide Tint;
    var above := Above(out, width, bpp);
    var next := out + [Tint(o, i, above, mix, mixFirst)];
    if i == j {
      var r := Render(o, i + 1, next, mix, mixFirst, width, bpp);
      assert r[|out|] == next[|out|] && above == Up(r, |out|, width, bpp);
    } else {
      RenderAt(o, i + 1, next, mix, mixFirst, width, bpp, j);
    }
  }

  lemma LaterOrder(os: seq<Order>, i: nat, mix: Pixel)
    requires 0 < i < |os|
    ensures Begins(os, i) == os[0].Size() + Begins(os[1..], i - 1)
    ensures MixIn(os, i, mix) == MixIn(os[1..], i - 1, MixOf(os[0], mix))
  {
  }

  /** Pixel k of a picture is pixel j of this order. */
  ghost predicate Has(out: seq<Pixel>, k: nat, o: Order, j: nat, mix: Pixel, mixFirst: bool, width: nat, bpp: nat)
    requires j < o.Size()
  {
    && k < |out| && o.Valid(bpp) && |Up(out, k, width, bpp)| == bpp
    && Drawn(out[k], o, j, Up(out, k, width, bpp), mix, mixFirst)
  }

  lemma {:induction false} RenderAllAt(os: seq<Order>, out: seq<Pixel>, mix: Pixel, afterFill: bool, width: nat,
      bpp: nat, i: nat, j: nat)
    requires AllValid(os, bpp) && |mix| == bpp && Uniform(out, bpp) && i < |os| && j < os[i].Size()
    ensures var r := RenderAll(os, out, mix, afterFill, width, bpp);
            var start := |out| + Begins(os, i);
            var mixFirst := (if i == 0 then afterFill else os[i - 1].stroke.Fill?) && start != width;
            Has(r, start + j, os[i], j, MixIn(os, i, mix), mixFirst, width, bpp)
    decreases os
  {
    if i == 0 {
      FirstAt(os, out, mix, afterFill, width, bpp, j);
    } else {
      LaterOrder(os, i, mix);
      hide Has, Render, RenderAll, Begins, MixIn, Own;
      var o, rest := os[0], os[1..];
      assert o in os;
      MixKept(o, mix, bpp);
      RenderAllIs(os, out, mix, afterFill, width, bpp);
      var m := MixOf(o, mix);
      var next := Render(o, 0, out, m, afterFill && |out| != width, width, bpp);
      RenderAllAt(rest, next, m, o.stroke.Fill?, width, bpp, i - 1, j);
      assert rest[i - 1] == os[i] && (i > 1 ==> rest[i - 2] == os[i - 1]);
    }
  }

  lemma FirstAt(os: seq<Order>, out: seq<Pixel>, mix: Pixel, afterFill: bool, width: nat, bpp: nat, j: nat)
    requires AllValid(os, bpp) && |mix| == bpp && Uniform(out, bpp) && os != [] && j < os[0].Size()
    ensures Has(RenderAll(os, out, mix, afterFill, width, bpp), |out| + j, os[0], j, Own(os[0], mix),
                afterFill && |out| != width, width, bpp)
  {
    hide Drawn, Tint, Render, RenderAll;
    var o := os[0];
    assert o in os;
    MixKept(o, mix, bpp);
    RenderAllIs(os, out, mix, afterFill, width, bpp);
    var m, mixFirst := MixOf(o, mix), afterFill && |out| != width;
    var next := Render(o, 0, out, m, mixFirst, width, bpp);
    var r := RenderAll(os, out, mix, afterFill, width, bpp);
    RenderAt(o, 0, out, m, mixFirst, width, bpp, j);
    var k := |out| + j;
    assert r[k] == next[k] && Up(r, k, width, bpp) == Up(next, k, width, bpp);
    TintDrawn(o, j, Up(r, k, width, bpp), m, mixFirst);
  }

  lemma {:induction false} RenderAllSize(os: seq<Order>, out: seq<Pixel>, mix: Pixel, afterFill: bool, width: nat,
      bpp: nat)
    requires AllValid(os, bpp) && |mix| == bpp && Uniform(out, bpp)
    ensures |RenderAll(os, out, mix, afterFill, width, bpp)| == |out| + Begins(os, |os|)
    decreases os
  {
    if os != [] {
      var o := os[0];
      assert o in os;
      MixKept(o, mix, bpp);
      RenderAllIs(os, out, mix, afterFill, width, bpp);
      var m := MixOf(o, mix);
      var next := Render(o, 0, out, m, afterFill && |out| != width, width, bpp);
      hide Render, RenderAll;
      RenderAllSize(os[1..], next, m, o.stroke.Fill?, width, bpp);
    }
  }

  /** What the decoder makes of any list of written orders: so many pixels as they have, or as there is
      room for, and every one of them as its order says it is drawn. A fill that follows a fill has its
      first pixel mixed unless it begins the second row. */
  lemma BitmapMeans(os: seq<Order>, width: nat, height: nat, bpp: nat, i: nat, j: nat)
    requires AllValid(os, bpp) && i < |os| && j < os[i].Size()
    ensures var p := Decode(WriteAll(os, bpp), 0, Initial(bpp), [], width, width * height, bpp);
            var k := Begins(os, i) + j;
            && p.verdict == (if Begins(os, |os|) <= width * height then Complete else Refused)
            && |p.out| == (if Begins(os, |os|) <= width * height then Begins(os, |os|) else width * height)
            && (k < |p.out| ==>
                  && os[i].Valid(bpp) && |Up(p.out, k, width, bpp)| == bpp
                  && Drawn(p.out[k], os[i], j, Up(p.out, k, width, bpp), MixIn(os, i, seq(bpp, _ => 255)),
                           i > 0 && os[i - 1].stroke.Fill? && Begins(os, i) != width))
  {
    hide Decode, WriteAll, RenderAll, Drawn, Render;
    BitmapRoundTrip(os, width, height, bpp);
    var white: Pixel := seq(bpp, _ => 255);
    assert white == Solid(255, bpp);
    RenderAllAt(os, [], white, false, width, bpp, i, j);
    RenderAllSize(os, [], white, false, width, bpp);
    var all := RenderAll(os, [], white, false, width, bpp);
    var p := Decode(WriteAll(os, bpp), 0, Initial(bpp), [], width, width * height, bpp);
    var k := Begins(os, i) + j;
    if k < |p.out| {
      assert p.out[k] == all[k] && Up(p.out, k, width, bpp) == Up(all, k, width, bpp);
    }
  }
}
