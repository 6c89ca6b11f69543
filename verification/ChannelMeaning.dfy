/** The bytes of a fragment, the fragments of a payload, and what any fragments add up to. */
module ChannelMeaning {
  import opened Bits
  import opened ChannelSpec
  import opened Rows

  function LowFirst(a: int, b: int, c: int, d: int): int { a + 0x100 * b + 0x1_0000 * c + 0x100_0000 * d }

  /** A fragment begins with the length of the whole payload and its flags, four bytes each, the lowest
      first: 1 for the first fragment, 2 for the last, 16 for those to be shown. */
  lemma FragmentBytes(total: nat, f: Flags, data: seq<byte>)
    requires total < 0x1_0000_0000
    ensures var s := Fragment(total, f, data);
            && |s| == 8 + |data| && s[8..] == data
            && LowFirst(s[0], s[1], s[2], s[3]) == total
            && s[4] == (if f.first then 1 else 0) + (if f.last then 2 else 0) + (if f.show then 16 else 0)
            && s[5] == s[6] == s[7] == 0
  {
    SmallMask(f);
    hide Le, Mask, LowFirst;
    FourBytes(total);
    FourBytes(Mask(f));
    Parts(Le(total, 4), Le(Mask(f), 4), data);
  }

  lemma Parts(a: seq<byte>, b: seq<byte>, data: seq<byte>)
    requires |a| == |b| == 4
    ensures var s := a + b + data;
            && s[0] == a[0] && s[1] == a[1] && s[2] == a[2] && s[3] == a[3]
            && s[4] == b[0] && s[5] == b[1] && s[6] == b[2] && s[7] == b[3] && s[8..] == data
  {
  }

  lemma FourBytes(x: nat)
    requires x < 0x1_0000_0000
    ensures var s := Le(x, 4);
            LowFirst(s[0], s[1], s[2], s[3]) == x
    ensures x < 256 ==> Le(x, 4) == [x, 0, 0, 0]
  {
    var a, b, c := x / 256, x / 256 / 256, x / 256 / 256 / 256;
    var s := Le(x, 4);
    assert s == [x % 256] + Le(a, 3) && Le(a, 3) == [a % 256] + Le(b, 2);
    assert Le(b, 2) == [b % 256] + Le(c, 1) && Le(c, 1) == [c % 256] + Le(c / 256, 0);
    assert s == [x % 256, a % 256, b % 256, c % 256];
  }

  lemma SmallMask(f: Flags)
    ensures Mask(f) == (if f.first then 1 else 0) + (if f.last then 2 else 0) + (if f.show then 16 else 0)
  {
  }

  // The fragments of a payload.

  /** As many pieces of 1600 bytes as it takes, and one for nothing. */
  function Count(n: nat): nat { if n == 0 then 1 else (n + 1599) / 1600 }

  function End(n: nat, k: nat): nat { if 1600 * (k + 1) < n then 1600 * (k + 1) else n }

  /** Piece k of a payload in its fragment. */
  ghost predicate Piece(s: seq<byte>, payload: seq<byte>, k: nat, show: bool)
    requires k < Count(|payload|)
  {
    s == Fragment(|payload|, Flags(k == 0, k == Count(|payload|) - 1, show), payload[1600 * k..End(|payload|, k)])
  }

  lemma {:induction false} RestPieces(payload: seq<byte>, m: nat, show: bool)
    requires 1 <= m <= Count(|payload|)
    ensures var rest := Rest(payload, End(|payload|, m - 1), show);
            && |rest| == Count(|payload|) - m
            && forall i :: 0 <= i < |rest| ==> Piece(rest[i], payload, m + i, show)
    decreases Count(|payload|) - m
  {
    hide Fragment;
    var at := End(|payload|, m - 1);
    if at < |payload| {
      RestPieces(payload, m + 1, show);
      var rest, next := Rest(payload, at, show), Rest(payload, End(|payload|, m), show);
      assert at == 1600 * m && |rest| == |next| + 1;
      forall i | 0 <= i < |rest| ensures Piece(rest[i], payload, m + i, show) {
        if i > 0 {
          assert rest[i] == next[i - 1] && Piece(next[i - 1], payload, m + 1 + (i - 1), show);
        }
      }
    }
  }

  /** A payload goes out in pieces of 1600 bytes, the last of them shorter where it must be; the first
      and the last fragment are marked, and each says how long the payload is. */
  lemma FragmentsArePieces(payload: seq<byte>, show: bool)
    ensures |Fragments(payload, show)| == Count(|payload|)
    ensures forall k :: 0 <= k < Count(|payload|) ==> Piece(Fragments(payload, show)[k], payload, k, show)
  {
    RestPieces(payload, 1, show);
    hide Fragment, Rest;
    var all, rest := Fragments(payload, show), Rest(payload, End(|payload|, 0), show);
    assert all[1..] == rest;
    forall k | 0 <= k < Count(|payload|) ensures Piece(all[k], payload, k, show) {
      if k > 0 {
        assert all[k] == rest[k - 1] && Piece(rest[k - 1], payload, 1 + (k - 1), show);
      }
    }
  }

  // Any fragments.

  /** The first n of the bytes, or all. */
  function Cut(s: seq<byte>, n: nat): seq<byte> { if |s| < n then s else s[..n] }

  /** A fragment that is the first and the last is delivered as it is. A first one empties the buffer,
      and enlarges it if it must. Any other adds what there is room for, and the last one delivers. */
  lemma AcceptMeans(c: Channel, total: nat, last: bool, data: seq<byte>)
    requires |c.got| <= c.size
    ensures Accept(c, total, true, true, data) == Channel(c.size, c.got, c.delivered + [data])
    ensures var size := if total < c.size then c.size else total;
            Accept(c, total, true, false, data) == Channel(size, Cut(data, size), c.delivered)
    ensures Accept(c, total, false, last, data) ==
            var got := Cut(c.got + data, c.size);
            if last then Channel(c.size, [], c.delivered + [got]) else Channel(c.size, got, c.delivered)
  {
    assert Cut(data, if total < c.size then c.size else total) ==
        Cut([] + data, if total < c.size then c.size else total);
    assert |c.got + data| >= c.size ==> (c.got + data)[..c.size] == c.got + data[..c.size - |c.got|];
  }

  /** A first fragment and others that are not the last. */
  function Begun(c: Channel, total: nat, datas: seq<seq<byte>>): Channel
    requires datas != []
  {
    if |datas| == 1 then Accept(c, total, true, false, datas[0])
    else Accept(Begun(c, total, datas[..|datas| - 1]), total, false, false, datas[|datas| - 1])
  }

  lemma CutMore(a: seq<byte>, b: seq<byte>, n: nat)
    ensures Cut(Cut(a, n) + b, n) == Cut(a + b, n)
  {
    if |a| < n {
    } else {
      assert (a[..n] + b)[..n] == a[..n] == (a + b)[..n];
    }
  }

  lemma {:induction false} BegunIs(c: Channel, total: nat, datas: seq<seq<byte>>)
    requires datas != [] && |c.got| <= c.size
    ensures var size := if total < c.size then c.size else total;
            Begun(c, total, datas) == Channel(size, Cut(Flat(datas), size), c.delivered)
  {
    hide Accept, Cut;
    var n, size := |datas| - 1, if total < c.size then c.size else total;
    AcceptMeans(c, total, false, datas[0]);
    if n == 0 {
      assert Flat(datas) == Flat<byte>([]) + datas[0] == datas[0] && datas[..0] == [];
    } else {
      BegunIs(c, total, datas[..n]);
      CutSize(Flat(datas[..n]), size);
      AcceptMeans(Begun(c, total, datas[..n]), total, false, datas[n]);
      CutMore(Flat(datas[..n]), datas[n], size);
    }
  }

  lemma CutSize(s: seq<byte>, n: nat)
    ensures |Cut(s, n)| <= n
  {
  }

  /** Whatever fragments come, and whatever length they announce: what is delivered with the last of them
      is all their bytes, cut at the announced length, or at the largest length announced before. */
  lemma AnythingAssembled(c: Channel, total: nat, datas: seq<seq<byte>>, data: seq<byte>)
    requires datas != [] && |c.got| <= c.size
    ensures var size := if total < c.size then c.size else total;
            Accept(Begun(c, total, datas), total, false, true, data) ==
            Channel(size, [], c.delivered + [Cut(Flat(datas) + data, size)])
  {
    hide Accept, Cut;
    var size := if total < c.size then c.size else total;
    BegunIs(c, total, datas);
    CutSize(Flat(datas), size);
    AcceptMeans(Begun(c, total, datas), total, true, data);
    CutMore(Flat(datas), data, size);
  }
}
