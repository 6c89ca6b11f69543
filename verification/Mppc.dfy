/** The MPPC decompressor: `Step` says what a packet does to the history, `RdpComp.Expand`
    does it with the shift register. */
module Mppc {
  import opened Bits
  import opened MppcCode
  import opened Register

  const HISTORY: nat := 65536

  /** Stray: the C code would read past the end of the history array. */
  datatype Status = Done | Corrupt | Stray

  datatype Run = Run(status: Status, hist: seq<byte>, off: nat)

  /** Byte by byte, so that a copy may read what it has just written. */
  function CopyBytes(h: seq<byte>, dst: nat, src: nat, len: nat): (r: seq<byte>)
    requires dst + len <= |h| && src + len <= |h|
    ensures |r| == |h|
    ensures forall i :: 0 <= i < dst || dst + len <= i < |h| ==> r[i] == h[i]
    decreases len
  {
    if len == 0 then h else CopyBytes(h[dst := h[src]], dst + 1, src + 1, len - 1)
  }

  /** Where a copy starts to read: `(next_offset - match_off) & mask`. */
  function Source(off: nat, back: nat, big: bool): nat
  {
    (off - back) % if big then 65536 else 8192
  }

  /** The effect of one token on the history. */
  function Write(h: seq<byte>, off: nat, t: Token, big: bool): (r: Run)
    requires |h| == HISTORY && off <= HISTORY
    ensures |r.hist| == HISTORY && off <= r.off <= HISTORY
    ensures r.hist[..off] == h[..off] && (!r.status.Done? ==> r == Run(r.status, h, off))
  {
    match t
    case Lit(b) => if off >= HISTORY then Run(Corrupt, h, off) else Run(Done, h[off := b], off + 1)
    case Copy(back, len) =>
      var k := Source(off, back, big);
      if off + len >= HISTORY then Run(Corrupt, h, off)
      else if k + len > HISTORY then Run(Stray, h, off)
      else Run(Done, CopyBytes(h, off, k, len), off + len)
  }

  /** The effect of a bit string on the history. */
  function Decode(h: seq<byte>, off: nat, s: seq<bool>, big: bool): (r: Run)
    requires |h| == HISTORY && off <= HISTORY
    ensures |r.hist| == HISTORY && off <= r.off <= HISTORY
    ensures r.hist[..off] == h[..off]
    decreases |s|
  {
    match Next(s, big)
    case End => Run(Done, h, off)
    case Bad => Run(Corrupt, h, off)
    case Item(token, n) =>
      var w := Write(h, off, token, big);
      if !w.status.Done? then w
      else
        var r := Decode(w.hist, w.off, s[n..], big);
        assert r.hist[..off] == r.hist[..w.off][..off] == w.hist[..off];
        r
  }

  /** The two fields of the decompressor that outlive a packet. */
  datatype State = State(hist: seq<byte>, roff: nat)
  {
    predicate Valid() { |hist| == HISTORY && roff <= HISTORY }
  }

  const RDP_MPPC_BIG: bv8 := 0x01
  const RDP_MPPC_COMPRESSED: bv8 := 0x20
  const RDP_MPPC_RESET: bv8 := 0x40
  const RDP_MPPC_FLUSH: bv8 := 0x80

  datatype Packet = Packet(data: seq<byte>, ctype: bv8)
  {
    predicate Big() { ctype & RDP_MPPC_BIG != 0 }

    predicate Compressed() { ctype & RDP_MPPC_COMPRESSED != 0 }

    predicate Reset() { ctype & RDP_MPPC_RESET != 0 }

    predicate Flush() { ctype & RDP_MPPC_FLUSH != 0 }
  }

  datatype Outcome = Outcome(st: State, status: Status, off: nat, len: nat)

  function Zeroed(): (h: seq<byte>)
    ensures |h| == HISTORY
  {
    seq(HISTORY, _ => 0)
  }

  /** The state a compressed packet starts from. */
  function Prepared(st: State, p: Packet): (r: State)
    requires st.Valid()
    ensures r.Valid()
  {
    if p.Flush() then State(Zeroed(), 0) else if p.Reset() then State(st.hist, 0) else st
  }

  /** What one call of mppc_expand does; `off` and `len` are what it stores in *roff and *rlen. */
  function Step(st: State, p: Packet): (r: Outcome)
    requires st.Valid()
    ensures r.st.Valid()
  {
    if !p.Compressed() then Outcome(st, Done, 0, |p.data|)
    else
      var pre := Prepared(st, p);
      var r := Decode(pre.hist, pre.roff, Stream(p.data), p.Big());
      if r.status.Done? then Outcome(State(r.hist, r.off), Done, pre.roff, r.off - pre.roff)
      else Outcome(State(r.hist, pre.roff), r.status, pre.roff, 0)
  }

  // The register and the bits still to come.

  /** The C locals walker, walker_len and i. */
  datatype Cursor = Cursor(walker: uint32, len: nat, i: nat)

  ghost function Rest(data: seq<byte>, c: Cursor): (s: seq<bool>)
    requires c.i <= |data|
    ensures |s| == c.len + 8 * (|data| - c.i)
  {
    Top(c.walker, c.len) + Stream(data[c.i..])
  }

  ghost predicate Live(data: seq<byte>, c: Cursor)
  {
    c.i <= |data| && c.len <= 24 && Holds(c.walker, c.len)
  }

  lemma RestLoad(data: seq<byte>, c: Cursor)
    requires Live(data, c) && c.i < |data|
    ensures var v := Or(c.walker, Shl(data[c.i], 24 - c.len));
            v < WORD && Holds(v, c.len + 8) && Rest(data, Cursor(v, c.len + 8, c.i + 1)) == Rest(data, c)
  {
    Load(c.walker, c.len, data[c.i]);
    assert data[c.i..][1..] == data[c.i + 1..];
    Assoc(Top(c.walker, c.len), Octet(data[c.i]), Stream(data[c.i + 1..]));
  }

  /** The register is empty: whatever it holds, the next octet replaces it. */
  lemma RestReload(data: seq<byte>, c: Cursor)
    requires c.len == 0 && c.i < |data|
    ensures var d := Cursor(Shl(data[c.i], 24), 8, c.i + 1);
            Live(data, d) && Rest(data, d) == Rest(data, c)
  {
    var e := Cursor(0, 0, c.i);
    assert Live(data, e);
    RestLoad(data, e);
    assert Rest(data, c) == Rest(data, e);
  }

  lemma RestDrop(data: seq<byte>, c: Cursor, k: nat)
    requires Live(data, c) && k <= c.len
    ensures var d := Cursor(Shl(c.walker, k), c.len - k, c.i);
            Live(data, d) && Rest(data, d) == Rest(data, c)[k..]
  {
    Drop(c.walker, k, c.len);
  }

  lemma RestNumber(data: seq<byte>, c: Cursor, k: nat, j: nat)
    requires Live(data, c) && k <= c.len && j + k == 32
    ensures Shr(c.walker, j) == Val(Rest(data, c)[..k])
    ensures LowBits(Shr(Signed(c.walker), j), k) == Val(Rest(data, c)[..k])
  {
    TopValue(c.walker, k, j);
    TopValueMasked(c.walker, k, j);
    TopSplit(c.walker, k, c.len);
    assert Rest(data, c)[..k] == Top(c.walker, k);
  }

  lemma RestSign(data: seq<byte>, c: Cursor)
    requires Live(data, c) && c.len > 0
    ensures Sign(c.walker) == Rest(data, c)[0]
  {
  }

  /** The loops `for (; walker_len < need; walker_len += 8)`; false when the data runs out. */
  method Fill(data: seq<byte>, c: Cursor, need: nat) returns (ok: bool, d: Cursor)
    requires Live(data, c) && need <= 17
    ensures Live(data, d) && Rest(data, d) == Rest(data, c)
    ensures ok ==> d.len >= need
    ensures ok <==> |Rest(data, c)| >= need
  {
    d := c;
    while d.len < need
      invariant Live(data, d) && Rest(data, d) == Rest(data, c)
      decreases need - d.len
    {
      if d.i >= |data| {
        return false, d;
      }
      RestLoad(data, d);
      d := Cursor(Or(d.walker, Shl(data[d.i], 24 - d.len)), d.len + 8, d.i + 1);
    }
    ok := true;
  }

  /** `walker <<= skip; v = walker >> (32 - width); walker <<= width; walker_len -= skip + width`. */
  method Take(data: seq<byte>, c: Cursor, skip: nat, width: nat) returns (v: nat, d: Cursor)
    requires Live(data, c) && skip + width <= c.len
    ensures Live(data, d) && Rest(data, d) == Rest(data, c)[skip + width..]
    ensures v == Val(Rest(data, c)[skip..skip + width])
  {
    ghost var s := Rest(data, c);
    RestDrop(data, c, skip);
    var e := Cursor(Shl(c.walker, skip), c.len - skip, c.i);
    RestNumber(data, e, width, 32 - width);
    v := Shr(e.walker, 32 - width);
    RestDrop(data, e, width);
    d := Cursor(Shl(e.walker, width), e.len - width, e.i);
    TakeAfterDrop(s, skip, width);
  }

  lemma TakeAfterDrop<T>(s: seq<T>, j: nat, k: nat)
    requires j + k <= |s|
    ensures s[j..][..k] == s[j..j + k] && s[j..][k..] == s[j + k..]
  {
  }

  lemma Val3(s: seq<bool>)
    requires |s| == 3
    ensures Val(s) == (if s[0] then 4 else 0) + (if s[1] then 2 else 0) + (if s[2] then 1 else 0)
  {
    ValCons(s[0], s[1..]);
    ValCons(s[1], s[2..]);
    ValCons(s[2], []);
    assert s == [s[0]] + s[1..] && s[1..] == [s[1]] + s[2..] && s[2..] == [s[2]] + [];
  }

  lemma Val2(s: seq<bool>)
    requires |s| == 2
    ensures Val(s) == (if s[0] then 2 else 0) + (if s[1] then 1 else 0)
  {
    ValCons(s[0], s[1..]);
    ValCons(s[1], []);
    assert s == [s[0]] + s[1..] && s[1..] == [s[1]] + [];
  }

  /** `walker <<= 1; if (--walker_len == 0)` fetch another octet; false when the data runs out. */
  method Advance(data: seq<byte>, c: Cursor) returns (ok: bool, d: Cursor)
    requires Live(data, c) && c.len > 0
    ensures ok == (|Rest(data, c)| > 1)
    ensures ok ==> Live(data, d) && d.len > 0 && Rest(data, d) == Rest(data, c)[1..]
  {
    RestDrop(data, c, 1);
    d := Cursor(Shl(c.walker, 1), c.len - 1, c.i);
    if d.len == 0 {
      if d.i >= |data| {
        return false, d;
      }
      RestReload(data, d);
      d := Cursor(Shl(data[d.i], 24), 8, d.i + 1);
    }
    ok := true;
  }

  /** One case of the offset switch: fill, shift the prefix out, take the value. */
  method GetForm(data: seq<byte>, c: Cursor, f: Form) returns (ok: bool, v: nat, d: Cursor)
    requires Live(data, c) && |f.prefix| + f.width <= 17
    ensures Live(data, d) && ok == ReadForm(Rest(data, c), f).Field?
    ensures ok ==> Field(v, |f.prefix| + f.width) == ReadForm(Rest(data, c), f)
    ensures ok ==> Rest(data, d) == Rest(data, c)[|f.prefix| + f.width..]
  {
    v := 0;
    ok, d := Fill(data, c, |f.prefix| + f.width);
    if ok {
      v, d := Take(data, d, |f.prefix|, f.width);
      v := f.base + v;
    }
  }

  /** The last case of the 8K switch shifts no prefix out: the bit above the thirteen is clear. */
  method GetLast(data: seq<byte>, c: Cursor) returns (ok: bool, v: nat, d: Cursor)
    requires Live(data, c) && |Rest(data, c)| > 0 && !Rest(data, c)[0]
    ensures Live(data, d) && ok == ReadForm(Rest(data, c), LAST).Field?
    ensures ok ==> Field(v, 14) == ReadForm(Rest(data, c), LAST)
    ensures ok ==> Rest(data, d) == Rest(data, c)[14..]
  {
    v := 0;
    ok, d := Fill(data, c, 14);
    if ok {
      ghost var t := Rest(data, d);
      ValCons(false, t[1..14]);
      assert t[0..14] == [false] + t[1..14];
      v, d := Take(data, d, 0, 14);
      v := 320 + v;
    }
  }

  lemma FormBits(s: seq<bool>, big: bool)
    requires |s| >= if big then 3 else 2
    ensures OffsetFormAt(s, big) ==
            if big then
              match Val(s[..3]) case 7 => NEAR_BIG case 6 => MID_BIG case 5 | 4 => FAR_BIG case _ => LAST_BIG
            else
              match Val(s[..2]) case 3 => NEAR case 2 => MID case _ => LAST
    ensures !big && Val(s[..2]) < 2 ==> !s[0]
  {
    if big {
      Val3(s[..3]);
    } else {
      Val2(s[..2]);
    }
  }

  /** The offset of a copy, after the prefix 11. */
  method GetOffset(data: seq<byte>, c: Cursor, big: bool) returns (ok: bool, off: nat, d: Cursor)
    requires Live(data, c)
    ensures ok == ReadOffset(Rest(data, c), big).Field?
    ensures ok ==> Live(data, d) && off == ReadOffset(Rest(data, c), big).value
    ensures ok ==> Rest(data, d) == Rest(data, c)[ReadOffset(Rest(data, c), big).size..]
  {
    off := 0;
    ok, d := Fill(data, c, if big then 3 else 2);
    if !ok { return; }
    FormBits(Rest(data, c), big);
    if big {
      RestNumber(data, d, 3, 29);
      match Shr(d.walker, 29)
      case 7 => ok, off, d := GetForm(data, d, NEAR_BIG);
      case 6 => ok, off, d := GetForm(data, d, MID_BIG);
      case 5 | 4 => ok, off, d := GetForm(data, d, FAR_BIG);
      case _ => ok, off, d := GetForm(data, d, LAST_BIG);
    } else {
      RestNumber(data, d, 2, 30);
      match Shr(d.walker, 30)
      case 3 => ok, off, d := GetForm(data, d, NEAR);
      case 2 => ok, off, d := GetForm(data, d, MID);
      case _ => ok, off, d := GetLast(data, d);
    }
  }

  // The length of match.

  lemma {:induction false} ShlPow(j: nat, k: nat)
    requires j + k < 32
    ensures Pow2(j) < WORD && Shl(Pow2(j), k) == Pow2(j + k)
    decreases k
  {
    WordBound(j);
    Pow2Monotone(j, 31);
    Pow2Word(31);
    if k > 0 {
      Pow2Monotone(j + 1, 31);
      ShlPow(j + 1, k - 1);
    }
  }

  /** The last step of the length: `walker`'s top m bits under a leading one. */
  method GetLengthBits(data: seq<byte>, c: Cursor, m: nat) returns (ok: bool, len: nat, d: Cursor)
    requires Live(data, c) && 2 <= m <= 15
    ensures ok == (|Rest(data, c)| >= m)
    ensures ok ==> Live(data, d) && Rest(data, d) == Rest(data, c)[m..]
    ensures ok ==> len == Pow2(m) + Val(Rest(data, c)[..m])
  {
    len := 0;
    ok, d := Fill(data, c, m);
    if !ok { return; }
    RestNumber(data, d, m, 32 - m);
    ShlPow(0, m);
    OrHigh(0, Val(Rest(data, c)[..m]), m);
    len := Or(LowBits(Shr(Signed(d.walker), 32 - m), m), Shl(1, m));
    RestDrop(data, d, m);
    d := Cursor(Shl(d.walker, m), d.len - m, d.i);
  }

  /** The loop that counts the ones down, to the zero that ends them; false when the data or the ones
      allowed run out first. */
  method SkipOnes(data: seq<byte>, c: Cursor, big: bool) returns (ok: bool, matchBits: nat, d: Cursor)
    requires Live(data, c) && c.len > 0 && Sign(c.walker)
    ensures var s := Rest(data, c);
            var n := LeadingOnes(s);
            && n > 0
            && ok == (n < |s| && n <= MaxOnes(big))
            && (ok ==> Live(data, d) && d.len > 0 && n + matchBits == MaxOnes(big) + 1 && Rest(data, d) == s[n..])
  {
    ghost var s := Rest(data, c);
    d := c;
    matchBits := if big then 14 else 11;
    ghost var n := 0;
    RestSign(data, d);
    OnesFrom(s, 0);
    assert s[0..] == s;
    hide LeadingOnes, Rest, Live, Shl, Sign;
    while true
      invariant Live(data, d) && d.len > 0 && Rest(data, d)[0]
      invariant 0 < matchBits && n + matchBits == MaxOnes(big)
      invariant n < |s| && Rest(data, d) == s[n..] && LeadingOnes(s) == n + LeadingOnes(s[n..])
      decreases matchBits
    {
      OnesFrom(s, n);
      n := n + 1;
      ok, d := Advance(data, d);
      if !ok {
        OnesFrom(s, n);
        return;
      }
      RestSign(data, d);
      OnesFrom(s, n);
      if !Sign(d.walker) {
        return;
      }
      matchBits := matchBits - 1;
      if matchBits == 0 {
        return false, 0, d;
      }
    }
  }

  /** The ones and the shift past the zero that ends them: the number of bits that follow. */
  method CountOnes(data: seq<byte>, c: Cursor, big: bool) returns (ok: bool, m: nat, d: Cursor)
    requires Live(data, c) && c.len > 0 && Sign(c.walker)
    ensures var s := Rest(data, c);
            var n := LeadingOnes(s);
            && n > 0
            && ok == (n < |s| && n <= MaxOnes(big))
            && (ok ==> Live(data, d) && m == n + 1 && Rest(data, d) == s[n + 1..])
  {
    hide LeadingOnes, Rest, Shl, Sign;
    m := 0;
    var matchBits;
    ok, matchBits, d := SkipOnes(data, c, big);
    if ok {
      ghost var s := Rest(data, c);
      ghost var n := LeadingOnes(s);
      assert s[n..][1..] == s[n + 1..];
      m := (if big then 16 else 13) - matchBits;
      RestDrop(data, d, 1);
      d := Cursor(Shl(d.walker, 1), d.len - 1, d.i);
    }
  }

  /** The ones of a string from place n on. */
  lemma OnesFrom(s: seq<bool>, n: nat)
    requires n <= |s|
    ensures n < |s| ==> s[n..][1..] == s[n + 1..] && s[n..][0] == s[n]
    ensures LeadingOnes(s[n..]) == if n < |s| && s[n] then 1 + LeadingOnes(s[n + 1..]) else 0
  {
    if n < |s| {
      assert s[n..][1..] == s[n + 1..];
    }
  }

  /** Reading the length of a string that starts with n > 0 ones and a zero. */
  lemma LengthAfterOnes(s: seq<bool>, big: bool, n: nat, t: seq<bool>)
    requires n == LeadingOnes(s) && 0 < n < |s| && n <= MaxOnes(big) && t == s[n + 1..]
    ensures ReadLength(s, big) == if |t| < n + 1 then Short else Field(Pow2(n + 1) + Val(t[..n + 1]), 2 * n + 2)
    ensures |t| >= n + 1 ==> s[2 * n + 2..] == t[n + 1..]
  {
    if |t| >= n + 1 {
      TakeAfterDrop(s, n + 1, n + 1);
    }
  }

  /** The length of match. */
  method GetLength(data: seq<byte>, c: Cursor, big: bool) returns (ok: bool, len: nat, d: Cursor)
    requires Live(data, c)
    ensures ok == ReadLength(Rest(data, c), big).Field?
    ensures ok ==> Live(data, d) && len == ReadLength(Rest(data, c), big).value
    ensures ok ==> Rest(data, d) == Rest(data, c)[ReadLength(Rest(data, c), big).size..]
  {
    len, d := 0, c;
    if d.len == 0 {
      if d.i >= |data| {
        return false, len, d;
      }
      RestReload(data, d);
      d := Cursor(Shl(data[d.i], 24), 8, d.i + 1);
    }
    RestSign(data, d);
    if !Sign(d.walker) {
      RestDrop(data, d, 1);
      return true, 3, Cursor(Shl(d.walker, 1), d.len - 1, d.i);
    }
    ok, len, d := GetLongLength(data, d, big);
  }

  method GetLongLength(data: seq<byte>, c: Cursor, big: bool) returns (ok: bool, len: nat, d: Cursor)
    requires Live(data, c) && c.len > 0 && Sign(c.walker)
    ensures ok == ReadLength(Rest(data, c), big).Field?
    ensures ok ==> Live(data, d) && len == ReadLength(Rest(data, c), big).value
    ensures ok ==> Rest(data, d) == Rest(data, c)[ReadLength(Rest(data, c), big).size..]
  {
    len := 0;
    ghost var s := Rest(data, c);
    var m: nat;
    ok, m, d := CountOnes(data, c, big);
    if ok {
      LengthAfterOnes(s, big, m - 1, Rest(data, d));
      ok, len, d := GetLengthBits(data, d, m);
    }
  }

  // One token.

  /** A short run of bits is padding exactly when the register is zero. */
  lemma {:induction false} ZeroRegister(w: uint32, n: nat)
    requires Holds(w, n)
    ensures w == 0 <==> Zeros(Top(w, n))
    decreases n
  {
    if n > 0 {
      ZeroRegister(Twice(w), n - 1);
      var t := Top(w, n);
      assert t[1..] == Top(Twice(w), n - 1);
      assert Zeros(t) <==> !t[0] && Zeros(t[1..]) by {
        assert forall i :: 1 <= i < |t| ==> t[i] == t[1..][i - 1];
      }
    }
  }

  /** `walker >> 24 | 0x80` puts back the leading one of the octet. */
  lemma HighLiteral(s: seq<bool>)
    requires |s| == 8 && !s[0]
    ensures Val(s) < 128 && Or(Val(s), 128) == OctetOf([true] + s[1..])
  {
    Pow2Octet();
    ValCons(false, s[1..]);
    ValCons(true, s[1..]);
    assert s == [false] + s[1..];
    OrHigh(0, Val(s), 7);
  }

  datatype Got = NoMore | Broken | Got(token: Token)

  /** What the register read is what stands at the front of s, and t is what follows it. */
  ghost predicate Reads(g: Got, s: seq<bool>, big: bool, t: seq<bool>)
  {
    match Next(s, big)
    case End => g == NoMore
    case Bad => g == Broken
    case Item(token, size) => g == Got(token) && t == s[size..]
  }

  /** Eight bits, if need be with one more octet; false when the data runs out. */
  method GetOctet(data: seq<byte>, c: Cursor) returns (ok: bool, v: nat, d: Cursor)
    requires Live(data, c)
    ensures Live(data, d) && ok == (|Rest(data, c)| >= 8)
    ensures ok ==> v == Val(Rest(data, c)[..8]) && Rest(data, d) == Rest(data, c)[8..]
    ensures !ok ==> d == c && d.i == |data|
  {
    d, v := c, 0;
    if d.len < 8 {
      if d.i >= |data| {
        return false, v, d;
      }
      RestLoad(data, d);
      d := Cursor(Or(d.walker, Shl(data[d.i], 24 - d.len)), d.len + 8, d.i + 1);
    }
    RestNumber(data, d, 8, 24);
    v := Shr(d.walker, 24);
    RestDrop(data, d, 8);
    d := Cursor(Shl(d.walker, 8), d.len - 8, d.i);
    ok := true;
  }

  lemma LowRead(s: seq<bool>, big: bool)
    requires |s| >= 8 && !s[0]
    ensures Reads(Got(Lit(Val(s[..8]) % 256)), s, big, s[8..])
  {
  }

  lemma LowEnd(s: seq<bool>, big: bool, t: seq<bool>)
    requires 0 < |s| < 8 && !s[0]
    ensures Reads(if Zeros(s) then NoMore else Broken, s, big, t)
  {
  }

  lemma HighRead(s: seq<bool>, r: seq<bool>, big: bool)
    requires |r| >= 8 && !r[0] && s == [true] + r
    ensures Reads(Got(Lit(Or(Val(r[..8]), 0x80) % 256)), s, big, r[8..])
  {
    HighLiteral(r[..8]);
    assert r[..8][1..] == s[2..9] && s[9..] == r[8..];
  }

  lemma HighEnd(s: seq<bool>, r: seq<bool>, big: bool, t: seq<bool>)
    requires |r| < 8 && s == [true] + r && (r != [] ==> !r[0])
    ensures Reads(Broken, s, big, t)
  {
  }

  /** A literal below 128, or the padding. */
  method GetLow(data: seq<byte>, c: Cursor, big: bool) returns (g: Got, d: Cursor)
    requires Live(data, c) && c.len > 0 && !Sign(c.walker)
    ensures Live(data, d) && Reads(g, Rest(data, c), big, Rest(data, d))
  {
    RestSign(data, c);
    var ok, v;
    ok, v, d := GetOctet(data, c);
    if ok {
      LowRead(Rest(data, c), big);
      g := Got(Lit(v % 256));
    } else {
      ZeroRegister(d.walker, d.len);
      assert Rest(data, d) == Top(d.walker, d.len);
      LowEnd(Rest(data, c), big, Rest(data, d));
      g := if d.walker != 0 then Broken else NoMore;
    }
  }

  /** A literal from 128 up: the register holds a zero where the octet has its leading one. */
  method GetHigh(data: seq<byte>, c: Cursor, big: bool) returns (g: Got, d: Cursor)
    requires Live(data, c) && c.len > 0 && !Sign(c.walker)
    ensures Live(data, d) && Reads(g, [true] + Rest(data, c), big, Rest(data, d))
  {
    RestSign(data, c);
    ghost var r := Rest(data, c);
    var ok, v;
    ok, v, d := GetOctet(data, c);
    if ok {
      HighRead([true] + r, r, big);
      g := Got(Lit(Or(v, 0x80) % 256));
    } else {
      HighEnd([true] + r, r, big, Rest(data, d));
      g := Broken;
    }
  }

  lemma CopyRead(s: seq<bool>, big: bool, t: seq<bool>)
    requires |s| >= 2 && s[0] && s[1]
    requires ReadOffset(s[2..], big).Field?
    requires ReadLength(s[2..][ReadOffset(s[2..], big).size..], big).Field?
    requires var off := ReadOffset(s[2..], big);
             var u := s[2..][off.size..];
             t == u[ReadLength(u, big).size..]
    ensures var off := ReadOffset(s[2..], big);
            Reads(Got(Copy(off.value, ReadLength(s[2..][off.size..], big).value)), s, big, t)
  {
    CopyParts(s, big);
    hide ReadOffset, ReadLength, Next, ReadCopy;
    var n := ReadOffset(s[2..], big).size;
    var m := ReadLength(s[2..][n..], big).size;
    TakeAfterDrop(s[2..], n, m);
    TakeAfterDrop(s, 2, n + m);
  }

  lemma CopyParts(s: seq<bool>, big: bool)
    requires |s| >= 2 && s[0] && s[1]
    requires ReadOffset(s[2..], big).Field?
    requires ReadLength(s[2..][ReadOffset(s[2..], big).size..], big).Field?
    ensures var off := ReadOffset(s[2..], big);
            var len := ReadLength(s[2..][off.size..], big);
            Next(s, big) == Item(Copy(off.value, len.value), 2 + off.size + len.size)
  {
    hide ReadOffset, ReadLength;
  }

  lemma CopyBroken(s: seq<bool>, big: bool, t: seq<bool>)
    requires |s| >= 2 && s[0] && s[1]
    requires var off := ReadOffset(s[2..], big);
             off.Short? || ReadLength(s[2..][off.size..], big).Short?
    ensures Reads(Broken, s, big, t)
  {
  }

  /** A copy, after its two leading ones. */
  method GetCopy(data: seq<byte>, c: Cursor, big: bool, ghost s: seq<bool>) returns (g: Got, d: Cursor)
    requires Live(data, c) && |s| >= 2 && s[0] && s[1] && s[2..] == Rest(data, c)
    ensures Live(data, d) && Reads(g, s, big, Rest(data, d))
  {
    var ok, off, len;
    ok, off, d := GetOffset(data, c, big);
    if !ok {
      CopyBroken(s, big, Rest(data, c));
      return Broken, c;
    }
    ok, len, d := GetLength(data, d, big);
    if !ok {
      CopyBroken(s, big, Rest(data, c));
      return Broken, c;
    }
    CopyRead(s, big, Rest(data, d));
    g := Got(Copy(off, len));
  }

  lemma OneBit(s: seq<bool>, big: bool)
    requires |s| == 1 && s[0]
    ensures Reads(Broken, s, big, s)
  {
  }

  /** A token that starts with a one. */
  method GetCoded(data: seq<byte>, c: Cursor, big: bool) returns (g: Got, d: Cursor)
    requires Live(data, c) && c.len > 0 && Sign(c.walker)
    ensures Live(data, d) && Reads(g, Rest(data, c), big, Rest(data, d))
  {
    ghost var s := Rest(data, c);
    RestSign(data, c);
    var ok;
    ok, d := Advance(data, c);
    if !ok {
      OneBit(s, big);
      return Broken, c;
    }
    RestSign(data, d);
    assert s == [true] + Rest(data, d);
    if !Sign(d.walker) {
      g, d := GetHigh(data, d, big);
    } else {
      RestDrop(data, d, 1);
      TakeAfterDrop(s, 1, 1);
      d := Cursor(Shl(d.walker, 1), d.len - 1, d.i);
      g, d := GetCopy(data, d, big, s);
    }
  }

  /** One turn of the main loop, up to the write into the history. */
  method GetToken(data: seq<byte>, c: Cursor, big: bool) returns (g: Got, d: Cursor)
    requires c.i <= |data| && (c.len > 0 ==> Live(data, c))
    ensures d.i <= |data| && Reads(g, Rest(data, c), big, Rest(data, d))
    ensures g.Got? ==> Live(data, d)
  {
    d := c;
    if d.len == 0 {
      if d.i >= |data| {
        return NoMore, d;
      }
      RestReload(data, d);
      d := Cursor(Shl(data[d.i], 24), 8, d.i + 1);
    }
    if !Sign(d.walker) {
      g, d := GetLow(data, d, big);
    } else {
      g, d := GetCoded(data, d, big);
    }
  }

  // The decompressor.

  lemma DecodeStop(h: seq<byte>, off: nat, s: seq<bool>, big: bool, g: Got, t: seq<bool>)
    requires |h| == HISTORY && off <= HISTORY && Reads(g, s, big, t) && !g.Got?
    ensures Decode(h, off, s, big) == Run(if g.NoMore? then Done else Corrupt, h, off)
  {
  }

  lemma DecodeToken(h: seq<byte>, off: nat, s: seq<bool>, big: bool, token: Token, t: seq<bool>)
    requires |h| == HISTORY && off <= HISTORY && Reads(Got(token), s, big, t)
    ensures |t| < |s| && (token.Copy? ==> token.len > 0)
    ensures var r := Write(h, off, token, big);
            Decode(h, off, s, big) == if r.status.Done? then Decode(r.hist, r.off, t, big) else r
  {
  }

  /** The copy loop at the end of mppc_expand. */
  method CopyMatch(hist: array<byte>, dst: nat, src: nat, len: nat)
    requires dst + len <= hist.Length && src + len <= hist.Length && len > 0
    modifies hist
    ensures hist[..] == CopyBytes(old(hist[..]), dst, src, len)
  {
    var next, k, left := dst, src, len;
    while left != 0
      invariant next + left == dst + len && k + left == src + len
      invariant CopyBytes(hist[..], next, k, left) == CopyBytes(old(hist[..]), dst, src, len)
      decreases left
    {
      ghost var before := hist[..];
      hist[next] := hist[k];
      assert hist[..] == before[next := before[k]];
      next, k, left := next + 1, k + 1, left - 1;
    }
  }

  /** Writing one token into the history. */
  method Put(hist: array<byte>, next: nat, t: Token, big: bool) returns (status: Status, next': nat)
    requires hist.Length == HISTORY && next <= HISTORY && (t.Copy? ==> t.len > 0)
    modifies hist
    ensures Run(status, hist[..], next') == Write(old(hist[..]), next, t, big)
  {
    match t {
      case Lit(b) =>
        if next >= HISTORY {
          return Corrupt, next;
        }
        hist[next] := b;
        next' := next + 1;
      case Copy(back, len) =>
        if next + len >= HISTORY {
          return Corrupt, next;
        }
        var k := Source(next, back, big);
        if k + len > HISTORY {
          return Stray, next;
        }
        CopyMatch(hist, next, k, len);
        next' := next + len;
    }
    status := Done;
  }

  /** The global g_mppc_dict. */
  class RdpComp {
    var roff: nat
    const hist: array<byte>

    ghost predicate Valid()
      reads this, hist
    {
      Value().Valid()
    }

    ghost function Value(): State
      reads this, hist
    {
      State(hist[..], roff)
    }

    constructor ()
      ensures Valid() && fresh(hist) && roff == 0
    {
      hist := new byte[HISTORY];
      roff := 0;
    }

    /** mppc_expand: 0 is Done, -1 is Corrupt. */
    method Expand(p: Packet) returns (status: Status, off: nat, len: nat)
      requires Valid()
      modifies this, hist
      ensures Valid()
      ensures Outcome(Value(), status, off, len) == Step(old(Value()), p)
    {
      if p.ctype & RDP_MPPC_COMPRESSED == 0 {
        return Done, 0, |p.data|;
      }
      if p.ctype & RDP_MPPC_RESET != 0 {
        roff := 0;
      }
      if p.ctype & RDP_MPPC_FLUSH != 0 {
        forall i | 0 <= i < hist.Length {
          hist[i] := 0;
        }
        roff := 0;
        assert hist[..] == Zeroed();
      }
      ghost var pre := Prepared(old(Value()), p);
      assert Value() == pre;
      off, len := roff, 0;
      if |p.data| == 0 {
        return Done, off, len;
      }
      status := Body(p.data, p.Big());
      if status.Done? {
        len := roff - off;
      }
    }

    /** The loop and its epilogue. */
    method Body(data: seq<byte>, big: bool) returns (status: Status)
      requires Valid()
      modifies this, hist
      ensures var r := Decode(old(hist[..]), old(roff), Stream(data), big);
              && status == r.status
              && Value() == State(r.hist, if status.Done? then r.off else old(roff))
    {
      var next: nat;
      status, next := Loop(data, big);
      if status.Done? {
        roff := next;
      }
    }

    method Loop(data: seq<byte>, big: bool) returns (status: Status, next: nat)
      requires Valid()
      modifies hist
      ensures Run(status, hist[..], next) == Decode(old(hist[..]), roff, Stream(data), big)
    {
      next := roff;
      var c := Cursor(roff, 0, 0);
      ghost var r := Decode(hist[..], roff, Stream(data), big);
      assert Rest(data, c) == Stream(data);
      while true
        invariant next <= HISTORY && c.i <= |data| && (c.len > 0 ==> Live(data, c))
        invariant Decode(hist[..], next, Rest(data, c), big) == r
        decreases |Rest(data, c)|
      {
        ghost var h, s := hist[..], Rest(data, c);
        var g;
        g, c := GetToken(data, c, big);
        if !g.Got? {
          DecodeStop(h, next, s, big, g, Rest(data, c));
          return if g.Broken? then Corrupt else Done, next;
        }
        DecodeToken(h, next, s, big, g.token, Rest(data, c));
        status, next := Put(hist, next, g.token, big);
        if !status.Done? {
          return;
        }
      }
    }
  }
}
