/** The bits of the MPPC code, written out. */
module MppcMeaning {
  import opened Bits
  import opened MppcCode
  import opened Mppc

  /** A bit string is the number its bits spell, the highest first. */
  lemma {:induction false} ValBits(s: seq<bool>, i: nat)
    requires i < |s|
    ensures s[i] <==> Val(s) / Pow2(|s| - 1 - i) % 2 == 1
  {
    var n := |s| - 1;
    if i < n {
      ValBits(s[..n], i);
      DivTwice(Val(s), Pow2(n - 1 - i));
    }
  }

  /** And the bits of a byte string are those of its bytes, the highest first. */
  lemma {:induction false} StreamBits(data: seq<byte>, k: nat, i: nat)
    requires k < |data| && i < 8
    ensures 8 * k + i < |Stream(data)|
    ensures Stream(data)[8 * k + i] <==> data[k] / Pow2(7 - i) % 2 == 1
  {
    if k == 0 {
      OctetRoundTrip(data[0]);
      ValBits(Octet(data[0]), i);
    } else {
      StreamBits(data[1..], k - 1, i);
      assert Stream(data)[8 * k + i] == Stream(data[1..])[8 * (k - 1) + i];
    }
  }

  /** A prefix, and so many bits that spell v. */
  predicate Numeral(w: seq<bool>, prefix: seq<bool>, width: nat, v: int)
  {
    |w| == |prefix| + width && w[..|prefix|] == prefix && Val(w[|prefix|..]) == v
  }

  lemma FormBits(f: Form, v: nat)
    requires f.base <= v < f.base + Pow2(f.width)
    ensures Numeral(WriteForm(f, v), f.prefix, f.width, v - f.base)
  {
    hide Digits, Val, Pow2;
    ValOfDigits(v - f.base, f.width);
    assert WriteForm(f, v)[|f.prefix|..] == Digits(v - f.base, f.width);
  }

  /** The seven classes of offsets. */
  lemma OffsetBits(off: nat, big: bool)
    requires off < if big then 2368 + 65536 else 320 + 8192
    ensures var w := WriteOffset(off, big);
            if big then
              if off < 64 then Numeral(w, [true, true, true], 6, off)
              else if off < 320 then Numeral(w, [true, true, false], 8, off - 64)
              else if off < 2368 then Numeral(w, [true, false], 11, off - 320)
              else Numeral(w, [false], 16, off - 2368)
            else
              if off < 64 then Numeral(w, [true, true], 6, off)
              else if off < 320 then Numeral(w, [true, false], 8, off - 64)
              else Numeral(w, [false], 13, off - 320)
  {
    Pow2Values();
    hide Val, Digits, Pow2;
    FormBits(OffsetForm(off, big), off);
  }

  /** A length of three is one zero; one from 2^k to 2^(k+1) is k - 1 ones, a zero and the k bits below its
      highest. */
  lemma LengthBits(len: nat, k: nat)
    requires 2 <= k && Pow2(k) <= len < Pow2(k + 1)
    ensures WriteLength(3) == [false] && len > 3
    ensures Numeral(WriteLength(len), seq(k - 1, _ => true) + [false], k, len - Pow2(k))
  {
    Pow2Monotone(2, k);
    assert Pow2(2) == 4;
    hide Val, Digits;
    Pow2Unique(len, k, LengthOnes(len) + 1);
    assert Pow2(k + 1) == 2 * Pow2(k);
    hide Pow2, LengthOnes;
    FormBits(LengthForm(k - 1), len);
    assert Ones(k - 1) == seq(k - 1, _ => true);
  }

  /** A byte below 128 is its eight bits; any other is a one, a zero and its lower seven bits; a match is two
      ones, its offset and its length. */
  lemma EncodeBits(t: Token, big: bool)
    requires Codable(t, big)
    ensures var w := Encode(t, big);
            match t
            case Lit(b) => if b < 128 then Numeral(w, [], 8, b) else Numeral(w, [true, false], 7, b - 128)
            case Copy(off, len) => w == [true, true] + WriteOffset(off, big) + WriteLength(len)
  {
    match t
    case Lit(b) =>
      OctetRoundTrip(b);
      LitBits(b);
      Pow2Octet();
      var o := Octet(b);
      assert o == [o[0]] + o[1..];
      ValCons(o[0], o[1..]);
      hide Digits, Pow2, Val;
      if b >= 128 {
        assert ([true, false] + o[1..])[2..] == o[1..];
      } else {
        assert o[0..] == o;
      }
    case Copy(_, _) =>
  }

  /** A packet without flag 0x20 is handed on as it is. With 0x80 the history is cleared and with that or
      0x40 it is begun again; 0x01 says which code; the other bits are not looked at. */
  lemma PacketFlags(st: State, p: Packet)
    requires st.Valid()
    ensures p.ctype & 0x20 == 0 ==> Step(st, p) == Outcome(st, Done, 0, |p.data|)
    ensures p.ctype & 0x20 != 0 ==>
              var hist: seq<byte> := if p.ctype & 0x80 != 0 then seq(65536, _ => 0) else st.hist;
              var off := if p.ctype & 0x80 != 0 || p.ctype & 0x40 != 0 then 0 else st.roff;
              var run := Decode(hist, off, Stream(p.data), p.ctype & 0x01 != 0);
              Step(st, p) == if run.status.Done? then Outcome(State(run.hist, run.off), Done, off, run.off - off)
                             else Outcome(State(run.hist, off), run.status, off, 0)
  {
    hide Decode, Stream;
  }
}
