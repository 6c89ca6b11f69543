/** Bit strings, most significant bit first, and the numbers and octets they spell. */
module Bits {

  type byte = x: int | 0 <= x < 256

  const WORD: nat := 0x1_0000_0000
  const HALF: nat := 0x8000_0000

  type uint32 = x: int | 0 <= x < 0x1_0000_0000

  function Pow2(n: nat): (p: nat)
    ensures p > 0
  {
    if n == 0 then 1 else 2 * Pow2(n - 1)
  }

  lemma {:induction false} Pow2Monotone(j: nat, k: nat)
    requires j <= k
    ensures Pow2(j) <= Pow2(k)
    decreases k - j
  {
    if j < k {
      Pow2Monotone(j + 1, k);
    }
  }

  /** The number a bit string denotes. */
  function Val(s: seq<bool>): (v: nat)
    ensures v < Pow2(|s|)
  {
    if s == [] then 0 else 2 * Val(s[..|s| - 1]) + if s[|s| - 1] then 1 else 0
  }

  /** Bit j of a number. */
  predicate Bit(v: nat, j: nat)
  {
    if j == 0 then v % 2 == 1 else Bit(v / 2, j - 1)
  }

  lemma {:induction false} BitIs(v: nat, j: nat)
    ensures Bit(v, j) <==> v / Pow2(j) % 2 == 1
  {
    if j > 0 {
      BitIs(v / 2, j - 1);
      DivTwice(v, Pow2(j - 1));
    }
  }

  lemma DivTwice(v: nat, p: nat)
    requires p > 0
    ensures v / 2 / p == v / (2 * p)
  {
    var q, r := v / 2 / p, v / 2 % p;
    assert v / 2 == p * q + r && v == 2 * (v / 2) + v % 2;
    var s := 2 * r + v % 2;
    assert v == (2 * p) * q + s && 0 <= s < 2 * p;
    QuotientIs(v, 2 * p, q, s);
  }

  lemma QuotientIs(v: nat, d: nat, q: nat, s: nat)
    requires v == d * q + s && s < d
    ensures v / d == q
  {
    var e := v / d - q;
    assert d * e == s - v % d by {
      assert v == d * (v / d) + v % d;
      assert d * (v / d) == d * q + d * e;
    }
    NoMultiple(d, e, s - v % d);
  }

  lemma NoMultiple(d: nat, e: int, x: int)
    requires d * e == x && x < d && 0 < x + d
    ensures e == 0
  {
  }

  /** The n low bits of a number. */
  function Digits(v: nat, n: nat): (s: seq<bool>)
    ensures |s| == n
  {
    if n == 0 then [] else Digits(v / 2, n - 1) + [v % 2 == 1]
  }

  lemma {:induction false} ValOfDigits(v: nat, n: nat)
    requires v < Pow2(n)
    ensures Val(Digits(v, n)) == v
  {
    if n > 0 {
      ValOfDigits(v / 2, n - 1);
      var s := Digits(v, n);
      assert s[..|s| - 1] == Digits(v / 2, n - 1);
    }
  }

  lemma {:induction false} DigitsOfVal(s: seq<bool>)
    ensures Digits(Val(s), |s|) == s
  {
    if s != [] {
      DigitsOfVal(s[..|s| - 1]);
    }
  }

  lemma {:induction false} ValCons(b: bool, s: seq<bool>)
    ensures Val([b] + s) == (if b then Pow2(|s|) else 0) + Val(s)
  {
    var t := [b] + s;
    if s == [] {
      assert t[..|t| - 1] == [];
    } else {
      var u := s[..|s| - 1];
      ValCons(b, u);
      assert t[..|t| - 1] == [b] + u;
    }
  }

  /** The eight bits of an octet in transmission order. */
  function Octet(b: byte): (s: seq<bool>)
    ensures |s| == 8
  {
    Digits(b, 8)
  }

  lemma Pow2Octet()
    ensures Pow2(7) == 128 && Pow2(8) == 256
  {
    assert Pow2(4) == 16;
  }

  function OctetOf(s: seq<bool>): byte
    requires |s| == 8
  {
    Pow2Octet();
    Val(s)
  }

  lemma OctetRoundTrip(b: byte)
    ensures OctetOf(Octet(b)) == b
  {
    Pow2Octet();
    ValOfDigits(b, 8);
  }

  /** The bits of a byte string in transmission order. */
  function Stream(data: seq<byte>): (s: seq<bool>)
    ensures |s| == 8 * |data|
  {
    if data == [] then [] else Octet(data[0]) + Stream(data[1..])
  }

  /** The bytes carrying a bit string of whole octets. */
  function Pack(s: seq<bool>): (data: seq<byte>)
    requires |s| % 8 == 0
    ensures 8 * |data| == |s|
  {
    if s == [] then [] else [OctetOf(s[..8])] + Pack(s[8..])
  }

  lemma {:induction false} StreamOfPack(s: seq<bool>)
    requires |s| % 8 == 0
    ensures Stream(Pack(s)) == s
  {
    if s != [] {
      DigitsOfVal(s[..8]);
      StreamOfPack(s[8..]);
      assert Pack(s)[1..] == Pack(s[8..]);
      assert s == s[..8] + s[8..];
    }
  }

  predicate Zeros(s: seq<bool>) { forall i :: 0 <= i < |s| ==> !s[i] }

  /** `count` ones in a row. */
  function Ones(count: nat): (s: seq<bool>)
    ensures |s| == count && forall i :: 0 <= i < count ==> s[i]
  {
    seq(count, _ => true)
  }

  /** The bytes s stand at pos. */
  predicate Stands(input: seq<byte>, pos: nat, s: seq<byte>)
  {
    pos + |s| <= |input| && input[pos..pos + |s|] == s
  }

  lemma StandsApart(input: seq<byte>, pos: nat, s: seq<byte>, t: seq<byte>)
    requires Stands(input, pos, s + t)
    ensures Stands(input, pos, s) && Stands(input, pos + |s|, t)
  {
    var u := input[pos..pos + |s + t|];
    assert u[..|s|] == s && u[|s|..] == t;
  }

  lemma StandsFirst(input: seq<byte>, pos: nat, s: seq<byte>, i: nat)
    requires Stands(input, pos, s) && i < |s|
    ensures input[pos + i] == s[i]
  {
    assert input[pos..pos + |s|][i] == input[pos + i];
  }
}
