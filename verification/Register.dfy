/** The decompressor's 32-bit shift register, as the unsigned value of the C variable.
    Its `n` top bits are the next bits of the stream, the rest are zero. */
module Register {
  import opened Bits

  /** The sign bit, which the C code reads by comparing with zero. */
  predicate Sign(w: uint32) { w >= HALF }

  /** C's `w << 1`: the sign bit falls out. */
  function Twice(w: uint32): uint32 { if Sign(w) then 2 * w - WORD else 2 * w }

  /** C's `w << k`. */
  function Shl(w: uint32, k: nat): uint32
    decreases k
  {
    if k == 0 then w else Shl(Twice(w), k - 1)
  }

  /** C's `w >> k`, rounding towards minus infinity when w is a signed value. */
  function Shr(w: int, k: nat): int
    decreases k
  {
    if k == 0 then w else Shr(w / 2, k - 1)
  }

  /** The value C's `int` gives the register. */
  function Signed(w: uint32): int { if Sign(w) then w - WORD else w }

  /** C's `a | b`. */
  function Or(a: nat, b: nat): nat
  {
    if a == 0 then b
    else if b == 0 then a
    else 2 * Or(a / 2, b / 2) + if a % 2 == 1 || b % 2 == 1 then 1 else 0
  }

  /** The n top bits of the register, in stream order. */
  ghost function Top(w: uint32, n: nat): (s: seq<bool>)
    ensures |s| == n
    decreases n
  {
    if n == 0 then [] else [Sign(w)] + Top(Twice(w), n - 1)
  }

  /** Below its n live bits the register is zero. */
  ghost predicate Holds(w: uint32, n: nat) { Shl(w, n) == 0 }

  // Dropping bits.

  lemma {:induction false} ShlAdd(w: uint32, j: nat, k: nat)
    ensures Shl(w, j + k) == Shl(Shl(w, j), k)
    decreases j
  {
    if j > 0 {
      ShlAdd(Twice(w), j - 1, k);
    }
  }

  lemma {:induction false} TopSplit(w: uint32, k: nat, n: nat)
    requires k <= n
    ensures Top(w, n) == Top(w, k) + Top(Shl(w, k), n - k)
    decreases k
  {
    if k > 0 {
      TopSplit(Twice(w), k - 1, n - 1);
    }
  }

  /** `walker <<= k; walker_len -= k` drops the k oldest bits. */
  lemma Drop(w: uint32, k: nat, n: nat)
    requires k <= n && Holds(w, n)
    ensures Top(Shl(w, k), n - k) == Top(w, n)[k..]
    ensures Holds(Shl(w, k), n - k)
  {
    TopSplit(w, k, n);
    ShlAdd(w, k, n - k);
  }

  // Reading the top bits as a number.

  lemma Pow2Word(n: nat)
    requires n + 1 == 32
    ensures Pow2(n) == HALF && Pow2(n + 1) == WORD
  {
    assert Pow2(8) == 0x100;
    assert Pow2(16) == 0x1_0000;
    assert Pow2(24) == 0x100_0000;
    assert Pow2(31) == HALF;
  }

  lemma {:induction false} ShrBound(x: nat, j: nat, n: nat)
    requires x < Pow2(j + n)
    ensures 0 <= Shr(x, j) < Pow2(n)
    decreases j
  {
    if j > 0 {
      ShrBound(x / 2, j - 1, n);
    }
  }

  lemma {:induction false} ShrAddHigh(x: int, n: nat, j: nat)
    requires j <= n
    ensures Shr(x + Pow2(n), j) == Shr(x, j) + Pow2(n - j)
    decreases j
  {
    if j > 0 {
      assert (x + Pow2(n)) / 2 == x / 2 + Pow2(n - 1);
      ShrAddHigh(x / 2, n - 1, j - 1);
    }
  }

  /** `walker >> (32 - k)` reads the k top bits as a number. */
  lemma {:induction false} TopValue(w: uint32, k: nat, j: nat)
    requires j + k == 32
    ensures Shr(w, j) == Val(Top(w, k))
    decreases k
  {
    Pow2Word(j + k - 1);
    if k == 0 {
      ShrBound(w, j, 0);
    } else {
      TopValue(Twice(w), k - 1, j + 1);
      ValCons(Sign(w), Top(Twice(w), k - 1));
      if Sign(w) {
        assert Twice(w) / 2 == w - HALF;
        ShrAddHigh(w - HALF, j + k - 1, j);
      }
    }
  }

  /** C's `x & ~(-1 << k)`. */
  function LowBits(x: int, k: nat): nat
    decreases k
  {
    if k == 0 then 0 else 2 * LowBits(x / 2, k - 1) + x % 2
  }

  lemma {:induction false} LowBitsSmall(x: int, k: nat)
    requires 0 <= x < Pow2(k)
    ensures LowBits(x, k) == x && LowBits(x - Pow2(k), k) == x
    decreases k
  {
    if k > 0 {
      LowBitsSmall(x / 2, k - 1);
      assert (x - Pow2(k)) / 2 == x / 2 - Pow2(k - 1);
    }
  }

  /** Shifting the signed register and masking to k bits reads the same number. */
  lemma TopValueMasked(w: uint32, k: nat, j: nat)
    requires j + k == 32
    ensures LowBits(Shr(Signed(w), j), k) == Val(Top(w, k))
  {
    TopValue(w, k, j);
    Pow2Word(j + k - 1);
    LowBitsSmall(Val(Top(w, k)), k);
    if Sign(w) {
      ShrAddHigh(w - WORD, j + k, j);
    }
  }

  // Loading an octet.

  lemma {:induction false} ShlBound(w: uint32, n: nat, k: nat)
    requires w < Pow2(n) && n + k <= 32
    ensures Shl(w, k) < Pow2(n + k) && Shr(Shl(w, k), k) == w
    decreases k
  {
    if k > 0 {
      Pow2Monotone(n, 31);
      Pow2Word(31);
      ShlBound(Twice(w), n + 1, k - 1);
      ShrLast(Shl(w, k), k - 1);
    }
  }

  lemma {:induction false} ShrLast(x: int, k: nat)
    ensures Shr(x, k + 1) == Shr(x, k) / 2
    decreases k
  {
    if k > 0 {
      ShrLast(x / 2, k - 1);
    }
  }

  /** 2^k divides x. */
  ghost predicate Even(x: nat, k: nat)
  {
    k == 0 || (x % 2 == 0 && Even(x / 2, k - 1))
  }

  lemma {:induction false} EvenHigh(x: nat, n: nat, k: nat)
    requires k <= n && x >= Pow2(n) && Even(x, k)
    ensures Even(x - Pow2(n), k)
    decreases k
  {
    if k > 0 {
      assert x / 2 >= Pow2(n - 1) && (x - Pow2(n)) / 2 == x / 2 - Pow2(n - 1);
      EvenHigh(x / 2, n - 1, k - 1);
    }
  }

  lemma {:induction false} ShlEven(w: uint32, j: nat, k: nat)
    requires Even(w, j) && j + k <= 32
    ensures Even(Shl(w, k), j + k)
    decreases k
  {
    if k > 0 {
      if Sign(w) {
        Pow2Word(31);
        EvenHigh(w, 31, j);
        assert Twice(w) / 2 == w - HALF;
      }
      ShlEven(Twice(w), j + 1, k - 1);
    }
  }

  lemma {:induction false} EvenSmall(x: nat, k: nat)
    requires Even(x, k) && x < Pow2(k)
    ensures x == 0
    decreases k
  {
    if k > 0 {
      EvenSmall(x / 2, k - 1);
    }
  }

  lemma ShlOut(w: uint32, n: nat)
    requires n == 32
    ensures Shl(w, n) == 0
  {
    ShlEven(w, 0, n);
    Pow2Word(n - 1);
    EvenSmall(Shl(w, n), n);
  }

  lemma WordBound(n: nat)
    requires n <= 32
    ensures Pow2(n) <= WORD
  {
    Pow2Monotone(n, 32);
    Pow2Word(31);
  }

  lemma LoadEmpty(b: nat, m: nat, k: nat)
    requires k + m == 32 && m > 0 && b < Pow2(m)
    ensures b < WORD && Top(Shl(b, k), m) == Digits(b, m) && Holds(Shl(b, k), m)
  {
    WordBound(m);
    ShlBound(b, m, k);
    var w := Shl(b, k);
    TopValue(w, m, k);
    DigitsOfVal(Top(w, m));
    ShlAdd(b, k, m);
    ShlOut(b, k + m);
  }

  lemma {:induction false} OrBound(a: nat, b: nat, n: nat)
    requires a < Pow2(n) && b < Pow2(n)
    ensures Or(a, b) < Pow2(n)
    decreases n
  {
    if n > 0 {
      OrBound(a / 2, b / 2, n - 1);
    }
  }

  lemma OrBit(a: nat, b: nat)
    ensures Or(a, b) == 2 * Or(a / 2, b / 2) + if a % 2 == 1 || b % 2 == 1 then 1 else 0
  {
  }

  lemma OrNone(a: nat)
    ensures Or(a, 0) == a == Or(0, a)
  {
  }

  lemma {:induction false} OrHigh(a: nat, b: nat, n: nat)
    requires a < Pow2(n) && b < Pow2(n)
    ensures Or(Pow2(n) + a, b) == Pow2(n) + Or(a, b) == Or(b, Pow2(n) + a)
    decreases n
  {
    hide Or;
    var c := Pow2(n) + a;
    OrSymmetric(c, b);
    OrBit(a, b);
    OrBit(c, b);
    if n == 0 {
      OrNone(c);
      OrNone(0);
    } else {
      OrHigh(a / 2, b / 2, n - 1);
      assert c / 2 == Pow2(n - 1) + a / 2 && c % 2 == a % 2;
    }
  }

  lemma {:induction false} OrSymmetric(a: nat, b: nat)
    ensures Or(a, b) == Or(b, a)
  {
    if a != 0 && b != 0 {
      OrSymmetric(a / 2, b / 2);
    }
  }

  lemma OrTwice(a: nat, b: nat)
    ensures Or(2 * a, 2 * b) == 2 * Or(a, b)
  {
  }

  /** Below the sign bit, or-ing commutes with the shift. */
  lemma OrStep(w: uint32, x: uint32)
    requires !Sign(x)
    ensures var v := Or(w, x);
            v < WORD && Sign(v) == Sign(w) && Twice(v) == Or(Twice(w), Twice(x))
  {
    Pow2Word(31);
    var low := if Sign(w) then w - HALF else w;
    OrBound(low, x, 31);
    if Sign(w) {
      OrHigh(low, x, 31);
    }
    OrTwice(low, x);
  }

  lemma NothingHeld(w: uint32)
    requires Holds(w, 0)
    ensures w == 0 && Top(w, 0) == []
  {
  }

  lemma NoSign(x: uint32)
    ensures x < HALF ==> !Sign(x)
  {
  }

  lemma ShlOnce(x: uint32)
    ensures Shl(x, 1) == Twice(x)
  {
  }

  lemma OneLess(w: uint32, n: nat)
    requires n > 0
    ensures Top(w, n) == [Sign(w)] + Top(Twice(w), n - 1) && Holds(w, n) == Holds(Twice(w), n - 1)
  {
  }

  lemma {:induction false} LoadBits(w: uint32, n: nat, b: uint32, m: nat, k: nat)
    requires n + m + k == 32 && m > 0 && b < Pow2(m) && Holds(w, n)
    ensures var v := Or(w, Shl(b, k));
            v < WORD && Top(v, n + m) == Top(w, n) + Digits(b, m) && Holds(v, n + m)
    decreases n
  {
    hide Or, Pow2, Digits, Top, Shl, Holds, Sign, Twice;
    var x := Shl(b, k);
    if n == 0 {
      LoadEmpty(b, m, k);
      NothingHeld(w);
      OrNone(x);
      assert [] + Digits(b, m) == Digits(b, m);
    } else {
      ShlBound(b, m, k);
      Pow2Monotone(m + k, n + m + k - 1);
      Pow2Word(n + m + k - 1);
      NoSign(x);
      OrStep(w, x);
      ShlAdd(b, k, 1);
      ShlOnce(x);
      OneLess(w, n);
      LoadBits(Twice(w), n - 1, b, m, k + 1);
      OneLess(Or(w, x), n + m);
      var top, rest := [Sign(w)], Top(Twice(w), n - 1);
      assert top + (rest + Digits(b, m)) == (top + rest) + Digits(b, m);
    }
  }

  /** `walker |= byte << (24 - walker_len); walker_len += 8` appends an octet. */
  lemma Load(w: uint32, n: nat, b: byte)
    requires n <= 24 && Holds(w, n)
    ensures var v := Or(w, Shl(b, 24 - n));
            v < WORD && Top(v, n + 8) == Top(w, n) + Octet(b) && Holds(v, n + 8)
  {
    Pow2Octet();
    LoadBits(w, n, b, 8, 24 - n);
  }
}
