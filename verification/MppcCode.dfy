/** The MPPC bit code: what the bits of a packet mean (`Next`) and how a compressor writes
    them (`Encode`), for the 8K history of RFC 2118 section 4 and the 64K history. */
module MppcCode {
  import opened Bits

  /** A literal byte, or a copy of `len` bytes from `off` bytes back. */
  datatype Token = Lit(b: byte) | Copy(off: nat, len: nat)

  /** A number read from the front of a bit string and the bits it took. */
  datatype Field = Short | Field(value: nat, size: nat)

  /** What stands at the front of a bit string. */
  datatype Item = End | Bad | Item(token: Token, size: nat)

  /** A class of code words: a prefix, then `width` bits counting up from `base`. */
  datatype Form = Form(prefix: seq<bool>, width: nat, base: nat)

  function ReadForm(s: seq<bool>, f: Form): (x: Field)
    ensures x.Field? ==> x.size == |f.prefix| + f.width <= |s|
  {
    var skip := |f.prefix|;
    if |s| < skip + f.width then Short else Field(f.base + Val(s[skip..skip + f.width]), skip + f.width)
  }

  function WriteForm(f: Form, v: nat): (s: seq<bool>)
    requires v >= f.base
    ensures |s| == |f.prefix| + f.width
  {
    f.prefix + Digits(v - f.base, f.width)
  }

  const NEAR_BIG := Form([true, true, true], 6, 0)
  const MID_BIG := Form([true, true, false], 8, 64)
  const FAR_BIG := Form([true, false], 11, 320)
  const LAST_BIG := Form([false], 16, 2368)
  const NEAR := Form([true, true], 6, 0)
  const MID := Form([true, false], 8, 64)
  const LAST := Form([false], 13, 320)

  // Decoding.

  /** The form of the offset in front of s. */
  function OffsetFormAt(s: seq<bool>, big: bool): Form
    requires |s| >= if big then 3 else 2
  {
    if big then
      if s[0] && s[1] && s[2] then NEAR_BIG else if s[0] && s[1] then MID_BIG else if s[0] then FAR_BIG else LAST_BIG
    else
      if s[0] && s[1] then NEAR else if s[0] then MID else LAST
  }

  /** The offset after the prefix 11. */
  function ReadOffset(s: seq<bool>, big: bool): (f: Field)
    ensures f.Field? ==> 0 < f.size <= |s|
  {
    if |s| < (if big then 3 else 2) then Short else ReadForm(s, OffsetFormAt(s, big))
  }

  function LeadingOnes(s: seq<bool>): (n: nat)
    ensures n <= |s| && (forall i :: 0 <= i < n ==> s[i]) && (n < |s| ==> !s[n])
  {
    if s == [] || !s[0] then 0 else 1 + LeadingOnes(s[1..])
  }

  /** The longest run of ones a length may start with. */
  function MaxOnes(big: bool): nat { if big then 14 else 11 }

  function LengthForm(ones: nat): Form { Form(Ones(ones) + [false], ones + 1, Pow2(ones + 1)) }

  /** The length of match: 0 is three, and n ones, a zero and n + 1 bits v are 2^(n+1) + v. */
  function ReadLength(s: seq<bool>, big: bool): (f: Field)
    ensures f.Field? ==> 0 < f.size <= |s| && f.value >= 3
  {
    var n := LeadingOnes(s);
    if n == |s| || n > MaxOnes(big) then Short
    else if n == 0 then Field(3, 1)
    else ReadForm(s, LengthForm(n))
  }

  /** A copy after its two leading ones. */
  function ReadCopy(t: seq<bool>, big: bool): (x: Item)
    ensures x.Item? ==> 2 < x.size <= 2 + |t| && x.token.Copy? && x.token.len >= 3
  {
    var off := ReadOffset(t, big);
    if off.Short? then Bad
    else
      var len := ReadLength(t[off.size..], big);
      if len.Short? then Bad else Item(Copy(off.value, len.value), 2 + off.size + len.size)
  }

  /** The first item of a bit string; fewer than eight zeros are the padding of the last octet. */
  function Next(s: seq<bool>, big: bool): (x: Item)
    ensures x.Item? ==> 0 < x.size <= |s| && (x.token.Copy? ==> x.token.len >= 3)
  {
    if s == [] then End
    else if !s[0] then
      if |s| >= 8 then Item(Lit(OctetOf(s[..8])), 8)
      else if Zeros(s) then End
      else Bad
    else if |s| == 1 then Bad
    else if !s[1] then
      if |s| >= 9 then Item(Lit(OctetOf([true] + s[2..9])), 9) else Bad
    else ReadCopy(s[2..], big)
  }

  // Encoding.

  /** The tokens the code has words for. */
  predicate Codable(t: Token, big: bool)
  {
    t.Copy? ==> t.off < (if big then 2368 + 65536 else 320 + 8192) && 3 <= t.len < (if big then 65536 else 8192)
  }

  function OffsetForm(off: nat, big: bool): (f: Form)
    ensures off >= f.base
  {
    if big then
      if off < 64 then NEAR_BIG else if off < 320 then MID_BIG else if off < 2368 then FAR_BIG else LAST_BIG
    else
      if off < 64 then NEAR else if off < 320 then MID else LAST
  }

  function WriteOffset(off: nat, big: bool): seq<bool> { WriteForm(OffsetForm(off, big), off) }

  /** The exponent of the largest power of two that is at most n. */
  function Log2(n: nat): (k: nat)
    requires n > 0
    ensures Pow2(k) <= n < Pow2(k + 1)
  {
    if n == 1 then 0 else 1 + Log2(n / 2)
  }

  function LengthOnes(len: nat): (n: nat)
    requires len > 3
    ensures Pow2(n + 1) <= len < Pow2(n + 2) && n > 0
  {
    assert Pow2(2) == 4;
    Log2(len) - 1
  }

  function WriteLength(len: nat): seq<bool>
    requires len >= 3
  {
    if len == 3 then [false]
    else WriteForm(LengthForm(LengthOnes(len)), len)
  }

  function Encode(t: Token, big: bool): (s: seq<bool>)
    requires Codable(t, big)
    ensures |s| > 0
  {
    match t
    case Lit(b) => if b < 128 then Octet(b) else [true, false] + Octet(b)[1..]
    case Copy(off, len) => [true, true] + WriteOffset(off, big) + WriteLength(len)
  }

  // Sequence algebra.

  lemma Assoc<T>(a: seq<T>, b: seq<T>, c: seq<T>)
    ensures a + b + c == a + (b + c)
  {
  }

  lemma DropPrefix<T>(a: seq<T>, b: seq<T>)
    ensures (a + b)[|a|..] == b && (a + b)[..|a|] == a
  {
  }

  lemma TakeSplit<T>(s: seq<T>, j: nat, k: nat)
    requires j + k <= |s|
    ensures s[..j + k] == s[..j] + s[j..][..k]
  {
  }

  // The code is a prefix code and Next inverts it.

  lemma Pow2Values()
    ensures Pow2(1) == 2 && Pow2(2) == 4 && Pow2(6) == 64 && Pow2(8) == 256 && Pow2(11) == 2048
    ensures Pow2(12) == 4096 && Pow2(13) == 8192 && Pow2(15) == 32768 && Pow2(16) == 65536
  {
    assert Pow2(6) == 64;
    assert Pow2(11) == 2048;
    assert Pow2(13) == 8192;
  }

  lemma FormRoundTrip(f: Form, v: nat, rest: seq<bool>)
    requires f.base <= v < f.base + Pow2(f.width)
    ensures ReadForm(WriteForm(f, v) + rest, f) == Field(v, |WriteForm(f, v)|)
  {
    hide Digits, Val, Pow2;
    var s := WriteForm(f, v) + rest;
    assert s[|f.prefix|..|f.prefix| + f.width] == Digits(v - f.base, f.width);
    ValOfDigits(v - f.base, f.width);
  }

  lemma FormWritten(s: seq<bool>, f: Form)
    requires ReadForm(s, f).Field? && f.prefix <= s
    ensures var x := ReadForm(s, f);
            f.base <= x.value < f.base + Pow2(f.width) && s[..x.size] == WriteForm(f, x.value)
  {
    hide Digits, Val, Pow2;
    var skip := |f.prefix|;
    DigitsOfVal(s[skip..skip + f.width]);
    assert s[..skip + f.width] == s[..skip] + s[skip..skip + f.width];
  }

  lemma FormFound(f: Form, rest: seq<bool>, big: bool)
    requires f in if big then {NEAR_BIG, MID_BIG, FAR_BIG, LAST_BIG} else {NEAR, MID, LAST}
    requires |rest| >= f.width
    ensures OffsetFormAt(f.prefix + rest, big) == f
  {
  }

  lemma OffsetRoundTrip(off: nat, big: bool, rest: seq<bool>)
    requires off < if big then 2368 + 65536 else 320 + 8192
    ensures ReadOffset(WriteOffset(off, big) + rest, big) == Field(off, |WriteOffset(off, big)|)
  {
    Pow2Values();
    var f := OffsetForm(off, big);
    FormRoundTrip(f, off, rest);
    Assoc(f.prefix, Digits(off - f.base, f.width), rest);
    FormFound(f, Digits(off - f.base, f.width) + rest, big);
  }

  lemma OffsetWritten(s: seq<bool>, big: bool)
    requires ReadOffset(s, big).Field?
    ensures var x := ReadOffset(s, big);
            x.value < (if big then 2368 + 65536 else 320 + 8192) && WriteOffset(x.value, big) == s[..x.size]
  {
    Pow2Values();
    FormWritten(s, OffsetFormAt(s, big));
  }

  lemma {:induction false} OnesCounted(n: nat, rest: seq<bool>)
    ensures LeadingOnes(Ones(n) + [false] + rest) == n
  {
    var s := Ones(n) + [false] + rest;
    if n > 0 {
      assert s[1..] == Ones(n - 1) + [false] + rest;
      OnesCounted(n - 1, rest);
    }
  }

  lemma OnesRange(len: nat, big: bool)
    requires 3 < len < if big then 65536 else 8192
    ensures 1 <= LengthOnes(len) <= MaxOnes(big)
  {
    Pow2Values();
    if LengthOnes(len) > MaxOnes(big) {
      Pow2Monotone(MaxOnes(big) + 2, LengthOnes(len) + 1);
    }
  }

  lemma LengthRoundTrip(len: nat, big: bool, rest: seq<bool>)
    requires 3 <= len < if big then 65536 else 8192
    ensures ReadLength(WriteLength(len) + rest, big) == Field(len, |WriteLength(len)|)
  {
    if len > 3 {
      var n := LengthOnes(len);
      var f := LengthForm(n);
      OnesRange(len, big);
      FormRoundTrip(f, len, rest);
      var d := Digits(len - f.base, f.width);
      OnesCounted(n, d + rest);
      assert WriteForm(f, len) + rest == Ones(n) + [false] + (d + rest);
    }
  }

  lemma {:induction false} Pow2Unique(n: nat, j: nat, k: nat)
    requires Pow2(j) <= n < Pow2(j + 1) && Pow2(k) <= n < Pow2(k + 1)
    ensures j == k
  {
    if j < k {
      Pow2Monotone(j + 1, k);
    } else if k < j {
      Pow2Monotone(k + 1, j);
    }
  }

  lemma LengthWritten(s: seq<bool>, big: bool)
    requires ReadLength(s, big).Field?
    ensures var x := ReadLength(s, big);
            3 <= x.value < (if big then 65536 else 8192) && WriteLength(x.value) == s[..x.size]
  {
    hide LeadingOnes, Digits, Val;
    var n := LeadingOnes(s);
    if n > 0 {
      Pow2Values();
      hide Pow2;
      assert s[..n + 1] == Ones(n) + [false];
      FormWritten(s, LengthForm(n));
      Pow2Monotone(2, n + 1);
      Pow2Monotone(n + 2, MaxOnes(big) + 2);
      var len := ReadLength(s, big).value;
      Pow2Unique(len, n + 1, LengthOnes(len) + 1);
    } else {
      assert s[..1] == [false];
    }
  }

  lemma LitRoundTrip(b: byte, big: bool, rest: seq<bool>)
    ensures var w := Encode(Lit(b), big); Next(w + rest, big) == Item(Lit(b), |w|)
  {
    var o := Octet(b);
    LitBits(b);
    OctetRoundTrip(b);
    if b < 128 {
      assert (o + rest)[..8] == o;
    } else {
      var s := [true, false] + o[1..] + rest;
      assert [true] + s[2..9] == o;
    }
  }

  lemma CopyRoundTrip(off: nat, len: nat, big: bool, rest: seq<bool>)
    requires Codable(Copy(off, len), big)
    ensures var w := WriteOffset(off, big) + WriteLength(len);
            ReadCopy(w + rest, big) == Item(Copy(off, len), 2 + |w|)
  {
    hide ReadOffset, ReadLength, WriteOffset, WriteLength;
    var o, l := WriteOffset(off, big), WriteLength(len);
    OffsetRoundTrip(off, big, l + rest);
    LengthRoundTrip(len, big, rest);
    Assoc(o, l, rest);
    DropPrefix(o, l + rest);
  }

  /** Whatever follows, the decoder reads back the token the compressor wrote and stops there. */
  lemma EncodeRoundTrip(t: Token, big: bool, rest: seq<bool>)
    requires Codable(t, big)
    ensures Next(Encode(t, big) + rest, big) == Item(t, |Encode(t, big)|)
  {
    hide ReadOffset, ReadLength, WriteOffset, WriteLength;
    match t
    case Lit(b) => LitRoundTrip(b, big, rest);
    case Copy(off, len) =>
      var w := WriteOffset(off, big) + WriteLength(len);
      CopyRoundTrip(off, len, big, rest);
      Assoc([true, true], WriteOffset(off, big), WriteLength(len));
      Assoc([true, true], w, rest);
      DropPrefix([true, true], w + rest);
  }

  /** The first bit of an octet says whether it is at least 128. */
  lemma LitBits(b: byte)
    ensures Octet(b)[0] == (b >= 128)
  {
    OctetRoundTrip(b);
    Pow2Octet();
    var o := Octet(b);
    ValCons(o[0], o[1..]);
    assert o == [o[0]] + o[1..];
  }

  lemma CopyWritten(t: seq<bool>, big: bool)
    requires ReadCopy(t, big).Item?
    ensures var x := ReadCopy(t, big);
            Codable(x.token, big) && [true, true] + t[..x.size - 2] == Encode(x.token, big)
  {
    var off := ReadOffset(t, big);
    var u := t[off.size..];
    var len := ReadLength(u, big);
    OffsetWritten(t, big);
    LengthWritten(u, big);
    TakeSplit(t, off.size, len.size);
    Assoc([true, true], t[..off.size], u[..len.size]);
  }

  lemma WideLitWritten(s: seq<bool>, big: bool)
    requires |s| >= 9 && s[0] && !s[1]
    ensures var b := OctetOf([true] + s[2..9]);
            s[..9] == Encode(Lit(b), big)
  {
    var o := [true] + s[2..9];
    LitWritten(o);
    assert s[..9] == [true, false] + o[1..];
  }

  /** The decoder accepts nothing but code words: the token it reads is spelt by the bits it took. */
  lemma NextWritten(s: seq<bool>, big: bool)
    requires Next(s, big).Item?
    ensures var x := Next(s, big);
            Codable(x.token, big) && s[..x.size] == Encode(x.token, big)
  {
    if !s[0] {
      LitWritten(s[..8]);
    } else if !s[1] {
      WideLitWritten(s, big);
    } else {
      var t := s[2..];
      CopyWritten(t, big);
      TakeSplit(s, 2, Next(s, big).size - 2);
      assert s[..2] == [true, true];
    }
  }

  lemma LitWritten(o: seq<bool>)
    requires |o| == 8
    ensures Octet(OctetOf(o)) == o && (OctetOf(o) >= 128) == o[0]
  {
    DigitsOfVal(o);
    LitBits(OctetOf(o));
  }

  /** The bits of a list of tokens. */
  function EncodeAll(ts: seq<Token>, big: bool): seq<bool>
    requires forall t <- ts :: Codable(t, big)
  {
    if ts == [] then [] else Encode(ts[0], big) + EncodeAll(ts[1..], big)
  }

  predicate Padding(s: seq<bool>) { |s| < 8 && Zeros(s) }
}
