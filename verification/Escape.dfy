/** Strings with their control characters and percent signs written as %XX, and back, in buffers. */
module Escape {
  import opened Bits
  import opened Wrappers

  /** C strings: no zero among the characters. */
  predicate Text(s: seq<byte>) { forall i :: 0 <= i < |s| ==> s[i] != 0 }

  const PERCENT: byte := 37

  predicate Special(c: byte) { c < 32 || c == PERCENT }

  /** An upper-case hexadecimal digit. */
  function Digit(d: nat): byte
    requires d < 16
  {
    if d < 10 then 48 + d else 55 + d
  }

  function DigitValue(c: byte): (d: int)
    ensures -1 <= d < 16
  {
    if 48 <= c <= 57 then c - 48 else if 65 <= c <= 70 then c - 55 else if 97 <= c <= 102 then c - 87 else -1
  }

  lemma DigitRoundTrip(d: nat)
    requires d < 16
    ensures DigitValue(Digit(d)) == d
  {
  }

  function Encoded(c: byte): (s: seq<byte>)
    ensures |s| == if Special(c) then 3 else 1
  {
    if Special(c) then [PERCENT, Digit(c / 16), Digit(c % 16)] else [c]
  }

  /** The escaped string. */
  function Escaped(s: seq<byte>): seq<byte>
  {
    if s == [] then [] else Encoded(s[0]) + Escaped(s[1..])
  }

  function Count(s: seq<byte>): nat
  {
    if s == [] then 0 else (if Special(s[0]) then 1 else 0) + Count(s[1..])
  }

  lemma {:induction false} EscapedLength(s: seq<byte>)
    ensures |Escaped(s)| == |s| + 2 * Count(s)
  {
    if s != [] {
      EscapedLength(s[1..]);
    }
  }

  /** The string with its terminator. */
  function Terminated(s: seq<byte>): seq<byte> { s + [0] }

  /** The counting loop: it looks at the character behind the one it has just tested, so it passes
      over the first character and counts the terminator. */
  method CountLoop(str: seq<byte>) returns (cnt: nat)
    requires Text(str)
    ensures cnt == if str == [] then 0 else Count(str[1..]) + 1
  {
    var t := Terminated(str);
    cnt := 0;
    var p := 0;
    while t[p] != 0
      invariant p <= |str|
      invariant p < |str| ==> cnt == Count(str[1..]) - Count(str[p + 1..])
      invariant p == |str| ==> cnt == if str == [] then 0 else Count(str[1..]) + 1
      decreases |str| - p
    {
      p := p + 1;
      if Special(t[p]) {
        cnt := cnt + 1;
      }
      if p < |str| {
        assert str[p..][0] == str[p] && str[p..][1..] == str[p + 1..];
      } else {
        assert str[p..] == [] && str[|str|..] == [];
      }
    }
  }

  /** What the loop counts is enough, for every string. */
  lemma CountSuffices(s: seq<byte>)
    requires s != []
    ensures |Escaped(s)| + 1 <= |s| + 3 * (Count(s[1..]) + 1) + 1
  {
    EscapedLength(s);
  }

  /** strdup */
  method Duplicate(str: seq<byte>) returns (e: array<byte>)
    ensures fresh(e) && e[..] == Terminated(str)
  {
    e := new byte[|str| + 1](i requires 0 <= i => if i < |str| then str[i] else 0);
  }

  /** One character, as it is or as three. */
  method PutEncoded(e: array<byte>, pe: nat, c: byte) returns (next: nat)
    requires pe + |Encoded(c)| <= e.Length
    modifies e
    ensures next == pe + |Encoded(c)| && e[..next] == old(e[..pe]) + Encoded(c) && e[next..] == old(e[next..])
  {
    if Special(c) {
      var esc := [PERCENT, Digit(c / 16), Digit(c % 16)];
      e[pe] := esc[0];
      e[pe + 1] := esc[1];
      e[pe + 2] := esc[2];
      next := pe + 3;
    } else {
      e[pe] := c;
      next := pe + 1;
    }
  }

  /** The next character of what is still to be escaped. */
  lemma Next(done: seq<byte>, str: seq<byte>, p: nat)
    requires p < |str|
    ensures done + Encoded(str[p]) + Escaped(str[p + 1..]) == done + Escaped(str[p..])
    ensures |Escaped(str[p..])| == |Encoded(str[p])| + |Escaped(str[p + 1..])|
  {
    assert str[p..][1..] == str[p + 1..];
  }

  lemma Zeros(a: seq<byte>, b: seq<byte>, at: nat, next: nat)
    requires at <= next <= |a| == |b| && a[next..] == b[next..] && forall i :: at <= i < |a| ==> a[i] == 0
    ensures forall i :: next <= i < |b| ==> b[i] == 0
  {
    forall i | next <= i < |b| ensures b[i] == 0 {
      assert b[next..][i - next] == a[next..][i - next];
    }
  }

  /** utils_string_escape: the string in a new buffer, ended by a zero. Every store is in bounds. */
  method StringEscape(str: seq<byte>) returns (e: array<byte>)
    requires Text(str)
    ensures fresh(e) && Escaped(str) + [0] <= e[..]
  {
    hide Escaped, Encoded, Text, Count;
    var cnt := CountLoop(str);
    if cnt == 0 {
      e := Duplicate(str);
      EscapedEmpty();
      return;
    }
    CountSuffices(str);
    var es := |str| + 3 * cnt + 1;
    e := new byte[es](i => 0);
    var p: nat, pe: nat := 0, 0;
    ghost var all := Escaped(str);
    assert str[0..] == str && e[..0] + all == all;
    while p < |str|
      invariant p <= |str| && pe + |Escaped(str[p..])| == |all| < es == e.Length
      invariant e[..pe] + Escaped(str[p..]) == all
      invariant forall i :: pe <= i < es ==> e[i] == 0
    {
      Next(e[..pe], str, p);
      ghost var was, at := e[..], pe;
      pe := PutEncoded(e, pe, str[p]);
      Zeros(was, e[..], at, pe);
      p := p + 1;
    }
    assert str[p..] == [];
    EscapedEmpty();
    assert e[..pe + 1] == e[..pe] + [0];
  }

  lemma EscapedEmpty()
    ensures Escaped([]) == []
  {
  }

  // And back.

  /** What the scan for a percent sign and two hexadecimal digits finds: the value, nothing, or a
      field it reads in some other way (one digit, a sign, white space). */
  datatype Field = Two(value: byte) | Nothing | Other

  predicate Lead(c: byte) { DigitValue(c) >= 0 || c == 43 || c == 45 || c == 32 || 9 <= c <= 13 }

  function ScanField(s: seq<byte>): Field
    requires s != []
  {
    if |s| >= 3 && DigitValue(s[1]) >= 0 && DigitValue(s[2]) >= 0 then Two(16 * DigitValue(s[1]) + DigitValue(s[2]))
    else if |s| == 1 || !Lead(s[1]) then Nothing
    else Other
  }

  function Cons(c: byte, r: Option<seq<byte>>): Option<seq<byte>>
  {
    if r.Some? then Some([c] + r.value) else None
  }

  /** The unescaped string, where the scan's other readings do not come into play. */
  function Unescaped(s: seq<byte>): (r: Option<seq<byte>>)
    ensures r.Some? ==> |r.value| <= |s|
  {
    if s == [] then Some([])
    else if s[0] != PERCENT then Cons(s[0], Unescaped(s[1..]))
    else
      match ScanField(s)
      case Two(v) => Cons(v, Unescaped(s[3..]))
      case Nothing => Cons(s[0], Unescaped(s[1..]))
      case Other => None
  }

  lemma UnescapeOne(c: byte, rest: seq<byte>)
    ensures Unescaped(Encoded(c) + rest) == Cons(c, Unescaped(rest))
  {
    var s := Encoded(c) + rest;
    if Special(c) {
      DigitRoundTrip(c / 16);
      DigitRoundTrip(c % 16);
      assert s[0] == PERCENT && s[1] == Digit(c / 16) && s[2] == Digit(c % 16) && s[3..] == rest;
    } else {
      assert s[0] == c && s[1..] == rest;
    }
  }

  /** Escaping and unescaping gives back every string. */
  lemma {:induction false} EscapeRoundTrip(s: seq<byte>)
    ensures Unescaped(Escaped(s)) == Some(s)
  {
    if s != [] {
      EscapeRoundTrip(s[1..]);
      UnescapeOne(s[0], Escaped(s[1..]));
      assert s == [s[0]] + s[1..];
    }
  }

  /** A hexadecimal digit of either case, and what it stands for. */
  predicate IsDigit(c: byte, d: nat)
    requires d < 16
  {
    c == "0123456789ABCDEF"[d] as int || c == "0123456789abcdef"[d] as int
  }

  /** The characters below the space and the percent sign are written as a percent sign and their two
      digits in upper case, the high one first; all others as they are. */
  lemma EncodedMeans(c: byte)
    ensures Encoded(c) == if c < 32 || c == '%' as int then
                            ['%' as int, "0123456789ABCDEF"[c / 16] as int, "0123456789ABCDEF"[c % 16] as int]
                          else [c]
  {
    DigitIs(c / 16);
    DigitIs(c % 16);
  }

  lemma DigitIs(d: nat)
    requires d < 16
    ensures Digit(d) == "0123456789ABCDEF"[d] as int
  {
  }

  lemma DigitValueIs(c: byte)
    ensures DigitValue(c) >= 0 ==> IsDigit(c, DigitValue(c))
    ensures DigitValue(c) < 0 ==> forall d: nat :: d < 16 ==> !IsDigit(c, d)
    ensures forall d: nat :: d < 16 && IsDigit(c, d) ==> d == DigitValue(c)
  {
  }

  /** An escaped string holds nothing below the space, and no percent sign but those that escape. */
  lemma {:induction false} EscapedIsPrintable(s: seq<byte>)
    ensures forall i :: 0 <= i < |Escaped(s)| ==> Escaped(s)[i] >= 32
  {
    if s != [] {
      EscapedIsPrintable(s[1..]);
    }
  }

  lemma PairScanned(s: seq<byte>)
    requires |s| >= 3 && DigitValue(s[1]) >= 0 && DigitValue(s[2]) >= 0
    ensures ScanField(s) == Two(16 * DigitValue(s[1]) + DigitValue(s[2]))
  {
  }

  /** What is read back: a percent sign and two digits as the character they stand for. */
  lemma UnescapedPair(x: byte, y: byte, high: nat, low: nat, rest: seq<byte>)
    requires high < 16 && low < 16 && IsDigit(x, high) && IsDigit(y, low)
    ensures var after := Unescaped(rest);
            Unescaped(['%' as int, x, y] + rest) == if after.Some? then Some([16 * high + low] + after.value) else None
  {
    DigitValueIs(x);
    DigitValueIs(y);
    hide IsDigit, DigitValue, Unescaped;
    var s := ['%' as int, x, y] + rest;
    PairScanned(s);
    hide ScanField;
    assert s[3..] == rest;
    UnescapedAt(s);
  }

  /** Every other character, and a percent sign at the end, as itself. */
  lemma UnescapedPlain(c: byte, rest: seq<byte>)
    requires c != '%' as int || rest == []
    ensures var after := Unescaped(rest);
            Unescaped([c] + rest) == if after.Some? then Some([c] + after.value) else None
    ensures Unescaped([]) == Some([])
  {
    var s := [c] + rest;
    assert s[0] == c && s[1..] == rest;
    if c == 37 {
      UnescapedAt(s);
    }
  }

  ghost predicate Hexadecimal(c: byte) { exists d: nat :: d < 16 && IsDigit(c, d) }

  lemma HexadecimalIs(c: byte)
    ensures Hexadecimal(c) <==> DigitValue(c) >= 0
  {
    hide DigitValue, IsDigit;
    DigitValueIs(c);
  }

  /** Behind a percent sign white space, a sign or a single digit may be the beginning of a number in
      another form; before anything else, as at the end, the percent sign is an ordinary character. */
  lemma OtherForms(c: byte, rest: seq<byte>)
    ensures var begins := 9 <= c <= 13 || c == ' ' as int || c == '+' as int || c == '-' as int || Hexadecimal(c);
            var s, after := ['%' as int, c] + rest, Unescaped([c] + rest);
            && (!begins ==> Unescaped(s) == if after.Some? then Some(['%' as int] + after.value) else None)
            && (begins && !(Hexadecimal(c) && rest != [] && Hexadecimal(rest[0])) ==> Unescaped(s).None?)
  {
    HexadecimalIs(c);
    if rest != [] {
      HexadecimalIs(rest[0]);
    }
    hide Hexadecimal, DigitValue;
    var s := ['%' as int, c] + rest;
    assert s[0] == 37 && s[1] == c && s[1..] == [c] + rest && (rest != [] ==> s[2] == rest[0]);
    UnescapedAt(s);
  }

  lemma UnescapedAt(s: seq<byte>)
    requires s != [] && s[0] == 37
    ensures Unescaped(s) == match ScanField(s)
                            case Two(v) => Cons(v, Unescaped(s[3..]))
                            case Nothing => Cons(s[0], Unescaped(s[1..]))
                            case Other => None
  {
  }

  /** utils_string_unescape: in the copy of the string, the reading place ahead of the writing place. */
  method StringUnescape(str: seq<byte>) returns (ns: array<byte>, ok: bool)
    requires Text(str)
    ensures fresh(ns) && ok == Unescaped(str).Some?
    ensures ok ==> Unescaped(str).value + [0] <= ns[..]
  {
    hide Text, Unescaped, ScanField;
    ns := Duplicate(str);
    var ps: nat, pd: nat := 0, 0;
    ok := true;
    ghost var all := Unescaped(str);
    assert str[0..] == str && (all.Some? ==> ns[..0] + all.value == all.value);
    while ps < |str|
      invariant pd <= ps <= |str| && ns.Length == |str| + 1 && ns[ps..] == Terminated(str)[ps..]
      invariant all == Join(ns[..pd], Unescaped(str[ps..]))
      decreases |str| - ps
    {
      Ahead(ns[..], str, ps);
      var c := ns[ps];
      var f := if c == PERCENT then ScanField(str[ps..]) else Nothing;
      if f.Other? {
        UnescapedAt(str[ps..]);
        return ns, false;
      }
      var v, n := if f.Two? then f.value else c, if f.Two? then 3 else 1;
      JoinStep(ns[..pd], str, ps, v, n);
      ghost var was, before := ns[..], ns[..pd];
      ns[pd] := v;
      assert ns[..pd + 1] == before + [v];
      Further(was, ns[..], str, ps, pd, n);
      ps := ps + n;
      pd := pd + 1;
    }
    assert str[ps..] == [];
    UnescapedPlain(0, []);
    ghost var done := ns[..pd];
    ns[pd] := 0;
    assert ns[..pd + 1] == done + [0];
  }

  function Join(a: seq<byte>, r: Option<seq<byte>>): Option<seq<byte>>
  {
    if r.Some? then Some(a + r.value) else None
  }

  lemma Ahead(ns: seq<byte>, str: seq<byte>, ps: nat)
    requires ps < |str| && |ns| == |str| + 1 && ns[ps..] == Terminated(str)[ps..]
    ensures ns[ps] == str[ps]
  {
    assert ns[ps..][0] == Terminated(str)[ps..][0];
  }

  lemma JoinStep(done: seq<byte>, str: seq<byte>, ps: nat, v: byte, n: nat)
    requires ps < |str|
    requires var f := if str[ps] == PERCENT then ScanField(str[ps..]) else Nothing;
             !f.Other? && v == (if f.Two? then f.value else str[ps]) && n == if f.Two? then 3 else 1
    ensures ps + n <= |str| && Join(done + [v], Unescaped(str[ps + n..])) == Join(done, Unescaped(str[ps..]))
  {
    var s := str[ps..];
    assert s[0] == str[ps] && s[1..] == str[ps + 1..];
    if n == 3 {
      assert s[3..] == str[ps + 3..];
    }
    var r := Unescaped(str[ps + n..]);
    assert Unescaped(s) == Cons(v, r);
    if r.Some? {
      assert done + [v] + r.value == done + ([v] + r.value);
    }
  }

  lemma Further(a: seq<byte>, b: seq<byte>, str: seq<byte>, ps: nat, pd: nat, n: nat)
    requires pd <= ps < |a| == |b| && ps + n <= |a| && n >= 1 && |a| == |str| + 1 && a[ps..] == Terminated(str)[ps..]
    requires forall i :: pd < i < |a| ==> a[i] == b[i]
    ensures b[ps + n..] == Terminated(str)[ps + n..]
  {
    forall i | ps + n <= i < |b| ensures b[i] == Terminated(str)[i] {
      assert a[i] == a[ps..][i - ps] == Terminated(str)[ps..][i - ps];
    }
  }
}
