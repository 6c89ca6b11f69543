/** The points of a polyline or polygon order: two presence bits for each, then the coordinates that
    are there as signed values of one or two bytes. */
module Deltas {
  import opened Bits
  import opened Wrappers

  /** A value and the place behind it. */
  datatype Delta = Delta(value: int, next: nat)

  /** parse_delta, or nothing where it would read beyond the buffer. */
  function ReadDelta(buf: seq<byte>, pos: nat): (r: Option<Delta>)
    ensures r.Some? ==> pos < r.value.next <= |buf|
  {
    if pos >= |buf| then None
    else
      var b: int := buf[pos];
      var value: int := if b % 128 >= 64 then b % 64 - 64 else b % 64;
      if b < 128 then Some(Delta(value, pos + 1))
      else if pos + 1 >= |buf| then None
      else Some(Delta(256 * value + buf[pos + 1], pos + 2))
  }

  /** The top bit of the first byte says that there is a second one; what is left, of 7 bits or of 15, is
      the value in two's complement. */
  lemma DeltaMeans(buf: seq<byte>, pos: nat)
    requires pos < |buf|
    ensures var b: int := buf[pos];
            && (b < 64 ==> ReadDelta(buf, pos) == Some(Delta(b, pos + 1)))
            && (64 <= b < 128 ==> ReadDelta(buf, pos) == Some(Delta(b - 0x80, pos + 1)))
            && (128 <= b && pos + 1 == |buf| ==> ReadDelta(buf, pos).None?)
            && (128 <= b && pos + 1 < |buf| ==>
                  var n := 0x100 * (b - 0x80) + buf[pos + 1];
                  ReadDelta(buf, pos) == Some(Delta(if n < 0x4000 then n else n - 0x8000, pos + 2)))
  {
  }

  /** A coordinate as it is sent: left out, in one byte or in two. */
  datatype Coord = Absent | Short(value: int) | Long(value: int)
  {
    predicate Sendable()
    {
      match this
      case Absent => true
      case Short(v) => -64 <= v < 64
      case Long(v) => -16384 <= v < 16384
    }

    function Value(): int { if Absent? then 0 else value }
  }

  /** The remainder of a value of either sign. */
  function Low7(v: int): nat
    requires -64 <= v < 64
  {
    if v < 0 then v + 128 else v
  }

  function WriteCoord(c: Coord): (s: seq<byte>)
    requires c.Sendable()
    ensures |s| == match c case Absent => 0 case Short(_) => 1 case Long(_) => 2
  {
    match c
    case Absent => []
    case Short(v) => [Low7(v)]
    case Long(v) => [128 + Low7(v / 256), v % 256]
  }

  /** Either form is read back, for every value it can carry. */
  lemma DeltaRoundTrip(buf: seq<byte>, pos: nat, c: Coord)
    requires c.Sendable() && !c.Absent? && Stands(buf, pos, WriteCoord(c))
    ensures ReadDelta(buf, pos) == Some(Delta(c.Value(), pos + |WriteCoord(c)|))
  {
    var s := WriteCoord(c);
    StandsFirst(buf, pos, s, 0);
    if c.Long? {
      StandsFirst(buf, pos, s, 1);
    }
  }

  /** Every value has a form; only zero can be left out. */
  function Shortest(v: int): (c: Coord)
    requires -16384 <= v < 16384
    ensures c.Sendable() && c.Value() == v && (c.Absent? <==> v == 0) && (c.Long? <==> v < -64 || 64 <= v)
  {
    if v == 0 then Absent else if -64 <= v < 64 then Short(v) else Long(v)
  }

  // The points.

  datatype Point = Point(x: int, y: int)

  datatype Points = Points(all: seq<Point>) | Broken | PastEnd

  /** The presence bits of the next point are the top two; set means absent. */
  predicate NoX(flags: byte) { flags >= 128 }

  predicate NoY(flags: byte) { flags % 128 >= 64 }

  /** `flags <<= 2` */
  function Up(flags: byte): byte
  {
    var v: int := flags;
    4 * v % 256
  }

  /** One coordinate, if it is there. */
  function ReadCoord(buf: seq<byte>, pos: nat, absent: bool): (r: Option<Delta>)
    ensures r.Some? ==> pos <= r.value.next && (r.value.next <= |buf| || r.value.next == pos)
  {
    if absent then Some(Delta(0, pos)) else ReadDelta(buf, pos)
  }

  /** The loop of the order, `done` having been read. */
  function Scan(buf: seq<byte>, size: nat, n: nat, done: seq<Point>, pos: nat, flags: byte): Points
    requires |done| <= n && size <= |buf|
    decreases n - |done|
  {
    var k := |done|;
    if k >= n || pos >= size then (if k == n then Points(done) else Broken)
    else if k % 4 == 0 && k / 4 >= |buf| then PastEnd
    else
      var f := if k % 4 == 0 then buf[k / 4] else flags;
      var x := ReadCoord(buf, pos, NoX(f));
      if x.None? then PastEnd
      else
        var y := ReadCoord(buf, x.value.next, NoY(f));
        if y.None? then PastEnd
        else Scan(buf, size, n, done + [Point(x.value.value, y.value.value)], y.value.next, Up(f))
  }

  /** Where the coordinates begin: behind two bits for each of n points. */
  function Start(n: nat): nat { if n == 0 then 1 else (n - 1) / 4 + 1 }

  /** The point loop of process_polyline: `next` counts from 1, `index` along the flag bytes. */
  method Parse(buf: seq<byte>, size: nat, n: nat) returns (r: Points)
    requires size <= |buf|
    ensures r == Scan(buf, size, n, [], Start(n), 0)
  {
    var points: seq<Point> := [];
    var flags: byte := 0;
    hide ReadDelta;
    var index, data: nat, next := 0, Start(n), 1;
    while next <= n && data < size
      invariant 1 <= next <= n + 1 && |points| == next - 1 && index == (next + 2) / 4
      invariant Scan(buf, size, n, points, data, flags) == Scan(buf, size, n, [], Start(n), 0)
      decreases n + 1 - next
    {
      if (next - 1) % 4 == 0 {
        if index >= |buf| {
          return PastEnd;
        }
        flags := buf[index];
        index := index + 1;
      }
      var x, y := 0, 0;
      if !NoX(flags) {
        var d := ReadDelta(buf, data);
        if d.None? {
          return PastEnd;
        }
        x, data := d.value.value, d.value.next;
      }
      if !NoY(flags) {
        var d := ReadDelta(buf, data);
        if d.None? {
          return PastEnd;
        }
        y, data := d.value.value, d.value.next;
      }
      points := points + [Point(x, y)];
      flags := Up(flags);
      next := next + 1;
    }
    r := if next - 1 == n then Points(points) else Broken;
  }

  // The sender's side.

  /** How each point is sent. */
  datatype Sent = Sent(x: Coord, y: Coord)
  {
    predicate Sendable() { x.Sendable() && y.Sendable() }
    function Bytes(): seq<byte>
      requires Sendable()
    {
      WriteCoord(x) + WriteCoord(y)
    }
    function Value(): Point { Point(x.Value(), y.Value()) }
    predicate There() { !x.Absent? || !y.Absent? }
  }

  ghost predicate AllSendable(ps: seq<Sent>) { forall i :: 0 <= i < |ps| ==> ps[i].Sendable() }

  /** The two presence bits of a point; no bits beyond the last one. */
  function Code(ps: seq<Sent>, k: nat): (c: nat)
    ensures c < 4
  {
    if k < |ps| then (if ps[k].x.Absent? then 2 else 0) + (if ps[k].y.Absent? then 1 else 0) else 0
  }

  function FlagByte(ps: seq<Sent>, k: nat): byte
  {
    64 * Code(ps, k) + 16 * Code(ps, k + 1) + 4 * Code(ps, k + 2) + Code(ps, k + 3)
  }

  /** The same after j points have been shifted out. */
  function Shifted(ps: seq<Sent>, k: nat, j: nat): byte
    requires j < 4
  {
    64 * Code(ps, k) + (if j < 3 then 16 * Code(ps, k + 1) else 0) + (if j < 2 then 4 * Code(ps, k + 2) else 0)
        + (if j < 1 then Code(ps, k + 3) else 0)
  }

  function FlagBytes(ps: seq<Sent>): (s: seq<byte>)
    ensures |s| == Start(|ps|) && forall g :: 0 <= g < |s| ==> s[g] == FlagByte(ps, 4 * g)
  {
    seq(Start(|ps|), g requires 0 <= g => FlagByte(ps, 4 * g))
  }

  /** Every byte of flags is for four points, two bits each from the top down: the first is set when x is
      left out, the second when y is. */
  lemma FlagBits(ps: seq<Sent>, g: nat, j: nat)
    requires j < 4 && 4 * g + j < |ps|
    ensures |FlagBytes(ps)| == (|ps| + 3) / 4 && g < |FlagBytes(ps)|
    ensures var b := FlagBytes(ps)[g];
            && (Bit(b, 7 - 2 * j) <==> ps[4 * g + j].x.Absent?) && (Bit(b, 6 - 2 * j) <==> ps[4 * g + j].y.Absent?)
  {
    hide Bit, Code;
    var k := 4 * g;
    TwoBits(Code(ps, k), Code(ps, k + 1), Code(ps, k + 2), Code(ps, k + 3), j);
    CodeIs(ps, k + j);
  }

  lemma CodeIs(ps: seq<Sent>, k: nat)
    requires k < |ps|
    ensures (Code(ps, k) >= 2 <==> ps[k].x.Absent?) && (Code(ps, k) % 2 == 1 <==> ps[k].y.Absent?)
  {
  }

  /** Bit pair j of four, from the top down. */
  lemma TwoBits(a: nat, b: nat, c: nat, d: nat, j: nat)
    requires a < 4 && b < 4 && c < 4 && d < 4 && j < 4
    ensures var v := 64 * a + 16 * b + 4 * c + d;
            var pair := if j == 0 then a else if j == 1 then b else if j == 2 then c else d;
            (Bit(v, 7 - 2 * j) <==> pair >= 2) && (Bit(v, 6 - 2 * j) <==> pair % 2 == 1)
  {
    var x := 4 * a + b;
    var y := 4 * x + c;
    assert 64 * a + 16 * b + 4 * c + d == 4 * y + d;
    var i := 6 - 2 * j;
    Quarter(y, d, i);
    if j < 3 {
      Quarter(x, c, i - 2);
    }
    if j < 2 {
      Quarter(a, b, i - 4);
    }
    if j < 1 {
      Quarter(0, a, 0);
    }
    hide Bit;
  }

  /** The bits of a number behind whose last digit, of base four, another one is written. */
  lemma Quarter(x: nat, y: nat, i: nat)
    requires y < 4
    ensures i == 0 ==> (Bit(4 * x + y, 1) <==> y >= 2) && (Bit(4 * x + y, 0) <==> y % 2 == 1)
    ensures i >= 2 ==> (Bit(4 * x + y, i) <==> Bit(x, i - 2)) && (Bit(4 * x + y, i + 1) <==> Bit(x, i - 1))
  {
    assert (4 * x + y) / 2 == 2 * x + y / 2 && (2 * x + y / 2) / 2 == x;
    if i >= 2 {
      assert Bit(4 * x + y, i + 1) <==> Bit(2 * x + y / 2, i);
    }
  }

  /** The coordinates from point k on. */
  ghost function Body(ps: seq<Sent>, k: nat): seq<byte>
    requires AllSendable(ps) && k <= |ps|
    decreases |ps| - k
  {
    if k == |ps| then [] else ps[k].Bytes() + Body(ps, k + 1)
  }

  ghost function Write(ps: seq<Sent>): seq<byte>
    requires AllSendable(ps)
  {
    FlagBytes(ps) + Body(ps, 0)
  }

  function Values(ps: seq<Sent>, k: nat): (r: seq<Point>)
    requires k <= |ps|
    ensures |r| == k
  {
    if k == 0 then [] else Values(ps, k - 1) + [ps[k - 1].Value()]
  }

  lemma PresenceBits(ps: seq<Sent>, k: nat, j: nat)
    requires j < 4 && k < |ps|
    ensures NoX(Shifted(ps, k, j)) == ps[k].x.Absent? && NoY(Shifted(ps, k, j)) == ps[k].y.Absent?
    ensures j < 3 ==> Up(Shifted(ps, k, j)) == Shifted(ps, k + 1, j + 1)
  {
    var rest := Shifted(ps, k, j) - 64 * Code(ps, k);
    TopBits(Code(ps, k), rest);
  }

  lemma TopBits(a: nat, rest: nat)
    requires a < 4 && rest < 64
    ensures NoX(64 * a + rest) == (a >= 2) && NoY(64 * a + rest) == (a == 1 || a == 3)
    ensures Up(64 * a + rest) == 4 * rest
  {
    var v := 64 * a + rest;
    if a >= 2 {
      assert v == 128 * 1 + (v - 128) && v % 128 == v - 128;
    }
    assert 4 * v == 256 * a + 4 * rest;
  }

  /** A coordinate, read back. */
  lemma CoordRead(buf: seq<byte>, pos: nat, c: Coord)
    requires c.Sendable() && Stands(buf, pos, WriteCoord(c))
    ensures ReadCoord(buf, pos, c.Absent?) == Some(Delta(c.Value(), pos + |WriteCoord(c)|))
  {
    if !c.Absent? {
      DeltaRoundTrip(buf, pos, c);
    }
  }

  /** One turn of the loop, with the presence bits f. */
  lemma PointRead(buf: seq<byte>, size: nat, n: nat, done: seq<Point>, p: Sent, pos: nat, flags: byte, f: byte)
    requires p.Sendable() && |done| < n && size <= |buf| && pos < size && Stands(buf, pos, p.Bytes())
    requires if |done| % 4 == 0 then |done| / 4 < |buf| && f == buf[|done| / 4] else f == flags
    requires NoX(f) == p.x.Absent? && NoY(f) == p.y.Absent?
    ensures Scan(buf, size, n, done, pos, flags) == Scan(buf, size, n, done + [p.Value()], pos + |p.Bytes()|, Up(f))
  {
    var x, y := WriteCoord(p.x), WriteCoord(p.y);
    StandsApart(buf, pos, x, y);
    CoordRead(buf, pos, p.x);
    CoordRead(buf, pos + |x|, p.y);
    hide ReadCoord, WriteCoord, NoX, NoY;
  }

  /** The presence bits where the loop looks for them. */
  lemma FlagsAt(buf: seq<byte>, ps: seq<Sent>, k: nat)
    requires k < |ps| && k % 4 == 0 && Stands(buf, 0, FlagBytes(ps))
    ensures k / 4 < |buf| && buf[k / 4] == Shifted(ps, k, 0)
  {
    StandsFirst(buf, 0, FlagBytes(ps), k / 4);
  }

  predicate LastThere(ps: seq<Sent>) { ps == [] || ps[|ps| - 1].There() }

  lemma {:induction false} BodyThere(ps: seq<Sent>, k: nat)
    requires AllSendable(ps) && k < |ps| && LastThere(ps)
    ensures Body(ps, k) != []
    decreases |ps| - k
  {
    if k < |ps| - 1 {
      BodyThere(ps, k + 1);
    }
  }

  /** The turn for point k. */
  lemma ScanStep(buf: seq<byte>, size: nat, ps: seq<Sent>, k: nat, pos: nat, flags: byte)
      returns (pos': nat, flags': byte)
    requires AllSendable(ps) && k < |ps| && pos < size <= |buf|
    requires Stands(buf, 0, FlagBytes(ps)) && Stands(buf, pos, Body(ps, k))
    requires k % 4 != 0 ==> flags == Shifted(ps, k, k % 4)
    ensures pos' + |Body(ps, k + 1)| == pos + |Body(ps, k)| && Stands(buf, pos', Body(ps, k + 1))
    ensures (k + 1) % 4 != 0 ==> flags' == Shifted(ps, k + 1, (k + 1) % 4)
    ensures Scan(buf, size, |ps|, Values(ps, k), pos, flags) == Scan(buf, size, |ps|, Values(ps, k + 1), pos', flags')
  {
    hide Scan, Shifted, FlagBytes, NoX, NoY;
    var p, f := ps[k], Shifted(ps, k, k % 4);
    StandsApart(buf, pos, p.Bytes(), Body(ps, k + 1));
    if k % 4 == 0 {
      FlagsAt(buf, ps, k);
    }
    PresenceBits(ps, k, k % 4);
    PointRead(buf, size, |ps|, Values(ps, k), p, pos, flags, f);
    Next4(k);
    pos', flags' := pos + |p.Bytes()|, Up(f);
  }

  /** The loop from point k on. */
  lemma {:induction false} ScanFrom(buf: seq<byte>, size: nat, ps: seq<Sent>, k: nat, pos: nat, flags: byte)
    requires AllSendable(ps) && k <= |ps| && size <= |buf| && pos + |Body(ps, k)| == size
    requires Stands(buf, 0, FlagBytes(ps)) && Stands(buf, pos, Body(ps, k))
    requires k % 4 != 0 ==> flags == Shifted(ps, k, k % 4)
    ensures Scan(buf, size, |ps|, Values(ps, k), pos, flags) ==
            if k == |ps| || LastThere(ps) then Points(Values(ps, |ps|)) else Broken
    decreases |ps| - k
  {
    hide Scan, Shifted, FlagBytes, Stands, Values;
    ScanEnd(buf, size, |ps|, Values(ps, k), pos, flags);
    if k < |ps| {
      if LastThere(ps) {
        BodyThere(ps, k);
      }
      if pos < size {
        var pos', flags' := ScanStep(buf, size, ps, k, pos, flags);
        ScanFrom(buf, size, ps, k + 1, pos', flags');
      }
    }
  }

  lemma ScanEnd(buf: seq<byte>, size: nat, n: nat, done: seq<Point>, pos: nat, flags: byte)
    requires |done| <= n && size <= |buf|
    ensures |done| == n ==> Scan(buf, size, n, done, pos, flags) == Points(done)
    ensures |done| < n && pos >= size ==> Scan(buf, size, n, done, pos, flags) == Broken
  {
  }

  lemma Next4(k: nat)
    ensures (k + 1) % 4 == if k % 4 == 3 then 0 else k % 4 + 1
  {
  }

  /** Points sent in any of their forms are read back exactly when the last one has a coordinate; when
      it has none, the order is refused. */
  lemma PointsRoundTrip(ps: seq<Sent>, buf: seq<byte>)
    requires AllSendable(ps) && ps != [] && Write(ps) <= buf
    ensures Scan(buf, |Write(ps)|, |ps|, [], Start(|ps|), 0) ==
            if LastThere(ps) then Points(Values(ps, |ps|)) else Broken
  {
    var a, b := FlagBytes(ps), Body(ps, 0);
    assert Stands(buf, 0, a + b);
    StandsApart(buf, 0, a, b);
    ScanFrom(buf, |Write(ps)|, ps, 0, Start(|ps|), 0);
  }
}
