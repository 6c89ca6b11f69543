/** The planar bitmap code: four byte planes, each a list of rows of raw values and runs. */
module PlanarSpec {
  import opened Bits

  /** Overrun: a segment is longer than its row has places. PastEnd: the input is too short. */
  datatype Fault = Overrun | PastEnd

  datatype RowRead = Row(pixels: seq<byte>, next: nat) | RowFault(fault: Fault)

  /** The nibbles of a byte, `code / 16` and `code % 16`. */
  function High(code: nat): nat { if code < 16 then 0 else 1 + High(code - 16) }

  function Low(code: nat): nat { if code < 16 then code else Low(code - 16) }

  lemma {:induction false} NibblesAre(code: nat)
    ensures High(code) == code / 16 && Low(code) == code % 16
  {
    if code >= 16 {
      NibblesAre(code - 16);
    }
  }

  /** A byte taken from a sum: `v % 256`. */
  function Wrap(v: int): byte
    decreases if v < 0 then 256 - v else v
  {
    if v < 0 then Wrap(v + 256) else if v < 256 then v else Wrap(v - 256)
  }

  lemma WrapStep(v: int)
    ensures Wrap(v) as int == if v < 0 then Wrap(v + 256) as int else if v < 256 then v else Wrap(v - 256) as int
  {
  }

  lemma Turn(v: int)
    ensures (v + 256) % 256 == v % 256
  {
    var q := v / 256;
    assert v + 256 == 256 * (q + 1) + v % 256;
  }

  lemma {:induction false} WrapIs(v: int)
    ensures Wrap(v) == v % 256
    decreases if v < 0 then 256 - v else v
  {
    hide Wrap;
    WrapStep(v);
    if v < 0 {
      WrapIs(v + 256);
      Turn(v);
    } else if v >= 256 {
      WrapIs(v - 256);
      Turn(v - 256);
    }
  }

  /** A code byte: how many raw values, how many repetitions after them. */
  function RawCount(code: byte): nat { if Long(code) then 0 else High(code) }

  function RunCount(code: byte): nat { if Long(code) then Swapped(code) else Low(code) }

  function Swapped(code: byte): nat { 16 * Low(code) + High(code) }

  /** The nibbles, swapped, between 16 and 47: one run and nothing else. */
  predicate Long(code: byte) { 16 <= Swapped(code) <= 47 }

  /** A raw value: the pixel itself in the first row, below it a zig-zag difference. */
  function Colour(raw: byte, first: bool): int
  {
    if first then raw else if raw % 2 == 1 then -(raw / 2 + 1) else raw / 2
  }

  /** The pixel in column x. */
  function Shade(above: seq<byte>, first: bool, x: nat, colour: int): byte
    requires first || x < |above|
  {
    if first then Wrap(colour) else Wrap(above[x] + colour)
  }

  /** n raw values. */
  function ReadRaw(input: seq<byte>, pos: nat, n: nat, above: seq<byte>, first: bool, row: seq<byte>): (r: seq<byte>)
    requires pos + n <= |input| && (first || |row| + n <= |above|)
    ensures |r| == |row| + n && row <= r
    decreases n
  {
    if n == 0 then row
    else
      var r := ReadRaw(input, pos, n - 1, above, first, row);
      r + [Shade(above, first, |r|, Colour(input[pos + n - 1], first))]
  }

  /** n repetitions. */
  function Repeat(n: nat, above: seq<byte>, first: bool, row: seq<byte>, colour: int): (r: seq<byte>)
    requires first || |row| + n <= |above|
    ensures |r| == |row| + n && row <= r
    decreases n
  {
    if n == 0 then row
    else
      var r := Repeat(n - 1, above, first, row, colour);
      r + [Shade(above, first, |r|, colour)]
  }

  datatype Code = NoCode(fault: Fault) | Code(raws: nat, runs: nat)

  /** The code byte at pos, if the row and the input have room for what it announces. */
  function ReadCode(input: seq<byte>, pos: nat, room: nat): (c: Code)
    ensures c.Code? ==> c.raws + c.runs <= room && pos + 1 + c.raws <= |input|
  {
    if pos >= |input| then NoCode(PastEnd)
    else if RawCount(input[pos]) + RunCount(input[pos]) > room then NoCode(Overrun)
    else if pos + 1 + RawCount(input[pos]) > |input| then NoCode(PastEnd)
    else Code(RawCount(input[pos]), RunCount(input[pos]))
  }

  /** The colour after n raw values. */
  function LastColour(input: seq<byte>, pos: nat, n: nat, first: bool, colour: int): int
    requires pos + n <= |input|
  {
    if n > 0 then Colour(input[pos + n - 1], first) else colour
  }

  /** The raw values at pos, then the repetitions. */
  function Extend(input: seq<byte>, pos: nat, raws: nat, runs: nat, above: seq<byte>, first: bool, row: seq<byte>,
      colour: int): (r: seq<byte>)
    requires pos + raws <= |input| && (first || |row| + raws + runs <= |above|)
    ensures |r| == |row| + raws + runs && row <= r
  {
    Repeat(runs, above, first, ReadRaw(input, pos, raws, above, first, row),
        LastColour(input, pos, raws, first, colour))
  }

  /** A row under way: the place in the input, the pixels so far, the last colour. */
  datatype Cursor = Cursor(pos: nat, row: seq<byte>, colour: int)

  /** The cursor after a code byte and what belongs to it. */
  function Advance(input: seq<byte>, c: Cursor, raws: nat, runs: nat, above: seq<byte>, first: bool): (d: Cursor)
    requires c.pos + 1 + raws <= |input| && (first || |c.row| + raws + runs <= |above|)
    ensures |d.row| == |c.row| + raws + runs && c.row <= d.row && d.pos == c.pos + 1 + raws
  {
    Cursor(c.pos + 1 + raws,
           Extend(input, c.pos + 1, raws, runs, above, first, c.row, c.colour),
           LastColour(input, c.pos + 1, raws, first, c.colour))
  }

  /** The rest of a row. */
  function ReadRow(input: seq<byte>, width: nat, above: seq<byte>, first: bool, c: Cursor): (r: RowRead)
    requires c.pos <= |input| && |c.row| <= width && (first || |above| == width)
    ensures r.Row? ==> |r.pixels| == width && c.row <= r.pixels && c.pos <= r.next <= |input|
    decreases |input| - c.pos
  {
    if |c.row| >= width then Row(c.row, c.pos)
    else
      match ReadCode(input, c.pos, width - |c.row|)
      case NoCode(fault) => RowFault(fault)
      case Code(raws, runs) => ReadRow(input, width, above, first, Advance(input, c, raws, runs, above, first))
  }

  datatype PlaneRead = Plane(rows: seq<seq<byte>>, next: nat) | PlaneFault(fault: Fault)

  /** `height` rows, the lowest one of the picture first. */
  function ReadPlane(input: seq<byte>, pos: nat, width: nat, height: nat): (r: PlaneRead)
    requires pos <= |input|
    ensures r.Plane? ==>
      |r.rows| == height && pos <= r.next <= |input| && forall i :: 0 <= i < height ==> |r.rows[i]| == width
  {
    if height == 0 then Plane([], pos)
    else
      var below := ReadPlane(input, pos, width, height - 1);
      if below.PlaneFault? then below
      else
        var first := height == 1;
        var r := ReadRow(input, width, if first then [] else below.rows[height - 2], first, Cursor(below.next, [], 0));
        if r.RowFault? then PlaneFault(r.fault) else Plane(below.rows + [r.pixels], r.next)
  }
}
