/** Planar bitmaps from the sender's side: any planes, cut into raw values and runs in any way the
    code allows, are read back unchanged. */
module PlanarProofs {
  import opened Bits
  import opened PlanarSpec
  import opened Planar
  import opened Rows

  /** One code byte's worth: raw values, then repetitions of the last one. */
  datatype Piece = Piece(raws: nat, runs: nat)
  {
    /** A short piece must not look like a long run; a long run has no raw values. */
    predicate Codable()
    {
      || (raws <= 15 && runs <= 15 && !(16 <= 16 * runs + raws <= 47))
      || (raws == 0 && 16 <= runs <= 47)
    }
  }

  function CodeByte(p: Piece): byte
  {
    Wrap(if p.runs >= 16 then 16 * Low(p.runs) + High(p.runs) else 16 * p.raws + p.runs)
  }

  lemma {:induction false} Nibbles(high: nat, low: nat)
    requires low < 16
    ensures High(16 * high + low) == high && Low(16 * high + low) == low
  {
    if high > 0 {
      Nibbles(high - 1, low);
    }
  }

  lemma CodeByteCounts(p: Piece)
    requires p.Codable()
    ensures RawCount(CodeByte(p)) == p.raws && RunCount(CodeByte(p)) == p.runs
  {
    NibblesAre(p.runs);
    Nibbles(Low(p.runs), High(p.runs));
    Nibbles(p.raws, p.runs % 16);
  }

  /** The difference of two bytes as a signed byte. */
  function Difference(pixel: byte, above: byte): (d: int)
    ensures -128 <= d < 128 && Wrap(above + d) == pixel
  {
    var d := pixel - above;
    if d >= 128 then d - 256 else if d < -128 then d + 256 else d
  }

  /** The byte a colour is sent as. */
  function Raw(c: int, first: bool): byte
  {
    Wrap(if first then c else if c >= 0 then 2 * c else -2 * c - 1)
  }

  predicate InRange(c: int, first: bool) { if first then 0 <= c < 256 else -128 <= c < 128 }

  lemma RawRead(c: int, first: bool)
    requires InRange(c, first)
    ensures Colour(Raw(c, first), first) == c
  {
  }

  /** And every byte is the raw value of the colour it is read as. */
  lemma RawBack(raw: byte, first: bool)
    ensures InRange(Colour(raw, first), first) && Raw(Colour(raw, first), first) == raw
  {
  }

  /** The colours a row is painted with. */
  function Colours(row: seq<byte>, above: seq<byte>, first: bool): (cs: seq<int>)
    requires first || |above| == |row|
    ensures |cs| == |row| && forall x :: 0 <= x < |row| ==> Shade(above, first, x, cs[x]) == row[x]
    ensures forall x :: 0 <= x < |row| ==> InRange(cs[x], first)
  {
    seq(|row|, x requires 0 <= x < |row| => if first then row[x] else Difference(row[x], above[x]))
  }

  function Raws(cs: seq<int>, x: nat, n: nat, first: bool): (s: seq<byte>)
    requires x + n <= |cs|
    ensures |s| == n
  {
    if n == 0 then [] else Raws(cs, x, n - 1, first) + [Raw(cs[x + n - 1], first)]
  }

  /** The colour after n values from x on. */
  function Last(cs: seq<int>, x: nat, n: nat, colour: int): int
    requires x + n <= |cs|
  {
    if n > 0 then cs[x + n - 1] else colour
  }

  /** A piece covers the next colours: raw ones, then repetitions. */
  predicate FitsPiece(cs: seq<int>, x: nat, p: Piece, colour: int)
    requires x <= |cs|
  {
    && x < |cs| && p.Codable() && x + p.raws + p.runs <= |cs|
    && forall y :: x + p.raws <= y < x + p.raws + p.runs ==> cs[y] == Last(cs, x, p.raws, colour)
  }

  /** The plan cuts the colours from x on into pieces whose repetitions repeat. */
  predicate Fits(cs: seq<int>, x: nat, plan: seq<Piece>, colour: int)
    requires x <= |cs|
    decreases plan
  {
    if plan == [] then x == |cs|
    else
      var p := plan[0];
      && FitsPiece(cs, x, p, colour)
      && Fits(cs, x + p.raws + p.runs, plan[1..], Last(cs, x, p.raws, colour))
  }

  /** The bytes of a row from x on. */
  function Write(cs: seq<int>, x: nat, plan: seq<Piece>, first: bool): seq<byte>
    decreases plan
  {
    if plan == [] || x + plan[0].raws > |cs| then []
    else
      var p := plan[0];
      [CodeByte(p)] + Raws(cs, x, p.raws, first) + Write(cs, x + p.raws + p.runs, plan[1..], first)
  }

  /** The colours paint the row. */
  ghost predicate Paint(cs: seq<int>, above: seq<byte>, first: bool, row: seq<byte>)
  {
    && |cs| == |row| && (first || |above| == |row|)
    && (forall x {:trigger cs[x]} :: 0 <= x < |row| ==>
        Shade(above, first, x, cs[x]) == row[x] && InRange(cs[x], first))
  }

  /** Raw values read back as the pixels they were taken from. */
  lemma {:induction false} RawsRead(input: seq<byte>, pos: nat, n: nat, above: seq<byte>, first: bool, row: seq<byte>,
      cs: seq<int>, x: nat, colour: int)
    requires Paint(cs, above, first, row) && x + n <= |row| && Stands(input, pos, Raws(cs, x, n, first))
    ensures pos + n <= |input| && ReadRaw(input, pos, n, above, first, row[..x]) == row[..x + n]
    ensures LastColour(input, pos, n, first, colour) == Last(cs, x, n, colour)
    decreases n
  {
    hide Raw, Colour, Wrap;
    if n > 0 {
      var t, c := Raws(cs, x, n - 1, first), cs[x + n - 1];
      StandsApart(input, pos, t, [Raw(c, first)]);
      StandsFirst(input, pos, Raws(cs, x, n, first), n - 1);
      RawRead(c, first);
      RawsRead(input, pos, n - 1, above, first, row, cs, x, colour);
      assert row[..x + n] == row[..x + n - 1] + [row[x + n - 1]];
    }
  }

  lemma {:induction false} RunsRead(n: nat, above: seq<byte>, first: bool, row: seq<byte>, cs: seq<int>, x: nat,
      colour: int)
    requires Paint(cs, above, first, row) && x + n <= |row| && forall y :: x <= y < x + n ==> cs[y] == colour
    ensures Repeat(n, above, first, row[..x], colour) == row[..x + n]
    decreases n
  {
    if n > 0 {
      RunsRead(n - 1, above, first, row, cs, x, colour);
      assert cs[x + n - 1] == colour;
      assert row[..x + n] == row[..x + n - 1] + [row[x + n - 1]];
    }
  }

  /** One piece, read back. */
  lemma PieceRead(input: seq<byte>, pos: nat, p: Piece, above: seq<byte>, first: bool, row: seq<byte>, cs: seq<int>,
      x: nat, colour: int)
    requires Paint(cs, above, first, row) && x + p.raws + p.runs <= |row|
    requires forall y :: x + p.raws <= y < x + p.raws + p.runs ==> cs[y] == Last(cs, x, p.raws, colour)
    requires Stands(input, pos + 1, Raws(cs, x, p.raws, first))
    ensures pos + 1 + p.raws <= |input|
    ensures Advance(input, Cursor(pos, row[..x], colour), p.raws, p.runs, above, first) ==
            Cursor(pos + 1 + p.raws, row[..x + p.raws + p.runs], Last(cs, x, p.raws, colour))
  {
    hide ReadRaw, Repeat, Raws, Stands, Shade, LastColour, Last;
    RawsRead(input, pos + 1, p.raws, above, first, row, cs, x, colour);
    RunsRead(p.runs, above, first, row, cs, x + p.raws, Last(cs, x, p.raws, colour));
  }

  /** The first piece of what is written, found in the input. */
  lemma PieceStands(input: seq<byte>, pos: nat, plan: seq<Piece>, first: bool, cs: seq<int>, x: nat)
    requires plan != [] && x + plan[0].raws <= |cs| && Stands(input, pos, Write(cs, x, plan, first))
    ensures var p := plan[0];
            var tail := Write(cs, x + p.raws + p.runs, plan[1..], first);
            && pos < |input| && input[pos] == CodeByte(p)
            && Stands(input, pos + 1, Raws(cs, x, p.raws, first))
            && Stands(input, pos + 1 + p.raws, tail)
            && |Write(cs, x, plan, first)| == 1 + p.raws + |tail|
  {
    var p := plan[0];
    var head, raws := [CodeByte(p)], Raws(cs, x, p.raws, first);
    var tail := Write(cs, x + p.raws + p.runs, plan[1..], first);
    StandsApart(input, pos, head + raws, tail);
    StandsApart(input, pos, head, raws);
    StandsFirst(input, pos, head, 0);
  }

  lemma ReadPiece(input: seq<byte>, width: nat, above: seq<byte>, first: bool, c: Cursor, p: Piece)
    requires p.Codable() && c.pos < |input| && input[c.pos] == CodeByte(p) && c.pos + 1 + p.raws <= |input|
    requires |c.row| < width && |c.row| + p.raws + p.runs <= width && (first || |above| == width)
    ensures ReadRow(input, width, above, first, c) ==
      ReadRow(input, width, above, first, Advance(input, c, p.raws, p.runs, above, first))
  {
    CodeByteCounts(p);
  }

  lemma FitsNext(cs: seq<int>, x: nat, plan: seq<Piece>, colour: int)
    requires plan != [] && x <= |cs| && Fits(cs, x, plan, colour)
    ensures FitsPiece(cs, x, plan[0], colour)
    ensures Fits(cs, x + plan[0].raws + plan[0].runs, plan[1..], Last(cs, x, plan[0].raws, colour))
  {
  }

  /** Reading one piece. */
  lemma ReadFirst(input: seq<byte>, pos: nat, p: Piece, above: seq<byte>, first: bool, row: seq<byte>, cs: seq<int>,
      x: nat, colour: int)
    requires Paint(cs, above, first, row) && x <= |row| && FitsPiece(cs, x, p, colour)
    requires pos < |input| && input[pos] == CodeByte(p) && Stands(input, pos + 1, Raws(cs, x, p.raws, first))
    ensures pos + 1 + p.raws <= |input|
    ensures ReadRow(input, |row|, above, first, Cursor(pos, row[..x], colour)) ==
            ReadRow(input, |row|, above, first,
                Cursor(pos + 1 + p.raws, row[..x + p.raws + p.runs], Last(cs, x, p.raws, colour)))
  {
    PieceRead(input, pos, p, above, first, row, cs, x, colour);
    ReadPiece(input, |row|, above, first, Cursor(pos, row[..x], colour), p);
  }

  /** The first piece of a plan and what follows it. */
  lemma NextPiece(input: seq<byte>, pos: nat, plan: seq<Piece>, first: bool, cs: seq<int>, x: nat, colour: int)
    returns (p: Piece, tail: seq<Piece>, pos': nat, x': nat, colour': int)
    requires plan != [] && x <= |cs| && Fits(cs, x, plan, colour)
    requires Stands(input, pos, Write(cs, x, plan, first))
    ensures |tail| < |plan| && x' == x + p.raws + p.runs <= |cs| && pos' == pos + 1 + p.raws
            && colour' == Last(cs, x, p.raws, colour)
    ensures FitsPiece(cs, x, p, colour) && Fits(cs, x', tail, colour')
    ensures pos < |input| && input[pos] == CodeByte(p) && Stands(input, pos + 1, Raws(cs, x, p.raws, first))
    ensures Stands(input, pos', Write(cs, x', tail, first))
            && pos + |Write(cs, x, plan, first)| == pos' + |Write(cs, x', tail, first)|
  {
    p, tail := plan[0], plan[1..];
    FitsNext(cs, x, plan, colour);
    PieceStands(input, pos, plan, first, cs, x);
    pos', x', colour' := pos + 1 + p.raws, x + p.raws + p.runs, Last(cs, x, p.raws, colour);
  }

  /** The rest of a row after its first piece. */
  lemma FirstPiece(input: seq<byte>, pos: nat, plan: seq<Piece>, above: seq<byte>, first: bool, row: seq<byte>,
      cs: seq<int>, x: nat, colour: int) returns (tail: seq<Piece>, pos': nat, x': nat, colour': int)
    requires Paint(cs, above, first, row) && plan != [] && x <= |row| && Fits(cs, x, plan, colour)
    requires pos <= |input| && Stands(input, pos, Write(cs, x, plan, first))
    ensures |tail| < |plan| && x' <= |row| && pos' <= |input|
    ensures Fits(cs, x', tail, colour') && Stands(input, pos', Write(cs, x', tail, first))
    ensures pos + |Write(cs, x, plan, first)| == pos' + |Write(cs, x', tail, first)|
    ensures ReadRow(input, |row|, above, first, Cursor(pos, row[..x], colour)) ==
      ReadRow(input, |row|, above, first, Cursor(pos', row[..x'], colour'))
  {
    hide Stands, Fits, FitsPiece, Write, ReadRow, Raws;
    var p;
    p, tail, pos', x', colour' := NextPiece(input, pos, plan, first, cs, x, colour);
    ReadFirst(input, pos, p, above, first, row, cs, x, colour);
  }

  /** A row, read back from any place in it. */
  lemma {:induction false} RowRead(input: seq<byte>, pos: nat, plan: seq<Piece>, above: seq<byte>, first: bool,
      row: seq<byte>, cs: seq<int>, x: nat, colour: int)
    requires Paint(cs, above, first, row) && x <= |row| && Fits(cs, x, plan, colour)
    requires pos <= |input| && Stands(input, pos, Write(cs, x, plan, first))
    ensures ReadRow(input, |row|, above, first, Cursor(pos, row[..x], colour)) ==
      Row(row, pos + |Write(cs, x, plan, first)|)
    decreases |plan|
  {
    if plan == [] {
      assert row[..x] == row;
    } else {
      var tail, pos', x', colour' := FirstPiece(input, pos, plan, above, first, row, cs, x, colour);
      RowRead(input, pos', tail, above, first, row, cs, x', colour');
    }
  }

  /** The colours of a whole row, under the row sent before it. */
  lemma ColoursPaint(row: seq<byte>, above: seq<byte>, first: bool)
    requires first || |above| == |row|
    ensures Paint(Colours(row, above, first), above, first, row)
  {
  }

  /** Rows of one width. */
  ghost predicate Even(rows: seq<seq<byte>>, width: nat) { forall i :: 0 <= i < |rows| ==> |rows[i]| == width }

  /** The row that row i is sent relative to: the one sent before it. */
  function Base(rows: seq<seq<byte>>, i: nat): seq<byte>
    requires i < |rows|
  {
    if i == 0 then [] else rows[i - 1]
  }

  /** A plan for each of the first h rows. */
  ghost predicate Planned(rows: seq<seq<byte>>, width: nat, plans: seq<seq<Piece>>, h: nat)
    requires Even(rows, width) && h <= |rows| == |plans|
  {
    h > 0 ==>
      && Fits(Colours(rows[h - 1], Base(rows, h - 1), h == 1), 0, plans[h - 1], 0)
      && Planned(rows, width, plans, h - 1)
  }

  /** The bytes of the first h rows. */
  ghost function WriteRows(rows: seq<seq<byte>>, width: nat, plans: seq<seq<Piece>>, h: nat): seq<byte>
    requires Even(rows, width) && h <= |rows| == |plans|
  {
    if h == 0 then []
    else
      WriteRows(rows, width, plans, h - 1)
      + Write(Colours(rows[h - 1], Base(rows, h - 1), h == 1), 0, plans[h - 1], h == 1)
  }

  /** One more row, read back. */
  lemma RowWritten(input: seq<byte>, pos: nat, plan: seq<Piece>, above: seq<byte>, first: bool, row: seq<byte>)
    requires (first || |above| == |row|) && pos <= |input|
    requires var cs := Colours(row, above, first); Fits(cs, 0, plan, 0) && Stands(input, pos, Write(cs, 0, plan, first))
    ensures ReadRow(input, |row|, above, first, Cursor(pos, [], 0)) ==
      Row(row, pos + |Write(Colours(row, above, first), 0, plan, first)|)
  {
    ColoursPaint(row, above, first);
    RowRead(input, pos, plan, above, first, row, Colours(row, above, first), 0, 0);
  }

  /** A plane, whatever its rows and however they were cut up, is read back. */
  lemma {:induction false} PlaneWritten(input: seq<byte>, pos: nat, rows: seq<seq<byte>>, width: nat,
      plans: seq<seq<Piece>>, h: nat)
    requires Even(rows, width) && h <= |rows| == |plans| && Planned(rows, width, plans, h)
    requires pos <= |input| && Stands(input, pos, WriteRows(rows, width, plans, h))
    ensures ReadPlane(input, pos, width, h) == Plane(rows[..h], pos + |WriteRows(rows, width, plans, h)|)
  {
    hide Stands, Write, Fits, ReadRow, Colours;
    if h > 0 {
      var above, row, first := Base(rows, h - 1), rows[h - 1], h == 1;
      var before, now := WriteRows(rows, width, plans, h - 1),
          Write(Colours(row, above, first), 0, plans[h - 1], first);
      StandsApart(input, pos, before, now);
      PlaneWritten(input, pos, rows, width, plans, h - 1);
      RowWritten(input, pos + |before|, plans[h - 1], above, first, row);
      assert rows[..h] == rows[..h - 1] + [row];
      assert h > 1 ==> rows[..h - 1][h - 2] == above;
    }
  }

  /** What the sender chooses for each plane: its rows, the lowest first, and their plans. */
  datatype Sent = Sent(rows: seq<seq<byte>>, plans: seq<seq<Piece>>)

  ghost predicate Sendable(p: Sent, width: nat, height: nat)
  {
    Even(p.rows, width) && |p.rows| == |p.plans| == height && Planned(p.rows, width, p.plans, height)
  }

  ghost predicate AllSendable(ps: seq<Sent>, width: nat, height: nat)
  {
    forall i :: 0 <= i < |ps| ==> Sendable(ps[i], width, height)
  }

  ghost function WritePlane(p: Sent, width: nat, height: nat): seq<byte>
    requires Sendable(p, width, height)
  {
    WriteRows(p.rows, width, p.plans, height)
  }

  ghost function WritePlanes(ps: seq<Sent>, width: nat, height: nat, count: nat): seq<byte>
    requires count <= |ps| && AllSendable(ps, width, height)
  {
    if count == 0 then [] else WritePlanes(ps, width, height, count - 1) + WritePlane(ps[count - 1], width, height)
  }

  function RowsOf(ps: seq<Sent>, count: nat): (r: seq<seq<seq<byte>>>)
    requires count <= |ps|
    ensures |r| == count
  {
    if count == 0 then [] else RowsOf(ps, count - 1) + [ps[count - 1].rows]
  }

  lemma {:induction false} PlanesWritten(input: seq<byte>, pos: nat, ps: seq<Sent>, width: nat, height: nat, count: nat)
    requires count <= |ps| && AllSendable(ps, width, height)
    requires pos <= |input| && Stands(input, pos, WritePlanes(ps, width, height, count))
    ensures ReadPlanes(input, pos, width, height, count) ==
      Planes(RowsOf(ps, count), pos + |WritePlanes(ps, width, height, count)|)
  {
    hide Stands, WriteRows, ReadPlane, Planned;
    if count > 0 {
      var p := ps[count - 1];
      var before, now := WritePlanes(ps, width, height, count - 1), WritePlane(p, width, height);
      StandsApart(input, pos, before, now);
      PlanesWritten(input, pos, ps, width, height, count - 1);
      PlaneWritten(input, pos + |before|, p.rows, width, p.plans, height);
      assert p.rows[..height] == p.rows;
    }
  }

  /** Any four planes, cut up in any way the code allows, come back from the decoder unchanged, each
      in its own byte of the pixels, and the verdict is whether anything follows them. */
  method BitmapRoundTrip(input: seq<byte>, ghost ps: seq<Sent>, width: nat, height: nat, ghost rest: seq<byte>,
      out: array<byte>) returns (v: Verdict)
    requires |ps| == 4 && AllSendable(ps, width, height) && out.Length == 4 * (width * height)
    requires input == [0x10] + WritePlanes(ps, width, height, 4) + rest
    modifies out
    ensures v == Returned(rest == [])
    ensures var n := width * height;
            && Lane(out[..], n, 3) == Stack(ps[0].rows) && Lane(out[..], n, 2) == Stack(ps[1].rows)
            && Lane(out[..], n, 1) == Stack(ps[2].rows) && Lane(out[..], n, 0) == Stack(ps[3].rows)
    ensures forall i, r, c {:trigger ps[i].rows[r][c]} :: 0 <= i < 4 && 0 <= r < height && 0 <= c < width ==>
        ByteThere(out[..], 4 * ((height - 1 - r) * width + c) + 3 - i, ps[i].rows[r][c])
  {
    ghost var all := WritePlanes(ps, width, height, 4);
    assert Stands(input, 1, all) && |input| == 1 + |all| + |rest|;
    PlanesWritten(input, 1, ps, width, height, 4);
    FourRows(ps);
    v := Decompress4(input, width, height, out);
    EveryByte(out[..], ps, width, height);
  }

  ghost predicate ByteThere(s: seq<byte>, place: int, value: byte) { 0 <= place < |s| && s[place] == value }

  /** Every byte of the planes in its place. */
  lemma EveryByte(s: seq<byte>, ps: seq<Sent>, width: nat, height: nat)
    requires |ps| == 4 && AllSendable(ps, width, height) && |s| == 4 * (width * height)
    requires var n := width * height;
             && Lane(s, n, 3) == Stack(ps[0].rows) && Lane(s, n, 2) == Stack(ps[1].rows)
             && Lane(s, n, 1) == Stack(ps[2].rows) && Lane(s, n, 0) == Stack(ps[3].rows)
    ensures forall i, r, c {:trigger ps[i].rows[r][c]} :: 0 <= i < 4 && 0 <= r < height && 0 <= c < width ==>
        ByteThere(s, 4 * ((height - 1 - r) * width + c) + 3 - i, ps[i].rows[r][c])
  {
    hide Lane, Stack, Planned;
    forall i, r, c | 0 <= i < 4 && 0 <= r < height && 0 <= c < width
      ensures ByteThere(s, 4 * ((height - 1 - r) * width + c) + 3 - i, ps[i].rows[r][c])
    {
      assert Sendable(ps[i], width, height) && Lane(s, width * height, 3 - i) == Stack(ps[i].rows);
      hide Sendable, AllSendable;
      ByteAt(s, ps[i].rows, width, height, width * height, 3 - i, r, c);
    }
  }

  lemma ByteAt(s: seq<byte>, rows: seq<seq<byte>>, width: nat, height: nat, n: nat, lane: nat, r: nat, c: nat)
    requires lane < 4 && |s| == 4 * n && Even(rows, width) && |rows| == height && r < height && c < width
    requires Lane(s, n, lane) == Stack(rows)
    ensures ByteThere(s, 4 * ((height - 1 - r) * width + c) + lane, rows[r][c])
  {
    StackAt(rows, width, r, c);
    PlacesIs(height - 1 - r, width);
    var k := Places(height - 1 - r, width) + c;
    hide Lane, Stack, Places;
    LaneAt(s, n, lane, k);
  }

  lemma FourRows(ps: seq<Sent>)
    requires |ps| == 4
    ensures RowsOf(ps, 4) == [ps[0].rows, ps[1].rows, ps[2].rows, ps[3].rows]
  {
    assert RowsOf(ps, 1) == [ps[0].rows];
    assert RowsOf(ps, 2) == [ps[0].rows, ps[1].rows];
    assert RowsOf(ps, 3) == [ps[0].rows, ps[1].rows, ps[2].rows];
  }

  /** Every row has a plan: one code byte for each pixel. */
  function Literally(n: nat): (plan: seq<Piece>)
    ensures |plan| == n
  {
    if n == 0 then [] else [Piece(1, 0)] + Literally(n - 1)
  }

  lemma {:induction false} LiterallyFits(cs: seq<int>, x: nat, colour: int)
    requires x <= |cs|
    ensures Fits(cs, x, Literally(|cs| - x), colour)
    decreases |cs| - x
  {
    if x < |cs| {
      var plan := Literally(|cs| - x);
      assert plan[1..] == Literally(|cs| - (x + 1));
      LiterallyFits(cs, x + 1, cs[x]);
    }
  }
}
