/** The planar decoder as the program runs it: four passes over one buffer of four-byte pixels,
    each pass writing one byte of every pixel, row by row from the bottom of the picture. */
module Planar {
  import opened Bits
  import opened PlanarSpec
  import opened Rows

  /** The bytes of one plane of n pixels: every fourth byte of the buffer, from `lane` on. */
  ghost function Lane(s: seq<byte>, n: nat, lane: nat): (r: seq<byte>)
    requires lane < 4 && |s| >= 4 * n
    ensures |r| == n
  {
    if n == 0 then [] else Lane(s, n - 1, lane) + [s[4 * (n - 1) + lane]]
  }

  /** The pixels with the byte of one plane blotted out. */
  ghost function Others(s: seq<byte>, n: nat, lane: nat): (r: seq<seq<byte>>)
    requires lane < 4 && |s| >= 4 * n
    ensures |r| == n
  {
    if n == 0 then [] else Others(s, n - 1, lane) + [s[4 * (n - 1)..4 * n][lane := 0]]
  }

  lemma {:induction false} LaneAt(s: seq<byte>, n: nat, lane: nat, p: nat)
    requires lane < 4 && |s| >= 4 * n && p < n
    ensures Lane(s, n, lane)[p] == s[4 * p + lane]
  {
    if p < n - 1 {
      LaneAt(s, n - 1, lane, p);
    }
  }

  /** A plane is one of the others for every other plane. */
  lemma {:induction false} OtherLane(s: seq<byte>, t: seq<byte>, n: nat, lane: nat, other: nat)
    requires lane < 4 && other < 4 && other != lane && |s| >= 4 * n && |t| >= 4 * n
    requires Others(s, n, lane) == Others(t, n, lane)
    ensures Lane(s, n, other) == Lane(t, n, other)
  {
    if n > 0 {
      var a, b := Others(s, n, lane), Others(t, n, lane);
      var i := 4 * (n - 1);
      assert s[i..4 * n][lane := 0] == a[n - 1] == b[n - 1] == t[i..4 * n][lane := 0];
      assert s[i + other] == s[i..4 * n][lane := 0][other] == t[i..4 * n][lane := 0][other] == t[i + other];
      assert a[..n - 1] == Others(s, n - 1, lane) && b[..n - 1] == Others(t, n - 1, lane);
      OtherLane(s, t, n - 1, lane, other);
    }
  }

  lemma {:induction false} LaneUpdate(s: seq<byte>, n: nat, lane: nat, p: nat, v: byte)
    requires lane < 4 && |s| >= 4 * n && 4 * p + lane < |s|
    ensures var t := s[4 * p + lane := v];
            && Lane(t, n, lane) == (if p < n then Lane(s, n, lane)[p := v] else Lane(s, n, lane))
            && Others(t, n, lane) == Others(s, n, lane)
  {
    if n > 0 {
      LaneUpdate(s, n - 1, lane, p, v);
      var t := s[4 * p + lane := v];
      assert t[4 * (n - 1)..4 * n][lane := 0] == s[4 * (n - 1)..4 * n][lane := 0];
    }
  }

  /** `*out = v` for pixel p. */
  method Store(out: array<byte>, ghost n: nat, lane: nat, p: nat, v: byte)
    requires lane < 4 && out.Length == 4 * n && p < n
    modifies out
    ensures Lane(out[..], n, lane) == old(Lane(out[..], n, lane))[p := v]
    ensures Others(out[..], n, lane) == old(Others(out[..], n, lane))
  {
    LaneUpdate(out[..], n, lane, p, v);
    ghost var s := out[..];
    out[4 * p + lane] := v;
    assert out[..] == s[4 * p + lane := v];
  }

  /** The plane while a row is written: `row` from `base` on, `rest` from the next row on. */
  ghost predicate Writing(plane: seq<byte>, base: nat, width: nat, row: seq<byte>, rest: seq<byte>)
  {
    |row| <= width && base + width <= |plane| && plane[base..base + |row|] == row && plane[base + width..] == rest
  }

  lemma WritingNext(plane: seq<byte>, base: nat, width: nat, row: seq<byte>, rest: seq<byte>, v: byte)
    requires Writing(plane, base, width, row, rest) && |row| < width
    ensures Writing(plane[base + |row| := v], base, width, row + [v], rest)
  {
    var t := plane[base + |row| := v];
    assert t[base..base + |row|] == plane[base..base + |row|];
    assert t[base + width..] == plane[base + width..];
  }

  /** The row below in the list of rows, which the C code finds one row further up the buffer. */
  ghost predicate Below(first: bool, rest: seq<byte>, width: nat, above: seq<byte>)
  {
    !first ==> |above| == width && above <= rest
  }

  /** One pixel: the colour, or the sum with the byte one row further up. */
  method Pixel(out: array<byte>, ghost n: nat, lane: nat, base: nat, width: nat, x: nat, colour: int, first: bool,
      ghost above: seq<byte>, ghost row: seq<byte>, ghost rest: seq<byte>)
    requires lane < 4 && out.Length == 4 * n && x == |row| < width
    requires Writing(Lane(out[..], n, lane), base, width, row, rest) && Below(first, rest, width, above)
    modifies out
    ensures Writing(Lane(out[..], n, lane), base, width, row + [Shade(above, first, x, colour)], rest)
    ensures Others(out[..], n, lane) == old(Others(out[..], n, lane))
  {
    hide Lane, Others, Wrap;
    ghost var plane := Lane(out[..], n, lane);
    var v := colour;
    if !first {
      LaneAt(out[..], n, lane, base + width + x);
      assert plane[base + width..][x] == plane[base + width + x];
      v := (out[4 * (base + width + x) + lane] as int) + colour;
    }
    WrapIs(v);
    WritingNext(plane, base, width, row, rest, v % 256);
    Store(out, n, lane, base + x, v % 256);
  }

  /** The sign and size of a raw value. */
  method RawColour(raw: byte, first: bool) returns (colour: int)
    ensures colour == Colour(raw, first)
    ensures if first then raw == colour else raw == if colour >= 0 then 2 * colour else -2 * colour - 1
  {
    var x: int := raw;
    if first {
      return x;
    }
    if x % 2 == 1 {
      x := x / 2;
      x := x + 1;
      colour := -x;
    } else {
      x := x / 2;
      colour := x;
    }
  }

  /** `while (collen > 0)`. */
  method RawLoop(input: seq<byte>, pos: nat, count: nat, out: array<byte>, ghost n: nat, lane: nat, base: nat,
      width: nat, x: nat, colour: int, first: bool, ghost above: seq<byte>, ghost row: seq<byte>, ghost rest: seq<byte>)
      returns (last: int)
    requires lane < 4 && out.Length == 4 * n && x == |row| && x + count <= width && pos + count <= |input|
    requires Writing(Lane(out[..], n, lane), base, width, row, rest) && Below(first, rest, width, above)
    modifies out
    ensures Writing(Lane(out[..], n, lane), base, width, ReadRaw(input, pos, count, above, first, row), rest)
    ensures Others(out[..], n, lane) == old(Others(out[..], n, lane))
    ensures last == LastColour(input, pos, count, first, colour)
  {
    hide Lane, Others, Shade, Colour;
    last := colour;
    for i := 0 to count
      invariant Writing(Lane(out[..], n, lane), base, width, ReadRaw(input, pos, i, above, first, row), rest)
      invariant Others(out[..], n, lane) == old(Others(out[..], n, lane))
      invariant last == LastColour(input, pos, i, first, colour)
    {
      last := RawColour(input[pos + i], first);
      Pixel(out, n, lane, base, width, x + i, last, first, above, ReadRaw(input, pos, i, above, first, row), rest);
    }
  }

  /** `while (replen > 0)`. */
  method RunLoop(count: nat, out: array<byte>, ghost n: nat, lane: nat, base: nat, width: nat, x: nat, colour: int,
      first: bool, ghost above: seq<byte>, ghost row: seq<byte>, ghost rest: seq<byte>)
    requires lane < 4 && out.Length == 4 * n && x == |row| && x + count <= width
    requires Writing(Lane(out[..], n, lane), base, width, row, rest) && Below(first, rest, width, above)
    modifies out
    ensures Writing(Lane(out[..], n, lane), base, width, Repeat(count, above, first, row, colour), rest)
    ensures Others(out[..], n, lane) == old(Others(out[..], n, lane))
  {
    hide Lane, Others, Shade;
    for i := 0 to count
      invariant Writing(Lane(out[..], n, lane), base, width, Repeat(i, above, first, row, colour), rest)
      invariant Others(out[..], n, lane) == old(Others(out[..], n, lane))
    {
      Pixel(out, n, lane, base, width, x + i, colour, first, above, Repeat(i, above, first, row, colour), rest);
    }
  }

  /** The counts of a code byte. */
  method Counts(code: byte) returns (raws: nat, runs: nat)
    ensures raws == RawCount(code) && runs == RunCount(code)
  {
    NibblesAre(code);
    runs, raws := code % 16, code / 16;
    var revcode := 16 * runs + raws;
    if 16 <= revcode <= 47 {
      runs, raws := revcode, 0;
    }
  }

  ghost predicate At(c: Cursor, pos: nat, x: nat, colour: int)
  {
    c.pos == pos && |c.row| == x && c.colour == colour
  }

  /** What belongs to one code byte. */
  method Segment(input: seq<byte>, pos: nat, raws: nat, runs: nat, out: array<byte>, ghost n: nat, lane: nat,
      base: nat, width: nat, x: nat, colour: int, first: bool, ghost above: seq<byte>, ghost c: Cursor,
      ghost rest: seq<byte>) returns (last: int, ghost d: Cursor)
    requires lane < 4 && out.Length == 4 * n && At(c, pos, x, colour) && x + raws + runs <= width
             && pos + 1 + raws <= |input|
    requires Writing(Lane(out[..], n, lane), base, width, c.row, rest) && Below(first, rest, width, above)
    modifies out
    ensures d == Advance(input, c, raws, runs, above, first) && last == d.colour
    ensures Writing(Lane(out[..], n, lane), base, width, d.row, rest)
    ensures Others(out[..], n, lane) == old(Others(out[..], n, lane))
  {
    hide Lane, Others, Writing, Repeat, ReadRaw;
    last := RawLoop(input, pos + 1, raws, out, n, lane, base, width, x, colour, first, above, c.row, rest);
    ghost var row := ReadRaw(input, pos + 1, raws, above, first, c.row);
    RunLoop(runs, out, n, lane, base, width, x + raws, last, first, above, row, rest);
    d := Advance(input, c, raws, runs, above, first);
  }

  /** The code byte and the room it needs. */
  method GetCode(input: seq<byte>, pos: nat, room: nat) returns (ok: bool, raws: nat, runs: nat, ghost fault: Fault)
    requires pos <= |input|
    ensures ReadCode(input, pos, room) == if ok then Code(raws, runs) else NoCode(fault)
  {
    ok, raws, runs, fault := false, 0, 0, PastEnd;
    if pos < |input| {
      raws, runs := Counts(input[pos]);
      if raws + runs > room {
        fault := Overrun;
      } else {
        ok := pos + 1 + raws <= |input|;
      }
    }
  }

  /** One turn of the row's loop. */
  method RowTurn(input: seq<byte>, pos: nat, out: array<byte>, ghost n: nat, lane: nat, base: nat, width: nat, x: nat,
      colour: int, first: bool, ghost above: seq<byte>, ghost c: Cursor, ghost rest: seq<byte>)
      returns (ok: bool, next: nat, x': nat, last: int, ghost d: Cursor, ghost code: Code)
    requires lane < 4 && out.Length == 4 * n && pos <= |input| && x < width && At(c, pos, x, colour)
    requires Writing(Lane(out[..], n, lane), base, width, c.row, rest) && Below(first, rest, width, above)
    modifies out
    ensures code == ReadCode(input, pos, width - x) && ok == code.Code?
    ensures ok ==> d == Advance(input, c, code.raws, code.runs, above, first) && At(d, next, x', last)
    ensures Others(out[..], n, lane) == old(Others(out[..], n, lane))
    ensures ok ==> Writing(Lane(out[..], n, lane), base, width, d.row, rest)
  {
    next, x', last, d := pos, x, colour, c;
    code := ReadCode(input, pos, width - x);
    var raws, runs;
    ghost var fault;
    ok, raws, runs, fault := GetCode(input, pos, width - x);
    if ok {
      last, d := Segment(input, pos, raws, runs, out, n, lane, base, width, x, colour, first, above, c, rest);
      next, x' := pos + 1 + raws, x + raws + runs;
    }
  }

  /** `while (indexw < width)`: one row. */
  method RowLoop(input: seq<byte>, start: nat, out: array<byte>, ghost n: nat, lane: nat, base: nat, width: nat,
      first: bool, ghost above: seq<byte>, ghost rest: seq<byte>, ghost r: RowRead)
      returns (ok: bool, next: nat, ghost fault: Fault)
    requires lane < 4 && out.Length == 4 * n && start <= |input|
    requires Writing(Lane(out[..], n, lane), base, width, [], rest) && Below(first, rest, width, above)
    requires r == ReadRow(input, width, above, first, Cursor(start, [], 0))
    modifies out
    ensures Others(out[..], n, lane) == old(Others(out[..], n, lane))
    ensures if ok then r.Row? && r.next == next && Writing(Lane(out[..], n, lane), base, width, r.pixels, rest)
            else r == RowFault(fault)
  {
    ok, next, fault := true, start, Overrun;
    var indexw: nat, colour: int := 0, 0;
    ghost var c := Cursor(start, [], 0);
    while indexw < width
      invariant ok && next <= |input| && At(c, next, indexw, colour)
      invariant Writing(Lane(out[..], n, lane), base, width, c.row, rest)
      invariant Others(out[..], n, lane) == old(Others(out[..], n, lane))
      invariant ReadRow(input, width, above, first, c) == r
      decreases |input| - next
    {
      ghost var code;
      ok, next, indexw, colour, c, code :=
        RowTurn(input, next, out, n, lane, base, width, indexw, colour, first, above, c, rest);
      if !ok {
        fault := code.fault;
        return;
      }
    }
  }

  /** The plane with so many rows in place, the first one last. */
  ghost predicate Holds(plane: seq<byte>, width: nat, height: nat, rows: seq<seq<byte>>)
  {
    && |plane| == Places(height, width) && |rows| <= height
    && (RowsIn(width, height, |rows|); plane[Places(height - |rows|, width)..] == Stack(rows))
  }

  lemma RowsIn(width: nat, height: nat, h: nat)
    requires h <= height
    ensures Places(height - h, width) <= Places(height, width)
  {
    PlacesAdd(height - h, h, width);
  }

  lemma HoldsNext(before: seq<byte>, after: seq<byte>, width: nat, height: nat, rows: seq<seq<byte>>, row: seq<byte>)
    requires Holds(before, width, height, rows) && |rows| < height && |row| == width
    requires Writing(after, Places(height - |rows| - 1, width), width, row, Stack(rows)) && |after| == |before|
    ensures Holds(after, width, height, rows + [row])
  {
    var base := Places(height - |rows| - 1, width);
    assert after[base..] == row + Stack(rows);
    Push(rows, row);
  }

  lemma HoldsWriting(plane: seq<byte>, width: nat, height: nat, rows: seq<seq<byte>>)
    requires Holds(plane, width, height, rows) && |rows| < height
    ensures Writing(plane, Places(height - |rows| - 1, width), width, [], Stack(rows))
  {
    RowsIn(width, height, |rows|);
  }

  /** One row of the plane. */
  method PlaneTurn(input: seq<byte>, pos: nat, width: nat, height: nat, out: array<byte>, ghost n: nat, lane: nat,
      indexh: nat, ghost rows: seq<seq<byte>>) returns (ok: bool, next: nat, ghost fault: Fault, ghost row: seq<byte>)
    requires lane < 4 && n == width * height && out.Length == 4 * n && pos <= |input| && indexh < height
    requires |rows| == indexh && Holds(Lane(out[..], n, lane), width, height, rows)
    requires indexh > 0 ==> |rows[indexh - 1]| == width && rows[indexh - 1] <= Stack(rows)
    modifies out
    ensures Others(out[..], n, lane) == old(Others(out[..], n, lane))
    ensures var above := if indexh == 0 then [] else rows[indexh - 1];
            var r := ReadRow(input, width, above, indexh == 0, Cursor(pos, [], 0));
            if ok then r == Row(row, next) && Holds(Lane(out[..], n, lane), width, height, rows + [row])
            else r == RowFault(fault)
  {
    var base := width * height - (indexh + 1) * width;
    BaseIs(width, height, indexh, base);
    ghost var above := if indexh == 0 then [] else rows[indexh - 1];
    ghost var r := ReadRow(input, width, above, indexh == 0, Cursor(pos, [], 0));
    ghost var before := Lane(out[..], n, lane);
    HoldsWriting(before, width, height, rows);
    ok, next, fault := RowLoop(input, pos, out, n, lane, base, width, indexh == 0, above, Stack(rows), r);
    row := [];
    if ok {
      row := r.pixels;
      HoldsNext(before, Lane(out[..], n, lane), width, height, rows, row);
    }
  }

  /** process_plane: the bytes used, and the plane in its lane with the first row last. */
  method ProcessPlane(input: seq<byte>, start: nat, width: nat, height: nat, out: array<byte>, lane: nat)
      returns (ok: bool, next: nat, ghost fault: Fault)
    requires lane < 4 && out.Length == 4 * (width * height) && start <= |input|
    modifies out
    ensures Others(out[..], width * height, lane) == old(Others(out[..], width * height, lane))
    ensures var r := ReadPlane(input, start, width, height);
            if ok then r.Plane? && r.next == next && Lane(out[..], width * height, lane) == Stack(r.rows)
            else r == PlaneFault(fault)
  {
    ghost var n := width * height;
    ok, next, fault := true, start, Overrun;
    var indexh := 0;
    ghost var rows: seq<seq<byte>> := [];
    PlacesIs(height, width);
    while indexh < height
      invariant indexh <= height && next <= |input| && ok
      invariant ReadPlane(input, start, width, indexh) == Plane(rows, next)
      invariant Others(out[..], n, lane) == old(Others(out[..], n, lane))
      invariant Holds(Lane(out[..], n, lane), width, height, rows)
    {
      ghost var row;
      ok, next, fault, row := PlaneTurn(input, next, width, height, out, n, lane, indexh, rows);
      if !ok {
        PlaneFails(input, start, width, height, indexh + 1);
        return;
      }
      rows := rows + [row];
      indexh := indexh + 1;
    }
  }

  lemma BaseIs(width: nat, height: nat, indexh: nat, base: int)
    requires indexh < height && base == width * height - (indexh + 1) * width
    ensures base == Places(height - indexh - 1, width)
  {
    PlacesIs(height - indexh - 1, width);
    assert width * height - (indexh + 1) * width == (height - indexh - 1) * width;
  }

  /** A fault in the lower rows is a fault of the plane. */
  lemma {:induction false} PlaneFails(input: seq<byte>, pos: nat, width: nat, height: nat, h: nat)
    requires pos <= |input| && h <= height && ReadPlane(input, pos, width, h).PlaneFault?
    ensures ReadPlane(input, pos, width, height) == ReadPlane(input, pos, width, h)
    decreases height - h
  {
    if h < height {
      PlaneFails(input, pos, width, height, h + 1);
    }
  }

  /** The planes of a bitmap in the order they are sent, each after the one before. */
  datatype Planes = Planes(all: seq<seq<seq<byte>>>, next: nat) | PlanesFault(fault: Fault)

  function ReadPlanes(input: seq<byte>, pos: nat, width: nat, height: nat, count: nat): (r: Planes)
    requires pos <= |input|
    ensures r.Planes? ==> |r.all| == count && pos <= r.next <= |input|
  {
    if count == 0 then Planes([], pos)
    else
      var before := ReadPlanes(input, pos, width, height, count - 1);
      if before.PlanesFault? then before
      else
        var p := ReadPlane(input, before.next, width, height);
        if p.PlaneFault? then PlanesFault(p.fault) else Planes(before.all + [p.rows], p.next)
  }

  /** Plane i, if sent, is in its lane. */
  ghost predicate InLane(s: seq<byte>, n: nat, planes: seq<seq<seq<byte>>>, i: nat, lane: nat)
    requires |s| >= 4 * n && lane < 4
  {
    i < |planes| ==> Lane(s, n, lane) == Stack(planes[i])
  }

  /** The planes are in their lanes, the first one in the last byte of a pixel. */
  ghost predicate InLanes(s: seq<byte>, n: nat, planes: seq<seq<seq<byte>>>)
    requires |s| >= 4 * n
  {
    InLane(s, n, planes, 0, 3) && InLane(s, n, planes, 1, 2) && InLane(s, n, planes, 2, 1) && InLane(s, n, planes, 3, 0)
  }

  /** Writing one plane leaves the others where they are. */
  lemma LaneKept(s: seq<byte>, t: seq<byte>, n: nat, planes: seq<seq<seq<byte>>>, p: seq<seq<byte>>, lane: nat, i: nat,
      other: nat)
    requires |s| >= 4 * n && |t| >= 4 * n && |planes| < 4 && lane == 3 - |planes| && i < 4 && other == 3 - i
    requires InLane(s, n, planes, i, other)
    requires Lane(t, n, lane) == Stack(p) && Others(t, n, lane) == Others(s, n, lane)
    ensures InLane(t, n, planes + [p], i, other)
  {
    if i < |planes| {
      OtherLane(s, t, n, lane, other);
    }
  }

  lemma InLanesNext(s: seq<byte>, t: seq<byte>, n: nat, planes: seq<seq<seq<byte>>>, p: seq<seq<byte>>, k: nat,
      lane: nat)
    requires |s| >= 4 * n && |t| >= 4 * n && k == |planes| < 4 && lane == 3 - k && InLanes(s, n, planes)
    requires Lane(t, n, lane) == Stack(p) && Others(t, n, lane) == Others(s, n, lane)
    ensures InLanes(t, n, planes + [p])
  {
    LaneKept(s, t, n, planes, p, lane, 0, 3);
    LaneKept(s, t, n, planes, p, lane, 1, 2);
    LaneKept(s, t, n, planes, p, lane, 2, 1);
    LaneKept(s, t, n, planes, p, lane, 3, 0);
  }

  /** Undefined: a plane overruns a row or the input. */
  datatype Verdict = Returned(value: bool) | Undefined

  /** One of the four calls of process_plane. */
  method NextPlane(input: seq<byte>, pos: nat, width: nat, height: nat, out: array<byte>, ghost k: nat, lane: nat,
      ghost planes: seq<seq<seq<byte>>>)
      returns (ok: bool, next: nat, ghost now: seq<seq<seq<byte>>>, ghost fault: Fault)
    requires k < 4 && lane == 3 - k && out.Length == 4 * (width * height) && 1 <= pos <= |input|
    requires ReadPlanes(input, 1, width, height, k) == Planes(planes, pos) && InLanes(out[..], width * height, planes)
    modifies out
    ensures ok ==> 1 <= next <= |input|
    ensures ok ==>
      ReadPlanes(input, 1, width, height, k + 1) == Planes(now, next) && InLanes(out[..], width * height, now)
    ensures !ok ==> ReadPlanes(input, 1, width, height, k + 1) == PlanesFault(fault)
  {
    ghost var s := out[..];
    ok, next, fault := ProcessPlane(input, pos, width, height, out, lane);
    now := planes;
    if ok {
      ghost var p := ReadPlane(input, pos, width, height).rows;
      InLanesNext(s, out[..], width * height, planes, p, k, lane);
      now := planes + [p];
    }
  }

  lemma PlanesFail(input: seq<byte>, width: nat, height: nat)
    requires 1 <= |input|
    ensures ReadPlanes(input, 1, width, height, 4).Planes? ==> ReadPlanes(input, 1, width, height, 3).Planes?
    ensures ReadPlanes(input, 1, width, height, 3).Planes? ==> ReadPlanes(input, 1, width, height, 2).Planes?
    ensures ReadPlanes(input, 1, width, height, 2).Planes? ==> ReadPlanes(input, 1, width, height, 1).Planes?
  {
  }

  /** bitmap_decompress4: all four planes in their lanes, and whether the input is used up. */
  method Decompress4(input: seq<byte>, width: nat, height: nat, out: array<byte>) returns (v: Verdict)
    requires out.Length == 4 * (width * height)
    modifies out
    ensures |input| > 0 && input[0] != 0x10 ==> v == Returned(false)
    ensures |input| > 0 && input[0] == 0x10 ==>
      var r := ReadPlanes(input, 1, width, height, 4);
      if r.Planes? then v == Returned(r.next == |input|) && InLanes(out[..], width * height, r.all) else v.Undefined?
  {
    if |input| == 0 {
      return Undefined;
    }
    if input[0] != 0x10 {
      return Returned(false);
    }
    PlanesFail(input, width, height);
    var ok, total;
    ghost var planes, fault;
    ok, total, planes, fault := NextPlane(input, 1, width, height, out, 0, 3, []);
    if !ok { return Undefined; }
    ok, total, planes, fault := NextPlane(input, total, width, height, out, 1, 2, planes);
    if !ok { return Undefined; }
    ok, total, planes, fault := NextPlane(input, total, width, height, out, 2, 1, planes);
    if !ok { return Undefined; }
    ok, total, planes, fault := NextPlane(input, total, width, height, out, 3, 0, planes);
    if !ok { return Undefined; }
    v := Returned(total == |input|);
  }
}
