/** Pictures stored from the bottom row up, and the same rows as one stream from the top of the
    list: the arithmetic of `height * width + x`. */
module Rows {

  /** The places of h rows: `height * width`, row by row. */
  ghost function Places(h: nat, width: nat): nat
  {
    if h == 0 then 0 else Places(h - 1, width) + width
  }

  lemma {:induction false} PlacesIs(h: nat, width: nat)
    ensures Places(h, width) == h * width
  {
    if h > 0 {
      PlacesIs(h - 1, width);
      assert h * width == (h - 1) * width + width;
    }
  }

  /** Row b ends before row a starts. */
  lemma {:induction false} RowsBefore(b: nat, a: nat, w: nat)
    requires b < a
    ensures Places(a, w) >= Places(b, w) + w
  {
    if b < a - 1 {
      RowsBefore(b, a - 1, w);
    }
  }

  lemma {:induction false} PlacesAdd(a: nat, b: nat, w: nat)
    ensures Places(a + b, w) == Places(a, w) + Places(b, w)
  {
    if b > 0 {
      PlacesAdd(a, b - 1, w);
    }
  }

  /** The rows, bottom of the picture last, as one stream. */
  ghost function Flat<T>(rows: seq<seq<T>>): seq<T>
  {
    if rows == [] then [] else Flat(rows[..|rows| - 1]) + rows[|rows| - 1]
  }

  lemma {:induction false} FlatLength<T>(rows: seq<seq<T>>, width: nat)
    requires forall r :: 0 <= r < |rows| ==> |rows[r]| == width
    ensures |Flat(rows)| == Places(|rows|, width)
  {
    if rows != [] {
      FlatLength(rows[..|rows| - 1], width);
    }
  }

  /** The rows in the order of the output: the last one first. */
  ghost function Stack<T>(rows: seq<seq<T>>): seq<T>
  {
    if rows == [] then [] else rows[|rows| - 1] + Stack(rows[..|rows| - 1])
  }

  lemma NoRows<T>()
    ensures Stack<T>([]) == [] && Flat<T>([]) == []
  {
  }

  lemma {:induction false} StackLength<T>(rows: seq<seq<T>>, width: nat)
    requires forall r :: 0 <= r < |rows| ==> |rows[r]| == width
    ensures |Stack(rows)| == Places(|rows|, width)
  {
    if rows != [] {
      StackLength(rows[..|rows| - 1], width);
    }
  }

  /** Row r of them, counted from the last. */
  lemma {:induction false} StackAt<T>(rows: seq<seq<T>>, width: nat, r: nat, c: nat)
    requires (forall i :: 0 <= i < |rows| ==> |rows[i]| == width) && r < |rows| && c < width
    ensures var i := Places(|rows| - 1 - r, width) + c; i < |Stack(rows)| && Stack(rows)[i] == rows[r][c]
  {
    var n := |rows| - 1;
    StackLength(rows[..n], width);
    if r < n {
      StackAt(rows[..n], width, r, c);
    }
  }

  lemma Push<T>(rows: seq<seq<T>>, row: seq<T>)
    ensures Flat(rows + [row]) == Flat(rows) + row
    ensures Stack(rows + [row]) == row + Stack(rows)
  {
    assert (rows + [row])[..|rows|] == rows;
  }

  lemma Halves<T>(o: seq<T>, line: nat, n: nat)
    requires line + n <= |o|
    ensures o[line..] == o[line..line + n] + o[line + n..]
  {
  }

  /** A full row under the cursor becomes the top of the stack. */
  lemma PushRow<T>(o: seq<T>, line: nat, above: seq<seq<T>>, row: seq<T>)
    requires line + |row| <= |o| && o[line..line + |row|] == row && o[line + |row|..] == Stack(above)
    ensures Flat(above + [row]) + [] == Flat(above) + row
    ensures o[line..] == Stack(above + [row])
  {
    hide Flat, Stack;
    Push(above, row);
    Halves(o, line, |row|);
  }

  lemma Quotient(k: nat, width: nat, q: nat, c: nat)
    requires c < width && Places(q, width) + c == k
    ensures k / width == q && k % width == c
  {
    PlacesIs(q, width);
    var e := k / width - q;
    assert width * e == c - k % width by {
      assert k == width * (k / width) + k % width;
      assert width * (k / width) == width * q + width * e;
    }
    Small(e, width, c - k % width);
  }

  lemma Small(e: int, w: nat, d: int)
    requires w * e == d && d < w && d + w > 0
    ensures e == 0
  {
  }

  /** Row q holds pixel k, and lies so many rows below the top of the stack. */
  lemma {:induction false} StackPlace<T>(rows: seq<seq<T>>, width: nat, k: nat) returns (q: nat)
    requires (forall r :: 0 <= r < |rows| ==> |rows[r]| == width) && k < Places(|rows|, width)
    ensures q < |rows| && Places(q, width) <= k < Places(q + 1, width)
    ensures var c := k - Places(q, width);
            var i := Places(|rows| - 1 - q, width) + c;
            k < |Flat(rows)| && i < |Stack(rows)| && Stack(rows)[i] == Flat(rows)[k]
  {
    var n := |rows| - 1;
    var init := rows[..n];
    Unstack(rows);
    FlatLength(init, width);
    StackLength(init, width);
    hide Flat, Stack;
    if k >= Places(n, width) {
      q := n;
    } else {
      q := StackPlace(init, width, k);
    }
  }

  lemma Unstack<T>(rows: seq<seq<T>>)
    requires rows != []
    ensures var n := |rows| - 1; Flat(rows) == Flat(rows[..n]) + rows[n] && Stack(rows) == rows[n] + Stack(rows[..n])
  {
  }

  /** A pixel of the row under the cursor. */
  lemma LowestRow<T>(o: seq<T>, above: seq<seq<T>>, row: seq<T>, width: nat, rows: nat, k: nat)
    requires (forall r :: 0 <= r < |above| ==> |above[r]| == width) && |row| <= width && |above| < rows
    requires var line := Places(rows - 1 - |above|, width); line + |row| <= |o| && o[line..line + |row|] == row
    requires Places(|above|, width) <= k < Places(|above|, width) + |row|
    ensures width > 0 && k / width < rows
    ensures var place := (rows - 1 - k / width) * width + k % width;
            0 <= place < |o| && k < |Flat(above) + row| && o[place] == (Flat(above) + row)[k]
  {
    var q, c := |above|, k - Places(|above|, width);
    var line := Places(rows - 1 - q, width);
    FlatLength(above, width);
    Quotient(k, width, q, c);
    PlacesIs(rows - 1 - q, width);
    assert o[line..line + |row|][c] == o[line + c];
  }

  /** A pixel of a finished row. */
  lemma HigherRow<T>(o: seq<T>, above: seq<seq<T>>, row: seq<T>, width: nat, rows: nat, k: nat)
    requires (forall r :: 0 <= r < |above| ==> |above[r]| == width) && |above| < rows
    requires var line := Places(rows - 1 - |above|, width); line + width <= |o| && o[line + width..] == Stack(above)
    requires k < Places(|above|, width)
    ensures width > 0 && k / width < rows
    ensures var place := (rows - 1 - k / width) * width + k % width;
            0 <= place < |o| && k < |Flat(above) + row| && o[place] == (Flat(above) + row)[k]
  {
    var q := StackPlace(above, width, k);
    var c := k - Places(q, width);
    Quotient(k, width, q, c);
    PlacesIs(rows - 1 - q, width);
    FlatLength(above, width);
    var n := |above| - 1 - q;
    PlacesAdd(rows - |above|, n, width);
    var below := Places(rows - |above|, width);
    assert o[below..][Places(n, width) + c] == o[below + Places(n, width) + c];
  }

  /** A pixel of either. */
  lemma AnyRow<T>(o: seq<T>, above: seq<seq<T>>, row: seq<T>, width: nat, rows: nat, k: nat)
    requires (forall r :: 0 <= r < |above| ==> |above[r]| == width) && |row| <= width && |above| < rows
    requires |o| == Places(rows, width)
    requires var line := Places(rows - 1 - |above|, width);
             line + width <= |o| && o[line..line + |row|] == row && o[line + width..] == Stack(above)
    requires k < Places(|above|, width) + |row|
    ensures width > 0 && k / width < rows
    ensures var place := (rows - 1 - k / width) * width + k % width;
            0 <= place < |o| && k < |Flat(above) + row| && o[place] == (Flat(above) + row)[k]
  {
    hide Flat, Stack, Places;
    if k >= Places(|above|, width) {
      LowestRow(o, above, row, width, rows, k);
    } else {
      HigherRow(o, above, row, width, rows, k);
    }
  }

  /** One row back from the end of the stream is the top of the stack. */
  lemma BackOneRow<T>(rows: seq<seq<T>>, row: seq<T>, width: nat)
    requires rows != [] && |row| < width && forall r :: 0 <= r < |rows| ==> |rows[r]| == width
    ensures var out := Flat(rows) + row;
            && |out| >= width && |Stack(rows)| >= width
            && out[|out| - width] == Stack(rows)[|row|]
  {
    var before, last := Flat(rows[..|rows| - 1]), rows[|rows| - 1];
    assert Flat(rows) + row == before + (last + row);
    assert (last + row)[|row|] == last[|row|];
  }
}
