/** What drawing and storing do to the order of use, the bitmaps and the file, in their own terms. */
module CacheMeaning {
  import opened Wrappers
  import opened CacheSpec
  import opened CacheList
  import opened CacheProofs

  /** The cell at place i is at place k afterwards, and the others are in the order they were in. */
  ghost predicate Moved(before: seq<nat>, i: nat, after: seq<nat>, k: nat)
  {
    && i < |before| == |after| && k < |after| && after[k] == before[i]
    && after[..k] + after[k + 1..] == before[..i] + before[i + 1..]
  }

  /** A cell enters as the last one, with its bitmap. The first of 0x150 others gives way: its bitmap
      is dropped, and so is its stamp in the file. */
  ghost predicate Enters(s: Store, idx: nat, b: Bitmap, r: Store)
    requires InRange(s) && idx < CELLS
  {
    if |s.order| < 0x150 then r == Store(s.live[idx := Some(b)], s.order + [idx], s.cells)
    else
      var first := s.order[0];
      && r.live == s.live[idx := Some(b)][first := None]
      && r.order == s.order[1..] + [idx]
      && r.cells == if first < 0x9f6 then s.cells[first := s.cells[first].(stamp := 0)] else s.cells
  }

  lemma MovedIs(order: seq<nat>, i: nat, bump: int)
    requires Apart(order) && i < |order|
    ensures var far := |order| - 1 - i;
            Moved(order, i, Bumped(order, order[i], bump), i + if bump < 0 || far < bump then far else bump)
  {
    BumpMoves(order, i, bump);
  }

  lemma EntersIs(s: Store, idx: nat, b: Bitmap)
    requires Sound(s) && idx < CELLS && s.live[idx].None?
    ensures Enters(s, idx, b, Put(s, idx, b))
  {
    hide Apart;
    assert idx !in s.order;
    BumpedToTop(s.order, idx);
    assert With(s.order, |s.order|, idx) == s.order + [idx];
    assert |s.order| == 0x150 ==> (s.order + [idx])[1..] == s.order[1..] + [idx] && s.order[0] != idx;
  }

  /** Drawing what is in memory moves its cell 40 places up, or to the end; drawing what is only in the
      file makes its cell the last one; and there is nothing else to draw. */
  lemma DrawMeans(s: Store, idx: nat)
    requires Sound(s)
    ensures var r := Apply(s, Draw(idx));
            && (forall i :: 0 <= i < |s.order| && s.order[i] == idx ==>
                  && Moved(s.order, i, r.order, if i + 40 < |s.order| then i + 40 else |s.order| - 1)
                  && r.live == s.live && r.cells == s.cells)
            && (idx !in s.order && idx < 0x9f6 ==> Enters(s, idx, s.cells[idx].bitmap, r))
            && (idx !in s.order && idx >= 0x9f6 ==> r == s)
  {
    hide Moved, Enters, Put, Apart, Bumped;
    forall i | 0 <= i < |s.order| && s.order[i] == idx
      ensures Moved(s.order, i, Apply(s, Draw(idx)).order, if i + 40 < |s.order| then i + 40 else |s.order| - 1)
    {
      MovedIs(s.order, i, 40);
    }
    if idx !in s.order && idx < 0x9f6 {
      EntersIs(s, idx, s.cells[idx].bitmap);
      EntersLast(s, idx, s.cells[idx].bitmap, Put(s, idx, s.cells[idx].bitmap));
      LastStays(Put(s, idx, s.cells[idx].bitmap).order, idx);
    }
  }

  lemma EntersLast(s: Store, idx: nat, b: Bitmap, r: Store)
    requires InRange(s) && idx < CELLS && Enters(s, idx, b, r)
    ensures r.order != [] && r.order[|r.order| - 1] == idx
  {
  }

  lemma LastStays(order: seq<nat>, idx: nat)
    requires order != [] && order[|order| - 1] == idx
    ensures Bumped(order, idx, BUMP_COUNT) == order
  {
  }

  /** Storing makes the cell the last one, wherever it was; the bitmap goes into the cache where there
      is such a cell, and into the file, without a stamp, if it is to be kept and the file has the cell. */
  lemma ReceiveMeans(s: Store, idx: nat, b: Bitmap, key: Option<nat>)
    requires Sound(s)
    ensures var r := Apply(s, Receive(idx, b, key));
            var kept := key.Some? && idx < 0x9f6;
            exists t: Store ::
              && (forall i :: 0 <= i < |s.order| && s.order[i] == idx ==>
                    && Moved(s.order, i, t.order, |s.order| - 1)
                    && t.live == s.live[idx := Some(b)] && t.cells == s.cells)
              && (idx !in s.order && idx < 0xa00 ==> Enters(s, idx, b, t))
              && (idx >= 0xa00 ==> t == s)
              && r.live == t.live && r.order == t.order && |t.cells| == 0x9f6
              && r.cells == if kept then t.cells[idx := Cell(key.value, b, 0)] else t.cells
  {
    hide Moved, Enters, Apart, Bumped;
    var t := if idx < CELLS then Put(s, idx, b) else s;
    forall i | 0 <= i < |s.order| && s.order[i] == idx
      ensures Moved(s.order, i, t.order, |s.order| - 1)
      ensures t.live == s.live[idx := Some(b)] && t.cells == s.cells
    {
      MovedIs(s.order, i, -1);
      MovedSize(s.order, i, Bumped(s.order, idx, -1), |s.order| - 1);
    }
    if idx !in s.order && idx < CELLS {
      EntersIs(s, idx, b);
    }
    assert |t.cells| == 0x9f6;
  }

  lemma MovedSize(before: seq<nat>, i: nat, after: seq<nat>, k: nat)
    requires Moved(before, i, after, k)
    ensures |before| == |after|
  {
  }
}
