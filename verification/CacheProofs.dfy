/** Whole runs of the bitmap cache, and what a program that starts later finds in its file. */
module CacheProofs {
  import opened Wrappers
  import opened CacheSpec
  import opened CacheList

  /** What every operation keeps: one list without repetition of exactly the cells with a bitmap. */
  ghost predicate Sound(s: Store)
  {
    InRange(s) && Apart(s.order) && Holds(s.live, s.order) && |s.order| <= LIMIT
  }

  /** A cell with a stamp in the file is on the list. */
  ghost predicate Marked(s: Store)
  {
    forall i {:trigger s.cells[i]} :: 0 <= i < |s.cells| && s.cells[i].stamp != 0 ==> i in s.order
  }

  /** A bitmap in memory is the one in the file, if the file has its cell; one cell may be exempt. */
  ghost predicate BackedBut(s: Store, exempt: int)
  {
    forall i {:trigger s.cells[i]} :: 0 <= i < |s.cells| && i < |s.live| && i != exempt && s.live[i].Some? ==>
        s.live[i] == Some(s.cells[i].bitmap)
  }

  ghost predicate Backed(s: Store) { BackedBut(s, -1) }

  // One operation.

  lemma EvictKeeps(s: Store)
    requires InRange(s) && Apart(s.order) && Holds(s.live, s.order) && s.order != []
    ensures var r := Evict(s); InRange(r) && Apart(r.order) && Holds(r.live, r.order) && |r.order| == |s.order| - 1
    ensures Marked(s) ==> Marked(Evict(s))
    ensures forall exempt :: BackedBut(s, exempt) ==> BackedBut(Evict(s), exempt)
  {
    HoldsEvict(s.live, s.order);
    WithoutDistinct(s.order, 0);
    assert Without(s.order, 0) == s.order[1..];
    hide Apart, Holds;
  }

  lemma PutKeeps(s: Store, idx: nat, b: Bitmap)
    requires Sound(s) && idx < CELLS
    ensures Sound(Put(s, idx, b)) && (Marked(s) ==> Marked(Put(s, idx, b)))
    ensures Backed(s) && (idx < FILE_CELLS ==> b == s.cells[idx].bitmap) ==> Backed(Put(s, idx, b))
    ensures Backed(s) ==> BackedBut(Put(s, idx, b), idx)
  {
    hide Apart, Holds, Bumped;
    BumpedMembers(s.order, idx, TO_TOP);
    HoldsPut(s.live, s.order, idx, b, TO_TOP);
    BumpedInRange(s.order, idx, TO_TOP, CELLS);
    var t := Store(s.live[idx := Some(b)], Bumped(s.order, idx, TO_TOP), s.cells);
    if |t.order| > LIMIT {
      EvictKeeps(t);
    }
  }

  lemma BumpKeeps(s: Store, idx: nat, bump: int)
    requires Sound(s) && idx in s.order
    ensures Sound(s.(order := Bumped(s.order, idx, bump)))
    ensures Marked(s) ==> Marked(s.(order := Bumped(s.order, idx, bump)))
    ensures Backed(s) ==> Backed(s.(order := Bumped(s.order, idx, bump)))
  {
    hide Apart, Bumped;
    BumpedMembers(s.order, idx, bump);
    var i := Place(s.order, idx);
    BumpedInRange(s.order, idx, bump, CELLS);
  }

  lemma PutIsListed(s: Store, idx: nat, b: Bitmap)
    requires Sound(s) && idx < CELLS
    ensures idx in Put(s, idx, b).order
  {
    PutIsLive(s, idx, b);
    PutKeeps(s, idx, b);
    hide Put, Apart;
  }

  lemma GetKeeps(s: Store, idx: nat)
    requires Sound(s) && idx < CELLS
    ensures Sound(Get(s, idx)) && (Marked(s) ==> Marked(Get(s, idx))) && (Backed(s) ==> Backed(Get(s, idx)))
  {
    hide Apart, Bumped, Put;
    if s.live[idx].Some? {
      BumpKeeps(s, idx, BUMP_COUNT);
    } else if idx < FILE_CELLS {
      var b := s.cells[idx].bitmap;
      PutKeeps(s, idx, b);
      PutIsListed(s, idx, b);
      BumpKeeps(Put(s, idx, b), idx, BUMP_COUNT);
    }
  }

  // Runs.

  /** What the server asks for: a bitmap stored in a cell, with a key if it is to go into the file
      as well, or one drawn from a cell. */
  datatype Op = Receive(idx: nat, b: Bitmap, key: Option<nat>) | Draw(idx: nat)

  function Apply(s: Store, op: Op): (r: Store)
    requires InRange(s)
    ensures InRange(r)
  {
    match op
    case Receive(idx, b, key) =>
      var t := if idx < CELLS then Put(s, idx, b) else s;
      if key.Some? then SaveCell(t, idx, key.value, b) else t
    case Draw(idx) => if idx < CELLS then Get(s, idx) else s
  }

  function Run(s: Store, ops: seq<Op>): (r: Store)
    requires InRange(s)
    ensures InRange(r)
  {
    if ops == [] then s else Apply(Run(s, ops[..|ops| - 1]), ops[|ops| - 1])
  }

  predicate Persistent(ops: seq<Op>) { forall i :: 0 <= i < |ops| && ops[i].Receive? ==> ops[i].key.Some? }

  lemma SaveKeeps(s: Store, idx: nat, key: nat, b: Bitmap)
    requires Sound(s)
    ensures Sound(SaveCell(s, idx, key, b)) && (Marked(s) ==> Marked(SaveCell(s, idx, key, b)))
  {
    hide Apart, Holds;
  }

  lemma ApplyKeeps(s: Store, op: Op)
    requires Sound(s)
    ensures Sound(Apply(s, op)) && (Marked(s) ==> Marked(Apply(s, op)))
  {
    hide Apart, Holds, Put, Get, SaveCell, Marked;
    match op
    case Receive(idx, b, key) =>
      var t := if idx < CELLS then Put(s, idx, b) else s;
      if idx < CELLS {
        PutKeeps(s, idx, b);
      }
      if key.Some? {
        SaveKeeps(t, idx, key.value, b);
      }
    case Draw(idx) =>
      if idx < CELLS {
        GetKeeps(s, idx);
      }
  }

  /** A bitmap that also goes into the file. */
  lemma ReceiveBacked(s: Store, idx: nat, b: Bitmap, key: nat)
    requires Sound(s) && Backed(s) && idx < CELLS
    ensures Backed(SaveCell(Put(s, idx, b), idx, key, b))
  {
    PutKeeps(s, idx, b);
    PutIsLive(s, idx, b);
    hide Put, Apart, Holds;
  }

  lemma ApplyBacked(s: Store, op: Op)
    requires Sound(s) && Backed(s) && (op.Receive? ==> op.key.Some?)
    ensures Backed(Apply(s, op))
  {
    hide Apart, Holds, Put, Get, Backed;
    match op
    case Receive(idx, b, key) =>
      if idx < CELLS {
        ReceiveBacked(s, idx, b, key.value);
      }
    case Draw(idx) =>
      if idx < CELLS {
        GetKeeps(s, idx);
      }
  }

  /** Whatever the server asks for, in whatever order. */
  lemma {:induction false} RunKeeps(s: Store, ops: seq<Op>)
    requires Sound(s)
    ensures Sound(Run(s, ops)) && (Marked(s) ==> Marked(Run(s, ops)))
    ensures Backed(s) && Persistent(ops) ==> Backed(Run(s, ops))
  {
    hide Backed, Marked, Apply, Apart, Holds;
    if ops != [] {
      RunKeeps(s, ops[..|ops| - 1]);
      var t, op := Run(s, ops[..|ops| - 1]), ops[|ops| - 1];
      ApplyKeeps(t, op);
      if Backed(s) && Persistent(ops) {
        ApplyBacked(t, op);
      }
    }
  }

  // The start of a program.

  /** A cache that has been given nothing yet. */
  ghost predicate Fresh(s: Store)
  {
    Sound(s) && s.order == []
  }

  /** Beyond the list of keys the file has no stamps. */
  ghost predicate Clean(cells: seq<Cell>)
  {
    forall i {:trigger cells[i]} :: Prefix(cells) <= i < |cells| ==> cells[i].stamp == 0
  }

  /** Cells of the file that have been passed and still have a stamp are on the list. */
  ghost predicate MarkedTo(s: Store, n: nat)
  {
    forall i {:trigger s.cells[i]} :: 0 <= i < n && i < |s.cells| && s.cells[i].stamp != 0 ==> i in s.order
  }

  ghost predicate SameFrom(a: seq<Cell>, b: seq<Cell>, n: nat)
  {
    |a| == |b| && forall i {:trigger a[i]} {:trigger b[i]} :: n <= i < |a| ==> a[i] == b[i]
  }

  lemma FreshBacked(s: Store)
    requires Fresh(s)
    ensures Backed(s)
  {
  }

  lemma LoadStep(s: Store, n: nat, cells: seq<Cell>)
    requires Sound(s) && Below(s.order, n) && n < FILE_CELLS && MarkedTo(s, n) && SameFrom(s.cells, cells, n)
    ensures var r := Put(s, n, s.cells[n].bitmap);
            Sound(r) && Below(r.order, n + 1) && MarkedTo(r, n + 1) && SameFrom(r.cells, cells, n + 1)
                && (Backed(s) ==> Backed(r))
  {
    var b := s.cells[n].bitmap;
    PutKeeps(s, n, b);
    PutBelow(s, n, b, n + 1);
    PutIsListed(s, n, b);
    BumpedMembers(s.order, n, TO_TOP);
    BumpedInRange(s.order, n, TO_TOP, n + 1);
    hide Apart, Holds, Bumped, Backed;
  }

  lemma {:induction false} LoadedKeeps(s: Store, n: nat)
    requires Fresh(s) && n <= FILE_CELLS
    ensures var r := Loaded(s, n, true);
            Sound(r) && Below(r.order, n) && MarkedTo(r, n) && SameFrom(r.cells, s.cells, n) && Backed(r)
  {
    hide Apart, Holds, Backed, Put;
    if n == 0 {
      FreshBacked(s);
    } else {
      LoadedKeeps(s, n - 1);
      var t := Loaded(s, n - 1, true);
      if t.cells[n - 1].stamp != 0 {
        LoadStep(t, n - 1, s.cells);
      }
    }
  }

  /** The list in another order. */
  lemma Reordered(s: Store, list: seq<nat>, n: nat)
    requires Sound(s) && Below(s.order, n) && n <= CELLS
    requires Apart(list) && (forall i :: 0 <= i < |list| ==> list[i] < CELLS) && forall c: nat :: c in list <==> c < n
    ensures var r := s.(order := Live(s.live, list));
            Sound(r) && (forall c :: c in s.order ==> c in r.order)
                && (forall c :: c in r.order ==> c in s.order && c in list)
  {
    Relisted(s.live, s.order, list, n);
    LiveMembers(s.live, list);
    LiveDistinct(s.live, list);
    hide Apart, Live;
    var r := Live(s.live, list);
    forall i | 0 <= i < |r| ensures r[i] < CELLS {
      assert r[i] in r;
    }
  }

  /** Reading the file gives a sound cache, whatever the file holds; a clean file gives a marked one. */
  lemma EnumeratedKeeps(s: Store)
    requires Fresh(s)
    ensures Sound(Enumerated(s, true)) && Backed(Enumerated(s, true))
    ensures Clean(s.cells) ==> Marked(Enumerated(s, true))
  {
    var n := Prefix(s.cells);
    LoadedKeeps(s, n);
    EntriesMembers(s, n, true);
    Reordered(Loaded(s, n, true), Indices(Entries(s, n, true)), n);
    hide Apart, Holds, Prefix, Loaded, Entries, Indices, Live;
  }

  // The file at exit.

  /** The k-th cell on the list gets stamp t + k + 1; a cell that is not on it keeps what it has. */
  lemma {:induction false} StampedAt(cells: seq<Cell>, order: seq<nat>, n: nat, t: nat, i: nat)
    requires Apart(order) && n <= |order| && i < |cells|
    ensures i !in order[..n] ==> Stamped(cells, order, n, t)[i] == cells[i]
    ensures i in order && Place(order, i) < n ==>
      Stamped(cells, order, n, t)[i] == cells[i].(stamp := t + Place(order, i) + 1)
  {
    if n > 0 {
      StampedAt(cells, order, n - 1, t, i);
      assert order[..n] == order[..n - 1] + [order[n - 1]];
      PlaceIs(order, n - 1);
    }
  }

  /** The stamps of the cells on the list tell its order. */
  ghost predicate Ranked(cells: seq<Cell>, order: seq<nat>, t: nat)
  {
    forall i {:trigger cells[i]} :: 0 <= i < |cells| && i in order ==> cells[i].stamp == t + Place(order, i) + 1
  }

  /** A cell that is not on the list keeps the stamp it had. */
  lemma SavedRanked(s: Store, t: nat)
    requires Sound(s)
    ensures var r := SaveState(s, t).cells;
            && Ranked(r, s.order, t)
            && forall i {:trigger r[i]} {:trigger s.cells[i]} :: 0 <= i < FILE_CELLS ==>
                 && r[i] == s.cells[i].(stamp := r[i].stamp)
                 && (r[i].stamp != 0 <==> i in s.order || s.cells[i].stamp != 0)
  {
    var r := SaveState(s, t).cells;
    forall i | 0 <= i < |r|
      ensures r[i] == s.cells[i].(stamp := if i in s.order then t + Place(s.order, i) + 1 else s.cells[i].stamp)
    {
      StampedAt(s.cells, s.order, |s.order|, t, i);
      assert s.order[..|s.order|] == s.order;
    }
  }

  lemma {:induction false} SubsetSize(a: seq<nat>, b: seq<nat>)
    requires Apart(a) && Apart(b) && forall c :: c in a ==> c in b
    ensures |a| <= |b|
  {
    if a != [] {
      Tail(a);
      var i := Place(b, a[0]);
      WithoutDistinct(b, i);
      SubsetSize(a[1..], Without(b, i));
    }
  }

  // What is loaded.

  /** The cells below m that have a stamp. */
  function Used(cells: seq<Cell>, m: nat): (r: seq<nat>)
    requires m <= |cells|
    ensures forall i :: 0 <= i < |r| ==> r[i] < m
    ensures forall i, j :: 0 <= i < j < |r| ==> r[i] < r[j]
  {
    if m == 0 then []
    else if cells[m - 1].stamp != 0 then Used(cells, m - 1) + [m - 1]
    else Used(cells, m - 1)
  }

  lemma {:induction false} UsedMembers(cells: seq<Cell>, m: nat)
    requires m <= |cells|
    ensures forall c: nat :: c in Used(cells, m) <==> c < m && cells[c].stamp != 0
  {
    if m > 0 {
      UsedMembers(cells, m - 1);
    }
  }

  /** The last n elements. */
  function Last(q: seq<nat>, n: nat): (r: seq<nat>)
    ensures |r| == if |q| <= n then |q| else n
  {
    if |q| <= n then q else q[|q| - n..]
  }

  lemma LastMore(q: seq<nat>, c: nat, n: nat)
    requires n > 0
    ensures var a := Last(q, n) + [c]; Last(q + [c], n) == if |a| > n then a[1..] else a
  {
  }

  /** A cell that is loaded comes on top, and the lowest one goes when there are too many. */
  lemma PutOnTop(s: Store, idx: nat, b: Bitmap)
    requires Sound(s) && idx < CELLS && idx !in s.order
    ensures var a := s.order + [idx]; Put(s, idx, b).order == if |a| > LIMIT then a[1..] else a
    ensures |s.order| < LIMIT ==> Put(s, idx, b).cells == s.cells
  {
    assert With(s.order, |s.order|, idx) == s.order + [idx];
  }

  lemma LoadedNext(s: Store, m: nat)
    requires InRange(s) && 0 < m <= FILE_CELLS
    ensures var r := Loaded(s, m - 1, true);
            Loaded(s, m, true) == if r.cells[m - 1].stamp != 0 then Put(r, m - 1, r.cells[m - 1].bitmap) else r
  {
  }

  /** Of the cells with a stamp the last ones that the cache has room for stay. */
  lemma {:induction false} LoadedIs(s: Store, m: nat)
    requires Fresh(s) && m <= FILE_CELLS
    ensures Loaded(s, m, true).order == Last(Used(s.cells, m), LIMIT)
    ensures |Used(s.cells, m)| <= LIMIT ==> Loaded(s, m, true).cells == s.cells
  {
    if m > 0 {
      LoadedIs(s, m - 1);
      LoadedKeeps(s, m - 1);
      LoadedNext(s, m);
      var r := Loaded(s, m - 1, true);
      hide Apart, Holds, Put, Loaded, Last;
      assert r.cells[m - 1] == s.cells[m - 1];
      LastMore(Used(s.cells, m - 1), m - 1, LIMIT);
      if r.cells[m - 1].stamp != 0 {
        PutOnTop(r, m - 1, r.cells[m - 1].bitmap);
      }
    }
  }

  // Two lists with rising stamps.

  ghost predicate Rising(r: seq<nat>, cells: seq<Cell>)
  {
    && (forall i :: 0 <= i < |r| ==> r[i] < |cells|)
    && (forall j, k :: 0 <= j < k < |r| ==> cells[r[j]].stamp < cells[r[k]].stamp)
  }

  lemma RisingInit(a: seq<nat>, cells: seq<Cell>)
    requires Rising(a, cells) && a != []
    ensures Rising(a[..|a| - 1], cells) && forall c :: c in a[..|a| - 1] <==> c in a && c != a[|a| - 1]
  {
    assert a == a[..|a| - 1] + [a[|a| - 1]];
  }

  lemma {:induction false} RisingUnique(a: seq<nat>, b: seq<nat>, cells: seq<Cell>)
    requires Rising(a, cells) && Rising(b, cells) && forall c :: c in a <==> c in b
    ensures a == b
  {
    if a == [] {
      Inhabited(b);
    } else {
      var x := a[|a| - 1];
      assert x in b;
      assert b[|b| - 1] in a;
      assert b[|b| - 1] == x;
      RisingInit(a, cells);
      RisingInit(b, cells);
      var a', b' := a[..|a| - 1], b[..|b| - 1];
      forall c: nat ensures c in a' <==> c in b' {
        assert c in a <==> c in b;
      }
      RisingUnique(a', b', cells);
    }
  }

  /** Entries by stamp, each with the stamp its cell has in the file. */
  ghost predicate Sorted(es: seq<Entry>, cells: seq<Cell>)
  {
    && (forall i :: 0 <= i < |es| ==> es[i].idx < |cells| && es[i].stamp == cells[es[i].idx].stamp)
    && (forall j, k :: 0 <= j < k < |es| ==> es[j].stamp <= es[k].stamp)
  }

  lemma InsertSorted(es: seq<Entry>, e: Entry, cells: seq<Cell>)
    requires Sorted(es, cells) && e.idx < |cells| && e.stamp == cells[e.idx].stamp
    ensures Sorted(Insert(es, e), cells)
  {
    var m := Slot(es, e);
    InsertAt(es, e, m);
    hide Insert;
    var r := Insert(es, e);
    forall j, k | 0 <= j < k < |r| ensures r[j].stamp <= r[k].stamp {
      SlotBetween(es, e, cells, m, r, j, k);
    }
  }

  lemma SlotBetween(es: seq<Entry>, e: Entry, cells: seq<Cell>, m: nat, r: seq<Entry>, j: nat, k: nat)
    requires Sorted(es, cells) && m == Slot(es, e) && r == es[..m] + [e] + es[m..] && j < k < |r|
    ensures r[j].stamp <= r[k].stamp
  {
    hide Slot;
  }

  lemma {:induction false} EntriesSorted(s: Store, m: nat)
    requires Fresh(s) && m <= FILE_CELLS
    ensures Sorted(Entries(s, m, true), s.cells)
  {
    hide Apart, Holds, Loaded, Insert;
    if m > 0 {
      EntriesSorted(s, m - 1);
      LoadedKeeps(s, m - 1);
      InsertSorted(Entries(s, m - 1, true), Entry(m - 1, s.cells[m - 1].stamp), s.cells);
    }
  }

  /** Of a sorted table, those that hold a bitmap rise. */
  lemma {:induction false} LiveRising(live: seq<Option<Bitmap>>, list: seq<nat>, cells: seq<Cell>, order: seq<nat>,
      t: nat)
    requires Ranked(cells, order, t) && Apart(list) && |cells| <= |live|
    requires forall i :: 0 <= i < |list| ==> list[i] < |cells|
    requires forall j, k :: 0 <= j < k < |list| ==> cells[list[j]].stamp <= cells[list[k]].stamp
    requires forall c :: c in list && live[c].Some? ==> c in order
    ensures Rising(Live(live, list), cells)
  {
    if list != [] {
      Tail(list);
      LiveRising(live, list[1..], cells, order, t);
      LiveMembers(live, list[1..]);
    }
  }

  // From one program to the next.

  /** The cells below n, in the same order. */
  function Keep(order: seq<nat>, n: nat): seq<nat>
  {
    if order == [] then []
    else if order[0] < n then [order[0]] + Keep(order[1..], n)
    else Keep(order[1..], n)
  }

  lemma {:induction false} KeepMembers(order: seq<nat>, n: nat)
    ensures forall c: nat :: c in Keep(order, n) <==> c in order && c < n
  {
    if order != [] {
      KeepMembers(order[1..], n);
      assert order == [order[0]] + order[1..];
    }
  }

  lemma {:induction false} KeepRising(order: seq<nat>, n: nat, cells: seq<Cell>)
    requires n <= |cells|
    requires forall j, k :: 0 <= j < k < |order| && order[j] < n && order[k] < n ==>
      cells[order[j]].stamp < cells[order[k]].stamp
    ensures Rising(Keep(order, n), cells)
  {
    if order != [] {
      var tail := order[1..];
      KeepRising(tail, n, cells);
      KeepMembers(tail, n);
      var kept := Keep(tail, n);
      forall i | 0 <= i < |kept| && order[0] < n
        ensures cells[order[0]].stamp < cells[kept[i]].stamp
      {
        var p := Place(tail, kept[i]);
        assert order[1 + p] == kept[i];
      }
    }
  }

  lemma {:induction false} KeepAll(order: seq<nat>, n: nat)
    ensures Keep(order, n) == order <==> forall c: nat :: c in order ==> c < n
    ensures |Keep(order, n)| <= |order|
  {
    if order != [] {
      var tail := order[1..];
      KeepAll(tail, n);
      assert order == [order[0]] + tail && order[0] in order;
      assert forall c: nat :: c in order <==> c == order[0] || c in tail;
      assert Keep(order, n) == order ==> Keep(order, n)[1..] == tail;
    }
  }

  /** The list in stamp order. */
  lemma RankedKeep(cells: seq<Cell>, order: seq<nat>, t: nat, n: nat)
    requires Ranked(cells, order, t) && Apart(order) && n <= |cells|
    ensures Rising(Keep(order, n), cells)
  {
    forall j, k | 0 <= j < k < |order| && order[j] < n && order[k] < n
      ensures cells[order[j]].stamp < cells[order[k]].stamp
    {
      PlaceIs(order, j);
      PlaceIs(order, k);
    }
    KeepRising(order, n, cells);
  }

  /** The list after reading a file: the cells loaded last, in the order of their stamps. */
  lemma ReadMembers(s: Store)
    requires Fresh(s)
    ensures var n := Prefix(s.cells);
            forall c: nat :: c in Enumerated(s, true).order <==> c in Last(Used(s.cells, n), LIMIT)
  {
    var n := Prefix(s.cells);
    var r, list := Loaded(s, n, true), Indices(Entries(s, n, true));
    LoadedIs(s, n);
    LoadedKeeps(s, n);
    EntriesMembers(s, n, true);
    LiveMembers(r.live, list);
    hide Loaded, Entries, Prefix, Live, Used, Last;
  }

  /** It is the ranked cells, as far as the keys go, exactly when these are the cells loaded last. */
  lemma RankedReload(s: Store, order: seq<nat>, t: nat)
    requires Fresh(s) && Ranked(s.cells, order, t) && Apart(order)
    ensures var n := Prefix(s.cells);
            Enumerated(s, true).order == Keep(order, n) <==>
            forall c: nat :: c in Last(Used(s.cells, n), LIMIT) <==> c in order && c < n
  {
    var n := Prefix(s.cells);
    ReadMembers(s);
    KeepMembers(order, n);
    hide Prefix, Used, Last, Keep;
    if forall c: nat :: c in Last(Used(s.cells, n), LIMIT) <==> c in order && c < n {
      var r, list := Loaded(s, n, true), Indices(Entries(s, n, true));
      EntriesSorted(s, n);
      EntriesMembers(s, n, true);
      LoadedKeeps(s, n);
      LiveMembers(r.live, list);
      RankedKeep(s.cells, order, t, n);
      hide Loaded, Entries, Live;
      LiveRising(r.live, list, s.cells, order, t);
      RisingUnique(Live(r.live, list), Keep(order, n), s.cells);
    }
  }

  /** The cache of a program that has just started, over a file. */
  function Started(cells: seq<Cell>): (s: Store)
    ensures s.order == [] && s.cells == cells
  {
    Store(seq(CELLS, i => None), [], cells)
  }

  lemma StartedFresh(cells: seq<Cell>)
    requires |cells| == FILE_CELLS
    ensures Fresh(Started(cells))
  {
  }

  /** The cache after a session: started over a file, the file read, and whatever the server asked. */
  function Session(cells: seq<Cell>, ops: seq<Op>): (s: Store)
    requires |cells| == FILE_CELLS
    ensures InRange(s)
  {
    var start := Enumerated(Started(cells), true);
    EnumeratedInRange(cells);
    Run(start, ops)
  }

  lemma EnumeratedInRange(cells: seq<Cell>)
    requires |cells| == FILE_CELLS
    ensures InRange(Enumerated(Started(cells), true))
  {
    StartedFresh(cells);
    EnumeratedKeeps(Started(cells));
  }

  lemma SessionKeeps(cells: seq<Cell>, ops: seq<Op>)
    requires |cells| == FILE_CELLS
    ensures Sound(Session(cells, ops)) && (Clean(cells) ==> Marked(Session(cells, ops)))
    ensures Persistent(ops) ==> Backed(Session(cells, ops))
  {
    hide Fresh, Sound, Marked, Backed, Clean, Enumerated, Run, Persistent;
    StartedFresh(cells);
    EnumeratedKeeps(Started(cells));
    EnumeratedInRange(cells);
    RunKeeps(Enumerated(Started(cells), true), ops);
  }

  /** The cache of the next program, once it has read the file this one saved at exit. */
  function Again(s: Store, t: nat): (r: Store)
    requires InRange(s)
    ensures InRange(r)
  {
    var cells := SaveState(s, t).cells;
    EnumeratedInRange(cells);
    Enumerated(Started(cells), true)
  }

  /** The stamps change nothing else in the file. */
  ghost predicate SameData(a: seq<Cell>, b: seq<Cell>)
  {
    |a| == |b| && forall i {:trigger a[i]} {:trigger b[i]} :: 0 <= i < |a| ==>
        a[i].key == b[i].key && a[i].bitmap == b[i].bitmap
  }

  lemma SamePrefix(a: seq<Cell>, b: seq<Cell>)
    requires SameData(a, b)
    ensures Prefix(a) == Prefix(b)
  {
    PrefixIs(a, Prefix(b));
  }

  // When it comes back.

  /** A cell of the file with a stamp from earlier that is not on the list. */
  predicate Stale(s: Store, c: nat) { c < |s.cells| && s.cells[c].stamp != 0 && c !in s.order }

  /** The list of keys reaches no stale cell; or the cells in use that it reaches fill the cache by
      themselves, and the stale ones all come before them and go again while the file is read. */
  ghost predicate Recovers(s: Store)
  {
    var n := Prefix(s.cells);
    || (forall c: nat :: c < n ==> !Stale(s, c))
    || (|Keep(s.order, n)| == LIMIT && forall c: nat, k: nat :: c < n && Stale(s, c) && k in s.order && k < n ==> c < k)
  }

  lemma {:induction false} KeepApart(order: seq<nat>, n: nat)
    requires Apart(order)
    ensures Apart(Keep(order, n))
  {
    if order != [] {
      Tail(order);
      KeepApart(order[1..], n);
      KeepMembers(order[1..], n);
      if order[0] < n {
        WithDistinct(Keep(order[1..], n), 0, order[0]);
        assert With(Keep(order[1..], n), 0, order[0]) == Keep(order, n);
      }
    }
  }

  lemma SubsetAll(a: seq<nat>, b: seq<nat>)
    requires Apart(a) && Apart(b) && |a| >= |b| && forall c :: c in a ==> c in b
    ensures forall c :: c in a <==> c in b
  {
    if c :| c in b && c !in a {
      WithDistinct(a, 0, c);
      SubsetSize(With(a, 0, c), b);
    }
  }

  /** Of a rising list, whose elements are those of `kept` and some others, the last ones are `kept`. */
  lemma LastAre(used: seq<nat>, kept: seq<nat>, n: nat)
    requires (forall i, j :: 0 <= i < j < |used| ==> used[i] < used[j]) && Apart(kept) && |kept| <= n
    requires forall c :: c in kept ==> c in used
    requires (forall c :: c in used ==> c in kept) ||
             (|kept| == n && forall c, k :: c in used && c !in kept && k in kept ==> c < k)
    ensures forall c :: c in Last(used, n) <==> c in kept
  {
    assert Apart(used);
    if forall c :: c in used ==> c in kept {
      SubsetSize(used, kept);
    } else {
      SubsetSize(kept, used);
      var top := Last(used, n);
      var p := |used| - n;
      forall k | k in kept ensures k in top {
        var i := Place(used, k);
        if i < p {
          var upper := used[i..];
          forall c | c in upper ensures c in kept {
            var j := Place(upper, c);
            assert upper[j] == used[i + j];
          }
          SubsetSize(upper, kept);
        } else {
          assert top[i - p] == k;
        }
      }
      SubsetAll(kept, top);
    }
  }

  lemma LastHas(q: seq<nat>, n: nat, i: nat)
    requires i < |q| && i + n >= |q|
    ensures q[i] in Last(q, n)
  {
    assert |q| > n ==> Last(q, n)[i - (|q| - n)] == q[i];
  }

  /** And conversely. */
  lemma LastOnlyIf(used: seq<nat>, kept: seq<nat>, n: nat, c: nat, k: nat)
    requires (forall i, j :: 0 <= i < j < |used| ==> used[i] < used[j]) && Apart(kept)
    requires forall d :: d in Last(used, n) <==> d in kept
    requires c in used && c !in kept
    ensures |kept| == n && (k in kept ==> c < k)
  {
    var top := Last(used, n);
    assert |used| > n;
    SubsetSize(top, kept);
    SubsetSize(kept, top);
    if k in kept {
      var i, j := Place(used, c), Place(top, k);
      var p := |used| - n;
      assert top[j] == used[p + j];
      if i >= p {
        LastHas(used, n, i);
      }
    }
  }

  /** After any session over any file, whatever stamps it has: the next program finds the same order of
      use for the cells the list of keys reaches exactly when the saved state recovers. */
  lemma ReloadWhen(cells: seq<Cell>, ops: seq<Op>, t: nat)
    requires |cells| == FILE_CELLS
    ensures var s := Session(cells, ops);
            Again(s, t).order == Keep(s.order, Prefix(s.cells)) <==> Recovers(s)
  {
    hide Clean, Enumerated, Session, Ranked, Prefix, Keep, Used, Last;
    var s := Session(cells, ops);
    SessionKeeps(cells, ops);
    SavedRanked(s, t);
    var saved := SaveState(s, t).cells;
    assert SameData(saved, s.cells);
    SamePrefix(saved, s.cells);
    StartedFresh(saved);
    RankedReload(Started(saved), s.order, t);
    RecoversWhen(s, saved);
  }

  lemma RecoversWhen(s: Store, saved: seq<Cell>)
    requires Sound(s) && |saved| == |s.cells| && Prefix(saved) == Prefix(s.cells)
    requires forall i {:trigger saved[i]} {:trigger s.cells[i]} :: 0 <= i < |saved| ==>
               (saved[i].stamp != 0 <==> i in s.order || s.cells[i].stamp != 0)
    ensures var n := Prefix(s.cells);
            (forall c: nat :: c in Last(Used(saved, n), LIMIT) <==> c in s.order && c < n) <==> Recovers(s)
  {
    var n := Prefix(s.cells);
    var used, kept := Used(saved, n), Keep(s.order, n);
    UsedMembers(saved, n);
    KeepMembers(s.order, n);
    KeepApart(s.order, n);
    KeepAll(s.order, n);
    hide Prefix, Used, Keep, Last, Holds;
    forall c: nat ensures c in used && c !in kept <==> c < n && Stale(s, c) {
    }
    if Recovers(s) {
      LastAre(used, kept, LIMIT);
    }
    if forall c: nat :: c in Last(used, LIMIT) <==> c in s.order && c < n {
      MustRecover(s, used);
    }
  }

  lemma MustRecover(s: Store, used: seq<nat>)
    requires Sound(s) && forall i, j :: 0 <= i < j < |used| ==> used[i] < used[j]
    requires var n := Prefix(s.cells);
             && (forall c: nat :: c in Last(used, LIMIT) <==> c in s.order && c < n)
             && forall c: nat :: c < n && Stale(s, c) ==> c in used
    ensures Recovers(s)
  {
    var n := Prefix(s.cells);
    var kept := Keep(s.order, n);
    KeepMembers(s.order, n);
    KeepApart(s.order, n);
    hide Prefix, Keep, Last, Holds;
    if c: nat :| c < n && Stale(s, c) {
      LastOnlyIf(used, kept, LIMIT, c, 0);
      forall d: nat, k: nat | d < n && Stale(s, d) && k in s.order && k < n ensures d < k {
        LastOnlyIf(used, kept, LIMIT, d, k);
      }
    }
  }

  /** So after any session over a clean file the state saved at exit and read again by the next program
      gives the same order of use for the cells the file's list of keys reaches, and for all cells
      exactly when it reaches them all. */
  lemma SaveThenReload(cells: seq<Cell>, ops: seq<Op>, t: nat)
    requires |cells| == FILE_CELLS && Clean(cells)
    ensures var s := Session(cells, ops);
            && Again(s, t).order == Keep(s.order, Prefix(s.cells))
            && (Again(s, t).order == s.order <==> forall c: nat :: c in s.order ==> c < Prefix(s.cells))
  {
    hide Clean, Session, Again, Prefix, Keep;
    var s := Session(cells, ops);
    SessionKeeps(cells, ops);
    ReloadWhen(cells, ops, t);
    KeepAll(s.order, Prefix(s.cells));
  }

  /** And every bitmap that went into the file comes back in its cell. */
  lemma SaveThenReloadBitmaps(cells: seq<Cell>, ops: seq<Op>, t: nat, c: nat)
    requires |cells| == FILE_CELLS && Clean(cells) && Persistent(ops)
    requires var s := Session(cells, ops); c in s.order && c < Prefix(s.cells)
    ensures Again(Session(cells, ops), t).live[c] == Session(cells, ops).live[c]
  {
    hide Clean, Enumerated, Session, Ranked, Prefix, Keep, Apart, Loaded;
    var s, again := Session(cells, ops), Again(Session(cells, ops), t);
    var saved := SaveState(s, t).cells;
    SaveThenReload(cells, ops, t);
    SessionKeeps(cells, ops);
    SavedRanked(s, t);
    StartedFresh(saved);
    EnumeratedKeeps(Started(saved));
    KeepMembers(s.order, Prefix(s.cells));
    FewUsed(s, saved, Prefix(saved));
    ReloadedCells(Started(saved));
    assert s.cells[c].bitmap == saved[c].bitmap == again.cells[c].bitmap;
  }

  /** With no more cells than there is room for, reading leaves the file alone. */
  lemma ReloadedCells(s: Store)
    requires Fresh(s) && |Used(s.cells, Prefix(s.cells))| <= LIMIT
    ensures Enumerated(s, true).cells == s.cells
  {
    LoadedIs(s, Prefix(s.cells));
  }

  lemma FewUsed(s: Store, saved: seq<Cell>, n: nat)
    requires Sound(s) && Marked(s) && |saved| == |s.cells| && n <= |saved|
    requires forall i {:trigger saved[i]} {:trigger s.cells[i]} :: 0 <= i < |saved| ==>
               (saved[i].stamp != 0 <==> i in s.order || s.cells[i].stamp != 0)
    ensures |Used(saved, n)| <= LIMIT
  {
    UsedMembers(saved, n);
    SubsetSize(Used(saved, n), s.order);
  }

  // One program after the other.

  /** Every cell on the list that the file has lies within the file's list of keys. */
  ghost predicate Reached(s: Store)
  {
    forall c :: c in s.order && c < FILE_CELLS ==> c < Prefix(s.cells)
  }

  /** What is saved at exit is a clean file again exactly when the list of keys reaches every cell in use. */
  lemma CleanAgain(s: Store, t: nat)
    requires Sound(s) && Marked(s)
    ensures Clean(SaveState(s, t).cells) <==> Reached(s)
  {
    hide Prefix, Stamped, Apart, Holds;
    var saved := SaveState(s, t).cells;
    SavedRanked(s, t);
    SamePrefix(saved, s.cells);
    if !Reached(s) {
      var c :| c in s.order && c < FILE_CELLS && c >= Prefix(s.cells);
      assert saved[c].stamp != 0;
    }
  }

  /** One program: what the server asked for, and the time when it ends. */
  datatype Life = Life(ops: seq<Op>, t: nat)

  /** The file after some programs, each started over the file that the one before it saved. */
  function After(cells: seq<Cell>, lives: seq<Life>): (r: seq<Cell>)
    requires |cells| == FILE_CELLS
    ensures |r| == FILE_CELLS
  {
    if lives == [] then cells
    else
      var last := lives[|lives| - 1];
      SaveState(Session(After(cells, lives[..|lives| - 1]), last.ops), last.t).cells
  }

  ghost predicate AllReached(cells: seq<Cell>, lives: seq<Life>)
    requires |cells| == FILE_CELLS
  {
    forall i {:trigger lives[i]} :: 0 <= i < |lives| ==> Reached(Session(After(cells, lives[..i]), lives[i].ops))
  }

  lemma {:induction false} AfterClean(cells: seq<Cell>, lives: seq<Life>)
    requires |cells| == FILE_CELLS && Clean(cells) && AllReached(cells, lives)
    ensures Clean(After(cells, lives))
  {
    hide Clean, Session, Sound, Marked, Reached, Prefix;
    if lives != [] {
      var n := |lives| - 1;
      var before := lives[..n];
      forall i | 0 <= i < n ensures Reached(Session(After(cells, before[..i]), before[i].ops)) {
        assert before[..i] == lives[..i] && before[i] == lives[i];
      }
      AfterClean(cells, before);
      SessionKeeps(After(cells, before), lives[n].ops);
      CleanAgain(Session(After(cells, before), lives[n].ops), lives[n].t);
    }
  }

  /** However many programs came before, as long as each left its cells in use within the list of keys:
      the order of use is saved and read again, and the bitmaps with it. */
  lemma ReloadAfterAll(cells: seq<Cell>, lives: seq<Life>, ops: seq<Op>, t: nat)
    requires |cells| == FILE_CELLS && Clean(cells) && AllReached(cells, lives)
    ensures var s := Session(After(cells, lives), ops);
            && Again(s, t).order == Keep(s.order, Prefix(s.cells))
            && (Again(s, t).order == s.order <==> forall c: nat :: c in s.order ==> c < Prefix(s.cells))
            && (Persistent(ops) ==>
                  forall c: nat :: c in s.order && c < Prefix(s.cells) ==> Again(s, t).live[c] == s.live[c])
  {
    hide Clean, Enumerated, Session, Prefix, Again, After, Keep, AllReached, Persistent;
    AfterClean(cells, lives);
    var file := After(cells, lives);
    SaveThenReload(file, ops, t);
    var s := Session(file, ops);
    forall c: nat | c in s.order && c < Prefix(s.cells) && Persistent(ops)
      ensures Again(s, t).live[c] == s.live[c]
    {
      SaveThenReloadBitmaps(file, ops, t, c);
    }
  }
}
