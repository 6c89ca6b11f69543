/** The list of cells in order of use, threaded through two arrays of indices. */
module CacheList {
  import opened Wrappers
  import opened CacheSpec

  /** The k-th cell of the order, or -1 beyond its ends. */
  function At(order: seq<nat>, k: int): int { if 0 <= k < |order| then order[k] else -1 }

  /** The links of the cells on the list lead from each to the one after it. */
  ghost predicate Forth(next: seq<int>, order: seq<nat>)
  {
    && (forall k :: 0 <= k < |order| ==> order[k] < |next|)
    && (forall k :: 0 <= k < |order| ==> next[order[k]] == At(order, k + 1))
  }

  /** And back to the one before it. */
  ghost predicate Back(previous: seq<int>, order: seq<nat>)
  {
    && (forall k :: 0 <= k < |order| ==> order[k] < |previous|)
    && (forall k :: 0 <= k < |order| ==> previous[order[k]] == At(order, k - 1))
  }

  lemma ForthAt(next: seq<int>, order: seq<nat>, k: nat)
    requires Forth(next, order) && k < |order|
    ensures order[k] < |next| && next[order[k]] == At(order, k + 1)
  {
  }

  lemma BackAt(previous: seq<int>, order: seq<nat>, k: nat)
    requires Back(previous, order) && k < |order|
    ensures order[k] < |previous| && previous[order[k]] == At(order, k - 1)
  {
  }

  lemma PlaceIs(order: seq<nat>, i: nat)
    requires Apart(order) && i < |order|
    ensures Place(order, order[i]) == i
  {
  }

  lemma WithoutDistinct(order: seq<nat>, i: nat)
    requires Apart(order) && i < |order|
    ensures Apart(Without(order, i)) && order[i] !in Without(order, i)
    ensures forall c :: c in Without(order, i) <==> c in order && c != order[i]
  {
    var rest := Without(order, i);
    forall c | c in order && c != order[i] ensures c in rest {
      var k :| 0 <= k < |order| && order[k] == c;
      assert rest[if k < i then k else k - 1] == c;
    }
  }

  lemma WithDistinct(order: seq<nat>, k: nat, idx: nat)
    requires Apart(order) && k <= |order| && idx !in order
    ensures Apart(With(order, k, idx))
    ensures forall c :: c in With(order, k, idx) <==> c in order || c == idx
  {
    var r := With(order, k, idx);
    forall c | c in order || c == idx ensures c in r {
      if c == idx {
        assert r[k] == idx;
      } else {
        var j :| 0 <= j < |order| && order[j] == c;
        assert r[if j < k then j else j + 1] == c;
      }
    }
  }

  function SetIf(s: seq<int>, k: int, v: int): (r: seq<int>)
    requires k < |s|
    ensures |r| == |s|
  {
    if k >= 0 then s[k := v] else s
  }

  /** Taking a cell other than the last out of the list. */
  lemma UnlinkForth(next: seq<int>, order: seq<nat>, i: nat)
    requires Apart(order) && Forth(next, order) && i < |order| - 1
    ensures At(order, i - 1) < |next| && Forth(SetIf(next, At(order, i - 1), order[i + 1]), Without(order, i))
  {
    hide Apart;
    var rest, next' := Without(order, i), SetIf(next, At(order, i - 1), order[i + 1]);
    if i > 0 {
      ForthAt(next, order, i - 1);
    }
    forall k | 0 <= k < |rest|
      ensures rest[k] < |next| && next'[rest[k]] == At(rest, k + 1)
    {
      hide Forth;
      var j := if k < i then k else k + 1;
      ForthAt(next, order, j);
      if i > 0 {
        Same(order, j, i - 1);
      }
      assert rest[k] == order[j];
    }
  }

  lemma UnlinkBack(previous: seq<int>, order: seq<nat>, i: nat)
    requires Apart(order) && Back(previous, order) && i < |order| - 1
    ensures Back(previous[order[i + 1] := At(order, i - 1)], Without(order, i))
  {
    hide Apart;
    BackAt(previous, order, i + 1);
    var rest, previous' := Without(order, i), previous[order[i + 1] := At(order, i - 1)];
    forall k | 0 <= k < |rest|
      ensures rest[k] < |previous| && previous'[rest[k]] == At(rest, k - 1)
    {
      hide Back;
      var j := if k < i then k else k + 1;
      BackAt(previous, order, j);
      Same(order, j, i + 1);
      assert rest[k] == order[j];
    }
  }

  lemma LinkForthAt(next: seq<int>, order: seq<nat>, k: nat, idx: nat, j: nat)
    requires Apart(order) && Forth(next, order) && k <= |order| && idx !in order && idx < |next| && j <= |order|
    requires At(order, k - 1) < |next|
    ensures var r := With(order, k, idx);
            r[j] < |next| && SetIf(next[idx := At(order, k)], At(order, k - 1), idx)[r[j]] == At(r, j + 1)
  {
    hide Apart, Forth;
    if j != k {
      var i := if j < k then j else j - 1;
      assert With(order, k, idx)[j] == order[i];
      ForthAt(next, order, i);
      if k > 0 {
        Same(order, i, k - 1);
      }
    }
  }

  /** Putting a cell in at place k. */
  lemma LinkForth(next: seq<int>, order: seq<nat>, k: nat, idx: nat)
    requires Apart(order) && Forth(next, order) && k <= |order| && idx !in order && idx < |next|
    ensures At(order, k - 1) < |next|
            && Forth(SetIf(next[idx := At(order, k)], At(order, k - 1), idx), With(order, k, idx))
  {
    hide Apart;
    if k > 0 {
      ForthAt(next, order, k - 1);
    }
    var r := With(order, k, idx);
    forall j | 0 <= j < |r|
      ensures r[j] < |next| && SetIf(next[idx := At(order, k)], At(order, k - 1), idx)[r[j]] == At(r, j + 1)
    {
      LinkForthAt(next, order, k, idx, j);
    }
  }

  lemma LinkBackAt(previous: seq<int>, order: seq<nat>, k: nat, idx: nat, j: nat)
    requires Apart(order) && Back(previous, order) && k <= |order| && idx !in order && idx < |previous|
             && j <= |order|
    requires At(order, k) < |previous|
    ensures var r := With(order, k, idx);
            r[j] < |previous| && SetIf(previous[idx := At(order, k - 1)], At(order, k), idx)[r[j]] == At(r, j - 1)
  {
    hide Apart, Back;
    if j != k {
      var i := if j < k then j else j - 1;
      assert With(order, k, idx)[j] == order[i];
      BackAt(previous, order, i);
      if k < |order| {
        Same(order, i, k);
      }
    }
  }

  lemma LinkBack(previous: seq<int>, order: seq<nat>, k: nat, idx: nat)
    requires Apart(order) && Back(previous, order) && k <= |order| && idx !in order && idx < |previous|
    ensures At(order, k) < |previous|
            && Back(SetIf(previous[idx := At(order, k - 1)], At(order, k), idx), With(order, k, idx))
  {
    hide Apart;
    if k < |order| {
      BackAt(previous, order, k);
    }
    var r := With(order, k, idx);
    forall j | 0 <= j < |r|
      ensures r[j] < |previous| && SetIf(previous[idx := At(order, k - 1)], At(order, k), idx)[r[j]] == At(r, j - 1)
    {
      LinkBackAt(previous, order, k, idx, j);
    }
  }

  /** Taking the first cell off, as eviction does. */
  lemma BeheadForth(next: seq<int>, order: seq<nat>)
    requires Apart(order) && Forth(next, order) && order != []
    ensures Forth(next, order[1..])
  {
    forall k | 0 <= k < |order[1..]|
      ensures order[1..][k] < |next| && next[order[1..][k]] == At(order[1..], k + 1)
    {
      assert order[1..][k] == order[k + 1];
    }
  }

  lemma BeheadBack(previous: seq<int>, order: seq<nat>)
    requires Apart(order) && Back(previous, order) && |order| > 1
    ensures Back(previous[order[1] := -1], order[1..])
  {
    var rest, previous' := order[1..], previous[order[1] := -1];
    forall k | 0 <= k < |rest|
      ensures rest[k] < |previous| && previous'[rest[k]] == At(rest, k - 1)
    {
      assert rest[k] == order[k + 1];
    }
  }

  /** A bump keeps the members and adds the cell. */
  lemma BumpedMembers(order: seq<nat>, idx: nat, bump: int)
    requires Apart(order)
    ensures Apart(Bumped(order, idx, bump))
    ensures forall c :: c in Bumped(order, idx, bump) <==> c in order || c == idx
    ensures |Bumped(order, idx, bump)| == if idx in order then |order| else |order| + 1
  {
    hide Apart;
    if order != [] && order[|order| - 1] == idx {
    } else if idx in order {
      var i := Place(order, idx);
      var rest := Without(order, i);
      WithoutDistinct(order, i);
      WithDistinct(rest, Target(|rest|, i, bump), idx);
    } else {
      WithDistinct(order, Target(|order|, 0, bump), idx);
    }
  }

  /** What is put on top is last. */
  lemma BumpedToTop(order: seq<nat>, idx: nat)
    ensures var r := Bumped(order, idx, TO_TOP); r != [] && r[|r| - 1] == idx
  {
  }

  /** The list holds exactly the cells with a bitmap. */
  ghost predicate Holds(live: seq<Option<Bitmap>>, order: seq<nat>)
  {
    forall i {:trigger live[i]} :: 0 <= i < |live| ==> (live[i].Some? <==> i in order)
  }

  lemma HoldsPut(live: seq<Option<Bitmap>>, order: seq<nat>, idx: nat, b: Bitmap, bump: int)
    requires Apart(order) && Holds(live, order) && idx < |live|
    ensures Holds(live[idx := Some(b)], Bumped(order, idx, bump))
  {
    hide Apart, Bumped;
    BumpedMembers(order, idx, bump);
  }

  lemma HoldsEvict(live: seq<Option<Bitmap>>, order: seq<nat>)
    requires Apart(order) && Holds(live, order) && order != [] && order[0] < |live|
    ensures Holds(live[order[0] := None], order[1..]) && Apart(order[1..])
  {
    WithoutDistinct(order, 0);
    assert Without(order, 0) == order[1..];
  }

  /** The links of a cell that is not on the list do not matter. */
  lemma Unlisted(next: seq<int>, previous: seq<int>, order: seq<nat>, idx: nat)
    requires Forth(next, order) && Back(previous, order) && idx !in order && idx < |next| && idx < |previous|
    ensures Forth(next[idx := -1], order) && Back(previous[idx := -1], order)
  {
  }

  // Rebuilding the list from a table of cells.

  lemma {:induction false} LiveMembers(live: seq<Option<Bitmap>>, idx: seq<nat>)
    requires forall i :: 0 <= i < |idx| ==> idx[i] < |live|
    ensures forall c :: c in Live(live, idx) <==> c in idx && live[c].Some?
  {
    if idx != [] {
      LiveMembers(live, idx[1..]);
      assert idx == [idx[0]] + idx[1..];
    }
  }

  lemma {:induction false} LiveDistinct(live: seq<Option<Bitmap>>, idx: seq<nat>)
    requires Apart(idx) && forall i :: 0 <= i < |idx| ==> idx[i] < |live|
    ensures Apart(Live(live, idx))
  {
    if idx != [] {
      Tail(idx);
      LiveDistinct(live, idx[1..]);
      LiveMembers(live, idx[1..]);
      if live[idx[0]].Some? {
        WithDistinct(Live(live, idx[1..]), 0, idx[0]);
        assert With(Live(live, idx[1..]), 0, idx[0]) == Live(live, idx);
      }
    }
  }

  lemma Tail(idx: seq<nat>)
    requires Apart(idx) && idx != []
    ensures Apart(idx[1..]) && idx[0] !in idx[1..]
  {
    WithoutDistinct(idx, 0);
    assert Without(idx, 0) == idx[1..];
  }

  /** The table from n on, one entry further to the front. */
  lemma LiveFrom(live: seq<Option<Bitmap>>, idx: seq<nat>, n: nat)
    requires n < |idx| && forall i :: 0 <= i < |idx| ==> idx[i] < |live|
    ensures Live(live, idx[n..]) == (if live[idx[n]].Some? then [idx[n]] else []) + Live(live, idx[n + 1..])
  {
    assert idx[n..][1..] == idx[n + 1..];
  }

  /** The list, its first cell not yet linked back, takes another one in front. */
  lemma Prepend(next: seq<int>, previous: seq<int>, tail: seq<nat>, idx: nat)
    requires tail != [] && tail[0] < |previous| && idx < |next| && idx < |previous| && idx !in tail
    requires Apart(tail) && Forth(next, tail) && Back(previous[tail[0] := -1], tail)
    ensures Apart([idx] + tail) && Forth(next[idx := tail[0]], [idx] + tail)
    ensures Back(previous[tail[0] := idx][idx := -1], [idx] + tail)
  {
    LinkForth(next, tail, 0, idx);
    LinkBack(previous[tail[0] := -1], tail, 0, idx);
    WithDistinct(tail, 0, idx);
    hide Apart, Forth, Back;
    assert With(tail, 0, idx) == [idx] + tail;
    assert previous[tail[0] := -1][idx := -1][tail[0] := idx] == previous[tail[0] := idx][idx := -1];
  }

  lemma Inhabited(b: seq<nat>)
    ensures b == [] || exists c :: c in b
  {
    if b != [] {
      assert b[0] in b;
    }
  }

  /** Lists of the same cells are of the same length. */
  lemma {:induction false} SameSize(a: seq<nat>, b: seq<nat>)
    requires Apart(a) && Apart(b) && forall c :: c in a <==> c in b
    ensures |a| == |b|
  {
    if a == [] {
      Inhabited(b);
    } else {
      var c := a[0];
      Tail(a);
      var i := Place(b, c);
      WithoutDistinct(b, i);
      SameSize(a[1..], Without(b, i));
    }
  }

  lemma NoLinks(next: seq<int>, previous: seq<int>)
    ensures Apart<nat>([]) && Forth(next, []) && Back(previous, [])
  {
  }

  lemma PutIsLive(s: Store, idx: nat, b: Bitmap)
    requires InRange(s) && Apart(s.order) && idx < CELLS
    ensures Put(s, idx, b).live[idx] == Some(b)
  {
    hide Bumped;
    BumpedMembers(s.order, idx, TO_TOP);
    BumpedToTop(s.order, idx);
  }

  lemma OneLink(next: seq<int>, previous: seq<int>, idx: nat)
    requires idx < |next| && idx < |previous|
    ensures Apart([idx]) && Forth(next[idx := -1], [idx]) && Back(previous[idx := -1], [idx])
  {
  }

  /** An entry of the table does not occur further on in it. */
  lemma NotAgain(live: seq<Option<Bitmap>>, list: seq<nat>, m: nat, n: nat)
    requires m < n <= |list| && Apart(list) && forall i :: 0 <= i < |list| ==> list[i] < |live|
    ensures list[m] !in Live(live, list[n..])
  {
    LiveMembers(live, list[n..]);
  }

  // The table by stamps.

  /** The first n entries of the two columns. */
  ghost function Table(idx: seq<nat>, stamp: seq<nat>, n: nat): (r: seq<Entry>)
    requires n <= |idx| == |stamp|
    ensures |r| == n && forall i :: 0 <= i < n ==> r[i] == Entry(idx[i], stamp[i])
  {
    seq(n, i requires 0 <= i < n => Entry(idx[i], stamp[i]))
  }

  /** Entries younger than e move up, one place each. */
  lemma {:induction false} InsertPast(s: seq<Entry>, e: Entry, m: nat)
    requires m <= |s| && forall i :: m <= i < |s| ==> e.stamp < s[i].stamp
    ensures Insert(s, e) == Insert(s[..m], e) + s[m..]
    decreases |s|
  {
    if m == |s| {
      assert s[..m] == s;
    } else {
      var init := s[..|s| - 1];
      InsertPast(init, e, m);
      assert init[..m] == s[..m] && s[m..] == init[m..] + [s[|s| - 1]];
    }
  }

  /** The table after the entry has found its place m. */
  lemma Inserted(s: seq<Entry>, r: seq<Entry>, e: Entry, m: nat)
    requires m <= |s| && |r| == |s| + 1 && r[m] == e
    requires forall i :: 0 <= i < m ==> r[i] == s[i]
    requires forall i :: m <= i < |s| ==> r[i + 1] == s[i] && e.stamp < s[i].stamp
    requires m > 0 ==> e.stamp >= s[m - 1].stamp
    ensures r == Insert(s, e)
  {
    InsertPast(s, e, m);
    assert r == s[..m] + [e] + s[m..];
  }

  /** A stamp does not change a key, nor does loading. */
  lemma {:induction false} LoadedKeys(s: Store, n: nat, precache: bool)
    requires InRange(s) && n <= FILE_CELLS
    ensures forall i :: 0 <= i < FILE_CELLS ==> Loaded(s, n, precache).cells[i].key == s.cells[i].key
  {
    if n > 0 {
      LoadedKeys(s, n - 1, precache);
    }
  }

  lemma PrefixIs(cells: seq<Cell>, n: nat)
    requires n <= |cells| && (forall i :: 0 <= i < n ==> cells[i].key != 0) && (n < |cells| ==> cells[n].key == 0)
    ensures n == Prefix(cells)
  {
  }

  lemma IndicesWith(s: seq<Entry>, e: Entry, m: nat)
    requires m <= |s|
    ensures Indices(s[..m] + [e] + s[m..]) == With(Indices(s), m, e.idx)
  {
    var a, b := Indices(s[..m] + [e] + s[m..]), With(Indices(s), m, e.idx);
    hide Indices, With;
    assert With(Indices(s), m, e.idx) == Indices(s)[..m] + [e.idx] + Indices(s)[m..] by {
      WithIs(Indices(s), m, e.idx);
    }
    forall i | 0 <= i < |a| ensures a[i] == b[i] {
    }
  }

  lemma WithIs(order: seq<nat>, k: nat, idx: nat)
    requires k <= |order|
    ensures With(order, k, idx) == order[..k] + [idx] + order[k..]
  {
  }

  lemma InsertAt(s: seq<Entry>, e: Entry, m: nat)
    requires m == Slot(s, e)
    ensures Insert(s, e) == s[..m] + [e] + s[m..]
    ensures Indices(Insert(s, e)) == With(Indices(s), m, e.idx)
  {
    InsertPast(s, e, m);
    assert Insert(s[..m], e) == s[..m] + [e];
    IndicesWith(s, e, m);
  }

  lemma InsertMembers(s: seq<Entry>, e: Entry, n: nat)
    requires Apart(Indices(s)) && e.idx == n && (forall c: nat :: c in Indices(s) <==> c < n)
    ensures Apart(Indices(Insert(s, e))) && forall c: nat :: c in Indices(Insert(s, e)) <==> c < n + 1
  {
    hide Apart, Insert;
    var m := Slot(s, e);
    InsertAt(s, e, m);
    WithDistinct(Indices(s), m, n);
  }

  /** Where an entry goes. */
  ghost function Slot(s: seq<Entry>, e: Entry): (m: nat)
    ensures m <= |s| && (forall i :: m <= i < |s| ==> e.stamp < s[i].stamp) && (m > 0 ==> s[m - 1].stamp <= e.stamp)
  {
    if s != [] && e.stamp < s[|s| - 1].stamp then Slot(s[..|s| - 1], e) else |s|
  }

  /** The table lists every cell of the file's list once. */
  lemma {:induction false} EntriesMembers(s: Store, n: nat, precache: bool)
    requires InRange(s) && n <= FILE_CELLS
    ensures Apart(Indices(Entries(s, n, precache)))
    ensures forall c: nat :: c in Indices(Entries(s, n, precache)) <==> c < n
  {
    if n > 0 {
      EntriesMembers(s, n - 1, precache);
      InsertMembers(Entries(s, n - 1, precache), Entry(n - 1, Loaded(s, n - 1, precache).cells[n - 1].stamp), n - 1);
    }
  }

  ghost predicate Below(order: seq<nat>, n: nat) { forall i :: 0 <= i < |order| ==> order[i] < n }

  lemma PutBelow(s: Store, idx: nat, b: Bitmap, n: nat)
    requires InRange(s) && idx < CELLS && Below(s.order, n) && idx < n
    ensures Below(Put(s, idx, b).order, n)
  {
    hide Bumped;
    BumpedInRange(s.order, idx, TO_TOP, n);
  }

  /** Only cells already passed can have been loaded. */
  lemma {:induction false} LoadedBelow(s: Store, n: nat, precache: bool)
    requires InRange(s) && n <= FILE_CELLS && s.order == []
    ensures Below(Loaded(s, n, precache).order, n)
  {
    hide Put;
    if n > 0 {
      LoadedBelow(s, n - 1, precache);
      var t := Loaded(s, n - 1, precache);
      PutBelow(t, n - 1, t.cells[n - 1].bitmap, n);
    }
  }

  /** Rebuilding from a table that lists every cell keeps the cells and their number. */
  lemma Relisted(live: seq<Option<Bitmap>>, order: seq<nat>, list: seq<nat>, n: nat)
    requires Apart(order) && Holds(live, order) && Below(order, n) && n <= |live|
    requires Apart(list) && (forall i :: 0 <= i < |list| ==> list[i] < |live|) && forall c: nat :: c in list <==> c < n
    ensures Holds(live, Live(live, list)) && |Live(live, list)| == |order|
  {
    var r := Live(live, list);
    LiveMembers(live, list);
    LiveDistinct(live, list);
    hide Apart, Live;
    forall c: nat ensures c in r <==> c in order {
      InBelow(order, n, c);
    }
    SameSize(r, order);
  }

  lemma InBelow(order: seq<nat>, n: nat, c: nat)
    requires Below(order, n)
    ensures c in order ==> c < n
  {
  }

  lemma TableIndices(idx: seq<nat>, stamp: seq<nat>, n: nat)
    requires n <= |idx| == |stamp|
    ensures Indices(Table(idx, stamp, n)) == idx[..n]
  {
  }

  /** A bump of a listed cell moves it min(bump, distance to the end) places and leaves the others in
      their order; without a bound it goes to the end. */
  lemma BumpMoves(order: seq<nat>, i: nat, bump: int)
    requires Apart(order) && i < |order|
    ensures var far := |order| - 1 - i;
            var k := i + if bump < 0 || far < bump then far else bump;
            var r := Bumped(order, order[i], bump);
            |r| == |order| && r[k] == order[i] && Without(r, k) == Without(order, i)
  {
    PlaceIs(order, i);
    hide Apart;
    var rest := Without(order, i);
    if i < |order| - 1 {
      Same(order, i, |order| - 1);
      WithoutWith(rest, Target(|rest|, i, bump), order[i]);
    }
  }

  lemma WithoutWith(rest: seq<nat>, k: nat, idx: nat)
    requires k <= |rest|
    ensures Without(With(rest, k, idx), k) == rest
  {
  }
}
