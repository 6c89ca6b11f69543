/** The persistent bitmap cache on values: which cells hold a bitmap, in which order they were last
    used, and the cells of the cache file. */
module CacheSpec {
  import opened Bits
  import opened Wrappers

  const CELLS: nat := 0xa00
  const FILE_CELLS: nat := 0x9f6
  const LIMIT: nat := 0x150
  const VOLATILE: nat := 0x7fff
  const BUMP_COUNT: int := 40
  const TO_TOP: int := -1

  datatype Bitmap = Bitmap(width: nat, height: nat, data: seq<byte>)

  /** A cell of the file; a key of zero ends the list of cells. */
  datatype Cell = Cell(key: nat, bitmap: Bitmap, stamp: nat)

  /** `order` runs from the least to the most recently used cell. */
  datatype Store = Store(live: seq<Option<Bitmap>>, order: seq<nat>, cells: seq<Cell>)

  // The order of use.

  /** Where idx is. */
  function Place(order: seq<nat>, idx: nat): (i: nat)
    requires idx in order
    ensures i < |order| && order[i] == idx
  {
    if order[|order| - 1] == idx then |order| - 1 else Place(order[..|order| - 1], idx)
  }

  function Without(order: seq<nat>, i: nat): (r: seq<nat>)
    requires i < |order|
    ensures |r| == |order| - 1
  {
    order[..i] + order[i + 1..]
  }

  function With(order: seq<nat>, k: nat, idx: nat): (r: seq<nat>)
    requires k <= |order|
    ensures |r| == |order| + 1
  {
    order[..k] + [idx] + order[k..]
  }

  /** `bump` places further from place i among n, or the end. */
  function Target(n: nat, i: nat, bump: int): (k: nat)
    requires i <= n
    ensures k <= n
  {
    if bump < 0 || i + bump > n then n else i + bump
  }

  /** A cell moves up by `bump` places, or to the end; a new cell counts from the bottom. */
  function Bumped(order: seq<nat>, idx: nat, bump: int): seq<nat>
  {
    if order != [] && order[|order| - 1] == idx then order
    else if idx in order then
      var i := Place(order, idx);
      var rest := Without(order, i);
      With(rest, Target(|rest|, i, bump), idx)
    else With(order, Target(|order|, 0, bump), idx)
  }

  // The operations.

  /** The stamp of a cell, if the file has that cell. */
  function Touch(cells: seq<Cell>, idx: nat, stamp: nat): (r: seq<Cell>)
    ensures |r| == |cells|
  {
    if idx < |cells| then cells[idx := cells[idx].(stamp := stamp)] else cells
  }

  /** The least recently used cell leaves the cache, and its stamp goes. */
  function Evict(s: Store): Store
    requires s.order != [] && s.order[0] < |s.live|
  {
    Store(s.live[s.order[0] := None], s.order[1..], Touch(s.cells, s.order[0], 0))
  }

  predicate InRange(s: Store)
  {
    |s.live| == CELLS && |s.cells| == FILE_CELLS && forall i :: 0 <= i < |s.order| ==> s.order[i] < CELLS
  }

  /** A cell enters as the most recently used one; the cache holds no more than LIMIT. */
  function Put(s: Store, idx: nat, b: Bitmap): (r: Store)
    requires InRange(s) && idx < CELLS
    ensures InRange(r)
  {
    var t := Store(s.live[idx := Some(b)], Bumped(s.order, idx, TO_TOP), s.cells);
    BumpedInRange(s.order, idx, TO_TOP, CELLS);
    if |t.order| > LIMIT then Evict(t) else t
  }

  /** A cell is used: from memory, or brought in from the file. */
  function Get(s: Store, idx: nat): (r: Store)
    requires InRange(s) && idx < CELLS
    ensures InRange(r)
  {
    BumpedInRange(s.order, idx, BUMP_COUNT, CELLS);
    if s.live[idx].Some? then s.(order := Bumped(s.order, idx, BUMP_COUNT))
    else if idx < FILE_CELLS then
      var t := Put(s, idx, s.cells[idx].bitmap);
      BumpedInRange(t.order, idx, BUMP_COUNT, CELLS);
      t.(order := Bumped(t.order, idx, BUMP_COUNT))
    else s
  }

  lemma BumpedInRange(order: seq<nat>, idx: nat, bump: int, n: nat)
    requires idx < n && forall i :: 0 <= i < |order| ==> order[i] < n
    ensures forall i :: 0 <= i < |Bumped(order, idx, bump)| ==> Bumped(order, idx, bump)[i] < n
  {
    if idx in order {
      var i := Place(order, idx);
      WithoutInRange(order, i, n);
      var rest := Without(order, i);
      WithInRange(rest, Target(|rest|, i, bump), idx, n);
    } else {
      WithInRange(order, Target(|order|, 0, bump), idx, n);
    }
    hide Without, With, Target, Place;
  }

  lemma WithoutInRange(order: seq<nat>, i: nat, n: nat)
    requires i < |order| && forall j :: 0 <= j < |order| ==> order[j] < n
    ensures forall j :: 0 <= j < |order| - 1 ==> Without(order, i)[j] < n
  {
  }

  lemma WithInRange(order: seq<nat>, k: nat, idx: nat, n: nat)
    requires k <= |order| && idx < n && forall j :: 0 <= j < |order| ==> order[j] < n
    ensures forall j :: 0 <= j < |order| + 1 ==> With(order, k, idx)[j] < n
  {
  }

  /** A bitmap is written to its cell; it has no stamp yet. */
  function SaveCell(s: Store, idx: nat, key: nat, b: Bitmap): (r: Store)
    requires InRange(s)
    ensures InRange(r)
  {
    if idx < FILE_CELLS then s.(cells := s.cells[idx := Cell(key, b, 0)]) else s
  }

  /** The stamps t + 1, t + 2 and so on for the first n cells in order of use. */
  function Stamped(cells: seq<Cell>, order: seq<nat>, n: nat, t: nat): (r: seq<Cell>)
    requires n <= |order|
    ensures |r| == |cells|
  {
    if n == 0 then cells else Touch(Stamped(cells, order, n - 1, t), order[n - 1], t + n)
  }

  /** The state at exit. */
  function SaveState(s: Store, t: nat): (r: Store)
    requires InRange(s)
    ensures InRange(r)
  {
    s.(cells := Stamped(s.cells, s.order, |s.order|, t))
  }

  // Reading the file at the start.

  datatype Entry = Entry(idx: nat, stamp: nat)

  /** How many cells the list of keys has. */
  function Prefix(cells: seq<Cell>): (n: nat)
    ensures n <= |cells| && (forall i :: 0 <= i < n ==> cells[i].key != 0) && (n < |cells| ==> cells[n].key == 0)
  {
    PrefixFrom(cells, 0)
  }

  function PrefixFrom(cells: seq<Cell>, i: nat): (n: nat)
    requires i <= |cells| && forall j :: 0 <= j < i ==> cells[j].key != 0
    ensures i <= n <= |cells| && (forall j :: 0 <= j < n ==> cells[j].key != 0) && (n < |cells| ==> cells[n].key == 0)
    decreases |cells| - i
  {
    if i == |cells| || cells[i].key == 0 then i else PrefixFrom(cells, i + 1)
  }

  /** An entry goes behind all that are not younger. */
  function Insert(s: seq<Entry>, e: Entry): (r: seq<Entry>)
    ensures |r| == |s| + 1
    ensures forall i :: 0 <= i < |r| ==> r[i] == e || r[i] in s
  {
    if s != [] && e.stamp < s[|s| - 1].stamp then Insert(s[..|s| - 1], e) + [s[|s| - 1]] else s + [e]
  }

  /** The cache after the first n cells of the file. */
  function Loaded(s: Store, n: nat, precache: bool): (r: Store)
    requires InRange(s) && n <= FILE_CELLS
    ensures InRange(r)
  {
    if n == 0 then s
    else
      var t := Loaded(s, n - 1, precache);
      if precache && t.cells[n - 1].stamp != 0 then Put(t, n - 1, t.cells[n - 1].bitmap) else t
  }

  /** The first n cells by stamp. */
  function Entries(s: Store, n: nat, precache: bool): (r: seq<Entry>)
    requires InRange(s) && n <= FILE_CELLS
    ensures |r| == n && forall i :: 0 <= i < n ==> r[i].idx < n
  {
    if n == 0 then []
    else Insert(Entries(s, n - 1, precache), Entry(n - 1, Loaded(s, n - 1, precache).cells[n - 1].stamp))
  }

  function Indices(es: seq<Entry>): (r: seq<nat>)
    ensures |r| == |es| && forall i :: 0 <= i < |es| ==> r[i] == es[i].idx
  {
    seq(|es|, i requires 0 <= i < |es| => es[i].idx)
  }

  /** Those of the cells that hold a bitmap. */
  function Live(live: seq<Option<Bitmap>>, idx: seq<nat>): (r: seq<nat>)
    requires forall i :: 0 <= i < |idx| ==> idx[i] < |live|
  {
    if idx == [] then []
    else if live[idx[0]].Some? then [idx[0]] + Live(live, idx[1..])
    else Live(live, idx[1..])
  }

  /** What the cache is after the file has been read. */
  function Enumerated(s: Store, precache: bool): (r: Store)
    requires InRange(s)
  {
    var n := Prefix(s.cells);
    var t := Loaded(s, n, precache);
    t.(order := Live(t.live, Indices(Entries(s, n, precache))))
  }
}
