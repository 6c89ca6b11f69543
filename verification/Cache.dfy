/** The persistent bitmap cache as the program keeps it: bitmaps, links and the file in arrays. */
module Cache {
  import opened Wrappers
  import opened CacheSpec
  import opened CacheList

  class BitmapCache {
    const bitmap: array<Option<Bitmap>>
    const previous: array<int>
    const next: array<int>
    const file: array<Cell>
    const precache: bool
    var lru: int
    var mru: int
    var count: int
    var volatile: Option<Bitmap>
    var enumerated: bool

    /** The cells on the list, the least recently used one first. */
    ghost var order: seq<nat>

    ghost predicate Sized()
    {
      && bitmap.Length == previous.Length == next.Length == CELLS && file.Length == FILE_CELLS
      && previous != next
    }

    ghost predicate Links()
      reads this`order, next, previous
    {
      Apart(order) && Forth(next[..], order) && Back(previous[..], order)
    }

    ghost predicate Ends()
      reads this`order, this`lru, this`mru, this`count
    {
      lru == At(order, 0) && mru == At(order, |order| - 1) && count == |order|
    }

    ghost predicate Listed()
      reads this`order, this`lru, this`mru, this`count, next, previous
    {
      Links() && Ends()
    }

    ghost function Value(): Store
      reads this`order, bitmap, file
    {
      Store(bitmap[..], order, file[..])
    }

    ghost predicate Valid()
      reads this`order, this`lru, this`mru, this`count, next, previous, bitmap
    {
      Sized() && Listed() && Holds(bitmap[..], order) && |order| <= LIMIT
    }

    /** An empty cache over a file. */
    constructor (cells: array<Cell>, precaching: bool)
      requires cells.Length == FILE_CELLS
      ensures Valid() && file == cells && precache == precaching && !enumerated
      ensures order == [] && fresh(bitmap) && fresh(next) && fresh(previous)
      ensures Value() == Store(seq(CELLS, i => None), [], cells[..])
    {
      bitmap := new Option<Bitmap>[CELLS](i => None);
      previous := new int[CELLS](i => 0);
      next := new int[CELLS](i => 0);
      file := cells;
      precache := precaching;
      lru, mru, count := -1, -1, 0;
      volatile, enumerated := None, false;
      order := [];
    }

    // cache_bump_bitmap

    /** Out of the list: the neighbours of idx are joined. There is always one after it. */
    method Detach(idx: nat, p: int, n: int, ghost i: nat)
      requires Sized() && Listed() && i < |order| - 1 && order[i] == idx && p == At(order, i - 1) && n == order[i + 1]
      modifies this`order, this`lru, this`mru, this`count, next, previous
      ensures Listed() && order == Without(old(order), i) && next[idx] == old(next[idx])
    {
      hide Apart, Forth, Back;
      UnlinkForth(next[..], order, i);
      UnlinkBack(previous[..], order, i);
      WithoutDistinct(order, i);
      BackAt(previous[..], order, i + 1);
      ghost var next0, previous0 := next[..], previous[..];
      count := count - 1;
      if p >= 0 {
        Same(order, i - 1, i);
        next[p] := n;
      } else {
        lru := n;
      }
      previous[n] := p;
      assert next[..] == SetIf(next0, p, n);
      assert previous[..] == previous0[n := p];
      order := Without(order, i);
    }

    /** Into the list, between p and n. */
    method Attach(idx: nat, p: int, n: int, ghost k: nat)
      requires Sized() && Listed() && idx < CELLS && idx !in order && k <= |order| && p == At(order, k - 1)
               && n == At(order, k)
      modifies this`order, this`lru, this`mru, this`count, next, previous
      ensures Listed() && order == With(old(order), k, idx)
    {
      hide Apart, Forth, Back;
      LinkForth(next[..], order, k, idx);
      LinkBack(previous[..], order, k, idx);
      WithDistinct(order, k, idx);
      ghost var next0, previous0 := next[..], previous[..];
      count := count + 1;
      previous[idx] := p;
      next[idx] := n;
      if p >= 0 {
        next[p] := idx;
      } else {
        lru := idx;
      }
      if n >= 0 {
        previous[n] := idx;
      } else {
        mru := idx;
      }
      assert next[..] == SetIf(next0[idx := n], p, idx);
      assert previous[..] == SetIf(previous0[idx := p], n, idx);
      order := With(order, k, idx);
    }

    /** `bump` steps up the list from place i, or to its end. */
    method Walk(p: int, n: int, bump: int, ghost i: nat) returns (p': int, n': int, ghost k: nat)
      requires Sized() && Listed() && i <= |order| && p == At(order, i - 1) && n == At(order, i)
      ensures k == Target(|order|, i, bump) && p' == At(order, k - 1) && n' == At(order, k)
    {
      hide Apart, Forth, Back, Without, With;
      if bump >= 0 {
        var m := 0;
        p', n', k := p, n, i;
        while m < bump && n' >= 0
          invariant 0 <= m <= bump && k == i + m <= |order| && p' == At(order, k - 1) && n' == At(order, k)
          decreases bump - m
        {
          ForthAt(next[..], order, k);
          p' := n';
          n' := next[p'];
          k := k + 1;
          m := m + 1;
        }
      } else {
        p', n', k := mru, -1, |order|;
      }
    }

    /** cache_bump_bitmap: a cell moves up the list, or enters it. */
    method Bump(idx: nat, bump: int)
      requires Sized() && Listed() && idx < CELLS && (idx !in order ==> next[idx] == -1)
      modifies this`order, this`lru, this`mru, this`count, next, previous
      ensures Listed() && order == Bumped(old(order), idx, bump)
    {
      hide Apart, Forth, Back;
      if mru == idx {
        return;
      }
      var n, p := next[idx], previous[idx];
      ghost var i := 0;
      if idx in order {
        i := Place(order, idx);
        ForthAt(next[..], order, i);
        BackAt(previous[..], order, i);
      }
      if n >= 0 {
        WithoutDistinct(order, i);
        Detach(idx, p, n, i);
      } else {
        p, n := -1, lru;
      }
      ghost var k;
      p, n, k := Walk(p, n, bump, i);
      Attach(idx, p, n, k);
    }

    // The file.

    /** pstcache_touch_bitmap */
    method TouchBitmap(idx: nat, stamp: nat)
      requires Sized()
      modifies file
      ensures file[..] == Touch(old(file[..]), idx, stamp)
    {
      if idx < FILE_CELLS {
        file[idx] := file[idx].(stamp := stamp);
      }
    }

    /** pstcache_save_bitmap */
    method SaveBitmap(idx: nat, key: nat, b: Bitmap) returns (ok: bool)
      requires Valid()
      modifies file
      ensures Valid() && Value() == SaveCell(old(Value()), idx, key, b) && ok == (idx < FILE_CELLS)
    {
      ok := idx < FILE_CELLS;
      if ok {
        file[idx] := Cell(key, b, 0);
      }
    }

    /** cache_evict_bitmap */
    method EvictBitmap()
      requires Sized() && Listed() && Holds(bitmap[..], order) && 1 < |order|
      modifies this`order, this`lru, this`count, previous, bitmap, file
      ensures Listed() && Holds(bitmap[..], order) && Value() == Evict(old(Value()))
    {
      hide Apart, Forth, Back, Holds;
      ForthAt(next[..], order, 0);
      ForthAt(next[..], order, 1);
      BackAt(previous[..], order, 1);
      BeheadForth(next[..], order);
      BeheadBack(previous[..], order);
      HoldsEvict(bitmap[..], order);
      ghost var live0, previous0 := bitmap[..], previous[..];
      var idx := lru;
      var n := next[idx];
      count := count - 1;
      bitmap[idx] := None;
      lru := n;
      previous[n] := -1;
      assert previous[..] == previous0[n := -1];
      assert bitmap[..] == live0[idx := None];
      order := order[1..];
      TouchBitmap(idx, 0);
    }

    lemma Ranged()
      requires Sized() && Listed()
      ensures InRange(Value())
    {
    }

    /** A cell without a bitmap has no links. */
    method Unlink(idx: nat)
      requires Sized() && Listed() && idx < CELLS && idx !in order
      modifies next, previous
      ensures Listed() && next[idx] == -1
    {
      hide Apart, Forth, Back;
      Unlisted(next[..], previous[..], order, idx);
      ghost var next0, previous0 := next[..], previous[..];
      previous[idx] := -1;
      next[idx] := -1;
      assert next[..] == next0[idx := -1] && previous[..] == previous0[idx := -1];
    }

    /** cache_put_bitmap, for a cell. */
    method PutCell(idx: nat, b: Bitmap)
      requires Valid() && idx < CELLS
      modifies this`order, this`lru, this`mru, this`count, next, previous, bitmap, file
      ensures InRange(old(Value())) && Valid() && Value() == Put(old(Value()), idx, b)
    {
      hide Apart, Forth, Back, Bumped, Holds;
      Ranged();
      HoldsPut(bitmap[..], order, idx, b, TO_TOP);
      BumpedMembers(order, idx, TO_TOP);
      ListedIs(idx);
      ghost var live0 := bitmap[..];
      var was := bitmap[idx];
      bitmap[idx] := Some(b);
      assert bitmap[..] == live0[idx := Some(b)];
      if was.None? {
        Unlink(idx);
      }
      Bump(idx, TO_TOP);
      if count > LIMIT {
        EvictBitmap();
      }
    }

    lemma ListedIs(idx: nat)
      requires Valid() && idx < CELLS
      ensures bitmap[idx].Some? <==> idx in order
    {
      assert bitmap[..][idx] == bitmap[idx];
    }

    /** cache_put_bitmap */
    method PutBitmap(idx: nat, b: Bitmap)
      requires Valid()
      modifies this`order, this`lru, this`mru, this`count, this`volatile, next, previous, bitmap, file
      ensures InRange(old(Value())) && Valid()
      ensures Value() == if idx < 0xa00 then Put(old(Value()), idx, b) else old(Value())
      ensures volatile == if idx == 0x7fff then Some(b) else old(volatile)
    {
      Ranged();
      if idx < CELLS {
        PutCell(idx, b);
      } else if idx == VOLATILE {
        volatile := Some(b);
      }
    }

    /** cache_get_bitmap, with pstcache_load_bitmap. */
    method GetBitmap(idx: nat) returns (r: Option<Bitmap>)
      requires Valid()
      modifies this`order, this`lru, this`mru, this`count, next, previous, bitmap, file
      ensures InRange(old(Value())) && Valid()
      ensures Value() == if idx < 0xa00 then Get(old(Value()), idx) else old(Value())
      ensures r == if idx < 0xa00 then bitmap[idx] else if idx == 0x7fff then volatile else None
    {
      hide Apart, Forth, Back, Bumped, Holds, Put;
      Ranged();
      if idx < CELLS {
        ListedIs(idx);
        if bitmap[idx].None? {
          if idx >= FILE_CELLS {
            return None;
          }
          PutCell(idx, file[idx].bitmap);
          PutIsLive(old(Value()), idx, old(file[idx].bitmap));
          ListedIs(idx);
        }
        HoldsPut(bitmap[..], order, idx, bitmap[idx].value, BUMP_COUNT);
        BumpedMembers(order, idx, BUMP_COUNT);
        assert bitmap[..][idx := bitmap[idx]] == bitmap[..];
        Bump(idx, BUMP_COUNT);
        r := bitmap[idx];
      } else if idx == VOLATILE {
        r := volatile;
      } else {
        r := None;
      }
    }

    /** cache_save_state, for one cache: the stamps go on from t. */
    method SaveState(t: nat) returns (t': nat)
      requires Valid()
      modifies file
      ensures Valid() && InRange(old(Value())) && Value() == CacheSpec.SaveState(old(Value()), t) && t' == t + |order|
    {
      hide Apart, Forth, Back, Holds;
      Ranged();
      t' := t;
      var idx := lru;
      ghost var k := 0;
      while idx >= 0
        invariant k <= |order| && idx == At(order, k) && t' == t + k
        invariant file[..] == Stamped(old(file[..]), order, k, t)
        decreases |order| - k
      {
        ForthAt(next[..], order, k);
        t' := t' + 1;
        TouchBitmap(idx, t');
        idx := next[idx];
        k := k + 1;
      }
    }

    // cache_rebuild_bmpcache_linked_list

    /** The next entry of the table, going down from n, whose cell holds a bitmap. */
    method Skip(list: seq<nat>, n: nat) returns (m: int)
      requires Sized() && n <= |list| && forall i :: 0 <= i < |list| ==> list[i] < CELLS
      ensures -1 <= m < n && (m >= 0 ==> bitmap[list[m]].Some?)
      ensures Live(bitmap[..], list[if m < 0 then 0 else m..]) ==
        (if m < 0 then [] else [list[m]]) + Live(bitmap[..], list[n..])
    {
      m := n - 1;
      while m >= 0 && bitmap[list[m]].None?
        invariant -1 <= m < n
        invariant Live(bitmap[..], list[m + 1..]) == Live(bitmap[..], list[n..])
      {
        LiveFrom(bitmap[..], list, m);
        m := m - 1;
      }
      if m >= 0 {
        LiveFrom(bitmap[..], list, m);
      }
    }

    /** A cell goes in front of the list; its own link back stays open. */
    method Front(head: nat, idx: nat)
      requires Sized() && order != [] && head == order[0] && idx !in order && idx < CELLS && head < CELLS
      requires Apart(order) && Forth(next[..], order) && Back(previous[..][head := -1], order)
      modifies this`order, next, previous
      ensures order == [idx] + old(order)
      ensures Apart(order) && Forth(next[..], order) && Back(previous[..][idx := -1], order)
    {
      hide Apart, Forth, Back;
      Prepend(next[..], previous[..], order, idx);
      ghost var next0, previous0 := next[..], previous[..];
      previous[head] := idx;
      next[idx] := head;
      assert next[..] == next0[idx := head] && previous[..] == previous0[head := idx];
      order := [idx] + order;
    }

    /** The walk down the table from its entry n, which is the list so far, to its first entry. */
    method Link(list: seq<nat>, n: nat) returns (head: nat, c: nat)
      requires Sized() && Apart(list) && n < |list| && forall i :: 0 <= i < |list| ==> list[i] < CELLS
      requires order == [list[n]] == Live(bitmap[..], list[n..])
      requires Apart(order) && Forth(next[..], order) && Back(previous[..][list[n] := -1], order)
      modifies this`order, next, previous
      ensures order == Live(bitmap[..], list) && order != [] && head == order[0] && head < CELLS && c == |order|
      ensures order[|order| - 1] == list[n]
      ensures Apart(order) && Forth(next[..], order) && Back(previous[..][head := -1], order)
    {
      hide Apart, Forth, Back;
      ghost var live := bitmap[..];
      head, c := list[n], 1;
      var i: int := n;
      while i >= 0
        invariant i <= n && order != [] && head == order[0] && head < CELLS && c == |order|
        invariant order[|order| - 1] == list[n]
        invariant order == Live(live, list[if i < 0 then 0 else i..])
        invariant Apart(order) && Forth(next[..], order) && Back(previous[..][head := -1], order)
        decreases i
      {
        ghost var was := i;
        i := Skip(list, i);
        if i < 0 {
          break;
        }
        NotAgain(live, list, i, was);
        Front(head, list[i]);
        head := list[i];
        c := c + 1;
      }
    }

    /** The list becomes the table's cells that hold a bitmap; false where the program gives up. */
    method Rebuild(list: seq<nat>) returns (ok: bool)
      requires Sized() && Apart(list) && forall i :: 0 <= i < |list| ==> list[i] < CELLS
      modifies this`order, this`lru, this`mru, next, previous
      ensures order == Live(bitmap[..], list) && Links() && lru == At(order, 0) && mru == At(order, |order| - 1)
      ensures ok == (order == [] || |order| == count)
    {
      hide Apart, Forth, Back;
      var n := Skip(list, |list|);
      if n < 0 {
        mru, lru, order := -1, -1, [];
        NoLinks(next[..], previous[..]);
        return true;
      }
      ghost var next0, previous0 := next[..], previous[..];
      mru := list[n];
      next[list[n]] := -1;
      order := [list[n]];
      OneLink(next0, previous0, list[n]);
      assert next[..] == next0[list[n] := -1];
      var head, c := Link(list, n);
      ghost var previous1 := previous[..];
      previous[head] := -1;
      assert previous[..] == previous1[head := -1];
      lru := head;
      ok := c == count;
    }

    // pstcache_enumerate

    /** One more entry finds its place in the table. */
    method SortIn(mruIdx: array<nat>, mruStamp: array<nat>, idx: nat, stamp: nat)
      requires idx < mruIdx.Length == mruStamp.Length && mruIdx != mruStamp
      modifies mruIdx, mruStamp
      ensures Table(mruIdx[..], mruStamp[..], idx + 1) ==
        Insert(old(Table(mruIdx[..], mruStamp[..], idx)), Entry(idx, stamp))
    {
      ghost var s := Table(mruIdx[..], mruStamp[..], idx);
      var n: nat := idx;
      while n > 0 && stamp < mruStamp[n - 1]
        invariant n <= idx
        invariant forall i :: 0 <= i < n ==> Entry(mruIdx[i], mruStamp[i]) == s[i]
        invariant forall i :: n <= i < idx ==> Entry(mruIdx[i + 1], mruStamp[i + 1]) == s[i] && stamp < s[i].stamp
      {
        mruIdx[n] := mruIdx[n - 1];
        mruStamp[n] := mruStamp[n - 1];
        n := n - 1;
      }
      mruIdx[n] := idx;
      mruStamp[n] := stamp;
      Inserted(s, Table(mruIdx[..], mruStamp[..], idx + 1), Entry(idx, stamp), n);
    }

    /** The turn for a cell with a key. */
    method EnumerateCell(mruIdx: array<nat>, mruStamp: array<nat>, idx: nat, ghost s: Store)
      requires Valid() && InRange(s) && idx < FILE_CELLS && Value() == Loaded(s, idx, precache)
      requires mruIdx.Length == mruStamp.Length == CELLS && mruIdx != mruStamp
      requires Table(mruIdx[..], mruStamp[..], idx) == Entries(s, idx, precache)
      modifies this`order, this`lru, this`mru, this`count, next, previous, bitmap, file, mruIdx, mruStamp
      ensures Valid() && Value() == Loaded(s, idx + 1, precache)
      ensures Table(mruIdx[..], mruStamp[..], idx + 1) == Entries(s, idx + 1, precache)
    {
      hide Apart, Forth, Back, Holds, Put, Insert, Table;
      var stamp := file[idx].stamp;
      if precache && stamp != 0 {
        PutCell(idx, file[idx].bitmap);
      }
      SortIn(mruIdx, mruStamp, idx, stamp);
    }

    /** The cells of the file up to the first one without a key. */
    method ReadCells(mruIdx: array<nat>, mruStamp: array<nat>) returns (idx: nat, keys: seq<nat>)
      requires Valid() && mruIdx.Length == mruStamp.Length == CELLS && mruIdx != mruStamp
      modifies this`order, this`lru, this`mru, this`count, next, previous, bitmap, file, mruIdx, mruStamp
      ensures InRange(old(Value())) && Valid() && idx == Prefix(old(file[..]))
              && Value() == Loaded(old(Value()), idx, precache)
      ensures Table(mruIdx[..], mruStamp[..], idx) == Entries(old(Value()), idx, precache)
      ensures |keys| == idx && forall i :: 0 <= i < idx ==> keys[i] == old(file[..])[i].key
    {
      hide Apart, Forth, Back, Holds, Put, Insert;
      Ranged();
      ghost var s := Value();
      idx, keys := 0, [];
      while idx < FILE_CELLS
        invariant idx <= FILE_CELLS && |keys| == idx && Valid() && Value() == Loaded(s, idx, precache)
        invariant Table(mruIdx[..], mruStamp[..], idx) == Entries(s, idx, precache)
        invariant forall i :: 0 <= i < idx ==> s.cells[i].key == keys[i] != 0
      {
        LoadedKeys(s, idx, precache);
        if file[idx].key == 0 {
          break;
        }
        keys := keys + [file[idx].key];
        EnumerateCell(mruIdx, mruStamp, idx, s);
        idx := idx + 1;
      }
      LoadedKeys(s, idx, precache);
      PrefixIs(s.cells, idx);
    }

    /** pstcache_enumerate: the keys of the file's cells, and the list in the order of their stamps.
        The program never gives up over the number of cells. */
    method Enumerate() returns (ok: bool, keys: seq<nat>)
      requires Valid() && (!enumerated ==> order == [])
      modifies this`order, this`lru, this`mru, this`count, this`enumerated, next, previous, bitmap, file
      ensures InRange(old(Value())) && Valid() && enumerated && ok
      ensures old(enumerated) ==> keys == [] && Value() == old(Value())
      ensures !old(enumerated) ==> Value() == Enumerated(old(Value()), precache)
      ensures !old(enumerated) ==>
        |keys| == Prefix(old(file[..])) && forall i :: 0 <= i < |keys| ==> keys[i] == old(file[..])[i].key
    {
      hide Apart, Forth, Back, Holds, Live, Loaded, Entries, Indices, Prefix, Table;
      Ranged();
      ok, keys := true, [];
      if enumerated {
        return;
      }
      var mruIdx, mruStamp := new nat[CELLS], new nat[CELLS];
      ghost var s := Value();
      var idx;
      idx, keys := ReadCells(mruIdx, mruStamp);
      EntriesMembers(s, idx, precache);
      TableIndices(mruIdx[..], mruStamp[..], idx);
      LoadedBelow(s, idx, precache);
      var list := mruIdx[..idx];
      Relisted(bitmap[..], order, list, idx);
      ok := Rebuild(list);
      enumerated := true;
    }
  }
}
