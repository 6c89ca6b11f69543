/** The intrusive list: each element knows the pointer that points at it, here the element that holds
    that pointer, so that it can be taken out without a search. */
module LinkSeq {
  import opened Wrappers

  /** An element, or the list's own first pointer. */
  class Link {
    var next: Link?
    var self: Link?

    constructor ()
      ensures next == null && self == null
    {
      next, self := null, null;
    }
  }

  function At(chain: seq<Link>, i: nat): Link? { if i < |chain| then chain[i] else null }

  /** Each leads to the one after it, and knows the one before. */
  ghost predicate Linked(chain: seq<Link>)
    reads chain
  {
    && (forall i {:trigger chain[i]} :: 0 <= i < |chain| ==> chain[i].next == At(chain, i + 1))
    && (forall i {:trigger chain[i]} :: 0 < i < |chain| ==> chain[i].self == chain[i - 1])
  }

  lemma LinkedAt(chain: seq<Link>, i: nat)
    requires Linked(chain) && i < |chain|
    ensures chain[i].next == At(chain, i + 1) && (i > 0 ==> chain[i].self == chain[i - 1])
  {
  }

  lemma ApartMore(chain: seq<Link>, so: Link)
    requires Apart(chain) && so !in chain
    ensures Apart(chain + [so])
  {
  }

  lemma Extended(was: seq<Link>, so: Link)
    requires was != [] && so.next == null && so.self == was[|was| - 1]
    requires forall i {:trigger was[i]} :: 0 <= i < |was| ==>
      was[i].next == if i == |was| - 1 then so else At(was, i + 1)
    requires forall i {:trigger was[i]} :: 0 < i < |was| ==> was[i].self == was[i - 1]
    ensures Linked(was + [so])
  {
  }

  lemma NowLinked(chain: seq<Link>)
    requires forall i {:trigger chain[i]} :: 0 <= i < |chain| ==>
      chain[i].next == At(chain, i + 1) && (i > 0 ==> chain[i].self == chain[i - 1])
    ensures Linked(chain)
  {
  }

  /** The neighbours once element k is gone. */
  lemma Neighbours(was: seq<Link>, k: nat, i: nat)
    requires 0 < k < |was| && i < |was| - 1
    ensures var chain := Less(was, k);
            var j := if i < k then i else i + 1;
            && chain[i] == was[j] && At(chain, i + 1) == (if j == k - 1 then At(was, k + 1) else At(was, j + 1))
            && (i > 0 ==> chain[i - 1] == if j == k + 1 then was[k - 1] else was[j - 1])
  {
  }

  lemma Relinked(was: seq<Link>, k: nat)
    requires 0 < k < |was|
    requires forall i {:trigger was[i]} :: 0 <= i < |was| && i != k ==>
      was[i].next == if i == k - 1 then At(was, k + 1) else At(was, i + 1)
    requires forall i {:trigger was[i]} :: 0 < i < |was| && i != k ==>
      was[i].self == if i == k + 1 then was[k - 1] else was[i - 1]
    ensures Linked(Less(was, k))
  {
    hide At;
    var chain := Less(was, k);
    forall i | 0 <= i < |chain|
      ensures chain[i].next == At(chain, i + 1) && (i > 0 ==> chain[i].self == chain[i - 1])
    {
      Neighbours(was, k, i);
    }
    NowLinked(chain);
  }

  class List {
    const head: Link
    var last: Link
    var count: int

    /** The head and the elements in order. */
    ghost var chain: seq<Link>

    ghost predicate Valid()
      reads this, chain
    {
      && chain != [] && chain[0] == head && last == chain[|chain| - 1] && count == |chain| - 1
      && Apart(chain) && Linked(chain)
    }

    /** lnkseqInit */
    constructor ()
      ensures Valid() && chain == [head] && fresh(head)
    {
      var h := new Link();
      head, last, count, chain := h, h, 0, [h];
    }

    method Hook(so: Link)
      requires Apart(chain) && Linked(chain) && chain != [] && so !in chain && last == chain[|chain| - 1]
      modifies so, last
      ensures Linked(chain + [so]) && so.self != null
    {
      hide Apart, At;
      ghost var n := |chain| - 1;
      forall i | 0 <= i < |chain| ensures chain[i] == last <==> i == n {
        Same(chain, i, n);
      }
      so.next := null;
      so.self := last;
      last.next := so;
      Extended(chain, so);
    }

    /** lnkseqAdd */
    method Add(so: Link)
      requires Valid() && so !in chain
      modifies this`last, this`count, this`chain, so, last
      ensures Valid() && chain == old(chain) + [so] && so.self != null
    {
      hide Apart, Linked;
      ApartMore(chain, so);
      Hook(so);
      last := so;
      count := count + 1;
      chain := chain + [so];
    }

    /** The pointers that lead to so and back now pass it by. */
    method Unhook(so: Link, ghost k: nat)
      requires Apart(chain) && 0 < k < |chain| && chain[k] == so && so.self == chain[k - 1]
               && so.next == At(chain, k + 1)
      modifies this`last, chain
      ensures forall i {:trigger chain[i]} :: 0 <= i < |chain| ==>
        chain[i].next == if i == k - 1 then old(so.next) else old(chain[i].next)
      ensures forall i {:trigger chain[i]} :: 0 <= i < |chain| ==>
        chain[i].self == if i == k then null else if i == k + 1 then old(so.self) else old(chain[i].self)
      ensures last == if k + 1 < |chain| then old(last) else chain[k - 1]
    {
      hide Apart;
      forall i | 0 <= i < |chain|
        ensures (chain[i] == chain[k - 1] <==> i == k - 1) && (chain[i] == so <==> i == k)
          && (k + 1 < |chain| ==> (chain[i] == chain[k + 1] <==> i == k + 1))
      {
        Same(chain, i, k - 1);
        Same(chain, i, k);
        if k + 1 < |chain| {
          Same(chain, i, k + 1);
        }
      }
      so.self.next := so.next;
      if so.next != null {
        so.next.self := so.self;
      } else {
        last := so.self;
      }
      so.self := null;
    }

    /** lnkseqRemove: from any place in the list, by the element alone. */
    method Remove(so: Link, ghost k: nat)
      requires Valid() && 0 < k < |chain| && chain[k] == so
      modifies this`last, this`count, this`chain, chain
      ensures Valid() && chain == Less(old(chain), k) && so.self == null && so !in chain
    {
      hide Apart, At, Linked;
      ghost var was := chain;
      ApartLess(was, k);
      Neighbours(was, k, 0);
      LinkedAt(was, k);
      if so.self != null {
        TakeOut(so, k);
        count := count - 1;
      }
      chain := Less(was, k);
    }

    method TakeOut(so: Link, ghost k: nat)
      requires Apart(chain) && Linked(chain) && 0 < k < |chain| && chain[k] == so && last == chain[|chain| - 1]
      modifies this`last, chain
      ensures so.self == null
      ensures var c := Less(chain, k); Linked(c) && last == c[|c| - 1]
    {
      hide Apart, At;
      Unhook(so, k);
      Relinked(chain, k);
    }

  }
}
