/**
 * The item collector (ACollector) as the dispatcher sees it: an ordered
 * sequence of slots, each a record and a "removed" flag. Removing a record
 * only sets its flag, so no other record changes its index. The functions on
 * slot sequences below are the specification; the class `Collector` holds the
 * sequence and changes it in place.
 */
module Collector {
  datatype Slot<T> = Slot(item: T, removed: bool)

  /** One line of the `view` listing: a live slot's index and its record. */
  datatype Row<T> = Row(index: nat, item: T)

  /** State after `addItem(x)`: a new live slot at the end. */
  function Appended<T>(s: seq<Slot<T>>, x: T): seq<Slot<T>> {
    s + [Slot(x, false)]
  }

  /** State after `removeItem(i)`: the slot stays, with its flag set. */
  function MarkRemoved<T>(s: seq<Slot<T>>, i: nat): seq<Slot<T>>
    requires i < |s|
  {
    s[i := s[i].(removed := true)]
  }

  /** State after `updateItem(i, x)`: the slot keeps its flag, the record is replaced. */
  function Replaced<T>(s: seq<Slot<T>>, i: nat, x: T): seq<Slot<T>>
    requires i < |s|
  {
    s[i := s[i].(item := x)]
  }

  /** The listing of the live slots among the first `n`, in index order. */
  function ListingBelow<T>(s: seq<Slot<T>>, n: nat): seq<Row<T>>
    requires n <= |s|
  {
    if n == 0 then []
    else ListingBelow(s, n - 1) + (if s[n - 1].removed then [] else [Row(n - 1, s[n - 1].item)])
  }

  /** What `view` prints for the collector's slots. */
  function Listing<T>(s: seq<Slot<T>>): seq<Row<T>> {
    ListingBelow(s, |s|)
  }

  /** The row names a live slot by its own index and shows that slot's record. */
  ghost predicate Lists<T>(s: seq<Slot<T>>, r: Row<T>) {
    r.index < |s| && !s[r.index].removed && r.item == s[r.index].item
  }

  /** The indices of the slots that are not removed. */
  ghost function LiveSet<T>(s: seq<Slot<T>>): set<nat> {
    set i: nat | i < |s| && !s[i].removed
  }

  ghost function LiveBelow<T>(s: seq<Slot<T>>, n: nat): set<nat>
    requires n <= |s|
  {
    set i: nat | i < n && !s[i].removed
  }

  /** Every printable slot (its fraction can be named) among the live ones. */
  predicate LivePrintable<T>(s: seq<Slot<T>>, printable: T -> bool) {
    forall i :: 0 <= i < |s| && !s[i].removed ==> printable(s[i].item)
  }

  lemma {:induction false} ListingBelowMembers<T>(s: seq<Slot<T>>, n: nat, r: Row<T>)
    requires n <= |s|
    ensures r in ListingBelow(s, n) <==> r.index < n && Lists(s, r)
  {
    if n > 0 {
      ListingBelowMembers(s, n - 1, r);
    }
  }

  lemma {:induction false} ListingBelowShape<T>(s: seq<Slot<T>>, n: nat)
    requires n <= |s|
    ensures forall a :: 0 <= a < |ListingBelow(s, n)| ==> ListingBelow(s, n)[a].index < n
    ensures forall a, b :: 0 <= a < b < |ListingBelow(s, n)| ==> ListingBelow(s, n)[a].index < ListingBelow(s, n)[b].index
    ensures |ListingBelow(s, n)| == |LiveBelow(s, n)| <= n
  {
    if n > 0 {
      ListingBelowShape(s, n - 1);
      if s[n - 1].removed {
        assert LiveBelow(s, n) == LiveBelow(s, n - 1);
      } else {
        assert LiveBelow(s, n) == LiveBelow(s, n - 1) + {n - 1};
        assert n - 1 !in LiveBelow(s, n - 1);
      }
    } else {
      assert LiveBelow(s, n) == {};
    }
  }

  /**
   * `view` lists exactly the live slots, each under its own index with its own
   * record, in increasing index order, and as many rows as there are live slots.
   */
  lemma ListingSpec<T>(s: seq<Slot<T>>)
    ensures forall r :: r in Listing(s) <==> Lists(s, r)
    ensures forall a, b :: 0 <= a < b < |Listing(s)| ==> Listing(s)[a].index < Listing(s)[b].index
    ensures |Listing(s)| == |LiveSet(s)| <= |s|
  {
    forall r {
      ListingBelowMembers(s, |s|, r);
    }
    ListingBelowShape(s, |s|);
    assert LiveBelow(s, |s|) == LiveSet(s);
  }

  lemma {:induction false} ListingBelowPrefix<T>(s: seq<Slot<T>>, t: seq<Slot<T>>, n: nat)
    requires n <= |s|
    ensures ListingBelow(s + t, n) == ListingBelow(s, n)
  {
    if n > 0 {
      ListingBelowPrefix(s, t, n - 1);
      assert (s + t)[n - 1] == s[n - 1];
    }
  }

  /** An added record is listed last, under the next index; earlier rows stay as they were. */
  lemma ListingAfterAdd<T>(s: seq<Slot<T>>, x: T)
    ensures Listing(Appended(s, x)) == Listing(s) + [Row(|s|, x)]
  {
    var t := Appended(s, x);
    ListingBelowPrefix(s, [Slot(x, false)], |s|);
    assert t[|s|] == Slot(x, false);
  }

  /**
   * Removing slot `i` takes exactly its row out of the listing: every other
   * live record is still listed under its original index, and the count drops
   * by one when the slot was live.
   */
  lemma ListingAfterRemove<T>(s: seq<Slot<T>>, i: nat)
    requires i < |s|
    ensures forall r :: r in Listing(MarkRemoved(s, i)) <==> r in Listing(s) && r.index != i
    ensures |Listing(MarkRemoved(s, i))| == |Listing(s)| - (if s[i].removed then 0 else 1)
  {
    var t := MarkRemoved(s, i);
    ListingSpec(s);
    ListingSpec(t);
    if s[i].removed {
      assert LiveSet(t) == LiveSet(s);
    } else {
      assert LiveSet(t) == LiveSet(s) - {i};
      assert i in LiveSet(s);
    }
  }

  /** Removing twice is the same as removing once. */
  lemma RemoveIdempotent<T>(s: seq<Slot<T>>, i: nat)
    requires i < |s|
    ensures MarkRemoved(MarkRemoved(s, i), i) == MarkRemoved(s, i)
  {
  }

  /** Removal keeps the size and every record; only slot `i`'s flag changes. */
  lemma RemoveKeepsIndices<T>(s: seq<Slot<T>>, i: nat)
    requires i < |s|
    ensures |MarkRemoved(s, i)| == |s|
    ensures forall j :: 0 <= j < |s| ==> MarkRemoved(s, i)[j].item == s[j].item
    ensures forall j :: 0 <= j < |s| && j != i ==> MarkRemoved(s, i)[j] == s[j]
    ensures MarkRemoved(s, i)[i].removed
  {
  }

  /**
   * Updating slot `i` changes only what row `i` shows: it appears with the new
   * record when the slot is live, and every other row is unchanged.
   */
  lemma ListingAfterUpdate<T>(s: seq<Slot<T>>, i: nat, x: T)
    requires i < |s|
    ensures forall r :: r in Listing(Replaced(s, i, x)) <==>
      (r.index != i && r in Listing(s)) || (r == Row(i, x) && !s[i].removed)
    ensures |Listing(Replaced(s, i, x))| == |Listing(s)|
  {
    var t := Replaced(s, i, x);
    ListingSpec(s);
    ListingSpec(t);
    assert LiveSet(t) == LiveSet(s);
  }

  /** The collector object: the slot sequence that the program changes in place. */
  class Collector<T> {
    var slots: seq<Slot<T>>

    constructor ()
      ensures slots == []
    {
      slots := [];
    }

    /** getSize: the number of slots, removed ones included, so `view` never lists more rows. */
    function GetSize(): (n: nat)
      reads this
      ensures n == |slots|
      ensures |Listing(slots)| <= n
    {
      ListingSpec(slots);
      |slots|
    }

    /** getItem: the record of a slot, removed or not; a live slot's record is listed under its index. */
    function GetItem(i: nat): (x: T)
      reads this
      requires i < |slots|
      ensures x == slots[i].item
      ensures !slots[i].removed ==> Row(i, x) in Listing(slots)
    {
      ListingSpec(slots);
      slots[i].item
    }

    /** isRemoved: a slot is removed exactly when `view` does not list it. */
    function IsRemoved(i: nat): (r: bool)
      reads this
      requires i < |slots|
      ensures r <==> i !in LiveSet(slots)
      ensures r <==> Row(i, slots[i].item) !in Listing(slots)
    {
      ListingSpec(slots);
      slots[i].removed
    }

    method AddItem(x: T)
      modifies this
      ensures slots == Appended(old(slots), x)
    {
      slots := slots + [Slot(x, false)];
    }

    method RemoveItem(i: nat)
      requires i < |slots|
      modifies this
      ensures slots == MarkRemoved(old(slots), i)
    {
      slots := slots[i := Slot(slots[i].item, true)];
    }

    method UpdateItem(i: nat, x: T)
      requires i < |slots|
      modifies this
      ensures slots == Replaced(old(slots), i, x)
    {
      slots := slots[i := Slot(x, slots[i].removed)];
    }

    method Clean()
      modifies this
      ensures slots == []
    {
      slots := [];
    }
  }
}
