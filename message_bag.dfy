/**
 The message bag container: one ordered list of (bag, message) entries that
 grows by appending, is queried by bag label, and shrinks by clearing one bag
 or everything.

 The list is the one field the container updates, so the container is a class
 whose mutating operations are methods and whose queries are functions of the
 current list. Every query and every clear is specified against the filters
 of module Entries.
 */
module MessageBags {
  import opened Entries

  class MessageBag<L(==,!new), M> {
    /** Every entry added and not yet cleared, oldest first. */
    var items: seq<Entry<L, M>>

    /** A new container holds no entries. */
    constructor ()
      ensures items == []
      ensures forall bag :: !Has(bag) && Get(bag) == [] && First(bag) == NotFound
    {
      items := [];
    }

    /** Appends one entry; it joins the end of its bag and no other bag changes. */
    method Add(bag: L, message: M)
      modifies this
      ensures items == old(items) + [Entry(bag, message)]
      ensures Has(bag) && Get(bag) == old(Get(bag)) + [message]
      ensures forall other :: other != bag ==> Get(other) == old(Get(other))
    {
      ghost var before := items;
      items := items + [Entry(bag, message)];
      AddFilters(before, bag, message, bag);
      forall other | other != bag
        ensures Filter(items, other) == Filter(before, other)
      {
        AddFilters(before, bag, message, other);
      }
    }

    /**
     The entries labelled `bag`: exactly the entries of the list at the
     positions whose label is `bag`, in list order.
     */
    function FilterBag(bag: L): (r: seq<Entry<L, M>>)
      reads this
      ensures forall e :: e in r ==> e.bag == bag
      ensures |r| == |Positions(items, bag, true)|
      ensures forall k :: 0 <= k < |r| ==> r[k] == items[Positions(items, bag, true)[k]]
    {
      WhereAtPositions(items, bag, true);
      Filter(items, bag)
    }

    /** Whether some entry carries label `bag`. */
    function Has(bag: L): (r: bool)
      reads this
      ensures r <==> Present(items, bag)
    {
      FilterEmptyIff(items, bag);
      |FilterBag(bag)| > 0
    }

    /**
     The messages filed under `bag`, oldest first: the k-th is the message of
     the k-th entry of `FilterBag(bag)`. Empty when there are none.
     */
    function Get(bag: L): (r: seq<M>)
      reads this
      ensures |r| == |FilterBag(bag)|
      ensures forall k :: 0 <= k < |r| ==> r[k] == FilterBag(bag)[k].message
      ensures r == [] <==> !Has(bag)
    {
      FilterEmptyIff(items, bag);
      Messages(FilterBag(bag))
    }

    /**
     The message of the earliest entry labelled `bag`, which is the head of
     `Get(bag)`; NotFound exactly when the bag has no entries.
     */
    function First(bag: L): (r: Lookup<M>)
      reads this
      ensures r.Found? <==> Has(bag)
      ensures r.Found? ==> Get(bag) != [] && r.message == Get(bag)[0]
      ensures r.Found? ==> exists i :: EarliestWith(items, bag, i) && items[i].message == r.message
    {
      if Has(bag) then
        FirstIsEarliest(items, bag);
        Found(FilterBag(bag)[0].message)
      else
        NotFound
    }

    /** Drops every entry labelled `bag`; all other entries stay, in order. */
    method Clear(bag: L)
      modifies this
      ensures items == Without(old(items), bag)
      ensures !Has(bag)
      ensures forall other :: other != bag ==> Has(other) == old(Has(other)) && Get(other) == old(Get(other))
      ensures !old(Has(bag)) ==> items == old(items)
    {
      ghost var before := items;
      items := Without(items, bag);
      ClearRemovesBag(before, bag);
      if !Present(before, bag) {
        ClearAbsentIsNoop(before, bag);
      }
      forall other | other != bag
        ensures Filter(items, other) == Filter(before, other)
      {
        ClearKeepsOthers(before, bag, other);
      }
    }

    /** Drops every entry: the container is as freshly constructed. */
    method ClearAll()
      modifies this
      ensures items == []
      ensures forall bag :: !Has(bag) && Get(bag) == [] && First(bag) == NotFound
    {
      items := [];
    }
  }

  /**
   A caller's view of the container, in three steps that use nothing but the
   contracts above: one bag filled, a second bag filled beside it, then both
   read back and cleared one after the other. What `Has` and `First` answer
   after an `Add` follows from what `Get` answers.
   */
  method FillOneBag<L(==,!new), M>(bag1: L, a: M, b: M) returns (mb: MessageBag<L, M>)
    ensures fresh(mb)
    ensures mb.Get(bag1) == [a, b] && mb.First(bag1) == Found(a)
    ensures forall other :: other != bag1 ==> mb.Get(other) == []
  {
    mb := new MessageBag<L, M>();
    mb.Add(bag1, a);
    mb.Add(bag1, b);
  }

  /** Files two messages under a second bag, which was empty, beside the first. */
  method FillSecondBag<L(==,!new), M>(mb: MessageBag<L, M>, bag2: L, c: M, d: M)
    requires mb.Get(bag2) == []
    modifies mb
    ensures mb.Get(bag2) == [c, d]
    ensures forall other :: other != bag2 ==> mb.Get(other) == old(mb.Get(other))
  {
    mb.Add(bag2, c);
    assert mb.Get(bag2) == [c];
    mb.Add(bag2, d);
  }

  /**
   Both bags read back, then cleared one after the other: the first clear
   leaves the second bag as it was, the second leaves neither bag present.
   */
  method TwoBagsScenario<L(==,!new), M>(bag1: L, bag2: L, absent: L, a: M, b: M, c: M, d: M)
    returns (mb: MessageBag<L, M>)
    requires bag1 != bag2 && absent != bag1 && absent != bag2
    ensures !mb.Has(bag1) && !mb.Has(bag2) && mb.First(bag2) == NotFound
  {
    mb := FillOneBag(bag1, a, b);
    FillSecondBag(mb, bag2, c, d);
    assert mb.Get(absent) == [];
    assert !mb.Has(absent) && mb.First(absent) == NotFound;
    assert mb.Get(bag1) == [a, b] && mb.Get(bag2) == [c, d];
    assert mb.First(bag1) == Found(a) && mb.First(bag2) == Found(c);
    assert mb.Has(bag1) && mb.Has(bag2);
    mb.Clear(bag1);
    assert !mb.Has(bag1) && mb.Has(bag2) && mb.Get(bag2) == [c, d];
    mb.Clear(bag2);
  }
}
