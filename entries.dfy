/**
 Entries of a message bag and the label filters that every query and every
 clear of the container is built from.

 The container keeps one ordered list of entries, each a label (the "bag")
 with a message. Both filters the container uses, "keep the entries with this
 label" and "keep the entries without this label", are `Where` with its
 `same` flag set to true or false.
 */
module Entries {

  /** One stored entry: the bag label and the message filed under it. */
  datatype Entry<L, M> = Entry(bag: L, message: M)

  /** The outcome of asking for the first message of a bag. */
  datatype Lookup<M> = Found(message: M) | NotFound

  /** The filter callback: `e` has label `bag` exactly when `same` is true. */
  predicate Passes<L(==), M>(e: Entry<L, M>, bag: L, same: bool) {
    (e.bag == bag) == same
  }

  /** The entries of `s` that pass the label test, in their original order. */
  function Where<L(==), M>(s: seq<Entry<L, M>>, bag: L, same: bool): (r: seq<Entry<L, M>>)
    ensures |r| <= |s|
    ensures forall e :: e in r ==> Passes(e, bag, same)
    decreases |s|
  {
    if s == [] then []
    else
      var n := |s| - 1;
      Where(s[..n], bag, same) + (if Passes(s[n], bag, same) then [s[n]] else [])
  }

  /** The entries labelled `bag` (what the container's `_filterBag` computes). */
  function Filter<L(==), M>(s: seq<Entry<L, M>>, bag: L): seq<Entry<L, M>> {
    Where(s, bag, true)
  }

  /** The entries with any label but `bag` (what the container keeps on `clear`). */
  function Without<L(==), M>(s: seq<Entry<L, M>>, bag: L): seq<Entry<L, M>> {
    Where(s, bag, false)
  }

  /** The messages of a list of entries, one for one. */
  function Messages<L, M>(es: seq<Entry<L, M>>): (r: seq<M>)
    ensures |r| == |es|
    ensures forall k :: 0 <= k < |es| ==> r[k] == es[k].message
  {
    if es == [] then [] else [es[0].message] + Messages(es[1..])
  }

  /** True when some entry of `s` carries label `bag`. */
  ghost predicate Present<L, M>(s: seq<Entry<L, M>>, bag: L) {
    exists i :: 0 <= i < |s| && s[i].bag == bag
  }

  /** `i` is the position of the earliest entry of `s` labelled `bag`. */
  ghost predicate EarliestWith<L, M>(s: seq<Entry<L, M>>, bag: L, i: int) {
    0 <= i < |s| && s[i].bag == bag && forall j :: 0 <= j < i ==> s[j].bag != bag
  }

  ghost predicate Increasing(p: seq<nat>) {
    forall i, j :: 0 <= i < j < |p| ==> p[i] < p[j]
  }

  /**
   The positions of `s` whose entries pass the label test, listed in
   increasing order: a position is listed exactly when its entry passes. It
   is the index-level description against which `Where` is shown to keep
   exactly the passing entries and to keep their relative order.
   */
  ghost function Positions<L, M>(s: seq<Entry<L, M>>, bag: L, same: bool): (r: seq<nat>)
    ensures forall k :: 0 <= k < |r| ==> r[k] < |s|
    ensures Increasing(r)
    ensures forall i {:trigger i in r} :: 0 <= i < |s| ==> (Passes(s[i], bag, same) <==> i in r)
    decreases |s|
  {
    if s == [] then []
    else
      var n := |s| - 1;
      var p' := Positions(s[..n], bag, same);
      assert forall i :: 0 <= i < n ==> s[i] == s[..n][i];
      assert n !in p';
      p' + (if Passes(s[n], bag, same) then [n] else [])
  }

  /**
   A filter picks out the entries of `s` at the positions of the passing
   entries: by the contract of Positions, the result holds every passing
   entry, no other entry, in the original order.
   */
  lemma {:induction false} WhereAtPositions<L, M>(s: seq<Entry<L, M>>, bag: L, same: bool)
    ensures |Where(s, bag, same)| == |Positions(s, bag, same)|
    ensures forall k :: 0 <= k < |Positions(s, bag, same)| ==>
              Where(s, bag, same)[k] == s[Positions(s, bag, same)[k]]
    decreases |s|
  {
    if s != [] {
      var n := |s| - 1;
      var s' := s[..n];
      WhereAtPositions(s', bag, same);
      var w', p' := Where(s', bag, same), Positions(s', bag, same);
      var w, p := Where(s, bag, same), Positions(s, bag, same);
      var keep := Passes(s[n], bag, same);
      assert w == w' + (if keep then [s[n]] else []);
      assert p == p' + (if keep then [n] else []);
      forall k | 0 <= k < |p|
        ensures w[k] == s[p[k]]
      {
        if k < |p'| {
          assert w[k] == w'[k] == s'[p'[k]];
        }
      }
    }
  }

  /** Appending one entry extends each filter by that entry exactly when it passes. */
  lemma {:induction false} WhereAppend<L, M>(s: seq<Entry<L, M>>, e: Entry<L, M>, bag: L, same: bool)
    ensures Where(s + [e], bag, same)
         == Where(s, bag, same) + (if Passes(e, bag, same) then [e] else [])
  {
    assert (s + [e])[..|s|] == s;
  }

  /** A bag has no entries exactly when no entry of `s` carries its label. */
  lemma {:induction false} FilterEmptyIff<L, M>(s: seq<Entry<L, M>>, bag: L)
    ensures Filter(s, bag) == [] <==> !Present(s, bag)
    decreases |s|
  {
    if s != [] {
      var n := |s| - 1;
      FilterEmptyIff(s[..n], bag);
      if s[n].bag != bag && Present(s, bag) {
        var i :| 0 <= i < |s| && s[i].bag == bag;
        assert s[..n][i].bag == bag;
      }
    }
  }

  /** The first entry of a non-empty bag is the earliest entry with its label. */
  lemma FirstIsEarliest<L, M>(s: seq<Entry<L, M>>, bag: L)
    requires Filter(s, bag) != []
    ensures |Positions(s, bag, true)| == |Filter(s, bag)|
    ensures EarliestWith(s, bag, Positions(s, bag, true)[0])
    ensures Filter(s, bag)[0] == s[Positions(s, bag, true)[0]]
  {
    WhereAtPositions(s, bag, true);
    var p := Positions(s, bag, true);
    forall j | 0 <= j < p[0]
      ensures s[j].bag != bag
    {
      assert j !in p;
    }
  }

  /** Adding under `bag` appends the new entry to that bag and to no other. */
  lemma AddFilters<L, M>(s: seq<Entry<L, M>>, bag: L, message: M, other: L)
    ensures Filter(s + [Entry(bag, message)], bag) == Filter(s, bag) + [Entry(bag, message)]
    ensures other != bag ==> Filter(s + [Entry(bag, message)], other) == Filter(s, other)
  {
    WhereAppend(s, Entry(bag, message), bag, true);
    WhereAppend(s, Entry(bag, message), other, true);
  }

  /** Adding keeps the first entry of a bag that already had one. */
  lemma AddKeepsFirst<L, M>(s: seq<Entry<L, M>>, bag: L, message: M, other: L)
    requires Filter(s, other) != []
    ensures Filter(s + [Entry(bag, message)], other)[0] == Filter(s, other)[0]
  {
    AddFilters(s, bag, message, other);
  }

  /** After a clear of `bag` no entry carries that label. */
  lemma ClearRemovesBag<L, M>(s: seq<Entry<L, M>>, bag: L)
    ensures Filter(Without(s, bag), bag) == []
    ensures !Present(Without(s, bag), bag)
  {
    var w := Without(s, bag);
    assert forall i :: 0 <= i < |w| ==> w[i] in w;
    FilterEmptyIff(w, bag);
  }

  /** A clear of `bag` leaves every other bag exactly as it was. */
  lemma {:induction false} ClearKeepsOthers<L, M>(s: seq<Entry<L, M>>, bag: L, other: L)
    requires other != bag
    ensures Filter(Without(s, bag), other) == Filter(s, other)
    decreases |s|
  {
    if s != [] {
      var n := |s| - 1;
      var s' := s[..n];
      ClearKeepsOthers(s', bag, other);
      var w' := Without(s', bag);
      assert Filter(s, other) == Filter(s', other) + (if Passes(s[n], other, true) then [s[n]] else []);
      if Passes(s[n], bag, false) {
        assert Without(s, bag) == w' + [s[n]];
        WhereAppend(w', s[n], other, true);
      } else {
        assert Without(s, bag) == w';
      }
    }
  }

  /** A clear of a bag with no entries leaves the list unchanged. */
  lemma {:induction false} ClearAbsentIsNoop<L, M>(s: seq<Entry<L, M>>, bag: L)
    requires !Present(s, bag)
    ensures Without(s, bag) == s
    decreases |s|
  {
    if s != [] {
      var n := |s| - 1;
      assert s[n].bag != bag;
      ClearAbsentIsNoop(s[..n], bag);
      assert s[..n] + [s[n]] == s;
    }
  }

  /** Clearing a bag twice has the effect of clearing it once. */
  lemma ClearIdempotent<L, M>(s: seq<Entry<L, M>>, bag: L)
    ensures Without(Without(s, bag), bag) == Without(s, bag)
  {
    ClearRemovesBag(s, bag);
    ClearAbsentIsNoop(Without(s, bag), bag);
  }

  /**
   The two filters split the list: every entry ends up in exactly one of the
   bag and the rest, and none is lost or duplicated.
   */
  lemma {:induction false} FilterSplits<L, M>(s: seq<Entry<L, M>>, bag: L)
    ensures multiset(Filter(s, bag)) + multiset(Without(s, bag)) == multiset(s)
    decreases |s|
  {
    if s != [] {
      var n := |s| - 1;
      var s', e := s[..n], s[n];
      FilterSplits(s', bag);
      assert s == s' + [e];
    }
  }
}
