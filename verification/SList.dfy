/**
 The in-place merge sort of libltdl/slist.c: items are linked through `next`, and sorting rewrites
 the links.  The pure functions say what it computes; the lemmas say what that means.
*/
module SList {

  // ---------------------------------------------------------------------------------------
  // Sorting on sequences
  // ---------------------------------------------------------------------------------------

  ghost function Merge<A>(l: seq<A>, r: seq<A>, le: (A, A) -> bool): seq<A> {
    if l == [] then r
    else if r == [] then l
    else if le(l[0], r[0]) then [l[0]] + Merge(l[1..], r, le)
    else [r[0]] + Merge(l, r[1..], le)
  }

  ghost function Sorted<A>(s: seq<A>, le: (A, A) -> bool): seq<A> {
    if |s| <= 1 then s
    else Merge(Sorted(s[..|s| / 2], le), Sorted(s[|s| / 2..], le), le)
  }

  /** `le` is total and transitive on the items of `all`. */
  ghost predicate TotalPreorder<A>(all: set<A>, le: (A, A) -> bool) {
    && (forall a, b :: a in all && b in all ==> le(a, b) || le(b, a))
    && (forall a, b, c :: a in all && b in all && c in all && le(a, b) && le(b, c) ==> le(a, c))
  }

  ghost predicate Within<A>(s: seq<A>, all: set<A>) {
    forall i :: 0 <= i < |s| ==> s[i] in all
  }

  ghost predicate Ordered<A>(s: seq<A>, le: (A, A) -> bool) {
    forall i, j :: 0 <= i < j < |s| ==> le(s[i], s[j])
  }

  /** The items equivalent to `x`, in their order. */
  ghost function Ties<A>(s: seq<A>, x: A, le: (A, A) -> bool): seq<A> {
    if s == [] then [] else (if le(s[0], x) && le(x, s[0]) then [s[0]] else []) + Ties(s[1..], x, le)
  }

  lemma Cons<A>(x: A, s: seq<A>)
    ensures multiset([x] + s) == multiset{x} + multiset(s)
  {
  }

  lemma Uncons<A>(s: seq<A>)
    requires s != []
    ensures multiset(s) == multiset{s[0]} + multiset(s[1..])
  {
    assert s == [s[0]] + s[1..];
  }

  lemma Halves<A>(s: seq<A>, k: nat)
    requires k <= |s|
    ensures multiset(s) == multiset(s[..k]) + multiset(s[k..])
  {
    assert s == s[..k] + s[k..];
  }

  lemma {:induction false} MergePermutes<A>(l: seq<A>, r: seq<A>, le: (A, A) -> bool)
    ensures multiset(Merge(l, r, le)) == multiset(l) + multiset(r)
    decreases |l| + |r|
  {
    if l != [] && r != [] {
      if le(l[0], r[0]) {
        MergePermutes(l[1..], r, le);
        Uncons(l);
        Cons(l[0], Merge(l[1..], r, le));
      } else {
        MergePermutes(l, r[1..], le);
        Uncons(r);
        Cons(r[0], Merge(l, r[1..], le));
      }
    }
  }

  /** Sorting loses and invents no item, whatever the comparison does. */
  lemma {:induction false} SortPermutes<A>(s: seq<A>, le: (A, A) -> bool)
    ensures multiset(Sorted(s, le)) == multiset(s)
    decreases |s|
  {
    if |s| > 1 {
      var l, r := s[..|s| / 2], s[|s| / 2..];
      SortPermutes(l, le);
      SortPermutes(r, le);
      MergePermutes(Sorted(l, le), Sorted(r, le), le);
      Halves(s, |s| / 2);
    }
  }

  lemma SortWithin<A>(s: seq<A>, all: set<A>, le: (A, A) -> bool)
    requires Within(s, all)
    ensures Within(Sorted(s, le), all)
  {
    hide Sorted;
    SortPermutes(s, le);
    forall i | 0 <= i < |Sorted(s, le)| ensures Sorted(s, le)[i] in all {
      assert Sorted(s, le)[i] in multiset(Sorted(s, le));
    }
  }

  lemma {:induction false} MergeOrdered<A>(l: seq<A>, r: seq<A>, all: set<A>, le: (A, A) -> bool)
    requires TotalPreorder(all, le) && Within(l, all) && Within(r, all) && Ordered(l, le) && Ordered(r, le)
    ensures Ordered(Merge(l, r, le), le)
    decreases |l| + |r|
  {
    if l != [] && r != [] {
      if le(l[0], r[0]) {
        MergeOrdered(l[1..], r, all, le);
        Below(l[0], l, r, Merge(l[1..], r, le), all, le) by { MergePermutes(l[1..], r, le); Uncons(l); }
      } else {
        MergeOrdered(l, r[1..], all, le);
        Below(r[0], l, r, Merge(l, r[1..], le), all, le) by { MergePermutes(l, r[1..], le); Uncons(r); }
      }
    }
  }

  /** What is not above the heads of two sorted lists is not above any of their items. */
  lemma Below<A>(x: A, l: seq<A>, r: seq<A>, tail: seq<A>, all: set<A>, le: (A, A) -> bool)
    requires TotalPreorder(all, le) && Within(l, all) && Within(r, all) && Ordered(l, le) && Ordered(r, le)
    requires l != [] && r != [] && x in all && le(x, l[0]) && le(x, r[0])
    requires multiset(tail) <= multiset(l) + multiset(r)
    ensures forall i :: 0 <= i < |tail| ==> le(x, tail[i])
  {
    forall i | 0 <= i < |tail| ensures le(x, tail[i]) {
      assert tail[i] in multiset(tail);
      if tail[i] in l {
        BelowAll(x, l, tail[i], all, le);
      } else {
        assert tail[i] in r;
        BelowAll(x, r, tail[i], all, le);
      }
    }
  }

  lemma BelowAll<A>(x: A, l: seq<A>, y: A, all: set<A>, le: (A, A) -> bool)
    requires TotalPreorder(all, le) && Within(l, all) && Ordered(l, le)
    requires x in all && y in l && le(x, l[0])
    ensures le(x, y)
  {
    var k :| 0 <= k < |l| && l[k] == y;
    assert l[0] in all && l[k] in all;
    assert k == 0 || le(l[0], l[k]);
  }

  /** Under a total preorder the result is sorted. */
  lemma {:induction false} SortOrders<A>(s: seq<A>, all: set<A>, le: (A, A) -> bool)
    requires TotalPreorder(all, le) && Within(s, all)
    ensures Ordered(Sorted(s, le), le)
    decreases |s|
  {
    if |s| > 1 {
      SortOrders(s[..|s| / 2], all, le);
      SortOrders(s[|s| / 2..], all, le);
      SortWithin(s[..|s| / 2], all, le);
      SortWithin(s[|s| / 2..], all, le);
      MergeOrdered(Sorted(s[..|s| / 2], le), Sorted(s[|s| / 2..], le), all, le);
    }
  }

  lemma {:induction false} TiesConcat<A>(s: seq<A>, t: seq<A>, x: A, le: (A, A) -> bool)
    ensures Ties(s + t, x, le) == Ties(s, x, le) + Ties(t, x, le)
    decreases |s|
  {
    hide Ties;
    if s == [] {
      assert s + t == t;
      NoTies([], x, le);
      assert [] + Ties(t, x, le) == Ties(t, x, le);
    } else {
      TiesConcat(s[1..], t, x, le);
      assert [s[0]] + s[1..] == s && [s[0]] + (s[1..] + t) == s + t;
      TiesCons(s[0], s[1..], x, le);
      TiesCons(s[0], s[1..] + t, x, le);
    }
  }

  /** The place of an item among those equivalent to `x`. */
  lemma TiesPlace<A>(s: seq<A>, x: A, le: (A, A) -> bool, i: nat)
    requires i < |s| && le(s[i], x) && le(x, s[i])
    ensures Ties(s, x, le) == Ties(s[..i], x, le) + [s[i]] + Ties(s[i + 1..], x, le)
  {
    hide Ties;
    var back := [s[i]] + s[i + 1..];
    assert s == s[..i] + back;
    TiesConcat(s[..i], back, x, le);
    TiesCons(s[i], s[i + 1..], x, le);
    Reassociated(Ties(s[..i], x, le), [s[i]], Ties(s[i + 1..], x, le));
  }

  lemma Reassociated<A>(s: seq<A>, t: seq<A>, u: seq<A>)
    ensures s + (t + u) == s + t + u
  {
  }

  /** Equal ties, equal order: two items equivalent to `x` do not change places. */
  lemma TiesPlaces<A>(s: seq<A>, t: seq<A>, x: A, le: (A, A) -> bool, i: nat, j: nat, p: nat, q: nat)
    requires Ties(t, x, le) == Ties(s, x, le) && i < j < |s| && p < |t| && q < |t| && t[p] == s[i] && t[q] == s[j]
    requires le(s[i], x) && le(x, s[i]) && le(s[j], x) && le(x, s[j])
    requires forall a, b :: 0 <= a < b < |s| ==> s[a] != s[b]
    ensures p < q
  {
    hide Ties;
    assert s[i] != s[j];
    TiesDistinct(s, x, le);
    TiesIndex(s, x, le, i, j);
    if q < p {
      TiesIndex(t, x, le, q, p);
    }
  }

  lemma TiesIndex<A>(s: seq<A>, x: A, le: (A, A) -> bool, i: nat, j: nat)
    requires i < j < |s| && le(s[i], x) && le(x, s[i]) && le(s[j], x) && le(x, s[j])
    ensures var u := Ties(s, x, le); var a, b := |Ties(s[..i], x, le)|, |Ties(s[..j], x, le)|;
      a < b < |u| && u[a] == s[i] && u[b] == s[j]
  {
    hide Ties;
    TiesPlace(s, x, le, i);
    TiesPlace(s, x, le, j);
    TiesPlace(s[..j], x, le, i);
    assert s[..j][..i] == s[..i];
  }

  lemma {:induction false} TiesDistinct<A>(s: seq<A>, x: A, le: (A, A) -> bool)
    requires forall a, b :: 0 <= a < b < |s| ==> s[a] != s[b]
    ensures forall y :: y in Ties(s, x, le) ==> y in s
    ensures forall a, b :: 0 <= a < b < |Ties(s, x, le)| ==> Ties(s, x, le)[a] != Ties(s, x, le)[b]
    decreases |s|
  {
    if s != [] {
      var rest := s[1..];
      assert forall a :: 0 <= a < |rest| ==> rest[a] == s[a + 1];
      TiesDistinct(rest, x, le);
      var head := if le(s[0], x) && le(x, s[0]) then [s[0]] else [];
      assert Ties(s, x, le) == head + Ties(rest, x, le);
      assert s[0] !in rest;
    }
  }

  /** No item of `s` is equivalent to `x` when all are above it. */
  lemma {:induction false} NoTies<A>(s: seq<A>, x: A, le: (A, A) -> bool)
    requires forall i :: 0 <= i < |s| ==> !le(s[i], x)
    ensures Ties(s, x, le) == []
    decreases |s|
  {
    if s != [] {
      assert !le(s[0], x);
      NoTies(s[1..], x, le);
    }
  }

  /** In a sorted list whose head is above `b`, no item is below what is equivalent to `b`. */
  lemma AllAbove<A>(l: seq<A>, b: A, x: A, all: set<A>, le: (A, A) -> bool)
    requires TotalPreorder(all, le) && Within(l, all) && b in all && x in all && Ordered(l, le) && l != []
    requires !le(l[0], b) && le(x, b)
    ensures forall i :: 0 <= i < |l| ==> !le(l[i], x)
  {
    forall i | 0 <= i < |l| ensures !le(l[i], x) {
      var y := l[i];
      assert i == 0 || le(l[0], y);
      assert le(y, x) ==> le(y, b);
    }
  }

  lemma {:induction false} MergeStable<A>(l: seq<A>, r: seq<A>, x: A, all: set<A>, le: (A, A) -> bool)
    requires TotalPreorder(all, le) && x in all && Within(l, all) && Within(r, all) && Ordered(l, le) && Ordered(r, le)
    ensures Ties(Merge(l, r, le), x, le) == Ties(l, x, le) + Ties(r, x, le)
    decreases |l| + |r|
  {
    hide Ties, TotalPreorder;
    if l == [] || r == [] {
      MergeRest(l, r, le);
      NothingTies(x, le);
      assert [] + Ties(r, x, le) == Ties(r, x, le) && Ties(l, x, le) + [] == Ties(l, x, le);
    } else if le(l[0], r[0]) {
      MergeStable(l[1..], r, x, all, le);
      StableLeft(l, r, Merge(l[1..], r, le), x, le);
    } else {
      MergeStable(l, r[1..], x, all, le);
      if le(x, r[0]) {
        AllAbove(l, r[0], x, all, le);
        NoTies(l, x, le);
      }
      StableRight(l, r, Merge(l, r[1..], le), x, le);
    }
  }

  lemma NothingTies<A>(x: A, le: (A, A) -> bool)
    ensures Ties([], x, le) == []
  {
  }

  lemma StableLeft<A>(l: seq<A>, r: seq<A>, m: seq<A>, x: A, le: (A, A) -> bool)
    requires l != [] && Ties(m, x, le) == Ties(l[1..], x, le) + Ties(r, x, le)
    ensures Ties([l[0]] + m, x, le) == Ties(l, x, le) + Ties(r, x, le)
  {
    hide Ties;
    TiesCons(l[0], m, x, le);
    TiesCons(l[0], l[1..], x, le);
    assert l == [l[0]] + l[1..];
  }

  lemma StableRight<A>(l: seq<A>, r: seq<A>, m: seq<A>, x: A, le: (A, A) -> bool)
    requires r != [] && Ties(m, x, le) == Ties(l, x, le) + Ties(r[1..], x, le)
    requires le(x, r[0]) ==> Ties(l, x, le) == []
    ensures Ties([r[0]] + m, x, le) == Ties(l, x, le) + Ties(r, x, le)
  {
    hide Ties;
    TiesCons(r[0], m, x, le);
    TiesCons(r[0], r[1..], x, le);
    assert r == [r[0]] + r[1..];
    assert [] + Ties(r, x, le) == Ties(r, x, le) && [] + Ties(r[1..], x, le) == Ties(r[1..], x, le);
  }

  lemma TiesCons<A>(y: A, s: seq<A>, x: A, le: (A, A) -> bool)
    ensures Ties([y] + s, x, le) == (if le(y, x) && le(x, y) then [y] else []) + Ties(s, x, le)
  {
    assert ([y] + s)[1..] == s;
  }

  /** Equivalent items keep their order. */
  lemma {:induction false} SortStable<A>(s: seq<A>, x: A, all: set<A>, le: (A, A) -> bool)
    requires TotalPreorder(all, le) && x in all && Within(s, all)
    ensures Ties(Sorted(s, le), x, le) == Ties(s, x, le)
    decreases |s|
  {
    hide Merge, Ties, TotalPreorder, Sorted;
    if |s| <= 1 {
      SortedShort(s, le);
    } else {
      var l, r := s[..|s| / 2], s[|s| / 2..];
      SortedLong(s, le);
      SortStable(l, x, all, le);
      SortStable(r, x, all, le);
      StableHalves(l, r, x, all, le);
      assert s == l + r;
    }
  }

  lemma StableHalves<A>(l: seq<A>, r: seq<A>, x: A, all: set<A>, le: (A, A) -> bool)
    requires TotalPreorder(all, le) && x in all && Within(l, all) && Within(r, all)
    requires Ties(Sorted(l, le), x, le) == Ties(l, x, le) && Ties(Sorted(r, le), x, le) == Ties(r, x, le)
    ensures Ties(Merge(Sorted(l, le), Sorted(r, le), le), x, le) == Ties(l + r, x, le)
  {
    hide Merge, Ties, TotalPreorder, Sorted, Ordered, Within;
    SortOrders(l, all, le);
    SortOrders(r, all, le);
    SortWithin(l, all, le);
    SortWithin(r, all, le);
    MergeStable(Sorted(l, le), Sorted(r, le), x, all, le);
    TiesConcat(l, r, x, le);
  }

  // ---------------------------------------------------------------------------------------
  // Linked items
  // ---------------------------------------------------------------------------------------

  class Item<T(0)> {
    var next: Item?<T>
    const userdata: T

    /** A bare item on the stack, as the head of the merged list (slist.c:276). */
    constructor ()
      ensures fresh(this)
    {
    }
  }

  ghost predicate Distinct<T(0)>(items: seq<Item<T>>) {
    forall i, j :: 0 <= i < j < |items| ==> items[i] != items[j]
  }

  /** `head` starts a list of exactly these items. */
  ghost predicate ListOf<T(0)>(head: Item?<T>, items: seq<Item<T>>)
    reads items
  {
    && Distinct(items)
    && head == At(items, 0)
    && (forall i :: 0 <= i < |items| ==> items[i].next == At(items, i + 1))
  }

  ghost function LessEqual<T(0)>(compare: (T, T) -> int): (Item<T>, Item<T>) -> bool {
    (a: Item<T>, b: Item<T>) => compare(a.userdata, b.userdata) <= 0
  }

  /** No item of `chain` is among `items[i..]`. */
  ghost predicate ApartFrom<T(0)>(chain: seq<Item<T>>, items: seq<Item<T>>, i: nat) {
    forall a, b :: 0 <= a < |chain| && i <= b < |items| ==> chain[a] != items[b]
  }

  /** Each item but the last is linked to the one after it. */
  ghost predicate Chain<T(0)>(chain: seq<Item<T>>)
    reads chain
  {
    forall k :: 0 <= k < |chain| - 1 ==> chain[k].next == chain[k + 1]
  }

  /** slist_sort_merge (slist.c:272-297). */
  method SortMerge<T(0)>(left0: Item?<T>, right0: Item?<T>, compare: (T, T) -> int,
                      ghost ls: seq<Item<T>>, ghost rs: seq<Item<T>>) returns (head: Item?<T>)
    requires ListOf(left0, ls) && ListOf(right0, rs) && ApartFrom(ls, rs, 0)
    modifies ls, rs
    ensures ListOf(head, Merge(ls, rs, LessEqual(compare)))
  {
    hide Merge, Front, Distinct, ApartFrom, Chain, Linked, ListOf;
    var merged := new Item<T>();
    FrontStart(merged, left0, right0, ls, rs);
    ghost var chain, i, j;
    var insert, left, right;
    insert, left, right, chain, i, j := MergeLoop(merged, left0, right0, compare, ls, rs);
    ghost var le := LessEqual(compare);
    MergeRest(ls[i..], rs[j..], le);
    FrontEnd(merged, chain, ls, i, rs, j);
    if left != null {
      MergeEnd(merged, Merge(ls, rs, le), chain, ls[i..]);
      Finish(insert, left, merged, chain, ls, i, rs, j);
    } else {
      MergeEnd(merged, Merge(ls, rs, le), chain, rs[j..]);
      FrontSwap(merged, chain, ls, i, rs, j);
      Finish(insert, right, merged, chain, rs, j, ls, i);
    }
    head := merged.next;
  }

  /** Its loop (slist.c:280-292): until one list is used up. */
  method MergeLoop<T(0)>(merged: Item<T>, left0: Item?<T>, right0: Item?<T>, compare: (T, T) -> int,
                         ghost ls: seq<Item<T>>, ghost rs: seq<Item<T>>)
    returns (insert: Item<T>, left: Item?<T>, right: Item?<T>, ghost chain: seq<Item<T>>, ghost i: nat, ghost j: nat)
    requires left0 == At(ls, 0) && right0 == At(rs, 0) && Front(merged, [merged], ls, 0, rs, 0)
    modifies merged, ls, rs
    ensures i <= |ls| && j <= |rs| && chain != [] && chain[0] == merged && insert == chain[|chain| - 1]
    ensures var le := LessEqual(compare); [merged] + Merge(ls, rs, le) == chain + Merge(ls[i..], rs[j..], le)
    ensures left == At(ls, i) && right == At(rs, j) && Front(merged, chain, ls, i, rs, j)
    ensures left == null || right == null
  {
    ghost var le := LessEqual(compare);
    insert, left, right := merged, left0, right0;
    chain, i, j := [merged], 0, 0;
    hide Merge, Front, Distinct, ApartFrom, Chain, Linked;
    while left != null && right != null
      invariant i <= |ls| && j <= |rs| && chain != [] && chain[0] == merged && insert == chain[|chain| - 1]
      invariant [merged] + Merge(ls, rs, le) == chain + Merge(ls[i..], rs[j..], le)
      invariant left == At(ls, i) && right == At(rs, j) && Front(merged, chain, ls, i, rs, j)
      decreases |ls| - i + |rs| - j
    {
      MergeStep(chain, ls, i, rs, j, le);
      FrontEnd(merged, chain, ls, i, rs, j);
      if compare(left.userdata, right.userdata) <= 0 {
        insert, left := Take(insert, left, merged, chain, ls, i, rs, j);
        chain, i := chain + [ls[i]], i + 1;
      } else {
        FrontSwap(merged, chain, ls, i, rs, j);
        insert, right := Take(insert, right, merged, chain, rs, j, ls, i);
        FrontSwap(merged, chain + [rs[j]], rs, j + 1, ls, i);
        chain, j := chain + [rs[j]], j + 1;
      }
    }
  }

  /** What the merge has built, and what is left of the two lists. */
  ghost predicate Front<T(0)>(merged: Item<T>, chain: seq<Item<T>>, ls: seq<Item<T>>, i: nat, rs: seq<Item<T>>, j: nat)
    reads chain, ls, rs
  {
    && Chain(chain) && Distinct(chain) && Distinct(ls) && Distinct(rs) && ApartFrom(ls, rs, 0)
    && ApartFrom(chain, ls, i) && ApartFrom(chain, rs, j) && Linked(ls, i) && Linked(rs, j)
    && merged !in ls && merged !in rs
    && (forall x :: x in chain ==> x == merged || x in ls || x in rs)
  }

  lemma FrontStart<T(0)>(merged: Item<T>, left: Item?<T>, right: Item?<T>, ls: seq<Item<T>>, rs: seq<Item<T>>)
    requires ListOf(left, ls) && ListOf(right, rs) && ApartFrom(ls, rs, 0) && merged !in ls && merged !in rs
    ensures left == At(ls, 0) && right == At(rs, 0) && Front(merged, [merged], ls, 0, rs, 0)
  {
  }

  lemma FrontEnd<T(0)>(merged: Item<T>, chain: seq<Item<T>>, ls: seq<Item<T>>, i: nat, rs: seq<Item<T>>, j: nat)
    requires chain != [] && Front(merged, chain, ls, i, rs, j)
    ensures var last := chain[|chain| - 1]; last == merged || last in ls || last in rs
  {
    assert chain[|chain| - 1] in chain;
  }

  lemma MergeRest<A>(l: seq<A>, r: seq<A>, le: (A, A) -> bool)
    ensures l == [] ==> Merge(l, r, le) == r
    ensures r == [] ==> Merge(l, r, le) == l
  {
  }

  lemma MergeEnd<A>(x: A, all: seq<A>, chain: seq<A>, rest: seq<A>)
    requires [x] + all == chain + rest && chain != []
    ensures all == chain[1..] + rest
  {
    assert all == ([x] + all)[1..];
  }

  lemma FrontSwap<T(0)>(merged: Item<T>, chain: seq<Item<T>>, ls: seq<Item<T>>, i: nat, rs: seq<Item<T>>, j: nat)
    requires Front(merged, chain, ls, i, rs, j)
    ensures Front(merged, chain, rs, j, ls, i)
  {
  }

  /** `insert = insert->next = item; item = item->next;` for the head of what is left of `ls`. */
  method Take<T(0)>(insert0: Item<T>, item: Item<T>, merged: Item<T>, ghost chain: seq<Item<T>>,
                    ghost ls: seq<Item<T>>, ghost i: nat, ghost rs: seq<Item<T>>, ghost j: nat)
    returns (insert: Item<T>, rest: Item?<T>)
    requires chain != [] && insert0 == chain[|chain| - 1] && i < |ls| && item == ls[i]
    requires Front(merged, chain, ls, i, rs, j)
    modifies insert0
    ensures insert == item && rest == At(ls, i + 1) && Front(merged, chain + [item], ls, i + 1, rs, j)
  {
    insert0.next := item;
    insert := item;
    rest := item.next;
  }

  /** What is left of `ls` goes behind the end of the chain. */
  method Finish<T(0)>(insert: Item<T>, item: Item?<T>, merged: Item<T>, ghost chain: seq<Item<T>>,
                      ghost ls: seq<Item<T>>, ghost i: nat, ghost rs: seq<Item<T>>, ghost j: nat)
    requires chain != [] && insert == chain[|chain| - 1] && i <= |ls| && item == At(ls, i)
    requires Front(merged, chain, ls, i, rs, j)
    modifies insert
    ensures ListOf(chain[0].next, chain[1..] + ls[i..])
  {
    hide Front, Distinct;
    ghost var all := chain + ls[i..];
    FrontJoins(merged, chain, ls, i, rs, j);
    DistinctAt(all, |chain| - 1);
    insert.next := item;
    TailList(all);
    assert all[1..] == chain[1..] + ls[i..];
  }

  /** With its last item linked on, the chain and what is left of `ls` are one list. */
  lemma FrontJoins<T(0)>(merged: Item<T>, chain: seq<Item<T>>, ls: seq<Item<T>>, i: nat, rs: seq<Item<T>>, j: nat)
    requires chain != [] && i <= |ls| && Front(merged, chain, ls, i, rs, j)
    ensures var all := chain + ls[i..];
      && Distinct(all) && At(all, |chain|) == At(ls, i)
      && forall k :: 0 <= k < |all| && k != |chain| - 1 ==> all[k].next == At(all, k + 1)
  {
  }

  lemma DistinctAt<T(0)>(all: seq<Item<T>>, n: nat)
    requires Distinct(all) && n < |all|
    ensures forall k :: 0 <= k < |all| && k != n ==> all[k] != all[n]
  {
  }

  lemma TailList<T(0)>(all: seq<Item<T>>)
    requires all != [] && Distinct(all) && forall k :: 0 <= k < |all| ==> all[k].next == At(all, k + 1)
    ensures ListOf(all[0].next, all[1..])
  {
    assert forall k :: 0 <= k < |all[1..]| ==> all[1..][k] == all[k + 1];
    assert forall k :: 0 <= k < |all| ==> At(all[1..], k) == At(all, k + 1);
  }

  ghost function At<T(0)>(items: seq<Item<T>>, i: nat): Item?<T> {
    if i < |items| then items[i] else null
  }

  /** The items from `i` on are still linked as they were. */
  ghost predicate Linked<T(0)>(items: seq<Item<T>>, i: nat)
    reads items
  {
    forall k :: i <= k < |items| ==> items[k].next == At(items, k + 1)
  }

  lemma MergeStep<A>(chain: seq<A>, l: seq<A>, i: nat, r: seq<A>, j: nat, le: (A, A) -> bool)
    requires i < |l| && j < |r|
    ensures chain + Merge(l[i..], r[j..], le) ==
            if le(l[i], r[j]) then chain + [l[i]] + Merge(l[i + 1..], r[j..], le)
            else chain + [r[j]] + Merge(l[i..], r[j + 1..], le)
  {
    assert l[i..][1..] == l[i + 1..] && r[j..][1..] == r[j + 1..];
  }

  /** slist_sort (slist.c:306-336), which is a merge sort: `right` runs two items for one of `slist`, which stops at the
      end of the first half; the halves are sorted and merged. */
  method Sort<T(0)>(slist0: Item?<T>, compare: (T, T) -> int, ghost items: seq<Item<T>>) returns (head: Item?<T>)
    requires ListOf(slist0, items)
    modifies items
    ensures var t := Sorted(items, LessEqual(compare));
      && ListOf(head, t)
      && (Ranks(compare, items) ==> forall i, j :: 0 <= i < j < |t| ==> compare(t[i].userdata, t[j].userdata) <= 0)
    decreases |items|, 1
  {
    hide Distinct, Sorted, Ranks;
    if Ranks(compare, items) {
      SortedMeans(items, compare);
    }
    if slist0 == null {
      SortedShort(items, LessEqual(compare));
      return slist0;
    }
    if slist0.next == null {
      SortedShort(items, LessEqual(compare));
      return slist0;
    }
    var left, right := Halve(slist0, items);
    SortedLong(items, LessEqual(compare));
    head := SortHalves(left, right, compare, items[..|items| / 2], items[|items| / 2..]);
  }

  /** The two calls and the merge (slist.c:333-335). */
  method SortHalves<T(0)>(left: Item?<T>, right: Item?<T>, compare: (T, T) -> int,
                          ghost ls: seq<Item<T>>, ghost rs: seq<Item<T>>) returns (head: Item?<T>)
    requires ListOf(left, ls) && ListOf(right, rs) && ApartFrom(ls, rs, 0) && ls != [] && rs != []
    modifies ls, rs
    ensures var le := LessEqual(compare); ListOf(head, Merge(Sorted(ls, le), Sorted(rs, le), le))
    decreases |ls| + |rs|, 0
  {
    hide ListOf, Sorted, Merge, LessEqual;
    ghost var le := LessEqual(compare);
    SortedIn(ls, le);
    SortedIn(rs, le);
    ApartSorted(ls, rs, Sorted(ls, le), Sorted(rs, le));
    var first := Sort(left, compare, ls);
    var second := Sort(right, compare, rs);
    head := SortMerge(first, second, compare, Sorted(ls, le), Sorted(rs, le));
  }

  lemma SortedShort<A>(s: seq<A>, le: (A, A) -> bool)
    requires |s| <= 1
    ensures Sorted(s, le) == s
  {
  }

  lemma SortedLong<A>(s: seq<A>, le: (A, A) -> bool)
    requires |s| > 1
    ensures Sorted(s, le) == Merge(Sorted(s[..|s| / 2], le), Sorted(s[|s| / 2..], le), le)
  {
  }

  lemma ApartSorted<T(0)>(ls: seq<Item<T>>, rs: seq<Item<T>>, ls': seq<Item<T>>, rs': seq<Item<T>>)
    requires ApartFrom(ls, rs, 0)
    requires forall i :: 0 <= i < |ls'| ==> ls'[i] in ls
    requires forall i :: 0 <= i < |rs'| ==> rs'[i] in rs
    ensures ApartFrom(ls', rs', 0)
  {
    forall a, b | 0 <= a < |ls'| && 0 <= b < |rs'| ensures ls'[a] != rs'[b] {
      assert ls'[a] in ls && rs'[b] in rs;
    }
  }

  /** The walk with two speeds, and the cut (slist.c:315-330). */
  method Halve<T(0)>(slist0: Item<T>, ghost items: seq<Item<T>>) returns (left: Item<T>, right: Item?<T>)
    requires ListOf(slist0, items) && |items| > 1
    modifies items
    ensures ListOf(left, items[..|items| / 2]) && ListOf(right, items[|items| / 2..])
    ensures ApartFrom(items[..|items| / 2], items[|items| / 2..], 0)
  {
    var slist := slist0;
    left := slist;
    right := slist.next;
    ghost var p := 0;
    while right != null
      invariant 0 <= p && 2 * p + 1 < |items| && slist == items[p] && right == items[2 * p + 1]
      decreases |items| - p
    {
      right := right.next;
      if right == null { break; }
      right := right.next;
      if right == null { break; }
      slist := slist.next;
      p := p + 1;
    }
    assert p + 1 == |items| / 2;
    right := slist.next;
    slist.next := null;
    Halved(items, p + 1, left, right);
  }

  /** Cutting the link behind item `k` leaves two lists. */
  lemma Halved<T(0)>(items: seq<Item<T>>, k: nat, left: Item?<T>, right: Item?<T>)
    requires 0 < k < |items| && Distinct(items) && left == items[0] && right == items[k]
    requires forall i :: 0 <= i < |items| && i != k - 1 ==> items[i].next == At(items, i + 1)
    requires items[k - 1].next == null
    ensures ListOf(left, items[..k]) && ListOf(right, items[k..]) && ApartFrom(items[..k], items[k..], 0)
  {
  }

  /** Sorting keeps exactly the items of the list. */
  lemma SortedIn<T(0)>(items: seq<Item<T>>, le: (Item<T>, Item<T>) -> bool)
    ensures |Sorted(items, le)| == |items|
    ensures forall i :: 0 <= i < |items| ==> Sorted(items, le)[i] in items
  {
    SortPermutes(items, le);
    assert |multiset(Sorted(items, le))| == |multiset(items)|;
    forall i | 0 <= i < |items| ensures Sorted(items, le)[i] in items {
      assert Sorted(items, le)[i] in multiset(Sorted(items, le));
    }
  }

  /** The comparison is total and transitive on the data of the items. */
  ghost predicate Ranks<T(0)>(compare: (T, T) -> int, items: seq<Item<T>>) {
    && (forall a, b :: a in items && b in items ==>
         compare(a.userdata, b.userdata) <= 0 || compare(b.userdata, a.userdata) <= 0)
    && (forall a, b, c | a in items && b in items && c in items ::
         compare(a.userdata, b.userdata) <= 0 && compare(b.userdata, c.userdata) <= 0 ==>
           compare(a.userdata, c.userdata) <= 0)
  }

  /** What slist_sort promises, for any comparison that is a total preorder on the data: the same
      items; the data never goes down; and an item in front of another that is not below it stays in
      front. */
  lemma SortedMeans<T(0)>(items: seq<Item<T>>, compare: (T, T) -> int)
    requires Ranks(compare, items)
    ensures var t := Sorted(items, LessEqual(compare));
      && multiset(t) == multiset(items)
      && (forall i, j :: 0 <= i < j < |t| ==> compare(t[i].userdata, t[j].userdata) <= 0)
      && (Distinct(items) ==>
           forall i, j, p, q | 0 <= i < j < |items| && 0 <= p < |t| && 0 <= q < |t|
                               && t[p] == items[i] && t[q] == items[j]
             :: compare(items[i].userdata, items[j].userdata) <= 0 ==> p < q)
  {
    hide Sorted, Ranks, Distinct;
    SortPermutes(items, LessEqual(compare));
    SortedAscends(items, compare);
    var t := Sorted(items, LessEqual(compare));
    if Distinct(items) {
      forall i, j, p, q | 0 <= i < j < |items| && 0 <= p < |t| && 0 <= q < |t|
                          && t[p] == items[i] && t[q] == items[j]
        ensures compare(items[i].userdata, items[j].userdata) <= 0 ==> p < q
      {
        if compare(items[i].userdata, items[j].userdata) <= 0 {
          SortedStays(items, compare, i, j, p, q);
        }
      }
    }
  }

  lemma RanksOrder<T(0)>(compare: (T, T) -> int, items: seq<Item<T>>)
    requires Ranks(compare, items)
    ensures TotalPreorder((set y | y in items), LessEqual(compare)) && Within(items, (set y | y in items))
  {
  }

  lemma SortedAscends<T(0)>(items: seq<Item<T>>, compare: (T, T) -> int)
    requires Ranks(compare, items)
    ensures var t := Sorted(items, LessEqual(compare));
      forall i, j :: 0 <= i < j < |t| ==> compare(t[i].userdata, t[j].userdata) <= 0
  {
    hide Sorted, Ranks, TotalPreorder, Within;
    RanksOrder(compare, items);
    SortOrders(items, (set y | y in items), LessEqual(compare));
    assert Ordered(Sorted(items, LessEqual(compare)), LessEqual(compare));
  }

  lemma SortedStays<T(0)>(items: seq<Item<T>>, compare: (T, T) -> int, i: nat, j: nat, p: nat, q: nat)
    requires Ranks(compare, items) && Distinct(items) && i < j < |items|
    requires var t := Sorted(items, LessEqual(compare));
      p < |t| && q < |t| && t[p] == items[i] && t[q] == items[j]
    requires compare(items[i].userdata, items[j].userdata) <= 0
    ensures p < q
  {
    hide Sorted, TotalPreorder, Within, Ties;
    var t, le := Sorted(items, LessEqual(compare)), LessEqual(compare);
    RanksOrder(compare, items);
    SortStable(items, items[i], (set y | y in items), le);
    SortedAscends(items, compare);
    assert items[i] in items && le(items[i], items[i]);
    assert q < p ==> le(items[j], items[i]);
    if le(items[j], items[i]) {
      TiesPlaces(items, t, items[i], le, i, j, p, q);
    } else {
      assert items[i] != items[j];
    }
  }
}
