/**
 What a runtime operation may change, and what follows for programs that read the memory.

 Every operation is described by the slots it names and by the cells it rewrites in place (`hot`).
 The copy-on-write discipline is that an operation rewrites in place only reference cells and
 cells that nobody but the named slots hold.
*/
module ZvalFrame {
  import opened ZvalHeap

  /** `s` is not an entry of a freed or rewritten table. */
  ghost predicate Anchored(n: Mem, hot: set<Addr>, s: Slot) {
    s.Elem? ==> s.owner in n.cells && s.owner !in hot
  }

  /** From `m` to `n` nothing changed but the slots `named`, the cells `hot`, cells that were
      freed, and cells that were created. */
  ghost predicate Kept(m: Mem, n: Mem, named: set<Slot>, hot: set<Addr>) {
    && m.next <= n.next
    && (forall a :: a in n.cells && a < m.next ==> a in m.cells)
    && (forall a :: a in n.cells && a in m.cells && a !in hot ==>
         n.cells[a].value == m.cells[a].value && (n.cells[a].isRef ==> m.cells[a].isRef))
    && (forall s :: s in m.slots && s !in named && Anchored(n, hot, s) ==>
         s in n.slots && n.slots[s] == m.slots[s])
    && (forall s :: s in n.slots && s !in named && (s.Elem? ==> s.owner < m.next && s.owner !in hot) ==>
         s in m.slots && n.slots[s] == m.slots[s])
    && RefPairsKept(m, n, named, hot)
  }

  /** Two unnamed slots of one reference set stay in it, as long as the arrays that they may be entries
      of are there and are not rewritten. */
  ghost predicate RefPairsKept(m: Mem, n: Mem, named: set<Slot>, hot: set<Addr>) {
    forall s, t | s in m.slots && t in m.slots && s != t && s !in named && t !in named ::
      m.slots[s] == m.slots[t] && IsRef(m, m.slots[s]) && Anchored(n, hot, s) && Anchored(n, hot, t) ==>
        IsRef(n, m.slots[s])
  }

  /** The copy-on-write discipline for one operation. */
  ghost predicate Private(m: Mem, named: set<Slot>, hot: set<Addr>) {
    && (forall a :: a in hot && a in m.cells ==> IsRef(m, a) || Holders(m.slots, a) <= named)
    && (forall s :: s in named && s.Elem? && s.owner in m.cells ==>
         IsRef(m, s.owner) || Holders(m.slots, s.owner) <= named)
  }

  lemma KeptRefl(m: Mem)
    requires WF(m, {})
    ensures Kept(m, m, {}, {})
  {
  }

  lemma KeptTrans(m: Mem, o: Mem, n: Mem, n1: set<Slot>, h1: set<Addr>, n2: set<Slot>, h2: set<Addr>,
                  named: set<Slot>, hot: set<Addr>)
    requires WF(m, {}) && WF(o, {}) && WF(n, {})
    requires Kept(m, o, n1, h1) && Kept(o, n, n2, h2)
    requires n1 <= named && n2 <= named && h1 <= hot && h2 <= hot
    ensures Kept(m, n, named, hot)
  {
    forall s | s in m.slots && s !in named && Anchored(n, hot, s)
      ensures s in n.slots && n.slots[s] == m.slots[s]
    {
      assert Anchored(o, h1, s);
      assert Anchored(n, h2, s);
    }
    forall s, t | s in m.slots && t in m.slots && s != t && s !in named && t !in named
                  && m.slots[s] == m.slots[t] && IsRef(m, m.slots[s]) && Anchored(n, hot, s) && Anchored(n, hot, t)
      ensures IsRef(n, m.slots[s])
    {
      assert Anchored(o, h1, s) && Anchored(o, h1, t);
      assert IsRef(o, m.slots[s]);
      assert Anchored(n, h2, s) && Anchored(n, h2, t);
    }
  }

  lemma TwoHolders(m: Mem, s: Slot, t: Slot)
    requires s in m.slots && t in m.slots && s != t && m.slots[s] == m.slots[t]
    ensures |Holders(m.slots, m.slots[s])| >= 2
  {
    SubsetSize({s, t}, Holders(m.slots, m.slots[s]));
  }

  lemma ReleasedKept(m: Mem, n: Mem, gone: set<Slot>)
    requires WF(m, {}) && WF(n, {}) && Released(m, n, gone)
    ensures Kept(m, n, gone, {})
  {
    forall s, t | s in m.slots && t in m.slots && s != t && s !in gone && t !in gone
                  && m.slots[s] == m.slots[t] && IsRef(m, m.slots[s]) && Anchored(n, {}, s) && Anchored(n, {}, t)
      ensures IsRef(n, m.slots[s])
    {
      assert s in n.slots && t in n.slots;
      TwoHolders(n, s, t);
    }
  }

  // ---------------------------------------------------------------------------------------
  // Reading
  // ---------------------------------------------------------------------------------------

  /** What a program sees at the end of a chain of array accesses. */
  datatype Obs = Missing | Leaf(s: Scalar) | Table

  ghost function Peek(m: Mem, a: Addr, path: seq<Key>): Obs
    decreases |path|
  {
    if a !in m.cells then Missing
    else match m.cells[a].value
      case Plain(s) => if path == [] then Leaf(s) else Missing
      case Array =>
        if path == [] then Table
        else if Elem(a, path[0]) in m.slots then Peek(m, m.slots[Elem(a, path[0])], path[1..])
        else Missing
  }

  /** The chain of accesses passes no reference. */
  ghost predicate Clean(m: Mem, a: Addr, path: seq<Key>)
    decreases |path|
  {
    && a in m.cells && !m.cells[a].isRef
    && (path != [] && Elem(a, path[0]) in m.slots ==> Clean(m, m.slots[Elem(a, path[0])], path[1..]))
  }

  /** Cell `b` of `n` looks like cell `a` of `m` and has the same entries. */
  ghost predicate CloneOf(n: Mem, b: Addr, m: Mem, a: Addr) {
    && b in n.cells && a in m.cells && n.cells[b].value == m.cells[a].value
    && forall k :: (Elem(b, k) in n.slots <==> Elem(a, k) in m.slots)
                && (Elem(a, k) in m.slots ==> n.slots[Elem(b, k)] == m.slots[Elem(a, k)])
  }

  /** Each cell of `f` stands for a cell of `m` with the same shape, entry by entry. */
  ghost predicate Simulates(n: Mem, m: Mem, f: map<Addr, Addr>) {
    forall b :: b in f ==>
      && b in n.cells && f[b] in m.cells && n.cells[b].value == m.cells[f[b]].value
      && forall k :: (Elem(b, k) in n.slots <==> Elem(f[b], k) in m.slots)
                  && (Elem(b, k) in n.slots ==>
                       n.slots[Elem(b, k)] in f && f[n.slots[Elem(b, k)]] == m.slots[Elem(f[b], k)])
  }

  lemma {:induction false} SimulatedReads(n: Mem, m: Mem, f: map<Addr, Addr>, b: Addr, path: seq<Key>)
    requires Simulates(n, m, f) && b in f
    ensures Peek(n, b, path) == Peek(m, f[b], path)
    decreases |path|
  {
    if path != [] && Elem(b, path[0]) in n.slots {
      SimulatedReads(n, m, f, n.slots[Elem(b, path[0])], path[1..]);
    }
  }

  /** The heart of copy-on-write: what an operation does not name is read as before, along every
      chain of accesses that passes no reference. */
  lemma {:induction false} CleanReadsKept(m: Mem, n: Mem, named: set<Slot>, hot: set<Addr>, s: Slot, path: seq<Key>)
    requires WF(m, {}) && WF(n, {}) && Kept(m, n, named, hot) && Private(m, named, hot)
    requires s in m.slots && s !in named && Anchored(n, hot, s)
    requires Clean(m, m.slots[s], path)
    ensures s in n.slots && n.slots[s] == m.slots[s]
    ensures Clean(n, n.slots[s], path) && Peek(n, n.slots[s], path) == Peek(m, m.slots[s], path)
    decreases |path|
  {
    var a := m.slots[s];
    assert s in Holders(m.slots, a);
    assert a !in hot;
    if path != [] {
      var e := Elem(a, path[0]);
      assert e !in named;
      if e in m.slots {
        CleanReadsKept(m, n, named, hot, e, path[1..]);
      }
    }
  }

  /** A reference set of roots outside `named`, which no array entry belongs to. */
  ghost predicate Aloof(m: Mem, a: Addr, named: set<Slot>) {
    IsRef(m, a) && forall s :: s in m.slots && m.slots[s] == a ==> !s.Elem? && s !in named
  }

  /** From the entries of `a` on, the chain passes no reference. */
  ghost predicate CleanInside(m: Mem, a: Addr, path: seq<Key>) {
    path != [] && Elem(a, path[0]) in m.slots ==> Clean(m, m.slots[Elem(a, path[0])], path[1..])
  }

  ghost predicate NoneJoins(m: Mem, n: Mem, a: Addr) {
    forall s :: s in n.slots && n.slots[s] == a ==> s in m.slots && m.slots[s] == a
  }

  /** A reference set stays one, nobody joins it, and what is inside reads as before. */
  ghost predicate SetKept(m: Mem, n: Mem, a: Addr) {
    IsRef(n, a) && NoneJoins(m, n, a) &&
    forall path :: CleanInside(m, a, path) ==> CleanInside(n, a, path) && Peek(n, a, path) == Peek(m, a, path)
  }

  ghost predicate SetsKept(m: Mem, n: Mem, named: set<Slot>) {
    forall a :: Aloof(m, a, named) ==> SetKept(m, n, a)
  }

  /** Nobody joins a set without a member in `roots`. */
  ghost predicate Unjoined(m: Mem, n: Mem, roots: set<Slot>) {
    forall a :: Aloof(m, a, roots) ==> NoneJoins(m, n, a)
  }

  /** What is changed in place is no such set. */
  ghost predicate Elsewhere(m: Mem, named: set<Slot>, hot: set<Addr>, roots: set<Slot>) {
    forall a :: Aloof(m, a, roots) ==> a !in hot && forall s :: s in named && s.Elem? ==> s.owner != a
  }

  /** Two of the members. */
  lemma TwoMembers(m: Mem, a: Addr, named: set<Slot>) returns (s: Slot, t: Slot)
    requires WF(m, {}) && Aloof(m, a, named)
    ensures s != t && s in m.slots && t in m.slots && m.slots[s] == a && m.slots[t] == a
    ensures !s.Elem? && !t.Elem? && s !in named && t !in named
  {
    s, t := TwoIn(Holders(m.slots, a));
  }

  /** A set without a member that is named stays a reference. */
  lemma AloofStays(m: Mem, n: Mem, named: set<Slot>, hot: set<Addr>, a: Addr, roots: set<Slot>)
    requires WF(m, {}) && Kept(m, n, named, hot) && Aloof(m, a, roots)
    requires forall s :: s in named && !s.Elem? ==> s in roots
    ensures IsRef(n, a)
  {
    var s, t := TwoMembers(m, a, roots);
  }

  /** What an operation does not name of reference sets is kept with all it can read inside. */
  lemma KeptSets(m: Mem, n: Mem, named: set<Slot>, hot: set<Addr>, roots: set<Slot>)
    requires WF(m, {}) && WF(n, {}) && Kept(m, n, named, hot) && Private(m, named, hot)
    requires (forall s :: s in named && !s.Elem? ==> s in roots)
    requires Elsewhere(m, named, hot, roots) && Unjoined(m, n, roots)
    ensures SetsKept(m, n, roots)
  {
    forall a | Aloof(m, a, roots) ensures SetKept(m, n, a) {
      AloofStays(m, n, named, hot, a, roots);
      forall path | CleanInside(m, a, path)
        ensures CleanInside(n, a, path) && Peek(n, a, path) == Peek(m, a, path)
      {
        InsideKept(m, n, named, hot, a, path, roots);
      }
    }
  }

  lemma InsideKept(m: Mem, n: Mem, named: set<Slot>, hot: set<Addr>, a: Addr, path: seq<Key>, roots: set<Slot>)
    requires WF(m, {}) && WF(n, {}) && Kept(m, n, named, hot) && Private(m, named, hot)
    requires Elsewhere(m, named, hot, roots) && Aloof(m, a, roots) && IsRef(n, a) && CleanInside(m, a, path)
    ensures CleanInside(n, a, path) && Peek(n, a, path) == Peek(m, a, path)
  {
    if path != [] {
      var e := Elem(a, path[0]);
      assert Anchored(n, hot, e) && e !in named;
      if e in m.slots {
        CleanReadsKept(m, n, named, hot, e, path[1..]);
      }
    }
  }

  /** Every root slot outside `named` keeps its cell, and everything it can read without passing a
      reference; and a reference set of such roots keeps what it can read inside. */
  ghost predicate Isolates(m: Mem, n: Mem, named: set<Slot>) {
    RootsKept(m, n, named) && CleanKept(m, n, named) && SetsKept(m, n, named)
  }

  ghost predicate CleanKept(m: Mem, n: Mem, named: set<Slot>) {
    forall s, path :: s in m.slots && !s.Elem? && s !in named && Clean(m, m.slots[s], path) ==>
      s in n.slots && Clean(n, n.slots[s], path) && Peek(n, n.slots[s], path) == Peek(m, m.slots[s], path)
  }

  ghost predicate RootsKept(m: Mem, n: Mem, named: set<Slot>) {
    forall s :: s in m.slots && !s.Elem? && s !in named ==> s in n.slots && n.slots[s] == m.slots[s]
  }

  lemma KeptIsolates(m: Mem, n: Mem, named: set<Slot>, hot: set<Addr>, roots: set<Slot>)
    requires WF(m, {}) && WF(n, {}) && Kept(m, n, named, hot) && Private(m, named, hot)
    requires (forall s :: s in named && !s.Elem? ==> s in roots)
    requires Elsewhere(m, named, hot, roots) && Unjoined(m, n, roots)
    ensures Isolates(m, n, roots)
  {
    KeptSets(m, n, named, hot, roots);
    forall s | s in m.slots && !s.Elem? && s !in roots ensures s in n.slots && n.slots[s] == m.slots[s] {
      assert Anchored(n, hot, s);
    }
    forall s, path | s in m.slots && !s.Elem? && s !in roots && Clean(m, m.slots[s], path)
      ensures s in n.slots && Clean(n, n.slots[s], path)
      ensures Peek(n, n.slots[s], path) == Peek(m, m.slots[s], path)
    {
      CleanReadsKept(m, n, named, hot, s, path);
    }
  }
}
