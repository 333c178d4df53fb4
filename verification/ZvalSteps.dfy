/**
 The steps the runtime takes on its memory, as relations between the memory before and after,
 each with its frame.
*/
module ZvalSteps {
  import opened ZvalHeap
  import opened ZvalFrame
  import opened ZvalRelease

  // ---------------------------------------------------------------------------------------
  // Small changes
  // ---------------------------------------------------------------------------------------

  /** `a` gains the empty slot `s`: a count up and a pointer stored. */
  function Gained(m: Mem, s: Slot, a: Addr): Mem
    requires a in m.cells
  {
    var z := m.cells[a];
    Mem(m.cells[a := z.(refcount := z.refcount + 1)], m.slots[s := a], m.next)
  }

  lemma GainedKept(m: Mem, s: Slot, a: Addr, loose: set<Addr>)
    requires WF(m, loose) && a in m.cells && s !in m.slots && (s.Elem? ==> IsArray(m, s.owner))
    ensures WF(Gained(m, s, a), loose) && Kept(m, Gained(m, s, a), {s}, {})
  {
    assert s.Elem? ==> s.owner < m.next;
    hide Kept, CellsCounted;
    GainedFrame(m, s, a, loose);
    GainedCounted(m, s, a);
  }

  lemma GainedCounted(m: Mem, s: Slot, a: Addr)
    requires CellsCounted(m) && a in m.cells && s !in m.slots
    ensures CellsCounted(Gained(m, s, a))
  {
    var n := Gained(m, s, a);
    forall b | b in n.cells ensures n.cells[b].refcount == |Holders(n.slots, b)| {
      HoldersAdd(m.slots, s, a, b);
    }
  }

  lemma GainedFrame(m: Mem, s: Slot, a: Addr, loose: set<Addr>)
    requires WF(m, loose) && a in m.cells && s !in m.slots
    ensures Kept(m, Gained(m, s, a), {s}, {})
  {
    hide TablesOwned;
  }

  function Born(m: Mem, s: Slot, v: Value): Mem {
    Mem(m.cells[m.next := Zval(1, false, v)], m.slots[s := m.next], m.next + 1)
  }

  lemma BornFrame(m: Mem, s: Slot, v: Value)
    requires WF(m, {}) && s !in m.slots
    ensures Kept(m, Born(m, s, v), {s}, {})
  {
    hide TablesOwned;
  }

  lemma BornKept(m: Mem, s: Slot, v: Value)
    requires WF(m, {}) && s !in m.slots && (s.Elem? ==> IsArray(m, s.owner))
    ensures WF(Born(m, s, v), {}) && Kept(m, Born(m, s, v), {s}, {})
    ensures ElemsOf(Born(m, s, v), m.next) == {}
  {
    BornFrame(m, s, v);
    hide Kept;
    var n := Born(m, s, v);
    forall b | b in n.cells ensures n.cells[b].refcount == |Holders(n.slots, b)| {
      HoldersAdd(m.slots, s, m.next, b);
      if b == m.next {
        assert Holders(m.slots, b) == {};
      }
    }
  }

  /** The pointers in two slots change places. */
  function Swapped(m: Mem, s: Slot, t: Slot): Mem
    requires s in m.slots && t in m.slots
  {
    m.(slots := m.slots[s := m.slots[t]][t := m.slots[s]])
  }

  lemma SwappedKept(m: Mem, s: Slot, t: Slot)
    requires WF(m, {}) && s in m.slots && t in m.slots && s != t
    ensures WF(Swapped(m, s, t), {}) && Kept(m, Swapped(m, s, t), {s, t}, {})
  {
    var n := Swapped(m, s, t);
    var bare := m.slots - {s} - {t};
    assert n.slots == bare[s := m.slots[t]][t := m.slots[s]];
    forall b | b in n.cells ensures n.cells[b].refcount == |Holders(n.slots, b)| {
      HoldersDrop(m.slots, s, b);
      HoldersDrop(m.slots - {s}, t, b);
      HoldersAdd(bare, s, m.slots[t], b);
      HoldersAdd(bare[s := m.slots[t]], t, m.slots[s], b);
    }
  }

  /** The pointer in `t` moves to the empty slot `s`. */
  function Moved(m: Mem, s: Slot, t: Slot): Mem
    requires t in m.slots
  {
    m.(slots := (m.slots - {t})[s := m.slots[t]])
  }

  lemma MovedKept(m: Mem, s: Slot, t: Slot)
    requires WF(m, {}) && s !in m.slots && t in m.slots && (s.Elem? ==> IsArray(m, s.owner))
    ensures WF(Moved(m, s, t), {}) && Kept(m, Moved(m, s, t), {s, t}, {})
  {
    var n := Moved(m, s, t);
    forall b | b in n.cells ensures n.cells[b].refcount == |Holders(n.slots, b)| {
      HoldersDrop(m.slots, t, b);
      HoldersAdd(m.slots - {t}, s, m.slots[t], b);
    }
  }

  /** A slot that is empty before and after need not be named. */
  lemma KeptForget(m: Mem, n: Mem, named: set<Slot>, hot: set<Addr>, s: Slot)
    requires Kept(m, n, named + {s}, hot) && s !in m.slots && s !in n.slots && !s.Elem?
    ensures Kept(m, n, named, hot)
  {
  }

  // ---------------------------------------------------------------------------------------
  // Copying a table
  // ---------------------------------------------------------------------------------------

  /** No cell was freed, and no reference stopped being one. */
  ghost predicate NoneFreed(m: Mem, n: Mem) {
    forall a :: a in m.cells ==> a in n.cells && (m.cells[a].isRef ==> n.cells[a].isRef)
  }

  /** No cell was freed or changed, and no count went down. */
  ghost predicate Grown(m: Mem, n: Mem) {
    forall a :: a in m.cells ==>
      && a in n.cells && n.cells[a].refcount >= m.cells[a].refcount
      && n.cells[a].value == m.cells[a].value && n.cells[a].isRef == m.cells[a].isRef
  }

  /** Part of the entries of `r` have been added to the table of `c`. */
  ghost predicate Copying(m: Mem, n: Mem, r: Addr, c: Addr) {
    && n.next == m.next && n.cells.Keys == m.cells.Keys
    && Grown(m, n)
    && (forall s :: s in m.slots ==> s in n.slots && n.slots[s] == m.slots[s])
    && (forall s :: s in n.slots && s !in m.slots ==>
         s.Elem? && s.owner == c && Elem(r, s.key) in m.slots && n.slots[s] == m.slots[Elem(r, s.key)])
  }

  /** Entries of `r` with no counterpart in the table of `c` yet. */
  ghost function Pending(n: Mem, r: Addr, c: Addr): set<Slot> {
    set t | t in n.slots && t.Elem? && t.owner == r && Elem(c, t.key) !in n.slots
  }

  lemma CopyingStart(m: Mem, r: Addr, c: Addr)
    ensures Copying(m, m, r, c)
  {
  }

  lemma PendingShrinks(o: Mem, r: Addr, c: Addr, t: Slot, a: Addr)
    requires r != c && a in o.cells
    requires t in o.slots && t.Elem? && t.owner == r && Elem(c, t.key) !in o.slots
    ensures |Pending(Gained(o, Elem(c, t.key), a), r, c)| < |Pending(o, r, c)|
  {
    assert Pending(Gained(o, Elem(c, t.key), a), r, c) == Pending(o, r, c) - {t};
  }

  lemma CopyingStep(m: Mem, o: Mem, r: Addr, c: Addr, t: Slot)
    requires WF(o, {}) && Copying(m, o, r, c) && IsArray(o, c) && r != c
    requires t in o.slots && t.Elem? && t.owner == r && Elem(c, t.key) !in o.slots
    ensures o.slots[t] in o.cells && WF(Gained(o, Elem(c, t.key), o.slots[t]), {})
    ensures Copying(m, Gained(o, Elem(c, t.key), o.slots[t]), r, c)
    ensures IsArray(Gained(o, Elem(c, t.key), o.slots[t]), c)
    ensures |Pending(Gained(o, Elem(c, t.key), o.slots[t]), r, c)| < |Pending(o, r, c)|
  {
    hide Copying, Pending, CellsCounted, TablesOwned;
    GainedKept(o, Elem(c, t.key), o.slots[t], {});
    CopyingMore(m, o, r, c, t, o.slots[t]);
    PendingShrinks(o, r, c, t, o.slots[t]);
  }

  lemma CopyingMore(m: Mem, o: Mem, r: Addr, c: Addr, t: Slot, a: Addr)
    requires Copying(m, o, r, c) && r != c && a in o.cells
    requires t in o.slots && t.Elem? && t.owner == r && Elem(c, t.key) !in o.slots && o.slots[t] == a
    ensures Copying(m, Gained(o, Elem(c, t.key), a), r, c)
  {
  }

  lemma CopyingDone(m: Mem, n: Mem, r: Addr, c: Addr)
    requires WF(m, {}) && WF(n, {}) && Copying(m, n, r, c) && ElemsOf(m, c) == {} && r != c
    requires IsArray(m, r) && IsArray(m, c)
    requires forall t :: t in n.slots && t.Elem? && t.owner == r ==> Elem(c, t.key) in n.slots
    ensures CloneOf(n, c, m, r) && Kept(m, n, {}, {c})
  {
    forall k
      ensures (Elem(c, k) in n.slots <==> Elem(r, k) in m.slots)
           && (Elem(r, k) in m.slots ==> n.slots[Elem(c, k)] == m.slots[Elem(r, k)])
    {
      assert Elem(c, k) in ElemsOf(m, c) <==> Elem(c, k) in m.slots;
    }
  }

  // ---------------------------------------------------------------------------------------
  // Cloning and separating
  // ---------------------------------------------------------------------------------------

  /** Slot `s` holds a new cell of its own that looks like `r` did. */
  ghost predicate FreshClone(m: Mem, n: Mem, s: Slot, r: Addr) {
    && s in n.slots && n.slots[s] !in m.cells && n.slots[s] == m.next && n.next == m.next + 1
    && CloneOf(n, n.slots[s], m, r)
    && n.cells[n.slots[s]].refcount == 1 && !n.cells[n.slots[s]].isRef
  }

  lemma KeptCool(m: Mem, n: Mem, named: set<Slot>, hot: set<Addr>, c: Addr)
    requires WF(m, {}) && Kept(m, n, named, hot + {c}) && c >= m.next
    ensures Kept(m, n, named, hot)
  {
    forall s | s in m.slots && s !in named && Anchored(n, hot, s)
      ensures s in n.slots && n.slots[s] == m.slots[s]
    {
      assert Anchored(n, hot + {c}, s);
    }
  }

  lemma OneHolder(m: Mem, s: Slot, c: Addr)
    requires WF(m, {}) && s in m.slots && m.slots[s] == c
    requires forall t :: t in m.slots && m.slots[t] == c ==> t == s
    ensures m.cells[c].refcount == 1 && !m.cells[c].isRef
  {
    assert Holders(m.slots, c) == {s};
  }

  /** Cloning a cell that is not an array. */
  lemma ClonedPlain(m: Mem, r: Addr, s: Slot)
    requires WF(m, {}) && r in m.cells && !IsArray(m, r) && s !in m.slots && !s.Elem?
    ensures FreshClone(m, Born(m, s, m.cells[r].value), s, r)
  {
    var n := Born(m, s, m.cells[r].value);
    forall k ensures Elem(m.next, k) !in n.slots && Elem(r, k) !in n.slots && Elem(r, k) !in m.slots {}
  }

  /** Cloning an array cell. */
  lemma ClonedArrayKept(m: Mem, o: Mem, n: Mem, s: Slot, c: Addr)
    requires WF(m, {}) && WF(o, {}) && WF(n, {}) && c >= m.next
    requires Kept(m, o, {s}, {}) && Kept(o, n, {}, {c})
    ensures Kept(m, n, {s}, {})
  {
    hide Kept;
    KeptTrans(m, o, n, {s}, {}, {}, {c}, {s}, {c});
    assert {} + {c} == {c};
    KeptCool(m, n, {s}, {}, c);
  }

  lemma ClonedArrayHolder(m: Mem, o: Mem, n: Mem, r: Addr, s: Slot)
    requires WF(m, {}) && WF(n, {}) && s !in m.slots && !s.Elem?
    requires o == Born(m, s, Array) && Copying(o, n, r, m.next)
    ensures n.cells[m.next].refcount == 1 && !n.cells[m.next].isRef
  {
    assert forall t :: t in m.slots ==> m.slots[t] != m.next;
    hide CellsCounted, TablesOwned, Grown;
    assert forall t :: t in n.slots && t !in o.slots ==> n.slots[t] != m.next;
    OneHolder(n, s, m.next);
  }

  lemma ClonedArray(m: Mem, o: Mem, n: Mem, r: Addr, s: Slot)
    requires WF(m, {}) && WF(n, {}) && IsArray(m, r) && s !in m.slots && !s.Elem?
    requires o == Born(m, s, Array) && Copying(o, n, r, m.next) && CloneOf(n, m.next, o, r)
    ensures FreshClone(m, n, s, r)
  {
    ClonedArrayHolder(m, o, n, r, s);
    assert s in o.slots && o.slots[s] == m.next;
    hide Grown, TablesOwned, NoDangling;
  }

  /** sep_copy_on_write on slot `s` (zval.c:32-43). */
  ghost predicate Separated(m: Mem, n: Mem, s: Slot)
    requires s in m.slots && m.slots[s] in m.cells
  {
    if InCopyOnWrite(m.cells[m.slots[s]]) then
      && Kept(m, n, {s}, {}) && FreshClone(m, n, s, m.slots[s])
      && NoneFreed(m, n)
    else n == m
  }

  lemma SeparatedFrame(m: Mem, n: Mem, s: Slot)
    requires WF(m, {}) && s in m.slots && Separated(m, n, s)
    ensures Kept(m, n, {s}, {})
  {
    KeptRefl(m);
  }

  /** The steps of a separation: clone into the local, exchange pointers, drop the old one. */
  lemma SeparatedKept(m: Mem, o: Mem, p: Mem, n: Mem, s: Slot)
    requires WF(m, {}) && WF(o, {}) && WF(p, {}) && WF(n, {})
    requires Kept(m, o, {Local}, {}) && Kept(o, p, {s, Local}, {}) && Kept(p, n, {Local}, {})
    requires Local !in m.slots && Local !in n.slots
    ensures Kept(m, n, {s}, {})
  {
    hide Kept;
    KeptTrans(m, o, p, {Local}, {}, {s, Local}, {}, {s, Local}, {});
    KeptTrans(m, p, n, {s, Local}, {}, {Local}, {}, {s} + {Local}, {});
    KeptForget(m, n, {s}, {}, Local);
  }

  lemma ClonedSlot(m: Mem, o: Mem, s: Slot)
    requires WF(m, {}) && Kept(m, o, {Local}, {}) && s in m.slots && s != Local && (s.Elem? ==> IsArray(m, s.owner))
    requires Grown(m, o)
    ensures s in o.slots && o.slots[s] == m.slots[s] && (s.Elem? ==> IsArray(o, s.owner))
  {
  }

  lemma CountedMore(m: Mem, o: Mem, a: Addr)
    requires Grown(m, o) && a in m.cells
    ensures a in o.cells && o.cells[a].refcount >= m.cells[a].refcount
  {
  }

  lemma SwappedIs(o: Mem, s: Slot, p: Mem)
    requires s in o.slots && Local in o.slots
    requires p == Mem(o.cells, o.slots[s := o.slots[Local]][Local := o.slots[s]], o.next)
    ensures p == Swapped(o, s, Local)
  {
  }

  lemma ReleasedGone(p: Mem, n: Mem, s: Slot)
    requires Released(p, n, {s})
    ensures s !in n.slots
  {
  }

  lemma SeparatedNoneFreed(m: Mem, o: Mem, n: Mem, s: Slot, r: Addr)
    requires WF(m, {}) && WF(o, {}) && WF(n, {}) && s in o.slots && Local in o.slots && s != Local
    requires o.slots[s] == r && r in m.cells && !m.cells[r].isRef && Grown(m, o)
    requires Released(Swapped(o, s, Local), n, {Local}) && n.cells.Keys == o.cells.Keys
    ensures NoneFreed(m, n)
  {
    var p := Swapped(o, s, Local);
    forall a | a in m.cells ensures a in n.cells && (m.cells[a].isRef ==> n.cells[a].isRef) {
      assert a in o.cells.Keys;
      if m.cells[a].isRef {
        forall t | t in Holders(o.slots, a) && t != Local ensures t in Holders(n.slots, a) {
          assert !Orphan(p, n, t) by { assert t.Elem? ==> t.owner in o.cells.Keys; }
        }
        if Local in Holders(o.slots, a) {
          assert p.slots[s] == a && !Orphan(p, n, s) by { assert s.Elem? ==> s.owner in o.cells.Keys; }
          assert Holders(o.slots, a) - {Local} + {s} <= Holders(n.slots, a);
          SubsetSize(Holders(o.slots, a) - {Local} + {s}, Holders(n.slots, a));
        } else {
          SubsetSize(Holders(o.slots, a), Holders(n.slots, a));
        }
      }
    }
  }

  lemma SeparatedClone(m: Mem, o: Mem, n: Mem, s: Slot, r: Addr)
    requires WF(m, {}) && WF(o, {}) && WF(n, {}) && s in m.slots && m.slots[s] == r && s in o.slots
    requires s != Local && Local !in m.slots && o.slots[s] == r && r in m.cells && !m.cells[r].isRef
    requires FreshClone(m, o, Local, r) && Grown(m, o)
    requires Released(Swapped(o, s, Local), n, {Local}) && n.cells.Keys == o.cells.Keys
    ensures FreshClone(m, n, s, r) && NoneFreed(m, n)
  {
    var p, c := Swapped(o, s, Local), o.slots[Local];
    SeparatedNoneFreed(m, o, n, s, r);
    assert s in n.slots && n.slots[s] == c by {
      assert !Orphan(p, n, s);
    }
    forall k ensures (Elem(c, k) in n.slots <==> Elem(c, k) in o.slots)
      ensures Elem(c, k) in o.slots ==> n.slots[Elem(c, k)] == o.slots[Elem(c, k)]
    {
      assert Elem(c, k) in p.slots <==> Elem(c, k) in o.slots;
      assert !Orphan(p, n, Elem(c, k));
    }
  }

  // ---------------------------------------------------------------------------------------
  // Reference assignment
  // ---------------------------------------------------------------------------------------

  /** `a` becomes a reference held by the empty slot `s` as well. */
  function Marked(m: Mem, s: Slot, a: Addr): Mem
    requires a in m.cells
  {
    var z := m.cells[a];
    Mem(m.cells[a := Zval(z.refcount + 1, true, z.value)], m.slots[s := a], m.next)
  }

  lemma ReleasedLocal(o: Mem, p: Mem, l: Slot)
    requires Released(o, p, {l}) && l in o.slots && Local in o.slots && l != Local
    ensures l !in p.slots && Local in p.slots && p.slots[Local] == o.slots[Local]
  {
    assert !Orphan(o, p, Local);
  }

  lemma MarkedKept(m: Mem, s: Slot, a: Addr)
    requires WF(m, {}) && a in m.cells && s !in m.slots && !s.Elem?
    ensures WF(Marked(m, s, a), {}) && Kept(m, Marked(m, s, a), {s}, {a})
  {
    var n := Marked(m, s, a);
    forall b | b in n.cells ensures n.cells[b].refcount == |Holders(n.slots, b)| {
      HoldersAdd(m.slots, s, a, b);
    }
  }

  /** copy_into_ref uses both slots after the release of `l`, so their arrays must still be there. */
  ghost predicate CanJoin(m: Mem, l: Slot, r: Slot)
    requires r in m.slots && m.slots[r] in m.cells
  {
    var o := Marked(m, Local, m.slots[r]);
    (l.Elem? ==> Lives(o, {l}, l.owner)) && (r != l && r.Elem? ==> Lives(o, {l}, r.owner))
  }

  /** An array that outlives a release is still an array, and its other entries are there. */
  lemma OwnerStays(m: Mem, n: Mem, l: Slot, s: Slot)
    requires WF(m, {}) && Released(m, n, {l}) && s in m.slots && (s.Elem? ==> s.owner in n.cells)
    ensures s.Elem? ==> IsArray(n, s.owner)
    ensures s != l ==> s in n.slots && n.slots[s] == m.slots[s]
  {
    assert !Orphan(m, n, s);
  }

  /** copy_into_ref (zval.c:62-69): `l` joins the reference set of `r`. */
  ghost predicate RefCopied(m: Mem, n: Mem, l: Slot, r: Slot)
    requires r in m.slots
  {
    var a := m.slots[r];
    && Kept(m, n, {l}, {a})
    && l in n.slots && n.slots[l] == a && r in n.slots && n.slots[r] == a
    && a in n.cells && a in m.cells && n.cells[a].value == m.cells[a].value
    && (l != r || IsRef(m, a) ==> n.cells[a].isRef) && n.next == m.next
    && (forall k :: Elem(a, k) != l ==> SameEntry(m, n, a, k))
  }

  ghost predicate SameEntry(m: Mem, n: Mem, a: Addr, k: Key) {
    && (Elem(a, k) in n.slots <==> Elem(a, k) in m.slots)
    && (Elem(a, k) in m.slots ==> n.slots[Elem(a, k)] == m.slots[Elem(a, k)])
  }

  /** The tests on the released memory are those of CanJoin. */
  lemma JoinReached(m: Mem, p: Mem, l: Slot, r: Slot)
    requires WF(m, {}) && WF(p, {}) && l in m.slots && r in m.slots && Local !in m.slots
    requires Released(Marked(m, Local, m.slots[r]), p, {l}) && Spares(Marked(m, Local, m.slots[r]), p, {l})
    ensures CanJoin(m, l, r) <==>
            (l.Elem? ==> l.owner in p.cells) && (r != l && r.Elem? ==> r.owner in p.cells)
  {
    var o := Marked(m, Local, m.slots[r]);
    if l.Elem? {
      FreesDoomed(o, p, {l}, l.owner);
    }
    if r.Elem? {
      FreesDoomed(o, p, {l}, r.owner);
    }
  }

  lemma RefCopiedKept(m: Mem, o: Mem, p: Mem, n: Mem, l: Slot, a: Addr)
    requires WF(m, {}) && WF(o, {}) && WF(p, {}) && WF(n, {})
    requires Kept(m, o, {Local}, {a}) && Kept(o, p, {l}, {}) && Kept(p, n, {l, Local}, {})
    requires Local !in m.slots && Local !in n.slots
    ensures Kept(m, n, {l}, {a})
  {
    hide Kept;
    KeptTrans(m, o, p, {Local}, {a}, {l}, {}, {l} + {Local}, {a});
    KeptTrans(m, p, n, {l} + {Local}, {a}, {l, Local}, {}, {l} + {Local}, {a});
    KeptForget(m, n, {l}, {a}, Local);
  }

  lemma RefCopiedCell(m: Mem, p: Mem, n: Mem, l: Slot, r: Slot)
    requires WF(m, {}) && WF(p, {}) && WF(n, {}) && l in m.slots && r in m.slots && l != Local && r != Local
    requires Local !in m.slots && (r != l && r.Elem? ==> r.owner in p.cells)
    requires Released(Marked(m, Local, m.slots[r]), p, {l}) && WF(Marked(m, Local, m.slots[r]), {})
    requires Kept(Marked(m, Local, m.slots[r]), p, {l}, {})
    requires Local in p.slots && n == Moved(p, l, Local)
    requires Kept(m, n, {l}, {m.slots[r]}) && (l == r && IsRef(m, m.slots[r]) ==> IsRef(p, m.slots[r]))
    ensures RefCopied(m, n, l, r)
  {
    hide Kept;
    var a, o := m.slots[r], Marked(m, Local, m.slots[r]);
    if r != l {
      OwnerStays(o, p, l, r);
      TwoHolders(p, r, Local);
    }
    assert a in n.cells;
    forall k | Elem(a, k) != l ensures SameEntry(m, n, a, k) {
      assert !Orphan(o, p, Elem(a, k));
      assert Elem(a, k) in o.slots <==> Elem(a, k) in m.slots;
    }
  }

  // ---------------------------------------------------------------------------------------
  // Overwriting a cell in place
  // ---------------------------------------------------------------------------------------

  ghost predicate RootHeld(m: Mem, a: Addr) {
    exists t :: t in m.slots && !t.Elem? && m.slots[t] == a
  }

  function Refilled(m: Mem, a: Addr, v: Value): Mem
    requires a in m.cells
  {
    m.(cells := m.cells[a := m.cells[a].(value := v)])
  }

  /** `a` has the value of `r` now, entry by entry; nothing else was rewritten. */
  ghost predicate Overwritten(m: Mem, n: Mem, a: Addr, r: Addr) {
    Kept(m, n, {}, {a}) && CloneOf(n, a, m, r) && n.next == m.next
  }

  lemma ClearedWF(m: Mem, a: Addr)
    requires WF(m, {}) && a in m.cells
    ensures WF(Refilled(m, a, Plain(Null)), {a})
    ensures ElemsOf(Refilled(m, a, Plain(Null)), a) == ElemsOf(m, a)
  {
  }

  /** A cell that outlives the table of `a` keeps its own. */
  lemma ClearedKeeps(m: Mem, p: Mem, x: Addr, a: Addr)
    requires WF(m, {}) && WF(p, {}) && a in m.cells && x in p.cells && x != a
    requires Released(Refilled(m, a, Plain(Null)), p, ElemsOf(m, a))
    ensures x in m.cells && CloneOf(p, x, m, x)
  {
    var o := Refilled(m, a, Plain(Null));
    forall k ensures SameEntry(m, p, x, k) {
      assert !Orphan(o, p, Elem(x, k));
    }
  }

  /** A reference whose table is taken apart stays one exactly if two holders outlive that. */
  lemma ClearedRef(m: Mem, p: Mem, a: Addr)
    requires WF(m, {}) && WF(p, {}) && IsRef(m, a) && a in p.cells
    requires Released(Refilled(m, a, Plain(Null)), p, ElemsOf(m, a))
    requires forall x :: x in m.cells ==> (x in p.cells <==> Lives(m, ElemsOf(m, a), x))
    ensures IsRef(p, a) <==> StaysRef(m, ElemsOf(m, a), a)
  {
    hide Lives;
    var gone := ElemsOf(m, a);
    forall s ensures s in p.slots <==> SlotLives(m, gone, s) {
      ClearedSlot(m, p, a, s);
    }
    if IsRef(p, a) {
      var s, t := TwoIn(Holders(p.slots, a));
      assert SlotLives(m, gone, s) && SlotLives(m, gone, t);
    }
    if StaysRef(m, gone, a) {
      var s, t :| s != t && SlotLives(m, gone, s) && SlotLives(m, gone, t) && m.slots[s] == a && m.slots[t] == a;
      TwoHolders(p, s, t);
    }
  }

  lemma ClearedSlot(m: Mem, p: Mem, a: Addr, s: Slot)
    requires WF(m, {}) && WF(p, {}) && a in m.cells
    requires Released(Refilled(m, a, Plain(Null)), p, ElemsOf(m, a))
    requires forall x :: x in m.cells ==> (x in p.cells <==> Lives(m, ElemsOf(m, a), x))
    ensures s in p.slots <==> SlotLives(m, ElemsOf(m, a), s)
  {
    hide Lives, CellsCounted;
    var o := Refilled(m, a, Plain(Null));
    assert s in m.slots && s.Elem? ==> s.owner in m.cells;
  }

  lemma ClearedReference(m: Mem, p: Mem, a: Addr)
    requires WF(m, {}) && WF(p, {}) && IsRef(m, a) && a in p.cells
    requires Released(Refilled(m, a, Plain(Null)), p, ElemsOf(m, a))
    requires Spares(Refilled(m, a, Plain(Null)), p, ElemsOf(m, a))
    ensures IsRef(p, a) <==> StaysRef(m, ElemsOf(m, a), a)
  {
    hide Released, Spares, Lives, StaysRef;
    forall x | x in m.cells ensures x in p.cells <==> Lives(m, ElemsOf(m, a), x) {
      ClearedLives(m, p, a, x);
    }
    ClearedRef(m, p, a);
  }

  lemma CopiedFlag(m: Mem, n: Mem, r: Addr, c: Addr)
    requires Copying(m, n, r, c) && c in m.cells
    ensures IsRef(n, c) <==> IsRef(m, c)
  {
  }

  lemma ClearedRoot(m: Mem, p: Mem, a: Addr)
    requires NoDangling(p) && a in m.cells && RootHeld(m, a)
    requires Released(Refilled(m, a, Plain(Null)), p, ElemsOf(m, a))
    ensures a in p.cells
  {
    var t :| t in m.slots && !t.Elem? && m.slots[t] == a;
    assert !Orphan(Refilled(m, a, Plain(Null)), p, t);
    assert t in p.slots;
  }

  lemma ClearedLives(m: Mem, p: Mem, a: Addr, x: Addr)
    requires WF(m, {}) && WF(p, {}) && a in m.cells && x in m.cells
    requires Released(Refilled(m, a, Plain(Null)), p, ElemsOf(m, a))
    requires Spares(Refilled(m, a, Plain(Null)), p, ElemsOf(m, a))
    ensures x in p.cells <==> Lives(m, ElemsOf(m, a), x)
  {
    var o := Refilled(m, a, Plain(Null));
    FreesDoomed(o, p, ElemsOf(m, a), x);
    forall kept: set<Addr> ensures Supported(m, ElemsOf(m, a), kept) <==> Supported(o, ElemsOf(m, a), kept) {
      forall b ensures HeldUp(m, ElemsOf(m, a), kept, b) <==> HeldUp(o, ElemsOf(m, a), kept, b) {
      }
    }
  }

  lemma RefilledWF(p: Mem, a: Addr, v: Value)
    requires WF(p, {}) && a in p.cells && ElemsOf(p, a) == {}
    ensures WF(Refilled(p, a, v), {})
    ensures ElemsOf(Refilled(p, a, v), a) == {}
  {
    forall s | s in p.slots && s.Elem? ensures s.owner != a {
      assert s in ElemsOf(p, s.owner);
    }
  }

  /** Emptying and refilling `a` leaves everything else in its frame. */
  lemma RefilledKept(m: Mem, p: Mem, a: Addr, v: Value)
    requires WF(m, {}) && WF(p, {}) && a in m.cells && a in p.cells
    requires Released(Refilled(m, a, Plain(Null)), p, ElemsOf(m, a))
    ensures Kept(m, Refilled(p, a, v), {}, {a})
  {
    var o, q := Refilled(m, a, Plain(Null)), Refilled(p, a, v);
    forall s | s in m.slots && Anchored(q, {a}, s) ensures s in q.slots && q.slots[s] == m.slots[s] {
      assert !Orphan(o, p, s);
    }
    forall s, t | s in m.slots && t in m.slots && s != t && m.slots[s] == m.slots[t] && IsRef(m, m.slots[s])
                  && Anchored(q, {a}, s) && Anchored(q, {a}, t)
      ensures IsRef(q, m.slots[s])
    {
      RefilledRef(m, p, a, s, t);
    }
  }

  /** Two holders outside the table of `a` keep a reference. */
  lemma RefilledRef(m: Mem, p: Mem, a: Addr, s: Slot, t: Slot)
    requires WF(m, {}) && WF(p, {}) && a in m.cells && a in p.cells
    requires Released(Refilled(m, a, Plain(Null)), p, ElemsOf(m, a))
    requires s in m.slots && t in m.slots && s != t && m.slots[s] == m.slots[t] && IsRef(m, m.slots[s])
    requires Anchored(p, {a}, s) && Anchored(p, {a}, t)
    ensures IsRef(p, m.slots[s])
  {
    hide TablesOwned;
    var o := Refilled(m, a, Plain(Null));
    assert !Orphan(o, p, s) && !Orphan(o, p, t);
    assert s in p.slots && t in p.slots;
    TwoHolders(p, s, t);
  }

  lemma OverwrittenPlain(m: Mem, p: Mem, a: Addr, r: Addr)
    requires WF(m, {}) && WF(p, {}) && a in m.cells && a in p.cells && r in p.cells && r != a
    requires Released(Refilled(m, a, Plain(Null)), p, ElemsOf(m, a))
    requires CloneOf(p, r, m, r) && !IsArray(p, r) && ElemsOf(p, a) == {}
    ensures Overwritten(m, Refilled(p, a, p.cells[r].value), a, r)
  {
    hide CellsCounted, Kept;
    var n := Refilled(p, a, p.cells[r].value);
    RefilledKept(m, p, a, p.cells[r].value);
    forall k ensures Elem(a, k) !in n.slots && Elem(r, k) !in m.slots {
      assert Elem(a, k) in ElemsOf(p, a) <==> Elem(a, k) in p.slots;
    }
  }

  lemma OverwrittenArray(m: Mem, p: Mem, n: Mem, a: Addr, r: Addr)
    requires WF(m, {}) && WF(p, {}) && WF(n, {}) && a in m.cells && a in p.cells && r in p.cells && r != a
    requires Released(Refilled(m, a, Plain(Null)), p, ElemsOf(m, a))
    requires CloneOf(p, r, m, r)
    requires var q := Refilled(p, a, p.cells[r].value);
      (WF(q, {}) && CloneOf(n, a, q, r) && Kept(q, n, {}, {a}))
    requires n.next == p.next
    ensures Overwritten(m, n, a, r)
  {
    var q := Refilled(p, a, p.cells[r].value);
    RefilledKept(m, p, a, p.cells[r].value);
    OverwrittenEntries(m, p, q, n, a, r);
    hide Kept, CloneOf, Released;
    KeptTrans(m, q, n, {}, {a}, {}, {a}, {}, {a});
  }

  lemma OverwrittenEntries(m: Mem, p: Mem, q: Mem, n: Mem, a: Addr, r: Addr)
    requires a in p.cells && r in p.cells && q == Refilled(p, a, p.cells[r].value)
    requires CloneOf(p, r, m, r) && CloneOf(n, a, q, r)
    ensures CloneOf(n, a, m, r)
  {
    forall k
      ensures (Elem(a, k) in n.slots <==> Elem(r, k) in m.slots)
           && (Elem(r, k) in m.slots ==> n.slots[Elem(a, k)] == m.slots[Elem(r, k)])
    {
      assert Elem(r, k) in q.slots <==> Elem(r, k) in m.slots;
    }
  }

  // ---------------------------------------------------------------------------------------
  // Assignment
  // ---------------------------------------------------------------------------------------

  /** When write_var gets through: neither `r`, nor the cell it writes, nor the array around that, was
      freed by the release that comes first; and the copy of an array does not meet a freed entry. */
  ghost predicate CanWrite(m: Mem, l: Slot, r: Addr)
    requires l in m.slots && m.slots[l] in m.cells
  {
    var a := m.slots[l];
    && r in m.cells && r != a
    && (if m.cells[a].isRef then Lives(m, ElemsOf(m, a), r) && Lives(m, ElemsOf(m, a), a)
        else Lives(m, {l}, r) && (l.Elem? ==> Lives(m, {l}, l.owner))
             && !(l.Elem? && l.owner == r && StaysRef(m, {l}, r) && Doomed(m, {l}, a)))
  }

  /** write_var (zval.c:101-122): in place for a reference, otherwise `l` shares `r`, or holds a
      copy when `r` is a reference. */
  ghost predicate Written(m: Mem, n: Mem, l: Slot, r: Addr)
    requires l in m.slots
  {
    if IsRef(m, m.slots[l]) then Overwritten(m, n, m.slots[l], r)
    else Kept(m, n, {l}, {}) && l in n.slots
         && if IsRef(n, r) then FreshClone(m, n, l, r) else n.slots[l] == r && n.next == m.next
  }

  lemma OverwrittenLocal(m: Mem, n: Mem, a: Addr, r: Addr)
    requires Overwritten(m, n, a, r) && Local !in m.slots
    ensures Local !in n.slots
  {
  }

  /** After the release: `r` is alive with its table, the slot is free, its table is there. */
  lemma WriteReleased(m: Mem, p: Mem, l: Slot, r: Addr)
    requires WF(m, {}) && WF(p, {}) && l in m.slots && r in p.cells && (l.Elem? ==> l.owner in p.cells)
    requires Released(m, p, {l})
    ensures Kept(m, p, {l}, {}) && l !in p.slots && (l.Elem? ==> IsArray(p, l.owner))
    ensures forall k :: Elem(r, k) != l ==> SameEntry(m, p, r, k)
    ensures r in m.cells && p.cells[r].value == m.cells[r].value
    ensures Local !in m.slots ==> Local !in p.slots
    ensures p.next == m.next
  {
    ReleasedKept(m, p, {l});
    OwnerStays(m, p, l, l);
    forall k | Elem(r, k) != l ensures SameEntry(m, p, r, k) {
      assert !Orphan(m, p, Elem(r, k));
    }
  }

  /** The tests on the released memory are those of CanWrite. */
  lemma WriteReached(m: Mem, p: Mem, l: Slot, r: Addr)
    requires WF(m, {}) && WF(p, {}) && l in m.slots && !m.cells[m.slots[l]].isRef
    requires r in m.cells && r != m.slots[l] && Released(m, p, {l}) && Spares(m, p, {l})
    ensures CanWrite(m, l, r) <==>
            && r in p.cells && (l.Elem? ==> l.owner in p.cells)
            && !(l.Elem? && l.owner == r && IsRef(p, r) && m.slots[l] !in p.cells)
  {
    FreesDoomed(m, p, {l}, r);
    FreesDoomed(m, p, {l}, m.slots[l]);
    if l.Elem? {
      FreesDoomed(m, p, {l}, l.owner);
    }
    RefLeft(m, p, {l}, r);
  }

  /** A reference stays one while two of its holders are left. */
  lemma RefLeft(m: Mem, p: Mem, gone: set<Slot>, r: Addr)
    requires WF(m, {}) && WF(p, {}) && Released(m, p, gone) && Spares(m, p, gone) && r in m.cells
    ensures IsRef(p, r) <==> StaysRef(m, gone, r)
  {
    hide TablesOwned, Lives, Spares, Doomed;
    LeftSlots(m, p, gone);
    if IsRef(p, r) {
      hide Released;
      assert r in p.cells && |Holders(p.slots, r)| >= 2;
      var s, t := TwoOf(Holders(p.slots, r));
      assert SlotLives(m, gone, s) && SlotLives(m, gone, t);
    }
    if StaysRef(m, gone, r) {
      var s, t :| s != t && SlotLives(m, gone, s) && SlotLives(m, gone, t) && m.slots[s] == r && m.slots[t] == r;
      assert s in p.slots && t in p.slots;
      TwoHolders(p, s, t);
    }
  }

  lemma LeftSlots(m: Mem, p: Mem, gone: set<Slot>)
    requires WF(m, {}) && WF(p, {}) && Released(m, p, gone) && Spares(m, p, gone)
    ensures forall s :: s in p.slots <==> SlotLives(m, gone, s)
    ensures forall s :: s in p.slots ==> p.slots[s] == m.slots[s]
  {
    ReleaseExactly(m, p, gone);
  }

  lemma TwoOf(held: set<Slot>) returns (s: Slot, t: Slot)
    requires |held| >= 2
    ensures s in held && t in held && s != t
  {
    s :| s in held;
    assert |held - {s}| == |held| - 1;
    t :| t in held - {s};
  }

  lemma WriteShared(m: Mem, p: Mem, n: Mem, l: Slot, r: Addr)
    requires WF(m, {}) && WF(p, {}) && l in m.slots && !IsRef(m, m.slots[l])
    requires Kept(m, p, {l}, {}) && l !in p.slots && (l.Elem? ==> IsArray(p, l.owner))
    requires r in p.cells && !p.cells[r].isRef && n == Gained(p, l, r) && p.next == m.next
    ensures WF(n, {}) && Written(m, n, l, r)
  {
    GainedKept(p, l, r, {});
    KeptTrans(m, p, n, {l}, {}, {l}, {}, {l}, {});
  }

  lemma WriteCloned(p: Mem, q: Mem, l: Slot, r: Addr)
    requires WF(p, {}) && WF(q, {}) && l !in p.slots && (l.Elem? ==> IsArray(p, l.owner))
    requires r in p.cells && Kept(p, q, {Local}, {}) && FreshClone(p, q, Local, r) && l != Local && Grown(p, q)
    ensures l !in q.slots && (l.Elem? ==> IsArray(q, l.owner))
  {
  }

  /** The released entry of `r` itself, copied out of its bucket into the clone. */
  lemma StaleEntry(m: Mem, p: Mem, q: Mem, l: Slot, r: Addr)
    requires WF(m, {}) && WF(q, {}) && l in m.slots && l.Elem? && l.owner == r && l !in p.slots
    requires m.slots[l] in p.cells && r in p.cells && p.cells[r].value == m.cells[r].value
    requires Grown(p, q) && FreshClone(p, q, Local, r)
    ensures m.slots[l] in q.cells && IsArray(q, q.slots[Local])
    ensures var s := Elem(q.slots[Local], l.key); s !in q.slots && WF(Gained(q, s, m.slots[l]), {})
  {
    assert l == Elem(r, l.key);
    GainedKept(q, Elem(q.slots[Local], l.key), m.slots[l], {});
  }

  ghost predicate CloneWithStale(m: Mem, q: Mem, w: Mem, l: Slot, r: Addr)
    requires l in m.slots && Local in q.slots
  {
    if l.Elem? && l.owner == r
    then m.slots[l] in q.cells && Elem(q.slots[Local], l.key) !in q.slots
         && w == Gained(q, Elem(q.slots[Local], l.key), m.slots[l])
    else w == q
  }

  lemma WriteCloneKept(m: Mem, p: Mem, q: Mem, w: Mem, n: Mem, l: Slot, r: Addr)
    requires WF(m, {}) && WF(p, {}) && WF(q, {}) && WF(w, {}) && l in m.slots && l != Local
    requires Kept(m, p, {l}, {}) && Kept(p, q, {Local}, {}) && FreshClone(p, q, Local, r) && p.next == m.next
    requires l !in q.slots && (l.Elem? ==> IsArray(q, l.owner)) && Local !in m.slots
    requires CloneWithStale(m, q, w, l, r) && Local in w.slots && n == Moved(w, l, Local)
    requires IsArray(q, q.slots[Local]) || w == q
    ensures WF(n, {}) && Kept(m, n, {l}, {})
  {
    hide Kept, WF, CloneWithStale, CloneOf;
    var e := Elem(q.slots[Local], if l.Elem? then l.key else Index(0));
    StaleApart(m, p, q, w, l, r, e);
    StaleKept(m, q, w, l, r, e);
    MovedKept(w, l, Local);
    KeptTrans(m, p, q, {l}, {}, {Local}, {}, {l, Local}, {});
    KeptTrans(m, q, w, {l, Local}, {}, {e}, {}, {l, Local, e}, {});
    KeptTrans(m, w, n, {l, Local, e}, {}, {l, Local}, {}, {l, Local, e}, {});
    WriteCloneForget(m, n, l, e);
  }

  /** The stale entry is one of the new copy. */
  lemma StaleApart(m: Mem, p: Mem, q: Mem, w: Mem, l: Slot, r: Addr, e: Slot)
    requires WF(m, {}) && l in m.slots && l != Local && FreshClone(p, q, Local, r) && p.next == m.next
    requires l !in q.slots && (l.Elem? ==> IsArray(q, l.owner)) && CloneWithStale(m, q, w, l, r)
    requires e == Elem(q.slots[Local], if l.Elem? then l.key else Index(0))
    ensures e.owner >= m.next && l !in w.slots && (l.Elem? ==> IsArray(w, l.owner))
  {
    hide CellsCounted, CloneOf;
  }

  lemma StaleKept(m: Mem, q: Mem, w: Mem, l: Slot, r: Addr, e: Slot)
    requires WF(q, {}) && l in m.slots && Local in q.slots && CloneWithStale(m, q, w, l, r)
    requires e == Elem(q.slots[Local], if l.Elem? then l.key else Index(0))
    requires IsArray(q, q.slots[Local]) || w == q
    ensures Kept(q, w, {e}, {})
  {
    hide CellsCounted, NoDangling, TablesOwned, Kept;
    if l.Elem? && l.owner == r {
      GainedKept(q, e, m.slots[l], {});
    } else {
      KeptRefl(q);
      KeptNamed(q, q, {}, {e});
    }
  }

  lemma KeptNamed(m: Mem, n: Mem, named: set<Slot>, more: set<Slot>)
    requires Kept(m, n, named, {}) && named <= more
    ensures Kept(m, n, more, {})
  {
  }

  lemma WriteCloneForget(m: Mem, n: Mem, l: Slot, e: Slot)
    requires Kept(m, n, {l, Local, e}, {}) && Local !in m.slots && Local !in n.slots && WF(m, {})
    requires e.Elem? && e.owner >= m.next
    ensures Kept(m, n, {l}, {})
  {
    hide CellsCounted;
  }

  lemma WriteCloneCopy(m: Mem, p: Mem, q: Mem, w: Mem, n: Mem, l: Slot, r: Addr)
    requires WF(m, {}) && l in m.slots && l != Local && !IsRef(m, m.slots[l]) && r in m.cells
    requires forall k :: Elem(r, k) != l ==> SameEntry(m, p, r, k)
    requires r in p.cells && p.cells[r].value == m.cells[r].value && p.cells[r].isRef && l !in p.slots
    requires FreshClone(p, q, Local, r) && p.next == m.next && Grown(p, q)
    requires CloneWithStale(m, q, w, l, r) && Local in w.slots && n == Moved(w, l, Local) && WF(n, {})
    ensures FreshClone(m, n, l, r) && IsRef(n, r)
  {
    var c := q.slots[Local];
    forall k
      ensures (Elem(c, k) in n.slots <==> Elem(r, k) in m.slots)
           && (Elem(r, k) in m.slots ==> n.slots[Elem(c, k)] == m.slots[Elem(r, k)])
    {
      assert Elem(c, k) in q.slots <==> Elem(r, k) in p.slots;
    }
  }

  // ---------------------------------------------------------------------------------------
  // Variables and array entries
  // ---------------------------------------------------------------------------------------

  /** read_var (zval.c:151-160): an unknown variable reads the shared uninitialised cell. */
  function LookUp(m: Mem, s: Slot): (a: Addr)
    requires UNINIT in m.slots
    ensures s in m.slots ==> a == m.slots[s]
  {
    if s in m.slots then m.slots[s] else m.slots[UNINIT]
  }

  /** get_st_entry (zval.c:125-146): an unknown variable is bound to the uninitialised cell. */
  function WithVar(m: Mem, s: Slot): Mem
    requires UNINIT in m.slots && m.slots[UNINIT] in m.cells
  {
    if s in m.slots then m else Gained(m, s, m.slots[UNINIT])
  }

  ghost predicate GotVar(m: Mem, n: Mem, s: Slot)
    requires UNINIT in m.slots && m.slots[UNINIT] in m.cells
  {
    n == WithVar(m, s)
  }

  lemma GotVarKept(m: Mem, n: Mem, s: Slot)
    requires WF(m, {}) && UNINIT in m.slots && !s.Elem? && GotVar(m, n, s)
    ensures WF(n, {}) && Kept(m, n, {s}, {}) && s in n.slots && n.slots[s] == LookUp(m, s)
  {
    if s in m.slots {
      KeptRefl(m);
    } else {
      GainedKept(m, s, m.slots[UNINIT], {});
    }
  }

  /** The converted values of arrays.c:339-341. */
  predicate Falsy(v: Value) {
    v == Plain(Null) || v == Plain(Bool(false)) || v == Plain(Str(""))
  }

  /** A non-empty string, on which array writes are a fatal error. */
  predicate IsText(v: Value) {
    v.Plain? && v.s.Str? && v.s.s != ""
  }

  /** Slot `s` was released and holds a new empty array. */
  ghost predicate Emptied(m: Mem, n: Mem, s: Slot) {
    && Kept(m, n, {s}, {}) && s in n.slots
    && n.slots[s] !in m.cells && n.slots[s] == m.next && n.next == m.next + 1 && IsArray(n, n.slots[s])
    && n.cells[n.slots[s]].refcount == 1 && !n.cells[n.slots[s]].isRef
    && ElemsOf(n, n.slots[s]) == {}
  }

  lemma EmptiedKept(m: Mem, p: Mem, s: Slot)
    requires WF(m, {}) && WF(p, {}) && s in m.slots && !s.Elem?
    requires Released(m, p, {s}) && WF(Born(p, s, Array), {}) && Kept(p, Born(p, s, Array), {s}, {})
    requires ElemsOf(Born(p, s, Array), p.next) == {}
    ensures Emptied(m, Born(p, s, Array), s)
  {
    ReleasedKept(m, p, {s});
    KeptTrans(m, p, Born(p, s, Array), {s}, {}, {s}, {}, {s}, {});
  }

  /** check_array_type (arrays.c:336-361). */
  ghost predicate ArrayChecked(m: Mem, n: Mem, s: Slot)
    requires s in m.slots && m.slots[s] in m.cells
  {
    var a := m.slots[s];
    if !Falsy(m.cells[a].value) then n == m
    else if m.cells[a].isRef then n == Refilled(m, a, Array)
    else Emptied(m, n, s)
  }

  lemma RefilledInPlace(m: Mem, a: Addr, v: Value)
    requires WF(m, {}) && a in m.cells && !IsArray(m, a)
    ensures WF(Refilled(m, a, v), {}) && Kept(m, Refilled(m, a, v), {}, {a})
    ensures ElemsOf(Refilled(m, a, v), a) == {}
  {
  }

  /** The entries of `c` are those of `a` before, and a missing `k` reads NULL now. */
  ghost predicate EntryTable(m: Mem, n: Mem, a: Addr, c: Addr, k: Key)
    requires UNINIT in m.slots
  {
    && Elem(c, k) in n.slots && n.slots[Elem(c, k)] == LookUp(m, Elem(a, k))
    && (forall j :: j != k ==> (Elem(c, j) in n.slots <==> Elem(a, j) in m.slots))
    && (forall j :: j != k && Elem(a, j) in m.slots && Elem(c, j) in n.slots ==>
         n.slots[Elem(c, j)] == m.slots[Elem(a, j)])
  }

  /** `c` is an array that may be written: the old cell `a` if that was possible, else a new one. */
  ghost predicate EntryCell(m: Mem, n: Mem, a: Addr, c: Addr) {
    && IsArray(n, c) && !InCopyOnWrite(n.cells[c])
    && (if c < m.next then c == a && a in m.cells && !InCopyOnWrite(m.cells[a])
                           && n.cells[c].isRef == m.cells[a].isRef && n.next == m.next
        else !n.cells[c].isRef && c == m.next && n.next == m.next + 1
             && (IsArray(m, a) ==> InCopyOnWrite(m.cells[a])))
  }

  /** get_ht_entry (arrays.c:208-244): the array of slot `s` may be written, and has an entry for `k`.  If
      that was so before, nothing changes. */
  ghost predicate EntryGot(m: Mem, n: Mem, s: Slot, k: Key)
    requires s in m.slots && s in n.slots && UNINIT in m.slots
  {
    && Kept(m, n, {s, Elem(n.slots[s], k)}, {})
    && EntryCell(m, n, m.slots[s], n.slots[s])
    && EntryTable(m, n, m.slots[s], n.slots[s], k)
    && (OwnArray(m, m.slots[s]) && Elem(m.slots[s], k) in m.slots ==> n == m)
    && (IsArray(m, m.slots[s]) ==> NoneFreed(m, n))
  }

  /** The array may be written without separating it. */
  ghost predicate OwnArray(m: Mem, a: Addr) {
    IsArray(m, a) && !InCopyOnWrite(m.cells[a])
  }

  /** The entry for `k` is found, or added with the uninitialised cell in it. */
  function WithEntry(m: Mem, c: Addr, k: Key): Mem
    requires UNINIT in m.slots && m.slots[UNINIT] in m.cells
  {
    if Elem(c, k) in m.slots then m else Gained(m, Elem(c, k), m.slots[UNINIT])
  }

  lemma WithEntryKept(m: Mem, c: Addr, k: Key)
    requires WF(m, {}) && UNINIT in m.slots && IsArray(m, c)
    ensures WF(WithEntry(m, c, k), {}) && Kept(m, WithEntry(m, c, k), {Elem(c, k)}, {})
  {
    if Elem(c, k) !in m.slots {
      GainedKept(m, Elem(c, k), m.slots[UNINIT], {});
    } else {
      KeptRefl(m);
    }
  }

  lemma EntryGotFrom(m: Mem, o: Mem, s: Slot, k: Key)
    requires s in m.slots && s in o.slots && UNINIT in m.slots && UNINIT in o.slots && o.slots[UNINIT] in o.cells
    requires !s.Elem? && (OwnArray(m, m.slots[s]) ==> o == m) && (IsArray(m, m.slots[s]) ==> NoneFreed(m, o))
    requires var c := o.slots[s]; var n := WithEntry(o, c, k);
      Kept(m, n, {s, Elem(c, k)}, {}) && EntryCell(m, n, m.slots[s], c) && EntryTable(m, n, m.slots[s], c, k)
    ensures var n := WithEntry(o, o.slots[s], k); s in n.slots && EntryGot(m, n, s, k)
  {
    hide Kept, EntryTable, EntryCell;
  }

  lemma EntryFromCell(m: Mem, o: Mem, a: Addr, c: Addr, k: Key)
    requires UNINIT in o.slots && o.slots[UNINIT] in o.cells && o.slots[UNINIT] != c && EntryCell(m, o, a, c)
    ensures EntryCell(m, WithEntry(o, c, k), a, c) && IsArray(o, c)
  {
  }

  /** From the array cell `c` of `o`, whose entries are those of `a` in `m`, to the entry. */
  lemma EntryFrom(m: Mem, o: Mem, s: Slot, k: Key)
    requires WF(m, {}) && WF(o, {}) && s in m.slots && s in o.slots && UNINIT in m.slots && UNINIT in o.slots
    requires Kept(m, o, {s}, {}) && o.slots[UNINIT] == m.slots[UNINIT] && o.slots[UNINIT] != o.slots[s]
    requires EntryCell(m, o, m.slots[s], o.slots[s])
    requires forall j :: SameEntryAs(m, m.slots[s], o, o.slots[s], j)
    requires !s.Elem? && (OwnArray(m, m.slots[s]) ==> o == m) && (IsArray(m, m.slots[s]) ==> NoneFreed(m, o))
    ensures var n := WithEntry(o, o.slots[s], k); WF(n, {}) && s in n.slots && EntryGot(m, n, s, k)
  {
    var c := o.slots[s];
    assert o.slots[UNINIT] in o.cells;
    hide Kept, WF, EntryTable, EntryCell, SameEntryAs, EntryGot;
    EntryFromCell(m, o, m.slots[s], c, k);
    WithEntryKept(o, c, k);
    EntryFromTable(m, o, m.slots[s], c, k);
    KeptTrans(m, o, WithEntry(o, c, k), {s}, {}, {Elem(c, k)}, {}, {s, Elem(c, k)}, {});
    EntryGotFrom(m, o, s, k);
  }

  lemma EntryIsArray(m: Mem, o: Mem, a: Addr, c: Addr)
    requires EntryCell(m, o, a, c)
    ensures IsArray(o, c)
  {
  }

  ghost predicate SameEntryAs(m: Mem, a: Addr, n: Mem, c: Addr, k: Key) {
    && (Elem(c, k) in n.slots <==> Elem(a, k) in m.slots)
    && (Elem(a, k) in m.slots ==> n.slots[Elem(c, k)] == m.slots[Elem(a, k)])
  }

  lemma EntryFromTable(m: Mem, o: Mem, a: Addr, c: Addr, k: Key)
    requires UNINIT in m.slots && UNINIT in o.slots && o.slots[UNINIT] == m.slots[UNINIT]
    requires o.slots[UNINIT] in o.cells
    requires forall j :: SameEntryAs(m, a, o, c, j)
    ensures EntryTable(m, WithEntry(o, c, k), a, c, k)
  {
    var n := WithEntry(o, c, k);
    assert SameEntryAs(m, a, o, c, k);
    forall j | j != k
      ensures Elem(c, j) in n.slots <==> Elem(a, j) in m.slots
      ensures Elem(a, j) in m.slots && Elem(c, j) in n.slots ==> n.slots[Elem(c, j)] == m.slots[Elem(a, j)]
    {
      assert SameEntryAs(m, a, o, c, j);
    }
  }

  /** A new empty array in the slot. */
  lemma EntryInEmptied(m: Mem, o: Mem, s: Slot)
    requires WF(m, {}) && WF(o, {}) && s in m.slots && !s.Elem? && s != UNINIT && UNINIT in m.slots
    requires Emptied(m, o, s) && !IsArray(m, m.slots[s])
    ensures UNINIT in o.slots && o.slots[UNINIT] == m.slots[UNINIT] && o.slots[UNINIT] != o.slots[s]
    ensures Kept(m, o, {s}, {}) && EntryCell(m, o, m.slots[s], o.slots[s])
    ensures forall j :: SameEntryAs(m, m.slots[s], o, o.slots[s], j)
  {
    assert Anchored(o, {}, UNINIT);
    forall j ensures SameEntryAs(m, m.slots[s], o, o.slots[s], j) {
      assert Elem(o.slots[s], j) in ElemsOf(o, o.slots[s]) <==> Elem(o.slots[s], j) in o.slots;
    }
  }

  /** The array separated if need be. */
  lemma EntryInSeparated(m: Mem, o: Mem, s: Slot)
    requires WF(m, {}) && WF(o, {}) && s in m.slots && !s.Elem? && s != UNINIT && UNINIT in m.slots
    requires Separated(m, o, s) && s in o.slots && !InCopyOnWrite(o.cells[o.slots[s]])
    requires IsArray(m, m.slots[s]) && !IsArray(m, m.slots[UNINIT])
    ensures NoneFreed(m, o)
    ensures UNINIT in o.slots && o.slots[UNINIT] == m.slots[UNINIT] && o.slots[UNINIT] != o.slots[s]
    ensures Kept(m, o, {s}, {}) && EntryCell(m, o, m.slots[s], o.slots[s])
    ensures forall j :: SameEntryAs(m, m.slots[s], o, o.slots[s], j)
  {
    if InCopyOnWrite(m.cells[m.slots[s]]) {
      assert Anchored(o, {}, UNINIT);
    } else {
      KeptRefl(m);
    }
  }

  lemma SoleHolder(m: Mem, s: Slot)
    requires WF(m, {}) && s in m.slots && m.cells[m.slots[s]].refcount == 1
    ensures Holders(m.slots, m.slots[s]) == {s}
  {
    var a := m.slots[s];
    if t :| t in Holders(m.slots, a) && t != s {
      TwoHolders(m, s, t);
    }
  }

  /** What every statement can rely on: counts are exact, no C local is in flight, and the shared
      uninitialised cell is NULL and no reference (misc.c:52-67). */
  ghost predicate Ready(m: Mem) {
    && WF(m, {}) && Local !in m.slots
    && UNINIT in m.slots && m.slots[UNINIT] in m.cells
    && m.cells[m.slots[UNINIT]].value == Plain(Null) && !m.cells[m.slots[UNINIT]].isRef
  }

  lemma ReadyKept(m: Mem, n: Mem, named: set<Slot>, hot: set<Addr>)
    requires Ready(m) && WF(n, {}) && Local !in n.slots
    requires Kept(m, n, named, hot) && Private(m, named, hot) && UNINIT !in named
    ensures Ready(n)
  {
    CleanReadsKept(m, n, named, hot, UNINIT, []);
  }

  /** A slot with the only pointer to a cell, or a pointer to a reference, may be named alone. */
  lemma PrivateRoots(m: Mem, named: set<Slot>)
    requires forall s :: s in named ==> !s.Elem?
    ensures Private(m, named, {})
  {
  }

  lemma PrivateEntry(m: Mem, n: Mem, s: Slot, k: Key)
    requires WF(m, {}) && WF(n, {}) && s in m.slots && s in n.slots && UNINIT in m.slots && !s.Elem?
    requires EntryCell(m, n, m.slots[s], n.slots[s])
    ensures Private(m, {s, Elem(n.slots[s], k)}, {})
  {
    var c := n.slots[s];
    if c in m.cells && !m.cells[c].isRef {
      SoleHolder(m, s);
    }
  }

  /** An index that the engine may give to the next entry of `c`: it keeps a counter above all that
      the table has had, which may be higher than those there are, and 0 for a new table. */
  predicate IsNext(m: Mem, c: Addr, k: Key) {
    && k.Index? && k.n >= 0 && (!IsArray(m, c) ==> k.n == 0)
    && forall s :: s in m.slots && s.Elem? && s.owner == c && s.key.Index? ==> s.key.n < k.n
  }

  /** The outcome of `$x[] = ...`: an entry, a warning, or a fatal error. */
  datatype Pushed = Entry | Refused | Fatal

  function PushResult(v: Value): Pushed {
    match v
    case Plain(Str(t)) => if t == "" then Entry else Fatal
    case Plain(Bool(b)) => if b then Refused else Entry
    case Plain(Long(_)) => Refused
    case Plain(Double(_)) => Refused
    case Plain(Null) => Entry
    case Array => Entry
  }

  // ---------------------------------------------------------------------------------------
  // Removing and converting
  // ---------------------------------------------------------------------------------------

  /** A slot was emptied, and its pointer released. */
  ghost predicate Removed(m: Mem, n: Mem, s: Slot) {
    Kept(m, n, {s}, {}) && s !in n.slots && (s !in m.slots ==> n == m) && n.next == m.next
  }

  lemma RemovedLocal(m: Mem, n: Mem, s: Slot)
    requires Released(m, n, {s}) && WF(m, {}) && WF(n, {}) && s in m.slots
    ensures Removed(m, n, s) && (Local !in m.slots ==> Local !in n.slots)
  {
    ReleasedKept(m, n, {s});
  }

  datatype Kind = KNull | KLong | KDouble | KBool | KArray | KString

  function KindOf(v: Value): Kind {
    match v
    case Array => KArray
    case Plain(Null) => KNull
    case Plain(Bool(_)) => KBool
    case Plain(Long(_)) => KLong
    case Plain(Double(_)) => KDouble
    case Plain(Str(_)) => KString
  }

  /** What the engine's convert_to_* makes of a scalar, and of an array by whether it is empty. */
  datatype Conversions = Conversions(ofScalar: (Scalar, Kind) -> Scalar, ofArray: (bool, Kind) -> Scalar)

  function ScalarOf(m: Mem, a: Addr, kind: Kind, conv: Conversions): Scalar
    requires a in m.cells
  {
    match m.cells[a].value
    case Plain(x) => conv.ofScalar(x, kind)
    case Array => conv.ofArray(ElemsOf(m, a) == {}, kind)
  }

  /** The cell `a` was converted in place: to a scalar; or to an array, empty for NULL and with the
      scalar as its only entry otherwise. */
  ghost predicate Converted(m: Mem, n: Mem, a: Addr, kind: Kind, conv: Conversions) {
    && Kept(m, n, {}, {a}) && a in m.cells && a in n.cells
    && (if kind != KArray then
          && n.cells[a].value == Plain(ScalarOf(m, a, kind, conv))
          && ElemsOf(n, a) == {} && n.next == m.next
        else
          && n.cells[a].value == Array
          && (m.cells[a].value == Plain(Null) ==> ElemsOf(n, a) == {} && n.next == m.next)
          && (m.cells[a].value.Plain? && m.cells[a].value != Plain(Null) ==>
               && ElemsOf(n, a) == {Elem(a, Index(0))} && n.next == m.next + 1
               && n.slots[Elem(a, Index(0))] == m.next
               && n.slots[Elem(a, Index(0))] in n.cells
               && n.cells[n.slots[Elem(a, Index(0))]] == Zval(1, false, m.cells[a].value)))
  }

  lemma ConvertedToScalar(m: Mem, p: Mem, a: Addr, kind: Kind, conv: Conversions, n: Mem)
    requires WF(m, {}) && WF(p, {}) && a in m.cells && a in p.cells && kind != KArray && Local !in m.slots
    requires Released(Refilled(m, a, Plain(Null)), p, ElemsOf(m, a)) && ElemsOf(p, a) == {}
    requires n == Refilled(p, a, Plain(ScalarOf(m, a, kind, conv)))
    ensures WF(n, {}) && Converted(m, n, a, kind, conv) && Local !in n.slots
  {
    hide Kept, WF, ScalarOf;
    var v := Plain(ScalarOf(m, a, kind, conv));
    RefilledKept(m, p, a, v);
    RefilledWF(p, a, v);
  }

  lemma ConvertedToArray(m: Mem, a: Addr, conv: Conversions, o: Mem, n: Mem)
    requires WF(m, {}) && a in m.cells && m.cells[a].value.Plain? && Local !in m.slots
    requires o == Refilled(m, a, Array)
    requires n == if m.cells[a].value == Plain(Null) then o else Born(o, Elem(a, Index(0)), m.cells[a].value)
    requires WF(n, {})
    ensures Converted(m, n, a, KArray, conv) && Local !in n.slots
  {
    RefilledInPlace(m, a, Array);
    if m.cells[a].value != Plain(Null) {
      var e := Elem(a, Index(0));
      assert e !in ElemsOf(o, a);
      BornKept(o, e, m.cells[a].value);
      OneEntry(o, a, Index(0), m.cells[a].value);
      ConvertedFrame(m, o, n, a, e);
    }
  }

  lemma ConvertedFrame(m: Mem, o: Mem, n: Mem, a: Addr, e: Slot)
    requires WF(m, {}) && WF(o, {}) && WF(n, {}) && e.Elem? && e.owner == a
    requires Kept(m, o, {}, {a}) && Kept(o, n, {e}, {})
    ensures Kept(m, n, {}, {a})
  {
    hide Kept, WF;
    KeptTrans(m, o, n, {}, {a}, {e}, {}, {} + {e}, {a});
    KeptInHot(m, n, {}, {a}, e);
  }

  /** An entry of a rewritten table need not be named. */
  lemma KeptInHot(m: Mem, n: Mem, named: set<Slot>, hot: set<Addr>, e: Slot)
    requires Kept(m, n, named + {e}, hot) && e.Elem? && e.owner in hot
    ensures Kept(m, n, named, hot)
  {
  }

  lemma OneEntry(o: Mem, a: Addr, k: Key, v: Value)
    requires ElemsOf(o, a) == {}
    ensures ElemsOf(Born(o, Elem(a, k), v), a) == {Elem(a, k)}
  {
    assert ElemsOf(Born(o, Elem(a, k), v), a) == ElemsOf(o, a) + {Elem(a, k)};
  }
}
