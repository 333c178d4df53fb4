/**
 The memory of a running PHP program as the runtime sees it: reference-counted cells (`zval`),
 and the slots that point at them.  Symbol tables, the entries of an array's hash table, the
 engine's own fixed pointers and one C local are all slots.

 A hash table belongs to exactly one cell, so an array entry is named by the cell that owns the
 table and by its key.
*/
module ZvalHeap {

  type Addr = int

  datatype Key = Index(n: int) | Name(s: string)

  datatype Scalar = Null | Bool(b: bool) | Long(n: int) | Double(d: real) | Str(s: string)

  datatype Value = Plain(s: Scalar) | Array

  datatype Zval = Zval(refcount: int, isRef: bool, value: Value)

  /** A variable of the symbol table numbered `table`. */
  datatype Variable = Variable(table: nat, name: string)

  datatype Slot = Var(v: Variable) | Elem(owner: Addr, key: Key) | Fixed(id: nat) | Local

  /** `next` is the first address not handed out yet. */
  datatype Mem = Mem(cells: map<Addr, Zval>, slots: map<Slot, Addr>, next: Addr)

  /** The slot that holds EG(uninitialized_zval_ptr). */
  const UNINIT := Fixed(0)

  // ---------------------------------------------------------------------------------------
  // Invariant
  // ---------------------------------------------------------------------------------------

  ghost function Holders(slots: map<Slot, Addr>, a: Addr): set<Slot> {
    set s | s in slots && slots[s] == a
  }

  /** Every live cell is counted exactly, is held by someone, and is marked as a reference only
      while it has two holders. */
  ghost predicate CellsCounted(m: Mem) {
    forall a :: a in m.cells ==>
      && a < m.next
      && 1 <= m.cells[a].refcount == |Holders(m.slots, a)|
      && (m.cells[a].isRef ==> m.cells[a].refcount >= 2)
  }

  ghost predicate NoDangling(m: Mem) {
    forall s :: s in m.slots ==> m.slots[s] in m.cells
  }

  /** Array entries belong to live arrays, or to a table that is being taken apart. */
  ghost predicate TablesOwned(m: Mem, loose: set<Addr>) {
    forall s :: s in m.slots && s.Elem? ==>
      s.owner < m.next && (s.owner in loose || IsArray(m, s.owner))
  }

  ghost predicate WF(m: Mem, loose: set<Addr>) {
    CellsCounted(m) && NoDangling(m) && TablesOwned(m, loose)
  }

  predicate IsArray(m: Mem, a: Addr) {
    a in m.cells && m.cells[a].value.Array?
  }

  ghost predicate IsRef(m: Mem, a: Addr) {
    a in m.cells && m.cells[a].isRef
  }

  /** The copy-on-write test of zval.c:17-21. */
  predicate InCopyOnWrite(z: Zval) {
    z.refcount > 1 && !z.isRef
  }

  // ---------------------------------------------------------------------------------------
  // Counting
  // ---------------------------------------------------------------------------------------

  lemma TwoIn(h: set<Slot>) returns (s: Slot, t: Slot)
    requires |h| >= 2
    ensures s in h && t in h && s != t
  {
    s :| s in h;
    assert |h - {s}| == |h| - 1;
    t :| t in h - {s};
  }

  lemma HoldersDrop(slots: map<Slot, Addr>, s: Slot, a: Addr)
    requires s in slots
    ensures |Holders(slots - {s}, a)| == |Holders(slots, a)| - (if slots[s] == a then 1 else 0)
  {
    assert Holders(slots - {s}, a) == Holders(slots, a) - {s};
  }

  lemma HoldersAdd(slots: map<Slot, Addr>, s: Slot, b: Addr, a: Addr)
    requires s !in slots
    ensures |Holders(slots[s := b], a)| == |Holders(slots, a)| + (if b == a then 1 else 0)
  {
    if b == a {
      assert Holders(slots[s := b], a) == Holders(slots, a) + {s};
    } else {
      assert Holders(slots[s := b], a) == Holders(slots, a);
    }
  }

  lemma SubsetSize(small: set<Slot>, big: set<Slot>)
    requires small <= big
    ensures |small| <= |big|
  {
    assert big == small + (big - small);
  }

  lemma NoHolders(slots: map<Slot, Addr>, a: Addr)
    requires |Holders(slots, a)| == 0
    ensures forall s :: s in slots ==> slots[s] != a
  {
    assert Holders(slots, a) == {};
    forall s | s in slots ensures slots[s] != a {
      assert s in Holders(slots, a) <==> slots[s] == a;
    }
  }

  lemma NextFree(m: Mem)
    requires WF(m, {})
    ensures m.next !in m.cells && forall s :: s in m.slots ==> m.slots[s] != m.next
  {
  }

  lemma HeldCounted(m: Mem, s: Slot, loose: set<Addr>)
    requires WF(m, loose) && s in m.slots
    ensures m.slots[s] in m.cells && m.cells[m.slots[s]].refcount >= 1
    ensures IsRef(m, m.slots[s]) ==> m.cells[m.slots[s]].refcount >= 2
  {
    assert s in Holders(m.slots, m.slots[s]);
  }

  // ---------------------------------------------------------------------------------------
  // Releasing slots
  // ---------------------------------------------------------------------------------------

  /** `n` is `m` after the slots `gone` gave up their reference: cells that lost their last holder
      are freed together with their tables, and nothing else changes except that a reference
      left with one holder stops being a reference. */
  ghost predicate Released(m: Mem, n: Mem, gone: set<Slot>) {
    && m.next == n.next
    && (forall a :: a in n.cells ==> a in m.cells)
    && (forall a :: a in n.cells && a in m.cells ==>
         && n.cells[a].value == m.cells[a].value
         && n.cells[a].refcount <= m.cells[a].refcount
         && n.cells[a].isRef == (m.cells[a].isRef && n.cells[a].refcount >= 2))
    && (forall s :: s in n.slots ==> s in m.slots && n.slots[s] == m.slots[s])
    && (forall s :: s in m.slots ==> (s !in n.slots <==> s in gone || Orphan(m, n, s)))
  }

  /** `a` lost one of several holders; no other cell changed. */
  ghost predicate OneLess(m: Mem, n: Mem, a: Addr)
    requires a in m.cells
  {
    var z := m.cells[a];
    n.cells == m.cells[a := Zval(z.refcount - 1, z.isRef && z.refcount > 2, z.value)]
  }

  lemma OneLessKeys(m: Mem, n: Mem, a: Addr)
    requires a in m.cells && OneLess(m, n, a)
    ensures n.cells.Keys == m.cells.Keys
    ensures n.cells[a].isRef == (m.cells[a].isRef && m.cells[a].refcount > 2)
  {
  }

  /** An entry of an array that was freed on the way from `m` to `n`. */
  ghost predicate Orphan(m: Mem, n: Mem, s: Slot) {
    s.Elem? && IsArray(m, s.owner) && s.owner !in n.cells
  }

  lemma ReleasedRefl(m: Mem)
    requires CellsCounted(m)
    ensures Released(m, m, {})
  {
  }

  lemma ReleasedTrans(m: Mem, n: Mem, o: Mem, g: set<Slot>, h: set<Slot>)
    requires Released(m, n, g) && Released(n, o, h)
    ensures Released(m, o, g + h)
  {
    forall s | s in m.slots ensures s !in o.slots <==> s in g + h || Orphan(m, o, s) {
      if s in n.slots {
        assert Orphan(n, o, s) <==> Orphan(m, o, s);
      }
    }
  }

  lemma ReleasedSlots(m: Mem, n: Mem, gone: set<Slot>)
    requires Released(m, n, gone)
    ensures n.slots.Keys <= m.slots.Keys && (gone <= m.slots.Keys ==> n.slots.Keys <= m.slots.Keys - gone)
    ensures |n.slots.Keys| <= |m.slots.Keys|
    ensures forall a :: !IsArray(m, a) ==> ElemsOf(m, a) - gone <= ElemsOf(n, a) <= ElemsOf(m, a)
    ensures forall a :: !IsArray(m, a) ==> !IsArray(n, a)
  {
    SubsetSize(n.slots.Keys, m.slots.Keys);
    forall a, s | !IsArray(m, a) && s in ElemsOf(m, a) - gone ensures s in ElemsOf(n, a) {
      assert !Orphan(m, n, s);
    }
  }

  function ElemsOf(m: Mem, a: Addr): set<Slot> {
    set s | s in m.slots && s.Elem? && s.owner == a
  }

  /** The table of `a` has lost the entries `gone` so far. */
  ghost predicate Torn(m: Mem, n: Mem, a: Addr, gone: set<Slot>) {
    !IsArray(n, a) && gone <= ElemsOf(m, a) && Released(m, n, gone)
  }

  lemma TornStart(m: Mem, a: Addr, loose: set<Addr>)
    requires WF(m, loose) && !IsArray(m, a)
    ensures Torn(m, m, a, {})
  {
    ReleasedRefl(m);
  }

  lemma TornStep(m: Mem, o: Mem, n: Mem, a: Addr, gone: set<Slot>, s: Slot)
    requires !IsArray(m, a) && Torn(m, o, a, gone) && Released(o, n, {s})
    requires s in o.slots && s.Elem? && s.owner == a
    ensures Torn(m, n, a, gone + {s})
    ensures |n.slots.Keys| < |o.slots.Keys|
  {
    ReleasedSlots(m, o, gone);
    ReleasedSlots(o, n, {s});
    ReleasedTrans(m, o, n, gone, {s});
    SubsetSize(n.slots.Keys, o.slots.Keys - {s});
  }

  lemma TornDone(m: Mem, n: Mem, a: Addr, gone: set<Slot>, loose: set<Addr>)
    requires !IsArray(m, a) && Torn(m, n, a, gone) && WF(n, loose)
    requires forall s :: s in n.slots && s.Elem? ==> s.owner != a
    ensures Released(m, n, ElemsOf(m, a)) && WF(n, loose - {a}) && ElemsOf(n, a) == {} && gone == ElemsOf(m, a)
  {
    ReleasedSlots(m, n, gone);
    assert ElemsOf(n, a) == {};
    assert gone == ElemsOf(m, a);
  }

  /** One slot gives up its reference to a cell that keeps other holders. */
  lemma DropShared(m: Mem, s: Slot, loose: set<Addr>, n: Mem)
    requires WF(m, loose) && s in m.slots
    requires m.cells[m.slots[s]].refcount > 1
    requires var z := m.cells[m.slots[s]];
             n == Mem(m.cells[m.slots[s] := Zval(z.refcount - 1, z.isRef && z.refcount > 2, z.value)],
                      m.slots - {s}, m.next)
    ensures WF(n, loose) && Released(m, n, {s})
  {
    forall a | a in n.cells ensures 1 <= n.cells[a].refcount == |Holders(n.slots, a)| {
      HoldersDrop(m.slots, s, a);
    }
  }

  /** The last slot on a cell gives it up: the cell is freed and its table, if any, is loose. */
  lemma DropLast(m: Mem, s: Slot, loose: set<Addr>, n: Mem)
    requires WF(m, loose) && s in m.slots
    requires m.cells[m.slots[s]].refcount == 1
    requires n == Mem(m.cells - {m.slots[s]}, m.slots - {s}, m.next)
    ensures WF(n, loose + {m.slots[s]})
    ensures m.cells[m.slots[s]].value.Array? || (WF(n, loose) && Released(m, n, {s}))
  {
    var a := m.slots[s];
    HoldersDrop(m.slots, s, a);
    NoHolders(n.slots, a);
    forall b | b in n.cells ensures 1 <= n.cells[b].refcount == |Holders(n.slots, b)| {
      HoldersDrop(m.slots, s, b);
    }
  }

  lemma LooseMore(m: Mem, loose: set<Addr>, more: set<Addr>)
    requires WF(m, loose) && loose <= more
    ensures WF(m, more)
  {
  }

  /** Freeing a cell and then taking its table apart releases the one slot that held it. */
  lemma DropLastTable(m: Mem, s: Slot, n: Mem, o: Mem)
    requires s in m.slots && NoDangling(m) && CellsCounted(m) && CellsCounted(o)
    requires n == Mem(m.cells - {m.slots[s]}, m.slots - {s}, m.next)
    requires CellsCounted(n)
    requires m.cells[m.slots[s]].value.Array?
    requires Released(n, o, ElemsOf(n, m.slots[s]))
    ensures Released(m, o, {s})
  {
    var a := m.slots[s];
    forall t | t in m.slots ensures t !in o.slots <==> t in {s} || Orphan(m, o, t) {
      if t in n.slots {
        assert Orphan(n, o, t) ==> Orphan(m, o, t);
        if Orphan(m, o, t) && t.owner != a {
          assert Orphan(n, o, t);
        }
      }
    }
  }
}
