/**
 What releasing pointers frees, exactly.  A cell goes when its last pointer does, and an array takes
 its entries along; so a cell stays when a set of cells around it keeps itself up without the
 released slots.  A ring of arrays that nobody else holds keeps itself up: counting does not find it.
*/
module ZvalRelease {
  import opened ZvalHeap

  /** Cell `a` has a holder that is not given up, and that goes with none but cells of `kept`. */
  ghost predicate HeldUp(m: Mem, gone: set<Slot>, kept: set<Addr>, a: Addr) {
    exists s :: s in m.slots && m.slots[s] == a && s !in gone && (s.Elem? ==> s.owner in kept)
  }

  ghost predicate Supported(m: Mem, gone: set<Slot>, kept: set<Addr>) {
    kept <= m.cells.Keys && forall a :: a in kept ==> HeldUp(m, gone, kept, a)
  }

  /** `a` outlives the release of the slots `gone`. */
  ghost predicate Lives(m: Mem, gone: set<Slot>, a: Addr) {
    exists kept :: Supported(m, gone, kept) && a in kept
  }

  ghost predicate Doomed(m: Mem, gone: set<Slot>, a: Addr) {
    a in m.cells && !Lives(m, gone, a)
  }

  ghost predicate SlotLives(m: Mem, gone: set<Slot>, s: Slot) {
    s in m.slots && s !in gone && (s.Elem? ==> Lives(m, gone, s.owner))
  }

  /** The reference cell `r` keeps two holders. */
  ghost predicate StaysRef(m: Mem, gone: set<Slot>, r: Addr) {
    IsRef(m, r) && exists s, t :: s != t && SlotLives(m, gone, s) && SlotLives(m, gone, t)
                                  && m.slots[s] == r && m.slots[t] == r
  }

  /** The doomed cells are those whose holders are all given up or entries of doomed arrays. */
  lemma DoomedHolders(m: Mem, gone: set<Slot>, a: Addr)
    requires NoDangling(m) && a in m.cells
    requires forall s :: s in m.slots && s.Elem? ==> s.owner in m.cells
    ensures Doomed(m, gone, a) <==>
            forall s :: s in m.slots && m.slots[s] == a ==> s in gone || (s.Elem? && Doomed(m, gone, s.owner))
  {
    if Lives(m, gone, a) {
      var kept :| Supported(m, gone, kept) && a in kept;
      assert HeldUp(m, gone, kept, a);
    }
    if s :| s in m.slots && m.slots[s] == a && s !in gone && !(s.Elem? && Doomed(m, gone, s.owner)) {
      HeldLives(m, gone, s);
    }
  }

  /** A slot that stays keeps its cell. */
  lemma HeldLives(m: Mem, gone: set<Slot>, s: Slot)
    requires NoDangling(m) && SlotLives(m, gone, s)
    ensures Lives(m, gone, m.slots[s])
  {
    var kept: set<Addr> := {};
    if s.Elem? {
      kept :| Supported(m, gone, kept) && s.owner in kept;
    }
    var all := kept + {m.slots[s]};
    forall a | a in all ensures HeldUp(m, gone, all, a) {
      if a in kept {
        assert HeldUp(m, gone, kept, a);
      } else {
        assert s in m.slots && m.slots[s] == a;
      }
    }
    assert Supported(m, gone, all);
  }

  /** While each released cell has other holders, nothing is freed. */
  lemma AllLive(m: Mem, s: Slot, a: Addr, loose: set<Addr>)
    requires WF(m, loose) && s in m.slots && m.cells[m.slots[s]].refcount >= 2 && a in m.cells
    requires forall t :: t in m.slots && t.Elem? ==> t.owner in m.cells
    ensures Lives(m, {s}, a)
  {
    forall b | b in m.cells.Keys ensures HeldUp(m, {s}, m.cells.Keys, b) {
      OtherHolder(m, s, b, loose);
    }
    assert Supported(m, {s}, m.cells.Keys);
  }

  lemma OtherHolder(m: Mem, s: Slot, b: Addr, loose: set<Addr>)
    requires WF(m, loose) && s in m.slots && b in m.cells
    requires m.slots[s] == b ==> m.cells[b].refcount >= 2
    ensures exists t :: t in m.slots && m.slots[t] == b && t != s
  {
    var rest := Holders(m.slots, b) - {s};
    assert m.slots[s] == b ==> Holders(m.slots, b) == rest + {s};
    assert m.slots[s] != b ==> Holders(m.slots, b) == rest;
    assert rest != {};
    var t :| t in rest;
  }

  // ---------------------------------------------------------------------------------------
  // The release
  // ---------------------------------------------------------------------------------------

  /** What is held up was not freed. */
  ghost predicate Spares(m: Mem, n: Mem, gone: set<Slot>) {
    forall kept: set<Addr> :: Supported(m, gone, kept) ==> kept <= n.cells.Keys
  }

  lemma SparesAll(m: Mem, n: Mem, gone: set<Slot>)
    requires m.cells.Keys <= n.cells.Keys
    ensures Spares(m, n, gone)
  {
  }

  lemma SparesTrans(m: Mem, n: Mem, o: Mem, g: set<Slot>, h: set<Slot>)
    requires Released(m, n, g) && Spares(m, n, g) && Spares(n, o, h)
    ensures Spares(m, o, g + h)
  {
    forall kept: set<Addr> | Supported(m, g + h, kept) ensures kept <= o.cells.Keys {
      forall a | a in kept ensures HeldUp(m, g, kept, a) {
        assert HeldUp(m, g + h, kept, a);
      }
      assert Supported(m, g, kept);
      forall a | a in kept ensures HeldUp(n, h, kept, a) {
        assert HeldUp(m, g + h, kept, a);
        var s :| s in m.slots && m.slots[s] == a && s !in g + h && (s.Elem? ==> s.owner in kept);
        assert !Orphan(m, n, s);
        assert s in n.slots;
      }
      assert Supported(n, h, kept);
    }
  }

  lemma TornSpares(m: Mem, o: Mem, n: Mem, a: Addr, gone: set<Slot>, s: Slot)
    requires Torn(m, o, a, gone) && Spares(m, o, gone) && Spares(o, n, {s})
    ensures Spares(m, n, gone + {s})
  {
    SparesTrans(m, o, n, gone, {s});
  }

  /** The last pointer to a cell goes, and then the table of the cell. */
  lemma SparesTable(m: Mem, s: Slot, n: Mem, o: Mem)
    requires s in m.slots && m.slots[s] in m.cells && m.cells[m.slots[s]].refcount == 1 && CellsCounted(m)
    requires n == Mem(m.cells - {m.slots[s]}, m.slots - {s}, m.next)
    requires Spares(n, o, ElemsOf(n, m.slots[s]))
    ensures Spares(m, o, {s})
  {
    var a := m.slots[s];
    forall kept: set<Addr> | Supported(m, {s}, kept) ensures kept <= o.cells.Keys {
      LastHolder(m, s, kept);
      forall b | b in kept ensures HeldUp(n, ElemsOf(n, a), kept, b) {
        assert HeldUp(m, {s}, kept, b);
        var t :| t in m.slots && m.slots[t] == b && t !in {s} && (t.Elem? ==> t.owner in kept);
        assert t in n.slots && t !in ElemsOf(n, a);
      }
      assert Supported(n, ElemsOf(n, a), kept);
    }
  }

  lemma LastHolder(m: Mem, s: Slot, kept: set<Addr>)
    requires s in m.slots && m.slots[s] in m.cells && m.cells[m.slots[s]].refcount == 1 && CellsCounted(m)
    requires Supported(m, {s}, kept)
    ensures m.slots[s] !in kept
  {
    var a := m.slots[s];
    if a in kept {
      assert HeldUp(m, {s}, kept, a);
      var t :| t in m.slots && m.slots[t] == a && t != s;
      SubsetSize({s, t}, Holders(m.slots, a));
    }
  }

  /** Without a table there is nothing more to give up. */
  lemma SparesLast(m: Mem, s: Slot, n: Mem)
    requires s in m.slots && m.slots[s] in m.cells && m.cells[m.slots[s]].refcount == 1 && CellsCounted(m)
    requires n == Mem(m.cells - {m.slots[s]}, m.slots - {s}, m.next)
    ensures Spares(m, n, {s})
  {
    forall kept: set<Addr> | Supported(m, {s}, kept) ensures kept <= n.cells.Keys {
      LastHolder(m, s, kept);
    }
  }

  /** The memory after a release, as a function of the one before. */
  ghost function After(m: Mem, gone: set<Slot>): Mem {
    var slots := map s | s in m.slots && SlotLives(m, gone, s) :: m.slots[s];
    Mem(map a | a in m.cells && Lives(m, gone, a) ::
          Zval(|Holders(slots, a)|, m.cells[a].isRef && |Holders(slots, a)| >= 2, m.cells[a].value),
        slots, m.next)
  }

  /** A release frees exactly the doomed cells. */
  lemma FreesDoomed(m: Mem, n: Mem, gone: set<Slot>, a: Addr)
    requires WF(n, {}) && Released(m, n, gone) && Spares(m, n, gone) && a in m.cells
    ensures a !in n.cells <==> Doomed(m, gone, a)
  {
    if a in n.cells {
      forall b | b in n.cells.Keys ensures HeldUp(m, gone, n.cells.Keys, b) {
        assert Holders(n.slots, b) != {};
        var s :| s in Holders(n.slots, b);
        assert s in m.slots && m.slots[s] == b && s !in gone;
      }
      assert forall b :: b in n.cells.Keys ==> b in m.cells.Keys;
      assert Supported(m, gone, n.cells.Keys);
    }
  }

  /** Nothing about a release is left open. */
  lemma ReleaseExactly(m: Mem, n: Mem, gone: set<Slot>)
    requires WF(n, {}) && Released(m, n, gone) && Spares(m, n, gone)
    requires forall s :: s in m.slots && s.Elem? ==> IsArray(m, s.owner)
    ensures n == After(m, gone)
  {
    forall a | a in m.cells ensures a in n.cells <==> Lives(m, gone, a) {
      FreesDoomed(m, n, gone, a);
    }
    forall s | s in m.slots ensures s in n.slots <==> SlotLives(m, gone, s) {
      assert s !in n.slots <==> s in gone || Orphan(m, n, s);
    }
    assert n.slots == After(m, gone).slots;
    forall a | a in n.cells ensures n.cells[a] == After(m, gone).cells[a] {
      assert a in m.cells;
    }
    assert n.cells.Keys == After(m, gone).cells.Keys;
  }
}
