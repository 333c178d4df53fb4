/**
 Reference sets of variables that an operation does not name: no operation makes anybody join them.
*/
module ZvalSets {
  import opened ZvalHeap
  import opened ZvalFrame
  import opened ZvalSteps

  /** Only a named slot, or an entry of a new or rewritten table, may have a new cell. */
  lemma OnlyNewJoin(m: Mem, n: Mem, named: set<Slot>, hot: set<Addr>, roots: set<Slot>)
    requires Kept(m, n, named, hot)
    requires forall t :: t in n.slots && (t in named || (t.Elem? && (t.owner >= m.next || t.owner in hot))) ==>
      (t in m.slots && m.slots[t] == n.slots[t]) || !Aloof(m, n.slots[t], roots)
    ensures Unjoined(m, n, roots)
  {
  }

  /** A cell that an entry holds, or a new one, is no such set. */
  lemma NotAloof(m: Mem, s: Slot, roots: set<Slot>)
    requires s in m.slots && (s.Elem? || s in roots)
    ensures !Aloof(m, m.slots[s], roots)
  {
  }

  lemma NewNotAloof(m: Mem, a: Addr, roots: set<Slot>)
    requires WF(m, {}) && a >= m.next
    ensures !Aloof(m, a, roots)
  {
  }

  lemma UnjoinedRefl(m: Mem, roots: set<Slot>)
    ensures Unjoined(m, m, roots)
  {
  }

  lemma GotVarUnjoined(m: Mem, n: Mem, s: Slot)
    requires Ready(m) && GotVar(m, n, s)
    ensures Unjoined(m, n, {s})
  {
  }

  lemma BornUnjoined(m: Mem, s: Slot, v: Value, roots: set<Slot>)
    requires WF(m, {})
    ensures Unjoined(m, Born(m, s, v), roots)
  {
  }

  lemma ClonedUnjoined(m: Mem, n: Mem, named: set<Slot>, s: Slot, r: Addr, roots: set<Slot>)
    requires WF(m, {}) && WF(n, {}) && Kept(m, n, named, {}) && named <= {s} && FreshClone(m, n, s, r)
    ensures Unjoined(m, n, roots)
  {
    forall t | t in n.slots && (t in named || (t.Elem? && t.owner >= m.next))
      ensures !Aloof(m, n.slots[t], roots)
    {
      hide CellsCounted, NoDangling;
      if t == s {
        NewNotAloof(m, n.slots[t], roots);
      } else {
        assert t.owner == n.slots[s] && t == Elem(t.owner, t.key);
        NotAloof(m, Elem(r, t.key), roots);
      }
    }
    OnlyNewJoin(m, n, named, {}, roots);
  }

  lemma SeparatedUnjoined(m: Mem, n: Mem, s: Slot, roots: set<Slot>)
    requires WF(m, {}) && WF(n, {}) && s in m.slots && Separated(m, n, s)
    ensures Unjoined(m, n, roots)
  {
    if n != m {
      ClonedUnjoined(m, n, {s}, s, m.slots[s], roots);
    }
  }

  lemma EmptiedUnjoined(m: Mem, n: Mem, s: Slot, roots: set<Slot>)
    requires WF(m, {}) && WF(n, {}) && s in m.slots && !s.Elem? && Emptied(m, n, s)
    ensures Unjoined(m, n, roots)
  {
    forall t | t in n.slots && t.Elem? ensures t.owner != n.slots[s] {
      assert t in ElemsOf(n, t.owner);
    }
    NewNotAloof(m, n.slots[s], roots);
    OnlyNewJoin(m, n, {s}, {}, roots);
  }

  lemma EntryUnjoined(m: Mem, n: Mem, s: Slot, k: Key)
    requires Ready(m) && WF(n, {}) && s in m.slots && s in n.slots && EntryGot(m, n, s, k)
    ensures Unjoined(m, n, {s})
  {
    var a, c := m.slots[s], n.slots[s];
    forall t | t in n.slots && (t == s || t == Elem(c, k) || (t.Elem? && t.owner >= m.next))
      ensures (t in m.slots && m.slots[t] == n.slots[t]) || !Aloof(m, n.slots[t], {s})
    {
      hide CellsCounted;
      if t == s {
        if c >= m.next {
          NewNotAloof(m, c, {s});
        }
      } else if t.key == k {
        if Elem(a, k) in m.slots {
          NotAloof(m, Elem(a, k), {s});
        }
      } else {
        assert t.owner == c && t == Elem(c, t.key);
        NotAloof(m, Elem(a, t.key), {s});
      }
    }
    OnlyNewJoin(m, n, {s, Elem(c, k)}, {}, {s});
  }

  lemma OverwrittenUnjoined(m: Mem, n: Mem, a: Addr, r: Addr, roots: set<Slot>)
    requires WF(m, {}) && WF(n, {}) && Overwritten(m, n, a, r)
    ensures Unjoined(m, n, roots)
  {
    forall t | t in n.slots && t.Elem? && (t.owner >= m.next || t.owner == a) ensures !Aloof(m, n.slots[t], roots) {
      assert t == Elem(a, t.key);
      NotAloof(m, Elem(r, t.key), roots);
    }
    OnlyNewJoin(m, n, {}, {a}, roots);
  }

  lemma WrittenUnjoined(m: Mem, n: Mem, l: Slot, r: Addr, roots: set<Slot>)
    requires WF(m, {}) && WF(n, {}) && l in m.slots && (l.Elem? || l in roots) && Written(m, n, l, r)
    ensures Unjoined(m, n, roots)
  {
    if IsRef(m, m.slots[l]) {
      OverwrittenUnjoined(m, n, m.slots[l], r, roots);
    } else if IsRef(n, r) {
      ClonedUnjoined(m, n, {l}, l, r, roots);
    } else {
      if Aloof(m, r, roots) {
        AloofStays(m, n, {l}, {}, r, roots);
      }
      OnlyNewJoin(m, n, {l}, {}, roots);
    }
  }

  lemma RefCopiedUnjoined(m: Mem, n: Mem, l: Slot, r: Slot, roots: set<Slot>)
    requires WF(m, {}) && WF(n, {}) && l in m.slots && r in m.slots && RefCopied(m, n, l, r)
    requires r.Elem? || r in roots
    ensures Unjoined(m, n, roots)
  {
    var a := m.slots[r];
    forall t | t in n.slots && (t == l || (t.Elem? && (t.owner >= m.next || t.owner == a)))
      ensures (t in m.slots && m.slots[t] == n.slots[t]) || !Aloof(m, n.slots[t], roots)
    {
      if t == l {
        NotAloof(m, r, roots);
      } else {
        assert t == Elem(a, t.key) && SameEntry(m, n, a, t.key);
      }
    }
    OnlyNewJoin(m, n, {l}, {a}, roots);
  }

  lemma RemovedUnjoined(m: Mem, n: Mem, l: Slot, roots: set<Slot>)
    requires WF(n, {}) && Removed(m, n, l)
    ensures Unjoined(m, n, roots)
  {
    OnlyNewJoin(m, n, {l}, {}, roots);
  }

  lemma ConvertedUnjoined(m: Mem, n: Mem, a: Addr, kind: Kind, conv: Conversions, roots: set<Slot>)
    requires WF(m, {}) && WF(n, {}) && a in m.cells && KindOf(m.cells[a].value) != kind
    requires Converted(m, n, a, kind, conv)
    ensures Unjoined(m, n, roots)
  {
    hide CellsCounted, NoDangling, Aloof, Kept, Unjoined;
    forall t | t in n.slots && t.Elem? && (t.owner >= m.next || t.owner == a) ensures !Aloof(m, n.slots[t], roots) {
      ConvertedEntry(m, n, a, kind, conv, t);
      NewNotAloof(m, n.slots[t], roots);
    }
    OnlyNewJoin(m, n, {}, {a}, roots);
  }

  lemma ConvertedEntry(m: Mem, n: Mem, a: Addr, kind: Kind, conv: Conversions, t: Slot)
    requires WF(n, {}) && a in m.cells && KindOf(m.cells[a].value) != kind && Converted(m, n, a, kind, conv)
    requires t in n.slots && t.Elem? && (t.owner >= m.next || t.owner == a)
    ensures n.slots[t] >= m.next
  {
    hide CellsCounted, Kept;
    assert t in ElemsOf(n, t.owner);
    assert IsArray(n, t.owner);
  }
}
