/**
 What programs read after each operation, with references anywhere: sharing is invisible, an
 assignment stores a copy, and a reference assignment moves one slot.
*/
module ZvalReads {
  import opened ZvalHeap
  import opened ZvalFrame
  import opened ZvalSteps

  /** The cells of both memories, each standing for itself. */
  ghost function Common(m: Mem, n: Mem): map<Addr, Addr> {
    map a | a in m.cells && a in n.cells :: a
  }

  /** A separation is invisible: every cell, and the slot itself, reads as before. */
  lemma SeparationInvisible(m: Mem, n: Mem, s: Slot, a: Addr, path: seq<Key>)
    requires WF(m, {}) && WF(n, {}) && s in m.slots && Separated(m, n, s) && a in m.cells
    requires s.Elem? ==> IsArray(m, s.owner)
    ensures Peek(n, a, path) == Peek(m, a, path)
    ensures s in n.slots && Peek(n, n.slots[s], path) == Peek(m, m.slots[s], path)
  {
    if n != m {
      var f := Common(m, n)[n.slots[s] := m.slots[s]];
      SeparatedSimulates(m, n, s, f);
      SimulatedReads(n, m, f, a, path);
      SimulatedReads(n, m, f, n.slots[s], path);
    }
  }

  lemma SeparatedSimulates(m: Mem, n: Mem, s: Slot, f: map<Addr, Addr>)
    requires WF(m, {}) && WF(n, {}) && s in m.slots && s in n.slots
    requires Kept(m, n, {s}, {}) && FreshClone(m, n, s, m.slots[s]) && NoneFreed(m, n)
    requires f == Common(m, n)[n.slots[s] := m.slots[s]]
    ensures Simulates(n, m, f)
  {
    forall b, k | b in f && b != n.slots[s]
      ensures (Elem(b, k) in n.slots <==> Elem(b, k) in m.slots)
           && (Elem(b, k) in n.slots ==>
                n.slots[Elem(b, k)] in f && f[n.slots[Elem(b, k)]] == m.slots[Elem(b, k)])
    {
      assert Anchored(n, {}, Elem(b, k));
    }
  }

  /** The cell that an assignment to `l` writes: its own if that is a reference, else a new one. */
  function Target(m: Mem, l: Slot): Addr
    requires l in m.slots && m.slots[l] in m.cells
  {
    if m.cells[m.slots[l]].isRef then m.slots[l] else m.next
  }

  /** The memory in which the assignment is a plain copy: into a new cell of the slot, or into the
      cell that the whole reference set of the slot shares. */
  ghost function Stored(m: Mem, l: Slot, r: Addr): Mem
    requires l in m.slots && m.slots[l] in m.cells && r in m.cells
  {
    var c := Target(m, l);
    var others := map s | s in m.slots && !(s.Elem? && s.owner == c) :: m.slots[s];
    var copied := map s | s in ElemsOf(m, r) :: Elem(c, s.key) := m.slots[s];
    Mem(m.cells[c := Zval(1, m.cells[m.slots[l]].isRef, m.cells[r].value)],
        if m.cells[m.slots[l]].isRef then others + copied else (others + copied)[l := c], m.next + 1)
  }

  lemma StoredEntries(m: Mem, l: Slot, r: Addr, b: Addr, k: Key)
    requires WF(m, {}) && l in m.slots && r in m.cells && r != m.slots[l]
    ensures b == Target(m, l) ==> (Elem(b, k) in Stored(m, l, r).slots <==> Elem(r, k) in m.slots)
    ensures b == Target(m, l) && Elem(r, k) in m.slots ==> Stored(m, l, r).slots[Elem(b, k)] == m.slots[Elem(r, k)]
    ensures b != Target(m, l) ==> (Elem(b, k) in Stored(m, l, r).slots <==> Elem(b, k) in m.slots)
    ensures b != Target(m, l) && Elem(b, k) in m.slots ==>
              Stored(m, l, r).slots[Elem(b, k)] ==
              if Elem(b, k) == l && Target(m, l) == m.next then m.next else m.slots[Elem(b, k)]
  {
    var p := Stored(m, l, r);
    var c := Target(m, l);
    var copied := map s | s in ElemsOf(m, r) :: Elem(c, s.key) := m.slots[s];
    assert Elem(r, k) in ElemsOf(m, r) <==> Elem(r, k) in m.slots;
    if Elem(r, k) in m.slots {
      assert Elem(c, Elem(r, k).key) in copied;
    }
    if Elem(c, k) in copied {
      var s :| s in ElemsOf(m, r) && Elem(c, s.key) == Elem(c, k);
      assert s == Elem(r, k);
    }
  }

  /** An assignment stores a copy: every cell reads as in the plain memory.  The exception is a
      variable stored into its own array, which the runtime shares with itself instead. */
  lemma AssignmentStoresCopy(m: Mem, n: Mem, l: Slot, r: Addr, a: Addr, path: seq<Key>)
    requires WF(m, {}) && WF(n, {}) && l in m.slots && CanWrite(m, l, r) && Written(m, n, l, r)
    requires a in m.cells && a in n.cells
    requires IsRef(m, m.slots[l]) || IsRef(n, r) || !(l.Elem? && l.owner == r)
    ensures Peek(n, a, path) == Peek(Stored(m, l, r), a, path)
  {
    if IsRef(m, m.slots[l]) {
      var f := Common(m, n);
      StoredInPlace(m, n, l, r, f);
      SimulatedReads(n, Stored(m, l, r), f, a, path);
    } else {
      var f := Common(m, n)[m.next := n.slots[l]];
      StoredInSlot(m, n, l, r, f);
      SimulatedReads(Stored(m, l, r), n, f, a, path);
    }
  }

  lemma StoredInPlace(m: Mem, n: Mem, l: Slot, r: Addr, f: map<Addr, Addr>)
    requires WF(m, {}) && WF(n, {}) && l in m.slots && r in m.cells && r != m.slots[l]
    requires IsRef(m, m.slots[l]) && Overwritten(m, n, m.slots[l], r) && f == Common(m, n)
    ensures Simulates(n, Stored(m, l, r), f)
  {
    hide WF, Overwritten;
    var p := Stored(m, l, r);
    forall b | b in f ensures b in n.cells && b in p.cells && n.cells[b].value == p.cells[b].value {
      InPlaceValue(m, n, l, r, b);
    }
    hide Stored, Target;
    forall b, k | b in f
      ensures (Elem(b, k) in n.slots <==> Elem(b, k) in p.slots)
           && (Elem(b, k) in n.slots ==>
                n.slots[Elem(b, k)] in f && f[n.slots[Elem(b, k)]] == p.slots[Elem(b, k)])
    {
      StoredEntries(m, l, r, b, k);
      InPlaceEntry(m, n, l, r, b, k);
    }
  }

  lemma InPlaceValue(m: Mem, n: Mem, l: Slot, r: Addr, b: Addr)
    requires WF(m, {}) && l in m.slots && r in m.cells && r != m.slots[l] && IsRef(m, m.slots[l])
    requires Overwritten(m, n, m.slots[l], r) && b in m.cells && b in n.cells
    ensures b in Stored(m, l, r).cells && n.cells[b].value == Stored(m, l, r).cells[b].value
  {
    hide CellsCounted, TablesOwned;
  }

  lemma InPlaceEntry(m: Mem, n: Mem, l: Slot, r: Addr, b: Addr, k: Key)
    requires WF(m, {}) && WF(n, {}) && l in m.slots && r in m.cells && r != m.slots[l] && IsRef(m, m.slots[l])
    requires Overwritten(m, n, m.slots[l], r) && b in m.cells && b in n.cells
    ensures var c := m.slots[l]; var e := Elem(if b == c then r else b, k);
      && Target(m, l) == c && (Elem(b, k) in n.slots <==> e in m.slots)
      && (e in m.slots ==> n.slots[Elem(b, k)] == m.slots[e] && m.slots[e] in m.cells && m.slots[e] in n.cells)
  {
    hide TablesOwned, CloneOf;
    var c := m.slots[l];
    if b != c {
      assert Anchored(n, {c}, Elem(b, k)) && b < m.next;
    } else {
      assert CloneOf(n, c, m, r);
      CloneEntry(n, c, m, r, k);
    }
  }

  lemma CloneEntry(n: Mem, b: Addr, m: Mem, a: Addr, k: Key)
    requires CloneOf(n, b, m, a)
    ensures Elem(b, k) in n.slots <==> Elem(a, k) in m.slots
    ensures Elem(a, k) in m.slots ==> n.slots[Elem(b, k)] == m.slots[Elem(a, k)]
  {
  }

  lemma StoredInSlot(m: Mem, n: Mem, l: Slot, r: Addr, f: map<Addr, Addr>)
    requires WF(m, {}) && WF(n, {}) && l in m.slots && r in m.cells && r != m.slots[l]
    requires !IsRef(m, m.slots[l]) && Written(m, n, l, r) && (IsRef(n, r) || !(l.Elem? && l.owner == r))
    requires l in n.slots && f == Common(m, n)[m.next := n.slots[l]]
    ensures Simulates(Stored(m, l, r), n, f)
  {
    var p, c := Stored(m, l, r), m.next;
    forall b, k | b in f
      ensures (Elem(b, k) in p.slots <==> Elem(f[b], k) in n.slots)
           && (Elem(b, k) in p.slots ==>
                p.slots[Elem(b, k)] in f && f[p.slots[Elem(b, k)]] == n.slots[Elem(f[b], k)])
    {
      StoredEntries(m, l, r, b, k);
      assert Anchored(n, {}, Elem(f[b], k)) || f[b] == m.next;
    }
    assert p.cells[c].value == n.cells[f[c]].value;
  }

  /** `$x[k] = $x` for a variable outside any reference set: the array contains itself, and reads as
      an array at every depth. */
  lemma {:induction false} SelfStoreIsCyclic(m: Mem, n: Mem, l: Slot, r: Addr, path: seq<Key>)
    requires WF(m, {}) && WF(n, {}) && l in m.slots && Written(m, n, l, r)
    requires !IsRef(m, m.slots[l]) && !IsRef(n, r) && l.Elem? && l.owner == r
    requires forall i :: 0 <= i < |path| ==> path[i] == l.key
    ensures Peek(n, r, path) == Table
    decreases |path|
  {
    assert l == Elem(r, l.key) && n.slots[l] == r;
    if path != [] {
      assert path[0] == l.key;
      SelfStoreIsCyclic(m, n, l, r, path[1..]);
    }
  }

  /** A reference assignment moves one slot and nothing else. */
  lemma ReferenceMovesSlot(m: Mem, n: Mem, l: Slot, r: Slot, a: Addr, path: seq<Key>)
    requires WF(m, {}) && WF(n, {}) && l in m.slots && r in m.slots && RefCopied(m, n, l, r)
    requires a in m.cells && a in n.cells
    ensures Peek(n, a, path) == Peek(m.(slots := m.slots[l := m.slots[r]]), a, path)
  {
    var p, f := m.(slots := m.slots[l := m.slots[r]]), Common(m, n);
    MovedSimulates(m, n, l, r, f);
    SimulatedReads(n, p, f, a, path);
  }

  lemma MovedSimulates(m: Mem, n: Mem, l: Slot, r: Slot, f: map<Addr, Addr>)
    requires WF(m, {}) && WF(n, {}) && l in m.slots && r in m.slots && RefCopied(m, n, l, r) && f == Common(m, n)
    ensures Simulates(n, m.(slots := m.slots[l := m.slots[r]]), f)
  {
    var p := m.(slots := m.slots[l := m.slots[r]]);
    forall b, k | b in f
      ensures (Elem(b, k) in n.slots <==> Elem(b, k) in p.slots)
           && (Elem(b, k) in n.slots ==>
                n.slots[Elem(b, k)] in f && f[n.slots[Elem(b, k)]] == p.slots[Elem(b, k)])
    {
      if b == m.slots[r] {
        assert Elem(b, k) != l ==> SameEntry(m, n, b, k);
      } else {
        assert Anchored(n, {m.slots[r]}, Elem(b, k));
      }
    }
  }

  /** Giving a slot up changes what nobody else reads. */
  lemma ReleaseInvisible(m: Mem, n: Mem, s: Slot, a: Addr, path: seq<Key>)
    requires WF(m, {}) && WF(n, {}) && Removed(m, n, s) && !s.Elem? && a in m.cells && a in n.cells
    ensures Peek(n, a, path) == Peek(m, a, path)
  {
    var f := Common(m, n);
    forall b, k | b in f
      ensures (Elem(b, k) in n.slots <==> Elem(b, k) in m.slots)
           && (Elem(b, k) in n.slots ==>
                n.slots[Elem(b, k)] in f && f[n.slots[Elem(b, k)]] == m.slots[Elem(b, k)])
    {
      assert Anchored(n, {}, Elem(b, k));
    }
    assert Simulates(n, m, f);
    SimulatedReads(n, m, f, a, path);
  }
}
