/**
 Why references to array entries have no plain meaning.  Two memories that no read can tell apart, since
 they differ in what has been separated, part after an unset and an assignment.  The step from one to
 the other is an unset of an entry that is not there.
*/
module PhpSharing {
  import opened ZvalHeap
  import opened ZvalFrame
  import opened ZvalRelease
  import opened ZvalSteps
  import opened ZvalReads
  import opened PhpStatements

  /** After `$r = 5; $a[0] =& $r; $b = $a;`, with a literal 7: one array with a reference in it, held
      twice. */
  function Together(r: Variable, a: Variable, b: Variable): Mem {
    Mem(map[0 := Zval(1, false, Plain(Null)), 1 := Zval(2, false, Array), 2 := Zval(2, true, Plain(Long(5))),
            3 := Zval(1, false, Plain(Long(7)))],
        map[UNINIT := 0, Fixed(1) := 3, Var(r) := 2, Var(a) := 1, Var(b) := 1, Elem(1, Index(0)) := 2], 4)
  }

  /** The same with the array of `$b` separated. */
  function Apart(r: Variable, a: Variable, b: Variable): Mem {
    var m := Together(r, a, b);
    Mem(m.cells[1 := Zval(1, false, Array)][2 := Zval(3, true, Plain(Long(5)))][4 := Zval(1, false, Array)],
        m.slots[Var(b) := 4][Elem(4, Index(0)) := 2], 5)
  }

  ghost predicate Three(r: Variable, a: Variable, b: Variable) {
    r != a && r != b && a != b
  }

  /** What is in the first memory. */
  lemma TogetherHas(r: Variable, a: Variable, b: Variable)
    requires Three(r, a, b)
    ensures var m := Together(r, a, b);
      && m.slots.Keys == {UNINIT, Fixed(1), Var(r), Var(a), Var(b), Elem(1, Index(0))} && m.cells.Keys == {0, 1, 2, 3}
      && m.slots[UNINIT] == 0 && m.slots[Fixed(1)] == 3 && m.slots[Var(r)] == 2
      && m.slots[Var(a)] == 1 && m.slots[Var(b)] == 1 && m.slots[Elem(1, Index(0))] == 2
      && m.cells[0] == Zval(1, false, Plain(Null)) && m.cells[1] == Zval(2, false, Array)
      && m.cells[2] == Zval(2, true, Plain(Long(5))) && m.cells[3] == Zval(1, false, Plain(Long(7))) && m.next == 4
  {
  }

  lemma TogetherReady(r: Variable, a: Variable, b: Variable)
    requires Three(r, a, b)
    ensures Ready(Together(r, a, b))
  {
    var m := Together(r, a, b);
    TogetherHas(r, a, b);
    assert Holders(m.slots, 0) == {UNINIT} && Holders(m.slots, 1) == {Var(a), Var(b)};
    assert Holders(m.slots, 2) == {Var(r), Elem(1, Index(0))} && Holders(m.slots, 3) == {Fixed(1)};
  }

  /** What is in the second. */
  lemma ApartHas(r: Variable, a: Variable, b: Variable)
    requires Three(r, a, b)
    ensures var n := Apart(r, a, b);
      && n.slots.Keys == {UNINIT, Fixed(1), Var(r), Var(a), Var(b), Elem(1, Index(0)), Elem(4, Index(0))}
      && n.cells.Keys == {0, 1, 2, 3, 4}
      && n.slots[UNINIT] == 0 && n.slots[Fixed(1)] == 3 && n.slots[Var(r)] == 2 && n.slots[Var(a)] == 1
      && n.slots[Var(b)] == 4 && n.slots[Elem(1, Index(0))] == 2 && n.slots[Elem(4, Index(0))] == 2
      && n.cells[0] == Zval(1, false, Plain(Null)) && n.cells[1] == Zval(1, false, Array)
      && n.cells[2] == Zval(3, true, Plain(Long(5))) && n.cells[3] == Zval(1, false, Plain(Long(7)))
      && n.cells[4] == Zval(1, false, Array) && n.next == 5
  {
    TogetherHas(r, a, b);
  }

  lemma ApartReady(r: Variable, a: Variable, b: Variable)
    requires Three(r, a, b)
    ensures Ready(Apart(r, a, b))
  {
    var n := Apart(r, a, b);
    ApartHas(r, a, b);
    hide Apart;
    assert Holders(n.slots, 0) == {UNINIT} && Holders(n.slots, 1) == {Var(a)} && Holders(n.slots, 4) == {Var(b)};
    assert Holders(n.slots, 2) == {Var(r), Elem(1, Index(0)), Elem(4, Index(0))};
    assert Holders(n.slots, 3) == {Fixed(1)};
  }

  /** The second is a separation of the first, and no read tells them apart. */
  lemma SharingHides(r: Variable, a: Variable, b: Variable)
    requires Three(r, a, b)
    ensures var m, n := Together(r, a, b), Apart(r, a, b);
      && Ready(m) && Ready(n) && Separated(m, n, Var(b))
      && forall s, path :: s in m.slots && !s.Elem? ==>
           s in n.slots && Peek(n, n.slots[s], path) == Peek(m, m.slots[s], path)
  {
    var m, n := Together(r, a, b), Apart(r, a, b);
    hide Together, Apart, CellsCounted, TablesOwned;
    TogetherReady(r, a, b);
    ApartReady(r, a, b);
    SharingSeparates(r, a, b);
    TogetherHas(r, a, b);
    ApartHas(r, a, b);
    forall s, path | s in m.slots && !s.Elem?
      ensures s in n.slots && Peek(n, n.slots[s], path) == Peek(m, m.slots[s], path)
    {
      SeparationInvisible(m, n, Var(b), m.slots[s], path);
    }
  }

  /** `unset ($b[1])`, where there is no such entry, leads from the first to the second. */
  lemma ApartReached(r: Variable, a: Variable, b: Variable)
    requires Three(r, a, b) && Ready(Together(r, a, b)) && Ready(Apart(r, a, b))
    ensures Step(Together(r, a, b), UnsetElem(b, [], Index(1)), Apart(r, a, b))
  {
    hide Together, Apart, Ready, Separated, Step;
    TogetherHas(r, a, b);
    ApartHas(r, a, b);
    SharingSeparates(r, a, b);
    UnsetNothing(Together(r, a, b), b, Index(1), Apart(r, a, b));
  }

  /** All that the unset of an absent entry does is separate. */
  lemma UnsetNothing(m: Mem, b: Variable, k: Key, n: Mem)
    requires Ready(m) && Ready(n) && Var(b) in m.slots && Var(b) in n.slots && Separated(m, n, Var(b))
    requires IsArray(m, m.slots[Var(b)]) && OwnArray(n, n.slots[Var(b)]) && Elem(n.slots[Var(b)], k) !in n.slots
    ensures Step(m, UnsetElem(b, [], k), n)
  {
    hide Separated, CellsCounted, TablesOwned;
    assert GotVar(m, m, Var(b));
    KeptRefl(n);
    KeptMore(n, n, {}, {}, {Elem(n.slots[Var(b)], k)});
    assert DidRemove(n, n, Inner(n, n.slots[Var(b)], []), k);
  }

  lemma SharingSeparates(r: Variable, a: Variable, b: Variable)
    requires Three(r, a, b)
    ensures Separated(Together(r, a, b), Apart(r, a, b), Var(b))
  {
    hide Together, Apart, Kept, FreshClone;
    TogetherHas(r, a, b);
    ApartHas(r, a, b);
    SharingClones(r, a, b);
    SharingTouches(r, a, b);
  }

  lemma SharingClones(r: Variable, a: Variable, b: Variable)
    requires Three(r, a, b)
    ensures FreshClone(Together(r, a, b), Apart(r, a, b), Var(b), 1)
  {
    hide Together, Apart;
    TogetherHas(r, a, b);
    ApartHas(r, a, b);
  }

  lemma SharingTouches(r: Variable, a: Variable, b: Variable)
    requires Three(r, a, b)
    ensures Kept(Together(r, a, b), Apart(r, a, b), {Var(b)}, {})
  {
    hide Together, Apart;
    TogetherHas(r, a, b);
    ApartHas(r, a, b);
  }

  /** An unset of a variable that shares its cell takes away this slot and nothing else. */
  lemma UnsetShared(m: Mem, r: Variable, n: Mem)
    requires Ready(m) && Var(r) in m.slots && m.cells[m.slots[Var(r)]].refcount >= 2 && Step(m, UnsetVar(r), n)
    ensures n.slots == m.slots - {Var(r)} && n.cells.Keys == m.cells.Keys
    ensures forall c :: c in m.cells ==> n.cells[c].value == m.cells[c].value
    ensures forall c :: c in m.cells ==> n.cells[c].isRef == (IsRef(m, c) && |Holders(n.slots, c)| >= 2)
  {
    hide CellsCounted, NoDangling, Kept, Lives;
    forall c | c in m.cells ensures Lives(m, {Var(r)}, c) {
      AllLive(m, Var(r), c, {});
    }
    forall s | s in m.slots && s != Var(r) ensures SlotLives(m, {Var(r)}, s) {
    }
    assert n == After(m, {Var(r)});
    assert n.slots == m.slots - {Var(r)};
  }

  /** What `$a[0]` is read as. */
  ghost predicate EntryIs(m: Mem, a: Variable, n: int) {
    Var(a) in m.slots && Peek(m, m.slots[Var(a)], [Index(0)]) == Leaf(Long(n))
  }

  /** Together: `unset ($r); $b[0] = 7` leaves `$a[0]` as it is. */
  lemma TogetherKeeps(r: Variable, a: Variable, b: Variable, m1: Mem, m2: Mem)
    requires Three(r, a, b) && Ready(Together(r, a, b)) && Ready(m1) && Ready(m2)
    requires Step(Together(r, a, b), UnsetVar(r), m1) && Step(m1, AssignArray(b, Index(0), Pool(1)), m2)
    ensures EntryIs(m2, a, 5)
  {
    hide Ready, Step, Together;
    TogetherUnset(r, a, b, m1);
    StepIsolates(m1, AssignArray(b, Index(0), Pool(1)), m2);
    assert Var(a) in m1.slots && Clean(m1, m1.slots[Var(a)], [Index(0)]);
  }

  lemma TogetherUnset(r: Variable, a: Variable, b: Variable, m1: Mem)
    requires Three(r, a, b) && Ready(Together(r, a, b)) && Ready(m1)
    requires Step(Together(r, a, b), UnsetVar(r), m1)
    ensures EntryIs(m1, a, 5) && Clean(m1, m1.slots[Var(a)], [Index(0)])
  {
    hide Ready, Step;
    var m, e := Together(r, a, b), Elem(1, Index(0));
    TogetherHas(r, a, b);
    UnsetShared(m, r, m1);
    assert Holders(m1.slots, 2) == {e};
    assert [Index(0)][1..] == [];
  }

  /** Apart: it makes `$a[0]` 7. */
  lemma ApartWrites(r: Variable, a: Variable, b: Variable, n1: Mem, n2: Mem)
    requires Three(r, a, b) && Ready(Apart(r, a, b)) && Ready(n1) && Ready(n2)
    requires Step(Apart(r, a, b), UnsetVar(r), n1) && Step(n1, AssignArray(b, Index(0), Pool(1)), n2)
    ensures EntryIs(n2, a, 7)
  {
    ApartUnset(r, a, b, n1);
    hide Ready;
    OneStore(n1, b, n2);
    StoredBoth(n1, n2, a);
  }

  /** After the unset both entries still share the reference. */
  ghost predicate Sharing(m: Mem, a: Variable, b: Variable) {
    && Var(a) in m.slots && m.slots[Var(a)] == 1 && IsArray(m, 1)
    && Var(b) in m.slots && m.slots[Var(b)] == 4 && OwnArray(m, 4)
    && Elem(1, Index(0)) in m.slots && m.slots[Elem(1, Index(0))] == 2
    && Elem(4, Index(0)) in m.slots && m.slots[Elem(4, Index(0))] == 2
    && IsRef(m, 2) && Fixed(1) in m.slots && m.slots[Fixed(1)] == 3 && 3 in m.cells
    && m.cells[3].value == Plain(Long(7))
  }

  lemma ApartUnset(r: Variable, a: Variable, b: Variable, n1: Mem)
    requires Three(r, a, b) && Ready(Apart(r, a, b)) && Ready(n1)
    requires Step(Apart(r, a, b), UnsetVar(r), n1)
    ensures Sharing(n1, a, b)
  {
    hide Step, Apart, CellsCounted, TablesOwned, NoDangling;
    var n := Apart(r, a, b);
    ApartHas(r, a, b);
    UnsetShared(n, r, n1);
    assert Holders(n1.slots, 2) == {Elem(1, Index(0)), Elem(4, Index(0))};
    OneHolder(n1, Var(b), 4);
  }

  /** The store finds the array and the entry as they are, and writes the reference in place. */
  lemma OneStore(m: Mem, b: Variable, n: Mem)
    requires Ready(m) && Ready(n) && Var(b) in m.slots && m.slots[Var(b)] == 4 && OwnArray(m, 4)
    requires Elem(4, Index(0)) in m.slots && m.slots[Elem(4, Index(0))] == 2 && IsRef(m, 2)
    requires Fixed(1) in m.slots && m.slots[Fixed(1)] == 3
    requires Step(m, AssignArray(b, Index(0), Pool(1)), n)
    ensures Overwritten(m, n, 2, 3)
  {
    hide CellsCounted, TablesOwned, Fits, Overwritten;
    var o :| DidOpenArray(m, o, b) && Ready(o) && Var(b) in o.slots
             && if IsArray(o, o.slots[Var(b)]) then DidStore(o, n, b, Index(0), Pool(1)) else n == o;
    assert o == m;
    var q :| Ready(q) && Var(b) in q.slots && EntryGot(m, q, Var(b), Index(0))
             && Assigned(q, n, Elem(q.slots[Var(b)], Index(0)), LookUp(q, SlotOf(Pool(1))));
    assert q == m;
  }

  lemma StoredBoth(m: Mem, n: Mem, a: Variable)
    requires NoDangling(n) && Overwritten(m, n, 2, 3) && Var(a) in m.slots && m.slots[Var(a)] == 1 && IsArray(m, 1)
    requires Elem(1, Index(0)) in m.slots && m.slots[Elem(1, Index(0))] == 2
    requires 3 in m.cells && m.cells[3].value == Plain(Long(7))
    ensures EntryIs(n, a, 7)
  {
    assert Anchored(n, {2}, Var(a));
    assert n.slots[Var(a)] == 1 && Anchored(n, {2}, Elem(1, Index(0)));
    assert [Index(0)][1..] == [];
  }

  /** Both statements get through in both memories. */
  lemma BothFit(m: Mem, r: Variable, b: Variable)
    requires Ready(m)
    ensures Fits(m, UnsetVar(r))
    ensures !IsText(Current(m, b)) && !IsRef(m, LookUp(m, Var(b))) ==> Fits(m, AssignArray(b, Index(0), Pool(1)))
  {
  }
}
