/**
 The statements of compiled code, as the templates in runtime/templates/templates_new.c and the
 unset pattern of src/codegen/Generate_C.cpp string runtime operations together, and what a whole
 program of them keeps.
*/
module PhpStatements {
  import opened ZvalHeap
  import opened ZvalFrame
  import opened ZvalRelease
  import opened ZvalSteps
  import opened ZvalSets

  /** A variable, or a literal in the pool. */
  datatype Rvalue = FromVar(v: Variable) | Pool(id: nat)

  datatype Stmt =
    | AssignVar(x: Variable, rhs: Rvalue)                    // $x = rhs
    | AssignCast(x: Variable, rhs: Rvalue, kind: Kind, conv: Conversions)   // $x = (kind) rhs
    | AssignRef(x: Variable, y: Variable)                    // $x =& $y, global $x
    | UnsetVar(x: Variable)                                  // unset ($x)
    | AssignArray(x: Variable, k: Key, rhs: Rvalue)          // $x[k] = rhs
    | AssignArrayRef(x: Variable, k: Key, y: Variable)       // $x[k] =& $y
    | AssignNext(x: Variable, k: Key, rhs: Rvalue)           // $x[] = rhs, where k is the next index
    | AssignNextRef(x: Variable, k: Key, y: Variable)        // $x[] =& $y, likewise
    | AssignAccess(x: Variable, y: Variable, k: Key)         // $x = $y[k]
    | AssignRefAccess(x: Variable, y: Variable, k: Key)      // $x =& $y[k]
    | UnsetElem(x: Variable, path: seq<Key>, k: Key)         // unset ($x[i]...[k]), path the indices before k

  function SlotOf(r: Rvalue): Slot {
    match r
    case FromVar(v) => Var(v)
    case Pool(i) => Fixed(i)
  }

  /** The variables a statement names on a side that it may change or turn into a reference. */
  function Named(st: Stmt): set<Slot> {
    match st
    case AssignRef(x, y) => {Var(x), Var(y)}
    case AssignArrayRef(x, _, y) => {Var(x), Var(y)}
    case AssignNextRef(x, _, y) => {Var(x), Var(y)}
    case AssignRefAccess(x, y, _) => {Var(x), Var(y)}
    case _ => {Var(st.x)}
  }

  // ---------------------------------------------------------------------------------------
  // One operation: the discipline, and what it gives
  // ---------------------------------------------------------------------------------------

  /** An operation that follows the discipline, naming only `roots` among the variables. */
  lemma Sound(m: Mem, n: Mem, named: set<Slot>, hot: set<Addr>, roots: set<Slot>)
    requires Ready(m) && WF(n, {}) && Local !in n.slots
    requires Kept(m, n, named, hot) && Private(m, named, hot)
    requires (forall s :: s in named && !s.Elem? ==> s in roots) && UNINIT !in roots
    requires Elsewhere(m, named, hot, roots) && Unjoined(m, n, roots)
    ensures Ready(n) && Isolates(m, n, roots)
  {
    ReadyKept(m, n, named, hot);
    KeptIsolates(m, n, named, hot, roots);
  }

  lemma RootsElsewhere(m: Mem, named: set<Slot>, roots: set<Slot>)
    requires forall s :: s in named ==> !s.Elem?
    ensures Elsewhere(m, named, {}, roots)
  {
  }

  /** The cell of `l` is changed in place, where `s` holds the array that `l` may be an entry of. */
  lemma HotElsewhere(m: Mem, named: set<Slot>, l: Slot, s: Slot, roots: set<Slot>)
    requires l in m.slots && (l.Elem? || l in roots) && (s in m.slots ==> s in roots)
    requires forall t :: t in named && t.Elem? ==> s in m.slots && t.owner == m.slots[s]
    ensures Elsewhere(m, named, {m.slots[l]}, roots)
  {
    NotAloof(m, l, roots);
    if s in m.slots {
      NotAloof(m, s, roots);
    }
  }

  lemma CoolElsewhere(m: Mem, named: set<Slot>, s: Slot, roots: set<Slot>)
    requires s in m.slots && s in roots
    requires forall t :: t in named && t.Elem? ==> t.owner == m.slots[s]
    ensures Elsewhere(m, named, {}, roots)
  {
    NotAloof(m, s, roots);
  }

  lemma IsolatesMore(m: Mem, n: Mem, named: set<Slot>, roots: set<Slot>)
    requires Isolates(m, n, named)
    requires forall s :: s in named && !s.Elem? ==> s in roots
    ensures Isolates(m, n, roots)
  {
  }

  lemma IsolatesTrans(m: Mem, o: Mem, n: Mem, roots: set<Slot>)
    requires Isolates(m, o, roots) && Isolates(o, n, roots)
    ensures Isolates(m, n, roots)
  {
    SetsTrans(m, o, n, roots);
  }

  lemma SetsTrans(m: Mem, o: Mem, n: Mem, roots: set<Slot>)
    requires SetsKept(m, o, roots) && SetsKept(o, n, roots)
    ensures SetsKept(m, n, roots)
  {
    forall a | Aloof(m, a, roots) ensures SetKept(m, n, a) {
      assert SetKept(m, o, a) && Aloof(o, a, roots) && SetKept(o, n, a);
    }
  }

  lemma IsolatesRefl(m: Mem, roots: set<Slot>)
    ensures Isolates(m, m, roots)
  {
  }

  lemma KeptMore(m: Mem, n: Mem, named: set<Slot>, hot: set<Addr>, more: set<Slot>)
    requires Kept(m, n, named, hot) && named <= more
    ensures Kept(m, n, more, hot)
  {
  }

  lemma GotVarSound(m: Mem, n: Mem, s: Slot)
    requires Ready(m) && GotVar(m, n, s) && !s.Elem? && s != UNINIT && s != Local
    ensures Ready(n) && Isolates(m, n, {s})
  {
    GotVarKept(m, n, s);
    PrivateRoots(m, {s});
    RootsElsewhere(m, {s}, {s});
    GotVarUnjoined(m, n, s);
    Sound(m, n, {s}, {}, {s});
  }

  lemma SeparatedSound(m: Mem, n: Mem, s: Slot)
    requires Ready(m) && WF(n, {}) && Local !in n.slots && s in m.slots && !s.Elem? && s != UNINIT
    requires Separated(m, n, s)
    ensures Ready(n) && Isolates(m, n, {s})
  {
    SeparatedFrame(m, n, s);
    PrivateRoots(m, {s});
    RootsElsewhere(m, {s}, {s});
    SeparatedUnjoined(m, n, s, {s});
    Sound(m, n, {s}, {}, {s});
  }

  lemma CheckedSound(m: Mem, n: Mem, s: Slot)
    requires Ready(m) && WF(n, {}) && Local !in n.slots && s in m.slots && !s.Elem? && s != UNINIT
    requires ArrayChecked(m, n, s)
    ensures Ready(n) && Isolates(m, n, {s})
  {
    var a := m.slots[s];
    if !Falsy(m.cells[a].value) {
      IsolatesRefl(m, {s});
    } else if m.cells[a].isRef {
      RefilledInPlace(m, a, Array);
      HotElsewhere(m, {}, s, s, {s});
      UnjoinedRefl(m, {s});
      Sound(m, n, {}, {a}, {s});
    } else {
      PrivateRoots(m, {s});
      RootsElsewhere(m, {s}, {s});
      EmptiedUnjoined(m, n, s, {s});
      Sound(m, n, {s}, {}, {s});
    }
  }

  lemma EntrySound(m: Mem, n: Mem, s: Slot, k: Key)
    requires Ready(m) && WF(n, {}) && Local !in n.slots && s in m.slots && s in n.slots && !s.Elem? && s != UNINIT
    requires EntryGot(m, n, s, k)
    ensures Ready(n) && Isolates(m, n, {s})
  {
    PrivateEntry(m, n, s, k);
    EntryElsewhere(m, n, s, k);
    EntryUnjoined(m, n, s, k);
    Sound(m, n, {s, Elem(n.slots[s], k)}, {}, {s});
  }

  lemma EntryElsewhere(m: Mem, n: Mem, s: Slot, k: Key)
    requires WF(m, {}) && s in m.slots && s in n.slots && !s.Elem? && EntryCell(m, n, m.slots[s], n.slots[s])
    ensures Elsewhere(m, {s, Elem(n.slots[s], k)}, {}, {s})
  {
    if n.slots[s] < m.next {
      NotAloof(m, s, {s});
    } else {
      NewNotAloof(m, n.slots[s], {s});
    }
  }

  /** The array in slot `s` may be written without separating it. */
  ghost predicate Writable(m: Mem, s: Slot) {
    s in m.slots && IsArray(m, m.slots[s]) && !InCopyOnWrite(m.cells[m.slots[s]])
  }

  lemma WritablePrivate(m: Mem, s: Slot, named: set<Slot>)
    requires WF(m, {}) && Writable(m, s) && s in named
    requires forall t :: t in named && t.Elem? ==> t.owner == m.slots[s]
    ensures Private(m, named, {})
  {
    if !m.cells[m.slots[s]].isRef {
      SoleHolder(m, s);
    }
  }

  lemma WrittenSound(m: Mem, n: Mem, l: Slot, r: Addr, s: Slot)
    requires Ready(m) && WF(n, {}) && Local !in n.slots && l in m.slots && l != UNINIT && s != UNINIT && !s.Elem?
    requires Written(m, n, l, r)
    requires l == s || (l.Elem? && Writable(m, s) && l.owner == m.slots[s])
    ensures Ready(n) && Isolates(m, n, {s})
  {
    hide Kept, CellsCounted, NoDangling, TablesOwned, Isolates, CloneOf, FreshClone, Elsewhere, Unjoined;
    WrittenUnjoined(m, n, l, r, {s});
    if IsRef(m, m.slots[l]) {
      HotElsewhere(m, {}, l, s, {s});
      Sound(m, n, {}, {m.slots[l]}, {s});
    } else {
      KeptMore(m, n, {l}, {}, {l, s});
      if l == s {
        PrivateRoots(m, {l, s});
      } else {
        WritablePrivate(m, s, {l, s});
      }
      CoolElsewhere(m, {l, s}, s, {s});
      Sound(m, n, {l, s}, {}, {s});
    }
  }

  lemma PrivateHot(m: Mem, r: Slot, named: set<Slot>)
    requires WF(m, {}) && r in m.slots && r in named && !InCopyOnWrite(m.cells[m.slots[r]])
    requires Private(m, named, {})
    ensures Private(m, named, {m.slots[r]})
  {
    var z := m.cells[m.slots[r]];
    assert r in Holders(m.slots, m.slots[r]);
    assert 1 <= z.refcount;
    if !z.isRef {
      SoleHolder(m, r);
    }
  }

  /** A reference assignment from a separated slot `r` into `l`, where `s` holds the array that an
      array entry among them belongs to. */
  lemma RefCopiedSound(m: Mem, n: Mem, l: Slot, r: Slot, s: Slot, roots: set<Slot>)
    requires Ready(m) && WF(n, {}) && Local !in n.slots && l in m.slots && r in m.slots && UNINIT !in roots
    requires RefCopied(m, n, l, r) && !InCopyOnWrite(m.cells[m.slots[r]])
    requires (!l.Elem? ==> l in roots) && (!r.Elem? ==> r in roots) && s in roots
    requires (l.Elem? ==> Writable(m, s) && l.owner == m.slots[s])
    requires (r.Elem? ==> Writable(m, s) && r.owner == m.slots[s])
    requires !s.Elem?
    ensures Ready(n) && Isolates(m, n, roots)
  {
    hide Kept, CellsCounted, TablesOwned, Isolates, SameEntry, Private, Elsewhere, Unjoined;
    var a := m.slots[r];
    KeptMore(m, n, {l}, {a}, {l, r, s});
    if l.Elem? || r.Elem? {
      WritablePrivate(m, s, {l, r, s});
    } else {
      PrivateRoots(m, {l, r, s});
    }
    PrivateHot(m, r, {l, r, s});
    RefCopiedUnjoined(m, n, l, r, roots);
    HotElsewhere(m, {l, r, s}, r, s, roots);
    Sound(m, n, {l, r, s}, {a}, roots);
  }

  lemma RemovedSound(m: Mem, n: Mem, l: Slot, s: Slot)
    requires Ready(m) && WF(n, {}) && Local !in n.slots && s != UNINIT && !s.Elem? && Removed(m, n, l)
    requires l == s || (l.Elem? && Writable(m, s) && l.owner == m.slots[s])
    ensures Ready(n) && Isolates(m, n, {s})
  {
    hide Kept, CellsCounted, NoDangling, TablesOwned, Isolates, Private;
    KeptMore(m, n, {l}, {}, {l, s});
    RemovedUnjoined(m, n, l, {s});
    if l == s {
      PrivateRoots(m, {l, s});
      RootsElsewhere(m, {l, s}, {s});
    } else {
      WritablePrivate(m, s, {l, s});
      CoolElsewhere(m, {l, s}, s, {s});
    }
    Sound(m, n, {l, s}, {}, {s});
  }

  lemma ConvertedSound(m: Mem, n: Mem, s: Slot, kind: Kind, conv: Conversions)
    requires Ready(m) && WF(n, {}) && Local !in n.slots && s in m.slots && !s.Elem? && s != UNINIT
    requires !InCopyOnWrite(m.cells[m.slots[s]]) && Converted(m, n, m.slots[s], kind, conv)
    requires KindOf(m.cells[m.slots[s]].value) != kind
    ensures Ready(n) && Isolates(m, n, {s})
  {
    var a := m.slots[s];
    assert Kept(m, n, {}, {a});
    hide Converted, Kept, Private, Elsewhere, Unjoined, Isolates;
    ConvertedUnjoined(m, n, a, kind, conv, {s});
    HotElsewhere(m, {s}, s, s, {s});
    KeptMore(m, n, {}, {a}, {s});
    PrivateRoots(m, {s});
    PrivateHot(m, s, {s});
    Sound(m, n, {s}, {a}, {s});
  }

  /** Separating another slot leaves an array writable. */
  lemma WritableAfterSep(m: Mem, n: Mem, s: Slot, t: Slot)
    requires WF(m, {}) && WF(n, {}) && Writable(m, s) && !s.Elem? && t in m.slots && t != s
    requires Separated(m, n, t)
    ensures Writable(n, s) && n.slots[s] == m.slots[s]
  {
    var c := m.slots[s];
    if n != m {
      hide CellsCounted, TablesOwned, CloneOf;
      assert Anchored(n, {}, s);
      if m.cells[c].isRef {
        RefStays(m, n, s, t);
      } else {
        SoleAfterSep(m, n, s, t);
        OneHolder(n, s, c);
      }
    }
  }

  lemma SoleAfterSep(m: Mem, n: Mem, s: Slot, t: Slot)
    requires WF(m, {}) && WF(n, {}) && Writable(m, s) && !s.Elem? && t in m.slots && t != s && Separated(m, n, t)
    requires n != m
    requires !IsRef(m, m.slots[s])
    ensures forall u :: u in n.slots && n.slots[u] == m.slots[s] ==> u == s
  {
    var c := m.slots[s];
    SoleHolder(m, s);
    forall u | u in n.slots && n.slots[u] == c ensures u == s {
      var e := OriginalOf(m, n, t, u);
      assert e in Holders(m.slots, c);
    }
  }

  /** Whom a slot of the separated memory got its cell from. */
  lemma OriginalOf(m: Mem, n: Mem, t: Slot, u: Slot) returns (e: Slot)
    requires WF(m, {}) && WF(n, {}) && t in m.slots && Separated(m, n, t) && n != m && u in n.slots
    requires n.slots[u] in m.cells
    ensures e in m.slots && m.slots[e] == n.slots[u] && (e == u || e.Elem?)
  {
    hide CellsCounted;
    NextFree(m);
    assert m.slots[t] in m.cells;
    if u.Elem? && u.owner == n.slots[t] {
      e := Elem(m.slots[t], u.key);
    } else {
      e := u;
    }
  }

  /** A separated slot was not in a reference set, so no reference lost a holder. */
  lemma RefStays(m: Mem, n: Mem, s: Slot, t: Slot)
    requires WF(m, {}) && WF(n, {}) && s in m.slots && IsRef(m, m.slots[s]) && t in m.slots && Separated(m, n, t)
    ensures IsRef(n, m.slots[s])
  {
  }

  // ---------------------------------------------------------------------------------------
  // Statements as relations
  // ---------------------------------------------------------------------------------------

  /** `if (*p_lhs != rhs) write_var (p_lhs, rhs);` */
  ghost predicate Assigned(m: Mem, n: Mem, l: Slot, r: Addr)
    requires l in m.slots
  {
    if m.slots[l] == r then n == m else Written(m, n, l, r)
  }

  ghost predicate DidAssignVar(m: Mem, n: Mem, x: Variable, rhs: Rvalue)
    requires Ready(m)
  {
    exists o :: GotVar(m, o, Var(x)) && Ready(o) && Assigned(o, n, Var(x), LookUp(o, SlotOf(rhs)))
  }

  ghost predicate DidCast(m: Mem, n: Mem, s: Slot, kind: Kind, conv: Conversions)
    requires Ready(m) && s in m.slots
  {
    if KindOf(m.cells[m.slots[s]].value) == kind then n == m
    else exists o :: Separated(m, o, s) && Ready(o) && s in o.slots && !InCopyOnWrite(o.cells[o.slots[s]])
                     && Converted(o, n, o.slots[s], kind, conv)
  }

  ghost predicate DidAssignCast(m: Mem, n: Mem, x: Variable, rhs: Rvalue, kind: Kind, conv: Conversions)
    requires Ready(m)
  {
    exists o :: DidAssignVar(m, o, x, rhs) && Ready(o) && Var(x) in o.slots && DidCast(o, n, Var(x), kind, conv)
  }

  ghost predicate DidAssignRef(m: Mem, n: Mem, x: Variable, y: Variable)
    requires Ready(m)
  {
    exists o, p :: GotVar(m, o, Var(x)) && Ready(o) && DidRefFrom(o, p, n, Var(x), y)
  }

  /** `l =& $y` once `l` is there: `p` has the variable `y`, separated. */
  ghost predicate DidRefFrom(o: Mem, p: Mem, n: Mem, l: Slot, y: Variable)
    requires Ready(o) && l in o.slots
  {
    exists q :: GotVar(o, q, Var(y)) && Ready(q) && Separated(q, p, Var(y)) && Ready(p)
                && l in p.slots && Var(y) in p.slots && !InCopyOnWrite(p.cells[p.slots[Var(y)]])
                && RefCopied(p, n, l, Var(y))
  }

  ghost predicate DidUnsetVar(m: Mem, n: Mem, x: Variable) {
    Removed(m, n, Var(x)) && (Var(x) in m.slots ==> n == After(m, {Var(x)}))
  }

  /** The variable as an array: looked up, then NULL, false and "" converted. */
  ghost predicate DidOpenArray(m: Mem, n: Mem, x: Variable)
    requires Ready(m)
  {
    exists o :: GotVar(m, o, Var(x)) && Ready(o) && ArrayChecked(o, n, Var(x))
  }

  /** The entry of an array variable, then the value stored there. */
  ghost predicate DidStore(m: Mem, n: Mem, x: Variable, k: Key, rhs: Rvalue)
    requires Ready(m) && Var(x) in m.slots
  {
    exists o :: Ready(o) && Var(x) in o.slots && EntryGot(m, o, Var(x), k)
                && Assigned(o, n, Elem(o.slots[Var(x)], k), LookUp(o, SlotOf(rhs)))
  }

  /** A value that is neither array nor string is left alone, with a warning. */
  ghost predicate DidAssignArray(m: Mem, n: Mem, x: Variable, k: Key, rhs: Rvalue)
    requires Ready(m)
  {
    exists o :: DidOpenArray(m, o, x) && Ready(o) && Var(x) in o.slots
                && if IsArray(o, o.slots[Var(x)]) then DidStore(o, n, x, k, rhs) else n == o
  }

  ghost predicate DidAssignArrayRef(m: Mem, n: Mem, x: Variable, k: Key, y: Variable)
    requires Ready(m)
  {
    exists o :: DidOpenArray(m, o, x) && Ready(o) && Var(x) in o.slots
                && if IsArray(o, o.slots[Var(x)]) then DidStoreRef(o, n, x, k, y) else n == o
  }

  ghost predicate DidStoreRef(m: Mem, n: Mem, x: Variable, k: Key, y: Variable)
    requires Ready(m) && Var(x) in m.slots
  {
    exists o, p :: Ready(o) && Var(x) in o.slots && EntryGot(m, o, Var(x), k)
                   && DidRefFrom(o, p, n, Elem(o.slots[Var(x)], k), y)
  }

  ghost predicate DidAssignNext(m: Mem, n: Mem, x: Variable, k: Key, rhs: Rvalue)
    requires Ready(m)
  {
    exists o :: GotVar(m, o, Var(x)) && Ready(o)
                && if PushResult(o.cells[o.slots[Var(x)]].value) == Entry then DidStore(o, n, x, k, rhs) else n == o
  }

  ghost predicate DidAssignNextRef(m: Mem, n: Mem, x: Variable, k: Key, y: Variable)
    requires Ready(m)
  {
    exists o :: GotVar(m, o, Var(x)) && Ready(o)
                && if PushResult(o.cells[o.slots[Var(x)]].value) == Entry then DidStoreRef(o, n, x, k, y) else n == o
  }

  ghost predicate DidAssignAccess(m: Mem, n: Mem, x: Variable, y: Variable, k: Key)
    requires Ready(m)
  {
    exists o :: GotVar(m, o, Var(x)) && Ready(o)
                && Assigned(o, n, Var(x), LookUp(o, Elem(LookUp(o, Var(y)), k)))
  }

  ghost predicate DidAssignRefAccess(m: Mem, n: Mem, x: Variable, y: Variable, k: Key)
    requires Ready(m)
  {
    exists o, p :: GotVar(m, o, Var(x)) && Ready(o) && DidOpenArray(o, p, y) && Ready(p) && Var(y) in p.slots
                   && DidRefEntry(p, n, Var(x), y, k)
  }

  /** `l =& $y[k]` once both variables are there. */
  ghost predicate DidRefEntry(m: Mem, n: Mem, l: Slot, y: Variable, k: Key)
    requires Ready(m) && Var(y) in m.slots
  {
    exists o, p :: Ready(o) && Var(y) in o.slots && EntryGot(m, o, Var(y), k) && Ready(p)
                   && Elem(o.slots[Var(y)], k) in o.slots && Separated(o, p, Elem(o.slots[Var(y)], k))
                   && l in p.slots && Elem(o.slots[Var(y)], k) in p.slots
                   && !InCopyOnWrite(p.cells[p.slots[Elem(o.slots[Var(y)], k)]])
                   && RefCopied(p, n, l, Elem(o.slots[Var(y)], k))
  }

  /** The cell that reading one index after the other ends at; what is no array is left as it is. */
  ghost function Inner(m: Mem, a: Addr, path: seq<Key>): (d: Addr)
    requires NoDangling(m) && UNINIT in m.slots && a in m.cells
    ensures d in m.cells
    decreases |path|
  {
    if path == [] then a
    else Inner(m, if IsArray(m, a) then LookUp(m, Elem(a, path[0])) else a, path[1..])
  }

  /** Only the variable is separated; the inner arrays are read, and the entry removed in place. */
  ghost predicate DidUnsetElem(m: Mem, n: Mem, x: Variable, path: seq<Key>, k: Key)
    requires Ready(m)
  {
    exists o, p :: GotVar(m, o, Var(x)) && Ready(o) && Separated(o, p, Var(x)) && Ready(p) && Var(x) in p.slots
                   && !InCopyOnWrite(p.cells[p.slots[Var(x)]])
                   && DidRemove(p, n, Inner(p, p.slots[Var(x)], path), k)
  }

  ghost predicate DidRemove(p: Mem, n: Mem, d: Addr, k: Key) {
    if IsArray(p, d) then Removed(p, n, Elem(d, k)) else n == p
  }

  // ---------------------------------------------------------------------------------------
  // When a statement gets through
  // ---------------------------------------------------------------------------------------

  predicate IsString(v: Value) {
    v.Plain? && v.s.Str?
  }

  /** What is read of a variable now. */
  ghost function Current(m: Mem, x: Variable): Value
    requires Ready(m)
  {
    m.cells[LookUp(m, Var(x))].value
  }

  /** The right-hand side is the left-hand side's own reference cell. */
  ghost predicate OwnReference(m: Mem, x: Variable, rhs: Rvalue)
    requires UNINIT in m.slots
  {
    LookUp(m, SlotOf(rhs)) == LookUp(m, Var(x)) && IsRef(m, LookUp(m, Var(x)))
  }

  /** `if (*p_lhs != rhs) write_var (p_lhs, rhs);` meets no freed cell. */
  ghost predicate CanAssign(m: Mem, l: Slot, r: Addr)
    requires l in m.slots && m.slots[l] in m.cells
  {
    m.slots[l] == r || CanWrite(m, l, r)
  }

  /** A reference set stored into an entry that its array has already: the copy must not meet the
      entry's old cell freed. */
  ghost predicate StoreFits(m: Mem, x: Variable, k: Key, rhs: Rvalue)
    requires Ready(m)
  {
    var e := Elem(LookUp(m, Var(x)), k);
    OwnReference(m, x, rhs) && e in m.slots ==> CanAssign(m, e, e.owner)
  }

  /** The entry read must not be freed by the release of `$x`. */
  ghost predicate AccessFits(m: Mem, x: Variable, y: Variable, k: Key)
    requires Ready(m)
  {
    var o := WithVar(m, Var(x));
    CanAssign(o, Var(x), LookUp(o, Elem(LookUp(o, Var(y)), k)))
  }

  /** The memories in which a statement runs to its end.  In the others the engine stops with a fatal
      error, or a string offset is used, which is not modelled, or the code goes on with freed cells. */
  ghost predicate Fits(m: Mem, st: Stmt)
    requires Ready(m)
  {
    match st
    case AssignArray(x, k, rhs) => !IsText(Current(m, x)) && StoreFits(m, x, k, rhs)
    case AssignArrayRef(x, _, _) => !IsText(Current(m, x))
    case AssignNext(x, k, _) => !IsText(Current(m, x)) && IsNext(m, LookUp(m, Var(x)), k)
    case AssignNextRef(x, k, _) => !IsText(Current(m, x)) && IsNext(m, LookUp(m, Var(x)), k)
    case AssignAccess(x, y, k) => !IsString(Current(m, y)) && AccessFits(m, x, y, k)
    case AssignRefAccess(x, y, _) =>
      if x == y then IsRef(m, LookUp(m, Var(x))) && (Current(m, x) == Array || Falsy(Current(m, x)))
      else !IsText(Current(m, y))
    case UnsetElem(x, path, _) => !IsString(m.cells[Inner(m, LookUp(m, Var(x)), path)].value)
    case _ => true
  }

  /** After `$x = [5];`. */
  function OneHolds(x: Variable): Mem {
    Mem(map[0 := Zval(1, false, Plain(Null)), 1 := Zval(1, false, Array), 2 := Zval(1, false, Plain(Long(5)))],
        map[UNINIT := 0, Var(x) := 1, Elem(1, Index(0)) := 2], 3)
  }

  /** After `$x = [5]; $y = $x;`, or `$y =& $x`. */
  function TwoHold(x: Variable, y: Variable, isRef: bool): Mem {
    Mem(map[0 := Zval(1, false, Plain(Null)), 1 := Zval(2, isRef, Array), 2 := Zval(1, false, Plain(Long(5)))],
        map[UNINIT := 0, Var(x) := 1, Var(y) := 1, Elem(1, Index(0)) := 2], 3)
  }

  lemma OneHoldsReady(x: Variable)
    ensures Ready(OneHolds(x))
  {
    var m := OneHolds(x);
    assert Holders(m.slots, 0) == {UNINIT} && Holders(m.slots, 1) == {Var(x)};
    assert Holders(m.slots, 2) == {Elem(1, Index(0))};
  }

  lemma TwoHoldReady(x: Variable, y: Variable, isRef: bool)
    requires x != y
    ensures Ready(TwoHold(x, y, isRef))
  {
    var m := TwoHold(x, y, isRef);
    assert Holders(m.slots, 0) == {UNINIT} && Holders(m.slots, 1) == {Var(x), Var(y)};
    assert Holders(m.slots, 2) == {Elem(1, Index(0))};
  }

  /** With nobody else holding the array, the release of `$x` frees the 5. */
  lemma AccessFreed(x: Variable)
    ensures var m := OneHolds(x);
      Ready(m) && !Fits(m, AssignAccess(x, x, Index(0))) && !Fits(m, AssignRefAccess(x, x, Index(0)))
  {
    var m := OneHolds(x);
    OneHoldsReady(x);
    hide CellsCounted, TablesOwned;
    forall kept: set<Addr> | Supported(m, {Var(x)}, kept) ensures 2 !in kept {
      assert 1 in kept ==> HeldUp(m, {Var(x)}, kept, 1);
      assert 2 in kept ==> HeldUp(m, {Var(x)}, kept, 2);
    }
    assert WithVar(m, Var(x)) == m && !CanWrite(m, Var(x), 2);
  }

  /** With a second holder the array outlives the release, and the 5 may be taken. */
  lemma AccessShared(x: Variable, y: Variable)
    requires x != y
    ensures var m := TwoHold(x, y, false);
      Ready(m) && Fits(m, AssignAccess(x, x, Index(0))) && !Fits(m, AssignRefAccess(x, x, Index(0)))
  {
    var m := TwoHold(x, y, false);
    TwoHoldReady(x, y, false);
    AllLive(m, Var(x), 2, {});
    hide CellsCounted, TablesOwned;
    assert WithVar(m, Var(x)) == m && CanWrite(m, Var(x), 2);
  }

  /** Stored into its own entry, the copy of a reference array meets the freed cell of the 5. */
  lemma StoreFreed(x: Variable, y: Variable)
    requires x != y
    ensures var m := TwoHold(x, y, true); Ready(m) && !Fits(m, AssignArray(x, Index(0), FromVar(x)))
  {
    var m := TwoHold(x, y, true);
    var e := Elem(1, Index(0));
    TwoHoldReady(x, y, true);
    hide CellsCounted, TablesOwned;
    forall kept: set<Addr> | Supported(m, {e}, kept) ensures 2 !in kept {
      assert 2 in kept ==> HeldUp(m, {e}, kept, 2);
    }
    assert SlotLives(m, {e}, Var(x)) && SlotLives(m, {e}, Var(y)) && StaysRef(m, {e}, 1);
    assert !CanWrite(m, e, 1);
  }

  ghost predicate Step(m: Mem, st: Stmt, n: Mem)
    requires Ready(m)
  {
    Fits(m, st) && match st
    case AssignVar(x, rhs) => DidAssignVar(m, n, x, rhs)
    case AssignCast(x, rhs, kind, conv) => DidAssignCast(m, n, x, rhs, kind, conv)
    case AssignRef(x, y) => DidAssignRef(m, n, x, y)
    case UnsetVar(x) => DidUnsetVar(m, n, x)
    case AssignArray(x, k, rhs) => DidAssignArray(m, n, x, k, rhs)
    case AssignArrayRef(x, k, y) => DidAssignArrayRef(m, n, x, k, y)
    case AssignNext(x, k, rhs) => DidAssignNext(m, n, x, k, rhs)
    case AssignNextRef(x, k, y) => DidAssignNextRef(m, n, x, k, y)
    case AssignAccess(x, y, k) => DidAssignAccess(m, n, x, y, k)
    case AssignRefAccess(x, y, k) => DidAssignRefAccess(m, n, x, y, k)
    case UnsetElem(x, path, k) => DidUnsetElem(m, n, x, path, k)
  }

  // ---------------------------------------------------------------------------------------
  // Each statement isolates the variables it does not name
  // ---------------------------------------------------------------------------------------

  lemma AssignedIsolates(m: Mem, n: Mem, l: Slot, r: Addr, s: Slot)
    requires Ready(m) && WF(n, {}) && Local !in n.slots && l in m.slots && l != UNINIT && s.Var? && Assigned(m, n, l, r)
    requires l == s || (l.Elem? && Writable(m, s) && l.owner == m.slots[s])
    ensures Ready(n) && Isolates(m, n, {s})
  {
    if m.slots[l] == r {
      IsolatesRefl(m, {s});
    } else {
      WrittenSound(m, n, l, r, s);
    }
  }

  lemma AssignVarIsolates(m: Mem, n: Mem, x: Variable, rhs: Rvalue)
    requires Ready(m) && Ready(n) && DidAssignVar(m, n, x, rhs)
    ensures Isolates(m, n, {Var(x)})
  {
    var o :| GotVar(m, o, Var(x)) && Ready(o) && Assigned(o, n, Var(x), LookUp(o, SlotOf(rhs)));
    GotVarSound(m, o, Var(x));
    AssignedIsolates(o, n, Var(x), LookUp(o, SlotOf(rhs)), Var(x));
    IsolatesTrans(m, o, n, {Var(x)});
  }

  lemma CastIsolates(m: Mem, n: Mem, x: Variable, kind: Kind, conv: Conversions)
    requires Ready(m) && Ready(n) && Var(x) in m.slots && DidCast(m, n, Var(x), kind, conv)
    ensures Isolates(m, n, {Var(x)})
  {
    var s := Var(x);
    if KindOf(m.cells[m.slots[s]].value) == kind {
      IsolatesRefl(m, {s});
    } else {
      var o :| Separated(m, o, s) && Ready(o) && s in o.slots && !InCopyOnWrite(o.cells[o.slots[s]])
               && Converted(o, n, o.slots[s], kind, conv);
      SeparatedSound(m, o, s);
      ConvertedSound(o, n, s, kind, conv);
      IsolatesTrans(m, o, n, {s});
    }
  }

  lemma RefFromIsolates(o: Mem, p: Mem, n: Mem, x: Variable, l: Slot, y: Variable)
    requires Ready(o) && Ready(n) && l in o.slots && DidRefFrom(o, p, n, l, y)
    requires l == Var(x) || (l.Elem? && Writable(o, Var(x)) && l.owner == o.slots[Var(x)])
    ensures Isolates(o, n, {Var(x), Var(y)})
  {
    var q :| GotVar(o, q, Var(y)) && Ready(q) && Separated(q, p, Var(y)) && Ready(p)
                && l in p.slots && Var(y) in p.slots && !InCopyOnWrite(p.cells[p.slots[Var(y)]])
                && RefCopied(p, n, l, Var(y));
    hide Isolates, CellsCounted, NoDangling, TablesOwned, RefCopied;
    GotVarSound(o, q, Var(y));
    SeparatedSound(q, p, Var(y));
    if l.Elem? {
      WritableAfterBoth(o, q, p, Var(x), Var(y));
    }
    RefCopiedSound(p, n, l, Var(y), Var(x), {Var(x), Var(y)});
    IsolatesAll(o, q, p, n, {Var(y)}, {Var(y)}, {Var(x), Var(y)});
  }

  lemma IsolatesAll(m: Mem, o: Mem, p: Mem, n: Mem, r1: set<Slot>, r2: set<Slot>, roots: set<Slot>)
    requires Isolates(m, o, r1) && Isolates(o, p, r2) && Isolates(p, n, roots) && r1 <= roots && r2 <= roots
    ensures Isolates(m, n, roots)
  {
    IsolatesMore(m, o, r1, roots);
    IsolatesMore(o, p, r2, roots);
    IsolatesTrans(m, o, p, roots);
    IsolatesTrans(m, p, n, roots);
  }

  lemma WritableAfterGet(m: Mem, n: Mem, s: Slot, t: Slot)
    requires Ready(m) && Writable(m, s) && GotVar(m, n, t) && s != t
    ensures Writable(n, s) && n.slots[s] == m.slots[s]
  {
  }

  lemma WritableAfterBoth(o: Mem, q: Mem, p: Mem, s: Slot, t: Slot)
    requires Ready(o) && Ready(q) && Ready(p) && Writable(o, s) && s.Var? && t.Var?
    requires GotVar(o, q, t) && t in q.slots && Separated(q, p, t)
    ensures Writable(p, s) && p.slots[s] == o.slots[s]
  {
    if s != t {
      WritableAfterGet(o, q, s, t);
      WritableAfterSep(q, p, s, t);
    }
  }

  lemma AssignRefIsolates(m: Mem, n: Mem, x: Variable, y: Variable)
    requires Ready(m) && Ready(n) && DidAssignRef(m, n, x, y)
    ensures Isolates(m, n, {Var(x), Var(y)})
  {
    var o, p :| GotVar(m, o, Var(x)) && Ready(o) && DidRefFrom(o, p, n, Var(x), y);
    GotVarSound(m, o, Var(x));
    RefFromIsolates(o, p, n, x, Var(x), y);
    IsolatesAll(m, o, o, n, {Var(x)}, {}, {Var(x), Var(y)}) by { IsolatesRefl(o, {}); }
  }

  lemma UnsetVarIsolates(m: Mem, n: Mem, x: Variable)
    requires Ready(m) && Ready(n) && DidUnsetVar(m, n, x)
    ensures Isolates(m, n, {Var(x)})
  {
    RemovedSound(m, n, Var(x), Var(x));
  }

  lemma OpenArrayIsolates(m: Mem, n: Mem, x: Variable)
    requires Ready(m) && Ready(n) && DidOpenArray(m, n, x)
    ensures Isolates(m, n, {Var(x)})
  {
    var o :| GotVar(m, o, Var(x)) && Ready(o) && ArrayChecked(o, n, Var(x));
    GotVarSound(m, o, Var(x));
    CheckedSound(o, n, Var(x));
    IsolatesTrans(m, o, n, {Var(x)});
  }

  lemma StoreIsolates(m: Mem, n: Mem, x: Variable, k: Key, rhs: Rvalue)
    requires Ready(m) && Ready(n) && Var(x) in m.slots && DidStore(m, n, x, k, rhs)
    ensures Isolates(m, n, {Var(x)})
  {
    var o :| Ready(o) && Var(x) in o.slots && EntryGot(m, o, Var(x), k)
             && Assigned(o, n, Elem(o.slots[Var(x)], k), LookUp(o, SlotOf(rhs)));
    EntrySound(m, o, Var(x), k);
    AssignedIsolates(o, n, Elem(o.slots[Var(x)], k), LookUp(o, SlotOf(rhs)), Var(x));
    IsolatesTrans(m, o, n, {Var(x)});
  }

  lemma AssignArrayIsolates(m: Mem, n: Mem, x: Variable, k: Key, rhs: Rvalue)
    requires Ready(m) && Ready(n) && DidAssignArray(m, n, x, k, rhs)
    ensures Isolates(m, n, {Var(x)})
  {
    var o :| DidOpenArray(m, o, x) && Ready(o) && Var(x) in o.slots
                && if IsArray(o, o.slots[Var(x)]) then DidStore(o, n, x, k, rhs) else n == o;
    OpenArrayIsolates(m, o, x);
    if IsArray(o, o.slots[Var(x)]) {
      StoreIsolates(o, n, x, k, rhs);
      IsolatesTrans(m, o, n, {Var(x)});
    }
  }

  lemma StoreRefIsolates(m: Mem, n: Mem, x: Variable, k: Key, y: Variable)
    requires Ready(m) && Ready(n) && Var(x) in m.slots && DidStoreRef(m, n, x, k, y)
    ensures Isolates(m, n, {Var(x), Var(y)})
  {
    var o, p :| Ready(o) && Var(x) in o.slots && EntryGot(m, o, Var(x), k)
                && DidRefFrom(o, p, n, Elem(o.slots[Var(x)], k), y);
    EntrySound(m, o, Var(x), k);
    RefFromIsolates(o, p, n, x, Elem(o.slots[Var(x)], k), y);
    IsolatesAll(m, o, o, n, {Var(x)}, {}, {Var(x), Var(y)}) by { IsolatesRefl(o, {}); }
  }

  lemma AssignArrayRefIsolates(m: Mem, n: Mem, x: Variable, k: Key, y: Variable)
    requires Ready(m) && Ready(n) && DidAssignArrayRef(m, n, x, k, y)
    ensures Isolates(m, n, {Var(x), Var(y)})
  {
    var o :| DidOpenArray(m, o, x) && Ready(o) && Var(x) in o.slots
                && if IsArray(o, o.slots[Var(x)]) then DidStoreRef(o, n, x, k, y) else n == o;
    OpenArrayIsolates(m, o, x);
    IsolatesMore(m, o, {Var(x)}, {Var(x), Var(y)});
    if IsArray(o, o.slots[Var(x)]) {
      StoreRefIsolates(o, n, x, k, y);
      IsolatesTrans(m, o, n, {Var(x), Var(y)});
    }
  }

  lemma AssignNextIsolates(m: Mem, n: Mem, x: Variable, k: Key, rhs: Rvalue)
    requires Ready(m) && Ready(n) && DidAssignNext(m, n, x, k, rhs)
    ensures Isolates(m, n, {Var(x)})
  {
    var o :| GotVar(m, o, Var(x)) && Ready(o)
             && if PushResult(o.cells[o.slots[Var(x)]].value) == Entry then DidStore(o, n, x, k, rhs) else n == o;
    GotVarSound(m, o, Var(x));
    if PushResult(o.cells[o.slots[Var(x)]].value) == Entry {
      StoreIsolates(o, n, x, k, rhs);
      IsolatesTrans(m, o, n, {Var(x)});
    }
  }

  lemma AssignNextRefIsolates(m: Mem, n: Mem, x: Variable, k: Key, y: Variable)
    requires Ready(m) && Ready(n) && DidAssignNextRef(m, n, x, k, y)
    ensures Isolates(m, n, {Var(x), Var(y)})
  {
    var o :| GotVar(m, o, Var(x)) && Ready(o)
             && if PushResult(o.cells[o.slots[Var(x)]].value) == Entry then DidStoreRef(o, n, x, k, y) else n == o;
    GotVarSound(m, o, Var(x));
    IsolatesMore(m, o, {Var(x)}, {Var(x), Var(y)});
    if PushResult(o.cells[o.slots[Var(x)]].value) == Entry {
      StoreRefIsolates(o, n, x, k, y);
      IsolatesTrans(m, o, n, {Var(x), Var(y)});
    }
  }

  lemma AssignAccessIsolates(m: Mem, n: Mem, x: Variable, y: Variable, k: Key)
    requires Ready(m) && Ready(n) && DidAssignAccess(m, n, x, y, k)
    ensures Isolates(m, n, {Var(x)})
  {
    var o :| GotVar(m, o, Var(x)) && Ready(o)
             && Assigned(o, n, Var(x), LookUp(o, Elem(LookUp(o, Var(y)), k)));
    GotVarSound(m, o, Var(x));
    AssignedIsolates(o, n, Var(x), LookUp(o, Elem(LookUp(o, Var(y)), k)), Var(x));
    IsolatesTrans(m, o, n, {Var(x)});
  }

  lemma EntryWritable(m: Mem, o: Mem, s: Slot, k: Key)
    requires s in m.slots && s in o.slots && UNINIT in m.slots && EntryGot(m, o, s, k)
    ensures Writable(o, s) && Elem(o.slots[s], k) in o.slots
  {
  }

  lemma RefEntryIsolates(m: Mem, n: Mem, x: Variable, y: Variable, k: Key)
    requires Ready(m) && Ready(n) && Var(y) in m.slots && DidRefEntry(m, n, Var(x), y, k)
    ensures Isolates(m, n, {Var(x), Var(y)})
  {
    hide Isolates, RefCopied, EntryGot, Separated, InCopyOnWrite, CellsCounted, TablesOwned;
    var o, p :| Ready(o) && Var(y) in o.slots && EntryGot(m, o, Var(y), k) && Ready(p)
                   && Elem(o.slots[Var(y)], k) in o.slots && Separated(o, p, Elem(o.slots[Var(y)], k))
                   && Var(x) in p.slots && Elem(o.slots[Var(y)], k) in p.slots
                   && !InCopyOnWrite(p.cells[p.slots[Elem(o.slots[Var(y)], k)]])
                   && RefCopied(p, n, Var(x), Elem(o.slots[Var(y)], k));
    var e := Elem(o.slots[Var(y)], k);
    EntrySound(m, o, Var(y), k);
    EntryWritable(m, o, Var(y), k);
    SeparatedEntrySound(o, p, Var(y), e);
    RefCopiedSound(p, n, Var(x), e, Var(y), {Var(x), Var(y)});
    IsolatesAll(m, o, p, n, {Var(y)}, {Var(y)}, {Var(x), Var(y)});
  }

  /** Separating an entry of a writable array leaves the array writable. */
  lemma SeparatedEntrySound(o: Mem, p: Mem, s: Slot, e: Slot)
    requires Ready(o) && Ready(p) && Writable(o, s) && s.Var? && e in o.slots && e.Elem? && e.owner == o.slots[s]
    requires Separated(o, p, e)
    ensures Isolates(o, p, {s}) && Writable(p, s) && p.slots[s] == o.slots[s]
  {
    hide Kept, Isolates, Private, Elsewhere, Unjoined;
    SeparatedFrame(o, p, e);
    KeptMore(o, p, {e}, {}, {e, s});
    WritablePrivate(o, s, {e, s});
    CoolElsewhere(o, {e, s}, s, {s});
    SeparatedUnjoined(o, p, e, {s});
    Sound(o, p, {e, s}, {}, {s});
    WritableAfterSep(o, p, s, e);
  }

  lemma AssignRefAccessIsolates(m: Mem, n: Mem, x: Variable, y: Variable, k: Key)
    requires Ready(m) && Ready(n) && DidAssignRefAccess(m, n, x, y, k)
    ensures Isolates(m, n, {Var(x), Var(y)})
  {
    var o, p :| GotVar(m, o, Var(x)) && Ready(o) && DidOpenArray(o, p, y) && Ready(p) && Var(y) in p.slots
                && DidRefEntry(p, n, Var(x), y, k);
    GotVarSound(m, o, Var(x));
    OpenArrayIsolates(o, p, y);
    RefEntryIsolates(p, n, x, y, k);
    IsolatesAll(m, o, p, n, {Var(x)}, {Var(y)}, {Var(x), Var(y)});
  }

  lemma AssignCastIsolates(m: Mem, n: Mem, x: Variable, rhs: Rvalue, kind: Kind, conv: Conversions)
    requires Ready(m) && Ready(n) && DidAssignCast(m, n, x, rhs, kind, conv)
    ensures Isolates(m, n, {Var(x)})
  {
    var o :| DidAssignVar(m, o, x, rhs) && Ready(o) && Var(x) in o.slots && DidCast(o, n, Var(x), kind, conv);
    AssignVarIsolates(m, o, x, rhs);
    CastIsolates(o, n, x, kind, conv);
    IsolatesTrans(m, o, n, {Var(x)});
  }

  // ---------------------------------------------------------------------------------------
  // unset ($x[i]...[k])
  // ---------------------------------------------------------------------------------------

  /** The cell at the end of a chain of accesses. */
  ghost predicate Reaches(m: Mem, a: Addr, path: seq<Key>, d: Addr)
    decreases |path|
  {
    if path == [] then a == d
    else Elem(a, path[0]) in m.slots && Reaches(m, m.slots[Elem(a, path[0])], path[1..], d)
  }

  /** A chain that passes no reference leads from `a` to `d`. */
  ghost predicate Sees(m: Mem, a: Addr, d: Addr) {
    exists path :: Clean(m, a, path) && Reaches(m, a, path, d)
  }

  ghost predicate SeesInside(m: Mem, a: Addr, d: Addr) {
    exists path :: CleanInside(m, a, path) && Reaches(m, a, path, d)
  }

  /** Another root than `$x` sees the array `d` and its entry for `k`, in an array of its own or inside
      a reference set that `$x` does not belong to. */
  ghost predicate SeenElsewhere(m: Mem, x: Variable, d: Addr, k: Key) {
    && IsArray(m, d) && Elem(d, k) in m.slots && !IsRef(m, m.slots[Elem(d, k)])
    && exists s :: s in m.slots && !s.Elem? && s != Var(x) && SeenFrom(m, m.slots[s], x, d)
  }

  ghost predicate SeenFrom(m: Mem, a: Addr, x: Variable, d: Addr) {
    Sees(m, a, d) || (Aloof(m, a, {Var(x)}) && SeesInside(m, a, d))
  }

  /** A nested unset takes an entry away from a variable it does not name. */
  ghost predicate Leaks(m: Mem, st: Stmt)
    requires Ready(m)
  {
    st.UnsetElem? && st.path != [] && SeenElsewhere(m, st.x, Inner(m, LookUp(m, Var(st.x)), st.path), st.k)
  }

  lemma SeesNext(m: Mem, a: Addr, k: Key, d: Addr)
    requires a in m.cells && !m.cells[a].isRef && Elem(a, k) in m.slots && Sees(m, m.slots[Elem(a, k)], d)
    ensures Sees(m, a, d)
  {
    var path :| Clean(m, m.slots[Elem(a, k)], path) && Reaches(m, m.slots[Elem(a, k)], path, d);
    assert ([k] + path)[1..] == path;
    assert Clean(m, a, [k] + path) && Reaches(m, a, [k] + path, d);
  }

  /** A chain that does not come by the removed entry reads as before. */
  lemma {:induction false} CleanPast(p: Mem, n: Mem, d: Addr, k: Key, a: Addr, path: seq<Key>)
    requires WF(p, {}) && WF(n, {}) && Removed(p, n, Elem(d, k)) && a in n.cells && Clean(p, a, path)
    requires Elem(d, k) in p.slots && !IsRef(p, p.slots[Elem(d, k)]) ==> !Sees(p, a, d)
    ensures Clean(n, a, path) && Peek(n, a, path) == Peek(p, a, path)
    decreases |path|
  {
    hide CellsCounted, TablesOwned, Sees;
    if path != [] {
      var e := Elem(a, path[0]);
      assert Anchored(n, {}, e);
      Below(p, a);
      if e in p.slots {
        if e == Elem(d, k) {
          SeesItself(p, a);
        } else {
          if Sees(p, p.slots[e], d) {
            SeesNext(p, a, path[0], d);
          }
          CleanPast(p, n, d, k, p.slots[e], path[1..]);
        }
      }
    }
  }

  lemma SeesItself(m: Mem, a: Addr)
    requires Clean(m, a, [])
    ensures Sees(m, a, a)
  {
    assert Clean(m, a, []) && Reaches(m, a, [], a);
  }

  /** The chain comes to `d` only at its end. */
  ghost predicate FirstReaches(m: Mem, a: Addr, path: seq<Key>, d: Addr)
    decreases |path|
  {
    if path == [] then a == d
    else a != d && Elem(a, path[0]) in m.slots && FirstReaches(m, m.slots[Elem(a, path[0])], path[1..], d)
  }

  lemma {:induction false} FirstPath(m: Mem, a: Addr, path: seq<Key>, d: Addr) returns (q: seq<Key>)
    requires Clean(m, a, path) && Reaches(m, a, path, d)
    ensures Clean(m, a, q) && FirstReaches(m, a, q, d)
    decreases |path|
  {
    if a == d {
      q := [];
    } else {
      var rest := FirstPath(m, m.slots[Elem(a, path[0])], path[1..], d);
      q := [path[0]] + rest;
      assert q[1..] == rest;
    }
  }

  lemma {:induction false} LeakAlong(p: Mem, n: Mem, d: Addr, k: Key, a: Addr, path: seq<Key>)
    requires WF(p, {}) && WF(n, {}) && Removed(p, n, Elem(d, k)) && IsArray(p, d) && Elem(d, k) in p.slots
    requires FirstReaches(p, a, path, d) && Clean(p, a, path) && !IsRef(p, p.slots[Elem(d, k)]) && a in n.cells
    ensures Clean(p, a, path + [k]) && Peek(p, a, path + [k]) != Missing
    ensures Peek(n, a, path + [k]) == Missing
    decreases |path|
  {
    hide CellsCounted, TablesOwned;
    var whole := path + [k];
    if path == [] {
      assert whole[0] == k && whole[1..] == [];
    } else {
      var e := Elem(a, path[0]);
      assert whole[0] == path[0] && whole[1..] == path[1..] + [k];
      assert Anchored(n, {}, e);
      assert IsArray(p, a) by { EntryOwner(p, e); }
      LeakAlong(p, n, d, k, p.slots[e], path[1..]);
    }
  }

  lemma EntryOwner(m: Mem, e: Slot)
    requires WF(m, {}) && e in m.slots && e.Elem?
    ensures IsArray(m, e.owner)
  {
  }

  /** Removing an entry in place isolates exactly while no other root sees it. */
  lemma RemoveIsolates(p: Mem, n: Mem, x: Variable, d: Addr, k: Key)
    requires Ready(p) && Ready(n) && DidRemove(p, n, d, k)
    ensures Isolates(p, n, {Var(x)}) <==> !SeenElsewhere(p, x, d, k)
  {
    if !IsArray(p, d) {
      IsolatesRefl(p, {Var(x)});
    } else if SeenElsewhere(p, x, d, k) {
      RemoveLeaks(p, n, x, d, k);
    } else {
      RemoveKeeps(p, n, x, d, k);
    }
  }

  lemma RemoveLeaks(p: Mem, n: Mem, x: Variable, d: Addr, k: Key)
    requires Ready(p) && Ready(n) && Removed(p, n, Elem(d, k)) && SeenElsewhere(p, x, d, k)
    ensures !Isolates(p, n, {Var(x)})
  {
    var s :| s in p.slots && !s.Elem? && s != Var(x) && SeenFrom(p, p.slots[s], x, d);
    hide Isolates, CellsCounted, TablesOwned, Ready;
    RootStays(p, n, Elem(d, k), s);
    assert WF(p, {}) && WF(n, {}) by { ReadyWF(p); ReadyWF(n); }
    if Sees(p, p.slots[s], d) {
      var path :| Clean(p, p.slots[s], path) && Reaches(p, p.slots[s], path, d);
      var q := FirstPath(p, p.slots[s], path, d);
      LeakAlong(p, n, d, k, p.slots[s], q);
      NotIsolated(p, n, {Var(x)}, s, q + [k]);
    } else {
      var q := LeakInside(p, n, d, k, p.slots[s]);
      SetNotKept(p, n, {Var(x)}, p.slots[s], q);
    }
  }

  lemma LeakInside(p: Mem, n: Mem, d: Addr, k: Key, a: Addr) returns (q: seq<Key>)
    requires WF(p, {}) && WF(n, {}) && Removed(p, n, Elem(d, k)) && IsArray(p, d) && Elem(d, k) in p.slots
    requires SeesInside(p, a, d) && !IsRef(p, p.slots[Elem(d, k)]) && a in n.cells
    ensures CleanInside(p, a, q) && Peek(p, a, q) != Peek(n, a, q)
  {
    hide CellsCounted, TablesOwned;
    if a == d {
      q := [k];
      assert q[1..] == [] && q[0] == k;
    } else {
      var path :| CleanInside(p, a, path) && Reaches(p, a, path, d);
      var e := Elem(a, path[0]);
      assert Anchored(n, {}, e);
      assert IsArray(p, a) by { EntryOwner(p, e); }
      var rest := FirstPath(p, p.slots[e], path[1..], d);
      LeakAlong(p, n, d, k, p.slots[e], rest);
      q := [path[0]] + (rest + [k]);
      assert q[0] == path[0] && q[1..] == rest + [k];
    }
  }

  lemma SetNotKept(p: Mem, n: Mem, named: set<Slot>, a: Addr, path: seq<Key>)
    requires Aloof(p, a, named) && CleanInside(p, a, path) && Peek(p, a, path) != Peek(n, a, path)
    ensures !Isolates(p, n, named)
  {
  }

  lemma ReadyWF(m: Mem)
    requires Ready(m)
    ensures WF(m, {})
  {
  }

  lemma RemoveKeeps(p: Mem, n: Mem, x: Variable, d: Addr, k: Key)
    requires Ready(p) && Ready(n) && Removed(p, n, Elem(d, k)) && IsArray(p, d) && !SeenElsewhere(p, x, d, k)
    ensures Isolates(p, n, {Var(x)})
  {
    hide CellsCounted, TablesOwned, Sees, SeesInside, Clean, SetKept;
    forall s | s in p.slots && !s.Elem? && s != Var(x) ensures s in n.slots && n.slots[s] == p.slots[s] {
      RootStays(p, n, Elem(d, k), s);
    }
    forall s, path | s in p.slots && !s.Elem? && s != Var(x) && Clean(p, p.slots[s], path)
      ensures Clean(n, p.slots[s], path) && Peek(n, p.slots[s], path) == Peek(p, p.slots[s], path)
    {
      RootStays(p, n, Elem(d, k), s);
      CleanPast(p, n, d, k, p.slots[s], path);
    }
    forall a | Aloof(p, a, {Var(x)}) ensures SetKept(p, n, a) {
      SetPast(p, n, x, d, k, a);
    }
  }

  lemma SetPast(p: Mem, n: Mem, x: Variable, d: Addr, k: Key, a: Addr)
    requires Ready(p) && Ready(n) && Removed(p, n, Elem(d, k)) && IsArray(p, d) && !SeenElsewhere(p, x, d, k)
    requires Aloof(p, a, {Var(x)})
    ensures SetKept(p, n, a)
  {
    hide TablesOwned, SeesInside, Sees, Clean;
    var s, t := TwoMembers(p, a, {Var(x)});
    AloofStays(p, n, {Elem(d, k)}, {}, a, {Var(x)});
    RemovedUnjoined(p, n, Elem(d, k), {Var(x)});
    forall path | CleanInside(p, a, path)
      ensures CleanInside(n, a, path) && Peek(n, a, path) == Peek(p, a, path)
    {
      assert Elem(d, k) in p.slots && !IsRef(p, p.slots[Elem(d, k)]) ==> !SeenFrom(p, p.slots[s], x, d);
      InsidePast(p, n, d, k, a, path);
    }
  }

  lemma InsidePast(p: Mem, n: Mem, d: Addr, k: Key, a: Addr, path: seq<Key>)
    requires WF(p, {}) && WF(n, {}) && Removed(p, n, Elem(d, k)) && a in p.cells && a in n.cells
    requires CleanInside(p, a, path)
    requires Elem(d, k) in p.slots && !IsRef(p, p.slots[Elem(d, k)]) ==> !SeesInside(p, a, d)
    ensures CleanInside(n, a, path) && Peek(n, a, path) == Peek(p, a, path)
  {
    hide CellsCounted, TablesOwned, Sees, SeesInside;
    if path != [] {
      var e := Elem(a, path[0]);
      assert Anchored(n, {}, e);
      Below(p, a);
      if e in p.slots {
        if e == Elem(d, k) {
          InsideItself(p, a);
        } else {
          if Sees(p, p.slots[e], d) {
            InsideNext(p, a, path[0], d);
          }
          CleanPast(p, n, d, k, p.slots[e], path[1..]);
        }
      }
    }
  }

  lemma InsideItself(m: Mem, a: Addr)
    ensures SeesInside(m, a, a)
  {
    assert CleanInside(m, a, []) && Reaches(m, a, [], a);
  }

  lemma InsideNext(m: Mem, a: Addr, k: Key, d: Addr)
    requires Elem(a, k) in m.slots && Sees(m, m.slots[Elem(a, k)], d)
    ensures SeesInside(m, a, d)
  {
    var path :| Clean(m, m.slots[Elem(a, k)], path) && Reaches(m, m.slots[Elem(a, k)], path, d);
    assert ([k] + path)[1..] == path;
    assert CleanInside(m, a, [k] + path) && Reaches(m, a, [k] + path, d);
  }

  lemma RootStays(p: Mem, n: Mem, e: Slot, s: Slot)
    requires Ready(p) && Ready(n) && Removed(p, n, e) && s in p.slots && !s.Elem? && s != e
    ensures s in n.slots && n.slots[s] == p.slots[s] && p.slots[s] in p.cells && p.slots[s] in n.cells
  {
    hide CellsCounted, TablesOwned;
    assert Anchored(n, {}, s);
  }

  lemma NotIsolated(p: Mem, n: Mem, named: set<Slot>, s: Slot, path: seq<Key>)
    requires s in p.slots && s in n.slots && !s.Elem? && s !in named && Clean(p, p.slots[s], path)
    requires Peek(n, n.slots[s], path) != Peek(p, p.slots[s], path)
    ensures !Isolates(p, n, named)
  {
  }

  /** The cells of `m` are in `p` with the same values, flags and entries. */
  ghost predicate Alike(m: Mem, p: Mem) {
    forall a :: a in m.cells ==> AlikeAt(m, p, a)
  }

  ghost predicate AlikeAt(m: Mem, p: Mem, a: Addr)
    requires a in m.cells
  {
    && a in p.cells && p.cells[a].value == m.cells[a].value && p.cells[a].isRef == m.cells[a].isRef
    && forall k :: SameEntry(m, p, a, k)
  }

  ghost predicate RootsAlike(m: Mem, p: Mem, x: Variable) {
    && (forall s: Slot :: !s.Elem? && s != Var(x) ==>
         (s in p.slots <==> s in m.slots) && (s in m.slots ==> p.slots[s] == m.slots[s]))
    && (Var(x) in m.slots && IsRef(m, m.slots[Var(x)]) ==> Var(x) in p.slots && p.slots[Var(x)] == m.slots[Var(x)])
  }

  lemma {:induction false} AlikePaths(m: Mem, p: Mem, a: Addr, path: seq<Key>, d: Addr)
    requires NoDangling(m) && Alike(m, p) && a in m.cells
    ensures Clean(p, a, path) <==> Clean(m, a, path)
    ensures Reaches(p, a, path, d) <==> Reaches(m, a, path, d)
    ensures Peek(p, a, path) == Peek(m, a, path)
    decreases |path|
  {
    assert AlikeAt(m, p, a);
    if path != [] {
      assert SameEntry(m, p, a, path[0]);
      if Elem(a, path[0]) in m.slots {
        AlikePaths(m, p, m.slots[Elem(a, path[0])], path[1..], d);
      }
    }
  }

  lemma AlikeSees(m: Mem, p: Mem, a: Addr, d: Addr)
    requires NoDangling(m) && Alike(m, p) && a in m.cells
    ensures Sees(p, a, d) <==> Sees(m, a, d)
    ensures SeesInside(p, a, d) <==> SeesInside(m, a, d)
  {
    forall path ensures Clean(p, a, path) && Reaches(p, a, path, d) <==> Clean(m, a, path) && Reaches(m, a, path, d)
      ensures CleanInside(p, a, path) && Reaches(p, a, path, d) <==> CleanInside(m, a, path) && Reaches(m, a, path, d)
    {
      AlikePaths(m, p, a, path, d);
      AlikeInside(m, p, a, path);
    }
  }

  lemma AlikeInside(m: Mem, p: Mem, a: Addr, path: seq<Key>)
    requires NoDangling(m) && Alike(m, p) && a in m.cells
    ensures CleanInside(p, a, path) <==> CleanInside(m, a, path)
  {
    assert AlikeAt(m, p, a);
    if path != [] {
      assert SameEntry(m, p, a, path[0]);
      if Elem(a, path[0]) in m.slots {
        AlikePaths(m, p, m.slots[Elem(a, path[0])], path[1..], a);
      }
    }
  }

  /** The reference sets without `$x` are the same. */
  lemma AloofAlike(m: Mem, p: Mem, x: Variable, a: Addr)
    requires WF(m, {}) && Alike(m, p) && RootsAlike(m, p, x) && SetsKept(m, p, {Var(x)}) && a in m.cells
    ensures Aloof(p, a, {Var(x)}) <==> Aloof(m, a, {Var(x)})
  {
    hide CellsCounted;
    assert AlikeAt(m, p, a);
    if Aloof(m, a, {Var(x)}) {
      assert SetKept(m, p, a);
    } else if IsRef(m, a) {
      var s :| s in m.slots && m.slots[s] == a && (s.Elem? || s == Var(x));
      if s.Elem? {
        assert AlikeAt(m, p, s.owner) && SameEntry(m, p, s.owner, s.key) && s == Elem(s.owner, s.key);
      }
      assert s in p.slots && p.slots[s] == a;
    }
  }

  lemma {:induction false} AlikeInner(m: Mem, p: Mem, a: Addr, path: seq<Key>)
    requires NoDangling(m) && NoDangling(p) && Alike(m, p) && a in m.cells
    requires UNINIT in m.slots && UNINIT in p.slots && p.slots[UNINIT] == m.slots[UNINIT]
    ensures a in p.cells && Inner(p, a, path) == Inner(m, a, path)
    decreases |path|
  {
    assert AlikeAt(m, p, a);
    if path != [] {
      assert SameEntry(m, p, a, path[0]);
      AlikeInner(m, p, if IsArray(m, a) then LookUp(m, Elem(a, path[0])) else a, path[1..]);
    }
  }

  /** A variable is bound and separated: nobody else sees a difference. */
  lemma BoundAlike(m: Mem, o: Mem, p: Mem, x: Variable)
    requires Ready(m) && Ready(o) && GotVar(m, o, Var(x)) && Var(x) in o.slots && Separated(o, p, Var(x))
    ensures Alike(m, p) && RootsAlike(m, p, x)
  {
    hide CellsCounted, TablesOwned, CloneOf;
    forall a | a in m.cells ensures AlikeAt(m, p, a) {
      forall k ensures SameEntry(m, p, a, k) {
        assert a in o.cells && (Elem(a, k) in o.slots <==> Elem(a, k) in m.slots);
        assert a < o.next by { Below(o, a); }
        assert o != p ==> Anchored(p, {}, Elem(a, k));
      }
    }
    forall s: Slot | !s.Elem? && s != Var(x)
      ensures (s in p.slots <==> s in m.slots) && (s in m.slots ==> p.slots[s] == m.slots[s])
    {
      assert o != p ==> Anchored(p, {}, s);
    }
  }

  lemma Below(m: Mem, a: Addr)
    requires WF(m, {}) && a in m.cells
    ensures a < m.next
  {
  }

  /** The inner arrays of the separated variable are those from before. */
  lemma BoundInner(m: Mem, o: Mem, p: Mem, x: Variable, path: seq<Key>)
    requires Ready(m) && Ready(o) && Ready(p) && GotVar(m, o, Var(x)) && Var(x) in o.slots && Var(x) in p.slots
    requires Separated(o, p, Var(x)) && Alike(m, p) && RootsAlike(m, p, x)
    ensures var c, d := Inner(m, LookUp(m, Var(x)), path), Inner(p, p.slots[Var(x)], path);
      p.cells[d].value == m.cells[c].value && (path != [] && IsArray(p, d) ==> c == d)
  {
    hide CellsCounted, TablesOwned;
    var a, b := LookUp(m, Var(x)), p.slots[Var(x)];
    assert p.cells[b].value == m.cells[a].value;
    if path != [] {
      if IsArray(m, a) {
        assert Elem(b, path[0]) in p.slots <==> Elem(a, path[0]) in m.slots;
        assert LookUp(p, Elem(b, path[0])) == LookUp(m, Elem(a, path[0]));
        AlikeInner(m, p, LookUp(m, Elem(a, path[0])), path[1..]);
        assert AlikeAt(m, p, Inner(m, a, path));
      } else {
        StaysPut(m, a, path);
        StaysPut(p, b, path);
      }
    }
  }

  lemma {:induction false} StaysPut(m: Mem, a: Addr, path: seq<Key>)
    requires NoDangling(m) && UNINIT in m.slots && a in m.cells && !IsArray(m, a)
    ensures Inner(m, a, path) == a
    decreases |path|
  {
    if path != [] {
      StaysPut(m, a, path[1..]);
    }
  }

  lemma BoundSeen(m: Mem, p: Mem, x: Variable, d: Addr, k: Key)
    requires WF(m, {}) && Alike(m, p) && RootsAlike(m, p, x) && SetsKept(m, p, {Var(x)}) && d in m.cells
    ensures SeenElsewhere(p, x, d, k) <==> SeenElsewhere(m, x, d, k)
  {
    hide CellsCounted, TablesOwned, Sees, SeesInside, Aloof, SetsKept;
    assert AlikeAt(m, p, d) && SameEntry(m, p, d, k);
    assert Elem(d, k) in m.slots ==> AlikeAt(m, p, m.slots[Elem(d, k)]);
    forall s | s in m.slots ensures SeenFrom(p, m.slots[s], x, d) <==> SeenFrom(m, m.slots[s], x, d) {
      AlikeSees(m, p, m.slots[s], d);
      AloofAlike(m, p, x, m.slots[s]);
    }
  }

  lemma BoundIsolates(m: Mem, p: Mem, n: Mem, x: Variable)
    requires WF(m, {}) && WF(p, {}) && Alike(m, p) && RootsAlike(m, p, x)
    requires SetsKept(m, p, {Var(x)}) && Isolates(m, n, {Var(x)})
    ensures Isolates(p, n, {Var(x)})
  {
    hide CellsCounted, TablesOwned, Aloof, SetKept;
    forall s, path | s in p.slots && !s.Elem? && s != Var(x) && Clean(p, p.slots[s], path)
      ensures s in m.slots && Clean(m, m.slots[s], path) && Peek(p, p.slots[s], path) == Peek(m, m.slots[s], path)
    {
      AlikePaths(m, p, m.slots[s], path, m.slots[s]);
    }
    forall a | Aloof(p, a, {Var(x)}) ensures SetKept(p, n, a) {
      BoundSet(m, p, n, x, a);
    }
  }

  lemma BoundSet(m: Mem, p: Mem, n: Mem, x: Variable, a: Addr)
    requires WF(m, {}) && WF(p, {}) && Alike(m, p) && RootsAlike(m, p, x)
    requires SetsKept(m, p, {Var(x)}) && SetsKept(m, n, {Var(x)}) && Aloof(p, a, {Var(x)})
    ensures SetKept(p, n, a)
  {
    var s, t := TwoMembers(p, a, {Var(x)});
    hide CellsCounted, TablesOwned;
    AloofAlike(m, p, x, a);
    assert SetKept(m, n, a);
    forall path | CleanInside(p, a, path)
      ensures CleanInside(n, a, path) && Peek(n, a, path) == Peek(p, a, path)
    {
      AlikeInside(m, p, a, path);
      AlikePaths(m, p, a, path, a);
    }
  }

  lemma UnsetElemIsolates(m: Mem, n: Mem, x: Variable, path: seq<Key>, k: Key)
    requires Ready(m) && Ready(n) && DidUnsetElem(m, n, x, path, k)
    ensures Isolates(m, n, {Var(x)}) <==> !Leaks(m, UnsetElem(x, path, k))
  {
    var o, p :| GotVar(m, o, Var(x)) && Ready(o) && Separated(o, p, Var(x)) && Ready(p) && Var(x) in p.slots
                && !InCopyOnWrite(p.cells[p.slots[Var(x)]])
                && DidRemove(p, n, Inner(p, p.slots[Var(x)], path), k);
    UnsetVia(m, o, p, n, x, path, k);
  }

  lemma UnsetVia(m: Mem, o: Mem, p: Mem, n: Mem, x: Variable, path: seq<Key>, k: Key)
    requires Ready(m) && Ready(n) && GotVar(m, o, Var(x)) && Ready(o) && Var(x) in o.slots
    requires Separated(o, p, Var(x)) && Ready(p) && Var(x) in p.slots
    requires !InCopyOnWrite(p.cells[p.slots[Var(x)]]) && DidRemove(p, n, Inner(p, p.slots[Var(x)], path), k)
    ensures Isolates(m, n, {Var(x)}) <==> !Leaks(m, UnsetElem(x, path, k))
  {
    hide CellsCounted, TablesOwned, Isolates, Separated, Alike, RootsAlike, SeenElsewhere;
    var c, d := Inner(m, LookUp(m, Var(x)), path), Inner(p, p.slots[Var(x)], path);
    BoundAlike(m, o, p, x);
    BoundInner(m, o, p, x, path);
    GotVarSound(m, o, Var(x));
    SeparatedSound(o, p, Var(x));
    IsolatesTrans(m, o, p, {Var(x)});
    if path == [] {
      TopIsolates(p, n, x, k);
      IsolatesTrans(m, p, n, {Var(x)});
    } else if !IsArray(p, d) {
      SeesNothing(m, x, c, k);
    } else {
      RemoveIsolates(p, n, x, d, k);
      BoundSeen(m, p, x, d, k);
      if Isolates(p, n, {Var(x)}) {
        IsolatesTrans(m, p, n, {Var(x)});
      }
      if Isolates(m, n, {Var(x)}) {
        BoundIsolates(m, p, n, x);
      }
    }
  }

  lemma TopIsolates(p: Mem, n: Mem, x: Variable, k: Key)
    requires Ready(p) && Ready(n) && Var(x) in p.slots && !InCopyOnWrite(p.cells[p.slots[Var(x)]])
    requires DidRemove(p, n, p.slots[Var(x)], k)
    ensures Isolates(p, n, {Var(x)})
  {
    if IsArray(p, p.slots[Var(x)]) {
      RemovedSound(p, n, Elem(p.slots[Var(x)], k), Var(x));
    } else {
      IsolatesRefl(p, {Var(x)});
    }
  }

  lemma SeesNothing(m: Mem, x: Variable, d: Addr, k: Key)
    requires !IsArray(m, d)
    ensures !SeenElsewhere(m, x, d, k)
  {
  }

  /** After `$x = [[5]]; $y = $x;`. */
  function NestedHold(x: Variable, y: Variable): Mem {
    Mem(map[0 := Zval(1, false, Plain(Null)), 1 := Zval(2, false, Array), 2 := Zval(1, false, Array),
            3 := Zval(1, false, Plain(Long(5)))],
        map[UNINIT := 0, Var(x) := 1, Var(y) := 1, Elem(1, Index(0)) := 2, Elem(2, Index(0)) := 3], 4)
  }

  /** Then `unset ($x[0][0])` takes the 5 from `$y` too. */
  lemma NestedUnsetLeaks(x: Variable, y: Variable)
    requires x != y
    ensures var m, st := NestedHold(x, y), UnsetElem(x, [Index(0)], Index(0)); Ready(m) && Fits(m, st) && Leaks(m, st)
  {
    hide NestedHold, Ready, Sees;
    var m, path := NestedHold(x, y), [Index(0)];
    NestedHas(x, y);
    NestedReady(x, y);
    assert path[1..] == [];
    assert Inner(m, 1, path) == Inner(m, 2, []) == 2 by { NestedInner(m, path); }
    NestedSees(m, y, path);
    assert SeenFrom(m, m.slots[Var(y)], x, 2);
  }

  lemma NestedHas(x: Variable, y: Variable)
    requires x != y
    ensures var m := NestedHold(x, y);
      && m.slots.Keys == {UNINIT, Var(x), Var(y), Elem(1, Index(0)), Elem(2, Index(0))} && m.cells.Keys == {0, 1, 2, 3}
      && m.slots[UNINIT] == 0 && m.slots[Var(x)] == 1 && m.slots[Var(y)] == 1
      && m.slots[Elem(1, Index(0))] == 2 && m.slots[Elem(2, Index(0))] == 3
      && m.cells[0] == Zval(1, false, Plain(Null)) && m.cells[1] == Zval(2, false, Array)
      && m.cells[2] == Zval(1, false, Array) && m.cells[3] == Zval(1, false, Plain(Long(5))) && m.next == 4
  {
  }

  lemma NestedReady(x: Variable, y: Variable)
    requires x != y
    ensures Ready(NestedHold(x, y))
  {
    var m := NestedHold(x, y);
    NestedHas(x, y);
    hide NestedHold;
    assert Holders(m.slots, 0) == {UNINIT} && Holders(m.slots, 1) == {Var(x), Var(y)};
    assert Holders(m.slots, 2) == {Elem(1, Index(0))} && Holders(m.slots, 3) == {Elem(2, Index(0))};
  }

  lemma NestedInner(m: Mem, path: seq<Key>)
    requires Ready(m) && IsArray(m, 1) && Elem(1, Index(0)) in m.slots && m.slots[Elem(1, Index(0))] == 2
    requires 2 in m.cells && path == [Index(0)]
    ensures Inner(m, 1, path) == Inner(m, 2, []) == 2
  {
    assert path[1..] == [];
  }

  lemma NestedSees(m: Mem, y: Variable, path: seq<Key>)
    requires Var(y) in m.slots && m.slots[Var(y)] == 1 && 1 in m.cells && 2 in m.cells && path == [Index(0)]
    requires Elem(1, Index(0)) in m.slots && m.slots[Elem(1, Index(0))] == 2
    requires !m.cells[1].isRef && !m.cells[2].isRef
    ensures Sees(m, m.slots[Var(y)], 2)
  {
    assert path[1..] == [];
    assert Clean(m, 2, []) && Reaches(m, 2, [], 2);
    assert Clean(m, m.slots[Var(y)], path) && Reaches(m, m.slots[Var(y)], path, 2);
  }

  /** A statement leaves alone whatever a variable it does not name, or a reference set of such, can
      read without passing a reference, exactly when it is no nested unset of an entry that one of
      these shares. */
  lemma StepIsolates(m: Mem, st: Stmt, n: Mem)
    requires Ready(m) && Ready(n) && Step(m, st, n)
    ensures Isolates(m, n, Named(st)) <==> !Leaks(m, st)
  {
    hide Isolates, Ready, Fits;
    match st
    case AssignVar(x, rhs) => AssignVarIsolates(m, n, x, rhs);
    case AssignCast(x, rhs, kind, conv) => AssignCastIsolates(m, n, x, rhs, kind, conv);
    case AssignRef(x, y) => AssignRefIsolates(m, n, x, y);
    case UnsetVar(x) => UnsetVarIsolates(m, n, x);
    case AssignArray(x, k, rhs) => AssignArrayIsolates(m, n, x, k, rhs);
    case AssignArrayRef(x, k, y) => AssignArrayRefIsolates(m, n, x, k, y);
    case AssignNext(x, k, rhs) => AssignNextIsolates(m, n, x, k, rhs);
    case AssignNextRef(x, k, y) => AssignNextRefIsolates(m, n, x, k, y);
    case AssignAccess(x, y, k) => AssignAccessIsolates(m, n, x, y, k);
    case AssignRefAccess(x, y, k) => AssignRefAccessIsolates(m, n, x, y, k);
    case UnsetElem(x, path, k) => UnsetElemIsolates(m, n, x, path, k);
  }

  // ---------------------------------------------------------------------------------------
  // Whole runs
  // ---------------------------------------------------------------------------------------

  ghost predicate Run(ms: seq<Mem>, program: seq<Stmt>) {
    && |ms| == |program| + 1
    && (forall i :: 0 <= i < |ms| ==> Ready(ms[i]))
    && (forall i :: 0 <= i < |program| ==> Step(ms[i], program[i], ms[i + 1]))
  }

  lemma RunRest(ms: seq<Mem>, program: seq<Stmt>)
    requires Run(ms, program) && program != []
    ensures |ms| > 1 && Ready(ms[0]) && Ready(ms[1]) && Step(ms[0], program[0], ms[1]) && Run(ms[1..], program[1..])
  {
  }

  lemma RootStep(m: Mem, st: Stmt, n: Mem, s: Slot, path: seq<Key>)
    requires Ready(m) && Ready(n) && Step(m, st, n) && !Leaks(m, st)
    requires s in m.slots && !s.Elem? && s !in Named(st) && Clean(m, m.slots[s], path)
    ensures s in n.slots && n.slots[s] == m.slots[s] && Clean(n, n.slots[s], path)
    ensures Peek(n, n.slots[s], path) == Peek(m, m.slots[s], path)
  {
    hide Ready, Step, Leaks;
    StepIsolates(m, st, n);
  }

  /** Copy-on-write over a whole run: whatever happens through other variables, a variable that no
      statement names reads the same at every chain of accesses that passes no reference. */
  lemma {:induction false} RunIsolates(ms: seq<Mem>, program: seq<Stmt>, s: Slot, path: seq<Key>)
    requires Run(ms, program) && s in ms[0].slots && !s.Elem?
    requires forall i :: 0 <= i < |program| ==> s !in Named(program[i]) && !Leaks(ms[i], program[i])
    requires Clean(ms[0], ms[0].slots[s], path)
    ensures var last := ms[|program|];
      && s in last.slots && last.slots[s] == ms[0].slots[s] && Clean(last, last.slots[s], path)
      && Peek(last, last.slots[s], path) == Peek(ms[0], ms[0].slots[s], path)
    decreases |program|
  {
    hide Run, Leaks, Peek, Step, Clean;
    if program != [] {
      RunRest(ms, program);
      RootStep(ms[0], program[0], ms[1], s, path);
      forall i | 0 <= i < |program[1..]| ensures s !in Named(program[1..][i]) && !Leaks(ms[1..][i], program[1..][i]) {
        assert program[1..][i] == program[i + 1] && ms[1..][i] == ms[i + 1];
      }
      RunIsolates(ms[1..], program[1..], s, path);
    }
  }

  lemma SetStep(m: Mem, st: Stmt, n: Mem, a: Addr)
    requires Ready(m) && Ready(n) && Step(m, st, n) && !Leaks(m, st) && Aloof(m, a, {}) && Aloof(m, a, Named(st))
    ensures SetKept(m, n, a) && forall named :: Aloof(m, a, named) ==> Aloof(n, a, named)
    ensures forall s :: s in n.slots && n.slots[s] == a <==> s in m.slots && m.slots[s] == a
  {
    hide Ready, Step, Leaks;
    StepIsolates(m, st, n);
  }

  lemma InsideSame(m: Mem, n: Mem, a: Addr, path: seq<Key>)
    requires SetKept(m, n, a) && CleanInside(m, a, path)
    ensures CleanInside(n, a, path) && Peek(n, a, path) == Peek(m, a, path)
  {
  }

  /** The same for a reference set of variables: while no statement names a member, and no array entry
      belongs to it, it keeps its members and reads the same at every chain that passes no other
      reference. */
  lemma {:induction false} RunIsolatesSet(ms: seq<Mem>, program: seq<Stmt>, a: Addr, path: seq<Key>)
    requires Run(ms, program) && Aloof(ms[0], a, {}) && CleanInside(ms[0], a, path)
    requires forall i :: 0 <= i < |program| ==> Aloof(ms[0], a, Named(program[i])) && !Leaks(ms[i], program[i])
    ensures var last := ms[|program|];
      && Aloof(last, a, {}) && CleanInside(last, a, path) && Peek(last, a, path) == Peek(ms[0], a, path)
      && forall s :: s in last.slots && last.slots[s] == a <==> s in ms[0].slots && ms[0].slots[s] == a
    decreases |program|
  {
    hide Run, Leaks, Peek, Step, Aloof, Clean, SetKept;
    if program != [] {
      RunRest(ms, program);
      SetStep(ms[0], program[0], ms[1], a);
      InsideSame(ms[0], ms[1], a, path);
      forall i | 0 <= i < |program[1..]|
        ensures Aloof(ms[1..][0], a, Named(program[1..][i])) && !Leaks(ms[1..][i], program[1..][i])
      {
        assert program[1..][i] == program[i + 1] && ms[1..][i] == ms[i + 1];
      }
      RunIsolatesSet(ms[1..], program[1..], a, path);
    }
  }

  lemma StepKeepsFixed(m: Mem, st: Stmt, n: Mem, id: nat)
    requires Ready(m) && Ready(n) && Step(m, st, n) && Fixed(id) in m.slots && Clean(m, m.slots[Fixed(id)], [])
    ensures m.slots[Fixed(id)] in m.cells && m.slots[Fixed(id)] in n.cells
    ensures Fixed(id) in n.slots && n.slots[Fixed(id)] == m.slots[Fixed(id)] && Clean(n, n.slots[Fixed(id)], [])
    ensures n.cells[n.slots[Fixed(id)]].value == m.cells[m.slots[Fixed(id)]].value
  {
    hide Ready, Fits;
    if st.UnsetElem? {
      UnsetKeepsFixed(m, n, st.x, st.path, st.k, id);
    } else {
      hide Step;
      StepIsolates(m, st, n);
      assert Fixed(id) !in Named(st);
      PeekValue(m, n, m.slots[Fixed(id)]);
    }
  }

  lemma UnsetKeepsFixed(m: Mem, n: Mem, x: Variable, path: seq<Key>, k: Key, id: nat)
    requires Ready(m) && Ready(n) && DidUnsetElem(m, n, x, path, k)
    requires Fixed(id) in m.slots && Clean(m, m.slots[Fixed(id)], [])
    ensures m.slots[Fixed(id)] in m.cells && m.slots[Fixed(id)] in n.cells
    ensures Fixed(id) in n.slots && n.slots[Fixed(id)] == m.slots[Fixed(id)] && Clean(n, n.slots[Fixed(id)], [])
    ensures n.cells[n.slots[Fixed(id)]].value == m.cells[m.slots[Fixed(id)]].value
  {
    hide CellsCounted, TablesOwned, Separated;
    var o, p :| GotVar(m, o, Var(x)) && Ready(o) && Separated(o, p, Var(x)) && Ready(p) && Var(x) in p.slots
                && !InCopyOnWrite(p.cells[p.slots[Var(x)]])
                && DidRemove(p, n, Inner(p, p.slots[Var(x)], path), k);
    BoundAlike(m, o, p, x);
    assert AlikeAt(m, p, m.slots[Fixed(id)]) && Fixed(id) in p.slots;
    if IsArray(p, Inner(p, p.slots[Var(x)], path)) {
      RootStays(p, n, Elem(Inner(p, p.slots[Var(x)], path), k), Fixed(id));
    }
  }

  lemma FixedHeld(m: Mem, id: nat)
    requires Ready(m) && Fixed(id) in m.slots && Clean(m, m.slots[Fixed(id)], [])
    ensures m.slots[Fixed(id)] in m.cells
    ensures var z := m.cells[m.slots[Fixed(id)]]; !z.isRef && z.refcount >= 1
  {
    assert Fixed(id) in Holders(m.slots, m.slots[Fixed(id)]);
  }

  lemma PeekValue(m: Mem, n: Mem, a: Addr)
    requires a in m.cells && a in n.cells
    ensures Peek(m, a, []) == Peek(n, a, []) ==> m.cells[a].value == n.cells[a].value
  {
  }

  /** The cells behind the engine's fixed pointers - the shared uninitialised cell and the literal
      pool - stay where they are, keep their value, are no references, and keep a holder, in every
      memory of every run (misc.c:52-67). */
  lemma {:induction false} RunKeepsFixed(ms: seq<Mem>, program: seq<Stmt>, id: nat)
    requires Run(ms, program) && Fixed(id) in ms[0].slots && Clean(ms[0], ms[0].slots[Fixed(id)], [])
    ensures ms[0].slots[Fixed(id)] in ms[0].cells && ms[0].slots[Fixed(id)] in ms[|program|].cells
    ensures var last := ms[|program|]; Fixed(id) in last.slots && last.slots[Fixed(id)] == ms[0].slots[Fixed(id)]
    ensures var z := ms[|program|].cells[ms[0].slots[Fixed(id)]];
      !z.isRef && z.refcount >= 1 && z.value == ms[0].cells[ms[0].slots[Fixed(id)]].value
    decreases |program|
  {
    hide Step, Clean, Ready;
    if program == [] {
      FixedHeld(ms[0], id);
    } else {
      StepKeepsFixed(ms[0], program[0], ms[1], id);
      RunKeepsFixed(ms[1..], program[1..], id);
    }
  }
}
