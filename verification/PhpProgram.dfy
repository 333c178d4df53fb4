/**
 The statements as code: each method strings the runtime operations together in the order of its
 template, and is proved to take the step that PhpStatements describes.
*/
module PhpProgram {
  import opened ZvalHeap
  import opened ZvalFrame
  import opened ZvalRelease
  import opened ZvalSteps
  import opened ZvalSets
  import opened ZvalRuntime
  import opened PhpStatements

  /** Binding a variable does not change what is read of it, nor of another. */
  lemma GotVarReads(m: Mem, o: Mem, x: Variable, y: Variable)
    requires Ready(m) && Ready(o) && GotVar(m, o, Var(x))
    ensures Var(x) in o.slots && Current(o, y) == Current(m, y)
    ensures IsRef(o, LookUp(o, Var(y))) <==> IsRef(m, LookUp(m, Var(y)))
    ensures forall rhs :: OwnReference(o, x, rhs) ==> OwnReference(m, x, rhs)
  {
    hide CellsCounted, TablesOwned;
  }

  /** Opening an array makes text of nothing, and nothing of text. */
  lemma OpenedReads(m: Mem, o: Mem, x: Variable)
    requires Ready(m) && Ready(o) && DidOpenArray(m, o, x) && Var(x) in o.slots
    ensures IsText(o.cells[o.slots[Var(x)]].value) <==> IsText(Current(m, x))
    ensures forall rhs :: OwnReference(o, x, rhs) ==> OwnReference(m, x, rhs)
    ensures IsRef(o, o.slots[Var(x)]) && IsArray(o, o.slots[Var(x)]) <==>
            IsRef(m, LookUp(m, Var(x))) && (Current(m, x) == Array || Falsy(Current(m, x)))
  {
    var p :| GotVar(m, p, Var(x)) && Ready(p) && ArrayChecked(p, o, Var(x));
    GotVarReads(m, p, x, x);
    hide CellsCounted, TablesOwned, Kept;
  }

  /** Nor does it change whether a store into the array fits. */
  lemma OpenedFits(m: Mem, o: Mem, x: Variable, k: Key, rhs: Rvalue)
    requires Ready(m) && Ready(o) && DidOpenArray(m, o, x) && Var(x) in o.slots
    ensures StoreFits(m, x, k, rhs) <==> StoreFits(o, x, k, rhs)
  {
    OpenedReads(m, o, x);
    var p :| GotVar(m, p, Var(x)) && Ready(p) && ArrayChecked(p, o, Var(x));
    hide CellsCounted, NoDangling, CanAssign, Kept;
    if OwnReference(m, x, rhs) {
      assert p == m;
      var a := m.slots[Var(x)];
      if Falsy(m.cells[a].value) {
        assert Elem(a, k) in m.slots ==> IsArray(m, a);
      }
    }
  }

  lemma CanWriteVar(m: Mem, l: Slot, s: Slot)
    requires Ready(m) && l in m.slots && !l.Elem? && !s.Elem? && l != UNINIT
    ensures CanAssign(m, l, LookUp(m, s))
  {
    hide CellsCounted, TablesOwned;
    var a := m.slots[l];
    var t := if s in m.slots then s else UNINIT;
    if m.slots[t] != a {
      assert SlotLives(m, {l}, t) && SlotLives(m, ElemsOf(m, a), t) && SlotLives(m, ElemsOf(m, a), l);
      HeldLives(m, {l}, t);
      HeldLives(m, ElemsOf(m, a), t);
      HeldLives(m, ElemsOf(m, a), l);
    }
  }

  /** A store into an entry of an array that `$x` holds gets through, unless it is of the reference set
      of `$x` itself into an entry with a cell of its own that goes. */
  lemma CanWriteEntry(m: Mem, x: Slot, k: Key, s: Slot)
    requires Ready(m) && x in m.slots && !x.Elem? && !s.Elem? && Elem(m.slots[x], k) in m.slots
    requires LookUp(m, s) == m.slots[x] && IsRef(m, m.slots[x]) ==> m.slots[Elem(m.slots[x], k)] == m.slots[UNINIT]
    ensures CanAssign(m, Elem(m.slots[x], k), LookUp(m, s))
  {
    hide CellsCounted, TablesOwned;
    var c, l := m.slots[x], Elem(m.slots[x], k);
    var a := m.slots[l];
    var t := if s in m.slots then s else UNINIT;
    HeldLives(m, {l}, x) by { assert SlotLives(m, {l}, x); }
    HeldLives(m, {l}, t) by { assert SlotLives(m, {l}, t); }
    HeldLives(m, {l}, UNINIT) by { assert SlotLives(m, {l}, UNINIT); }
    HeldLives(m, ElemsOf(m, a), x) by { assert SlotLives(m, ElemsOf(m, a), x); }
    HeldLives(m, ElemsOf(m, a), t) by { assert SlotLives(m, ElemsOf(m, a), t); }
    if a != c {
      HeldLives(m, ElemsOf(m, a), l) by { assert SlotLives(m, ElemsOf(m, a), l); }
    }
  }

  /** Nor does reaching an entry bring a variable into a reference set. */
  lemma EntryReads(m: Mem, o: Mem, x: Variable, k: Key, rhs: Rvalue)
    requires Ready(m) && Ready(o) && Var(x) in m.slots && Var(x) in o.slots && EntryGot(m, o, Var(x), k)
    requires OwnReference(o, x, rhs)
    ensures OwnReference(m, x, rhs) && o.slots[Var(x)] == m.slots[Var(x)]
  {
    hide CellsCounted, TablesOwned, EntryTable;
    var r := SlotOf(rhs);
    assert Anchored(o, {}, r) && Anchored(o, {}, UNINIT);
    assert o.slots[Var(x)] in o.cells && o.slots[Var(x)] < m.next;
  }

  /** The store fits exactly if it did before the entry was fetched. */
  lemma EntryFits(m: Mem, o: Mem, x: Variable, k: Key, rhs: Rvalue)
    requires Ready(m) && Ready(o) && Var(x) in m.slots && Var(x) in o.slots && EntryGot(m, o, Var(x), k)
    requires Elem(o.slots[Var(x)], k) in o.slots
    ensures CanAssign(o, Elem(o.slots[Var(x)], k), LookUp(o, SlotOf(rhs))) <==> StoreFits(m, x, k, rhs)
  {
    hide CellsCounted, TablesOwned, CanAssign, EntryGot;
    if OwnReference(m, x, rhs) && Elem(m.slots[Var(x)], k) in m.slots {
      EntryStays(m, o, x, k);
    } else {
      if OwnReference(o, x, rhs) {
        EntryReads(m, o, x, k, rhs);
        NewEntry(m, o, x, k);
      }
      CanWriteEntry(o, Var(x), k, SlotOf(rhs));
    }
  }

  lemma EntryStays(m: Mem, o: Mem, x: Variable, k: Key)
    requires Ready(m) && Var(x) in m.slots && Var(x) in o.slots && EntryGot(m, o, Var(x), k)
    requires IsRef(m, m.slots[Var(x)]) && Elem(m.slots[Var(x)], k) in m.slots
    ensures o == m
  {
    TableKeys(m, m.slots[Var(x)], k);
  }

  lemma NewEntry(m: Mem, o: Mem, x: Variable, k: Key)
    requires Ready(m) && Ready(o) && Var(x) in m.slots && Var(x) in o.slots && EntryGot(m, o, Var(x), k)
    requires Elem(m.slots[Var(x)], k) !in m.slots
    ensures Elem(o.slots[Var(x)], k) in o.slots && o.slots[Elem(o.slots[Var(x)], k)] == o.slots[UNINIT]
  {
    hide CellsCounted, TablesOwned, EntryCell;
    assert Anchored(o, {}, UNINIT);
  }

  /** The array fetched is a reference exactly if it was a reference to an array. */
  lemma EntryRef(m: Mem, o: Mem, x: Variable, k: Key)
    requires Ready(m) && Ready(o) && Var(x) in m.slots && Var(x) in o.slots && EntryGot(m, o, Var(x), k)
    ensures IsRef(o, o.slots[Var(x)]) <==> IsRef(m, m.slots[Var(x)]) && IsArray(m, m.slots[Var(x)])
  {
    hide CellsCounted, TablesOwned, EntryTable;
  }

  /** While a root other than `l` holds the array of the entries among them, both slots stay. */
  lemma CanJoinHeld(p: Mem, l: Slot, r: Slot, t: Slot)
    requires Ready(p) && l in p.slots && r in p.slots && t in p.slots && !t.Elem? && t != l
    requires (l.Elem? ==> l.owner == p.slots[t]) && (r.Elem? ==> r.owner == p.slots[t])
    ensures CanJoin(p, l, r)
  {
    var o := Marked(p, Local, p.slots[r]);
    hide CellsCounted, TablesOwned;
    assert SlotLives(o, {l}, t);
    HeldLives(o, {l}, t);
  }

  /** `$x =& $x[k]`: the array outlives the release of `$x` exactly if it is a reference. */
  lemma CanJoinOwn(p: Mem, x: Slot, e: Slot)
    requires Ready(p) && Writable(p, x) && !x.Elem? && e in p.slots && e.Elem? && e.owner == p.slots[x]
    ensures CanJoin(p, x, e) <==> IsRef(p, p.slots[x])
  {
    var c := p.slots[x];
    var o := Marked(p, Local, p.slots[e]);
    MarkedKept(p, Local, p.slots[e]);
    if IsRef(p, c) {
      AllLive(o, x, c, {});
    } else {
      SoleHolder(p, x);
      OnlyHolder(p, x, e);
      hide CellsCounted, TablesOwned;
      forall kept: set<Addr> | Supported(o, {x}, kept) ensures c !in kept {
        assert c in kept ==> HeldUp(o, {x}, kept, c);
      }
    }
  }

  lemma OnlyHolder(p: Mem, x: Slot, e: Slot)
    requires Ready(p) && x in p.slots && !x.Elem? && e in p.slots && e.Elem? && Holders(p.slots, p.slots[x]) == {x}
    ensures var o := Marked(p, Local, p.slots[e]); forall t :: t in o.slots && o.slots[t] == p.slots[x] ==> t == x
  {
    assert e !in Holders(p.slots, p.slots[x]);
    forall t | t in p.slots && p.slots[t] == p.slots[x] ensures t == x {
      assert t in Holders(p.slots, p.slots[x]);
    }
  }

  /** Only an array has entries. */
  lemma TableKeys(m: Mem, a: Addr, k: Key)
    requires Ready(m) && Elem(a, k) in m.slots
    ensures IsArray(m, a)
  {
  }

  /** A literal enters the pool. */
  method Intern(rt: Runtime, id: nat, literal: Scalar)
    requires Ready(rt.M()) && Fixed(id) !in rt.slots
    modifies rt
    ensures Ready(rt.M()) && Isolates(old(rt.M()), rt.M(), {Fixed(id)})
    ensures rt.M() == Born(old(rt.M()), Fixed(id), Plain(literal))
  {
    ghost var m := rt.M();
    var c := rt.MakeZval(Fixed(id), Plain(literal));
    PrivateRoots(m, {Fixed(id)});
    RootsElsewhere(m, {Fixed(id)}, {Fixed(id)});
    BornUnjoined(m, Fixed(id), Plain(literal), {Fixed(id)});
    Sound(m, rt.M(), {Fixed(id)}, {}, {Fixed(id)});
  }

  // ---------------------------------------------------------------------------------------
  // Templates
  // ---------------------------------------------------------------------------------------

  /** `if (*p_lhs != rhs) write_var (p_lhs, rhs);` with the slot of a variable or an entry. */
  method Assign(rt: Runtime, l: Slot, r: Addr) returns (ok: bool)
    requires Ready(rt.M()) && l in rt.slots && l != Local && r in rt.cells
    modifies rt
    ensures ok == old(CanAssign(rt.M(), l, r))
    ensures ok ==> WF(rt.M(), {}) && Local !in rt.slots && Assigned(old(rt.M()), rt.M(), l, r)
  {
    ok := true;
    if rt.slots[l] != r {
      ok := rt.WriteVar(l, r);
    }
  }

  /** $x = rhs (templates_new.c:106-114). */
  method DoAssignVar(rt: Runtime, x: Variable, rhs: Rvalue)
    requires Ready(rt.M())
    modifies rt
    ensures Ready(rt.M()) && DidAssignVar(old(rt.M()), rt.M(), x, rhs) && Var(x) in rt.slots
  {
    ghost var m := rt.M();
    rt.GetStEntry(Var(x));
    ghost var o := rt.M();
    GotVarSound(m, o, Var(x));
    var r := rt.ReadVar(SlotOf(rhs));
    hide CanAssign, Written, GotVar, Isolates, WF;
    CanWriteVar(o, Var(x), SlotOf(rhs));
    var ok := Assign(rt, Var(x), r);
    AssignedIsolates(o, rt.M(), Var(x), r, Var(x));
    AssignedStays(o, rt.M(), Var(x), r);
  }

  lemma AssignedStays(m: Mem, n: Mem, l: Slot, r: Addr)
    requires l in m.slots && !l.Elem? && Assigned(m, n, l, r)
    ensures l in n.slots
  {
    if m.slots[l] != r && IsRef(m, m.slots[l]) {
      assert Anchored(n, {m.slots[l]}, l);
    }
  }

  /** $x = (kind) rhs (templates_new.c:130-144, misc.c:2-39). */
  method DoAssignCast(rt: Runtime, x: Variable, rhs: Rvalue, kind: Kind, conv: Conversions)
    requires Ready(rt.M())
    modifies rt
    ensures Ready(rt.M()) && DidAssignCast(old(rt.M()), rt.M(), x, rhs, kind, conv)
  {
    ghost var m := rt.M();
    DoAssignVar(rt, x, rhs);
    ghost var o := rt.M();
    hide DidAssignVar;
    CastVar(rt, Var(x), kind, conv);
    assert DidAssignVar(m, o, x, rhs) && Ready(o) && Var(x) in o.slots && DidCast(o, rt.M(), Var(x), kind, conv);
  }

  /** cast_var (misc.c:2-39). */
  method CastVar(rt: Runtime, s: Slot, kind: Kind, conv: Conversions)
    requires Ready(rt.M()) && s in rt.slots && s.Var?
    modifies rt
    ensures Ready(rt.M()) && DidCast(old(rt.M()), rt.M(), s, kind, conv)
  {
    if KindOf(rt.cells[rt.slots[s]].value) == kind {
      return;
    }
    ghost var m := rt.M();
    rt.SepCopyOnWrite(s);
    ghost var o := rt.M();
    hide Isolates, CellsCounted, TablesOwned, Converted;
    SeparatedSound(m, o, s);
    SeparatedKind(m, o, s);
    assert RootHeld(o, o.slots[s]) by { assert s in o.slots; }
    rt.ConvertTo(rt.slots[s], kind, conv);
    ConvertedSound(o, rt.M(), s, kind, conv);
  }

  lemma SeparatedKind(m: Mem, o: Mem, s: Slot)
    requires WF(m, {}) && WF(o, {}) && s in m.slots && s in o.slots && Separated(m, o, s)
    ensures o.cells[o.slots[s]].value == m.cells[m.slots[s]].value
  {
  }

  /** $x =& $y (templates_new.c:119-125). */
  method DoAssignRef(rt: Runtime, x: Variable, y: Variable)
    requires Ready(rt.M())
    modifies rt
    ensures Ready(rt.M()) && DidAssignRef(old(rt.M()), rt.M(), x, y)
  {
    ghost var m := rt.M();
    rt.GetStEntry(Var(x));
    ghost var o := rt.M();
    GotVarSound(m, o, Var(x));
    ghost var p := RefFrom(rt, Var(x), x, y);
    assert GotVar(m, o, Var(x)) && Ready(o) && DidRefFrom(o, p, rt.M(), Var(x), y);
  }

  /** get_st_entry, sep_copy_on_write and copy_into_ref in a row, into the slot `l`. */
  method RefFrom(rt: Runtime, l: Slot, x: Variable, y: Variable) returns (ghost p: Mem)
    requires Ready(rt.M()) && l in rt.slots
    requires l == Var(x) || (l.Elem? && Writable(rt.M(), Var(x)) && l.owner == rt.slots[Var(x)])
    modifies rt
    ensures Ready(rt.M()) && DidRefFrom(old(rt.M()), p, rt.M(), l, y)
  {
    hide Isolates, CellsCounted, TablesOwned, RefCopied, Kept, Separated, Writable;
    ghost var o := rt.M();
    rt.GetStEntry(Var(y));
    ghost var q := rt.M();
    GotVarSound(o, q, Var(y));
    rt.SepCopyOnWrite(Var(y));
    p := rt.M();
    SeparatedSound(q, p, Var(y));
    RefTarget(o, q, p, l, x, y);
    CanJoinHeld(p, l, Var(y), if l.Elem? then Var(x) else UNINIT);
    var ok := rt.CopyIntoRef(l, Var(y));
    RefCopiedSound(p, rt.M(), l, Var(y), Var(x), {Var(x), Var(y)});
  }

  lemma RefTarget(o: Mem, q: Mem, p: Mem, l: Slot, x: Variable, y: Variable)
    requires Ready(o) && Ready(q) && Ready(p) && l in o.slots
    requires l == Var(x) || (l.Elem? && Writable(o, Var(x)) && l.owner == o.slots[Var(x)])
    requires GotVar(o, q, Var(y)) && Var(y) in q.slots && Separated(q, p, Var(y))
    ensures l in p.slots
    ensures l.Elem? ==> Writable(p, Var(x)) && p.slots[Var(x)] == l.owner
  {
    SeparatedFrame(q, p, Var(y));
    if l.Elem? {
      WritableAfterBoth(o, q, p, Var(x), Var(y));
      assert Var(x) in p.slots && p.slots[Var(x)] == l.owner;
    }
    assert Anchored(p, {}, l);
    assert l in q.slots;
    if l == Var(y) && q != p {
      assert l in p.slots;
    }
  }

  /** unset ($x) (unset.c:21-25). */
  method DoUnsetVar(rt: Runtime, x: Variable)
    requires Ready(rt.M())
    modifies rt
    ensures Ready(rt.M()) && DidUnsetVar(old(rt.M()), rt.M(), x)
  {
    ghost var m := rt.M();
    rt.HashDel(Var(x));
    RemovedSound(m, rt.M(), Var(x), Var(x));
  }

  /** get_st_entry and check_array_type (templates_new.c:603-604). */
  method OpenArray(rt: Runtime, x: Variable)
    requires Ready(rt.M())
    modifies rt
    ensures Ready(rt.M()) && DidOpenArray(old(rt.M()), rt.M(), x) && Var(x) in rt.slots
  {
    ghost var m := rt.M();
    rt.GetStEntry(Var(x));
    ghost var o := rt.M();
    GotVarSound(m, o, Var(x));
    hide Isolates, CellsCounted, TablesOwned;
    rt.CheckArrayType(Var(x));
    CheckedSound(o, rt.M(), Var(x));
  }

  /** Reads the right-hand side and stores it in the entry that get_ht_entry just returned. */
  method StoreEntry(rt: Runtime, x: Variable, k: Key, rhs: Rvalue, ghost m: Mem) returns (ok: bool)
    requires Ready(m) && Ready(rt.M()) && Var(x) in m.slots && Var(x) in rt.slots
    requires EntryGot(m, rt.M(), Var(x), k)
    modifies rt
    ensures ok == StoreFits(m, x, k, rhs)
    ensures ok ==> Ready(rt.M()) && DidStore(m, rt.M(), x, k, rhs)
  {
    ghost var o := rt.M();
    EntryWritable(m, o, Var(x), k);
    EntryFits(m, o, x, k, rhs);
    var l := Elem(rt.slots[Var(x)], k);
    var r := rt.ReadVar(SlotOf(rhs));
    hide CanAssign, StoreFits, Assigned, EntryGot, Isolates, CellsCounted, TablesOwned;
    ok := Assign(rt, l, r);
    if ok {
      AssignedIsolates(o, rt.M(), l, r, Var(x));
      assert Ready(o) && Var(x) in o.slots && EntryGot(m, o, Var(x), k)
             && Assigned(o, rt.M(), Elem(o.slots[Var(x)], k), LookUp(o, SlotOf(rhs)));
    }
  }

  /** $x[k] = rhs (templates_new.c:601-623).  The write of a string offset is not modelled. */
  method DoAssignArray(rt: Runtime, x: Variable, k: Key, rhs: Rvalue) returns (ok: bool)
    requires Ready(rt.M())
    modifies rt
    ensures ok == old(Fits(rt.M(), AssignArray(x, k, rhs)))
    ensures ok ==> Ready(rt.M()) && DidAssignArray(old(rt.M()), rt.M(), x, k, rhs)
  {
    hide DidOpenArray, EntryGot, Isolates, CellsCounted, TablesOwned, DidStore, StoreFits;
    ghost var m := rt.M();
    OpenArray(rt, x);
    ghost var o := rt.M();
    OpenedReads(m, o, x);
    OpenedFits(m, o, x, k, rhs);
    var v := rt.cells[rt.slots[Var(x)]].value;
    if IsText(v) {
      return false;
    }
    if v.Array? {
      var found := rt.GetHtEntry(Var(x), k);
      EntrySound(o, rt.M(), Var(x), k);
      ok := StoreEntry(rt, x, k, rhs, o);
    } else {
      NoEntryFits(o, x, k, rhs);
      ok := true;
    }
    if ok {
      assert DidOpenArray(m, o, x) && Ready(o) && Var(x) in o.slots;
    }
  }

  lemma NoEntryFits(m: Mem, x: Variable, k: Key, rhs: Rvalue)
    requires Ready(m) && (IsArray(m, LookUp(m, Var(x))) ==> Elem(LookUp(m, Var(x)), k) !in m.slots)
    ensures StoreFits(m, x, k, rhs)
  {
    if Elem(LookUp(m, Var(x)), k) in m.slots {
      TableKeys(m, LookUp(m, Var(x)), k);
    }
  }

  /** $x[k] =& $y (templates_new.c:625-645). */
  method DoAssignArrayRef(rt: Runtime, x: Variable, k: Key, y: Variable) returns (ok: bool)
    requires Ready(rt.M())
    modifies rt
    ensures ok == old(Fits(rt.M(), AssignArrayRef(x, k, y)))
    ensures ok ==> Ready(rt.M()) && DidAssignArrayRef(old(rt.M()), rt.M(), x, k, y)
  {
    hide DidOpenArray, EntryGot, Isolates, CellsCounted, TablesOwned, DidRefFrom;
    ghost var m := rt.M();
    OpenArray(rt, x);
    ghost var o := rt.M();
    OpenedReads(m, o, x);
    var v := rt.cells[rt.slots[Var(x)]].value;
    if IsText(v) {
      return false;
    }
    if v.Array? {
      var found := rt.GetHtEntry(Var(x), k);
      ghost var p := rt.M();
      EntrySound(o, p, Var(x), k);
      EntryWritable(o, p, Var(x), k);
      ghost var q := RefFrom(rt, Elem(rt.slots[Var(x)], k), x, y);
      assert Ready(p) && Var(x) in p.slots && EntryGot(o, p, Var(x), k)
             && DidRefFrom(p, q, rt.M(), Elem(p.slots[Var(x)], k), y);
      assert DidStoreRef(o, rt.M(), x, k, y);
    }
    assert DidOpenArray(m, o, x) && Ready(o) && Var(x) in o.slots;
    return true;
  }

  /** $x[] = rhs (templates_new.c:567-580). */
  method DoAssignNext(rt: Runtime, x: Variable, k: Key, rhs: Rvalue) returns (ok: bool)
    requires Ready(rt.M()) && IsNext(rt.M(), LookUp(rt.M(), Var(x)), k)
    modifies rt
    ensures ok == old(Fits(rt.M(), AssignNext(x, k, rhs)))
    ensures ok ==> Ready(rt.M()) && DidAssignNext(old(rt.M()), rt.M(), x, k, rhs)
  {
    hide EntryGot, Isolates, CellsCounted, TablesOwned, DidStore, StoreFits;
    ghost var m := rt.M();
    rt.GetStEntry(Var(x));
    ghost var o := rt.M();
    GotVarSound(m, o, Var(x));
    GotVarReads(m, o, x, x);
    var pushed := rt.PushAndIndexHt(Var(x), k);
    match pushed {
      case Entry =>
        EntrySound(o, rt.M(), Var(x), k);
        NoEntryFits(o, x, k, rhs);
        ok := StoreEntry(rt, x, k, rhs, o);
      case Refused =>
        ok := true;
      case Fatal =>
        ok := false;
    }
    if ok {
      assert GotVar(m, o, Var(x)) && Ready(o);
    }
  }

  /** $x[] =& $y (templates_new.c:582-595). */
  method DoAssignNextRef(rt: Runtime, x: Variable, k: Key, y: Variable) returns (ok: bool)
    requires Ready(rt.M()) && IsNext(rt.M(), LookUp(rt.M(), Var(x)), k)
    modifies rt
    ensures ok == old(Fits(rt.M(), AssignNextRef(x, k, y)))
    ensures ok ==> Ready(rt.M()) && DidAssignNextRef(old(rt.M()), rt.M(), x, k, y)
  {
    hide EntryGot, Isolates, CellsCounted, TablesOwned, DidRefFrom;
    ghost var m := rt.M();
    rt.GetStEntry(Var(x));
    ghost var o := rt.M();
    GotVarSound(m, o, Var(x));
    GotVarReads(m, o, x, x);
    var pushed := rt.PushAndIndexHt(Var(x), k);
    if pushed == Fatal {
      return false;
    }
    if pushed == Entry {
      ghost var p := rt.M();
      EntrySound(o, p, Var(x), k);
      EntryWritable(o, p, Var(x), k);
      ghost var q := RefFrom(rt, Elem(rt.slots[Var(x)], k), x, y);
      assert Ready(p) && Var(x) in p.slots && EntryGot(o, p, Var(x), k)
             && DidRefFrom(p, q, rt.M(), Elem(p.slots[Var(x)], k), y);
      assert DidStoreRef(o, rt.M(), x, k, y);
    }
    assert GotVar(m, o, Var(x)) && Ready(o);
    return true;
  }

  /** $x = $y[k] (templates_new.c:300-334).  Reading a string offset is not modelled. */
  method DoAssignAccess(rt: Runtime, x: Variable, y: Variable, k: Key) returns (ok: bool)
    requires Ready(rt.M())
    modifies rt
    ensures ok == old(Fits(rt.M(), AssignAccess(x, y, k)))
    ensures ok ==> Ready(rt.M()) && DidAssignAccess(old(rt.M()), rt.M(), x, y, k)
  {
    hide CanAssign, Written, Isolates, CellsCounted, TablesOwned;
    ghost var m := rt.M();
    rt.GetStEntry(Var(x));
    ghost var o := rt.M();
    GotVarSound(m, o, Var(x));
    GotVarReads(m, o, x, y);
    var a := rt.ReadVar(Var(y));
    if rt.cells[a].value.Plain? && rt.cells[a].value.s.Str? {
      return false;
    }
    var r := rt.slots[UNINIT];
    if rt.cells[a].value.Array? {
      r := rt.ReadArray(a, k);
    }
    assert r == LookUp(o, Elem(a, k)) by { if Elem(a, k) in o.slots { TableKeys(o, a, k); } }
    ok := Assign(rt, Var(x), r);
    if ok {
      AssignedIsolates(o, rt.M(), Var(x), r, Var(x));
      assert GotVar(m, o, Var(x)) && Ready(o)
             && Assigned(o, rt.M(), Var(x), LookUp(o, Elem(LookUp(o, Var(y)), k)));
    }
  }

  /** sep_copy_on_write of an entry of `$y`, and copy_into_ref of it into `$x`. */
  method RefEntryInto(rt: Runtime, x: Variable, y: Variable, e: Slot) returns (ok: bool, ghost p: Mem)
    requires Ready(rt.M()) && Var(x) in rt.slots && Writable(rt.M(), Var(y))
    requires e in rt.slots && e.Elem? && e.owner == rt.slots[Var(y)]
    modifies rt
    ensures ok == (x == y ==> old(IsRef(rt.M(), rt.slots[Var(x)])))
    ensures Ready(p) && Separated(old(rt.M()), p, e) && Var(x) in p.slots && e in p.slots
    ensures !InCopyOnWrite(p.cells[p.slots[e]])
    ensures ok ==> Ready(rt.M()) && RefCopied(p, rt.M(), Var(x), e)
  {
    ghost var o := rt.M();
    rt.SepCopyOnWrite(e);
    p := rt.M();
    hide Isolates, CellsCounted, TablesOwned, RefCopied, Kept, Separated, Writable, CanJoin;
    EntryReady(o, p, Var(y), e);
    SeparatedEntrySound(o, p, Var(y), e);
    if x == y {
      SeparatedRef(o, p, e, Var(y));
      CanJoinOwn(p, Var(y), e);
    } else {
      EntryRoots(o, p, Var(y), Var(x));
      HeldThere(p, Var(y));
      CanJoinHeld(p, Var(x), e, Var(y));
    }
    ok := rt.CopyIntoRef(Var(x), e);
    if ok {
      RefCopiedSound(p, rt.M(), Var(x), e, Var(y), {Var(x), Var(y)});
    }
  }

  /** Separating an entry leaves the array the reference it is. */
  lemma SeparatedRef(o: Mem, p: Mem, e: Slot, s: Slot)
    requires WF(o, {}) && e in o.slots && Separated(o, p, e) && s in o.slots && s in p.slots && p.slots[s] == o.slots[s]
    requires p.slots[s] in p.cells
    ensures s in p.slots && (IsRef(p, p.slots[s]) <==> IsRef(o, o.slots[s]))
  {
  }

  lemma HeldThere(p: Mem, s: Slot)
    requires Writable(p, s)
    ensures s in p.slots
  {
  }

  /** get_ht_entry of `$y`, then the entry by reference into `$x`. */
  method RefEntry(rt: Runtime, x: Variable, y: Variable, k: Key) returns (ok: bool)
    requires Ready(rt.M()) && Var(x) in rt.slots && Var(y) in rt.slots
    modifies rt
    ensures ok == old(!IsText(rt.cells[rt.slots[Var(y)]].value) &&
                      (x == y ==> IsRef(rt.M(), rt.slots[Var(y)]) && IsArray(rt.M(), rt.slots[Var(y)])))
    ensures ok ==> Ready(rt.M()) && DidRefEntry(old(rt.M()), rt.M(), Var(x), y, k)
  {
    ghost var m := rt.M();
    ok := rt.GetHtEntry(Var(y), k);
    if !ok {
      return;
    }
    ghost var o := rt.M();
    hide Isolates, CellsCounted, NoDangling, TablesOwned, RefCopied, Separated, EntryGot, Writable;
    EntrySound(m, o, Var(y), k);
    EntryWritable(m, o, Var(y), k);
    EntryRef(m, o, y, k);
    if x != y {
      EntryRoots(m, o, Var(y), Var(x));
    }
    var e := Elem(rt.slots[Var(y)], k);
    ghost var p;
    ok, p := RefEntryInto(rt, x, y, e);
    if ok {
      assert Ready(o) && Var(y) in o.slots && EntryGot(m, o, Var(y), k) && Ready(p)
             && e in o.slots && Separated(o, p, e) && Var(x) in p.slots && e in p.slots
             && RefCopied(p, rt.M(), Var(x), e);
    }
  }

  lemma EntryRoots(m: Mem, o: Mem, s: Slot, t: Slot)
    requires Isolates(m, o, {s}) && t in m.slots && t != s && !t.Elem?
    ensures t in o.slots
  {
  }

  lemma EntryReady(o: Mem, p: Mem, s: Slot, e: Slot)
    requires Ready(o) && WF(p, {}) && Local !in p.slots && Writable(o, s) && s.Var?
    requires e in o.slots && e.Elem? && e.owner == o.slots[s] && Separated(o, p, e)
    ensures Ready(p)
  {
    hide Kept, Isolates, Private, Elsewhere, Unjoined;
    SeparatedFrame(o, p, e);
    KeptMore(o, p, {e}, {}, {e, s});
    WritablePrivate(o, s, {e, s});
    CoolElsewhere(o, {e, s}, s, {s});
    SeparatedUnjoined(o, p, e, {s});
    Sound(o, p, {e, s}, {}, {s});
  }

  /** get_st_entry of `$x`, then get_st_entry and check_array_type of `$y`. */
  method OpenBoth(rt: Runtime, x: Variable, y: Variable) returns (ghost o: Mem)
    requires Ready(rt.M())
    modifies rt
    ensures Ready(rt.M()) && Var(x) in rt.slots && Var(y) in rt.slots
    ensures Ready(o) && GotVar(old(rt.M()), o, Var(x)) && DidOpenArray(o, rt.M(), y)
    ensures IsText(rt.cells[rt.slots[Var(y)]].value) <==> IsText(Current(old(rt.M()), y))
    ensures x == y ==> (IsRef(rt.M(), rt.slots[Var(y)]) && IsArray(rt.M(), rt.slots[Var(y)]) <==>
              old(IsRef(rt.M(), LookUp(rt.M(), Var(y))) && (Current(rt.M(), y) == Array || Falsy(Current(rt.M(), y)))))
  {
    hide DidOpenArray, CellsCounted, TablesOwned, NoDangling, GotVar;
    ghost var m := rt.M();
    rt.GetStEntry(Var(x));
    o := rt.M();
    GotVarSound(m, o, Var(x));
    GotVarReads(m, o, x, y);
    OpenArray(rt, y);
    OpenedReads(o, rt.M(), y);
    if x != y {
      OpenArrayIsolates(o, rt.M(), y);
      EntryRoots(o, rt.M(), Var(y), Var(x));
    }
  }

  /** $x =& $y[k] (templates_new.c:336-345). */
  method DoAssignRefAccess(rt: Runtime, x: Variable, y: Variable, k: Key) returns (ok: bool)
    requires Ready(rt.M())
    modifies rt
    ensures ok == old(Fits(rt.M(), AssignRefAccess(x, y, k)))
    ensures ok ==> Ready(rt.M()) && DidAssignRefAccess(old(rt.M()), rt.M(), x, y, k)
  {
    hide DidOpenArray, GotVar, DidRefEntry, CellsCounted, TablesOwned, NoDangling, Current;
    ghost var m := rt.M();
    ghost var o := OpenBoth(rt, x, y);
    ghost var p := rt.M();
    ok := RefEntry(rt, x, y, k);
    if ok {
      assert GotVar(m, o, Var(x)) && Ready(o) && DidOpenArray(o, p, y) && Ready(p) && Var(y) in p.slots
             && DidRefEntry(p, rt.M(), Var(x), y, k);
    }
  }

  /** Reads one index after the other, and changes nothing (Generate_C.cpp:2263-2281). */
  method ReadInner(rt: Runtime, a: Addr, path: seq<Key>) returns (d: Addr)
    requires Ready(rt.M()) && a in rt.cells
    ensures d in rt.cells && d == Inner(rt.M(), a, path)
  {
    hide CellsCounted, TablesOwned;
    d := a;
    var i := 0;
    while i < |path|
      invariant 0 <= i <= |path| && d in rt.cells && NoDangling(rt.M()) && UNINIT in rt.slots
      invariant Inner(rt.M(), d, path[i..]) == Inner(rt.M(), a, path)
    {
      assert path[i..][1..] == path[i + 1..];
      if rt.cells[d].value.Array? {
        d := rt.ReadArray(d, path[i]);
      }
      i := i + 1;
    }
  }

  /** unset ($x[i]...[k]) (Generate_C.cpp:2246-2292, unset.c:27-51). */
  method DoUnsetElem(rt: Runtime, x: Variable, path: seq<Key>, k: Key) returns (ok: bool)
    requires Ready(rt.M())
    modifies rt
    ensures ok == old(Fits(rt.M(), UnsetElem(x, path, k)))
    ensures ok ==> Ready(rt.M()) && DidUnsetElem(old(rt.M()), rt.M(), x, path, k)
  {
    hide Isolates, CellsCounted, TablesOwned, Separated, GotVar, Alike, RootsAlike;
    ghost var m := rt.M();
    rt.GetStEntry(Var(x));
    ghost var o := rt.M();
    GotVarSound(m, o, Var(x));
    GotVarReads(m, o, x, x);
    rt.SepCopyOnWrite(Var(x));
    ghost var p := rt.M();
    SeparatedSound(o, p, Var(x));
    BoundAlike(m, o, p, x);
    BoundInner(m, o, p, x, path);
    var d := ReadInner(rt, rt.slots[Var(x)], path);
    if rt.cells[d].value.Array? {
      rt.HashDel(Elem(d, k));
      RemovedReady(p, rt.M(), Elem(d, k));
    } else if rt.cells[d].value.s.Str? {
      return false;
    }
    assert GotVar(m, o, Var(x)) && Ready(o) && Separated(o, p, Var(x)) && Ready(p) && Var(x) in p.slots
           && !InCopyOnWrite(p.cells[p.slots[Var(x)]]) && DidRemove(p, rt.M(), Inner(p, p.slots[Var(x)], path), k);
    return true;
  }

  lemma RemovedReady(p: Mem, n: Mem, e: Slot)
    requires Ready(p) && WF(n, {}) && Local !in n.slots && Removed(p, n, e) && e.Elem?
    ensures Ready(n)
  {
    hide CellsCounted, TablesOwned;
    assert Anchored(n, {}, UNINIT);
  }

  // ---------------------------------------------------------------------------------------
  // Programs
  // ---------------------------------------------------------------------------------------

  /** One statement.  It gets through exactly in the memories that it fits. */
  method Do(rt: Runtime, st: Stmt) returns (ok: bool)
    requires Ready(rt.M())
    modifies rt
    ensures ok == old(Fits(rt.M(), st))
    ensures ok ==> Ready(rt.M()) && Step(old(rt.M()), st, rt.M())
  {
    hide Ready, DidAssignVar, DidAssignCast, DidAssignRef, DidUnsetVar, DidAssignArray, DidAssignArrayRef;
    hide DidAssignNext, DidAssignNextRef, DidAssignAccess, DidAssignRefAccess, DidUnsetElem;
    hide StoreFits, AccessFits, IsText, IsString, Falsy, Inner, Current;
    ok := true;
    match st {
      case AssignVar(x, rhs) => DoAssignVar(rt, x, rhs);
      case AssignCast(x, rhs, kind, conv) => DoAssignCast(rt, x, rhs, kind, conv);
      case AssignRef(x, y) => DoAssignRef(rt, x, y);
      case UnsetVar(x) => DoUnsetVar(rt, x);
      case AssignArray(x, k, rhs) => ok := DoAssignArray(rt, x, k, rhs);
      case AssignArrayRef(x, k, y) => ok := DoAssignArrayRef(rt, x, k, y);
      case AssignNext(x, k, rhs) =>
        var a := CurrentCell(rt, x);
        if !IsNext(rt.M(), a, k) {
          return false;
        }
        ok := DoAssignNext(rt, x, k, rhs);
      case AssignNextRef(x, k, y) =>
        var a := CurrentCell(rt, x);
        if !IsNext(rt.M(), a, k) {
          return false;
        }
        ok := DoAssignNextRef(rt, x, k, y);
      case AssignAccess(x, y, k) => ok := DoAssignAccess(rt, x, y, k);
      case AssignRefAccess(x, y, k) => ok := DoAssignRefAccess(rt, x, y, k);
      case UnsetElem(x, path, k) => ok := DoUnsetElem(rt, x, path, k);
    }
  }

  method CurrentCell(rt: Runtime, x: Variable) returns (a: Addr)
    requires Ready(rt.M())
    ensures UNINIT in rt.slots && a == LookUp(rt.M(), Var(x))
  {
    a := rt.ReadVar(Var(x));
  }

  /** A program, statement by statement, to its end or to the first that does not fit. */
  method Execute(rt: Runtime, program: seq<Stmt>) returns (done: nat, ghost trace: seq<Mem>)
    requires Ready(rt.M())
    modifies rt
    ensures done <= |program| && Run(trace, program[..done]) && trace[0] == old(rt.M())
    ensures done == |program| ==> Ready(rt.M()) && trace[done] == rt.M()
    ensures done < |program| ==> !Fits(trace[done], program[done])
  {
    hide Ready, Step, Fits;
    done := 0;
    trace := [rt.M()];
    while done < |program|
      invariant done <= |program| && Run(trace, program[..done])
      invariant trace[0] == old(rt.M()) && trace[done] == rt.M() && Ready(rt.M())
    {
      ghost var m := rt.M();
      var ok := Do(rt, program[done]);
      if !ok {
        return;
      }
      RunSnoc(trace, program[..done], program[done], rt.M());
      trace := trace + [rt.M()];
      assert program[..done + 1] == program[..done] + [program[done]];
      done := done + 1;
    }
  }

  lemma RunSnoc(ms: seq<Mem>, program: seq<Stmt>, st: Stmt, n: Mem)
    requires Run(ms, program) && Ready(n) && Step(ms[|program|], st, n)
    ensures Run(ms + [n], program + [st])
  {
    hide Ready, Step;
    var ns, all := ms + [n], program + [st];
    forall i | 0 <= i < |all| ensures Step(ns[i], all[i], ns[i + 1]) {
      if i < |program| {
        assert Step(ms[i], program[i], ms[i + 1]);
      }
    }
  }
}
