/**
 The runtime operations on cells: the engine's allocation and release primitives, and on top of
 them the operations of runtime/zval.c, runtime/arrays.c, runtime/misc.c and runtime/unset.c.
*/
module ZvalRuntime {
  import opened ZvalHeap
  import opened ZvalFrame
  import opened ZvalRelease
  import opened ZvalSteps

  class Runtime {
    var cells: map<Addr, Zval>
    var slots: map<Slot, Addr>
    var next: Addr

    function M(): Mem reads this { Mem(cells, slots, next) }

    /** The engine at start-up: only the uninitialised cell. */
    constructor ()
      ensures Ready(M()) && M() == Mem(map[0 := Zval(1, false, Plain(Null))], map[UNINIT := 0], 1)
    {
      cells, slots, next := map[0 := Zval(1, false, Plain(Null))], map[UNINIT := 0], 1;
      new;
      assert Holders(slots, 0) == {UNINIT};
    }

    // -------------------------------------------------------------------------------------
    // Engine primitives
    // -------------------------------------------------------------------------------------

    /** zval_ptr_dtor on the pointer in slot `s`, which is empty afterwards: the count goes down,
        at zero the cell and its table go, at one the cell stops being a reference. */
    method ZvalPtrDtor(s: Slot, ghost loose: set<Addr>)
      requires WF(M(), loose) && s in slots
      modifies this
      ensures WF(M(), loose) && Released(old(M()), M(), {s}) && Spares(old(M()), M(), {s})
      ensures old(cells[slots[s]].refcount) > 1 ==> OneLess(old(M()), M(), old(slots[s]))
      decreases |slots.Keys|, 0
    {
      hide Released, TablesOwned, Spares;
      ghost var m := M();
      var a := slots[s];
      var z := cells[a];
      slots := slots - {s};
      assert slots.Keys == m.slots.Keys - {s};
      if z.refcount == 1 {
        cells := cells - {a};
        DropLast(m, s, loose, M());
        if z.value.Array? {
          ghost var n := M();
          DestroyTable(a, loose + {a});
          DropLastTable(m, s, n, M());
          SparesTable(m, s, n, M());
          LooseMore(M(), loose + {a} - {a}, loose);
        } else {
          SparesLast(m, s, M());
        }
      } else {
        cells := cells[a := Zval(z.refcount - 1, z.isRef && z.refcount > 2, z.value)];
        DropShared(m, s, loose, M());
        SparesAll(m, M(), {s});
      }
    }

    /** zend_hash_destroy on the table of `a`: every entry gives up its reference. */
    method DestroyTable(a: Addr, ghost loose: set<Addr>)
      requires WF(M(), loose) && a in loose && !IsArray(M(), a)
      modifies this
      ensures WF(M(), loose - {a})
      ensures Released(old(M()), M(), ElemsOf(old(M()), a)) && Spares(old(M()), M(), ElemsOf(old(M()), a))
      ensures ElemsOf(M(), a) == {}
      decreases |slots.Keys|, 1
    {
      ghost var m := M();
      ghost var gone: set<Slot> := {};
      TornStart(m, a, loose);
      SparesAll(m, m, {});
      hide Torn, Released, WF, ElemsOf, IsArray, Spares;
      while exists s :: s in slots && s.Elem? && s.owner == a
        invariant WF(M(), loose) && Torn(m, M(), a, gone) && Spares(m, M(), gone)
        invariant |slots.Keys| <= |m.slots.Keys|
        decreases |slots.Keys|
      {
        ghost var o := M();
        var s :| s in slots && s.Elem? && s.owner == a;
        ZvalPtrDtor(s, loose);
        TornStep(m, o, M(), a, gone, s);
        TornSpares(m, o, M(), a, gone, s);
        gone := gone + {s};
      }
      TornDone(m, M(), a, gone, loose);
    }

    /** MAKE_STD_ZVAL, with the pointer stored in the empty slot `s`. */
    method MakeZval(s: Slot, v: Value) returns (c: Addr)
      requires WF(M(), {}) && s !in slots && (s.Elem? ==> IsArray(M(), s.owner))
      modifies this
      ensures c == old(next) && M() == Born(old(M()), s, v)
      ensures WF(M(), {}) && Kept(old(M()), M(), {s}, {})
      ensures ElemsOf(M(), c) == {}
    {
      ghost var m := M();
      c := next;
      cells := cells[c := Zval(1, false, v)];
      slots := slots[s := c];
      next := next + 1;
      BornKept(m, s, v);
    }

    /** zval_copy_ctor on the array cell `c` whose table is still empty: the entries of `r` are
        copied and each gains one reference. */
    method CopyTable(r: Addr, c: Addr)
      requires WF(M(), {}) && IsArray(M(), r) && IsArray(M(), c) && r != c && ElemsOf(M(), c) == {}
      modifies this
      ensures WF(M(), {}) && Copying(old(M()), M(), r, c)
      ensures CloneOf(M(), c, old(M()), r) && Kept(old(M()), M(), {}, {c}) && next == old(next)
    {
      ghost var m := M();
      hide Copying, WF, Kept, CloneOf, IsArray, Pending;
      CopyingStart(m, r, c);
      while exists t :: t in slots && t.Elem? && t.owner == r && Elem(c, t.key) !in slots
        invariant WF(M(), {}) && Copying(m, M(), r, c) && IsArray(M(), c) && next == old(next)
        decreases |Pending(M(), r, c)|
      {
        ghost var o := M();
        var t :| t in slots && t.Elem? && t.owner == r && Elem(c, t.key) !in slots;
        CopyingStep(m, o, r, c, t);
        var a := slots[t];
        cells := cells[a := cells[a].(refcount := cells[a].refcount + 1)];
        slots := slots[Elem(c, t.key) := a];
        assert M() == Gained(o, Elem(c, t.key), a);
      }
      CopyingDone(m, M(), r, c);
    }

    // -------------------------------------------------------------------------------------
    // runtime/zval.c
    // -------------------------------------------------------------------------------------

    /** zvp_clone_ex: a copy of `r`, held by the local. */
    method ZvpCloneEx(r: Addr) returns (c: Addr)
      requires WF(M(), {}) && r in cells && Local !in slots
      modifies this
      ensures WF(M(), {}) && Kept(old(M()), M(), {Local}, {})
      ensures FreshClone(old(M()), M(), Local, r) && slots[Local] == c
      ensures Grown(old(M()), M())
    {
      ghost var m := M();
      c := MakeZval(Local, cells[r].value);
      if cells[r].value.Array? {
        hide Kept, Copying, CloneOf, FreshClone;
        ghost var o := M();
        CopyTable(r, c);
        ClonedArray(m, o, M(), r, Local);
        ClonedArrayKept(m, o, M(), Local, c);
      } else {
        hide Kept, Copying, CloneOf, FreshClone;
        ClonedPlain(m, r, Local);
      }
    }

    /** sep_copy_on_write (zval.c:32-43). */
    method SepCopyOnWrite(s: Slot)
      requires WF(M(), {}) && s in slots && s != Local && Local !in slots
      modifies this
      ensures WF(M(), {}) && Separated(old(M()), M(), s) && Local !in slots
      ensures s in slots && !InCopyOnWrite(cells[slots[s]])
    {
      if !InCopyOnWrite(cells[slots[s]]) {
        return;
      }
      hide Kept, CloneOf, Released, CellsCounted, TablesOwned, Grown, Swapped, NoneFreed, OneLess;
      ghost var m := M();
      var former := slots[s];
      var clone := ZvpCloneEx(former);
      ghost var o := M();
      ClonedSlot(m, o, s);
      CountedMore(m, o, former);
      SwappedKept(o, s, Local);
      slots := slots[s := clone][Local := former];
      ghost var p := M();
      SwappedIs(o, s, p);
      ZvalPtrDtor(Local, {});
      OneLessKeys(p, M(), former);
      ReleasedKept(p, M(), {Local});
      ReleasedGone(p, M(), Local);
      SeparatedKept(m, o, p, M(), s);
      SeparatedClone(m, o, M(), s, former);
    }

    /** copy_into_ref (zval.c:62-69).  The caller has separated `r`.  False when the code would use a
        slot of an array that the release of `l` has freed. */
    method CopyIntoRef(l: Slot, r: Slot) returns (ok: bool)
      requires WF(M(), {}) && l in slots && r in slots && l != Local && r != Local && Local !in slots
      modifies this
      ensures ok == old(CanJoin(M(), l, r))
      ensures ok ==> WF(M(), {}) && RefCopied(old(M()), M(), l, r) && Local !in slots
    {
      hide Kept, RefCopied, Released, IsArray, CellsCounted, TablesOwned, Spares, Lives;
      ghost var m := M();
      var a := slots[r];
      MarkedKept(m, Local, a);
      cells := cells[a := Zval(cells[a].refcount + 1, true, cells[a].value)];
      slots := slots[Local := a];
      ghost var o := M();
      assert o == Marked(m, Local, a);
      ZvalPtrDtor(l, {});
      ghost var p := M();
      JoinReached(m, p, l, r);
      if (l.Elem? && l.owner !in cells) || (r != l && r.Elem? && r.owner !in cells) {
        return false;
      }
      HeldCounted(m, r, {});
      ReleasedKept(o, p, {l});
      OwnerStays(o, p, l, l);
      ReleasedLocal(o, p, l);
      slots := (slots - {Local})[l := a];
      assert M() == Moved(p, l, Local);
      MovedKept(p, l, Local);
      RefCopiedKept(m, o, p, M(), l, a);
      RefCopiedCell(m, p, M(), l, r);
      return true;
    }

    /** overwrite_lhs (zval.c:73-83): the cell `a` keeps its place and takes over the value of `r`.
        False when taking the table of `a` apart frees either of them. */
    method OverwriteLhs(a: Addr, r: Addr) returns (ok: bool)
      requires WF(M(), {}) && a in cells && r in cells && a != r
      modifies this
      ensures ok == old(Lives(M(), ElemsOf(M(), a), r) && Lives(M(), ElemsOf(M(), a), a))
      ensures ok ==> WF(M(), {}) && Overwritten(old(M()), M(), a, r)
      ensures ok && old(cells[a].isRef) ==> (IsRef(M(), a) <==> old(StaysRef(M(), ElemsOf(M(), a), a)))
    {
      hide Kept, CloneOf, Copying, CellsCounted, TablesOwned, Released, Spares, Lives, StaysRef;
      ghost var m := M();
      var z := cells[a];
      cells := cells[a := z.(value := Plain(Null))];
      ClearedWF(m, a);
      DestroyTable(a, {a});
      ghost var p := M();
      LooseMore(p, {a} - {a}, {});
      ClearedLives(m, p, a, a);
      ClearedLives(m, p, a, r);
      if r !in cells || a !in cells {
        return false;
      }
      if m.cells[a].isRef {
        ClearedReference(m, p, a);
      }
      ClearedKeeps(m, p, r, a);
      cells := cells[a := cells[a].(value := cells[r].value)];
      ghost var q := M();
      RefilledWF(p, a, p.cells[r].value);
      if cells[r].value.Array? {
        CopyTable(r, a);
        CopiedFlag(q, M(), r, a);
        OverwrittenArray(m, p, M(), a, r);
      } else {
        OverwrittenPlain(m, p, a, r);
      }
      return true;
    }

    /** write_var (zval.c:101-122).  The left-hand side must not be `r` already.  False when the
        release of the left-hand side frees what the code uses next. */
    method WriteVar(l: Slot, r: Addr) returns (ok: bool)
      requires WF(M(), {}) && l in slots && l != Local && Local !in slots && r in cells && r != slots[l]
      modifies this
      ensures ok == old(CanWrite(M(), l, r))
      ensures ok ==> WF(M(), {}) && Written(old(M()), M(), l, r) && Local !in slots
      ensures ok && old(cells[slots[l]].isRef) ==>
                (IsRef(M(), old(slots[l])) <==> old(StaysRef(M(), ElemsOf(M(), slots[l]), slots[l])))
    {
      hide StaysRef;
      ghost var m := M();
      var a := slots[l];
      if cells[a].isRef {
        ok := OverwriteLhs(a, r);
        if ok {
          OverwrittenLocal(m, M(), a, r);
        }
      } else {
        ok := WriteFresh(l, r);
      }
    }

    /** The branch of write_var for a left-hand side that is not a reference: release first, then
        share `r`, or copy it when it is a reference. */
    method WriteFresh(l: Slot, r: Addr) returns (ok: bool)
      requires WF(M(), {}) && l in slots && l != Local && Local !in slots && r in cells && r != slots[l]
      requires !cells[slots[l]].isRef
      modifies this
      ensures ok == old(CanWrite(M(), l, r))
      ensures ok ==> WF(M(), {}) && Written(old(M()), M(), l, r) && Local !in slots
    {
      hide Kept, CloneOf, CanWrite, Released, CellsCounted, TablesOwned, SameEntry, Grown, Spares;
      ghost var m := M();
      var stale := slots[l];
      ZvalPtrDtor(l, {});
      ghost var p := M();
      WriteReached(m, p, l, r);
      if r !in cells || (l.Elem? && l.owner !in cells) {
        return false;
      }
      WriteReleased(m, p, l, r);
      if cells[r].isRef {
        if l.Elem? && l.owner == r && stale !in cells {
          return false;
        }
        var c := ZvpCloneEx(r);
        ghost var q := M();
        WriteCloned(p, q, l, r);
        // The entry that was just released is still in its bucket when the table is copied.
        if l.Elem? && l.owner == r {
          StaleEntry(m, p, q, l, r);
          cells := cells[stale := cells[stale].(refcount := cells[stale].refcount + 1)];
          slots := slots[Elem(c, l.key) := stale];
          assert M() == Gained(q, Elem(c, l.key), stale);
        }
        ghost var w := M();
        slots := (slots - {Local})[l := c];
        assert M() == Moved(w, l, Local);
        WriteCloneKept(m, p, q, w, M(), l, r);
        WriteCloneCopy(m, p, q, w, M(), l, r);
      } else {
        cells := cells[r := cells[r].(refcount := cells[r].refcount + 1)];
        slots := slots[l := r];
        WriteShared(m, p, M(), l, r);
      }
      return true;
    }

    /** get_st_entry (zval.c:125-146): an unknown variable is bound to the uninitialised cell. */
    method GetStEntry(s: Slot)
      requires WF(M(), {}) && UNINIT in slots && !s.Elem? && s != Local && Local !in slots
      modifies this
      ensures WF(M(), {}) && GotVar(old(M()), M(), s) && Local !in slots
    {
      ghost var m := M();
      if s !in slots {
        var a := slots[UNINIT];
        cells := cells[a := cells[a].(refcount := cells[a].refcount + 1)];
        slots := slots[s := a];
      }
      hide CellsCounted, TablesOwned;
      GotVarKept(m, M(), s);
    }

    /** read_var (zval.c:151-160). */
    method ReadVar(s: Slot) returns (a: Addr)
      requires WF(M(), {}) && UNINIT in slots
      ensures a == LookUp(M(), s) && a in cells
    {
      if s in slots {
        return slots[s];
      }
      return slots[UNINIT];
    }

    /** read_array (arrays.c:311-333). */
    method ReadArray(a: Addr, k: Key) returns (e: Addr)
      requires Ready(M()) && a in cells && (IsArray(M(), a) || a == slots[UNINIT])
      ensures e in cells && e == LookUp(M(), Elem(a, k))
    {
      if a == slots[UNINIT] {
        return a;
      }
      if Elem(a, k) in slots {
        return slots[Elem(a, k)];
      }
      return slots[UNINIT];
    }

    // -------------------------------------------------------------------------------------
    // runtime/arrays.c
    // -------------------------------------------------------------------------------------

    /** zval_ptr_dtor, ALLOC_INIT_ZVAL and array_init in a row. */
    method NewArrayAt(s: Slot)
      requires WF(M(), {}) && s in slots && !s.Elem? && s != Local && Local !in slots
      modifies this
      ensures WF(M(), {}) && Emptied(old(M()), M(), s) && Local !in slots && s in slots
    {
      ghost var m := M();
      ZvalPtrDtor(s, {});
      ghost var p := M();
      RemovedLocal(m, p, s);
      hide Kept, Released;
      var c := MakeZval(s, Array);
      EmptiedKept(m, p, s);
    }

    /** check_array_type (arrays.c:336-361): NULL, false and "" become an empty array. */
    method CheckArrayType(s: Slot)
      requires WF(M(), {}) && s in slots && !s.Elem? && s != Local && Local !in slots
      modifies this
      ensures WF(M(), {}) && ArrayChecked(old(M()), M(), s) && Local !in slots && s in slots
    {
      var a := slots[s];
      if Falsy(cells[a].value) {
        if cells[a].isRef {
          RefilledInPlace(M(), a, Array);
          cells := cells[a := cells[a].(value := Array)];
        } else {
          NewArrayAt(s);
        }
      }
    }

    /** The entry for `k` in the table of `c`: found, or added with the uninitialised cell in it. */
    method FindOrAdd(c: Addr, k: Key)
      requires WF(M(), {}) && UNINIT in slots && IsArray(M(), c)
      modifies this
      ensures M() == WithEntry(old(M()), c, k)
    {
      if Elem(c, k) !in slots {
        var a := slots[UNINIT];
        cells := cells[a := cells[a].(refcount := cells[a].refcount + 1)];
        slots := slots[Elem(c, k) := a];
      }
    }

    /** get_ht_entry (arrays.c:208-244).  False is the fatal error on a non-empty string. */
    method GetHtEntry(s: Slot, k: Key) returns (ok: bool)
      requires Ready(M()) && s in slots && s.Var?
      modifies this
      ensures ok == !IsText(old(cells[slots[s]].value))
      ensures !ok ==> M() == old(M())
      ensures ok ==> WF(M(), {}) && s in slots && EntryGot(old(M()), M(), s, k) && Local !in slots
    {
      hide Kept, EntryCell, EntryTable, SameEntryAs, CellsCounted, Emptied, TablesOwned;
      ghost var m := M();
      if IsText(cells[slots[s]].value) {
        return false;
      }
      if !cells[slots[s]].value.Array? {
        NewArrayAt(s);
        EntryInEmptied(m, M(), s);
      } else {
        SepCopyOnWrite(s);
        EntryInSeparated(m, M(), s);
      }
      ghost var o := M();
      EntryFrom(m, o, s, k);
      EntryIsArray(m, o, m.slots[s], slots[s]);
      FindOrAdd(slots[s], k);
      return true;
    }

    /** push_and_index_ht (arrays.c:388-426), where `k` is the next index.  Refused is the warning for a
        scalar, and Fatal the error on a non-empty string. */
    method PushAndIndexHt(s: Slot, k: Key) returns (r: Pushed)
      requires Ready(M()) && s in slots && s.Var? && IsNext(M(), slots[s], k)
      modifies this
      ensures r == PushResult(old(cells[slots[s]].value))
      ensures !r.Entry? ==> M() == old(M())
      ensures r.Entry? ==> WF(M(), {}) && s in slots && EntryGot(old(M()), M(), s, k) && Local !in slots
    {
      var v := cells[slots[s]].value;
      if IsText(v) {
        return Fatal;
      }
      if v.Plain? && (v.s == Bool(true) || v.s.Long? || v.s.Double?) {
        return Refused;
      }
      var ok := GetHtEntry(s, k);
      return Entry;
    }

    // -------------------------------------------------------------------------------------
    // runtime/unset.c and runtime/misc.c
    // -------------------------------------------------------------------------------------

    /** zend_hash_del: the pointer in `s`, if any, is released. */
    method HashDel(s: Slot)
      requires WF(M(), {}) && Local !in slots && s != Local
      modifies this
      ensures WF(M(), {}) && Removed(old(M()), M(), s) && Local !in slots
      ensures s in old(slots) ==> M() == old(After(M(), {s}))
    {
      hide After, Lives, Spares, CellsCounted;
      ghost var m := M();
      KeptRefl(m);
      if s in slots {
        ZvalPtrDtor(s, {});
        RemovedLocal(m, M(), s);
        ReleaseExactly(m, M(), {s});
      }
    }

    /** cast_var (misc.c:2-39) after its separation: the engine's conversion in place. */
    method ConvertTo(a: Addr, kind: Kind, conv: Conversions)
      requires WF(M(), {}) && Local !in slots && a in cells && RootHeld(M(), a)
      requires KindOf(cells[a].value) != kind
      modifies this
      ensures WF(M(), {}) && Converted(old(M()), M(), a, kind, conv) && Local !in slots
    {
      hide Kept, Released, Converted, CellsCounted, TablesOwned, Spares;
      ghost var m := M();
      var v := cells[a].value;
      if kind != KArray {
        var x := ScalarOf(M(), a, kind, conv);
        cells := cells[a := cells[a].(value := Plain(Null))];
        ClearedWF(m, a);
        DestroyTable(a, {a});
        ghost var p := M();
        LooseMore(p, {a} - {a}, {});
        ClearedRoot(m, p, a);
        cells := cells[a := cells[a].(value := Plain(x))];
        ConvertedToScalar(m, p, a, kind, conv, M());
      } else {
        RefilledInPlace(m, a, Array);
        cells := cells[a := cells[a].(value := Array)];
        ghost var o := M();
        if v != Plain(Null) {
          NoEntries(o, a);
          var e := MakeZval(Elem(a, Index(0)), v);
        }
        ConvertedToArray(m, a, conv, o, M());
      }
    }
  }

  lemma NoEntries(m: Mem, a: Addr)
    requires ElemsOf(m, a) == {}
    ensures Elem(a, Index(0)) !in m.slots
  {
    assert Elem(a, Index(0)) !in ElemsOf(m, a);
  }
}
