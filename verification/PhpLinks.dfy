/**
 What statements leave in any memory, with references to array entries or without.  After `$x[k] =& $y`,
 `$x[] =& $y` and `$x =& $y[k]` the entry and the variable are one reference, and everything reads as in
 a memory in which nothing but these two was changed.  After an assignment the left-hand side looks as
 the right-hand side did.
*/
module PhpLinks {
  import opened ZvalHeap
  import opened ZvalFrame
  import opened ZvalSteps
  import opened PhpStatements

  // ---------------------------------------------------------------------------------------
  // The array and its entry
  // ---------------------------------------------------------------------------------------

  /** What `$v` may hold to be used as an array: an array, or what becomes one. */
  predicate OpensValue(v: Value) {
    v == Array || v == Plain(Null) || v == Plain(Bool(false)) || v == Plain(Str(""))
  }

  /** The variable has an array that may be written, with the entries it had, and an entry for `k` with
      the cell it had, or the uninitialised one. */
  ghost predicate HasEntry(m: Mem, n: Mem, v: Variable, k: Key)
    requires UNINIT in m.slots
  {
    && Var(v) in n.slots
    && var a, c := LookUp(m, Var(v)), n.slots[Var(v)];
       && Kept(m, n, {Var(v), Elem(c, k)}, {c})
       && IsArray(n, c) && !InCopyOnWrite(n.cells[c]) && (c == a || c >= m.next)
       && Elem(c, k) in n.slots && n.slots[Elem(c, k)] == LookUp(m, Elem(a, k))
       && (forall j :: j != k ==> SameEntryAs(m, a, n, c, j))
       && n.slots[UNINIT] == m.slots[UNINIT] && (IsArray(m, a) ==> NoneFreed(m, n))
  }

  /** The variable is there, with the entries it had. */
  ghost predicate Bound(m: Mem, o: Mem, v: Variable, hot: set<Addr>)
    requires UNINIT in m.slots
  {
    && Var(v) in o.slots && Kept(m, o, {Var(v)}, hot) && o.slots[UNINIT] == m.slots[UNINIT] && UNINIT in o.slots
    && (o.slots[Var(v)] == LookUp(m, Var(v)) || o.slots[Var(v)] >= m.next)
    && (forall j :: SameEntryAs(m, LookUp(m, Var(v)), o, o.slots[Var(v)], j))
    && (hot != {} ==> hot == {o.slots[Var(v)]} && OwnArray(o, o.slots[Var(v)]))
    && (IsArray(m, LookUp(m, Var(v))) ==> NoneFreed(m, o) && IsArray(o, o.slots[Var(v)]))
  }

  lemma GotBound(m: Mem, o: Mem, v: Variable)
    requires Ready(m) && GotVar(m, o, Var(v))
    ensures Bound(m, o, v, {})
  {
    GotVarKept(m, o, Var(v));
  }

  lemma NoEntries(m: Mem, a: Addr, j: Key)
    requires WF(m, {}) && !IsArray(m, a)
    ensures Elem(a, j) !in m.slots
  {
  }

  lemma OpenBound(m: Mem, o: Mem, v: Variable)
    requires Ready(m) && Ready(o) && DidOpenArray(m, o, v)
    ensures Var(v) in o.slots && (Bound(m, o, v, {}) || Bound(m, o, v, {o.slots[Var(v)]}))
    ensures OpensValue(Current(m, v)) ==> IsArray(o, o.slots[Var(v)])
  {
    var b :| GotVar(m, b, Var(v)) && Ready(b) && ArrayChecked(b, o, Var(v));
    GotBound(m, b, v);
    CheckedBound(m, b, o, v);
  }

  lemma CheckedBound(m: Mem, b: Mem, o: Mem, v: Variable)
    requires Ready(m) && Ready(b) && Ready(o) && GotVar(m, b, Var(v)) && Var(v) in b.slots && ArrayChecked(b, o, Var(v))
    requires Bound(m, b, v, {})
    ensures Var(v) in o.slots && (Bound(m, o, v, {}) || Bound(m, o, v, {o.slots[Var(v)]}))
    ensures OpensValue(Current(m, v)) ==> IsArray(o, o.slots[Var(v)])
  {
    var a := b.slots[Var(v)];
    hide Bound, Emptied, CellsCounted, TablesOwned;
    assert b.cells[a].value == Current(m, v);
    if Falsy(b.cells[a].value) {
      if b.cells[a].isRef {
        RefilledBound(m, b, o, v);
      } else {
        EmptiedBound(m, b, o, v);
      }
    }
  }

  lemma RefilledBound(m: Mem, b: Mem, o: Mem, v: Variable)
    requires Ready(m) && Ready(b) && Ready(o) && Bound(m, b, v, {}) && IsRef(b, b.slots[Var(v)])
    requires !IsArray(b, b.slots[Var(v)]) && !IsArray(m, LookUp(m, Var(v)))
    requires o == Refilled(b, b.slots[Var(v)], Array)
    ensures Bound(m, o, v, {o.slots[Var(v)]}) && IsArray(o, o.slots[Var(v)])
  {
    hide CellsCounted;
    var a := b.slots[Var(v)];
    forall j ensures SameEntryAs(m, LookUp(m, Var(v)), o, a, j) {
      NoEntries(m, LookUp(m, Var(v)), j);
      NoEntries(b, a, j);
    }
    hide WF, Kept, SameEntryAs;
    RefilledInPlace(b, a, Array);
    KeptTrans(m, b, o, {Var(v)}, {}, {}, {a}, {Var(v)}, {a});
  }

  lemma EmptiedBound(m: Mem, b: Mem, o: Mem, v: Variable)
    requires Ready(m) && Ready(b) && Ready(o) && Bound(m, b, v, {}) && Emptied(b, o, Var(v))
    requires !IsArray(m, LookUp(m, Var(v)))
    ensures Bound(m, o, v, {}) && IsArray(o, o.slots[Var(v)])
  {
    var c := o.slots[Var(v)];
    forall j ensures SameEntryAs(m, LookUp(m, Var(v)), o, c, j) {
      NoEntries(m, LookUp(m, Var(v)), j);
      assert Elem(c, j) in ElemsOf(o, c) <==> Elem(c, j) in o.slots;
    }
    assert m.next <= b.next && Anchored(o, {}, UNINIT);
    hide WF, SameEntryAs;
    KeptTrans(m, b, o, {Var(v)}, {}, {Var(v)}, {}, {Var(v)}, {});
  }

  /** Then the entry. */
  lemma EntryMade(m: Mem, o: Mem, n: Mem, v: Variable, k: Key, hot: set<Addr>)
    requires Ready(m) && Ready(o) && Ready(n) && Bound(m, o, v, hot) && Var(v) in n.slots && EntryGot(o, n, Var(v), k)
    ensures HasEntry(m, n, v, k)
  {
    hide WF, Kept, EntryGot, Bound, HasEntry, SameEntryAs, NoneFreed;
    EntryMadeCell(m, o, n, v, k, hot);
    EntryMadeTable(m, o, n, v, k, hot);
    var c := n.slots[Var(v)];
    if IsArray(m, LookUp(m, Var(v))) {
      NoneFreedTrans(m, o, n);
    }
    KeptTrans(m, o, n, {Var(v)}, hot, {Var(v), Elem(c, k)}, {}, {Var(v), Elem(c, k)}, {c});
    HasEntryFrom(m, n, v, k);
  }

  lemma HasEntryFrom(m: Mem, n: Mem, v: Variable, k: Key)
    requires UNINIT in m.slots && UNINIT in n.slots && Var(v) in n.slots
    requires var a, c := LookUp(m, Var(v)), n.slots[Var(v)];
       && Kept(m, n, {Var(v), Elem(c, k)}, {c})
       && IsArray(n, c) && !InCopyOnWrite(n.cells[c]) && (c == a || c >= m.next)
       && Elem(c, k) in n.slots && n.slots[Elem(c, k)] == LookUp(m, Elem(a, k))
       && (forall j :: j != k ==> SameEntryAs(m, a, n, c, j))
       && n.slots[UNINIT] == m.slots[UNINIT] && (IsArray(m, a) ==> NoneFreed(m, n))
    ensures HasEntry(m, n, v, k)
  {
  }

  lemma EntryMadeCell(m: Mem, o: Mem, n: Mem, v: Variable, k: Key, hot: set<Addr>)
    requires Ready(m) && Ready(o) && Ready(n) && Bound(m, o, v, hot) && Var(v) in n.slots && EntryGot(o, n, Var(v), k)
    ensures var a, c := LookUp(m, Var(v)), n.slots[Var(v)];
      && Var(v) in o.slots && Kept(m, o, {Var(v)}, hot) && Kept(o, n, {Var(v), Elem(c, k)}, {}) && hot <= {c}
      && IsArray(n, c) && !InCopyOnWrite(n.cells[c]) && (c == a || c >= m.next)
      && n.slots[UNINIT] == m.slots[UNINIT] && (IsArray(m, a) ==> NoneFreed(m, o) && NoneFreed(o, n))
  {
    hide WF, EntryTable, SameEntryAs, NoneFreed;
    assert m.next <= o.next && Anchored(n, {}, UNINIT);
  }

  lemma NoneFreedTrans(m: Mem, o: Mem, n: Mem)
    requires NoneFreed(m, o) && NoneFreed(o, n)
    ensures NoneFreed(m, n)
  {
  }

  lemma EntryMadeTable(m: Mem, o: Mem, n: Mem, v: Variable, k: Key, hot: set<Addr>)
    requires UNINIT in m.slots && Bound(m, o, v, hot) && Var(v) in n.slots && EntryGot(o, n, Var(v), k)
    ensures var a, c := LookUp(m, Var(v)), n.slots[Var(v)];
      && Elem(c, k) in n.slots && n.slots[Elem(c, k)] == LookUp(m, Elem(a, k))
      && forall j :: j != k ==> SameEntryAs(m, a, n, c, j)
  {
    hide Kept, EntryCell;
    var a, c := LookUp(m, Var(v)), n.slots[Var(v)];
    assert SameEntryAs(m, a, o, o.slots[Var(v)], k);
    forall j | j != k ensures SameEntryAs(m, a, n, c, j) {
      assert SameEntryAs(m, a, o, o.slots[Var(v)], j);
    }
  }

  // ---------------------------------------------------------------------------------------
  // The reference
  // ---------------------------------------------------------------------------------------

  /** The array of `$v` is the cell `c`, with the entries it had but for `k`; this entry and the variable
      `$w` hold one cell, which is a reference, and looks as the cell `t` did.  Nothing else was changed. */
  ghost predicate Tied(m: Mem, n: Mem, v: Variable, c: Addr, k: Key, w: Variable, t: Addr)
    requires UNINIT in m.slots
  {
    && IsArray(n, c) && (v != w ==> Var(v) in n.slots && n.slots[Var(v)] == c)
    && Elem(c, k) in n.slots && Var(w) in n.slots
    && var a := n.slots[Var(w)];
       && n.slots[Elem(c, k)] == a && IsRef(n, a) && (a == c <==> t == c) && (a != t ==> a >= m.next)
       && (c == LookUp(m, Var(v)) || c >= m.next)
       && Kept(m, n, {Var(v), Var(w), Elem(c, k)}, {c, a})
       && (forall j :: j != k ==> SameEntryAs(m, LookUp(m, Var(v)), n, c, j))
       && (a != c ==> LooksLike(m, t, n, a))
  }

  ghost predicate LooksLike(m: Mem, a: Addr, n: Mem, b: Addr) {
    && a in m.cells && b in n.cells && n.cells[b].value == m.cells[a].value
    && forall j :: SameEntryAs(m, a, n, b, j)
  }

  /** A table that is not touched. */
  lemma Untouched(m: Mem, n: Mem, named: set<Slot>, hot: set<Addr>, b: Addr, j: Key)
    requires WF(m, {}) && Kept(m, n, named, hot) && b in m.cells && b in n.cells && b !in hot && Elem(b, j) !in named
    ensures SameEntryAs(m, b, n, b, j) && n.cells[b].value == m.cells[b].value
  {
    hide CellsCounted, NoDangling, TablesOwned;
    assert Anchored(n, hot, Elem(b, j));
    Below(m, b);
  }

  lemma LooksOn(m: Mem, n: Mem, named: set<Slot>, hot: set<Addr>, b: Addr)
    requires WF(m, {}) && Kept(m, n, named, hot) && b in m.cells && b in n.cells && b !in hot
    requires forall s :: s in named && s.Elem? ==> s.owner != b
    ensures LooksLike(m, b, n, b)
  {
    hide Kept;
    forall j ensures SameEntryAs(m, b, n, b, j) {
      Untouched(m, n, named, hot, b, j);
    }
    Untouched(m, n, named, hot, b, Index(0));
  }

  lemma LooksTrans(m: Mem, a: Addr, o: Mem, b: Addr, n: Mem, c: Addr)
    requires LooksLike(m, a, o, b) && LooksLike(o, b, n, c)
    ensures LooksLike(m, a, n, c)
  {
    forall j ensures SameEntryAs(m, a, n, c, j) {
      assert SameEntryAs(m, a, o, b, j) && SameEntryAs(o, b, n, c, j);
    }
  }

  /** A separated slot holds its cell, or a new one that looks alike. */
  lemma SepLooks(o: Mem, p: Mem, s: Slot)
    requires Ready(o) && Ready(p) && s in o.slots && Separated(o, p, s)
    ensures s in p.slots && Kept(o, p, {s}, {}) && LooksLike(o, o.slots[s], p, p.slots[s])
    ensures p.slots[s] == o.slots[s] || p.slots[s] >= o.next
    ensures !InCopyOnWrite(o.cells[o.slots[s]]) ==> p == o
  {
    SeparatedFrame(o, p, s);
    hide Kept, CellsCounted, TablesOwned;
    if p == o {
      forall j ensures SameEntryAs(o, o.slots[s], p, p.slots[s], j) {
      }
    }
  }

  /** The cell that the reference joins looks as it did. */
  lemma JoinLooks(p: Mem, n: Mem, l: Slot, r: Slot)
    requires r in p.slots && RefCopied(p, n, l, r) && (l.Elem? ==> l.owner != p.slots[r])
    ensures LooksLike(p, p.slots[r], n, p.slots[r])
  {
    hide Kept;
    var a := p.slots[r];
    forall j ensures SameEntryAs(p, a, n, a, j) {
      assert SameEntry(p, n, a, j);
    }
  }

  /** The variable on the right, looked up and separated. */
  lemma RightLooks(o: Mem, q: Mem, p: Mem, y: Variable)
    requires Ready(o) && Ready(q) && Ready(p) && GotVar(o, q, Var(y)) && Var(y) in q.slots && Separated(q, p, Var(y))
    ensures Var(y) in p.slots && Kept(o, p, {Var(y)}, {}) && LooksLike(o, LookUp(o, Var(y)), p, p.slots[Var(y)])
    ensures p.slots[Var(y)] == LookUp(o, Var(y)) || p.slots[Var(y)] >= o.next
    ensures Var(y) in o.slots && !InCopyOnWrite(o.cells[o.slots[Var(y)]]) ==> p == o
  {
    var b := LookUp(o, Var(y));
    GotVarKept(o, q, Var(y));
    assert b in o.cells && b in q.cells;
    LooksOn(o, q, {Var(y)}, {}, b);
    hide Separated, Kept, CellsCounted, TablesOwned, LooksLike;
    SepLooks(q, p, Var(y));
    KeptTrans(o, q, p, {Var(y)}, {}, {Var(y)}, {}, {Var(y)}, {});
    LooksTrans(o, b, q, b, p, p.slots[Var(y)]);
  }

  /** `l =& $y`, where `l` is the entry for `k` of the array of `$x`. */
  lemma StoreTies(m: Mem, o: Mem, p: Mem, n: Mem, x: Variable, k: Key, y: Variable)
    requires Ready(m) && Ready(o) && Ready(p) && Ready(n) && HasEntry(m, o, x, k)
    requires DidRefFrom(o, p, n, Elem(o.slots[Var(x)], k), y)
    ensures Var(x) in n.slots
    ensures Tied(m, n, x, n.slots[Var(x)], k, y, if x == y then n.slots[Var(x)] else LookUp(m, Var(y)))
  {
    var e := Elem(o.slots[Var(x)], k);
    var q :| GotVar(o, q, Var(y)) && Ready(q) && Separated(q, p, Var(y)) && Ready(p)
             && e in p.slots && Var(y) in p.slots && !InCopyOnWrite(p.cells[p.slots[Var(y)]])
             && RefCopied(p, n, e, Var(y));
    hide Separated, HasEntry, RefCopied, Tied, CellsCounted, TablesOwned;
    RightLooks(o, q, p, y);
    StoreTiesVia(m, o, p, n, x, k, y);
  }

  lemma StoreTiesVia(m: Mem, o: Mem, p: Mem, n: Mem, x: Variable, k: Key, y: Variable)
    requires Ready(m) && Ready(o) && Ready(p) && Ready(n) && HasEntry(m, o, x, k)
    requires var e := Elem(o.slots[Var(x)], k);
      e in p.slots && Var(y) in p.slots && RefCopied(p, n, e, Var(y)) && Kept(o, p, {Var(y)}, {})
    requires LooksLike(o, LookUp(o, Var(y)), p, p.slots[Var(y)])
    requires p.slots[Var(y)] == LookUp(o, Var(y)) || p.slots[Var(y)] >= o.next
    requires Var(y) in o.slots && !InCopyOnWrite(o.cells[o.slots[Var(y)]]) ==> p == o
    ensures Var(x) in n.slots
    ensures Tied(m, n, x, n.slots[Var(x)], k, y, if x == y then n.slots[Var(x)] else LookUp(m, Var(y)))
  {
    var c, a := o.slots[Var(x)], p.slots[Var(y)];
    var t := if x == y then c else LookUp(m, Var(y));
    hide Kept, LooksLike, CellsCounted, TablesOwned, Tied;
    EntryFacts(m, o, x, k, y);
    StoreRoots(m, o, p, n, x, k, y);
    StoreTables(m, o, p, n, x, k, y);
    StoreFrame(m, o, p, n, x, k, y);
    TiedFrom(m, n, x, c, k, y, t);
  }

  lemma StoreRoots(m: Mem, o: Mem, p: Mem, n: Mem, x: Variable, k: Key, y: Variable)
    requires Ready(m) && Ready(o) && Ready(p) && Ready(n) && HasEntry(m, o, x, k)
    requires var e := Elem(o.slots[Var(x)], k);
      e in p.slots && Var(y) in p.slots && RefCopied(p, n, e, Var(y)) && Kept(o, p, {Var(y)}, {})
    requires LooksLike(o, LookUp(o, Var(y)), p, p.slots[Var(y)])
    requires p.slots[Var(y)] == LookUp(o, Var(y)) || p.slots[Var(y)] >= o.next
    requires Var(y) in o.slots && !InCopyOnWrite(o.cells[o.slots[Var(y)]]) ==> p == o
    ensures var c, a := o.slots[Var(x)], p.slots[Var(y)]; var t := if x == y then c else LookUp(m, Var(y));
      && Var(x) in n.slots && n.slots[Var(x)] == c && IsArray(n, c) && c in p.cells
      && Elem(c, k) in n.slots && n.slots[Elem(c, k)] == a && Var(y) in n.slots && n.slots[Var(y)] == a && IsRef(n, a)
      && (a == c <==> t == c) && (a != t ==> a >= m.next) && (x != y ==> LookUp(o, Var(y)) == t)
  {
    hide CellsCounted, LooksLike, SameEntry, SameEntryAs;
    var c := o.slots[Var(x)];
    Below(o, c);
    assert x != y ==> Anchored(p, {}, Var(x)) && Anchored(o, {c}, Var(y));
    assert Anchored(n, {p.slots[Var(y)]}, Var(x));
    EntryOwner(n, Elem(c, k));
  }

  lemma StoreFrame(m: Mem, o: Mem, p: Mem, n: Mem, x: Variable, k: Key, y: Variable)
    requires Ready(m) && Ready(o) && Ready(p) && Ready(n) && HasEntry(m, o, x, k)
    requires var e := Elem(o.slots[Var(x)], k);
      e in p.slots && Var(y) in p.slots && RefCopied(p, n, e, Var(y)) && Kept(o, p, {Var(y)}, {})
    requires LooksLike(o, LookUp(o, Var(y)), p, p.slots[Var(y)])
    requires p.slots[Var(y)] == LookUp(o, Var(y)) || p.slots[Var(y)] >= o.next
    requires Var(y) in o.slots && !InCopyOnWrite(o.cells[o.slots[Var(y)]]) ==> p == o
    ensures var c, a := o.slots[Var(x)], p.slots[Var(y)]; Kept(m, n, {Var(x), Var(y), Elem(c, k)}, {c, a})
  {
    var c, a := o.slots[Var(x)], p.slots[Var(y)];
    var all := {Var(x), Var(y), Elem(c, k)};
    hide Kept, WF, LooksLike, SameEntry, SameEntryAs;
    KeptTrans(m, o, p, {Var(x), Elem(c, k)}, {c}, {Var(y)}, {}, all, {c, a});
    KeptTrans(m, p, n, all, {c, a}, {Elem(c, k)}, {a}, all, {c, a});
  }

  lemma StoreTables(m: Mem, o: Mem, p: Mem, n: Mem, x: Variable, k: Key, y: Variable)
    requires Ready(m) && Ready(o) && Ready(p) && Ready(n) && HasEntry(m, o, x, k)
    requires var e := Elem(o.slots[Var(x)], k);
      e in p.slots && Var(y) in p.slots && RefCopied(p, n, e, Var(y)) && Kept(o, p, {Var(y)}, {})
    requires LooksLike(o, LookUp(o, Var(y)), p, p.slots[Var(y)])
    requires p.slots[Var(y)] == LookUp(o, Var(y)) || p.slots[Var(y)] >= o.next
    requires Var(y) in o.slots && !InCopyOnWrite(o.cells[o.slots[Var(y)]]) ==> p == o
    ensures var c, a := o.slots[Var(x)], p.slots[Var(y)];
      && (forall j :: j != k ==> SameEntryAs(m, LookUp(m, Var(x)), n, c, j))
      && (a != c ==> LooksLike(m, if x == y then c else LookUp(m, Var(y)), n, a))
  {
    hide WF, Kept, LooksLike, SameEntryAs, RefCopied, HasEntry, InCopyOnWrite;
    StoreRoots(m, o, p, n, x, k, y);
    EntryFacts(m, o, x, k, y);
    var c, a := o.slots[Var(x)], p.slots[Var(y)];
    forall j | j != k ensures SameEntryAs(m, LookUp(m, Var(x)), n, c, j) {
      JoinedEntry(m, LookUp(m, Var(x)), o, p, n, c, k, Var(y), j);
    }
    if a != c {
      JoinedLooks(m, LookUp(m, Var(y)), o, p, n, {Var(x), Elem(c, k)}, c, Elem(c, k), Var(y));
    }
  }

  lemma EntryFacts(m: Mem, o: Mem, x: Variable, k: Key, y: Variable)
    requires Ready(m) && Ready(o) && HasEntry(m, o, x, k)
    ensures Var(x) in o.slots && o.slots[Var(x)] in o.cells && LookUp(m, Var(y)) in m.cells
    ensures Elem(o.slots[Var(x)], k) in o.slots
    ensures o.slots[Var(x)] == LookUp(m, Var(x)) || o.slots[Var(x)] >= m.next
    ensures var c := o.slots[Var(x)];
      && Kept(m, o, {Var(x), Elem(c, k)}, {c}) && forall j :: j != k ==> SameEntryAs(m, LookUp(m, Var(x)), o, c, j)
    ensures LookUp(o, Var(y)) in o.cells
  {
    hide Kept, SameEntryAs;
  }

  /** The other entries of the array. */
  lemma JoinedEntry(m: Mem, x: Addr, o: Mem, p: Mem, n: Mem, c: Addr, k: Key, r: Slot, j: Key)
    requires Ready(o) && Ready(p) && Ready(n) && SameEntryAs(m, x, o, c, j) && j != k
    requires c in o.cells && c in p.cells && c in n.cells && Kept(o, p, {r}, {}) && r != Elem(c, j)
    requires r in p.slots && RefCopied(p, n, Elem(c, k), r)
    ensures SameEntryAs(m, x, n, c, j)
  {
    hide CellsCounted, TablesOwned, Kept;
    Untouched(o, p, {r}, {}, c, j);
    if p.slots[r] == c {
      assert SameEntry(p, n, c, j);
    } else {
      Untouched(p, n, {Elem(c, k)}, {p.slots[r]}, c, j);
    }
  }

  /** The cell that becomes the reference. */
  lemma JoinedLooks(m: Mem, t: Addr, o: Mem, p: Mem, n: Mem, named: set<Slot>, c: Addr, l: Slot, r: Slot)
    requires Ready(m) && Ready(o) && t in m.cells && t in o.cells && t != c && Kept(m, o, named, {c})
    requires forall s :: s in named && s.Elem? ==> s.owner == c
    requires r in p.slots && LooksLike(o, t, p, p.slots[r])
    requires RefCopied(p, n, l, r) && (l.Elem? ==> l.owner != p.slots[r])
    ensures LooksLike(m, t, n, p.slots[r])
  {
    hide WF, Kept, LooksLike, RefCopied;
    LooksOn(m, o, named, {c}, t);
    LooksTrans(m, t, o, t, p, p.slots[r]);
    JoinLooks(p, n, l, r);
    LooksTrans(m, t, p, p.slots[r], n, p.slots[r]);
  }

  lemma TiedFrom(m: Mem, n: Mem, v: Variable, c: Addr, k: Key, w: Variable, t: Addr)
    requires UNINIT in m.slots && IsArray(n, c) && (v != w ==> Var(v) in n.slots && n.slots[Var(v)] == c)
    requires Elem(c, k) in n.slots && Var(w) in n.slots
    requires var a := n.slots[Var(w)];
      && n.slots[Elem(c, k)] == a && IsRef(n, a) && (a == c <==> t == c) && (a != t ==> a >= m.next)
      && (c == LookUp(m, Var(v)) || c >= m.next)
      && Kept(m, n, {Var(v), Var(w), Elem(c, k)}, {c, a})
      && (forall j :: j != k ==> SameEntryAs(m, LookUp(m, Var(v)), n, c, j))
      && (a != c ==> LooksLike(m, t, n, a))
    ensures Tied(m, n, v, c, k, w, t)
  {
  }

  // ---------------------------------------------------------------------------------------
  // The statements
  // ---------------------------------------------------------------------------------------

  /** `$x =& $y`: both hold one cell, which looks as that of `$y` did, and is a reference. */
  lemma VarRefTies(m: Mem, n: Mem, x: Variable, y: Variable)
    requires Ready(m) && Ready(n) && Step(m, AssignRef(x, y), n)
    ensures Var(x) in n.slots && Var(y) in n.slots && n.slots[Var(x)] == n.slots[Var(y)]
    ensures LooksLike(m, LookUp(m, Var(y)), n, n.slots[Var(y)])
    ensures x != y ==> IsRef(n, n.slots[Var(y)])
  {
    var o, p :| GotVar(m, o, Var(x)) && Ready(o) && DidRefFrom(o, p, n, Var(x), y);
    var q :| GotVar(o, q, Var(y)) && Ready(q) && Separated(q, p, Var(y)) && Ready(p)
             && Var(x) in p.slots && Var(y) in p.slots && !InCopyOnWrite(p.cells[p.slots[Var(y)]])
             && RefCopied(p, n, Var(x), Var(y));
    VarRefVia(m, o, q, p, n, x, y);
  }

  lemma VarRefVia(m: Mem, o: Mem, q: Mem, p: Mem, n: Mem, x: Variable, y: Variable)
    requires Ready(m) && Ready(o) && Ready(q) && Ready(p) && Ready(n) && GotVar(m, o, Var(x)) && GotVar(o, q, Var(y))
    requires Var(y) in q.slots && Separated(q, p, Var(y)) && Var(y) in p.slots && RefCopied(p, n, Var(x), Var(y))
    ensures Var(x) in n.slots && Var(y) in n.slots && n.slots[Var(x)] == n.slots[Var(y)]
    ensures LooksLike(m, LookUp(m, Var(y)), n, n.slots[Var(y)])
    ensures x != y ==> IsRef(n, n.slots[Var(y)])
  {
    hide WF, Kept, LooksLike, Separated, SameEntry, GotVar;
    BoundSame(m, o, y, x);
    RightLooks(o, q, p, y);
    JoinLooks(p, n, Var(x), Var(y));
    LooksTrans(o, LookUp(o, Var(y)), p, p.slots[Var(y)], n, n.slots[Var(y)]);
    LooksSame(m, o, x, n, LookUp(m, Var(y)), n.slots[Var(y)]);
  }

  /** After `unset ($x)` the variable is unknown. */
  lemma UnsetHolds(m: Mem, n: Mem, x: Variable)
    requires Ready(m) && Step(m, UnsetVar(x), n)
    ensures Var(x) !in n.slots
  {
  }

  /** After `unset ($x[k])` it has its other entries. */
  lemma UnsetElemHolds(m: Mem, n: Mem, x: Variable, k: Key)
    requires Ready(m) && Ready(n) && Step(m, UnsetElem(x, [], k), n)
    ensures Var(x) in n.slots && Elem(n.slots[Var(x)], k) !in n.slots
    ensures forall j :: j != k ==> SameEntryAs(m, LookUp(m, Var(x)), n, n.slots[Var(x)], j)
  {
    hide Separated, CellsCounted, TablesOwned, Removed, SameEntryAs;
    var o, p :| GotVar(m, o, Var(x)) && Ready(o) && Separated(o, p, Var(x)) && Ready(p) && Var(x) in p.slots
                && !InCopyOnWrite(p.cells[p.slots[Var(x)]]) && DidRemove(p, n, Inner(p, p.slots[Var(x)], []), k);
    hide WF, DidRemove, GotVar;
    RemoveVia(m, o, p, n, x, k);
  }

  lemma RemoveVia(m: Mem, o: Mem, p: Mem, n: Mem, x: Variable, k: Key)
    requires Ready(m) && Ready(o) && Ready(p) && Ready(n) && GotVar(m, o, Var(x)) && Var(x) in o.slots
    requires Separated(o, p, Var(x)) && Var(x) in p.slots && DidRemove(p, n, p.slots[Var(x)], k)
    ensures Var(x) in n.slots && Elem(n.slots[Var(x)], k) !in n.slots
    ensures forall j :: j != k ==> SameEntryAs(m, LookUp(m, Var(x)), n, n.slots[Var(x)], j)
  {
    hide Separated, LooksLike, CellsCounted, TablesOwned;
    var c := p.slots[Var(x)];
    SepLooks(o, p, Var(x));
    LooksSame(m, o, x, p, LookUp(m, Var(x)), c);
    assert LooksLike(m, LookUp(m, Var(x)), p, c);
    RemovedTable(p, n, x, c, k);
    forall j | j != k ensures SameEntryAs(m, LookUp(m, Var(x)), n, c, j) {
      LooksEntry(m, LookUp(m, Var(x)), p, c, j);
      EntryOn(m, LookUp(m, Var(x)), p, n, c, j);
    }
  }

  lemma LooksEntry(m: Mem, a: Addr, n: Mem, b: Addr, j: Key)
    requires LooksLike(m, a, n, b)
    ensures SameEntryAs(m, a, n, b, j)
  {
  }

  lemma RemovedTable(p: Mem, n: Mem, x: Variable, c: Addr, k: Key)
    requires Ready(p) && Ready(n) && Var(x) in p.slots && p.slots[Var(x)] == c && DidRemove(p, n, c, k)
    ensures Var(x) in n.slots && n.slots[Var(x)] == c && Elem(c, k) !in n.slots
    ensures forall j :: j != k ==> SameEntryAs(p, c, n, c, j)
  {
    if IsArray(p, c) {
      RootStays(p, n, Elem(c, k), Var(x));
      forall j | j != k ensures SameEntryAs(p, c, n, c, j) {
        Untouched(p, n, {Elem(c, k)}, {}, c, j);
      }
    } else {
      NoEntries(p, c, k);
    }
  }

  /** `$x[k] =& $y`: the entry and `$y` become one reference, with what `$y` held. */
  lemma ArrayRefTies(m: Mem, n: Mem, x: Variable, k: Key, y: Variable)
    requires Ready(m) && Ready(n) && Step(m, AssignArrayRef(x, k, y), n) && OpensValue(Current(m, x))
    ensures Var(x) in n.slots
    ensures Tied(m, n, x, n.slots[Var(x)], k, y, if x == y then n.slots[Var(x)] else LookUp(m, Var(y)))
  {
    var o :| DidOpenArray(m, o, x) && Ready(o) && Var(x) in o.slots
             && if IsArray(o, o.slots[Var(x)]) then DidStoreRef(o, n, x, k, y) else n == o;
    hide DidOpenArray, DidStoreRef, OpensValue, WF, Bound, Tied;
    OpenBound(m, o, x);
    if Bound(m, o, x, {}) {
      StoreRefTies(m, o, n, x, k, y, {});
    } else {
      StoreRefTies(m, o, n, x, k, y, {o.slots[Var(x)]});
    }
  }

  lemma StoreRefTies(m: Mem, o: Mem, n: Mem, x: Variable, k: Key, y: Variable, hot: set<Addr>)
    requires Ready(m) && Ready(o) && Ready(n) && Bound(m, o, x, hot) && DidStoreRef(o, n, x, k, y)
    ensures Var(x) in n.slots
    ensures Tied(m, n, x, n.slots[Var(x)], k, y, if x == y then n.slots[Var(x)] else LookUp(m, Var(y)))
  {
    var b, p :| Ready(b) && Var(x) in b.slots && EntryGot(o, b, Var(x), k)
                && DidRefFrom(b, p, n, Elem(b.slots[Var(x)], k), y);
    hide DidRefFrom, WF, Bound, Tied, HasEntry, EntryGot;
    assert Ready(p) by { RefFromReady(b, p, n, Elem(b.slots[Var(x)], k), y); }
    EntryMade(m, o, b, x, k, hot);
    StoreTies(m, b, p, n, x, k, y);
  }

  lemma RefFromReady(o: Mem, p: Mem, n: Mem, l: Slot, y: Variable)
    requires Ready(o) && l in o.slots && DidRefFrom(o, p, n, l, y)
    ensures Ready(p)
  {
    hide RefCopied, Separated, GotVar;
  }

  /** `$x[] =& $y`: the same at the next index. */
  lemma NextRefTies(m: Mem, n: Mem, x: Variable, k: Key, y: Variable)
    requires Ready(m) && Ready(n) && Step(m, AssignNextRef(x, k, y), n) && OpensValue(Current(m, x))
    ensures Var(x) in n.slots
    ensures Tied(m, n, x, n.slots[Var(x)], k, y, if x == y then n.slots[Var(x)] else LookUp(m, Var(y)))
  {
    var o :| GotVar(m, o, Var(x)) && Ready(o)
             && if PushResult(o.cells[o.slots[Var(x)]].value) == Entry then DidStoreRef(o, n, x, k, y) else n == o;
    assert o.cells[o.slots[Var(x)]].value == Current(m, x);
    hide DidStoreRef, WF, Bound, Tied, GotVar;
    GotBound(m, o, x);
    StoreRefTies(m, o, n, x, k, y, {});
  }

  /** `l =& $y[k]` once the entry is there. */
  lemma AccessTies(m: Mem, o: Mem, p: Mem, n: Mem, x: Variable, k: Key, y: Variable)
    requires Ready(m) && Ready(o) && Ready(p) && Ready(n) && HasEntry(m, o, y, k)
    requires var e := Elem(o.slots[Var(y)], k);
      Separated(o, p, e) && Var(x) in p.slots && e in p.slots && RefCopied(p, n, Var(x), e)
    ensures Tied(m, n, y, o.slots[Var(y)], k, x, LookUp(m, Elem(LookUp(m, Var(y)), k)))
  {
    hide Separated, WF, Kept, LooksLike, SameEntryAs, RefCopied, HasEntry, InCopyOnWrite, Tied;
    EntryFacts(m, o, y, k, x);
    AccessRoots(m, o, p, n, x, k, y);
    AccessTables(m, o, p, n, x, k, y);
    AccessFrame(m, o, p, n, x, k, y);
    TiedFrom(m, n, y, o.slots[Var(y)], k, x, LookUp(m, Elem(LookUp(m, Var(y)), k)));
  }

  lemma AccessTables(m: Mem, o: Mem, p: Mem, n: Mem, x: Variable, k: Key, y: Variable)
    requires Ready(m) && Ready(o) && Ready(p) && Ready(n) && HasEntry(m, o, y, k)
    requires var e := Elem(o.slots[Var(y)], k);
      Separated(o, p, e) && Var(x) in p.slots && e in p.slots && RefCopied(p, n, Var(x), e)
    ensures var c := o.slots[Var(y)]; var a, t := p.slots[Elem(c, k)], LookUp(m, Elem(LookUp(m, Var(y)), k));
      && (forall j :: j != k ==> SameEntryAs(m, LookUp(m, Var(y)), n, c, j)) && (a != c ==> LooksLike(m, t, n, a))
  {
    hide Separated, WF, Kept, LooksLike, SameEntryAs, RefCopied, HasEntry, InCopyOnWrite;
    EntryFacts(m, o, y, k, x);
    var c := o.slots[Var(y)];
    var e := Elem(c, k);
    AccessRoots(m, o, p, n, x, k, y);
    SepLooks(o, p, e);
    forall j | j != k ensures SameEntryAs(m, LookUp(m, Var(y)), n, c, j) {
      AccessEntry(m, LookUp(m, Var(y)), o, p, n, c, k, Var(x), j);
    }
    if p.slots[e] != c {
      var t := LookUp(m, Elem(LookUp(m, Var(y)), k));
      assert t in m.cells && t in o.cells by { InCells(m, o, y, k); }
      JoinedLooks(m, t, o, p, n, {Var(y), e}, c, Var(x), e);
    }
  }

  lemma InCells(m: Mem, o: Mem, y: Variable, k: Key)
    requires Ready(m) && Ready(o) && HasEntry(m, o, y, k)
    ensures var t := LookUp(m, Elem(LookUp(m, Var(y)), k)); t in m.cells && t in o.cells
  {
    hide Kept, SameEntryAs, CellsCounted, TablesOwned;
  }

  lemma AccessFrame(m: Mem, o: Mem, p: Mem, n: Mem, x: Variable, k: Key, y: Variable)
    requires Ready(m) && Ready(o) && Ready(p) && Ready(n) && HasEntry(m, o, y, k)
    requires var e := Elem(o.slots[Var(y)], k);
      Separated(o, p, e) && Var(x) in p.slots && e in p.slots && RefCopied(p, n, Var(x), e)
    ensures var c := o.slots[Var(y)]; Kept(m, n, {Var(y), Var(x), Elem(c, k)}, {c, p.slots[Elem(c, k)]})
  {
    var c := o.slots[Var(y)];
    var e := Elem(c, k);
    var a := p.slots[e];
    var all := {Var(y), Var(x), e};
    hide Separated, Kept, WF, SameEntry, SameEntryAs;
    SeparatedFrame(o, p, e);
    KeptTrans(m, o, p, {Var(y), e}, {c}, {e}, {}, all, {c, a});
    KeptTrans(m, p, n, all, {c, a}, {Var(x)}, {a}, all, {c, a});
  }

  lemma AccessRoots(m: Mem, o: Mem, p: Mem, n: Mem, x: Variable, k: Key, y: Variable)
    requires Ready(m) && Ready(o) && Ready(p) && Ready(n) && HasEntry(m, o, y, k)
    requires var e := Elem(o.slots[Var(y)], k);
      Separated(o, p, e) && Var(x) in p.slots && e in p.slots && RefCopied(p, n, Var(x), e)
    ensures var c := o.slots[Var(y)]; var a := p.slots[Elem(c, k)]; var t := LookUp(m, Elem(LookUp(m, Var(y)), k));
      && IsArray(n, c) && c in p.cells && (x != y ==> Var(y) in n.slots && n.slots[Var(y)] == c)
      && Elem(c, k) in n.slots && n.slots[Elem(c, k)] == a && Var(x) in n.slots && n.slots[Var(x)] == a && IsRef(n, a)
      && (a == c <==> t == c) && (a != t ==> a >= m.next) && o.slots[Elem(c, k)] == t
  {
    hide CellsCounted, SameEntry, SameEntryAs, CloneOf;
    var c := o.slots[Var(y)];
    var e := Elem(c, k);
    Below(o, c);
    EntryOwner(n, e);
    EntryOwner(p, e);
    assert o.slots[e] == c ==> p == o;
    assert x != y ==> Anchored(p, {}, Var(y)) && Anchored(n, {p.slots[e]}, Var(y));
  }

  lemma AccessEntry(m: Mem, y: Addr, o: Mem, p: Mem, n: Mem, c: Addr, k: Key, x: Slot, j: Key)
    requires Ready(o) && Ready(p) && Ready(n) && SameEntryAs(m, y, o, c, j) && j != k && !x.Elem?
    requires c in o.cells && c in p.cells && c in n.cells && Kept(o, p, {Elem(c, k)}, {})
    requires Elem(c, k) in p.slots && RefCopied(p, n, x, Elem(c, k))
    ensures SameEntryAs(m, y, n, c, j)
  {
    hide CellsCounted, TablesOwned, Kept;
    Untouched(o, p, {Elem(c, k)}, {}, c, j);
    if p.slots[Elem(c, k)] == c {
      assert SameEntry(p, n, c, j);
    } else {
      Untouched(p, n, {x}, {p.slots[Elem(c, k)]}, c, j);
    }
  }

  /** `$x =& $y[k]`: the variable and the entry become one reference, with what the entry held. */
  lemma RefAccessTies(m: Mem, n: Mem, x: Variable, y: Variable, k: Key)
    requires Ready(m) && Ready(n) && Step(m, AssignRefAccess(x, y, k), n)
    ensures var t := LookUp(m, Elem(LookUp(m, Var(y)), k));
      if x == y then Tied(m, n, y, LookUp(m, Var(y)), k, x, t)
      else Var(y) in n.slots && Tied(m, n, y, n.slots[Var(y)], k, x, t)
  {
    var g, b :| GotVar(m, g, Var(x)) && Ready(g) && DidOpenArray(g, b, y) && Ready(b) && Var(y) in b.slots
                && DidRefEntry(b, n, Var(x), y, k);
    var o, p :| Ready(o) && Var(y) in o.slots && EntryGot(b, o, Var(y), k) && Ready(p)
                && Elem(o.slots[Var(y)], k) in o.slots && Separated(o, p, Elem(o.slots[Var(y)], k))
                && Var(x) in p.slots && Elem(o.slots[Var(y)], k) in p.slots
                && !InCopyOnWrite(p.cells[p.slots[Elem(o.slots[Var(y)], k)]])
                && RefCopied(p, n, Var(x), Elem(o.slots[Var(y)], k));
    RefAccessVia(m, g, b, o, p, n, x, y, k);
  }

  lemma RefAccessVia(m: Mem, g: Mem, b: Mem, o: Mem, p: Mem, n: Mem, x: Variable, y: Variable, k: Key)
    requires Ready(m) && Ready(g) && Ready(b) && Ready(o) && Ready(p) && Ready(n) && GotVar(m, g, Var(x))
    requires DidOpenArray(g, b, y) && Var(y) in b.slots && Var(y) in o.slots && EntryGot(b, o, Var(y), k)
    requires var e := Elem(o.slots[Var(y)], k);
      Separated(o, p, e) && Var(x) in p.slots && e in p.slots && RefCopied(p, n, Var(x), e)
    requires x == y ==> IsRef(m, LookUp(m, Var(x))) && OpensValue(Current(m, x))
    ensures var t := LookUp(m, Elem(LookUp(m, Var(y)), k));
      if x == y then Tied(m, n, y, LookUp(m, Var(y)), k, x, t)
      else Var(y) in n.slots && Tied(m, n, y, n.slots[Var(y)], k, x, t)
  {
    hide DidOpenArray, WF, Bound, HasEntry, EntryGot, Separated, RefCopied, InCopyOnWrite, Tied, GotVar;
    OpenBound(g, b, y);
    if Bound(g, b, y, {}) {
      EntryMade(g, b, o, y, k, {});
    } else {
      EntryMade(g, b, o, y, k, {b.slots[Var(y)]});
    }
    AccessTies(g, o, p, n, x, k, y);
    TiedBefore(m, g, n, y, o.slots[Var(y)], k, x);
    if x == y {
      RefSame(m, g, b, o, x, k);
    } else {
      TiedPlace(m, n, y, o.slots[Var(y)], k, x, LookUp(m, Elem(LookUp(m, Var(y)), k)));
    }
  }

  lemma TiedPlace(m: Mem, n: Mem, v: Variable, c: Addr, k: Key, w: Variable, t: Addr)
    requires UNINIT in m.slots && v != w && Tied(m, n, v, c, k, w, t)
    ensures Var(v) in n.slots && n.slots[Var(v)] == c
  {
  }

  /** The variable that was bound first does not matter. */
  lemma TiedBefore(m: Mem, g: Mem, n: Mem, v: Variable, c: Addr, k: Key, w: Variable)
    requires Ready(m) && Ready(g) && Ready(n) && GotVar(m, g, Var(w))
    requires Tied(g, n, v, c, k, w, LookUp(g, Elem(LookUp(g, Var(v)), k)))
    ensures LookUp(g, Var(v)) == LookUp(m, Var(v))
    ensures Tied(m, n, v, c, k, w, LookUp(m, Elem(LookUp(m, Var(v)), k)))
  {
    hide WF, Kept, SameEntryAs, LooksLike, GotVar;
    BoundSame(m, g, v, w);
    var a, all, t := n.slots[Var(w)], {Var(v), Var(w), Elem(c, k)}, LookUp(m, Elem(LookUp(m, Var(v)), k));
    GotVarKept(m, g, Var(w));
    KeptTrans(m, g, n, {Var(w)}, {}, all, {c, a}, all, {c, a});
    forall j | j != k ensures SameEntryAs(m, LookUp(m, Var(v)), n, c, j) {
      EntrySame(m, g, w, n, LookUp(m, Var(v)), c, j);
    }
    if a != c {
      LooksSame(m, g, w, n, t, a);
    }
  }

  lemma BoundSame(m: Mem, g: Mem, v: Variable, w: Variable)
    requires Ready(m) && Ready(g) && GotVar(m, g, Var(w))
    ensures g.next == m.next && LookUp(g, Var(v)) == LookUp(m, Var(v))
    ensures forall a, j :: LookUp(g, Elem(a, j)) == LookUp(m, Elem(a, j))
  {
  }

  lemma EntrySame(m: Mem, g: Mem, w: Variable, n: Mem, a: Addr, c: Addr, j: Key)
    requires Ready(m) && GotVar(m, g, Var(w)) && SameEntryAs(g, a, n, c, j)
    ensures SameEntryAs(m, a, n, c, j)
  {
  }

  lemma LooksSame(m: Mem, g: Mem, w: Variable, n: Mem, a: Addr, c: Addr)
    requires Ready(m) && GotVar(m, g, Var(w)) && LooksLike(g, a, n, c)
    ensures LooksLike(m, a, n, c)
  {
    hide WF;
    forall j ensures SameEntryAs(m, a, n, c, j) {
      EntrySame(m, g, w, n, a, c, j);
    }
  }

  /** The array of a reference is used where it is. */
  lemma RefSame(m: Mem, g: Mem, b: Mem, o: Mem, x: Variable, k: Key)
    requires Ready(m) && Ready(g) && Ready(b) && Ready(o) && GotVar(m, g, Var(x)) && IsRef(m, LookUp(m, Var(x)))
    requires DidOpenArray(g, b, x) && Var(x) in b.slots && Var(x) in o.slots && EntryGot(b, o, Var(x), k)
    requires OpensValue(Current(m, x))
    ensures o.slots[Var(x)] == LookUp(m, Var(x))
  {
    assert g == m;
    var d :| GotVar(g, d, Var(x)) && Ready(d) && ArrayChecked(d, b, Var(x));
    hide Kept, EntryTable, CellsCounted, TablesOwned;
    assert d == m;
  }

  // ---------------------------------------------------------------------------------------
  // Reading
  // ---------------------------------------------------------------------------------------

  /** Nothing is changed but this: the array of `$v` is the cell `c`, whose entry for `k` is the cell `t`,
      which `$w` holds too. */
  ghost function Relinked(m: Mem, v: Variable, c: Addr, k: Key, w: Variable, t: Addr): Mem
    requires UNINIT in m.slots
  {
    var others := map s | s in m.slots && !(s.Elem? && s.owner == c) :: m.slots[s];
    var copied := map s | s in ElemsOf(m, LookUp(m, Var(v))) :: Elem(c, s.key) := m.slots[s];
    Mem(m.cells[c := Zval(1, false, Array)], (others + copied)[Elem(c, k) := t][Var(v) := c][Var(w) := t], m.next)
  }

  lemma RelinkedEntries(m: Mem, v: Variable, c: Addr, k: Key, w: Variable, t: Addr, b: Addr, j: Key)
    requires UNINIT in m.slots
    ensures var r := Relinked(m, v, c, k, w, t);
      if b == c && j == k then Elem(b, j) in r.slots && r.slots[Elem(b, j)] == t
      else SameEntryAs(m, if b == c then LookUp(m, Var(v)) else b, r, b, j)
  {
    var a := LookUp(m, Var(v));
    var copied := map s | s in ElemsOf(m, a) :: Elem(c, s.key) := m.slots[s];
    assert Elem(a, j) in ElemsOf(m, a) <==> Elem(a, j) in m.slots;
    if Elem(a, j) in m.slots {
      assert Elem(c, Elem(a, j).key) in copied;
    }
    if Elem(c, j) in copied {
      var s :| s in ElemsOf(m, a) && Elem(c, s.key) == Elem(c, j);
      assert s == Elem(a, j);
    }
  }

  /** Which cell stands for which. */
  ghost function Counterparts(m: Mem, n: Mem, c: Addr, a: Addr, t: Addr): map<Addr, Addr> {
    map b | b in n.cells && (b in m.cells || b == c || b == a) :: if b == a then t else b
  }

  /** Every root reads as in the memory in which only the two were changed. */
  lemma TiedReads(m: Mem, n: Mem, v: Variable, c: Addr, k: Key, w: Variable, t: Addr, s: Slot, path: seq<Key>)
    requires Ready(m) && Ready(n) && Tied(m, n, v, c, k, w, t) && s in n.slots && !s.Elem?
    ensures var r := Relinked(m, v, c, k, w, t); s in r.slots && Peek(n, n.slots[s], path) == Peek(r, r.slots[s], path)
  {
    var r, f := Relinked(m, v, c, k, w, t), Counterparts(m, n, c, n.slots[Var(w)], t);
    TiedSimulates(m, n, v, c, k, w, t);
    TiedRoot(m, n, v, c, k, w, t, s);
    SimulatedReads(n, r, f, n.slots[s], path);
  }

  lemma TiedRoot(m: Mem, n: Mem, v: Variable, c: Addr, k: Key, w: Variable, t: Addr, s: Slot)
    requires Ready(m) && Ready(n) && Tied(m, n, v, c, k, w, t) && s in n.slots && !s.Elem?
    ensures var r, f := Relinked(m, v, c, k, w, t), Counterparts(m, n, c, n.slots[Var(w)], t);
      s in r.slots && n.slots[s] in f && f[n.slots[s]] == r.slots[s]
  {
    RelinkedRoot(m, v, c, k, w, t, s);
    hide Relinked, CellsCounted, TablesOwned, LooksLike, SameEntryAs;
    if s != Var(v) && s != Var(w) {
      assert s in m.slots && n.slots[s] == m.slots[s];
      Below(m, m.slots[s]);
    }
  }

  lemma RelinkedRoot(m: Mem, v: Variable, c: Addr, k: Key, w: Variable, t: Addr, s: Slot)
    requires UNINIT in m.slots && !s.Elem? && (s in m.slots || s == Var(v) || s == Var(w))
    ensures var r := Relinked(m, v, c, k, w, t);
      s in r.slots && r.slots[s] == if s == Var(w) then t else if s == Var(v) then c else m.slots[s]
  {
  }

  lemma TiedSimulates(m: Mem, n: Mem, v: Variable, c: Addr, k: Key, w: Variable, t: Addr)
    requires Ready(m) && Ready(n) && Tied(m, n, v, c, k, w, t)
    ensures Simulates(n, Relinked(m, v, c, k, w, t), Counterparts(m, n, c, n.slots[Var(w)], t))
  {
    var r, f := Relinked(m, v, c, k, w, t), Counterparts(m, n, c, n.slots[Var(w)], t);
    hide Relinked, Tied, WF, Ready;
    forall b | b in f ensures b in n.cells && f[b] in r.cells && n.cells[b].value == r.cells[f[b]].value {
      TiedValue(m, n, v, c, k, w, t, b);
    }
    forall b, j | b in f
      ensures (Elem(b, j) in n.slots <==> Elem(f[b], j) in r.slots)
           && (Elem(b, j) in n.slots ==> n.slots[Elem(b, j)] in f && f[n.slots[Elem(b, j)]] == r.slots[Elem(f[b], j)])
    {
      TiedEntry(m, n, v, c, k, w, t, b, j);
    }
  }

  lemma TiedValue(m: Mem, n: Mem, v: Variable, c: Addr, k: Key, w: Variable, t: Addr, b: Addr)
    requires Ready(m) && Ready(n) && Tied(m, n, v, c, k, w, t) && b in Counterparts(m, n, c, n.slots[Var(w)], t)
    ensures var r, f := Relinked(m, v, c, k, w, t), Counterparts(m, n, c, n.slots[Var(w)], t);
      b in n.cells && f[b] in r.cells && n.cells[b].value == r.cells[f[b]].value
  {
    hide CellsCounted, TablesOwned, SameEntryAs;
  }

  lemma TiedEntry(m: Mem, n: Mem, v: Variable, c: Addr, k: Key, w: Variable, t: Addr, b: Addr, j: Key)
    requires Ready(m) && Ready(n) && Tied(m, n, v, c, k, w, t) && b in Counterparts(m, n, c, n.slots[Var(w)], t)
    ensures var r, f := Relinked(m, v, c, k, w, t), Counterparts(m, n, c, n.slots[Var(w)], t);
      && (Elem(b, j) in n.slots <==> Elem(f[b], j) in r.slots)
      && (Elem(b, j) in n.slots ==> n.slots[Elem(b, j)] in f && f[n.slots[Elem(b, j)]] == r.slots[Elem(f[b], j)])
  {
    var r, a := Relinked(m, v, c, k, w, t), n.slots[Var(w)];
    RelinkedEntries(m, v, c, k, w, t, if b == a then t else b, j);
    hide Relinked;
    TiedTable(m, n, v, c, k, w, t, b, j);
  }

  /** The table of each cell, and where it came from. */
  lemma TiedTable(m: Mem, n: Mem, v: Variable, c: Addr, k: Key, w: Variable, t: Addr, b: Addr, j: Key)
    requires Ready(m) && Ready(n) && Tied(m, n, v, c, k, w, t) && b in Counterparts(m, n, c, n.slots[Var(w)], t)
    ensures var a := n.slots[Var(w)];
      if b == c then j != k ==> SameEntryAs(m, LookUp(m, Var(v)), n, c, j)
      else SameEntryAs(m, if b == a then t else b, n, b, j)
  {
    var a := n.slots[Var(w)];
    if b != c && b != a {
      hide Ready;
      assert WF(m, {}) by { ReadyWF(m); }
      Untouched(m, n, {Var(v), Var(w), Elem(c, k)}, {c, a}, b, j);
    }
  }

  /** No chain leads from `b` to `c`. */
  ghost predicate Detached(m: Mem, b: Addr, c: Addr) {
    forall u :: !Reaches(m, b, u, c)
  }

  lemma DetachedNext(m: Mem, b: Addr, j: Key, c: Addr)
    requires Detached(m, b, c) && Elem(b, j) in m.slots
    ensures b != c && Detached(m, m.slots[Elem(b, j)], c)
  {
    assert !Reaches(m, b, [], c);
    forall u ensures !Reaches(m, m.slots[Elem(b, j)], u, c) {
      assert ([j] + u)[1..] == u;
      assert !Reaches(m, b, [j] + u, c);
    }
  }

  lemma {:induction false} RelinkedSame(m: Mem, v: Variable, c: Addr, k: Key, w: Variable, t: Addr, b: Addr,
                                        path: seq<Key>)
    requires NoDangling(m) && UNINIT in m.slots && b in m.cells && Detached(m, b, c)
    ensures Peek(Relinked(m, v, c, k, w, t), b, path) == Peek(m, b, path)
    decreases |path|
  {
    assert !Reaches(m, b, [], c);
    if path != [] {
      RelinkedEntries(m, v, c, k, w, t, b, path[0]);
      if Elem(b, path[0]) in m.slots {
        DetachedNext(m, b, path[0], c);
        RelinkedSame(m, v, c, k, w, t, m.slots[Elem(b, path[0])], path[1..]);
      }
    }
  }

  /** The variable and the entry read as what the reference was made of did, unless a chain leads from
      there to the array itself. */
  lemma LinkReads(m: Mem, n: Mem, v: Variable, c: Addr, k: Key, w: Variable, t: Addr, path: seq<Key>)
    requires Ready(m) && Ready(n) && Tied(m, n, v, c, k, w, t) && t in m.cells && Detached(m, t, c)
    ensures Peek(n, n.slots[Var(w)], path) == Peek(m, t, path)
    ensures Peek(n, c, [k] + path) == Peek(m, t, path)
  {
    hide CellsCounted, TablesOwned, Relinked, Kept, SameEntryAs, LooksLike;
    TiedReads(m, n, v, c, k, w, t, Var(w), path);
    RelinkedRoot(m, v, c, k, w, t, Var(w));
    RelinkedSame(m, v, c, k, w, t, t, path);
    assert ([k] + path)[1..] == path;
  }

  /** The other entries read as before, unless a chain leads from there to the array itself. */
  lemma OthersReadOn(m: Mem, n: Mem, v: Variable, c: Addr, k: Key, w: Variable, t: Addr, j: Key, path: seq<Key>)
    requires Ready(m) && Ready(n) && Tied(m, n, v, c, k, w, t) && j != k
    requires var e := Elem(LookUp(m, Var(v)), j); e in m.slots ==> Detached(m, m.slots[e], c)
    ensures Peek(n, c, [j] + path) == Peek(m, LookUp(m, Var(v)), [j] + path)
  {
    var a, r, f := LookUp(m, Var(v)), Relinked(m, v, c, k, w, t), Counterparts(m, n, c, n.slots[Var(w)], t);
    hide Relinked, CellsCounted, TablesOwned, LooksLike;
    TiedSimulates(m, n, v, c, k, w, t);
    SimulatedReads(n, r, f, c, [j] + path);
    RelinkedEntries(m, v, c, k, w, t, c, j);
    assert ([j] + path)[1..] == path && ([j] + path)[0] == j;
    assert r.cells[c].value == Array by { RelinkedArray(m, v, c, k, w, t); }
    if Elem(a, j) in m.slots {
      EntryOwner(m, Elem(a, j));
      RelinkedSame(m, v, c, k, w, t, m.slots[Elem(a, j)], path);
    }
  }

  lemma RelinkedArray(m: Mem, v: Variable, c: Addr, k: Key, w: Variable, t: Addr)
    requires UNINIT in m.slots
    ensures var r := Relinked(m, v, c, k, w, t); c in r.cells && r.cells[c].value == Array
  {
  }

  /** A later assignment to the variable is seen through the array. */
  lemma LaterSeen(n: Mem, o: Mem, v: Variable, k: Key, w: Variable, id: nat, z: Scalar)
    requires Ready(n) && Ready(o) && v != w && Var(v) in n.slots && IsArray(n, n.slots[Var(v)])
    requires var e := Elem(n.slots[Var(v)], k);
      && e in n.slots && Var(w) in n.slots && n.slots[e] == n.slots[Var(w)] && IsRef(n, n.slots[e])
      && n.slots[e] != n.slots[Var(v)]
    requires Fixed(id) in n.slots && n.cells[n.slots[Fixed(id)]].value == Plain(z)
    requires Step(n, AssignVar(w, Pool(id)), o)
    ensures Var(v) in o.slots && Peek(o, o.slots[Var(v)], [k]) == Leaf(z)
  {
    var g :| GotVar(n, g, Var(w)) && Ready(g) && Assigned(g, o, Var(w), LookUp(g, SlotOf(Pool(id))));
    assert g == n;
    var r := n.slots[Fixed(id)];
    if n.slots[Var(w)] == r {
      OneLevel(n, v, k, z);
    } else {
      hide CellsCounted, TablesOwned, Overwritten;
      WrittenSeen(n, o, v, k, r);
      OneLevel(o, v, k, z);
    }
  }

  lemma OneLevel(n: Mem, v: Variable, k: Key, z: Scalar)
    requires Var(v) in n.slots && IsArray(n, n.slots[Var(v)]) && Elem(n.slots[Var(v)], k) in n.slots
    requires var b := n.slots[Elem(n.slots[Var(v)], k)]; b in n.cells && n.cells[b].value == Plain(z)
    ensures Peek(n, n.slots[Var(v)], [k]) == Leaf(z)
  {
    assert [k][1..] == [];
  }

  lemma WrittenSeen(n: Mem, o: Mem, v: Variable, k: Key, r: Addr)
    requires Ready(n) && Ready(o) && Var(v) in n.slots && IsArray(n, n.slots[Var(v)])
    requires var e := Elem(n.slots[Var(v)], k);
      e in n.slots && n.slots[e] != n.slots[Var(v)] && Overwritten(n, o, n.slots[e], r)
    ensures Var(v) in o.slots && o.slots[Var(v)] == n.slots[Var(v)] && IsArray(o, o.slots[Var(v)])
    ensures var e := Elem(n.slots[Var(v)], k);
      e in o.slots && o.slots[e] in o.cells && r in n.cells && o.cells[o.slots[e]].value == n.cells[r].value
  {
    hide CellsCounted, TablesOwned;
    var e := Elem(n.slots[Var(v)], k);
    assert Anchored(o, {n.slots[e]}, Var(v));
    assert Anchored(o, {n.slots[e]}, e);
  }

  // ---------------------------------------------------------------------------------------
  // Values, in any memory
  // ---------------------------------------------------------------------------------------

  /** A slot that is assigned to looks as the right-hand side did; a reference stays the cell it was. */
  lemma AssignedLooks(m: Mem, n: Mem, l: Slot, r: Addr)
    requires Ready(m) && Ready(n) && l in m.slots && r in m.cells && Assigned(m, n, l, r)
    requires l.Elem? ==> l.owner in n.cells && l.owner != r && (IsRef(m, m.slots[l]) ==> l.owner != m.slots[l])
    ensures l in n.slots && LooksLike(m, r, n, n.slots[l])
    ensures IsRef(m, m.slots[l]) ==> n.slots[l] == m.slots[l]
  {
    if m.slots[l] == r {
      forall j ensures SameEntryAs(m, r, n, r, j) {
      }
    } else if IsRef(m, m.slots[l]) {
      OverwrittenLooks(m, n, m.slots[l], r);
      assert Anchored(n, {m.slots[l]}, l);
    } else if IsRef(n, r) {
      CloneLooks(m, n, l, r);
    } else {
      LooksOn(m, n, {l}, {}, r);
    }
  }

  lemma OverwrittenLooks(m: Mem, n: Mem, a: Addr, r: Addr)
    requires Overwritten(m, n, a, r)
    ensures LooksLike(m, r, n, a)
  {
    hide Kept;
    forall j ensures SameEntryAs(m, r, n, a, j) {
    }
  }

  lemma CloneLooks(m: Mem, n: Mem, l: Slot, r: Addr)
    requires FreshClone(m, n, l, r)
    ensures LooksLike(m, r, n, n.slots[l])
  {
    forall j ensures SameEntryAs(m, r, n, n.slots[l], j) {
    }
  }

  /** `$x = rhs`. */
  lemma VarHolds(m: Mem, n: Mem, x: Variable, rhs: Rvalue)
    requires Ready(m) && Ready(n) && Step(m, AssignVar(x, rhs), n)
    ensures Var(x) in n.slots && LooksLike(m, LookUp(m, SlotOf(rhs)), n, n.slots[Var(x)])
    ensures Var(x) in m.slots && IsRef(m, m.slots[Var(x)]) ==> n.slots[Var(x)] == m.slots[Var(x)]
  {
    var o :| GotVar(m, o, Var(x)) && Ready(o) && Assigned(o, n, Var(x), LookUp(o, SlotOf(rhs)));
    VarHoldsVia(m, o, n, x, LookUp(m, SlotOf(rhs)));
  }

  lemma VarHoldsVia(m: Mem, o: Mem, n: Mem, x: Variable, r: Addr)
    requires Ready(m) && Ready(o) && Ready(n) && GotVar(m, o, Var(x)) && Var(x) in o.slots
    requires r in m.cells && r in o.cells
    requires Assigned(o, n, Var(x), r)
    ensures Var(x) in n.slots && LooksLike(m, r, n, n.slots[Var(x)])
    ensures Var(x) in m.slots && IsRef(m, m.slots[Var(x)]) ==> n.slots[Var(x)] == m.slots[Var(x)]
  {
    hide LooksLike, Assigned, CellsCounted, TablesOwned;
    AssignedLooks(o, n, Var(x), r);
    LooksSame(m, o, x, n, r, n.slots[Var(x)]);
  }

  /** `$x = $y[k]`. */
  lemma AccessHolds(m: Mem, n: Mem, x: Variable, y: Variable, k: Key)
    requires Ready(m) && Ready(n) && Step(m, AssignAccess(x, y, k), n)
    ensures Var(x) in n.slots && LooksLike(m, LookUp(m, Elem(LookUp(m, Var(y)), k)), n, n.slots[Var(x)])
    ensures Var(x) in m.slots && IsRef(m, m.slots[Var(x)]) ==> n.slots[Var(x)] == m.slots[Var(x)]
  {
    var o :| GotVar(m, o, Var(x)) && Ready(o) && Assigned(o, n, Var(x), LookUp(o, Elem(LookUp(o, Var(y)), k)));
    BoundSame(m, o, y, x);
    VarHoldsVia(m, o, n, x, LookUp(m, Elem(LookUp(m, Var(y)), k)));
  }

  /** What `$x[k] = rhs` leaves: the array with the entries it had, and the entry with the value, unless
      that is the array itself.  An entry that was a reference is written through, and stays the cell it was. */
  ghost predicate Stored(m: Mem, n: Mem, x: Variable, k: Key, rhs: Rvalue)
    requires UNINIT in m.slots
  {
    && Var(x) in n.slots
    && var a, c, r := LookUp(m, Var(x)), n.slots[Var(x)], LookUp(m, SlotOf(rhs));
       var l := LookUp(m, Elem(a, k));
       && IsArray(n, c) && Elem(c, k) in n.slots && (c == a || c >= m.next)
       && (IsRef(m, l) ==> n.slots[Elem(c, k)] == l)
       && (forall j :: j != k ==> SameEntryAs(m, a, n, c, j))
       && (rhs != FromVar(x) && r != c ==> LooksLike(m, r, n, n.slots[Elem(c, k)]))
  }

  lemma AssignedKept(m: Mem, n: Mem, l: Slot, r: Addr)
    requires Ready(m) && Ready(n) && l in m.slots && Assigned(m, n, l, r)
    ensures Kept(m, n, {l}, {m.slots[l]})
  {
    KeptRefl(m);
    hide Kept, WF, CloneOf, FreshClone;
    if m.slots[l] == r {
      KeptTrans(m, m, n, {}, {}, {}, {}, {l}, {m.slots[l]});
    } else if IsRef(m, m.slots[l]) {
      KeptTrans(m, m, n, {}, {}, {}, {m.slots[l]}, {l}, {m.slots[l]});
    } else {
      KeptTrans(m, m, n, {}, {}, {l}, {}, {l}, {m.slots[l]});
    }
  }

  /** The value goes into the entry, where the entry is not the array itself. */
  lemma EntryStored(m: Mem, o: Mem, n: Mem, x: Variable, k: Key, rhs: Rvalue)
    requires Ready(m) && Ready(o) && Ready(n) && HasEntry(m, o, x, k)
    requires LookUp(m, Elem(LookUp(m, Var(x)), k)) != LookUp(m, Var(x))
    requires Assigned(o, n, Elem(o.slots[Var(x)], k), LookUp(o, SlotOf(rhs)))
    ensures Stored(m, n, x, k, rhs)
  {
    hide Assigned, LooksLike, Kept, WF, SameEntryAs, Stored, HasEntry;
    EntryFacts(m, o, x, k, x);
    var c := o.slots[Var(x)];
    var e := Elem(c, k);
    EntryApart(m, o, x, k);
    LookedUp(o, SlotOf(rhs));
    StoredPlace(m, o, n, x, k, LookUp(o, SlotOf(rhs)));
    AssignedKept(o, n, e, LookUp(o, SlotOf(rhs)));
    forall j | j != k ensures SameEntryAs(m, LookUp(m, Var(x)), n, c, j) {
      Untouched(o, n, {e}, {o.slots[e]}, c, j);
      EntryOn(m, LookUp(m, Var(x)), o, n, c, j);
    }
    if rhs != FromVar(x) && LookUp(m, SlotOf(rhs)) != c {
      StoredLooks(m, o, n, x, k, rhs);
    }
    StoredFrom(m, n, x, k, rhs);
  }

  lemma LookedUp(m: Mem, s: Slot)
    requires Ready(m)
    ensures LookUp(m, s) in m.cells
  {
  }

  lemma EntryOn(m: Mem, a: Addr, o: Mem, n: Mem, c: Addr, j: Key)
    requires SameEntryAs(m, a, o, c, j) && SameEntryAs(o, c, n, c, j)
    ensures SameEntryAs(m, a, n, c, j)
  {
  }

  lemma EntryApart(m: Mem, o: Mem, x: Variable, k: Key)
    requires Ready(m) && HasEntry(m, o, x, k) && LookUp(m, Elem(LookUp(m, Var(x)), k)) != LookUp(m, Var(x))
    ensures o.slots[Elem(o.slots[Var(x)], k)] != o.slots[Var(x)]
  {
    Below(m, LookUp(m, Elem(LookUp(m, Var(x)), k)));
  }

  lemma StoredFrom(m: Mem, n: Mem, x: Variable, k: Key, rhs: Rvalue)
    requires UNINIT in m.slots && Var(x) in n.slots
    requires var a, c, r := LookUp(m, Var(x)), n.slots[Var(x)], LookUp(m, SlotOf(rhs));
       var l := LookUp(m, Elem(a, k));
       && IsArray(n, c) && Elem(c, k) in n.slots && (c == a || c >= m.next)
       && (IsRef(m, l) ==> n.slots[Elem(c, k)] == l)
       && (forall j :: j != k ==> SameEntryAs(m, a, n, c, j))
       && (rhs != FromVar(x) && r != c ==> LooksLike(m, r, n, n.slots[Elem(c, k)]))
    ensures Stored(m, n, x, k, rhs)
  {
    hide SameEntryAs, LooksLike;
  }

  lemma StoredPlace(m: Mem, o: Mem, n: Mem, x: Variable, k: Key, r: Addr)
    requires Ready(m) && Ready(o) && Ready(n) && HasEntry(m, o, x, k) && r in o.cells
    requires Assigned(o, n, Elem(o.slots[Var(x)], k), r) && o.slots[Elem(o.slots[Var(x)], k)] != o.slots[Var(x)]
    ensures var c, l := o.slots[Var(x)], LookUp(m, Elem(LookUp(m, Var(x)), k));
      && Var(x) in n.slots && n.slots[Var(x)] == c && c in n.cells
      && IsArray(n, c) && Elem(c, k) in n.slots && (IsRef(m, l) ==> n.slots[Elem(c, k)] == l)
  {
  }

  lemma StoredLooks(m: Mem, o: Mem, n: Mem, x: Variable, k: Key, rhs: Rvalue)
    requires Ready(m) && Ready(o) && Ready(n) && HasEntry(m, o, x, k) && rhs != FromVar(x)
    requires Assigned(o, n, Elem(o.slots[Var(x)], k), LookUp(o, SlotOf(rhs)))
    requires o.slots[Elem(o.slots[Var(x)], k)] != o.slots[Var(x)] && LookUp(m, SlotOf(rhs)) != o.slots[Var(x)]
    requires o.slots[Var(x)] in n.cells
    ensures Elem(o.slots[Var(x)], k) in n.slots
    ensures LooksLike(m, LookUp(m, SlotOf(rhs)), n, n.slots[Elem(o.slots[Var(x)], k)])
  {
    hide Assigned, LooksLike, WF, SameEntryAs, HasEntry;
    EntryFacts(m, o, x, k, x);
    var r, c := LookUp(m, SlotOf(rhs)), o.slots[Var(x)];
    RightSame(m, o, x, k, rhs);
    hide Kept;
    LooksOn(m, o, {Var(x), Elem(c, k)}, {c}, r);
    AssignedLooks(o, n, Elem(c, k), r);
    LooksTrans(m, r, o, r, n, n.slots[Elem(c, k)]);
  }

  lemma RightSame(m: Mem, o: Mem, x: Variable, k: Key, rhs: Rvalue)
    requires Ready(m) && Ready(o) && HasEntry(m, o, x, k) && rhs != FromVar(x)
    ensures var r := LookUp(m, SlotOf(rhs)); LookUp(o, SlotOf(rhs)) == r && r in m.cells && r in o.cells
  {
    hide CellsCounted, TablesOwned, SameEntryAs;
    assert SlotOf(rhs) != Var(x) && Anchored(o, {o.slots[Var(x)]}, SlotOf(rhs));
  }

  /** `$x[k] = rhs` and `$x[] = rhs`, in any memory. */
  lemma StoreHolds(m: Mem, n: Mem, x: Variable, k: Key, rhs: Rvalue)
    requires Ready(m) && Ready(n) && OpensValue(Current(m, x))
    requires Step(m, AssignArray(x, k, rhs), n) || Step(m, AssignNext(x, k, rhs), n)
    requires LookUp(m, Elem(LookUp(m, Var(x)), k)) != LookUp(m, Var(x))
    ensures Stored(m, n, x, k, rhs)
  {
    if Step(m, AssignArray(x, k, rhs), n) {
      var o :| DidOpenArray(m, o, x) && Ready(o) && Var(x) in o.slots
               && if IsArray(o, o.slots[Var(x)]) then DidStore(o, n, x, k, rhs) else n == o;
      hide DidOpenArray, DidStore, OpensValue, WF, Bound, Stored, Step;
      OpenBound(m, o, x);
      if Bound(m, o, x, {}) {
        StoreHoldsVia(m, o, n, x, k, rhs, {});
      } else {
        StoreHoldsVia(m, o, n, x, k, rhs, {o.slots[Var(x)]});
      }
    } else {
      var o :| GotVar(m, o, Var(x)) && Ready(o)
               && if PushResult(o.cells[o.slots[Var(x)]].value) == Entry then DidStore(o, n, x, k, rhs) else n == o;
      assert o.cells[o.slots[Var(x)]].value == Current(m, x);
      hide DidStore, WF, Bound, Stored, GotVar, Step;
      GotBound(m, o, x);
      StoreHoldsVia(m, o, n, x, k, rhs, {});
    }
  }

  lemma StoreHoldsVia(m: Mem, o: Mem, n: Mem, x: Variable, k: Key, rhs: Rvalue, hot: set<Addr>)
    requires Ready(m) && Ready(o) && Ready(n) && Bound(m, o, x, hot) && DidStore(o, n, x, k, rhs)
    requires LookUp(m, Elem(LookUp(m, Var(x)), k)) != LookUp(m, Var(x))
    ensures Stored(m, n, x, k, rhs)
  {
    var b :| Ready(b) && Var(x) in b.slots && EntryGot(o, b, Var(x), k)
             && Assigned(b, n, Elem(b.slots[Var(x)], k), LookUp(b, SlotOf(rhs)));
    hide Assigned, WF, Bound, Stored, HasEntry, EntryGot;
    EntryMade(m, o, b, x, k, hot);
    EntryStored(m, b, n, x, k, rhs);
  }
}
