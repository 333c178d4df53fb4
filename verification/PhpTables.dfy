/**
 What statements do with each sort of value: casts, and stores into something that is no array.
*/
module PhpTables {
  import opened ZvalHeap
  import opened ZvalFrame
  import opened ZvalSteps
  import opened PhpStatements
  import opened PhpLinks

  /** The value is of the kind already. */
  predicate OfKind(v: Value, kind: Kind) {
    || (v == Array && kind == KArray)
    || (v == Plain(Null) && kind == KNull)
    || (v.Plain? && v.s.Bool? && kind == KBool)
    || (v.Plain? && v.s.Long? && kind == KLong)
    || (v.Plain? && v.s.Double? && kind == KDouble)
    || (v.Plain? && v.s.Str? && kind == KString)
  }

  lemma KindMeans(v: Value, kind: Kind)
    ensures KindOf(v) == kind <==> OfKind(v, kind)
  {
  }

  /** `b` holds what a cast makes of the value of `a`: an empty array of NULL, an array with the value at
      index 0 of another scalar, else what the conversion says. */
  ghost predicate CastTo(m: Mem, a: Addr, n: Mem, b: Addr, kind: Kind, conv: Conversions)
    requires a in m.cells
  {
    b in n.cells &&
    match m.cells[a].value
    case Array => n.cells[b].value == Plain(conv.ofArray(ElemsOf(m, a) == {}, kind))
    case Plain(s) =>
      if kind != KArray then n.cells[b].value == Plain(conv.ofScalar(s, kind))
      else if s == Null then n.cells[b].value == Array && forall j :: Elem(b, j) !in n.slots
      else
        && n.cells[b].value == Array && (forall j :: Elem(b, j) in n.slots <==> j == Index(0))
        && n.slots[Elem(b, Index(0))] in n.cells && n.cells[n.slots[Elem(b, Index(0))]].value == Plain(s)
  }

  /** A cast does nothing to a value of the kind, and else leaves its result in the variable. */
  lemma CastHolds(m: Mem, n: Mem, s: Slot, kind: Kind, conv: Conversions)
    requires Ready(m) && Ready(n) && s in m.slots && !s.Elem? && DidCast(m, n, s, kind, conv)
    ensures if OfKind(m.cells[m.slots[s]].value, kind) then n == m
            else s in n.slots && CastTo(m, m.slots[s], n, n.slots[s], kind, conv)
  {
    KindMeans(m.cells[m.slots[s]].value, kind);
    if !OfKind(m.cells[m.slots[s]].value, kind) {
      var o :| Separated(m, o, s) && Ready(o) && s in o.slots && !InCopyOnWrite(o.cells[o.slots[s]])
               && Converted(o, n, o.slots[s], kind, conv);
      hide Separated, Converted, CastTo, WF, OfKind, KindOf;
      SepLooks(m, o, s);
      ConvertedPlace(o, n, s, kind, conv);
      KindMeans(o.cells[o.slots[s]].value, kind);
      ConvertedTo(o, n, o.slots[s], kind, conv);
      CastLooks(m, m.slots[s], o, o.slots[s], n, n.slots[s], kind, conv);
    }
  }

  lemma ConvertedPlace(o: Mem, n: Mem, s: Slot, kind: Kind, conv: Conversions)
    requires Ready(o) && Ready(n) && s in o.slots && !s.Elem? && Converted(o, n, o.slots[s], kind, conv)
    ensures s in n.slots && n.slots[s] == o.slots[s] && o.slots[s] in o.cells
  {
    hide CellsCounted, TablesOwned, ScalarOf;
    assert Anchored(n, {o.slots[s]}, s);
  }

  lemma ConvertedTo(o: Mem, n: Mem, a: Addr, kind: Kind, conv: Conversions)
    requires a in o.cells && KindOf(o.cells[a].value) != kind && Converted(o, n, a, kind, conv)
    ensures CastTo(o, a, n, a, kind, conv)
  {
    hide Kept;
    forall j ensures Elem(a, j) in n.slots <==> Elem(a, j) in ElemsOf(n, a) {
    }
  }

  lemma CastLooks(m: Mem, a: Addr, o: Mem, b: Addr, n: Mem, c: Addr, kind: Kind, conv: Conversions)
    requires LooksLike(m, a, o, b) && CastTo(o, b, n, c, kind, conv)
    ensures CastTo(m, a, n, c, kind, conv)
  {
    forall e | e in ElemsOf(m, a) ensures Elem(b, e.key) in ElemsOf(o, b) {
      assert SameEntryAs(m, a, o, b, e.key) && e == Elem(a, e.key);
    }
    forall e | e in ElemsOf(o, b) ensures Elem(a, e.key) in ElemsOf(m, a) {
      assert SameEntryAs(m, a, o, b, e.key) && e == Elem(b, e.key);
    }
    assert ElemsOf(m, a) == {} <==> ElemsOf(o, b) == {};
  }

  /** A store into true or a number changes nothing. */
  lemma StoreRefused(m: Mem, n: Mem, st: Stmt)
    requires Ready(m) && Ready(n) && Step(m, st, n)
    requires st.AssignArray? || st.AssignArrayRef? || st.AssignNext? || st.AssignNextRef?
    requires var v := Current(m, st.x); v.Plain? && (v.s == Bool(true) || v.s.Long? || v.s.Double?)
    ensures n == m
  {
    hide DidStore, DidStoreRef, WF;
    assert Var(st.x) in m.slots;
  }

  /** A non-empty string is the only thing that stops a reference store, or a push at the next index. */
  lemma TextStops(m: Mem, st: Stmt)
    requires Ready(m)
    requires st.AssignArrayRef? || ((st.AssignNext? || st.AssignNextRef?) && IsNext(m, LookUp(m, Var(st.x)), st.k))
    ensures Fits(m, st) <==> !exists c, t :: Current(m, st.x) == Plain(Str([c] + t))
  {
    if IsText(Current(m, st.x)) {
      var t := Current(m, st.x).s.s;
      assert t == [t[0]] + t[1..];
    }
  }

  /** A push makes a new entry, with an index above all that are there. */
  lemma PushAppends(m: Mem, st: Stmt)
    requires Ready(m) && (st.AssignNext? || st.AssignNextRef?) && Fits(m, st)
    ensures var a, k := LookUp(m, Var(st.x)), st.k;
      && k.Index? && k.n >= 0 && Elem(a, k) !in m.slots && (Current(m, st.x) != Array ==> k == Index(0))
      && forall i :: Elem(a, Index(i)) in m.slots ==> i < k.n
  {
    hide WF;
    var a, k := LookUp(m, Var(st.x)), st.k;
    assert IsNext(m, a, k);
    forall i ensures Elem(a, Index(i)) in m.slots ==> i < k.n {
      assert Elem(a, Index(i)).key == Index(i);
    }
  }
}
