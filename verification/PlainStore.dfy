/**
 The plain meaning of a program: variables in alias classes, and a value for each class.  No counts,
 no sharing, no cells.  A value is what a program can read of it: one observation for every chain
 of array accesses.

 The runtime agrees with this meaning, statement by statement and over whole runs, as long as
 references are taken between variables only.
*/
module PlainStore {
  import opened ZvalHeap
  import opened ZvalFrame
  import opened ZvalSteps
  import opened PhpStatements

  type Reading = seq<Key> -> Obs

  datatype Store = Store(cls: map<Variable, nat>, val: map<nat, Reading>, next: nat, lits: map<nat, Scalar>)

  // ---------------------------------------------------------------------------------------
  // The plain machine
  // ---------------------------------------------------------------------------------------

  function LeafOf(s: Scalar): Reading {
    path => if path == [] then Leaf(s) else Missing
  }

  function NoEntries(): Reading {
    path => if path == [] then Table else Missing
  }

  function WithKey(d: Reading, k: Key, v: Reading): Reading {
    path => if path == [] then Table else if path[0] == k then v(path[1..]) else d(path)
  }

  /** Nothing is left at the end of the chain `chain`. */
  function Without(d: Reading, chain: seq<Key>): Reading {
    path => if chain <= path then Missing else d(path)
  }

  /** The entry for `k`; an absent one reads NULL. */
  function EntryOf(d: Reading, k: Key): Reading {
    if d([k]) == Missing then LeafOf(Null) else path => d([k] + path)
  }

  predicate FalsyLeaf(o: Obs) {
    o.Leaf? && Falsy(Plain(o.s))
  }

  function AsTable(d: Reading): Reading {
    if d([]) == Table then d else NoEntries()
  }

  function Declare(s: Store, x: Variable): (t: Store)
    ensures x in t.cls
    ensures x in s.cls ==> t == s
  {
    if x in s.cls then s
    else s.(cls := s.cls[x := s.next], val := s.val[s.next := LeafOf(Null)], next := s.next + 1)
  }

  ghost predicate Sane(s: Store) {
    && (forall v :: v in s.cls ==> s.cls[v] in s.val)
    && (forall c :: c in s.val ==> c < s.next)
  }

  function ValueOf(s: Store, rhs: Rvalue): Reading {
    match rhs
    case FromVar(y) => if y in s.cls && s.cls[y] in s.val then s.val[s.cls[y]] else LeafOf(Null)
    case Pool(i) => if i in s.lits then LeafOf(s.lits[i]) else LeafOf(Null)
  }

  function Of(s: Store, x: Variable): Reading {
    ValueOf(s, FromVar(x))
  }

  function Put(s: Store, x: Variable, d: Reading): Store
    requires x in s.cls
  {
    s.(val := s.val[s.cls[x] := d])
  }

  ghost predicate IsEmpty(d: Reading) {
    forall k :: d([k]) == Missing
  }

  ghost function CastOf(d: Reading, kind: Kind, conv: Conversions): Reading {
    match d([])
    case Leaf(s) =>
      if KindOf(Plain(s)) == kind then d
      else if kind != KArray then LeafOf(conv.ofScalar(s, kind))
      else if s == Null then NoEntries()
      else WithKey(NoEntries(), Index(0), LeafOf(s))
    case Table => if kind == KArray then d else LeafOf(conv.ofArray(IsEmpty(d), kind))
    case Missing => d
  }

  ghost function PlainStep(s: Store, st: Stmt): Store {
    match st
    case AssignVar(x, rhs) => Put(Declare(s, x), x, ValueOf(Declare(s, x), rhs))
    case AssignCast(x, rhs, kind, conv) =>
      Put(Declare(s, x), x, CastOf(ValueOf(Declare(s, x), rhs), kind, conv))
    case AssignRef(x, y) =>
      var t := Declare(Declare(s, x), y);
      t.(cls := t.cls[x := t.cls[y]])
    case UnsetVar(x) => s.(cls := s.cls - {x})
    case AssignArray(x, k, rhs) =>
      var t := Declare(s, x);
      if Of(t, x)([]) == Table || FalsyLeaf(Of(t, x)([]))
      then Put(t, x, WithKey(AsTable(Of(t, x)), k, ValueOf(t, rhs))) else t
    case AssignNext(x, k, rhs) =>
      var t := Declare(s, x);
      if Of(t, x)([]) == Table || FalsyLeaf(Of(t, x)([]))
      then Put(t, x, WithKey(AsTable(Of(t, x)), k, ValueOf(t, rhs))) else t
    case AssignAccess(x, y, k) =>
      var t := Declare(s, x);
      Put(t, x, EntryOf(Of(t, y), k))
    case UnsetElem(x, path, k) =>
      var t := Declare(s, x);
      Put(t, x, Without(Of(t, x), path + [k]))
    case AssignArrayRef(_, _, _) => s
    case AssignNextRef(_, _, _) => s
    case AssignRefAccess(_, _, _) => s
  }

  ghost predicate Bounded(d: Reading, b: nat) {
    forall path :: |path| >= b ==> d(path) == Missing
  }

  /** No value nests for ever. */
  ghost predicate Finite(s: Store) {
    forall c :: c in s.val ==> exists b: nat :: Bounded(s.val[c], b)
  }

  lemma ValueBounded(s: Store, rhs: Rvalue) returns (b: nat)
    requires Finite(s)
    ensures Bounded(ValueOf(s, rhs), b)
  {
    if rhs.FromVar? && rhs.v in s.cls && s.cls[rhs.v] in s.val {
      b :| Bounded(s.val[s.cls[rhs.v]], b);
    } else {
      b := 1;
    }
  }

  lemma DeclareFinite(s: Store, x: Variable)
    requires Finite(s)
    ensures Finite(Declare(s, x))
  {
    assert Bounded(LeafOf(Null), 1);
  }

  // ---------------------------------------------------------------------------------------
  // Agreement
  // ---------------------------------------------------------------------------------------

  ghost predicate Reads(m: Mem, a: Addr, d: Reading) {
    forall path :: Peek(m, a, path) == d(path)
  }

  /** No array entry is a reference. */
  ghost predicate ElemsPlain(m: Mem) {
    forall s :: s in m.slots && s.Elem? ==> !IsRef(m, m.slots[s])
  }

  ghost predicate Aliased(m: Mem, v: Variable, w: Variable)
    requires Var(v) in m.slots && Var(w) in m.slots
  {
    v == w || (m.slots[Var(v)] == m.slots[Var(w)] && IsRef(m, m.slots[Var(v)]))
  }

  ghost predicate SameVars(m: Mem, s: Store) {
    forall v :: Var(v) in m.slots <==> v in s.cls
  }

  ghost predicate SameValues(m: Mem, s: Store)
    requires SameVars(m, s)
  {
    forall v :: v in s.cls ==> s.cls[v] in s.val && Reads(m, m.slots[Var(v)], s.val[s.cls[v]])
  }

  ghost predicate SameClasses(m: Mem, s: Store)
    requires SameVars(m, s)
  {
    forall v, w :: v in s.cls && w in s.cls ==> (s.cls[v] == s.cls[w] <==> Aliased(m, v, w))
  }

  ghost predicate SamePool(m: Mem, s: Store) {
    && (forall i :: Fixed(i) in m.slots <==> i in s.lits)
    && (forall i :: i in s.lits ==>
         m.slots[Fixed(i)] in m.cells && m.cells[m.slots[Fixed(i)]].value == Plain(s.lits[i])
         && !m.cells[m.slots[Fixed(i)]].isRef)
  }

  ghost predicate Agrees(m: Mem, s: Store) {
    && Ready(m) && ElemsPlain(m) && Sane(s)
    && SameVars(m, s) && SameValues(m, s) && SameClasses(m, s) && SamePool(m, s)
  }

  // ---------------------------------------------------------------------------------------
  // Updating one variable
  // ---------------------------------------------------------------------------------------

  ghost predicate NoEntryHolds(m: Mem, t: Addr) {
    forall s :: s in m.slots && s.Elem? ==> m.slots[s] != t
  }

  /** Cells that the operation does not touch, and that reach no touched cell, read as before. */
  lemma {:induction false} OthersRead(m: Mem, n: Mem, named: set<Slot>, hot: set<Addr>, t: Addr, a: Addr,
                                      path: seq<Key>)
    requires WF(m, {}) && WF(n, {}) && Kept(m, n, named, hot) && NoEntryHolds(m, t) && hot <= {t}
    requires forall s :: s in named && s.Elem? ==> s.owner == t
    requires a in m.cells && a in n.cells && a != t
    ensures Peek(n, a, path) == Peek(m, a, path)
    decreases |path|
  {
    if path != [] {
      var e := Elem(a, path[0]);
      assert Anchored(n, hot, e);
      assert e !in named;
      if e in m.slots {
        OthersRead(m, n, named, hot, t, m.slots[e], path[1..]);
      }
    }
  }

  /** The cell of `x`, when it may be touched: nobody else's unless a reference. */
  ghost predicate Touchable(m: Mem, x: Variable, t: Addr)
    requires Var(x) in m.slots
  {
    t in m.cells ==> t == m.slots[Var(x)] && !InCopyOnWrite(m.cells[t])
  }

  lemma TouchableApart(m: Mem, x: Variable, t: Addr)
    requires Ready(m) && ElemsPlain(m) && Var(x) in m.slots && Touchable(m, x, t)
    ensures NoEntryHolds(m, t)
    ensures forall s :: s in m.slots && m.slots[s] == t && s != Var(x) ==> IsRef(m, t)
  {
    if t in m.cells && !m.cells[t].isRef {
      HeldCounted(m, Var(x), {});
      SoleHolder(m, Var(x));
      forall s | s in m.slots && m.slots[s] == t ensures s == Var(x) {
        assert s in Holders(m.slots, t);
      }
    }
  }

  /** New or rewritten entries hold no references. */
  ghost predicate NewEntriesPlain(m: Mem, n: Mem, named: set<Slot>, hot: set<Addr>) {
    forall s :: s in n.slots && s.Elem? && (s in named || s.owner in hot || s.owner >= m.next) ==>
      !IsRef(n, n.slots[s])
  }

  lemma ElemsPlainKept(m: Mem, n: Mem, named: set<Slot>, hot: set<Addr>, t: Addr)
    requires WF(m, {}) && WF(n, {}) && ElemsPlain(m) && Kept(m, n, named, hot) && hot <= {t} && NoEntryHolds(m, t)
    requires NewEntriesPlain(m, n, named, hot)
    ensures ElemsPlain(n)
  {
    forall s | s in n.slots && s.Elem? ensures !IsRef(n, n.slots[s]) {
      if s !in named && s.owner < m.next && s.owner !in hot {
        assert s in m.slots && n.slots[s] == m.slots[s];
        assert m.slots[s] !in hot;
      }
    }
  }

  /** The new memory as far as everything but the value of `x` goes. */
  ghost predicate Updates(m: Mem, n: Mem, x: Variable, named: set<Slot>, hot: set<Addr>, t: Addr)
    requires Var(x) in m.slots
  {
    && Kept(m, n, named, hot) && hot <= {t} && Touchable(m, x, t) && NewEntriesPlain(m, n, named, hot)
    && (forall s :: s in named ==> if s.Elem? then s.owner == t else s == Var(x))
    && Var(x) in n.slots
    && (Var(x) in named ==> !IsRef(m, m.slots[Var(x)]) && !IsRef(n, n.slots[Var(x)]))
  }

  /** An operation on `x` that gives it the reading `d` agrees with writing `d` into its class. */
  lemma UpdateAgrees(m: Mem, n: Mem, s: Store, x: Variable, d: Reading, named: set<Slot>, hot: set<Addr>, t: Addr)
    requires Agrees(m, s) && x in s.cls && Ready(n) && Updates(m, n, x, named, hot, t)
    requires Reads(n, n.slots[Var(x)], d)
    ensures Agrees(n, Put(s, x, d))
  {
    TouchableApart(m, x, t);
    ElemsPlainKept(m, n, named, hot, t);
    UpdateVars(m, n, s, x, named, hot, t);
    UpdateClasses(m, n, s, x, named, hot, t);
    UpdateValues(m, n, s, x, d, named, hot, t);
    UpdatePool(m, n, s, x, named, hot, t);
  }

  lemma UpdateVars(m: Mem, n: Mem, s: Store, x: Variable, named: set<Slot>, hot: set<Addr>, t: Addr)
    requires Agrees(m, s) && x in s.cls && Updates(m, n, x, named, hot, t)
    ensures SameVars(n, s)
    ensures forall v :: v in s.cls && v != x ==> n.slots[Var(v)] == m.slots[Var(v)]
  {
    forall v ensures Var(v) in n.slots <==> v in s.cls
      ensures v in s.cls && v != x ==> n.slots[Var(v)] == m.slots[Var(v)]
    {
      assert Anchored(n, hot, Var(v));
    }
  }

  lemma UpdateClasses(m: Mem, n: Mem, s: Store, x: Variable, named: set<Slot>, hot: set<Addr>, t: Addr)
    requires Agrees(m, s) && x in s.cls && Ready(n) && Updates(m, n, x, named, hot, t) && SameVars(n, s)
    requires forall v :: v in s.cls && v != x ==> n.slots[Var(v)] == m.slots[Var(v)]
    ensures SameClasses(n, s)
  {
    hide Ready, Updates, ElemsPlain, SameValues, SamePool;
    forall v, w | v in s.cls && w in s.cls ensures s.cls[v] == s.cls[w] <==> Aliased(n, v, w) {
      assert s.cls[v] == s.cls[w] <==> Aliased(m, v, w);
      AliasKept(m, n, x, v, w, named, hot, t);
    }
  }

  lemma AliasKept(m: Mem, n: Mem, x: Variable, v: Variable, w: Variable,
                  named: set<Slot>, hot: set<Addr>, t: Addr)
    requires Ready(m) && Ready(n) && ElemsPlain(m) && Var(x) in m.slots && Updates(m, n, x, named, hot, t)
    requires Var(v) in m.slots && Var(w) in m.slots && Var(v) in n.slots && Var(w) in n.slots
    requires v != x ==> n.slots[Var(v)] == m.slots[Var(v)]
    requires w != x ==> n.slots[Var(w)] == m.slots[Var(w)]
    ensures Aliased(m, v, w) <==> Aliased(n, v, w)
  {
    TouchableApart(m, x, t);
    hide CellsCounted, TablesOwned, Kept, NewEntriesPlain, NoEntryHolds, ElemsPlain;
    if v != w && Var(v) !in named && Var(w) !in named {
      PairKept(m, n, named, hot, v, w);
    }
  }

  /** Two unnamed variables share a reference afterwards exactly if they did before. */
  lemma PairKept(m: Mem, n: Mem, named: set<Slot>, hot: set<Addr>, v: Variable, w: Variable)
    requires NoDangling(m) && NoDangling(n) && Kept(m, n, named, hot) && v != w
    requires Var(v) in m.slots && Var(w) in m.slots && Var(v) in n.slots && Var(w) in n.slots
    requires Var(v) !in named && Var(w) !in named
    requires n.slots[Var(v)] == m.slots[Var(v)] && n.slots[Var(w)] == m.slots[Var(w)]
    requires m.slots[Var(v)] == m.slots[Var(w)] && m.slots[Var(v)] in hot ==> IsRef(m, m.slots[Var(v)])
    ensures Aliased(m, v, w) <==> Aliased(n, v, w)
  {
    if m.slots[Var(v)] == m.slots[Var(w)] {
      assert IsRef(m, m.slots[Var(v)]) ==> IsRef(n, m.slots[Var(v)]);
      assert IsRef(n, m.slots[Var(v)]) ==> IsRef(m, m.slots[Var(v)]);
    }
  }

  lemma UpdateValues(m: Mem, n: Mem, s: Store, x: Variable, d: Reading, named: set<Slot>, hot: set<Addr>, t: Addr)
    requires Agrees(m, s) && x in s.cls && Ready(n) && Updates(m, n, x, named, hot, t)
    requires SameVars(n, s) && SameClasses(n, s) && Reads(n, n.slots[Var(x)], d)
    requires forall v :: v in s.cls && v != x ==> n.slots[Var(v)] == m.slots[Var(v)]
    ensures SameValues(n, Put(s, x, d))
  {
    TouchableApart(m, x, t);
    forall v | v in s.cls ensures Reads(n, n.slots[Var(v)], Put(s, x, d).val[s.cls[v]]) {
      if s.cls[v] == s.cls[x] {
        assert Aliased(n, v, x);
      } else {
        UpdateOther(m, n, s, x, named, hot, t, v);
      }
    }
  }

  /** A variable of another class. */
  lemma UpdateOther(m: Mem, n: Mem, s: Store, x: Variable, named: set<Slot>, hot: set<Addr>, t: Addr, v: Variable)
    requires Agrees(m, s) && x in s.cls && Ready(n) && Updates(m, n, x, named, hot, t) && NoEntryHolds(m, t)
    requires forall r :: r in m.slots && m.slots[r] == t && r != Var(x) ==> IsRef(m, t)
    requires v in s.cls && s.cls[v] != s.cls[x] && Var(v) in n.slots && n.slots[Var(v)] == m.slots[Var(v)]
    ensures s.cls[v] in s.val && Reads(n, n.slots[Var(v)], s.val[s.cls[v]])
  {
    var a := m.slots[Var(v)];
    assert !Aliased(m, v, x);
    assert a != t;
    assert a in m.cells && a in n.cells;
    assert Reads(m, a, s.val[s.cls[v]]);
    hide Agrees, Kept, CellsCounted, TablesOwned, NewEntriesPlain;
    forall path ensures Peek(n, a, path) == s.val[s.cls[v]](path) {
      OthersRead(m, n, named, hot, t, a, path);
    }
  }

  lemma UpdatePool(m: Mem, n: Mem, s: Store, x: Variable, named: set<Slot>, hot: set<Addr>, t: Addr)
    requires Agrees(m, s) && x in s.cls && Ready(n) && Updates(m, n, x, named, hot, t)
    ensures SamePool(n, s)
  {
    hide Updates, Ready;
    forall i ensures Fixed(i) in n.slots <==> i in s.lits
      ensures i in s.lits ==>
        n.slots[Fixed(i)] in n.cells && n.cells[n.slots[Fixed(i)]].value == Plain(s.lits[i])
        && !n.cells[n.slots[Fixed(i)]].isRef
    {
      PoolKept(m, n, x, named, hot, t, i);
    }
  }

  lemma PoolKept(m: Mem, n: Mem, x: Variable, named: set<Slot>, hot: set<Addr>, t: Addr, i: nat)
    requires Ready(m) && ElemsPlain(m) && Ready(n) && Var(x) in m.slots && Updates(m, n, x, named, hot, t)
    ensures Fixed(i) in n.slots <==> Fixed(i) in m.slots
    ensures Fixed(i) in m.slots && m.slots[Fixed(i)] in m.cells && !m.cells[m.slots[Fixed(i)]].isRef ==>
      n.slots[Fixed(i)] in n.cells && !n.cells[n.slots[Fixed(i)]].isRef
      && n.cells[n.slots[Fixed(i)]].value == m.cells[m.slots[Fixed(i)]].value
  {
    TouchableApart(m, x, t);
    assert Anchored(n, hot, Fixed(i));
    assert Fixed(i) !in named;
    if Fixed(i) in m.slots && !m.cells[m.slots[Fixed(i)]].isRef {
      assert m.slots[Fixed(i)] != t;
    }
  }

  lemma VarThere(m: Mem, s: Store, x: Variable)
    requires Agrees(m, s) && x in s.cls
    ensures Var(x) in m.slots && m.slots[Var(x)] in m.cells && UNINIT in m.slots
    ensures Reads(m, m.slots[Var(x)], Of(s, x)) && Peek(m, m.slots[Var(x)], []) == Of(s, x)([])
  {
    assert Reads(m, m.slots[Var(x)], s.val[s.cls[x]]);
  }

  lemma PutSame(m: Mem, s: Store, x: Variable)
    requires Agrees(m, s) && x in s.cls
    ensures Put(s, x, Of(s, x)) == s
  {
  }

  lemma AgreesPointwise(m: Mem, s: Store, x: Variable, d: Reading, e: Reading)
    requires x in s.cls && Agrees(m, Put(s, x, d)) && forall path :: d(path) == e(path)
    ensures Agrees(m, Put(s, x, e))
  {
    hide Ready, ElemsPlain, SamePool;
    var t, u := Put(s, x, d), Put(s, x, e);
    forall v | v in u.cls ensures u.cls[v] in u.val && Reads(m, m.slots[Var(v)], u.val[u.cls[v]]) {
      assert t.cls[v] in t.val && Reads(m, m.slots[Var(v)], t.val[t.cls[v]]);
    }
    SameButValues(m, t, u);
  }

  lemma SameButValues(m: Mem, t: Store, u: Store)
    requires Agrees(m, t) && u.cls == t.cls && u.val.Keys == t.val.Keys && u.next == t.next && u.lits == t.lits
    ensures Sane(u) && SameVars(m, u) && SameClasses(m, u) && SamePool(m, u)
  {
    forall c ensures c in u.val <==> c in t.val {
      assert c in u.val.Keys <==> c in t.val.Keys;
    }
  }

  lemma ValueReads(m: Mem, s: Store, rhs: Rvalue)
    requires Agrees(m, s)
    ensures LookUp(m, SlotOf(rhs)) in m.cells && Reads(m, LookUp(m, SlotOf(rhs)), ValueOf(s, rhs))
  {
    hide CellsCounted, TablesOwned, SameClasses, ElemsPlain;
    match rhs
    case FromVar(y) =>
      assert Var(y) in m.slots <==> y in s.cls;
      if y in s.cls {
        assert Reads(m, m.slots[Var(y)], s.val[s.cls[y]]);
      }
    case Pool(i) =>
      assert Fixed(i) in m.slots <==> i in s.lits;
  }

  // ---------------------------------------------------------------------------------------
  // One operation
  // ---------------------------------------------------------------------------------------

  lemma DeclareAgrees(m: Mem, n: Mem, s: Store, x: Variable)
    requires Agrees(m, s) && GotVar(m, n, Var(x)) && Ready(n)
    ensures Agrees(n, Declare(s, x))
  {
    if x !in s.cls {
      GainedKept(m, Var(x), m.slots[UNINIT], {});
      DeclareElems(m, n, x);
      DeclareVars(m, n, s, x);
      DeclareValues(m, n, s, x);
      DeclareClasses(m, n, s, x);
      DeclarePool(m, n, s, x);
      hide SameValues, SameClasses, SamePool, ElemsPlain, Ready;
    }
  }

  lemma DeclareElems(m: Mem, n: Mem, x: Variable)
    requires Ready(m) && ElemsPlain(m) && GotVar(m, n, Var(x)) && Ready(n)
    ensures ElemsPlain(n)
  {
    hide CellsCounted, TablesOwned;
    forall e | e in n.slots && e.Elem? ensures !IsRef(n, n.slots[e]) {
      assert e in m.slots && !IsRef(m, m.slots[e]);
    }
  }

  lemma DeclareVars(m: Mem, n: Mem, s: Store, x: Variable)
    requires Ready(m) && Sane(s) && SameVars(m, s) && GotVar(m, n, Var(x))
    ensures SameVars(n, Declare(s, x)) && Sane(Declare(s, x))
  {
    hide Ready;
  }

  lemma DeclareValues(m: Mem, n: Mem, s: Store, x: Variable)
    requires Agrees(m, s) && GotVar(m, n, Var(x)) && Ready(n) && x !in s.cls && SameVars(n, Declare(s, x))
    requires Kept(m, n, {Var(x)}, {})
    ensures SameValues(n, Declare(s, x))
  {
    hide CellsCounted, TablesOwned, Kept, SameClasses, SamePool, ElemsPlain, Reads;
    var t := Declare(s, x);
    NextFree(m);
    NullReads(n);
    forall v | v in t.cls ensures t.cls[v] in t.val && Reads(n, n.slots[Var(v)], t.val[t.cls[v]]) {
      if v != x {
        assert Reads(m, m.slots[Var(v)], s.val[s.cls[v]]);
        ReadsOn(m, n, {Var(x)}, {}, m.next, m.slots[Var(v)], s.val[s.cls[v]]);
      }
    }
  }

  lemma NullReads(m: Mem)
    requires Ready(m)
    ensures Reads(m, m.slots[UNINIT], LeafOf(Null))
  {
  }

  lemma DeclareClasses(m: Mem, n: Mem, s: Store, x: Variable)
    requires Agrees(m, s) && GotVar(m, n, Var(x)) && Ready(n) && x !in s.cls && SameVars(n, Declare(s, x))
    ensures SameClasses(n, Declare(s, x))
  {
    var t := Declare(s, x);
    hide CellsCounted, TablesOwned, SameValues, SamePool, ElemsPlain;
    forall v, w | v in t.cls && w in t.cls ensures t.cls[v] == t.cls[w] <==> Aliased(n, v, w) {
      if v != x && w != x {
        assert s.cls[v] == s.cls[w] <==> Aliased(m, v, w);
      }
    }
  }

  lemma DeclarePool(m: Mem, n: Mem, s: Store, x: Variable)
    requires Agrees(m, s) && GotVar(m, n, Var(x)) && Ready(n) && x !in s.cls
    ensures SamePool(n, Declare(s, x))
  {
    hide CellsCounted, TablesOwned, SameValues, SameClasses, ElemsPlain;
  }

  lemma ReadsOn(m: Mem, n: Mem, named: set<Slot>, hot: set<Addr>, t: Addr, a: Addr, d: Reading)
    requires WF(m, {}) && WF(n, {}) && Kept(m, n, named, hot) && NoEntryHolds(m, t) && hot <= {t}
    requires forall s :: s in named && s.Elem? ==> s.owner == t
    requires a in m.cells && a in n.cells && a != t && Reads(m, a, d)
    ensures Reads(n, a, d)
  {
    forall path ensures Peek(n, a, path) == d(path) {
      OthersRead(m, n, named, hot, t, a, path);
    }
  }

  /** A cell with the value and the entries of `r`, outside what was touched, reads like `r`. */
  lemma CopyReads(m: Mem, n: Mem, named: set<Slot>, hot: set<Addr>, t: Addr, c: Addr, r: Addr, d: Reading)
    requires WF(m, {}) && WF(n, {}) && Kept(m, n, named, hot) && NoEntryHolds(m, t) && hot <= {t}
    requires forall s :: s in named && s.Elem? ==> s.owner == t
    requires CloneOf(n, c, m, r) && Reads(m, r, d)
    ensures Reads(n, c, d)
  {
    forall path ensures Peek(n, c, path) == d(path) {
      assert Peek(m, r, path) == d(path);
      if path != [] && Elem(r, path[0]) in m.slots {
        OthersRead(m, n, named, hot, t, m.slots[Elem(r, path[0])], path[1..]);
      }
    }
  }

  lemma AssignAgrees(m: Mem, n: Mem, s: Store, x: Variable, r: Addr, v: Reading)
    requires Agrees(m, s) && x in s.cls && Ready(n) && r in m.cells && Reads(m, r, v)
    requires Var(x) in m.slots && Assigned(m, n, Var(x), r)
    ensures Agrees(n, Put(s, x, v))
  {
    NextFree(m);
    if m.slots[Var(x)] == r {
      KeptRefl(m);
      UpdateAgrees(m, n, s, x, v, {}, {}, m.next);
    } else if IsRef(m, m.slots[Var(x)]) {
      AssignInPlace(m, n, x, r, v);
      UpdateAgrees(m, n, s, x, v, {}, {m.slots[Var(x)]}, m.slots[Var(x)]);
    } else {
      AssignInSlot(m, n, x, r, v);
      UpdateAgrees(m, n, s, x, v, {Var(x)}, {}, m.next);
    }
  }

  lemma AssignInPlace(m: Mem, n: Mem, x: Variable, r: Addr, v: Reading)
    requires Ready(m) && ElemsPlain(m) && Ready(n) && Var(x) in m.slots && r in m.cells && Reads(m, r, v)
    requires IsRef(m, m.slots[Var(x)]) && Overwritten(m, n, m.slots[Var(x)], r)
    ensures Updates(m, n, x, {}, {m.slots[Var(x)]}, m.slots[Var(x)])
    ensures n.slots[Var(x)] == m.slots[Var(x)] && Reads(n, n.slots[Var(x)], v)
  {
    var a := m.slots[Var(x)];
    assert Anchored(n, {a}, Var(x));
    TouchableApart(m, x, a);
    CopyReads(m, n, {}, {a}, a, a, r, v);
    forall t | t in n.slots && t.Elem? && t.owner == a ensures !IsRef(n, n.slots[t]) {
      assert t == Elem(a, t.key);
      assert Elem(r, t.key) in m.slots;
    }
  }

  lemma AssignInSlot(m: Mem, n: Mem, x: Variable, r: Addr, v: Reading)
    requires Ready(m) && ElemsPlain(m) && Ready(n) && Var(x) in m.slots && r in m.cells && Reads(m, r, v)
    requires m.slots[Var(x)] != r && !IsRef(m, m.slots[Var(x)]) && Written(m, n, Var(x), r)
    ensures Updates(m, n, x, {Var(x)}, {}, m.next)
    ensures Reads(n, n.slots[Var(x)], v)
  {
    NextFree(m);
    if IsRef(n, r) {
      CopyReads(m, n, {Var(x)}, {}, m.next, n.slots[Var(x)], r, v);
      ClonePlain(m, n, {Var(x)}, Var(x), r);
    } else {
      ReadsOn(m, n, {Var(x)}, {}, m.next, r, v);
    }
  }

  /** The entries of a clone are no references either. */
  lemma ClonePlain(m: Mem, n: Mem, named: set<Slot>, s: Slot, r: Addr)
    requires WF(m, {}) && WF(n, {}) && ElemsPlain(m) && Kept(m, n, named, {}) && FreshClone(m, n, s, r)
    ensures forall t :: t in n.slots && t.Elem? && t.owner >= m.next ==> !IsRef(n, n.slots[t])
  {
    forall t | t in n.slots && t.Elem? && t.owner >= m.next ensures !IsRef(n, n.slots[t]) {
      assert t == Elem(n.slots[s], t.key);
      assert Elem(r, t.key) in m.slots;
    }
  }

  lemma VarReads(m: Mem, s: Store, x: Variable)
    requires Agrees(m, s) && x in s.cls
    ensures Ready(m) && ElemsPlain(m) && Var(x) in m.slots && s.cls[x] in s.val
    ensures Reads(m, m.slots[Var(x)], s.val[s.cls[x]])
  {
  }

  lemma SepAgrees(m: Mem, n: Mem, s: Store, x: Variable)
    requires Agrees(m, s) && x in s.cls && Ready(n) && Var(x) in m.slots && Separated(m, n, Var(x))
    ensures Agrees(n, s)
  {
    hide Agrees, Ready, ElemsPlain, Updates, Separated, Reads;
    if n != m {
      VarReads(m, s, x);
      var d := s.val[s.cls[x]];
      SepUpdates(m, n, x, d);
      UpdateAgrees(m, n, s, x, d, {Var(x)}, {}, m.next);
      assert Put(s, x, d) == s;
    }
  }

  lemma SepUpdates(m: Mem, n: Mem, x: Variable, d: Reading)
    requires Ready(m) && ElemsPlain(m) && Ready(n) && Var(x) in m.slots && Separated(m, n, Var(x)) && n != m
    requires Reads(m, m.slots[Var(x)], d)
    ensures Updates(m, n, x, {Var(x)}, {}, m.next) && Reads(n, n.slots[Var(x)], d)
  {
    hide CellsCounted, TablesOwned;
    NextFree(m);
    CopyReads(m, n, {Var(x)}, {}, m.next, n.slots[Var(x)], m.slots[Var(x)], d);
    ClonePlain(m, n, {Var(x)}, Var(x), m.slots[Var(x)]);
  }

  /** A reference assignment moves `x` into the class of `y`. */
  lemma RefAgrees(m: Mem, n: Mem, s: Store, x: Variable, y: Variable)
    requires Agrees(m, s) && x in s.cls && y in s.cls && Ready(n)
    requires Var(y) in m.slots && RefCopied(m, n, Var(x), Var(y)) && !InCopyOnWrite(m.cells[m.slots[Var(y)]])
    ensures Agrees(n, s.(cls := s.cls[x := s.cls[y]]))
  {
    TouchableApart(m, y, m.slots[Var(y)]);
    hide Ready, ElemsPlain, RefCopied, SameValues, SameClasses, SamePool, NoEntryHolds, InCopyOnWrite, Reads, Aliased;
    RefElems(m, n, x, y);
    RefVars(m, n, s, x, y);
    RefSane(s, x, y);
    RefValues(m, n, s, x, y);
    RefClasses(m, n, s, x, y);
    RefPool(m, n, s, x, y);
    PoolOfLits(n, s, s.(cls := s.cls[x := s.cls[y]]));
  }

  lemma PoolOfLits(m: Mem, s: Store, t: Store)
    requires SamePool(m, s) && t.lits == s.lits
    ensures SamePool(m, t)
  {
  }

  lemma RefSane(s: Store, x: Variable, y: Variable)
    requires Sane(s) && y in s.cls
    ensures Sane(s.(cls := s.cls[x := s.cls[y]]))
  {
  }

  lemma RefVars(m: Mem, n: Mem, s: Store, x: Variable, y: Variable)
    requires SameVars(m, s) && x in s.cls && y in s.cls && Var(y) in m.slots && RefCopied(m, n, Var(x), Var(y))
    ensures forall v :: Var(v) in n.slots <==> v in s.cls
    ensures forall v :: v in s.cls && v != x ==> n.slots[Var(v)] == m.slots[Var(v)]
  {
    forall v ensures Var(v) in n.slots <==> v in s.cls
      ensures v in s.cls && v != x ==> n.slots[Var(v)] == m.slots[Var(v)]
    {
      assert Anchored(n, {m.slots[Var(y)]}, Var(v));
    }
  }

  lemma RefValues(m: Mem, n: Mem, s: Store, x: Variable, y: Variable)
    requires Agrees(m, s) && x in s.cls && y in s.cls && Ready(n)
    requires Var(y) in m.slots && RefCopied(m, n, Var(x), Var(y)) && NoEntryHolds(m, m.slots[Var(y)])
    requires forall v :: Var(v) in n.slots <==> v in s.cls
    requires forall v :: v in s.cls && v != x ==> n.slots[Var(v)] == m.slots[Var(v)]
    ensures SameValues(n, s.(cls := s.cls[x := s.cls[y]]))
  {
    hide RefCopied, CellsCounted, TablesOwned, ElemsPlain, SameClasses, SamePool;
    var t := s.(cls := s.cls[x := s.cls[y]]);
    RefTargets(m, n, Var(x), Var(y));
    forall v | v in t.cls ensures t.cls[v] in t.val && Reads(n, n.slots[Var(v)], t.val[t.cls[v]]) {
      var w := if v == x then y else v;
      assert Reads(m, m.slots[Var(w)], s.val[s.cls[w]]);
      RefReads(m, n, x, y, m.slots[Var(w)], s.val[s.cls[w]]);
    }
  }

  lemma RefTargets(m: Mem, n: Mem, l: Slot, r: Slot)
    requires r in m.slots && RefCopied(m, n, l, r)
    ensures l in n.slots && r in n.slots && n.slots[l] == m.slots[r] == n.slots[r]
  {
  }

  lemma RefClasses(m: Mem, n: Mem, s: Store, x: Variable, y: Variable)
    requires Agrees(m, s) && x in s.cls && y in s.cls && Ready(n)
    requires Var(y) in m.slots && RefCopied(m, n, Var(x), Var(y)) && !InCopyOnWrite(m.cells[m.slots[Var(y)]])
    requires forall v :: Var(v) in n.slots <==> v in s.cls
    requires forall v :: v in s.cls && v != x ==> n.slots[Var(v)] == m.slots[Var(v)]
    ensures SameClasses(n, s.(cls := s.cls[x := s.cls[y]]))
  {
    hide RefCopied, CellsCounted, TablesOwned, ElemsPlain, SameValues, SamePool, InCopyOnWrite, Aliased;
    var t := s.(cls := s.cls[x := s.cls[y]]);
    forall v, w | v in t.cls && w in t.cls ensures t.cls[v] == t.cls[w] <==> Aliased(n, v, w) {
      var v', w' := if v == x then y else v, if w == x then y else w;
      assert s.cls[v'] == s.cls[w'] <==> Aliased(m, v', w');
      RefAlias(m, n, x, y, v, w);
    }
  }

  lemma RefElems(m: Mem, n: Mem, x: Variable, y: Variable)
    requires Ready(m) && Ready(n) && ElemsPlain(m) && Var(y) in m.slots && RefCopied(m, n, Var(x), Var(y))
    requires NoEntryHolds(m, m.slots[Var(y)])
    ensures ElemsPlain(n)
  {
    var a := m.slots[Var(y)];
    forall e | e in n.slots && e.Elem? ensures !IsRef(n, n.slots[e]) {
      if e.owner == a {
        assert e == Elem(a, e.key) && SameEntry(m, n, a, e.key);
      }
      assert e in m.slots && n.slots[e] == m.slots[e];
    }
  }

  lemma RefReads(m: Mem, n: Mem, x: Variable, y: Variable, b: Addr, d: Reading)
    requires Ready(m) && Ready(n) && Var(y) in m.slots && RefCopied(m, n, Var(x), Var(y))
    requires NoEntryHolds(m, m.slots[Var(y)]) && b in m.cells && b in n.cells && Reads(m, b, d)
    ensures Reads(n, b, d)
  {
    var a := m.slots[Var(y)];
    if b == a {
      assert CloneOf(n, a, m, a) by {
        forall k ensures SameEntry(m, n, a, k) {}
      }
      CopyReads(m, n, {Var(x)}, {a}, a, a, a, d);
    } else {
      ReadsOn(m, n, {Var(x)}, {a}, a, b, d);
    }
  }

  lemma RefAlias(m: Mem, n: Mem, x: Variable, y: Variable, v: Variable, w: Variable)
    requires Ready(m) && Ready(n) && Var(x) in m.slots && Var(y) in m.slots && RefCopied(m, n, Var(x), Var(y))
    requires !InCopyOnWrite(m.cells[m.slots[Var(y)]])
    requires Var(v) in m.slots && Var(w) in m.slots && Var(v) in n.slots && Var(w) in n.slots
    requires v != x ==> n.slots[Var(v)] == m.slots[Var(v)]
    requires w != x ==> n.slots[Var(w)] == m.slots[Var(w)]
    ensures Aliased(n, v, w) <==>
      Aliased(m, if v == x then y else v, if w == x then y else w)
  {
    hide WF, RefCopied, InCopyOnWrite;
    RefFlags(m, n, x, y);
    RefTargets(m, n, Var(x), Var(y));
    var v', w' := if v == x then y else v, if w == x then y else w;
    if v' != w' && m.slots[Var(v')] == m.slots[Var(w')] {
      RefPair(m, n, x, y, v', w');
    }
  }

  /** No cell but that of `$y` becomes a reference, and that is one if it has two variables. */
  lemma RefFlags(m: Mem, n: Mem, x: Variable, y: Variable)
    requires Ready(m) && Ready(n) && Var(x) in m.slots && Var(y) in m.slots && RefCopied(m, n, Var(x), Var(y))
    ensures forall b :: IsRef(n, b) && b in m.cells && b != m.slots[Var(y)] ==> IsRef(m, b)
    ensures x != y || IsRef(m, m.slots[Var(y)]) ==> IsRef(n, m.slots[Var(y)])
    ensures forall s :: s in m.slots ==> m.slots[s] in m.cells
  {
    hide CellsCounted, TablesOwned, SameEntry;
  }

  lemma RefPair(m: Mem, n: Mem, x: Variable, y: Variable, v: Variable, w: Variable)
    requires Ready(m) && Ready(n) && Var(x) in m.slots && Var(y) in m.slots && RefCopied(m, n, Var(x), Var(y))
    requires !InCopyOnWrite(m.cells[m.slots[Var(y)]])
    requires Var(v) in m.slots && Var(w) in m.slots && v != w && m.slots[Var(v)] == m.slots[Var(w)]
    requires (v == x || w == x) ==> x == y
    ensures var b := m.slots[Var(v)];
      && (b == m.slots[Var(y)] ==> IsRef(m, b) && IsRef(n, b))
      && (b != m.slots[Var(y)] && IsRef(m, b) ==> IsRef(n, b))
  {
    HeldTwice(m, Var(v), Var(w));
    hide CellsCounted, TablesOwned, SameEntry;
    assert Anchored(n, {m.slots[Var(y)]}, Var(v)) && Anchored(n, {m.slots[Var(y)]}, Var(w));
  }

  lemma HeldTwice(m: Mem, s: Slot, t: Slot)
    requires WF(m, {}) && s in m.slots && t in m.slots && s != t && m.slots[s] == m.slots[t]
    ensures m.cells[m.slots[s]].refcount >= 2
  {
    TwoHolders(m, s, t);
  }

  lemma RefPool(m: Mem, n: Mem, s: Store, x: Variable, y: Variable)
    requires Agrees(m, s) && Ready(n) && Var(x) in m.slots && Var(y) in m.slots && RefCopied(m, n, Var(x), Var(y))
    requires !InCopyOnWrite(m.cells[m.slots[Var(y)]])
    ensures SamePool(n, s)
  {
    hide CellsCounted, TablesOwned, SameEntry, SameValues, SameClasses;
    forall i ensures Fixed(i) in n.slots <==> i in s.lits
      ensures i in s.lits ==>
        n.slots[Fixed(i)] in n.cells && n.cells[n.slots[Fixed(i)]].value == Plain(s.lits[i])
        && !n.cells[n.slots[Fixed(i)]].isRef
    {
      assert Anchored(n, {m.slots[Var(y)]}, Fixed(i));
      if Fixed(i) in m.slots && m.slots[Fixed(i)] == m.slots[Var(y)] {
        HeldTwice(m, Fixed(i), Var(y));
      }
    }
  }

  /** Unsetting a variable takes it out of its class. */
  lemma UnsetAgrees(m: Mem, n: Mem, s: Store, x: Variable)
    requires Agrees(m, s) && Ready(n) && Removed(m, n, Var(x))
    ensures Agrees(n, s.(cls := s.cls - {x}))
  {
    hide Ready, ElemsPlain, SameValues, SameClasses, Kept;
    UnsetElems(m, n, x);
    UnsetRoots(m, n, x);
    UnsetValues(m, n, s, x);
    UnsetClasses(m, n, s, x);
    UnsetPool(m, n, s, x);
  }

  lemma UnsetPool(m: Mem, n: Mem, s: Store, x: Variable)
    requires Agrees(m, s) && Ready(n) && Removed(m, n, Var(x))
    ensures SamePool(n, s)
  {
    hide Ready, Removed, ElemsPlain, SameValues, SameClasses, SameVars;
    forall i ensures Fixed(i) in n.slots <==> i in s.lits
      ensures i in s.lits ==>
        n.slots[Fixed(i)] in n.cells && n.cells[n.slots[Fixed(i)]].value == Plain(s.lits[i])
        && !n.cells[n.slots[Fixed(i)]].isRef
    {
      UnsetRoots(m, n, x);
      assert Fixed(i) in n.slots <==> Fixed(i) in m.slots;
      if Fixed(i) in m.slots {
        UnsetCell(m, n, x, Fixed(i));
      }
    }
  }

  lemma UnsetCell(m: Mem, n: Mem, x: Variable, t: Slot)
    requires Ready(m) && Ready(n) && Removed(m, n, Var(x)) && t in m.slots && t in n.slots && n.slots[t] == m.slots[t]
    ensures m.slots[t] in m.cells && m.slots[t] in n.cells
    ensures n.cells[m.slots[t]].value == m.cells[m.slots[t]].value
    ensures !m.cells[m.slots[t]].isRef ==> !n.cells[m.slots[t]].isRef
  {
  }

  lemma UnsetElems(m: Mem, n: Mem, x: Variable)
    requires Ready(m) && Ready(n) && ElemsPlain(m) && Removed(m, n, Var(x))
    ensures ElemsPlain(n)
  {
    NextFree(m);
    assert NewEntriesPlain(m, n, {Var(x)}, {});
    ElemsPlainKept(m, n, {Var(x)}, {}, m.next);
  }

  lemma UnsetRoots(m: Mem, n: Mem, x: Variable)
    requires Ready(m) && Ready(n) && Removed(m, n, Var(x))
    ensures forall t: Slot :: !t.Elem? ==> (t in n.slots <==> t in m.slots && t != Var(x))
    ensures forall t: Slot :: !t.Elem? && t in n.slots ==> t in m.slots && n.slots[t] == m.slots[t]
  {
    forall t: Slot | !t.Elem? ensures t in n.slots <==> t in m.slots && t != Var(x)
      ensures t in n.slots ==> t in m.slots && n.slots[t] == m.slots[t]
    {
      assert Anchored(n, {}, t);
    }
  }

  lemma UnsetValues(m: Mem, n: Mem, s: Store, x: Variable)
    requires Agrees(m, s) && Ready(n) && Kept(m, n, {Var(x)}, {})
    requires forall v :: Var(v) in n.slots <==> v in s.cls && v != x
    requires forall v :: v in s.cls && v != x ==> n.slots[Var(v)] == m.slots[Var(v)]
    ensures SameValues(n, s.(cls := s.cls - {x}))
  {
    hide CellsCounted, TablesOwned, ElemsPlain, SameClasses, SamePool, Kept;
    var t := s.(cls := s.cls - {x});
    NextFree(m);
    forall v | v in t.cls ensures t.cls[v] in t.val && Reads(n, n.slots[Var(v)], t.val[t.cls[v]]) {
      assert Reads(m, m.slots[Var(v)], s.val[s.cls[v]]);
      ReadsOn(m, n, {Var(x)}, {}, m.next, m.slots[Var(v)], s.val[s.cls[v]]);
    }
  }

  lemma UnsetClasses(m: Mem, n: Mem, s: Store, x: Variable)
    requires Agrees(m, s) && Ready(n) && Kept(m, n, {Var(x)}, {})
    requires forall v :: Var(v) in n.slots <==> v in s.cls && v != x
    requires forall v :: v in s.cls && v != x ==> n.slots[Var(v)] == m.slots[Var(v)]
    ensures SameClasses(n, s.(cls := s.cls - {x}))
  {
    hide CellsCounted, TablesOwned, ElemsPlain, SameValues, SamePool, Kept;
    var t := s.(cls := s.cls - {x});
    forall v, w | v in t.cls && w in t.cls ensures t.cls[v] == t.cls[w] <==> Aliased(n, v, w) {
      assert s.cls[v] == s.cls[w] <==> Aliased(m, v, w);
      if v != w {
        PairKept(m, n, {Var(x)}, {}, v, w);
      }
    }
  }

  /** check_array_type: an empty array for a falsy value. */
  lemma OpenAgrees(m: Mem, n: Mem, s: Store, x: Variable)
    requires Agrees(m, s) && x in s.cls && Ready(n) && Var(x) in m.slots && ArrayChecked(m, n, Var(x))
    ensures Agrees(n, if FalsyLeaf(Of(s, x)([])) then Put(s, x, NoEntries()) else s)
  {
    var a := m.slots[Var(x)];
    assert Reads(m, a, Of(s, x));
    assert Peek(m, a, []) == Of(s, x)([]);
    hide Updates, Agrees, Emptied, Kept, Reads, WF;
    if Falsy(m.cells[a].value) {
      if m.cells[a].isRef {
        OpenInPlace(m, n, x);
        UpdateAgrees(m, n, s, x, NoEntries(), {}, {a}, a);
      } else {
        OpenInSlot(m, n, x);
        UpdateAgrees(m, n, s, x, NoEntries(), {Var(x)}, {}, m.next);
      }
    }
  }

  lemma OpenInPlace(m: Mem, n: Mem, x: Variable)
    requires Ready(m) && ElemsPlain(m) && Ready(n) && Var(x) in m.slots
    requires var a := m.slots[Var(x)]; Falsy(m.cells[a].value) && m.cells[a].isRef && n == Refilled(m, a, Array)
    ensures Updates(m, n, x, {}, {m.slots[Var(x)]}, m.slots[Var(x)])
    ensures Reads(n, n.slots[Var(x)], NoEntries())
  {
    RefilledInPlace(m, m.slots[Var(x)], Array);
    EmptyReads(n, m.slots[Var(x)]);
  }

  lemma OpenInSlot(m: Mem, n: Mem, x: Variable)
    requires Ready(m) && Ready(n) && Var(x) in m.slots && !m.cells[m.slots[Var(x)]].isRef && Emptied(m, n, Var(x))
    ensures Updates(m, n, x, {Var(x)}, {}, m.next) && Reads(n, n.slots[Var(x)], NoEntries())
  {
    EmptyReads(n, n.slots[Var(x)]);
    NextFree(m);
    EmptiedPlain(m, n, Var(x));
  }

  lemma EmptyReads(n: Mem, c: Addr)
    requires IsArray(n, c) && ElemsOf(n, c) == {}
    ensures Reads(n, c, NoEntries())
  {
    forall path ensures Peek(n, c, path) == NoEntries()(path) {
      if path != [] {
        assert Elem(c, path[0]) in ElemsOf(n, c) <==> Elem(c, path[0]) in n.slots;
      }
    }
  }

  lemma EmptiedPlain(m: Mem, n: Mem, s: Slot)
    requires WF(n, {}) && Emptied(m, n, s)
    ensures forall t :: t in n.slots && t.Elem? ==> t.owner < m.next
  {
    forall t | t in n.slots && t.Elem? ensures t.owner < m.next {
      assert t in ElemsOf(n, t.owner);
    }
  }

  // ---------------------------------------------------------------------------------------
  // Array entries
  // ---------------------------------------------------------------------------------------

  /** get_ht_entry: the entry is there, and an absent one reads NULL now. */
  lemma EntryAgrees(m: Mem, n: Mem, s: Store, x: Variable, k: Key)
    requires Agrees(m, s) && x in s.cls && Ready(n) && Var(x) in m.slots && Var(x) in n.slots
    requires EntryGot(m, n, Var(x), k)
    requires IsArray(m, m.slots[Var(x)]) || !IsRef(m, m.slots[Var(x)])
    ensures Agrees(n, Put(s, x, WithKey(AsTable(Of(s, x)), k, EntryOf(AsTable(Of(s, x)), k))))
  {
    var d := Of(s, x);
    var e := WithKey(AsTable(d), k, EntryOf(AsTable(d), k));
    assert Reads(m, m.slots[Var(x)], d);
    hide Updates, Agrees, Reads, EntryGot, Ready, ElemsPlain, WF, Touchable, IsRef;
    VarReads(m, s, x);
    EntryTouches(m, n, x, k);
    EntryReads(m, n, x, k, d);
    if n.slots[Var(x)] < m.next {
      EntryInPlace(m, n, x, k);
      UpdateAgrees(m, n, s, x, e, {Elem(n.slots[Var(x)], k)}, {}, n.slots[Var(x)]);
    } else {
      EntryInSlot(m, n, x, k);
      UpdateAgrees(m, n, s, x, e, {Var(x), Elem(n.slots[Var(x)], k)}, {}, n.slots[Var(x)]);
    }
  }

  lemma KeptDrop(m: Mem, n: Mem, named: set<Slot>, hot: set<Addr>, s: Slot)
    requires WF(m, {}) && Kept(m, n, named + {s}, hot) && s in m.slots && s in n.slots && n.slots[s] == m.slots[s]
    requires IsRef(m, m.slots[s]) ==> IsRef(n, m.slots[s])
    ensures Kept(m, n, named, hot)
  {
    hide CellsCounted, TablesOwned;
  }

  lemma EntryInPlace(m: Mem, n: Mem, x: Variable, k: Key)
    requires Ready(m) && ElemsPlain(m) && Ready(n) && Var(x) in m.slots && Var(x) in n.slots
    requires EntryGot(m, n, Var(x), k) && n.slots[Var(x)] < m.next && Touchable(m, x, n.slots[Var(x)])
    ensures Updates(m, n, x, {Elem(n.slots[Var(x)], k)}, {}, n.slots[Var(x)])
  {
    hide Ready, EntryGot, ElemsPlain, Kept, IsRef, Touchable, NewEntriesPlain;
    EntryPlain(m, n, x, k);
    EntryDrop(m, n, x, k);
  }

  lemma EntryInSlot(m: Mem, n: Mem, x: Variable, k: Key)
    requires Ready(m) && ElemsPlain(m) && Ready(n) && Var(x) in m.slots && Var(x) in n.slots
    requires EntryGot(m, n, Var(x), k) && n.slots[Var(x)] >= m.next && Touchable(m, x, n.slots[Var(x)])
    requires !IsRef(m, m.slots[Var(x)]) && !IsRef(n, n.slots[Var(x)])
    requires Kept(m, n, {Var(x), Elem(n.slots[Var(x)], k)}, {})
    ensures Updates(m, n, x, {Var(x), Elem(n.slots[Var(x)], k)}, {}, n.slots[Var(x)])
  {
    hide Ready, EntryGot, ElemsPlain, Kept, IsRef, Touchable, NewEntriesPlain;
    EntryPlain(m, n, x, k);
  }

  lemma EntryTouches(m: Mem, n: Mem, x: Variable, k: Key)
    requires Ready(m) && Ready(n) && Var(x) in m.slots && Var(x) in n.slots && EntryGot(m, n, Var(x), k)
    requires IsArray(m, m.slots[Var(x)]) || !IsRef(m, m.slots[Var(x)])
    ensures var c := n.slots[Var(x)];
      && Touchable(m, x, c) && Kept(m, n, {Var(x), Elem(c, k)}, {})
      && (c >= m.next ==> !IsRef(m, m.slots[Var(x)]) && !IsRef(n, c))
  {
    hide TablesOwned, EntryTable, Kept;
    NextFree(m);
    if n.slots[Var(x)] >= m.next && IsRef(m, m.slots[Var(x)]) {
      EntryOfRef(m, n, x, k);
    }
  }

  lemma EntryDrop(m: Mem, n: Mem, x: Variable, k: Key)
    requires Ready(m) && Var(x) in m.slots && Var(x) in n.slots
    requires EntryGot(m, n, Var(x), k) && n.slots[Var(x)] < m.next
    ensures Kept(m, n, {Elem(n.slots[Var(x)], k)}, {})
  {
    var c := n.slots[Var(x)];
    assert {Var(x), Elem(c, k)} == {Elem(c, k)} + {Var(x)};
    hide Kept;
    KeptDrop(m, n, {Elem(c, k)}, {}, Var(x));
  }

  /** A reference is never separated. */
  lemma EntryOfRef(m: Mem, n: Mem, x: Variable, k: Key)
    requires Ready(m) && Ready(n) && Var(x) in m.slots && Var(x) in n.slots
    requires EntryGot(m, n, Var(x), k) && IsRef(m, m.slots[Var(x)]) && IsArray(m, m.slots[Var(x)])
    ensures n.slots[Var(x)] == m.slots[Var(x)]
  {
  }

  lemma EntryPlain(m: Mem, n: Mem, x: Variable, k: Key)
    requires Ready(m) && ElemsPlain(m) && Ready(n) && Var(x) in m.slots && Var(x) in n.slots
    requires EntryGot(m, n, Var(x), k)
    ensures var c := n.slots[Var(x)];
      NewEntriesPlain(m, n, {Elem(c, k)}, {}) && NewEntriesPlain(m, n, {Var(x), Elem(c, k)}, {})
  {
    var a, c := m.slots[Var(x)], n.slots[Var(x)];
    forall t | t in n.slots && t.Elem? && (t.owner == c || t.owner >= m.next) ensures !IsRef(n, n.slots[t]) {
      assert t == Elem(c, t.key);
      if t.key == k {
        assert n.slots[t] == LookUp(m, Elem(a, k));
      } else {
        assert Elem(a, t.key) in m.slots;
      }
    }
  }

  lemma EntryReads(m: Mem, n: Mem, x: Variable, k: Key, d: Reading)
    requires Ready(m) && ElemsPlain(m) && Ready(n) && Var(x) in m.slots && Var(x) in n.slots
    requires EntryGot(m, n, Var(x), k) && Reads(m, m.slots[Var(x)], d) && Touchable(m, x, n.slots[Var(x)])
    ensures Reads(n, n.slots[Var(x)], WithKey(AsTable(d), k, EntryOf(AsTable(d), k)))
  {
    var a, c := m.slots[Var(x)], n.slots[Var(x)];
    TouchableApart(m, x, c);
    assert IsArray(n, c);
    hide EntryGot, CellsCounted, TablesOwned, ElemsPlain;
    assert Peek(m, a, []) == d([]);
    assert Peek(m, a, [k]) == d([k]);
    forall path ensures Peek(n, c, path) == WithKey(AsTable(d), k, EntryOf(AsTable(d), k))(path) {
      if path != [] {
        EntryReadsAt(m, n, x, k, d, path[0], path[1..]);
        assert [path[0]] + path[1..] == path;
      }
    }
  }

  lemma EntryReadsAt(m: Mem, n: Mem, x: Variable, k: Key, d: Reading, j: Key, rest: seq<Key>)
    requires Ready(m) && Ready(n) && Var(x) in m.slots && Var(x) in n.slots && NoEntryHolds(m, n.slots[Var(x)])
    requires EntryGot(m, n, Var(x), k) && Reads(m, m.slots[Var(x)], d)
    ensures Peek(n, n.slots[Var(x)], [j] + rest) ==
            if j == k && AsTable(d)([k]) == Missing then LeafOf(Null)(rest) else AsTable(d)([j] + rest)
  {
    hide CellsCounted, Emptied;
    var a, c := m.slots[Var(x)], n.slots[Var(x)];
    var path := [j] + rest;
    assert path[0] == j && path[1..] == rest;
    assert Peek(m, a, path) == d(path) && Peek(m, a, []) == d([]) && Peek(m, a, [k]) == d([k]);
    if Elem(a, j) in m.slots {
      assert IsArray(m, a);
      var e := m.slots[Elem(a, j)];
      assert n.slots[Elem(c, j)] == e;
      OthersRead(m, n, {Var(x), Elem(c, k)}, {}, c, e, rest);
      assert Peek(m, e, []) != Missing;
      assert j == k ==> Peek(m, a, [k]) == Peek(m, e, [k][1..]);
    } else {
      assert Peek(m, a, path) == Missing;
      assert j == k ==> Peek(m, a, [k]) == Missing;
    }
  }

  /** The value goes into the entry, unless it is the very array the entry belongs to. */
  lemma StoreAgrees(m: Mem, n: Mem, s: Store, x: Variable, k: Key, r: Addr, v: Reading)
    requires Agrees(m, s) && x in s.cls && Ready(n) && Writable(m, Var(x)) && Elem(m.slots[Var(x)], k) in m.slots
    requires Assigned(m, n, Elem(m.slots[Var(x)], k), r) && r in m.cells && Reads(m, r, v)
    requires r != m.slots[Var(x)] || IsRef(m, r)
    ensures Agrees(n, Put(s, x, WithKey(Of(s, x), k, v)))
  {
    var c, d := m.slots[Var(x)], Of(s, x);
    var l := Elem(c, k);
    assert Reads(m, c, d);
    hide Updates, Agrees, Written, WF, Writable;
    if m.slots[l] == r {
      StoreSame(m, x, k, v, d);
      UpdateAgrees(m, n, s, x, WithKey(d, k, v), {l}, {}, c);
    } else {
      StoreUpdates(m, n, x, k, r);
      StoreReads(m, n, x, k, r, v, d);
      UpdateAgrees(m, n, s, x, WithKey(d, k, v), {l}, {}, c);
    }
  }

  lemma StoreSame(m: Mem, x: Variable, k: Key, v: Reading, d: Reading)
    requires Ready(m) && ElemsPlain(m) && Writable(m, Var(x)) && Elem(m.slots[Var(x)], k) in m.slots
    requires Reads(m, m.slots[Elem(m.slots[Var(x)], k)], v) && Reads(m, m.slots[Var(x)], d)
    ensures Updates(m, m, x, {Elem(m.slots[Var(x)], k)}, {}, m.slots[Var(x)])
    ensures Reads(m, m.slots[Var(x)], WithKey(d, k, v))
  {
    var c := m.slots[Var(x)];
    KeptRefl(m);
    KeptMore(m, m, {}, {}, {Elem(c, k)});
    forall path ensures Peek(m, c, path) == WithKey(d, k, v)(path) {
      assert Peek(m, c, path) == d(path);
      if path != [] && path[0] == k {
        assert Peek(m, m.slots[Elem(c, k)], path[1..]) == v(path[1..]);
      }
    }
  }

  lemma StoreUpdates(m: Mem, n: Mem, x: Variable, k: Key, r: Addr)
    requires Ready(m) && ElemsPlain(m) && Ready(n) && Writable(m, Var(x)) && Elem(m.slots[Var(x)], k) in m.slots
    requires Written(m, n, Elem(m.slots[Var(x)], k), r) && r in m.cells
    ensures Updates(m, n, x, {Elem(m.slots[Var(x)], k)}, {}, m.slots[Var(x)])
    ensures n.slots[Var(x)] == m.slots[Var(x)]
  {
    var l := Elem(m.slots[Var(x)], k);
    assert Anchored(n, {}, Var(x));
    if IsRef(n, r) {
      ClonePlain(m, n, {l}, l, r);
    }
  }

  lemma StoreReads(m: Mem, n: Mem, x: Variable, k: Key, r: Addr, v: Reading, d: Reading)
    requires Ready(m) && ElemsPlain(m) && Ready(n) && Writable(m, Var(x)) && Elem(m.slots[Var(x)], k) in m.slots
    requires Written(m, n, Elem(m.slots[Var(x)], k), r) && r in m.cells && Reads(m, r, v)
    requires Var(x) in n.slots && n.slots[Var(x)] == m.slots[Var(x)] && Reads(m, m.slots[Var(x)], d)
    requires r != m.slots[Var(x)] || IsRef(m, r)
    ensures Reads(n, n.slots[Var(x)], WithKey(d, k, v))
  {
    var c := m.slots[Var(x)];
    var l := Elem(c, k);
    TouchableApart(m, x, c);
    StoredValue(m, n, l, c, r, v);
    hide CellsCounted, TablesOwned, FreshClone, Overwritten;
    forall path ensures Peek(n, c, path) == WithKey(d, k, v)(path) {
      assert Peek(m, c, path) == d(path);
      if path != [] {
        var e := Elem(c, path[0]);
        assert Anchored(n, {}, e);
        if path[0] == k {
          assert Peek(n, n.slots[l], path[1..]) == v(path[1..]);
        } else if e in m.slots {
          OthersRead(m, n, {l}, {}, c, m.slots[e], path[1..]);
        }
      }
    }
  }

  lemma StoredValue(m: Mem, n: Mem, l: Slot, c: Addr, r: Addr, v: Reading)
    requires Ready(m) && Ready(n) && ElemsPlain(m) && l in m.slots && l.Elem? && l.owner == c && NoEntryHolds(m, c)
    requires Written(m, n, l, r) && r in m.cells && Reads(m, r, v) && (r != c || IsRef(m, r))
    requires c in n.cells
    ensures l in n.slots && Reads(n, n.slots[l], v)
  {
    if r == c {
      RefStaysHeld(m, n, {l}, {}, c);
    }
    if IsRef(n, r) {
      CopyReads(m, n, {l}, {}, c, n.slots[l], r, v);
    } else {
      ReadsOn(m, n, {l}, {}, c, r, v);
    }
  }

  /** A reference held by variables only stays one when only entries are named. */
  lemma RefStaysHeld(m: Mem, n: Mem, named: set<Slot>, hot: set<Addr>, c: Addr)
    requires WF(m, {}) && Kept(m, n, named, hot) && IsRef(m, c) && NoEntryHolds(m, c)
    requires forall s :: s in named ==> s.Elem?
    ensures IsRef(n, c)
  {
    var held := Holders(m.slots, c);
    assert |held| >= 2;
    var s :| s in held;
    assert |held - {s}| == |held| - 1;
    var t :| t in held - {s};
    assert s in m.slots && t in m.slots && s != t;
  }

  // ---------------------------------------------------------------------------------------
  // Converting
  // ---------------------------------------------------------------------------------------

  lemma CastAgrees(m: Mem, n: Mem, s: Store, x: Variable, kind: Kind, conv: Conversions)
    requires Agrees(m, s) && x in s.cls && Ready(n) && Var(x) in m.slots && DidCast(m, n, Var(x), kind, conv)
    ensures Agrees(n, Put(s, x, CastOf(Of(s, x), kind, conv)))
  {
    var d := Of(s, x);
    var e := CastOf(d, kind, conv);
    assert Reads(m, m.slots[Var(x)], d);
    assert Peek(m, m.slots[Var(x)], []) == d([]);
    if KindOf(m.cells[m.slots[Var(x)]].value) == kind {
      assert Put(s, x, d) == s;
      AgreesPointwise(m, s, x, d, e);
    } else {
      var o :| Separated(m, o, Var(x)) && Ready(o) && Var(x) in o.slots && !InCopyOnWrite(o.cells[o.slots[Var(x)]])
               && Converted(o, n, o.slots[Var(x)], kind, conv);
      CastVia(m, o, n, s, x, kind, conv);
    }
  }

  lemma CastVia(m: Mem, o: Mem, n: Mem, s: Store, x: Variable, kind: Kind, conv: Conversions)
    requires Agrees(m, s) && x in s.cls && Ready(n) && Ready(o) && Var(x) in m.slots && Var(x) in o.slots
    requires Separated(m, o, Var(x)) && !InCopyOnWrite(o.cells[o.slots[Var(x)]])
    requires Converted(o, n, o.slots[Var(x)], kind, conv) && KindOf(m.cells[m.slots[Var(x)]].value) != kind
    ensures Agrees(n, Put(s, x, CastOf(Of(s, x), kind, conv)))
  {
    var d := Of(s, x);
    SepAgrees(m, o, s, x);
    SameShape(m, o, s, x);
    hide Separated, Converted, CellsCounted, TablesOwned, Updates, CastOf, SameClasses, SamePool;
    assert Reads(o, o.slots[Var(x)], d);
    ConvertUpdates(o, n, x, kind, conv, d);
    UpdateAgrees(o, n, s, x, CastOf(d, kind, conv), {}, {o.slots[Var(x)]}, o.slots[Var(x)]);
  }

  /** Agreeing memories have the same sort of value in a variable. */
  lemma SameShape(m: Mem, o: Mem, s: Store, x: Variable)
    requires Agrees(m, s) && Agrees(o, s) && x in s.cls
    ensures Var(x) in m.slots && Var(x) in o.slots && m.slots[Var(x)] in m.cells && o.slots[Var(x)] in o.cells
    ensures o.cells[o.slots[Var(x)]].value == m.cells[m.slots[Var(x)]].value
    ensures o.cells[o.slots[Var(x)]].value.Array? <==> Of(s, x)([]) == Table
  {
    hide CellsCounted, TablesOwned, SameClasses, SamePool;
    assert Peek(m, m.slots[Var(x)], []) == Of(s, x)([]);
    assert Peek(o, o.slots[Var(x)], []) == Of(s, x)([]);
  }

  lemma ConvertUpdates(m: Mem, n: Mem, x: Variable, kind: Kind, conv: Conversions, d: Reading)
    requires Ready(m) && ElemsPlain(m) && Ready(n) && Var(x) in m.slots && !InCopyOnWrite(m.cells[m.slots[Var(x)]])
    requires KindOf(m.cells[m.slots[Var(x)]].value) != kind
    requires Converted(m, n, m.slots[Var(x)], kind, conv) && Reads(m, m.slots[Var(x)], d)
    ensures Updates(m, n, x, {}, {m.slots[Var(x)]}, m.slots[Var(x)])
    ensures Reads(n, n.slots[Var(x)], CastOf(d, kind, conv))
  {
    hide Converted, Reads;
    ConvertFrame(m, n, x, kind, conv);
    ConvertReads(m, n, m.slots[Var(x)], kind, conv, d);
  }

  lemma ConvertFrame(m: Mem, n: Mem, x: Variable, kind: Kind, conv: Conversions)
    requires Ready(m) && ElemsPlain(m) && Ready(n) && Var(x) in m.slots && !InCopyOnWrite(m.cells[m.slots[Var(x)]])
    requires KindOf(m.cells[m.slots[Var(x)]].value) != kind
    requires Converted(m, n, m.slots[Var(x)], kind, conv)
    ensures Updates(m, n, x, {}, {m.slots[Var(x)]}, m.slots[Var(x)])
    ensures n.slots[Var(x)] == m.slots[Var(x)]
  {
    var a := m.slots[Var(x)];
    assert Anchored(n, {a}, Var(x));
    ConvertEntries(m, n, a, kind, conv);
    hide CellsCounted, TablesOwned, ElemsPlain, Converted;
    ConvertKept(m, n, a, kind, conv);
  }

  lemma ConvertKept(m: Mem, n: Mem, a: Addr, kind: Kind, conv: Conversions)
    requires Converted(m, n, a, kind, conv)
    ensures Kept(m, n, {}, {a}) && a in n.cells
  {
  }

  lemma ConvertEntries(m: Mem, n: Mem, a: Addr, kind: Kind, conv: Conversions)
    requires WF(m, {}) && WF(n, {}) && a in m.cells && KindOf(m.cells[a].value) != kind
    requires Converted(m, n, a, kind, conv)
    ensures NewEntriesPlain(m, n, {}, {a})
  {
    hide Kept, CellsCounted;
    forall t | t in n.slots && t.Elem? && (t.owner == a || t.owner >= m.next) ensures !IsRef(n, n.slots[t]) {
      assert t in ElemsOf(n, t.owner);
      assert IsArray(n, t.owner);
    }
  }

  lemma CountReads(m: Mem, a: Addr, d: Reading)
    requires WF(m, {}) && IsArray(m, a) && Reads(m, a, d)
    ensures IsEmpty(d) <==> ElemsOf(m, a) == {}
  {
    hide CellsCounted, TablesOwned;
    forall k ensures d([k]) == Missing <==> Elem(a, k) !in ElemsOf(m, a) {
      assert Peek(m, a, [k]) == d([k]);
      if Elem(a, k) in m.slots {
        assert Elem(a, k) in ElemsOf(m, a);
        assert [k][0] == k && m.slots[Elem(a, k)] in m.cells;
        assert Peek(m, m.slots[Elem(a, k)], [k][1..]) != Missing;
      }
    }
    forall e | e in ElemsOf(m, a) ensures e == Elem(a, e.key) {
    }
  }

  lemma ConvertReads(m: Mem, n: Mem, a: Addr, kind: Kind, conv: Conversions, d: Reading)
    requires WF(m, {}) && a in m.cells && KindOf(m.cells[a].value) != kind
    requires Converted(m, n, a, kind, conv) && Reads(m, a, d)
    ensures Reads(n, a, CastOf(d, kind, conv))
  {
    hide Kept, CellsCounted, TablesOwned;
    assert Peek(m, a, []) == d([]);
    if IsArray(m, a) {
      CountReads(m, a, d);
    }
    forall path ensures Peek(n, a, path) == CastOf(d, kind, conv)(path) {
      if path != [] {
        assert Elem(a, path[0]) in ElemsOf(n, a) <==> Elem(a, path[0]) in n.slots;
      }
    }
  }
}
