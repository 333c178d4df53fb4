/**
 The runtime refines the plain machine: statement by statement, and over whole runs.

 Three kinds of statements can leave the plain meaning: an array stored into itself, a push onto a
 scalar of a reference set, and a nested unset of an array that is shared.  When they do is stated
 exactly.
*/
module PlainRuns {
  import opened ZvalHeap
  import opened ZvalFrame
  import opened ZvalSteps
  import opened ZvalReads
  import opened PhpStatements
  import opened PlainStore
  import opened PlainUnset

  /** Some other variable is in the class of `x`. */
  ghost predicate Shared(s: Store, x: Variable)
    requires x in s.cls
  {
    exists w :: w != x && w in s.cls && s.cls[w] == s.cls[x]
  }

  /** The right-hand side is a variable of the class of `x`. */
  predicate SelfStore(s: Store, x: Variable, rhs: Rvalue)
    requires x in s.cls
  {
    rhs.FromVar? && rhs.v in s.cls && s.cls[rhs.v] == s.cls[x]
  }

  predicate Opens(d: Reading) {
    d([]) == Table || FalsyLeaf(d([]))
  }

  /** A store of a class into its own array keeps the plain meaning only through a reference set
      whose array has the entry already. */
  ghost predicate StoreWithin(s: Store, x: Variable, k: Key, rhs: Rvalue)
    requires x in s.cls
  {
    SelfStore(s, x, rhs) ==> Shared(s, x) && Of(s, x)([]) == Table && Of(s, x)([k]) != Missing
  }

  /** The statements the refinement covers: no references to array entries, no push onto a
      falsy reference. */
  ghost predicate Within(s: Store, st: Stmt) {
    match st
    case AssignVar(_, _) => true
    case AssignCast(_, _, _, _) => true
    case AssignRef(_, _) => true
    case UnsetVar(_) => true
    case AssignArray(x, k, rhs) =>
      var t := Declare(s, x);
      Opens(Of(t, x)) ==> StoreWithin(t, x, k, rhs)
    case AssignNext(x, k, rhs) =>
      var t := Declare(s, x);
      Opens(Of(t, x)) ==> StoreWithin(t, x, k, rhs) && (FalsyLeaf(Of(t, x)([])) ==> !Shared(t, x))
    case AssignAccess(_, _, _) => true
    case UnsetElem(_, _, _) => true
    case AssignArrayRef(_, _, _) => false
    case AssignNextRef(_, _, _) => false
    case AssignRefAccess(_, _, _) => false
  }

  // ---------------------------------------------------------------------------------------
  // Storing into an array
  // ---------------------------------------------------------------------------------------

  lemma SharedIsRef(m: Mem, s: Store, x: Variable)
    requires Agrees(m, s) && x in s.cls && Var(x) in m.slots
    ensures Shared(s, x) <==> IsRef(m, m.slots[Var(x)])
  {
    var a := m.slots[Var(x)];
    if Shared(s, x) {
      var w :| w != x && w in s.cls && s.cls[w] == s.cls[x];
      assert Aliased(m, w, x);
    }
    if IsRef(m, a) {
      HeldCounted(m, Var(x), {});
      var held := Holders(m.slots, a) - {Var(x)};
      assert |held| == |Holders(m.slots, a)| - 1;
      var t :| t in held;
      RefHolder(m, s, t);
      assert Aliased(m, t.v, x);
    }
  }

  /** Only variables hold references. */
  lemma RefHolder(m: Mem, s: Store, t: Slot)
    requires Agrees(m, s) && t in m.slots && IsRef(m, m.slots[t])
    ensures t.Var? && t.v in s.cls
  {
    assert forall i :: Fixed(i) in m.slots <==> i in s.lits;
  }

  /** The right-hand side is the array cell itself exactly when it is a variable of its class. */
  lemma OwnCell(m: Mem, s: Store, x: Variable, rhs: Rvalue)
    requires Agrees(m, s) && x in s.cls && Writable(m, Var(x))
    ensures LookUp(m, SlotOf(rhs)) == m.slots[Var(x)] <==> SelfStore(s, x, rhs)
  {
    var c, t := m.slots[Var(x)], SlotOf(rhs);
    if SelfStore(s, x, rhs) {
      assert Aliased(m, rhs.v, x);
    } else if LookUp(m, t) == c {
      var h := if t in m.slots then t else UNINIT;
      assert h in m.slots && m.slots[h] == c && h != Var(x);
      HeldTwice(m, h, Var(x));
      RefHolder(m, s, h);
      assert Aliased(m, rhs.v, x);
    }
  }

  lemma ValueElsewhere(s: Store, x: Variable, d: Reading, rhs: Rvalue)
    requires x in s.cls && !SelfStore(s, x, rhs) && Sane(s)
    ensures ValueOf(Put(s, x, d), rhs) == ValueOf(s, rhs)
  {
  }

  ghost function Opened(d: Reading, k: Key): Reading {
    WithKey(AsTable(d), k, EntryOf(AsTable(d), k))
  }

  /** An entry of a variable's array, then the store. */
  lemma StoredAgrees(m: Mem, n: Mem, s: Store, x: Variable, k: Key, rhs: Rvalue)
    requires Agrees(m, s) && x in s.cls && Ready(n) && Var(x) in m.slots && DidStore(m, n, x, k, rhs)
    requires IsArray(m, m.slots[Var(x)]) || !IsRef(m, m.slots[Var(x)])
    requires StoreWithin(s, x, k, rhs)
    ensures Agrees(n, Put(s, x, WithKey(AsTable(Of(s, x)), k, ValueOf(s, rhs))))
  {
    var d := Of(s, x);
    var o :| Ready(o) && Var(x) in o.slots && EntryGot(m, o, Var(x), k)
             && Assigned(o, n, Elem(o.slots[Var(x)], k), LookUp(o, SlotOf(rhs)));
    hide Agrees, Ready, EntryGot, Assigned, Reads, Writable;
    var t := Put(s, x, Opened(d, k));
    EntryAgrees(m, o, s, x, k);
    EntryWritable(m, o, Var(x), k);
    StoreInto(o, n, t, x, k, rhs, s, d);
  }

  lemma StoreInto(o: Mem, n: Mem, t: Store, x: Variable, k: Key, rhs: Rvalue, s: Store, d: Reading)
    requires x in s.cls && Sane(s) && d == Of(s, x) && t == Put(s, x, Opened(d, k)) && Agrees(o, t)
    requires Ready(n) && Writable(o, Var(x)) && Elem(o.slots[Var(x)], k) in o.slots
    requires Assigned(o, n, Elem(o.slots[Var(x)], k), LookUp(o, SlotOf(rhs)))
    requires StoreWithin(s, x, k, rhs)
    ensures Agrees(n, Put(s, x, WithKey(AsTable(d), k, ValueOf(s, rhs))))
  {
    hide Agrees, Ready, Assigned, Reads, Writable, AsTable, WithKey, Opened, StoreWithin, Sane;
    VarThere(o, t, x);
    StoreRight(o, t, x, k, rhs, s, d);
    ValueReads(o, t, rhs);
    var v := ValueOf(t, rhs);
    StoreAgrees(o, n, t, x, k, LookUp(o, SlotOf(rhs)), v);
    var e := WithKey(Of(t, x), k, v);
    assert Put(t, x, e) == Put(s, x, e);
    AgreesPointwise(n, s, x, e, WithKey(AsTable(d), k, ValueOf(s, rhs)));
  }

  /** The value is not the array itself, or is one reference set with it; and opening the entry does
      not change what is read of it. */
  lemma StoreRight(o: Mem, t: Store, x: Variable, k: Key, rhs: Rvalue, s: Store, d: Reading)
    requires x in s.cls && Sane(s) && d == Of(s, x) && t == Put(s, x, Opened(d, k)) && Agrees(o, t)
    requires Writable(o, Var(x)) && StoreWithin(s, x, k, rhs)
    ensures Of(t, x) == Opened(d, k)
    ensures LookUp(o, SlotOf(rhs)) != o.slots[Var(x)] || IsRef(o, LookUp(o, SlotOf(rhs)))
    ensures forall path :: WithKey(Opened(d, k), k, ValueOf(t, rhs))(path)
                           == WithKey(AsTable(d), k, ValueOf(s, rhs))(path)
  {
    OwnCell(o, t, x, rhs);
    SharedIsRef(o, t, x);
    SharedSame(s, t, x);
    hide Agrees, Writable;
    if SelfStore(s, x, rhs) {
      OpenedSame(d, k);
    } else {
      ValueElsewhere(s, x, Opened(d, k), rhs);
    }
  }

  lemma SharedSame(s: Store, t: Store, x: Variable)
    requires s.cls == t.cls && x in s.cls
    ensures Shared(s, x) <==> Shared(t, x)
  {
    if Shared(s, x) {
      var w :| w != x && w in s.cls && s.cls[w] == s.cls[x];
      assert w != x && w in t.cls && t.cls[w] == t.cls[x];
    }
    if Shared(t, x) {
      var w :| w != x && w in t.cls && t.cls[w] == t.cls[x];
      assert w != x && w in s.cls && s.cls[w] == s.cls[x];
    }
  }

  lemma OpenedSame(d: Reading, k: Key)
    requires d([]) == Table && d([k]) != Missing
    ensures forall path :: Opened(d, k)(path) == d(path)
  {
    forall path ensures Opened(d, k)(path) == d(path) {
      if path != [] {
        assert path == [path[0]] + path[1..];
      }
    }
  }

  // ---------------------------------------------------------------------------------------
  // Statements
  // ---------------------------------------------------------------------------------------

  lemma AssignVarAgrees(m: Mem, n: Mem, s: Store, x: Variable, rhs: Rvalue)
    requires Agrees(m, s) && Ready(n) && DidAssignVar(m, n, x, rhs)
    ensures Agrees(n, PlainStep(s, AssignVar(x, rhs)))
  {
    var o :| GotVar(m, o, Var(x)) && Ready(o) && Assigned(o, n, Var(x), LookUp(o, SlotOf(rhs)));
    hide Agrees, Ready, Assigned, GotVar;
    var t := Declare(s, x);
    DeclareAgrees(m, o, s, x);
    ValueReads(o, t, rhs);
    VarThere(o, t, x);
    AssignAgrees(o, n, t, x, LookUp(o, SlotOf(rhs)), ValueOf(t, rhs));
  }

  lemma AssignCastAgrees(m: Mem, n: Mem, s: Store, x: Variable, rhs: Rvalue, kind: Kind, conv: Conversions)
    requires Agrees(m, s) && Ready(n) && DidAssignCast(m, n, x, rhs, kind, conv)
    ensures Agrees(n, PlainStep(s, AssignCast(x, rhs, kind, conv)))
  {
    var o :| DidAssignVar(m, o, x, rhs) && Ready(o) && Var(x) in o.slots && DidCast(o, n, Var(x), kind, conv);
    AssignCastVia(m, n, s, x, rhs, kind, conv, o);
  }

  lemma AssignCastVia(m: Mem, n: Mem, s: Store, x: Variable, rhs: Rvalue, kind: Kind, conv: Conversions, o: Mem)
    requires Agrees(m, s) && Ready(n)
    requires DidAssignVar(m, o, x, rhs) && Ready(o) && Var(x) in o.slots && DidCast(o, n, Var(x), kind, conv)
    ensures Agrees(n, PlainStep(s, AssignCast(x, rhs, kind, conv)))
  {
    hide Agrees, Ready, DidAssignVar, DidCast;
    var t := Declare(s, x);
    AssignVarAgrees(m, o, s, x, rhs);
    var u := Put(t, x, ValueOf(t, rhs));
    CastAgrees(o, n, u, x, kind, conv);
    assert Put(u, x, CastOf(Of(u, x), kind, conv)) == Put(t, x, CastOf(ValueOf(t, rhs), kind, conv));
  }

  lemma AssignRefAgrees(m: Mem, n: Mem, s: Store, x: Variable, y: Variable)
    requires Agrees(m, s) && Ready(n) && DidAssignRef(m, n, x, y)
    ensures Agrees(n, PlainStep(s, AssignRef(x, y)))
  {
    var o, p :| GotVar(m, o, Var(x)) && Ready(o) && DidRefFrom(o, p, n, Var(x), y);
    var q :| GotVar(o, q, Var(y)) && Ready(q) && Separated(q, p, Var(y)) && Ready(p)
             && Var(x) in p.slots && Var(y) in p.slots && !InCopyOnWrite(p.cells[p.slots[Var(y)]])
             && RefCopied(p, n, Var(x), Var(y));
    AssignRefVia(m, n, s, x, y, o, p, q);
  }

  lemma AssignRefVia(m: Mem, n: Mem, s: Store, x: Variable, y: Variable, o: Mem, p: Mem, q: Mem)
    requires Agrees(m, s) && Ready(n)
    requires GotVar(m, o, Var(x)) && Ready(o)
    requires GotVar(o, q, Var(y)) && Ready(q) && Separated(q, p, Var(y)) && Ready(p)
             && Var(x) in p.slots && Var(y) in p.slots && !InCopyOnWrite(p.cells[p.slots[Var(y)]])
             && RefCopied(p, n, Var(x), Var(y))
    ensures Agrees(n, PlainStep(s, AssignRef(x, y)))
  {
    hide Agrees, Ready, RefCopied, Separated, InCopyOnWrite, GotVar;
    var t := Declare(Declare(s, x), y);
    DeclareAgrees(m, o, s, x);
    DeclareAgrees(o, q, Declare(s, x), y);
    VarThere(q, t, y);
    SepAgrees(q, p, t, y);
    RefAgrees(p, n, t, x, y);
  }

  lemma OpenedAgrees(m: Mem, n: Mem, s: Store, x: Variable)
    requires Agrees(m, s) && Ready(n) && DidOpenArray(m, n, x)
    ensures var t := Declare(s, x);
      Agrees(n, if FalsyLeaf(Of(t, x)([])) then Put(t, x, NoEntries()) else t)
  {
    var o :| GotVar(m, o, Var(x)) && Ready(o) && ArrayChecked(o, n, Var(x));
    hide Agrees, Ready, ArrayChecked, GotVar;
    DeclareAgrees(m, o, s, x);
    VarThere(o, Declare(s, x), x);
    OpenAgrees(o, n, Declare(s, x), x);
  }

  lemma AssignArrayAgrees(m: Mem, n: Mem, s: Store, x: Variable, k: Key, rhs: Rvalue)
    requires Agrees(m, s) && Ready(n) && DidAssignArray(m, n, x, k, rhs) && Within(s, AssignArray(x, k, rhs))
    ensures Agrees(n, PlainStep(s, AssignArray(x, k, rhs)))
  {
    var o :| DidOpenArray(m, o, x) && Ready(o) && Var(x) in o.slots
             && if IsArray(o, o.slots[Var(x)]) then DidStore(o, n, x, k, rhs) else n == o;
    AssignArrayVia(m, n, s, x, k, rhs, o);
  }

  lemma AssignArrayVia(m: Mem, n: Mem, s: Store, x: Variable, k: Key, rhs: Rvalue, o: Mem)
    requires Agrees(m, s) && Ready(n) && Within(s, AssignArray(x, k, rhs))
    requires DidOpenArray(m, o, x) && Ready(o) && Var(x) in o.slots
             && if IsArray(o, o.slots[Var(x)]) then DidStore(o, n, x, k, rhs) else n == o
    ensures Agrees(n, PlainStep(s, AssignArray(x, k, rhs)))
  {
    hide Agrees, Ready, DidOpenArray, DidStore, Reads;
    OpenedAgrees(m, o, s, x);
    var t := Declare(s, x);
    var u := if FalsyLeaf(Of(t, x)([])) then Put(t, x, NoEntries()) else t;
    VarThere(o, u, x);
    if IsArray(o, o.slots[Var(x)]) {
      if u != t {
        SaneAgrees(m, s, x);
        ValueElsewhere(t, x, NoEntries(), rhs);
      }
      StoredAgrees(o, n, u, x, k, rhs);
      var e := WithKey(AsTable(Of(t, x)), k, ValueOf(t, rhs));
      assert Put(u, x, e) == Put(t, x, e);
    }
  }

  lemma SaneAgrees(m: Mem, s: Store, x: Variable)
    requires Agrees(m, s)
    ensures Sane(Declare(s, x))
  {
  }

  lemma AssignNextAgrees(m: Mem, n: Mem, s: Store, x: Variable, k: Key, rhs: Rvalue)
    requires Agrees(m, s) && Ready(n) && DidAssignNext(m, n, x, k, rhs) && Within(s, AssignNext(x, k, rhs))
    ensures Agrees(n, PlainStep(s, AssignNext(x, k, rhs)))
  {
    var o :| GotVar(m, o, Var(x)) && Ready(o)
             && if PushResult(o.cells[o.slots[Var(x)]].value) == Entry then DidStore(o, n, x, k, rhs) else n == o;
    AssignNextVia(m, n, s, x, k, rhs, o);
  }

  lemma AssignNextVia(m: Mem, n: Mem, s: Store, x: Variable, k: Key, rhs: Rvalue, o: Mem)
    requires Agrees(m, s) && Ready(n) && Within(s, AssignNext(x, k, rhs))
    requires GotVar(m, o, Var(x)) && Ready(o)
             && if PushResult(o.cells[o.slots[Var(x)]].value) == Entry then DidStore(o, n, x, k, rhs) else n == o
    ensures Agrees(n, PlainStep(s, AssignNext(x, k, rhs)))
  {
    hide Agrees, Ready, GotVar, DidStore, Reads;
    DeclareAgrees(m, o, s, x);
    var t := Declare(s, x);
    VarThere(o, t, x);
    SharedIsRef(o, t, x);
    if Opens(Of(t, x)) {
      StoredAgrees(o, n, t, x, k, rhs);
    }
  }

  lemma AssignAccessAgrees(m: Mem, n: Mem, s: Store, x: Variable, y: Variable, k: Key)
    requires Agrees(m, s) && Ready(n) && DidAssignAccess(m, n, x, y, k)
    ensures Agrees(n, PlainStep(s, AssignAccess(x, y, k)))
  {
    var o :| GotVar(m, o, Var(x)) && Ready(o)
             && Assigned(o, n, Var(x), LookUp(o, Elem(LookUp(o, Var(y)), k)));
    AssignAccessVia(m, n, s, x, y, k, o);
  }

  lemma AssignAccessVia(m: Mem, n: Mem, s: Store, x: Variable, y: Variable, k: Key, o: Mem)
    requires Agrees(m, s) && Ready(n)
    requires GotVar(m, o, Var(x)) && Ready(o)
             && Assigned(o, n, Var(x), LookUp(o, Elem(LookUp(o, Var(y)), k)))
    ensures Agrees(n, PlainStep(s, AssignAccess(x, y, k)))
  {
    hide Agrees, Ready, GotVar, Assigned, Reads;
    var t := Declare(s, x);
    DeclareAgrees(m, o, s, x);
    VarThere(o, t, x);
    ValueReads(o, t, FromVar(y));
    EntryReading(o, LookUp(o, Var(y)), Of(t, y), k);
    AssignAgrees(o, n, t, x, LookUp(o, Elem(LookUp(o, Var(y)), k)), EntryOf(Of(t, y), k));
  }

  lemma EntryReading(m: Mem, a: Addr, d: Reading, k: Key)
    requires Ready(m) && a in m.cells && Reads(m, a, d)
    ensures LookUp(m, Elem(a, k)) in m.cells && Reads(m, LookUp(m, Elem(a, k)), EntryOf(d, k))
  {
    var e := LookUp(m, Elem(a, k));
    assert Peek(m, a, [k]) == d([k]);
    if Elem(a, k) in m.slots {
      assert IsArray(m, a);
      assert Peek(m, a, [k]) == Peek(m, e, [k][1..]) == Peek(m, e, []);
      forall path ensures Peek(m, e, path) == EntryOf(d, k)(path) {
        assert Peek(m, a, [k] + path) == d([k] + path);
        assert ([k] + path)[1..] == path;
      }
    }
  }

  /** Each statement takes agreeing memories to agreeing memories. */
  lemma StepAgrees(m: Mem, n: Mem, s: Store, st: Stmt)
    requires Agrees(m, s) && Ready(m) && Ready(n) && Step(m, st, n) && Within(s, st) && !Spreads(m, st)
    ensures Agrees(n, PlainStep(s, st))
  {
    hide Agrees, Ready, DidAssignVar, DidAssignCast, DidAssignRef, DidUnsetVar, DidAssignArray, DidAssignNext;
    hide DidAssignAccess, DidUnsetElem, Fits, Spreads;
    match st
    case AssignVar(x, rhs) => AssignVarAgrees(m, n, s, x, rhs);
    case AssignCast(x, rhs, kind, conv) => AssignCastAgrees(m, n, s, x, rhs, kind, conv);
    case AssignRef(x, y) => AssignRefAgrees(m, n, s, x, y);
    case UnsetVar(x) => UnsetVarAgrees(m, n, s, x);
    case AssignArray(x, k, rhs) => AssignArrayAgrees(m, n, s, x, k, rhs);
    case AssignNext(x, k, rhs) => AssignNextAgrees(m, n, s, x, k, rhs);
    case AssignAccess(x, y, k) => AssignAccessAgrees(m, n, s, x, y, k);
    case UnsetElem(x, path, k) => UnsetExactly(m, n, s, x, path, k);
    case AssignArrayRef(_, _, _) =>
    case AssignNextRef(_, _, _) =>
    case AssignRefAccess(_, _, _) =>
  }

  lemma UnsetVarAgrees(m: Mem, n: Mem, s: Store, x: Variable)
    requires Agrees(m, s) && Ready(n) && DidUnsetVar(m, n, x)
    ensures Agrees(n, PlainStep(s, UnsetVar(x)))
  {
    hide Agrees, Ready, Removed;
    UnsetAgrees(m, n, s, x);
  }

  // ---------------------------------------------------------------------------------------
  // Runs
  // ---------------------------------------------------------------------------------------

  ghost function PlainRun(s: Store, program: seq<Stmt>): Store
    decreases |program|
  {
    if program == [] then s else PlainRun(PlainStep(s, program[0]), program[1..])
  }

  ghost predicate AllWithin(s: Store, program: seq<Stmt>)
    decreases |program|
  {
    program != [] ==> Within(s, program[0]) && AllWithin(PlainStep(s, program[0]), program[1..])
  }

  /** The engine at start-up agrees with the empty store. */
  lemma StartAgrees(m: Mem)
    requires m == Mem(map[0 := Zval(1, false, Plain(Null))], map[UNINIT := 0], 1)
    ensures Agrees(m, Store(map[], map[], 0, map[0 := Null])) && Finite(Store(map[], map[], 0, map[0 := Null]))
  {
    assert Holders(m.slots, 0) == {UNINIT};
  }

  /** Refinement: after a whole program every variable is in the class, and reads the value, that
      the plain machine gives it. */
  lemma {:induction false} RunRefines(ms: seq<Mem>, program: seq<Stmt>, s: Store)
    requires Run(ms, program) && Agrees(ms[0], s) && AllWithin(s, program)
    requires forall i :: 0 <= i < |program| ==> !Spreads(ms[i], program[i])
    ensures Agrees(ms[|program|], PlainRun(s, program))
    decreases |program|
  {
    hide Agrees, Ready, Step, Within, PlainStep, Spreads;
    if program != [] {
      StepAgrees(ms[0], ms[1], s, program[0]);
      RunRefines(ms[1..], program[1..], PlainStep(s, program[0]));
    }
  }

  /** What agreement says of two variables after a run. */
  lemma RunReads(ms: seq<Mem>, program: seq<Stmt>, s: Store, v: Variable, w: Variable, path: seq<Key>)
    requires Run(ms, program) && Agrees(ms[0], s) && AllWithin(s, program)
    requires forall i :: 0 <= i < |program| ==> !Spreads(ms[i], program[i])
    requires v in PlainRun(s, program).cls && w in PlainRun(s, program).cls
    ensures var n, t := ms[|program|], PlainRun(s, program);
      && Var(v) in n.slots && Var(w) in n.slots
      && Peek(n, n.slots[Var(v)], path) == Of(t, v)(path)
      && (t.cls[v] == t.cls[w] <==> Aliased(n, v, w))
  {
    RunRefines(ms, program, s);
    var n, t := ms[|program|], PlainRun(s, program);
    VarThere(n, t, v);
    VarThere(n, t, w);
  }

  // ---------------------------------------------------------------------------------------
  // When $x[k] = $y keeps the plain meaning
  // ---------------------------------------------------------------------------------------

  lemma PutFinite(s: Store, x: Variable, d: Reading, b: nat)
    requires Finite(s) && x in s.cls && Bounded(d, b)
    ensures Finite(Put(s, x, d))
  {
  }

  lemma WithKeyBounded(d: Reading, k: Key, v: Reading, bd: nat, bv: nat)
    requires Bounded(d, bd) && Bounded(v, bv)
    ensures Bounded(WithKey(d, k, v), bd + bv + 1)
  {
  }

  lemma EntryBounded(d: Reading, k: Key, b: nat)
    requires Bounded(d, b)
    ensures Bounded(EntryOf(d, k), b + 1)
  {
  }

  lemma CastBounded(d: Reading, kind: Kind, conv: Conversions, b: nat)
    requires Bounded(d, b)
    ensures Bounded(CastOf(d, kind, conv), b + 3)
  {
    WithKeyBounded(NoEntries(), Index(0), LeafOf(match d([]) case Leaf(s) => s case _ => Null), 1, 1);
  }

  /** The plain machine never builds a value that nests for ever. */
  lemma StepFinite(s: Store, st: Stmt)
    requires Finite(s)
    ensures Finite(PlainStep(s, st))
  {
    if !st.UnsetVar? && !st.AssignArrayRef? && !st.AssignNextRef? && !st.AssignRefAccess? {
      var t := Declare(s, st.x);
      DeclareFinite(s, st.x);
      var bx := ValueBounded(t, FromVar(st.x));
      hide Finite, Bounded, WithKey, EntryOf, CastOf, Without;
      match st
      case AssignVar(x, rhs) =>
        var b := ValueBounded(t, rhs);
        PutFinite(t, x, ValueOf(t, rhs), b);
      case AssignCast(x, rhs, kind, conv) =>
        var b := ValueBounded(t, rhs);
        CastBounded(ValueOf(t, rhs), kind, conv, b);
        PutFinite(t, x, CastOf(ValueOf(t, rhs), kind, conv), b + 3);
      case AssignRef(x, y) =>
        RefFinite(s, x, y);
      case AssignArray(x, k, rhs) =>
        StoreFinite(t, x, k, rhs);
      case AssignNext(x, k, rhs) =>
        StoreFinite(t, x, k, rhs);
      case AssignAccess(x, y, k) =>
        var b := ValueBounded(t, FromVar(y));
        EntryBounded(Of(t, y), k, b);
        PutFinite(t, x, EntryOf(Of(t, y), k), b + 1);
      case UnsetElem(x, path, k) =>
        WithoutBounded(Of(t, x), path + [k], bx);
        PutFinite(t, x, Without(Of(t, x), path + [k]), bx);
    }
  }

  lemma WithoutBounded(d: Reading, chain: seq<Key>, b: nat)
    requires Bounded(d, b)
    ensures Bounded(Without(d, chain), b)
  {
  }

  lemma RefFinite(s: Store, x: Variable, y: Variable)
    requires Finite(s)
    ensures Finite(PlainStep(s, AssignRef(x, y)))
  {
    DeclareFinite(s, x);
    DeclareFinite(Declare(s, x), y);
  }

  lemma StoreFinite(t: Store, x: Variable, k: Key, rhs: Rvalue)
    requires Finite(t) && x in t.cls
    ensures Finite(Put(t, x, WithKey(AsTable(Of(t, x)), k, ValueOf(t, rhs))))
  {
    var bx := ValueBounded(t, FromVar(x));
    var b := ValueBounded(t, rhs);
    assert Bounded(AsTable(Of(t, x)), bx + 1);
    WithKeyBounded(AsTable(Of(t, x)), k, ValueOf(t, rhs), bx + 1, b);
    PutFinite(t, x, WithKey(AsTable(Of(t, x)), k, ValueOf(t, rhs)), bx + 1 + b + 1);
  }

  /** A `$x[k] = $y` that gets through keeps the plain meaning exactly when `$y` is outside the class of
      `$x`, or `$x` is no array and cannot become one, or the class is a reference set whose array has
      the entry. */
  lemma AssignArrayExactly(m: Mem, n: Mem, s: Store, x: Variable, k: Key, rhs: Rvalue)
    requires Agrees(m, s) && Ready(m) && Ready(n) && Step(m, AssignArray(x, k, rhs), n) && Finite(s)
    ensures Agrees(n, PlainStep(s, AssignArray(x, k, rhs))) <==> Within(s, AssignArray(x, k, rhs))
  {
    if Within(s, AssignArray(x, k, rhs)) {
      AssignArrayAgrees(m, n, s, x, k, rhs);
    } else {
      SelfStoreDisagrees(m, n, s, x, k, rhs);
    }
  }

  lemma SelfStoreDisagrees(m: Mem, n: Mem, s: Store, x: Variable, k: Key, rhs: Rvalue)
    requires Agrees(m, s) && Ready(n) && DidAssignArray(m, n, x, k, rhs) && Finite(s)
    requires !Within(s, AssignArray(x, k, rhs))
    ensures !Agrees(n, PlainStep(s, AssignArray(x, k, rhs)))
  {
    var o :| DidOpenArray(m, o, x) && Ready(o) && Var(x) in o.slots
                && if IsArray(o, o.slots[Var(x)]) then DidStore(o, n, x, k, rhs) else n == o;
    var t := Declare(s, x);
    var u := if FalsyLeaf(Of(t, x)([])) then Put(t, x, NoEntries()) else t;
    OpenedAgrees(m, o, s, x);
    VarThere(o, u, x);
    DeclaredReading(m, s, x, k);
    DeclareFinite(s, x);
    SelfStoreFrom(o, n, t, u, x, k, rhs);
  }

  /** A declared scalar has no entries. */
  lemma DeclaredReading(m: Mem, s: Store, x: Variable, k: Key)
    requires Agrees(m, s)
    ensures Of(Declare(s, x), x)([]).Leaf? ==> Of(Declare(s, x), x)([k]) == Missing
  {
    if x in s.cls {
      VarThere(m, s, x);
      assert Peek(m, m.slots[Var(x)], [k]) == Of(s, x)([k]);
    }
  }

  lemma SelfStoreFrom(o: Mem, n: Mem, t: Store, u: Store, x: Variable, k: Key, rhs: Rvalue)
    requires x in t.cls && Opens(Of(t, x)) && !StoreWithin(t, x, k, rhs) && Finite(t)
    requires u == t || (FalsyLeaf(Of(t, x)([])) && u == Put(t, x, NoEntries()))
    requires Agrees(o, u) && Ready(n) && Var(x) in o.slots && DidStore(o, n, x, k, rhs)
    requires Of(t, x)([]).Leaf? ==> Of(t, x)([k]) == Missing
    requires x in u.cls && (IsArray(o, o.slots[Var(x)]) || !IsRef(o, o.slots[Var(x)]))
    ensures !Agrees(n, Put(t, x, WithKey(AsTable(Of(t, x)), k, ValueOf(t, rhs))))
  {
    hide CellsCounted, TablesOwned, NoDangling, Agrees;
    var q :| Ready(q) && Var(x) in q.slots && EntryGot(o, q, Var(x), k)
             && Assigned(q, n, Elem(q.slots[Var(x)], k), LookUp(q, SlotOf(rhs)));
    SelfStoreVia(o, q, n, t, u, x, k, rhs);
  }

  lemma AgreesPlain(m: Mem, s: Store)
    requires Agrees(m, s)
    ensures Ready(m) && ElemsPlain(m)
  {
  }

  lemma SelfStoreVia(o: Mem, q: Mem, n: Mem, t: Store, u: Store, x: Variable, k: Key, rhs: Rvalue)
    requires x in t.cls && Opens(Of(t, x)) && !StoreWithin(t, x, k, rhs) && Finite(t)
    requires u == t || (FalsyLeaf(Of(t, x)([])) && u == Put(t, x, NoEntries()))
    requires Agrees(o, u) && Ready(n) && Var(x) in o.slots && Ready(q) && Var(x) in q.slots
    requires EntryGot(o, q, Var(x), k) && Assigned(q, n, Elem(q.slots[Var(x)], k), LookUp(q, SlotOf(rhs)))
    requires Of(t, x)([]).Leaf? ==> Of(t, x)([k]) == Missing
    requires x in u.cls && (IsArray(o, o.slots[Var(x)]) || !IsRef(o, o.slots[Var(x)]))
    ensures !Agrees(n, Put(t, x, WithKey(AsTable(Of(t, x)), k, ValueOf(t, rhs))))
  {
    hide Agrees, Ready, EntryGot, Assigned, Finite, Reads;
    var w := Put(u, x, Opened(Of(u, x), k));
    VarThere(o, u, x);
    EntryAgrees(o, q, u, x, k);
    EntryWritable(o, q, Var(x), k);
    OwnCell(q, w, x, rhs);
    SharedSame(t, w, x);
    SharedIsRef(q, w, x);
    if Shared(t, x) {
      SharedSelfStore(q, n, t, w, x, k, rhs);
    } else {
      var b := ValueBounded(t, FromVar(x));
      AgreesPlain(q, w);
      LoneSelfStore(q, n, t, x, k, rhs, b);
    }
  }

  /** Through a reference set, the copy stored has the entry that get_ht_entry just added. */
  lemma SharedSelfStore(q: Mem, n: Mem, t: Store, w: Store, x: Variable, k: Key, rhs: Rvalue)
    requires x in t.cls && x in w.cls && SelfStore(t, x, rhs) && Agrees(q, w) && Ready(n)
    requires Of(w, x) == Opened(AsTable(Of(t, x)), k) || Of(w, x) == Opened(Of(t, x), k)
    requires AsTable(Of(t, x))([k]) == Missing && Of(t, x)([k]) == Missing
    requires Writable(q, Var(x)) && Elem(q.slots[Var(x)], k) in q.slots && IsRef(q, q.slots[Var(x)])
    requires LookUp(q, SlotOf(rhs)) == q.slots[Var(x)]
    requires Assigned(q, n, Elem(q.slots[Var(x)], k), q.slots[Var(x)])
    ensures !Agrees(n, Put(t, x, WithKey(AsTable(Of(t, x)), k, ValueOf(t, rhs))))
  {
    var e := WithKey(AsTable(Of(t, x)), k, ValueOf(t, rhs));
    VarThere(q, w, x);
    StoreAgrees(q, n, w, x, k, q.slots[Var(x)], Of(w, x));
    var z := Put(w, x, WithKey(Of(w, x), k, Of(w, x)));
    VarThere(n, z, x);
    assert Peek(n, n.slots[Var(x)], [k, k]) == Of(z, x)([k, k]);
    assert [k, k][1..] == [k];
    if Agrees(n, Put(t, x, e)) {
      VarThere(n, Put(t, x, e), x);
    }
  }

  function Repeat(k: Key, i: nat): (path: seq<Key>)
    ensures |path| == i && forall j :: 0 <= j < i ==> path[j] == k
  {
    seq(i, j => k)
  }

  /** Outside any reference set, the array contains itself. */
  lemma LoneSelfStore(q: Mem, n: Mem, t: Store, x: Variable, k: Key, rhs: Rvalue, b: nat)
    requires x in t.cls && SelfStore(t, x, rhs) && Ready(q) && ElemsPlain(q) && Ready(n) && Bounded(Of(t, x), b)
    requires Writable(q, Var(x)) && Elem(q.slots[Var(x)], k) in q.slots && !IsRef(q, q.slots[Var(x)])
    requires Assigned(q, n, Elem(q.slots[Var(x)], k), q.slots[Var(x)])
    ensures !Agrees(n, Put(t, x, WithKey(AsTable(Of(t, x)), k, ValueOf(t, rhs))))
  {
    var e := WithKey(AsTable(Of(t, x)), k, ValueOf(t, rhs));
    var c := q.slots[Var(x)];
    var path := [k] + Repeat(k, b);
    LoneReading(t, x, k, rhs, b);
    TouchableApart(q, x, c);
    SelfStoreKeeps(q, n, x, Elem(c, k));
    SelfStoreIsCyclic(q, n, Elem(c, k), c, path);
    hide Agrees, Assigned, Ready, Bounded, WithKey;
    assert Peek(n, c, path) != e(path);
    if Agrees(n, Put(t, x, e)) {
      VarThere(n, Put(t, x, e), x);
    }
  }

  lemma LoneReading(t: Store, x: Variable, k: Key, rhs: Rvalue, b: nat)
    requires x in t.cls && SelfStore(t, x, rhs) && Bounded(Of(t, x), b)
    ensures WithKey(AsTable(Of(t, x)), k, ValueOf(t, rhs))([k] + Repeat(k, b)) != Table
  {
    assert ([k] + Repeat(k, b))[1..] == Repeat(k, b);
  }

  lemma SelfStoreKeeps(q: Mem, n: Mem, x: Variable, l: Slot)
    requires Ready(q) && Ready(n) && Var(x) in q.slots && l in q.slots && l.Elem? && l.owner == q.slots[Var(x)]
    requires !IsRef(q, q.slots[Var(x)]) && !IsRef(q, q.slots[l]) && Assigned(q, n, l, q.slots[Var(x)])
    ensures Var(x) in n.slots && n.slots[Var(x)] == q.slots[Var(x)]
  {
    hide CellsCounted, TablesOwned;
    assert Anchored(n, {}, Var(x));
  }

  /** A `$x[] = $y` that gets through keeps the plain meaning exactly when the store does and no reference
      set is left. */
  lemma AssignNextExactly(m: Mem, n: Mem, s: Store, x: Variable, k: Key, rhs: Rvalue)
    requires Agrees(m, s) && Ready(m) && Ready(n) && Step(m, AssignNext(x, k, rhs), n) && Finite(s)
    ensures Agrees(n, PlainStep(s, AssignNext(x, k, rhs))) <==> Within(s, AssignNext(x, k, rhs))
  {
    if Within(s, AssignNext(x, k, rhs)) {
      AssignNextAgrees(m, n, s, x, k, rhs);
    } else {
      var o :| GotVar(m, o, Var(x)) && Ready(o)
               && if PushResult(o.cells[o.slots[Var(x)]].value) == Entry then DidStore(o, n, x, k, rhs) else n == o;
      PushDisagrees(m, o, n, s, x, k, rhs);
    }
  }

  lemma PushDisagrees(m: Mem, o: Mem, n: Mem, s: Store, x: Variable, k: Key, rhs: Rvalue)
    requires Agrees(m, s) && Ready(n) && !Within(s, AssignNext(x, k, rhs)) && Finite(s)
    requires GotVar(m, o, Var(x)) && Ready(o)
             && if PushResult(o.cells[o.slots[Var(x)]].value) == Entry then DidStore(o, n, x, k, rhs) else n == o
    ensures !Agrees(n, PlainStep(s, AssignNext(x, k, rhs)))
  {
    hide Agrees, Ready, GotVar, DidStore, Reads, Finite, StoreWithin;
    var t := Declare(s, x);
    DeclareAgrees(m, o, s, x);
    DeclareFinite(s, x);
    VarThere(o, t, x);
    SharedIsRef(o, t, x);
    DeclaredReading(m, s, x, k);
    if FalsyLeaf(Of(t, x)([])) && Shared(t, x) {
      PushLeaves(o, n, t, x, k, rhs, WithKey(AsTable(Of(t, x)), k, ValueOf(t, rhs)));
    } else {
      SelfStoreFrom(o, n, t, t, x, k, rhs);
    }
  }

  /** A push onto a scalar of a reference set takes the variable out of the set. */
  lemma PushLeaves(o: Mem, n: Mem, t: Store, x: Variable, k: Key, rhs: Rvalue, e: Reading)
    requires Agrees(o, t) && x in t.cls && Shared(t, x) && Ready(n) && Var(x) in o.slots
    requires DidStore(o, n, x, k, rhs) && !IsArray(o, o.slots[Var(x)])
    ensures !Agrees(n, Put(t, x, e))
  {
    hide CellsCounted, TablesOwned, NoDangling;
    var q :| Ready(q) && Var(x) in q.slots && EntryGot(o, q, Var(x), k)
             && Assigned(q, n, Elem(q.slots[Var(x)], k), LookUp(q, SlotOf(rhs)));
    PushedCell(o, q, n, x, k, LookUp(q, SlotOf(rhs)));
    StoreIsolates(o, n, x, k, rhs);
    PushedApart(o, n, t, x, e);
  }

  lemma PushedApart(o: Mem, n: Mem, t: Store, x: Variable, e: Reading)
    requires Agrees(o, t) && x in t.cls && Shared(t, x) && Var(x) in n.slots && n.slots[Var(x)] == o.next
    requires RootsKept(o, n, {Var(x)})
    ensures !Agrees(n, Put(t, x, e))
  {
    var w :| w != x && w in t.cls && t.cls[w] == t.cls[x];
    VarThere(o, t, w);
    assert n.slots[Var(w)] == o.slots[Var(w)] < o.next;
    assert !Aliased(n, w, x) && Put(t, x, e).cls[w] == Put(t, x, e).cls[x];
  }

  lemma PushedCell(o: Mem, q: Mem, n: Mem, x: Variable, k: Key, r: Addr)
    requires Ready(o) && Ready(q) && Ready(n) && Var(x) in o.slots && !IsArray(o, o.slots[Var(x)])
    requires Var(x) in q.slots && EntryGot(o, q, Var(x), k) && Assigned(q, n, Elem(q.slots[Var(x)], k), r)
    ensures Var(x) in n.slots && n.slots[Var(x)] == o.next
  {
    hide CellsCounted, TablesOwned;
    var c := q.slots[Var(x)];
    assert c == o.next;
    var l := Elem(c, k);
    assert q.slots[l] == LookUp(o, Elem(o.slots[Var(x)], k));
    assert Anchored(n, {}, Var(x)) && Anchored(n, {q.slots[l]}, Var(x));
  }

  /** Apart from references to array entries, a statement that gets through keeps the plain meaning
      exactly within the condition on the plain store, and if it is no nested unset that shows. */
  lemma StepExactly(m: Mem, n: Mem, s: Store, st: Stmt)
    requires Agrees(m, s) && Ready(m) && Ready(n) && Finite(s) && Step(m, st, n) && !OfEntry(st)
    ensures Agrees(n, PlainStep(s, st)) <==> Within(s, st) && !Spreads(m, st)
  {
    hide Agrees, Ready, Finite, PlainStep, DidAssignVar, DidAssignCast, DidAssignRef, DidUnsetVar, DidAssignArray;
    hide DidAssignNext, DidAssignAccess, DidUnsetElem, Fits;
    match st
    case AssignArray(x, k, rhs) => AssignArrayExactly(m, n, s, x, k, rhs);
    case AssignNext(x, k, rhs) => AssignNextExactly(m, n, s, x, k, rhs);
    case UnsetElem(x, path, k) => UnsetExactly(m, n, s, x, path, k);
    case _ => StepAgrees(m, n, s, st);
  }

  /** A reference to or of an array entry. */
  predicate OfEntry(st: Stmt) {
    st.AssignArrayRef? || st.AssignNextRef? || st.AssignRefAccess?
  }
}
