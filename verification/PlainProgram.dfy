/**
 Whole programs, run from the engine's start: literals enter the pool, the statements follow, and the
 memory agrees with the plain machine.
*/
module PlainProgram {
  import opened ZvalHeap
  import opened ZvalFrame
  import opened ZvalSteps
  import opened ZvalRuntime
  import opened PhpStatements
  import opened PhpProgram
  import opened PlainStore
  import opened PlainUnset
  import opened PlainRuns

  /** The pool of a program: NULL for the uninitialised cell, then the literals. */
  function PoolOf(literals: seq<Scalar>): (pool: map<nat, Scalar>)
    ensures forall i: nat :: i in pool <==> i <= |literals|
    ensures forall i: nat :: i in pool ==> pool[i] == if i == 0 then Null else literals[i - 1]
  {
    if literals == [] then map[0 := Null]
    else PoolOf(literals[..|literals| - 1])[|literals| := literals[|literals| - 1]]
  }

  function StartStore(literals: seq<Scalar>): Store {
    Store(map[], map[], 0, PoolOf(literals))
  }

  /** A literal in the pool changes nothing else that the plain machine knows. */
  lemma InternAgrees(m: Mem, s: Store, id: nat, literal: Scalar)
    requires Agrees(m, s) && Fixed(id) !in m.slots
    ensures Agrees(Born(m, Fixed(id), Plain(literal)), s.(lits := s.lits[id := literal]))
  {
    var n, t := Born(m, Fixed(id), Plain(literal)), s.(lits := s.lits[id := literal]);
    BornKept(m, Fixed(id), Plain(literal));
    InternReady(m, n, s, t, id);
    InternClasses(m, n, s, t, id);
    InternValues(m, n, s, t, id);
    hide Ready, ElemsPlain, SameValues, SameClasses;
    InternPool(m, n, s, t, id, literal);
  }

  lemma InternReady(m: Mem, n: Mem, s: Store, t: Store, id: nat)
    requires Ready(m) && ElemsPlain(m) && WF(n, {}) && Fixed(id) !in m.slots && n.slots == m.slots[Fixed(id) := m.next]
    requires Kept(m, n, {Fixed(id)}, {}) && SameVars(m, s) && t.cls == s.cls
    ensures Ready(n) && ElemsPlain(n) && SameVars(n, t)
  {
    hide CellsCounted, TablesOwned;
    assert Anchored(n, {}, UNINIT);
  }

  lemma InternClasses(m: Mem, n: Mem, s: Store, t: Store, id: nat)
    requires NoDangling(m) && NoDangling(n) && Kept(m, n, {Fixed(id)}, {})
    requires SameVars(m, s) && SameClasses(m, s) && t.cls == s.cls && SameVars(n, t)
    ensures SameClasses(n, t)
  {
    forall v, w | v in t.cls && w in t.cls ensures t.cls[v] == t.cls[w] <==> Aliased(n, v, w) {
      assert s.cls[v] == s.cls[w] <==> Aliased(m, v, w);
      assert Anchored(n, {}, Var(v)) && Anchored(n, {}, Var(w));
      if v != w {
        PairKept(m, n, {Fixed(id)}, {}, v, w);
      }
    }
  }

  lemma InternPool(m: Mem, n: Mem, s: Store, t: Store, id: nat, literal: Scalar)
    requires NoDangling(m) && CellsCounted(m) && SamePool(m, s) && Fixed(id) !in m.slots
    requires n == Born(m, Fixed(id), Plain(literal)) && t.lits == s.lits[id := literal]
    ensures SamePool(n, t)
  {
  }

  lemma InternRoot(m: Mem, n: Mem, id: nat, v: Variable)
    requires WF(m, {}) && WF(n, {}) && Kept(m, n, {Fixed(id)}, {}) && Var(v) in m.slots
    ensures Var(v) in n.slots && n.slots[Var(v)] == m.slots[Var(v)] && m.slots[Var(v)] in m.cells
    ensures m.slots[Var(v)] in n.cells
  {
    hide CellsCounted, TablesOwned;
    assert Anchored(n, {}, Var(v));
  }

  lemma InternValues(m: Mem, n: Mem, s: Store, t: Store, id: nat)
    requires WF(m, {}) && WF(n, {}) && SameVars(m, s) && SameValues(m, s) && Kept(m, n, {Fixed(id)}, {})
    requires t.cls == s.cls && t.val == s.val && SameVars(n, t)
    ensures SameValues(n, t)
  {
    hide WF, Kept, Reads;
    NextFree(m);
    forall v | v in t.cls ensures t.cls[v] in t.val && Reads(n, n.slots[Var(v)], t.val[t.cls[v]]) {
      InternRoot(m, n, id, v);
      assert Reads(m, m.slots[Var(v)], s.val[s.cls[v]]);
      ReadsOn(m, n, {Fixed(id)}, {}, m.next, m.slots[Var(v)], s.val[s.cls[v]]);
    }
  }

  /** The start of a program: the engine, then its literals. */
  method Start(literals: seq<Scalar>) returns (rt: Runtime)
    ensures fresh(rt) && Ready(rt.M()) && Agrees(rt.M(), StartStore(literals)) && Finite(StartStore(literals))
  {
    rt := new Runtime();
    StartAgrees(rt.M());
    var i := 0;
    assert StartStore(literals[..0]) == Store(map[], map[], 0, map[0 := Null]);
    hide Agrees, Ready;
    while i < |literals|
      invariant 0 <= i <= |literals| && fresh(rt)
      invariant Ready(rt.M()) && Agrees(rt.M(), StartStore(literals[..i]))
    {
      ghost var m := rt.M();
      NextLiteral(m, literals, i);
      InternAgrees(m, StartStore(literals[..i]), i + 1, literals[i]);
      Intern(rt, i + 1, literals[i]);
      i := i + 1;
    }
    assert literals[..i] == literals;
  }

  lemma NextLiteral(m: Mem, literals: seq<Scalar>, i: nat)
    requires i < |literals| && Agrees(m, StartStore(literals[..i]))
    ensures Fixed(i + 1) !in m.slots
    ensures PoolOf(literals[..i + 1]) == PoolOf(literals[..i])[i + 1 := literals[i]]
  {
    hide Ready, ElemsPlain, SameVars, SameValues, SameClasses;
    assert i + 1 !in PoolOf(literals[..i]);
  }

  /** One statement, run.  It gets through and keeps the plain meaning exactly when it fits the memory,
      stays within the condition on the plain store, and shows nowhere else. */
  method DoPlainly(rt: Runtime, st: Stmt, ghost s: Store) returns (ok: bool)
    requires Ready(rt.M()) && Agrees(rt.M(), s) && Finite(s) && !OfEntry(st)
    modifies rt
    ensures ok && Agrees(rt.M(), PlainStep(s, st)) <==>
            old(Fits(rt.M(), st) && !Spreads(rt.M(), st)) && Within(s, st)
  {
    hide Agrees, Finite, Fits, Spreads, Within, PlainStep, Step;
    ghost var m := rt.M();
    ok := Do(rt, st);
    if ok {
      StepExactly(m, rt.M(), s, st);
    }
  }

  /** A program from the engine's start: as far as it gets through, within the conditions, the memory
      agrees with what the plain machine computes. */
  method RunProgram(literals: seq<Scalar>, program: seq<Stmt>)
    returns (rt: Runtime, done: nat, ghost trace: seq<Mem>)
    ensures done <= |program| && Run(trace, program[..done]) && Agrees(trace[0], StartStore(literals))
    ensures done < |program| ==> !Fits(trace[done], program[done])
    ensures done == |program| ==> trace[done] == rt.M()
    ensures AllWithin(StartStore(literals), program[..done])
            && (forall i :: 0 <= i < done ==> !Spreads(trace[i], program[i]))
            ==> Agrees(trace[done], PlainRun(StartStore(literals), program[..done]))
  {
    hide Agrees, Fits, Spreads, Within, PlainStep, Step, Ready;
    rt := Start(literals);
    done, trace := Execute(rt, program);
    if AllWithin(StartStore(literals), program[..done])
       && (forall i :: 0 <= i < done ==> !Spreads(trace[i], program[i])) {
      RunRefines(trace, program[..done], StartStore(literals));
    }
  }
}
