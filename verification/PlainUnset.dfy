/**
 unset ($x[i]...[k]) and the plain meaning.  The arrays on the way are not separated, so what goes is
 the entry of one array, wherever that is reached from.
*/
module PlainUnset {
  import opened ZvalHeap
  import opened ZvalFrame
  import opened ZvalSteps
  import opened PhpStatements
  import opened PlainStore

  /** `$v` is `$x` or in its reference set. */
  ghost predicate SameSet(m: Mem, v: Variable, x: Variable)
    requires Var(v) in m.slots
  {
    v == x || (Var(x) in m.slots && Aliased(m, v, x))
  }

  /** The array `d` is reached otherwise than by `path` from the reference set of `$x`. */
  ghost predicate ReachedElse(m: Mem, x: Variable, path: seq<Key>, d: Addr) {
    exists v, u :: Var(v) in m.slots && Reaches(m, m.slots[Var(v)], u, d) && !(SameSet(m, v, x) && u == path)
  }

  /** The array is there, with the entry, and reached otherwise too. */
  ghost predicate Shows(m: Mem, x: Variable, path: seq<Key>, d: Addr, k: Key) {
    IsArray(m, d) && Elem(d, k) in m.slots && ReachedElse(m, x, path, d)
  }

  /** The memories in which a nested unset shows elsewhere. */
  ghost predicate Spreads(m: Mem, st: Stmt)
    requires Ready(m)
  {
    st.UnsetElem? && st.path != [] && Shows(m, st.x, st.path, Inner(m, LookUp(m, Var(st.x)), st.path), st.k)
  }

  // ---------------------------------------------------------------------------------------
  // Reading after the removal
  // ---------------------------------------------------------------------------------------

  /** The chain `q` from `a` uses the entry for `k` of `d`. */
  ghost predicate Passes(m: Mem, a: Addr, q: seq<Key>, d: Addr, k: Key)
    decreases |q|
  {
    && q != [] && Elem(a, q[0]) in m.slots
    && ((a == d && q[0] == k) || Passes(m, m.slots[Elem(a, q[0])], q[1..], d, k))
  }

  lemma {:induction false} RemovedReads(p: Mem, n: Mem, d: Addr, k: Key, a: Addr, q: seq<Key>)
    requires WF(p, {}) && WF(n, {}) && Removed(p, n, Elem(d, k)) && a in p.cells && a in n.cells
    ensures Peek(n, a, q) == if Passes(p, a, q, d, k) then Missing else Peek(p, a, q)
    decreases |q|
  {
    hide CellsCounted, TablesOwned;
    if q != [] {
      var e := Elem(a, q[0]);
      assert Anchored(n, {}, e);
      Below(p, a);
      if e in p.slots && e != Elem(d, k) {
        RemovedReads(p, n, d, k, p.slots[e], q[1..]);
      }
      if e in p.slots {
        EntryOwner(p, e);
      }
    }
  }

  lemma {:induction false} ReachPasses(m: Mem, a: Addr, u: seq<Key>, d: Addr, k: Key, rest: seq<Key>)
    requires Reaches(m, a, u, d) && Elem(d, k) in m.slots
    ensures Passes(m, a, u + [k] + rest, d, k)
    decreases |u|
  {
    var q := u + [k] + rest;
    if u != [] {
      assert q[0] == u[0] && q[1..] == u[1..] + [k] + rest;
      ReachPasses(m, m.slots[Elem(a, u[0])], u[1..], d, k, rest);
    }
  }

  lemma {:induction false} PassReaches(m: Mem, a: Addr, q: seq<Key>, d: Addr, k: Key) returns (u: seq<Key>)
    requires Passes(m, a, q, d, k)
    ensures Reaches(m, a, u, d) && u + [k] <= q
    decreases |q|
  {
    if a == d && q[0] == k {
      u := [];
    } else {
      var rest := PassReaches(m, m.slots[Elem(a, q[0])], q[1..], d, k);
      u := [q[0]] + rest;
      assert u[1..] == rest && u + [k] == [q[0]] + (rest + [k]) && q == [q[0]] + q[1..];
    }
  }

  lemma {:induction false} ReachTable(m: Mem, a: Addr, u: seq<Key>, d: Addr, q: seq<Key>)
    requires WF(m, {}) && Reaches(m, a, u, d) && a in m.cells
    ensures Peek(m, a, u + q) == Peek(m, d, q)
    decreases |u|
  {
    if u == [] {
      assert u + q == q;
    } else {
      assert (u + q)[0] == u[0] && (u + q)[1..] == u[1..] + q;
      EntryOwner(m, Elem(a, u[0]));
      ReachTable(m, m.slots[Elem(a, u[0])], u[1..], d, q);
    }
  }

  /** The walk over the indices goes along the chain while there are arrays. */
  lemma {:induction false} InnerReaches(m: Mem, a: Addr, path: seq<Key>)
    requires Ready(m) && a in m.cells && IsArray(m, Inner(m, a, path))
    ensures Reaches(m, a, path, Inner(m, a, path))
    decreases |path|
  {
    hide CellsCounted, TablesOwned;
    if path != [] {
      if !IsArray(m, a) {
        StaysPut(m, a, path);
      } else if Elem(a, path[0]) !in m.slots {
        StaysPut(m, m.slots[UNINIT], path[1..]);
      } else {
        InnerReaches(m, m.slots[Elem(a, path[0])], path[1..]);
      }
    }
  }

  /** Without the entry nothing is read there. */
  lemma {:induction false} NothingThere(m: Mem, a: Addr, path: seq<Key>, k: Key, q: seq<Key>)
    requires Ready(m) && a in m.cells && path + [k] <= q
    requires var d := Inner(m, a, path); !(IsArray(m, d) && Elem(d, k) in m.slots)
    ensures Peek(m, a, q) == Missing
    decreases |path|
  {
    hide CellsCounted, TablesOwned;
    assert q != [] && q[0] == (path + [k])[0];
    if path != [] && IsArray(m, a) && Elem(a, path[0]) in m.slots {
      assert path[1..] + [k] == (path + [k])[1..] <= q[1..];
      NothingThere(m, m.slots[Elem(a, path[0])], path[1..], k, q[1..]);
    }
  }

  // ---------------------------------------------------------------------------------------
  // When the removal agrees
  // ---------------------------------------------------------------------------------------

  lemma ElemsStayPlain(p: Mem, n: Mem, d: Addr, k: Key)
    requires WF(p, {}) && WF(n, {}) && ElemsPlain(p) && Removed(p, n, Elem(d, k))
    ensures ElemsPlain(n)
  {
    hide CellsCounted;
    forall s | s in n.slots && s.Elem? ensures !IsRef(n, n.slots[s]) {
      assert s in p.slots && n.slots[s] == p.slots[s];
    }
  }

  lemma RemovedRoots(p: Mem, n: Mem, e: Slot)
    requires NoDangling(p) && Removed(p, n, e) && e.Elem?
    ensures forall s: Slot :: !s.Elem? ==> (s in n.slots <==> s in p.slots)
    ensures forall s: Slot :: !s.Elem? && s in p.slots ==> n.slots[s] == p.slots[s] && p.slots[s] in p.cells
  {
    forall s: Slot | !s.Elem? ensures s in p.slots ==> s in n.slots && n.slots[s] == p.slots[s] {
      assert Anchored(n, {}, s);
    }
  }

  lemma RemovedClasses(p: Mem, n: Mem, t: Store, e: Slot)
    requires NoDangling(p) && NoDangling(n) && Removed(p, n, e) && e.Elem?
    requires SameVars(p, t) && SameVars(n, t) && SameClasses(p, t)
    ensures SameClasses(n, t)
  {
    RemovedRoots(p, n, e);
    hide SameVars;
    forall v, w | v in t.cls && w in t.cls ensures t.cls[v] == t.cls[w] <==> Aliased(n, v, w) {
      InBoth(p, n, t, v);
      InBoth(p, n, t, w);
      assert t.cls[v] == t.cls[w] <==> Aliased(p, v, w);
      if v != w {
        PairKept(p, n, {e}, {}, v, w);
      }
    }
  }

  lemma InBoth(p: Mem, n: Mem, t: Store, v: Variable)
    requires SameVars(p, t) && SameVars(n, t) && v in t.cls
    ensures Var(v) in p.slots && Var(v) in n.slots
  {
  }

  lemma RemovedFrame(p: Mem, n: Mem, t: Store, d: Addr, k: Key)
    requires Agrees(p, t) && Ready(n) && Removed(p, n, Elem(d, k))
    ensures ElemsPlain(n) && SameVars(n, t) && SamePool(n, t) && SameClasses(n, t)
    ensures forall v :: v in t.cls ==> Var(v) in p.slots && Var(v) in n.slots && p.slots[Var(v)] in p.cells
    ensures forall v :: v in t.cls ==> n.slots[Var(v)] == p.slots[Var(v)]
  {
    hide CellsCounted, TablesOwned, SameValues, SameClasses;
    ElemsStayPlain(p, n, d, k);
    hide ElemsPlain;
    RemovedRoots(p, n, Elem(d, k));
    RemovedClasses(p, n, t, Elem(d, k));
  }

  /** A variable of the class passes the entry exactly along the chain named; others never do. */
  lemma PassesExactly(p: Mem, t: Store, x: Variable, path: seq<Key>, d: Addr, k: Key, v: Variable, q: seq<Key>)
    requires Agrees(p, t) && x in t.cls && v in t.cls && Var(x) in p.slots && Var(v) in p.slots
    requires Reaches(p, p.slots[Var(x)], path, d) && Elem(d, k) in p.slots && !ReachedElse(p, x, path, d)
    ensures Passes(p, p.slots[Var(v)], q, d, k) <==> t.cls[v] == t.cls[x] && path + [k] <= q
  {
    assert t.cls[v] == t.cls[x] <==> Aliased(p, v, x);
    hide Agrees;
    if Passes(p, p.slots[Var(v)], q, d, k) {
      var u := PassReaches(p, p.slots[Var(v)], q, d, k);
    }
    if t.cls[v] == t.cls[x] && path + [k] <= q {
      var rest := q[|path| + 1..];
      assert q == path + [k] + rest;
      ReachPasses(p, p.slots[Var(v)], path, d, k, rest);
    }
  }

  lemma RemoveAgrees(p: Mem, n: Mem, t: Store, x: Variable, path: seq<Key>, d: Addr, k: Key)
    requires Agrees(p, t) && Ready(n) && x in t.cls && Var(x) in p.slots && Removed(p, n, Elem(d, k))
    requires Reaches(p, p.slots[Var(x)], path, d) && Elem(d, k) in p.slots && !ReachedElse(p, x, path, d)
    ensures Agrees(n, Put(t, x, Without(Of(t, x), path + [k])))
  {
    var u := Put(t, x, Without(Of(t, x), path + [k]));
    hide Ready, ElemsPlain, SameClasses, SamePool, Removed, ReachedElse, Without;
    RemovedFrame(p, n, t, d, k);
    forall v | v in u.cls ensures u.cls[v] in u.val && Reads(n, n.slots[Var(v)], u.val[u.cls[v]]) {
      forall q ensures u.cls[v] in u.val && Peek(n, n.slots[Var(v)], q) == u.val[u.cls[v]](q) {
        RemovedAt(p, n, t, x, path, d, k, v, q);
      }
    }
    PutKeeps(n, t, x, Without(Of(t, x), path + [k]));
  }

  lemma PutKeeps(n: Mem, t: Store, x: Variable, d: Reading)
    requires x in t.cls && SameVars(n, t) && SameClasses(n, t) && SamePool(n, t) && Sane(t)
    ensures var u := Put(t, x, d); SameVars(n, u) && SameClasses(n, u) && SamePool(n, u) && Sane(u)
  {
  }

  lemma RemovedAt(p: Mem, n: Mem, t: Store, x: Variable, path: seq<Key>, d: Addr, k: Key, v: Variable, q: seq<Key>)
    requires Agrees(p, t) && Ready(n) && x in t.cls && Var(x) in p.slots && Removed(p, n, Elem(d, k)) && v in t.cls
    requires Reaches(p, p.slots[Var(x)], path, d) && Elem(d, k) in p.slots && !ReachedElse(p, x, path, d)
    ensures var u := Put(t, x, Without(Of(t, x), path + [k]));
      u.cls[v] in u.val && Var(v) in n.slots && Peek(n, n.slots[Var(v)], q) == u.val[u.cls[v]](q)
  {
    VarThere(p, t, v);
    VarThere(p, t, x);
    RemovedFrame(p, n, t, d, k);
    PassesExactly(p, t, x, path, d, k, v, q);
    assert Reads(p, p.slots[Var(v)], t.val[t.cls[v]]) && t.cls[v] in t.val;
    hide ElemsPlain, SameVars, SameClasses, SamePool, Removed, ReachedElse, Sane;
    assert WF(p, {}) && WF(n, {}) && n.slots[Var(v)] in n.cells;
    hide CellsCounted, TablesOwned, NoDangling;
    RemovedReads(p, n, d, k, p.slots[Var(v)], q);
    assert Peek(p, p.slots[Var(v)], q) == t.val[t.cls[v]](q);
  }

  /** A cell reached from itself is reached at every depth. */
  lemma {:induction false} RingReaches(m: Mem, d: Addr, z: seq<Key>, b: nat) returns (u: seq<Key>)
    requires Reaches(m, d, z, d) && z != []
    ensures |u| >= b && Reaches(m, d, u, d)
    decreases b
  {
    if b == 0 {
      u := [];
    } else {
      var rest := RingReaches(m, d, z, b - 1);
      u := z + rest;
      ReachesOn(m, d, z, d, rest, d);
    }
  }

  lemma {:induction false} ReachesOn(m: Mem, a: Addr, u: seq<Key>, b: Addr, w: seq<Key>, c: Addr)
    requires Reaches(m, a, u, b)
    ensures Reaches(m, a, u + w, c) <==> Reaches(m, b, w, c)
    decreases |u|
  {
    if u == [] {
      assert u + w == w;
    } else {
      assert (u + w)[0] == u[0] && (u + w)[1..] == u[1..] + w;
      ReachesOn(m, m.slots[Elem(a, u[0])], u[1..], b, w, c);
    }
  }

  /** A finite value has no ring in it. */
  lemma NoRing(p: Mem, t: Store, x: Variable, path: seq<Key>, d: Addr, z: seq<Key>)
    requires Agrees(p, t) && Finite(t) && x in t.cls && Var(x) in p.slots && IsArray(p, d)
    requires Reaches(p, p.slots[Var(x)], path, d) && z != []
    ensures !Reaches(p, d, z, d)
  {
    VarThere(p, t, x);
    var b := ValueBounded(t, FromVar(x));
    hide Agrees, Finite;
    if Reaches(p, d, z, d) {
      var u := RingReaches(p, d, z, b);
      RingReads(p, p.slots[Var(x)], path, d, u);
    }
    assert forall u :: |u| >= b ==> Peek(p, p.slots[Var(x)], path + u) == Of(t, x)(path + u);
  }

  lemma RingReads(p: Mem, a: Addr, path: seq<Key>, d: Addr, u: seq<Key>)
    requires WF(p, {}) && a in p.cells && Reaches(p, a, path, d) && Reaches(p, d, u, d) && IsArray(p, d)
    ensures Peek(p, a, path + u) == Table
  {
    ReachTable(p, a, path, d, u);
    ReachTable(p, d, u, d, []);
    assert u + [] == u;
  }

  /** Reached by another chain of the same class, the entry is not below the one that goes. */
  lemma ElseApart(p: Mem, t: Store, x: Variable, path: seq<Key>, d: Addr, k: Key, u: seq<Key>)
    requires Agrees(p, t) && Finite(t) && x in t.cls && Var(x) in p.slots && IsArray(p, d)
    requires Reaches(p, p.slots[Var(x)], path, d) && Reaches(p, p.slots[Var(x)], u, d) && u != path
    ensures !(path + [k] <= u + [k])
  {
    if path + [k] <= u + [k] {
      PrefixLonger(path, u, k);
      var z := u[|path|..];
      assert u == path + z;
      NoRing(p, t, x, path, d, z);
      ReachesOn(p, p.slots[Var(x)], path, d, z, d);
    }
  }

  lemma PrefixLonger(path: seq<Key>, u: seq<Key>, k: Key)
    requires path + [k] <= u + [k] && u != path
    ensures |u| > |path| && path <= u
  {
    assert path == (u + [k])[..|path|] == u[..|path|];
  }

  lemma ElseDiffers(p: Mem, n: Mem, t: Store, x: Variable, path: seq<Key>, d: Addr, k: Key, v: Variable, u: seq<Key>)
    requires Agrees(p, t) && Ready(n) && Finite(t) && x in t.cls && Var(x) in p.slots && Removed(p, n, Elem(d, k))
    requires Reaches(p, p.slots[Var(x)], path, d) && IsArray(p, d) && Elem(d, k) in p.slots
    requires Var(v) in p.slots && Reaches(p, p.slots[Var(v)], u, d) && !(SameSet(p, v, x) && u == path)
    ensures v in t.cls && Var(v) in n.slots
    ensures Peek(n, n.slots[Var(v)], u + [k]) != Put(t, x, Without(Of(t, x), path + [k])).val[t.cls[v]](u + [k])
  {
    var q, a := u + [k], p.slots[Var(v)];
    assert v in t.cls;
    VarThere(p, t, v);
    RemovedFrame(p, n, t, d, k);
    assert t.cls[v] == t.cls[x] <==> Aliased(p, v, x);
    if t.cls[v] == t.cls[x] {
      ElseApart(p, t, x, path, d, k, u);
    }
    assert WF(p, {}) && WF(n, {}) && n.slots[Var(v)] in n.cells;
    assert Reads(p, a, t.val[t.cls[v]]) && Peek(p, a, q) == t.val[t.cls[v]](q);
    hide Agrees, Ready, CellsCounted, TablesOwned, Removed;
    ReachPasses(p, a, u, d, k, []);
    assert u + [k] + [] == q;
    RemovedReads(p, n, d, k, a, q);
    ReachTable(p, a, u, d, [k]);
    EntryThere(p, d, k);
  }

  lemma EntryThere(m: Mem, d: Addr, k: Key)
    requires NoDangling(m) && IsArray(m, d) && Elem(d, k) in m.slots
    ensures Peek(m, d, [k]) != Missing
  {
    assert Peek(m, m.slots[Elem(d, k)], []) != Missing;
    assert [k][1..] == [];
  }

  lemma RemoveDisagrees(p: Mem, n: Mem, t: Store, x: Variable, path: seq<Key>, d: Addr, k: Key)
    requires Agrees(p, t) && Ready(n) && Finite(t) && x in t.cls && Var(x) in p.slots && Removed(p, n, Elem(d, k))
    requires Reaches(p, p.slots[Var(x)], path, d) && Shows(p, x, path, d, k)
    ensures !Agrees(n, Put(t, x, Without(Of(t, x), path + [k])))
  {
    var v, u :| Var(v) in p.slots && Reaches(p, p.slots[Var(v)], u, d) && !(SameSet(p, v, x) && u == path);
    RemoveDisagreesVia(p, n, t, x, path, d, k, v, u);
  }

  lemma RemoveDisagreesVia(p: Mem, n: Mem, t: Store, x: Variable, path: seq<Key>, d: Addr, k: Key, v: Variable,
                           u: seq<Key>)
    requires Agrees(p, t) && Ready(n) && Finite(t) && x in t.cls && Var(x) in p.slots && Removed(p, n, Elem(d, k))
    requires Reaches(p, p.slots[Var(x)], path, d) && IsArray(p, d) && Elem(d, k) in p.slots
    requires Var(v) in p.slots && Reaches(p, p.slots[Var(v)], u, d) && !(SameSet(p, v, x) && u == path)
    ensures !Agrees(n, Put(t, x, Without(Of(t, x), path + [k])))
  {
    hide Agrees, Ready, Removed, Reaches, SameSet;
    ElseDiffers(p, n, t, x, path, d, k, v, u);
    var w := Put(t, x, Without(Of(t, x), path + [k]));
    if Agrees(n, w) {
      ValueRead(n, w, v, u + [k]);
    }
  }

  lemma ValueRead(n: Mem, w: Store, v: Variable, path: seq<Key>)
    requires Agrees(n, w) && v in w.cls
    ensures Var(v) in n.slots && w.cls[v] in w.val && Peek(n, n.slots[Var(v)], path) == w.val[w.cls[v]](path)
  {
    hide Ready, ElemsPlain, SameClasses, SamePool;
    assert Reads(n, n.slots[Var(v)], w.val[w.cls[v]]);
  }

  /** The removal agrees exactly when it does not show elsewhere. */
  lemma RemoveExactly(p: Mem, n: Mem, t: Store, x: Variable, path: seq<Key>, k: Key)
    requires Agrees(p, t) && Ready(n) && x in t.cls && Var(x) in p.slots && p.slots[Var(x)] in p.cells
    requires DidRemove(p, n, Inner(p, p.slots[Var(x)], path), k)
    ensures !Shows(p, x, path, Inner(p, p.slots[Var(x)], path), k) ==>
              Agrees(n, Put(t, x, Without(Of(t, x), path + [k])))
    ensures Finite(t) && Agrees(n, Put(t, x, Without(Of(t, x), path + [k]))) ==>
              !Shows(p, x, path, Inner(p, p.slots[Var(x)], path), k)
  {
    var d := Inner(p, p.slots[Var(x)], path);
    if IsArray(p, d) {
      InnerReaches(p, p.slots[Var(x)], path);
    }
    hide Agrees, Finite, ReachedElse;
    if !(IsArray(p, d) && Elem(d, k) in p.slots) {
      NothingGoes(p, n, t, x, path, k);
    } else if Shows(p, x, path, d, k) {
      if Finite(t) {
        RemoveDisagrees(p, n, t, x, path, d, k);
      }
    } else {
      RemoveAgrees(p, n, t, x, path, d, k);
    }
  }

  lemma NothingGoes(p: Mem, n: Mem, t: Store, x: Variable, path: seq<Key>, k: Key)
    requires Agrees(p, t) && Ready(n) && x in t.cls && Var(x) in p.slots && p.slots[Var(x)] in p.cells
    requires DidRemove(p, n, Inner(p, p.slots[Var(x)], path), k)
    requires var d := Inner(p, p.slots[Var(x)], path); !(IsArray(p, d) && Elem(d, k) in p.slots)
    ensures Agrees(n, Put(t, x, Without(Of(t, x), path + [k])))
  {
    VarThere(p, t, x);
    forall q ensures Of(t, x)(q) == Without(Of(t, x), path + [k])(q) {
      assert Peek(p, p.slots[Var(x)], q) == Of(t, x)(q);
      if path + [k] <= q {
        NothingThere(p, p.slots[Var(x)], path, k, q);
      }
    }
    PutSame(p, t, x);
    AgreesPointwise(p, t, x, Of(t, x), Without(Of(t, x), path + [k]));
  }

  // ---------------------------------------------------------------------------------------
  // The statement
  // ---------------------------------------------------------------------------------------

  lemma {:induction false} ReachHolder(m: Mem, a: Addr, u: seq<Key>, d: Addr) returns (e: Slot)
    requires Reaches(m, a, u, d) && u != []
    ensures e in m.slots && e.Elem? && m.slots[e] == d
    decreases |u|
  {
    e := Elem(a, u[0]);
    if u[1..] != [] {
      e := ReachHolder(m, m.slots[e], u[1..], d);
    }
  }

  /** The array of the variable itself is reached by its reference set only. */
  lemma TopAlone(p: Mem, t: Store, x: Variable)
    requires Agrees(p, t) && Var(x) in p.slots && p.slots[Var(x)] in p.cells && !InCopyOnWrite(p.cells[p.slots[Var(x)]])
    ensures !ReachedElse(p, x, [], p.slots[Var(x)])
  {
    var c := p.slots[Var(x)];
    HeldCounted(p, Var(x), {});
    if !p.cells[c].isRef {
      SoleHolder(p, Var(x));
    }
    assert forall e :: e in p.slots && p.slots[e] == c <==> e in Holders(p.slots, c);
    assert forall e :: e in p.slots && e.Elem? ==> p.slots[e] != c;
    hide CellsCounted, TablesOwned, SameVars, SameValues, SameClasses, SamePool;
    forall v, u | Var(v) in p.slots && Reaches(p, p.slots[Var(v)], u, c) ensures SameSet(p, v, x) && u == [] {
      if u != [] {
        var e := ReachHolder(p, p.slots[Var(v)], u, c);
      }
    }
  }

  /** From the separated array the inner ones are reached as from the original. */
  lemma CloneReaches(m: Mem, p: Mem, a: Addr, b: Addr, u: seq<Key>, d: Addr)
    requires NoDangling(m) && Alike(m, p) && CloneOf(p, b, m, a) && u != []
    ensures Reaches(p, b, u, d) <==> Reaches(m, a, u, d)
  {
    if Elem(a, u[0]) in m.slots {
      AlikePaths(m, p, m.slots[Elem(a, u[0])], u[1..], d);
    }
  }

  lemma SeparatedElse(m: Mem, p: Mem, x: Variable, path: seq<Key>, d: Addr)
    requires Ready(m) && Ready(p) && Var(x) in m.slots && Var(x) in p.slots && Separated(m, p, Var(x))
    requires Alike(m, p) && RootsAlike(m, p, x) && InCopyOnWrite(m.cells[m.slots[Var(x)]]) && d in m.cells
    ensures ReachedElse(p, x, path, d) ==> ReachedElse(m, x, path, d)
    ensures m.slots[Var(x)] != d && ReachedElse(m, x, path, d) ==> ReachedElse(p, x, path, d)
  {
    hide CellsCounted, TablesOwned, Kept, Alike, RootsAlike, CloneOf;
    NextFree(m);
    if ReachedElse(p, x, path, d) {
      var v, u :| Var(v) in p.slots && Reaches(p, p.slots[Var(v)], u, d) && !(SameSet(p, v, x) && u == path);
      ElseSame(m, p, x, v, u, d);
    }
    if m.slots[Var(x)] != d && ReachedElse(m, x, path, d) {
      var v, u :| Var(v) in m.slots && Reaches(m, m.slots[Var(v)], u, d) && !(SameSet(m, v, x) && u == path);
      ElseSame(m, p, x, v, u, d);
    }
  }

  lemma ElseSame(m: Mem, p: Mem, x: Variable, v: Variable, u: seq<Key>, d: Addr)
    requires Ready(m) && Ready(p) && Var(x) in m.slots && Var(x) in p.slots && Separated(m, p, Var(x))
    requires Alike(m, p) && RootsAlike(m, p, x) && InCopyOnWrite(m.cells[m.slots[Var(x)]]) && d in m.cells
    ensures Var(v) in p.slots <==> Var(v) in m.slots
    ensures Var(v) in m.slots ==> (SameSet(p, v, x) <==> SameSet(m, v, x))
    ensures Var(v) in m.slots && Reaches(p, p.slots[Var(v)], u, d) ==> Reaches(m, m.slots[Var(v)], u, d)
    ensures Var(v) in m.slots && (v == x && u == [] ==> m.slots[Var(x)] != d) && Reaches(m, m.slots[Var(v)], u, d) ==>
              Reaches(p, p.slots[Var(v)], u, d)
  {
    NextFree(m);
    hide CellsCounted, TablesOwned, Kept, Alike, CloneOf;
    if Var(v) in m.slots && v != x {
      assert p.slots[Var(v)] == m.slots[Var(v)];
      AlikePaths(m, p, m.slots[Var(v)], u, d);
    } else if v == x && u != [] {
      CloneReaches(m, p, m.slots[Var(x)], p.slots[Var(x)], u, d);
    }
  }

  lemma BoundShows(m: Mem, o: Mem, p: Mem, s: Store, x: Variable, path: seq<Key>, k: Key)
    requires Agrees(m, s) && Ready(m) && Ready(o) && Ready(p) && GotVar(m, o, Var(x)) && Var(x) in o.slots
    requires Var(x) in p.slots && Separated(o, p, Var(x)) && path != []
    ensures var d := Inner(p, p.slots[Var(x)], path);
      && (Shows(p, x, path, d, k) ==> Spreads(m, UnsetElem(x, path, k)))
      && (Finite(s) && Spreads(m, UnsetElem(x, path, k)) ==> Shows(p, x, path, d, k))
  {
    hide Agrees, Alike, RootsAlike, ReachedElse, Finite, Separated, CellsCounted, TablesOwned;
    var c, d := Inner(m, LookUp(m, Var(x)), path), Inner(p, p.slots[Var(x)], path);
    BoundAlike(m, o, p, x);
    BoundInner(m, o, p, x, path);
    if IsArray(p, d) {
      InnerVar(m, x, path);
      AlikeEntry(m, p, d, k);
      ElseExactly(m, p, s, x, path, d);
    }
  }

  lemma ElseExactly(m: Mem, p: Mem, s: Store, x: Variable, path: seq<Key>, d: Addr)
    requires Agrees(m, s) && Ready(m) && Ready(p) && Var(x) in m.slots && Var(x) in p.slots
    requires Separated(m, p, Var(x)) && Alike(m, p) && RootsAlike(m, p, x) && path != []
    requires d == Inner(m, m.slots[Var(x)], path) && IsArray(m, d)
    ensures ReachedElse(p, x, path, d) ==> ReachedElse(m, x, path, d)
    ensures Finite(s) && ReachedElse(m, x, path, d) ==> ReachedElse(p, x, path, d)
  {
    InnerReaches(m, m.slots[Var(x)], path);
    hide Agrees, Alike, RootsAlike, ReachedElse, Finite, CellsCounted, TablesOwned, Kept, CloneOf, Inner;
    if InCopyOnWrite(m.cells[m.slots[Var(x)]]) {
      SeparatedElse(m, p, x, path, d);
      if Finite(s) && m.slots[Var(x)] == d {
        VarOf(m, s, x);
        NoRing(m, s, x, [], d, path);
      }
    }
  }

  lemma VarOf(m: Mem, s: Store, x: Variable)
    requires Agrees(m, s) && Var(x) in m.slots
    ensures x in s.cls
  {
  }

  lemma AlikeEntry(m: Mem, p: Mem, d: Addr, k: Key)
    requires Alike(m, p) && d in m.cells
    ensures Elem(d, k) in p.slots <==> Elem(d, k) in m.slots
  {
    assert AlikeAt(m, p, d) && SameEntry(m, p, d, k);
  }

  /** An unknown variable has no inner arrays. */
  lemma InnerVar(m: Mem, x: Variable, path: seq<Key>)
    requires Ready(m) && IsArray(m, Inner(m, LookUp(m, Var(x)), path))
    ensures Var(x) in m.slots
  {
    if Var(x) !in m.slots {
      StaysPut(m, m.slots[UNINIT], path);
    }
  }

  /** An unset keeps the plain meaning exactly when it does not show elsewhere. */
  lemma UnsetExactly(m: Mem, n: Mem, s: Store, x: Variable, path: seq<Key>, k: Key)
    requires Agrees(m, s) && Ready(n) && DidUnsetElem(m, n, x, path, k)
    ensures !Spreads(m, UnsetElem(x, path, k)) ==> Agrees(n, PlainStep(s, UnsetElem(x, path, k)))
    ensures Finite(s) && Agrees(n, PlainStep(s, UnsetElem(x, path, k))) ==> !Spreads(m, UnsetElem(x, path, k))
  {
    var o, p :| GotVar(m, o, Var(x)) && Ready(o) && Separated(o, p, Var(x)) && Ready(p) && Var(x) in p.slots
                && !InCopyOnWrite(p.cells[p.slots[Var(x)]])
                && DidRemove(p, n, Inner(p, p.slots[Var(x)], path), k);
    UnsetExactlyVia(m, o, p, n, s, x, path, k);
  }

  lemma UnsetExactlyVia(m: Mem, o: Mem, p: Mem, n: Mem, s: Store, x: Variable, path: seq<Key>, k: Key)
    requires Agrees(m, s) && Ready(m) && Ready(n) && GotVar(m, o, Var(x)) && Ready(o) && Var(x) in o.slots
    requires Separated(o, p, Var(x)) && Ready(p) && Var(x) in p.slots
    requires !InCopyOnWrite(p.cells[p.slots[Var(x)]]) && DidRemove(p, n, Inner(p, p.slots[Var(x)], path), k)
    ensures !Spreads(m, UnsetElem(x, path, k)) ==> Agrees(n, PlainStep(s, UnsetElem(x, path, k)))
    ensures Finite(s) && Agrees(n, PlainStep(s, UnsetElem(x, path, k))) ==> !Spreads(m, UnsetElem(x, path, k))
  {
    var t := Declare(s, x);
    hide Agrees, Separated, Finite, Spreads, Shows, CellsCounted, TablesOwned, GotVar;
    DeclareAgrees(m, o, s, x);
    SepAgrees(o, p, t, x);
    if Finite(s) {
      DeclareFinite(s, x);
    }
    RemoveExactly(p, n, t, x, path, k);
    if path == [] {
      TopAlone(p, t, x);
      TopShows(m, p, x, k);
    } else {
      BoundShows(m, o, p, s, x, path, k);
    }
  }

  lemma TopShows(m: Mem, p: Mem, x: Variable, k: Key)
    requires Ready(m) && Var(x) in p.slots && !ReachedElse(p, x, [], p.slots[Var(x)])
    ensures !Shows(p, x, [], p.slots[Var(x)], k) && !Spreads(m, UnsetElem(x, [], k))
  {
  }
}
