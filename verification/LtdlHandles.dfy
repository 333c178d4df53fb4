/**
 The list of open modules of libltdl/ltdl.c.  A handle counts the clients and the open modules that
 use it; closing the last use unlinks it and closes the modules it depends on.
*/
module LtdlHandles {
  import opened Options

  /** Names the storage of a handle. */
  type Id = nat

  datatype Info = Info(filename: string, refCount: int, isResident: bool, deplibs: seq<Id>)

  /** The list, newest first, and what the handles hold. */
  datatype Registry = Registry(handles: seq<Id>, info: map<Id, Info>)

  // ---------------------------------------------------------------------------------------
  // Uses
  // ---------------------------------------------------------------------------------------

  ghost predicate Allocated(handles: seq<Id>, info: map<Id, Info>) {
    forall h :: h in handles ==> h in info
  }

  function Deps(info: map<Id, Info>, h: Id): seq<Id> {
    if h in info then info[h].deplibs else []
  }

  /** The uses of modules by open modules, each as often as it is listed. */
  ghost function Edges(handles: seq<Id>, info: map<Id, Info>): multiset<Id> {
    if handles == [] then multiset{}
    else multiset(Deps(info, handles[0])) + Edges(handles[1..], info)
  }

  ghost predicate Distinct(s: seq<Id>) {
    forall i, j :: 0 <= i < j < |s| ==> s[i] != s[j]
  }

  /** A module depends only on modules opened before it, which are still open. */
  ghost predicate DepsBehind(handles: seq<Id>, info: map<Id, Info>) {
    forall i, d :: 0 <= i < |handles| && d in Deps(info, handles[i]) ==> Behind(handles, i, d)
  }

  ghost predicate Behind(s: seq<Id>, i: nat, d: Id) {
    exists m :: i < m < |s| && s[m] == d
  }

  ghost predicate CountFits(i: Info, uses: nat) {
    if i.isResident then i.refCount >= uses else i.refCount == uses > 0
  }

  /** `held` are the uses from outside: what clients have opened and not closed, and what is still
      to be closed for modules that are going.  Counts are exact except for resident modules, whose
      uses by closed modules are never taken back. */
  ghost predicate Valid(r: Registry, held: multiset<Id>) {
    && Distinct(r.handles) && Allocated(r.handles, r.info) && DepsBehind(r.handles, r.info)
    && (forall h :: h in held ==> h in r.handles)
    && (forall h :: h in r.handles ==> CountFits(r.info[h], held[h] + Edges(r.handles, r.info)[h]))
  }

  /** What never changes while a handle is open. */
  ghost predicate SameModule(a: Info, b: Info) {
    a.filename == b.filename && a.isResident == b.isResident && a.deplibs == b.deplibs
  }

  /** The members of `s` in `keep`, in order. */
  ghost function Only(s: seq<Id>, keep: set<Id>): (t: seq<Id>)
    ensures |t| <= |s|
  {
    if s == [] then [] else (if s[0] in keep then [s[0]] else []) + Only(s[1..], keep)
  }

  ghost function Live(r: Registry): set<Id> {
    set h | h in r.handles
  }

  /** Closing may drop handles; what is left is in the same order and is the same modules, and what
      was not in the list is not touched. */
  ghost predicate Shrunk(r: Registry, r': Registry) {
    && r'.handles == Only(r.handles, Live(r')) && Allocated(r.handles, r.info) && Allocated(r'.handles, r'.info)
    && (forall h :: h in r'.handles ==> h in r.handles && SameModule(r'.info[h], r.info[h]))
    && (forall h :: h in r.info && h !in r.handles ==> h in r'.info && r'.info[h] == r.info[h])
    && (forall h :: h in r'.info ==> h in r.info && (h in r.handles ==> h in r'.handles))
    && (forall h :: h in r.handles && r.info[h].isResident ==> h in r'.handles)
  }

  // ---------------------------------------------------------------------------------------
  // Lists
  // ---------------------------------------------------------------------------------------

  lemma {:induction false} OnlyIn(s: seq<Id>, keep: set<Id>)
    ensures forall h :: h in Only(s, keep) <==> h in s && h in keep
    decreases |s|
  {
    if s != [] {
      OnlyIn(s[1..], keep);
      assert s == [s[0]] + s[1..];
    }
  }

  lemma {:induction false} OnlySame(s: seq<Id>, a: set<Id>, b: set<Id>)
    requires forall x :: x in s ==> (x in a <==> x in b)
    ensures Only(s, a) == Only(s, b)
    decreases |s|
  {
    if s != [] {
      assert s[0] in s;
      assert forall x :: x in s[1..] ==> x in s;
      OnlySame(s[1..], a, b);
    }
  }

  lemma {:induction false} OnlyAll(s: seq<Id>, keep: set<Id>)
    requires forall h :: h in s ==> h in keep
    ensures Only(s, keep) == s
    decreases |s|
  {
    if s != [] {
      assert s[0] in s;
      assert forall h :: h in s[1..] ==> h in s;
      OnlyAll(s[1..], keep);
      assert s == [s[0]] + s[1..];
    }
  }

  lemma OnlyCons(h: Id, t: seq<Id>, keep: set<Id>)
    ensures Only([h] + t, keep) == (if h in keep then [h] else []) + Only(t, keep)
  {
    assert ([h] + t)[1..] == t;
  }

  lemma {:induction false} OnlyOnly(s: seq<Id>, a: set<Id>, b: set<Id>)
    requires b <= a
    ensures Only(Only(s, a), b) == Only(s, b)
    decreases |s|
  {
    if s != [] {
      OnlyOnly(s[1..], a, b);
      OnlyCons(s[0], Only(s[1..], a), b);
      assert [] + Only(s[1..], a) == Only(s[1..], a);
    }
  }

  lemma {:induction false} OnlyConcat(s: seq<Id>, t: seq<Id>, keep: set<Id>)
    ensures Only(s + t, keep) == Only(s, keep) + Only(t, keep)
    decreases |s|
  {
    if s == [] {
      assert s + t == t;
    } else {
      OnlyConcat(s[1..], t, keep);
      assert s + t == [s[0]] + (s[1..] + t);
      OnlyCons(s[0], s[1..] + t, keep);
      var head := if s[0] in keep then [s[0]] else [];
      assert head + (Only(s[1..], keep) + Only(t, keep)) == head + Only(s[1..], keep) + Only(t, keep);
    }
  }

  lemma WithoutMembers(s: seq<Id>, k: nat, t: seq<Id>)
    requires k < |s| && Distinct(s) && t == s[..k] + s[k + 1..]
    ensures Distinct(t) && forall x :: x in t <==> x in s && x != s[k]
  {
    forall x | x in s && x != s[k] ensures x in t {
      var i :| 0 <= i < |s| && s[i] == x;
      assert t[if i < k then i else i - 1] == x;
    }
    forall x | x in t ensures x in s && x != s[k] {
      var i :| 0 <= i < |t| && t[i] == x;
      assert s[if i < k then i else i + 1] == x;
    }
  }

  /** Unlinking one. */
  lemma OnlyWithout(s: seq<Id>, k: nat, t: seq<Id>, keep: set<Id>)
    requires k < |s| && t == s[..k] + s[k + 1..] && s[k] !in keep && forall x :: x in t ==> x in keep
    ensures t == Only(s, keep)
  {
    hide Only;
    var front, back := s[..k], s[k + 1..];
    OnlyPart(front, t, keep);
    OnlyPart(back, t, keep);
    OnlyBehind(s[k], back, keep);
    OnlyConcat(front, [s[k]] + back, keep);
    assert s == front + ([s[k]] + back);
  }

  /** A part of what is kept is kept. */
  lemma OnlyPart(part: seq<Id>, t: seq<Id>, keep: set<Id>)
    requires (forall x :: x in t ==> x in keep) && forall i :: 0 <= i < |part| ==> part[i] in t
    ensures Only(part, keep) == part
  {
    OnlyAll(part, keep);
  }

  lemma OnlyBehind(h: Id, back: seq<Id>, keep: set<Id>)
    requires h !in keep && Only(back, keep) == back
    ensures Only([h] + back, keep) == back
  {
    OnlyCons(h, back, keep);
  }

  // ---------------------------------------------------------------------------------------
  // Counting uses
  // ---------------------------------------------------------------------------------------

  lemma {:induction false} EdgesConcat(a: seq<Id>, b: seq<Id>, info: map<Id, Info>)
    ensures Edges(a + b, info) == Edges(a, info) + Edges(b, info)
    decreases |a|
  {
    if a == [] {
      assert a + b == b;
    } else {
      hide Edges;
      EdgesConcat(a[1..], b, info);
      EdgesConcatFrom(a, b, info);
    }
  }

  lemma EdgesConcatFrom(a: seq<Id>, b: seq<Id>, info: map<Id, Info>)
    requires a != [] && Edges(a[1..] + b, info) == Edges(a[1..], info) + Edges(b, info)
    ensures Edges(a + b, info) == Edges(a, info) + Edges(b, info)
  {
    hide Edges;
    assert [a[0]] + a[1..] == a && [a[0]] + (a[1..] + b) == a + b;
    EdgesCons(a[0], a[1..], info);
    EdgesCons(a[0], a[1..] + b, info);
  }

  lemma EdgesCons(h: Id, s: seq<Id>, info: map<Id, Info>)
    ensures Edges([h] + s, info) == multiset(Deps(info, h)) + Edges(s, info)
  {
    assert ([h] + s)[1..] == s;
  }

  lemma EdgesOne(h: Id, info: map<Id, Info>)
    ensures Edges([h], info) == multiset(Deps(info, h))
  {
    assert [h][1..] == [];
  }

  lemma EdgesWithout(s: seq<Id>, k: nat, info: map<Id, Info>)
    requires k < |s|
    ensures Edges(s, info) == Edges(s[..k] + s[k + 1..], info) + multiset(Deps(info, s[k]))
  {
    hide Edges, Deps;
    var front, back := s[..k], s[k + 1..];
    EdgesOne(s[k], info);
    EdgesConcat(front, back, info);
    EdgesConcat([s[k]], back, info);
    EdgesConcat(front, [s[k]] + back, info);
    assert s == front + ([s[k]] + back);
  }

  lemma {:induction false} EdgesSame(s: seq<Id>, a: map<Id, Info>, b: map<Id, Info>)
    requires forall h :: h in s ==> Deps(a, h) == Deps(b, h)
    ensures Edges(s, a) == Edges(s, b)
    decreases |s|
  {
    if s != [] {
      assert forall x :: x in s[1..] ==> x in s;
      EdgesSame(s[1..], a, b);
    }
  }

  /** A use by an open module is listed by one. */
  lemma {:induction false} EdgesFrom(s: seq<Id>, info: map<Id, Info>, d: Id)
    ensures d in Edges(s, info) <==> exists i :: 0 <= i < |s| && d in Deps(info, s[i])
    decreases |s|
  {
    if s != [] {
      EdgesFrom(s[1..], info, d);
      if d in Edges(s[1..], info) {
        var i :| 0 <= i < |s[1..]| && d in Deps(info, s[1..][i]);
        assert d in Deps(info, s[i + 1]);
      }
      if i :| 0 <= i < |s| && d in Deps(info, s[i]) {
        assert i == 0 || s[i] == s[1..][i - 1];
      }
    }
  }

  // ---------------------------------------------------------------------------------------
  // One step
  // ---------------------------------------------------------------------------------------

  function Less(i: Info): Info {
    i.(refCount := i.refCount - 1)
  }

  lemma Recounted(r: Registry, held: multiset<Id>, h: Id, i: Info, held': multiset<Id>)
    requires Valid(r, held) && h in r.handles && SameModule(i, r.info[h])
    requires (forall x :: x in held' ==> x in r.handles) && (forall x :: x != h ==> held'[x] == held[x])
    requires CountFits(i, held'[h] + Edges(r.handles, r.info)[h])
    ensures Valid(Registry(r.handles, r.info[h := i]), held')
  {
    hide Edges, DepsBehind, Distinct;
    EdgesSame(r.handles, r.info, r.info[h := i]);
    BehindSame(r.handles, r.info, r.info[h := i]);
    forall x | x in r.handles && x != h ensures CountFits(r.info[x], held'[x] + Edges(r.handles, r.info)[x]) {
      assert CountFits(r.info[x], held[x] + Edges(r.handles, r.info)[x]);
    }
  }

  lemma BehindSame(s: seq<Id>, a: map<Id, Info>, b: map<Id, Info>)
    requires DepsBehind(s, a) && forall h :: h in s ==> Deps(a, h) == Deps(b, h)
    ensures DepsBehind(s, b)
  {
    hide Deps;
    forall i, d | 0 <= i < |s| && d in Deps(b, s[i]) ensures Behind(s, i, d) {
      assert s[i] in s && d in Deps(a, s[i]);
    }
  }

  /** Taking an unlinked module's uses for uses from outside. */
  lemma Unlinked(r: Registry, held: multiset<Id>, k: nat, r': Registry)
    requires Valid(r, held) && k < |r.handles|
    requires var h := r.handles[k]; held[h] > 0 && !r.info[h].isResident && r.info[h].refCount <= 1
    requires r'.handles == r.handles[..k] + r.handles[k + 1..]
    requires r'.info == r.info[r.handles[k] := Less(r.info[r.handles[k]])]
    ensures var h := r.handles[k]; Valid(r', held - multiset{h} + multiset(r.info[h].deplibs))
  {
    hide Valid, Edges, DepsBehind, Behind, Distinct, CountFits;
    ValidAllocated(r, held);
    var h, s, t := r.handles[k], r.handles, r'.handles;
    var deps := r.info[h].deplibs;
    WithoutMembers(s, k, t);
    EdgesSame(t, r.info, r'.info);
    LastUse(r, held, h);
    UnlinkedDeps(r, k, t, r'.info);
    UnlinkedHeld(s, k, t, r.info, held);
    var rest := held - multiset{h} + multiset(deps);
    forall x | x in t ensures x in r'.info && CountFits(r'.info[x], rest[x] + Edges(t, r'.info)[x]) {
      UnlinkedCount(r, held, k, t, x);
    }
    ValidFrom(r', rest);
  }

  lemma ValidFrom(r: Registry, held: multiset<Id>)
    requires Distinct(r.handles) && DepsBehind(r.handles, r.info) && forall h :: h in held ==> h in r.handles
    requires forall h :: h in r.handles ==>
      h in r.info && CountFits(r.info[h], held[h] + Edges(r.handles, r.info)[h])
    ensures Valid(r, held)
  {
  }

  lemma LastUse(r: Registry, held: multiset<Id>, h: Id)
    requires Valid(r, held) && held[h] > 0 && h in r.info && !r.info[h].isResident && r.info[h].refCount <= 1
    ensures held[h] == 1 && h !in Edges(r.handles, r.info)
  {
    hide Edges, DepsBehind, Distinct;
    assert CountFits(r.info[h], held[h] + Edges(r.handles, r.info)[h]);
  }

  lemma UnlinkedCount(r: Registry, held: multiset<Id>, k: nat, t: seq<Id>, x: Id)
    requires Valid(r, held) && k < |r.handles| && t == r.handles[..k] + r.handles[k + 1..]
    requires x in r.handles && x != r.handles[k]
    ensures var h := r.handles[k];
      h in r.info && x in r.info
      && CountFits(r.info[x], (held - multiset{h} + multiset(r.info[h].deplibs))[x] + Edges(t, r.info)[x])
  {
    hide Edges, DepsBehind, Distinct;
    EdgesWithout(r.handles, k, r.info);
    assert CountFits(r.info[x], held[x] + Edges(r.handles, r.info)[x]);
  }

  lemma UnlinkedHeld(s: seq<Id>, k: nat, t: seq<Id>, info: map<Id, Info>, held: multiset<Id>)
    requires k < |s| && DepsBehind(s, info) && held[s[k]] == 1 && Distinct(s)
    requires (forall x :: x in t <==> x in s && x != s[k]) && (forall x :: x in held ==> x in s)
    ensures forall x :: x in held - multiset{s[k]} + multiset(Deps(info, s[k])) ==> x in t
  {
    var h, deps := s[k], Deps(info, s[k]);
    forall x | x in held - multiset{h} + multiset(deps) ensures x in t {
      if x in multiset(deps) {
        assert Behind(s, k, x);
      } else {
        assert x in held && x != h;
      }
    }
  }

  lemma UnlinkedDeps(r: Registry, k: nat, t: seq<Id>, info: map<Id, Info>)
    requires DepsBehind(r.handles, r.info) && k < |r.handles|
    requires Distinct(r.handles) && t == r.handles[..k] + r.handles[k + 1..]
    requires r.handles[k] !in Edges(r.handles, r.info)
    requires forall h :: h in t ==> Deps(info, h) == Deps(r.info, h)
    ensures DepsBehind(t, info)
  {
    hide Edges, Deps, Behind;
    var s := r.handles;
    forall i, d | 0 <= i < |t| && d in Deps(info, t[i]) ensures Behind(t, i, d) {
      var j := if i < k then i else i + 1;
      assert t[i] in t && t[i] == s[j] && d in Deps(r.info, s[j]);
      EdgesFrom(s, r.info, d);
      assert Behind(s, j, d) && d != s[k];
      BehindWithout(s, k, t, i, j, d);
    }
  }

  lemma BehindWithout(s: seq<Id>, k: nat, t: seq<Id>, i: nat, j: nat, d: Id)
    requires k < |s| && t == s[..k] + s[k + 1..] && j == (if i < k then i else i + 1)
    requires Behind(s, j, d) && d != s[k]
    ensures Behind(t, i, d)
  {
    var m :| j < m < |s| && s[m] == d;
    assert t[if m < k then m else m - 1] == d;
  }

  lemma ResidentDropped(r: Registry, held: multiset<Id>, d: Id)
    requires Valid(r, held) && d in held && r.info[d].isResident
    ensures Valid(r, held - multiset{d})
  {
  }

  lemma Freed(r: Registry, held: multiset<Id>, h: Id)
    requires Valid(r, held) && h !in r.handles
    ensures Valid(Registry(r.handles, r.info - {h}), held)
  {
    hide Edges, DepsBehind, Distinct;
    EdgesSame(r.handles, r.info, r.info - {h});
    BehindSame(r.handles, r.info, r.info - {h});
  }

  // ---------------------------------------------------------------------------------------
  // Sequences of steps
  // ---------------------------------------------------------------------------------------

  lemma ShrunkSelf(r: Registry)
    requires Allocated(r.handles, r.info)
    ensures Shrunk(r, r)
  {
    OnlyAll(r.handles, Live(r));
  }

  lemma ShrunkTrans(a: Registry, b: Registry, c: Registry)
    requires Shrunk(a, b) && Shrunk(b, c)
    ensures Shrunk(a, c)
  {
    hide Only;
    OnlyIn(a.handles, Live(b));
    OnlyIn(b.handles, Live(c));
    OnlyOnly(a.handles, Live(b), Live(c));
  }

  /** Recounting a handle of the list. */
  lemma ShrunkRecount(r: Registry, h: Id, i: Info)
    requires Allocated(r.handles, r.info) && h in r.handles && SameModule(i, r.info[h])
    ensures Shrunk(r, Registry(r.handles, r.info[h := i]))
  {
    hide Only;
    OnlyAll(r.handles, Live(r));
    assert Live(Registry(r.handles, r.info[h := i])) == Live(r);
  }

  /** Unlinking a handle, closing others, and freeing it. */
  lemma ShrunkClose(r: Registry, k: nat, r1: Registry, r2: Registry, r3: Registry)
    requires Allocated(r.handles, r.info) && Distinct(r.handles) && k < |r.handles|
    requires r1.handles == r.handles[..k] + r.handles[k + 1..]
    requires r1.info == r.info[r.handles[k] := Less(r.info[r.handles[k]])] && !r.info[r.handles[k]].isResident
    requires Shrunk(r1, r2) && r3 == Registry(r2.handles, r2.info - {r.handles[k]})
    ensures Shrunk(r, r3)
  {
    hide Only, Distinct;
    WithoutMembers(r.handles, k, r1.handles);
    OnlyWithout(r.handles, k, r1.handles, Live(r1));
    OnlyIn(r1.handles, Live(r2));
    OnlyOnly(r.handles, Live(r1), Live(r2));
    assert Live(r3) == Live(r2);
  }

  /** `r` without `h`. */
  ghost function Unlisted(r: Registry, h: Id): Registry {
    Registry(Only(r.handles, Live(r) - {h}), r.info - {h})
  }

  lemma ValidAllocated(r: Registry, held: multiset<Id>)
    requires Valid(r, held)
    ensures Allocated(r.handles, r.info) && Distinct(r.handles) && DepsBehind(r.handles, r.info)
    ensures forall h :: h in held ==> h in r.handles
    ensures forall h :: h in r.handles && !r.info[h].isResident ==> r.info[h].refCount > 0
  {
    hide Edges;
    forall h | h in r.handles && !r.info[h].isResident ensures r.info[h].refCount > 0 {
      assert CountFits(r.info[h], held[h] + Edges(r.handles, r.info)[h]);
    }
  }

  lemma UnlinkedVia(r: Registry, held: multiset<Id>, k: nat, r1: Registry)
    requires Valid(r, held) && k < |r.handles|
    requires var h := r.handles[k]; h in r.info && held[h] > 0 && !r.info[h].isResident && r.info[h].refCount <= 1
    requires r1 == Registry(r.handles[..k] + r.handles[k + 1..], r.info[r.handles[k] := Less(r.info[r.handles[k]])])
    ensures var h := r.handles[k];
      && h in r1.info && h !in r1.handles && r1.info[h].deplibs == r.info[h].deplibs
      && Valid(r1, held - multiset{h} + multiset(r1.info[h].deplibs))
  {
    Unlinked(r, held, k, r1);
    WithoutMembers(r.handles, k, r1.handles);
  }

  lemma FreedVia(r: Registry, k: nat, r1: Registry, r2: Registry, held: multiset<Id>)
    requires Allocated(r.handles, r.info) && Distinct(r.handles) && k < |r.handles|
    requires r1 == Registry(r.handles[..k] + r.handles[k + 1..], r.info[r.handles[k] := Less(r.info[r.handles[k]])])
    requires !r.info[r.handles[k]].isResident && Shrunk(r1, r2) && Valid(r2, held)
    ensures var h := r.handles[k]; var r3 := Registry(r2.handles, r2.info - {h});
      && Valid(r3, held) && Shrunk(r, r3) && h !in r3.handles
      && (r2 == r1 ==> r3 == Unlisted(r, h))
  {
    hide Shrunk, Valid, Only, Distinct;
    var h := r.handles[k];
    WithoutMembers(r.handles, k, r1.handles);
    ShrunkClose(r, k, r1, r2, Registry(r2.handles, r2.info - {h}));
    ShrunkKeeps(r1, r2, h);
    Freed(r2, held, h);
    if r2 == r1 {
      OnlyWithout(r.handles, k, r1.handles, Live(r) - {h});
      assert r2.info - {h} == r.info - {h};
    }
  }

  lemma RecountedVia(r: Registry, held: multiset<Id>, h: Id)
    requires Valid(r, held) && h in r.handles && h in r.info && held[h] > 0
    requires r.info[h].isResident || r.info[h].refCount > 1
    ensures var r' := Registry(r.handles, r.info[h := Less(r.info[h])]); Valid(r', held - multiset{h}) && Shrunk(r, r')
  {
    hide Edges;
    assert CountFits(r.info[h], held[h] + Edges(r.handles, r.info)[h]);
    Recounted(r, held, h, Less(r.info[h]), held - multiset{h});
    ShrunkRecount(r, h, Less(r.info[h]));
  }

  lemma NextUse(r: Registry, held: multiset<Id>, deps: seq<Id>, i: nat)
    requires i < |deps| && Valid(r, held + multiset(deps[i..]))
    ensures deps[i] in r.handles && deps[i] in r.info && (held + multiset(deps[i..]))[deps[i]] > 0
    ensures held + multiset(deps[i..]) - multiset{deps[i]} == held + multiset(deps[i + 1..])
  {
    assert deps[i..] == [deps[i]] + deps[i + 1..];
  }

  lemma ShrunkKeeps(r: Registry, r': Registry, h: Id)
    requires Shrunk(r, r') && h in r.info && h !in r.handles
    ensures h in r'.info && r'.info[h] == r.info[h] && h !in r'.handles && |r'.handles| <= |r.handles|
  {
  }

  // ---------------------------------------------------------------------------------------
  // Who keeps a module open
  // ---------------------------------------------------------------------------------------

  ghost predicate Chain(info: map<Id, Info>, p: seq<Id>) {
    forall i :: 0 <= i < |p| - 1 ==> p[i + 1] in Deps(info, p[i])
  }

  ghost predicate Root(r: Registry, held: multiset<Id>, h: Id) {
    h in r.handles && h in r.info && (held[h] > 0 || r.info[h].isResident)
  }

  ghost predicate RootedBy(r: Registry, held: multiset<Id>, h: Id, p: seq<Id>) {
    p != [] && Root(r, held, p[0]) && p[|p| - 1] == h && Chain(r.info, p)
  }

  /** A client's module, or a resident one, depends on `h` in some steps. */
  ghost predicate Rooted(r: Registry, held: multiset<Id>, h: Id) {
    exists p :: RootedBy(r, held, h, p)
  }

  lemma DepsLive(r: Registry, h: Id, d: Id)
    requires DepsBehind(r.handles, r.info) && h in r.handles && d in Deps(r.info, h)
    ensures d in r.handles
  {
    var i :| 0 <= i < |r.handles| && r.handles[i] == h;
    assert Behind(r.handles, i, d);
  }

  lemma {:induction false} ChainLive(r: Registry, p: seq<Id>, k: nat)
    requires DepsBehind(r.handles, r.info) && Chain(r.info, p) && k < |p| && p[0] in r.handles
    ensures p[k] in r.handles
  {
    if k > 0 {
      ChainLive(r, p, k - 1);
      DepsLive(r, p[k - 1], p[k]);
    }
  }

  lemma {:induction false} LiveRooted(r: Registry, held: multiset<Id>, k: nat)
    requires Valid(r, held) && k < |r.handles|
    ensures Rooted(r, held, r.handles[k])
  {
    hide Edges;
    var h := r.handles[k];
    ValidAllocated(r, held);
    assert CountFits(r.info[h], held[h] + Edges(r.handles, r.info)[h]);
    if Root(r, held, h) {
      assert RootedBy(r, held, h, [h]);
    } else {
      EdgesFrom(r.handles, r.info, h);
      var i :| 0 <= i < |r.handles| && h in Deps(r.info, r.handles[i]);
      assert Behind(r.handles, i, h);
      assert i < k;
      LiveRooted(r, held, i);
      var p :| RootedBy(r, held, r.handles[i], p);
      assert RootedBy(r, held, h, p + [h]);
    }
  }

  /** No module is closed too early, and none is left open: the open modules are exactly those that
      a client holds, that are resident, or that such a module needs. */
  lemma LiveIsRooted(r: Registry, held: multiset<Id>, h: Id)
    requires Valid(r, held)
    ensures h in r.handles <==> Rooted(r, held, h)
  {
    hide Valid, Chain, DepsBehind;
    ValidAllocated(r, held);
    if h in r.handles {
      var k :| 0 <= k < |r.handles| && r.handles[k] == h;
      LiveRooted(r, held, k);
    }
    if Rooted(r, held, h) {
      var p :| RootedBy(r, held, h, p);
      ChainLive(r, p, |p| - 1);
    }
  }

  lemma {:induction false} ChainSurvives(r: Registry, r': Registry, p: seq<Id>, k: nat)
    requires DepsBehind(r.handles, r.info) && DepsBehind(r'.handles, r'.info)
    requires Allocated(r.handles, r.info) && Allocated(r'.handles, r'.info)
    requires forall h :: h in r.handles && h in r'.handles ==> SameModule(r'.info[h], r.info[h])
    requires Chain(r.info, p) && k < |p| && p[0] in r.handles && p[0] in r'.handles
    ensures p[k] in r.handles && p[k] in r'.handles
  {
    hide DepsBehind;
    if k > 0 {
      ChainSurvives(r, r', p, k - 1);
      DepsLive(r, p[k - 1], p[k]);
      DepsLive(r', p[k - 1], p[k]);
    }
  }

  /** What was open stays open as long as nobody gives it up. */
  lemma Survives(r: Registry, held: multiset<Id>, r': Registry, held': multiset<Id>, h: Id)
    requires Valid(r, held) && Valid(r', held') && forall x :: x in held ==> x in held'
    requires Allocated(r.handles, r.info) && Allocated(r'.handles, r'.info)
    requires forall x :: x in r.handles && x in r'.handles ==> SameModule(r'.info[x], r.info[x])
    requires forall x :: x in r.handles && r.info[x].isResident ==> x in r'.handles
    requires h in r.handles
    ensures h in r'.handles
  {
    hide Valid, Chain, DepsBehind;
    ValidAllocated(r, held);
    ValidAllocated(r', held');
    LiveIsRooted(r, held, h);
    var p :| RootedBy(r, held, h, p);
    ChainSurvives(r, r', p, |p| - 1);
  }

  // ---------------------------------------------------------------------------------------
  // Opening
  // ---------------------------------------------------------------------------------------

  /** What the `.la` files list, and which modules some loader takes. */
  datatype Files = Files(deplibs: string -> seq<string>, loads: string -> bool)

  /** No module needs itself; opening one that did would never end. */
  ghost predicate Layered(files: Files, rank: string -> nat) {
    forall n, d :: d in files.deplibs(n) ==> rank(d) < rank(n)
  }

  /** Nothing but the open modules is allocated. */
  ghost predicate Tight(r: Registry) {
    Allocated(r.handles, r.info) && forall h :: h in r.info ==> h in r.handles
  }

  /** The modules of `added` were opened on top of those of `r`, and are not resident. */
  ghost predicate Grown(r: Registry, r': Registry, added: seq<Id>) {
    && r'.handles == added + r.handles && Allocated(r.handles, r.info) && Allocated(r'.handles, r'.info)
    && (forall h :: h in r.handles ==> SameModule(r'.info[h], r.info[h]))
    && (forall h :: h in added ==> !r'.info[h].isResident)
  }

  // What is opened: the modules listed, each linked against what its file lists.

  ghost predicate IsOpen(r: Registry, name: string) {
    exists h :: h in r.handles && h in r.info && r.info[h].filename == name
  }

  /** Opening the name gives a handle: it is open, or a loader takes it. */
  ghost predicate CanOpen(r: Registry, files: Files, name: string) {
    IsOpen(r, name) || files.loads(name)
  }

  /** The names that can be opened, in reverse order. */
  ghost function Wanted(r: Registry, files: Files, names: seq<string>): seq<string> {
    if names == [] then []
    else Wanted(r, files, names[1..]) + (if CanOpen(r, files, names[0]) then [names[0]] else [])
  }

  ghost function Filenames(info: map<Id, Info>, s: seq<Id>): seq<string>
    requires forall h :: h in s ==> h in info
  {
    seq(|s|, i requires 0 <= i < |s| => info[s[i]].filename)
  }

  /** The dependencies of `h` are open, and are the modules that its file lists, the last first, as far as
      they can be opened. */
  ghost predicate Linked(r: Registry, r': Registry, files: Files, h: Id) {
    && h in r'.info
    && (forall d :: d in r'.info[h].deplibs ==> d in r'.handles && d in r'.info)
    && Filenames(r'.info, r'.info[h].deplibs) == Wanted(r, files, files.deplibs(r'.info[h].filename))
  }

  /** The modules of `added` are new names that a loader took, below the rank, and rightly linked. */
  ghost predicate Opened(r: Registry, r': Registry, added: seq<Id>, files: Files, rank: string -> nat, bound: int) {
    && (forall h :: h in added ==>
         && Linked(r, r', files, h) && files.loads(r'.info[h].filename)
         && !IsOpen(r, r'.info[h].filename) && rank(r'.info[h].filename) < bound)
    && (forall i, j :: 0 <= i < j < |added| && added[i] in r'.info && added[j] in r'.info ==>
         r'.info[added[i]].filename != r'.info[added[j]].filename)
  }

  /** `Wanted` picks exactly the names that can be opened, from the back to the front. */
  lemma {:induction false} WantedMeans(r: Registry, files: Files, names: seq<string>) returns (ix: seq<nat>)
    ensures var w := Wanted(r, files, names);
      && |ix| == |w| && (forall k :: 0 <= k < |w| ==> ix[k] < |names| && w[k] == names[ix[k]])
      && (forall k, l :: 0 <= k < l < |w| ==> ix[k] > ix[l])
      && forall i: nat :: i < |names| ==> (i in ix <==> CanOpen(r, files, names[i]))
    decreases |names|
  {
    if names == [] {
      ix := [];
    } else {
      hide CanOpen;
      var rest := WantedMeans(r, files, names[1..]);
      ix := Later(rest) + (if CanOpen(r, files, names[0]) then [0] else []);
      forall i: nat | i < |names| ensures i in ix <==> CanOpen(r, files, names[i]) {
        LaterHas(rest, i);
        assert i > 0 ==> names[1..][i - 1] == names[i];
      }
      assert Wanted(r, files, names) ==
             Wanted(r, files, names[1..]) + (if CanOpen(r, files, names[0]) then [names[0]] else []);
    }
  }

  function Later(s: seq<nat>): (t: seq<nat>)
    ensures |t| == |s| && forall k :: 0 <= k < |s| ==> t[k] == s[k] + 1
  {
    seq(|s|, k requires 0 <= k < |s| => s[k] + 1)
  }

  lemma LaterHas(s: seq<nat>, i: nat)
    ensures i in Later(s) <==> i > 0 && i - 1 in s
  {
    if i > 0 && i - 1 in s {
      var k :| 0 <= k < |s| && s[k] == i - 1;
      assert Later(s)[k] == i;
    }
  }

  lemma GrownOpen(r: Registry, r': Registry, added: seq<Id>, files: Files, rank: string -> nat, bound: int,
                  name: string)
    requires Grown(r, r', added) && Opened(r, r', added, files, rank, bound)
    ensures IsOpen(r, name) ==> IsOpen(r', name)
    ensures CanOpen(r', files, name) <==> CanOpen(r, files, name)
    ensures IsOpen(r', name) && rank(name) >= bound ==> IsOpen(r, name)
  {
    if h :| h in r.handles && h in r.info && r.info[h].filename == name {
      assert h in r'.handles;
    }
    if h :| h in r'.handles && h in r'.info && r'.info[h].filename == name {
      assert h in added || h in r.handles;
    }
  }

  /** The names of modules that were open stay as they are. */
  lemma FilenamesKept(r: Registry, r': Registry, added: seq<Id>, s: seq<Id>)
    requires Grown(r, r', added) && forall d :: d in s ==> d in r.handles
    ensures (forall d :: d in s ==> d in r.info && d in r'.handles && d in r'.info)
    ensures Filenames(r'.info, s) == Filenames(r.info, s)
  {
    forall k | 0 <= k < |s| ensures r'.info[s[k]].filename == r.info[s[k]].filename {
      assert s[k] in s && SameModule(r'.info[s[k]], r.info[s[k]]);
    }
  }

  lemma NothingWanted(r: Registry, files: Files, names: seq<string>)
    ensures Wanted(r, files, names[|names|..]) == [] && Filenames(r.info, []) == []
  {
  }

  lemma FilenamesSnoc(info: map<Id, Info>, s: seq<Id>, d: Id)
    requires (forall h :: h in s ==> h in info) && d in info
    ensures Filenames(info, s + [d]) == Filenames(info, s) + [info[d].filename]
  {
  }

  lemma WantedNext(r: Registry, files: Files, names: seq<string>, n: nat)
    requires n < |names|
    ensures Wanted(r, files, names[n..]) ==
            Wanted(r, files, names[n + 1..]) + (if CanOpen(r, files, names[n]) then [names[n]] else [])
  {
    hide CanOpen;
    assert names[n..][1..] == names[n + 1..];
  }

  lemma WantedSame(a: Registry, b: Registry, files: Files, names: seq<string>)
    requires forall n :: CanOpen(a, files, n) <==> CanOpen(b, files, n)
    ensures Wanted(a, files, names) == Wanted(b, files, names)
  {
    hide CanOpen;
  }

  lemma OpenedTrans(a: Registry, b: Registry, c: Registry, s: seq<Id>, t: seq<Id>, files: Files,
                    rank: string -> nat, bound: int)
    requires Grown(a, b, s) && Grown(b, c, t)
    requires Opened(a, b, s, files, rank, bound) && Opened(b, c, t, files, rank, bound)
    ensures Opened(a, c, t + s, files, rank, bound)
  {
    hide Linked, CanOpen, Grown, IsOpen;
    forall n ensures CanOpen(a, files, n) <==> CanOpen(b, files, n) {
      GrownOpen(a, b, s, files, rank, bound, n);
    }
    forall h | h in s ensures h in b.info && h in c.info && c.info[h].filename == b.info[h].filename
      ensures Linked(a, c, files, h) && IsOpen(b, c.info[h].filename)
    {
      LinkedLater(a, b, c, s, t, files, h);
    }
    forall h | h in t ensures Linked(a, c, files, h) && h in c.info && !IsOpen(a, c.info[h].filename) {
      LinkedBefore(a, b, c, files, h);
      GrownOpen(a, b, s, files, rank, bound, c.info[h].filename);
    }
  }

  lemma LinkedLater(a: Registry, b: Registry, c: Registry, s: seq<Id>, t: seq<Id>, files: Files, h: Id)
    requires Grown(a, b, s) && Grown(b, c, t) && h in s && Linked(a, b, files, h)
    ensures h in b.info && h in c.info && c.info[h].filename == b.info[h].filename
    ensures Linked(a, c, files, h) && IsOpen(b, c.info[h].filename)
  {
    assert h in b.handles && SameModule(c.info[h], b.info[h]);
    FilenamesKept(b, c, t, b.info[h].deplibs);
  }

  lemma LinkedBefore(a: Registry, b: Registry, c: Registry, files: Files, h: Id)
    requires Linked(b, c, files, h) && forall n :: CanOpen(a, files, n) <==> CanOpen(b, files, n)
    ensures Linked(a, c, files, h) && h in c.info
  {
    hide CanOpen;
    WantedSame(a, b, files, files.deplibs(c.info[h].filename));
  }

  lemma OpenedMore(r: Registry, r': Registry, added: seq<Id>, files: Files, rank: string -> nat, b: int, b': int)
    requires Opened(r, r', added, files, rank, b) && b <= b'
    ensures Opened(r, r', added, files, rank, b')
  {
    hide Linked, IsOpen;
  }

  /** The new module comes on top of its dependencies. */
  lemma OpenedRegistered(r: Registry, now: Registry, loaded: seq<Id>, h: Id, i: Info, files: Files, rank: string -> nat)
    requires Grown(r, now, loaded) && Opened(r, now, loaded, files, rank, rank(i.filename))
    requires Tight(now) && h !in now.info && files.loads(i.filename) && !IsOpen(now, i.filename)
    requires forall d :: d in i.deplibs ==> d in now.handles && d in now.info
    requires Filenames(now.info, i.deplibs) == Wanted(r, files, files.deplibs(i.filename))
    ensures var n := Registry([h] + now.handles, now.info[h := i]);
      Opened(r, n, [h] + loaded, files, rank, rank(i.filename) + 1)
  {
    hide Wanted;
    var n := Registry([h] + now.handles, now.info[h := i]);
    GrownOpen(r, now, loaded, files, rank, rank(i.filename), i.filename);
    assert Filenames(n.info, i.deplibs) == Filenames(now.info, i.deplibs);
    forall x | x in loaded ensures Linked(r, n, files, x) && n.info[x].filename != i.filename {
      assert x in now.handles && Linked(r, now, files, x);
      assert Filenames(n.info, now.info[x].deplibs) == Filenames(now.info, now.info[x].deplibs);
    }
  }

  lemma OpenedNothing(r: Registry, r': Registry, files: Files, rank: string -> nat, bound: int)
    ensures Opened(r, r', [], files, rank, bound)
  {
  }

  /** A module found by its name was there before its dependencies were opened. */
  lemma FoundBefore(r: Registry, now: Registry, loaded: seq<Id>, files: Files, rank: string -> nat, name: string, f: Id)
    requires Grown(r, now, loaded) && Opened(r, now, loaded, files, rank, rank(name))
    requires f in now.handles && f in now.info && now.info[f].filename == name
    ensures f in r.handles && IsOpen(r, name)
  {
    assert f in loaded || f in r.handles;
    assert f in r.handles ==> SameModule(now.info[f], r.info[f]);
  }

  /** The registry, but for the residency of `h`. */
  ghost function Unmarked(r: Registry, h: Id): Registry {
    if h in r.info then r.(info := r.info[h := r.info[h].(isResident := false)]) else r
  }

  lemma GrownSelf(r: Registry)
    requires Allocated(r.handles, r.info)
    ensures Grown(r, r, [])
  {
  }

  lemma GrownTrans(a: Registry, b: Registry, c: Registry, s: seq<Id>, t: seq<Id>)
    requires Grown(a, b, s) && Grown(b, c, t)
    ensures Grown(a, c, t + s)
  {
    assert t + (s + a.handles) == (t + s) + a.handles;
    forall h | h in a.handles ensures SameModule(c.info[h], a.info[h]) {
      assert h in b.handles;
    }
    forall h | h in t + s ensures !c.info[h].isResident {
      if h !in t {
        assert h in b.handles;
      }
    }
  }

  /** Closing what nobody holds leaves the older modules. */
  lemma GrownShrunk(r: Registry, held: multiset<Id>, r1: Registry, added: seq<Id>, r2: Registry, held2: multiset<Id>)
    requires Grown(r, r1, added) && Shrunk(r1, r2) && Valid(r, held) && Valid(r2, held2)
    requires forall h :: h in held ==> h in held2
    ensures Grown(r, r2, Only(added, Live(r2)))
  {
    hide Valid, Only;
    assert forall h :: h in r.handles || h in added ==> h in r1.handles;
    forall h | h in r.handles ensures h in Live(r2) {
      Survives(r, held, r2, held2, h);
    }
    OnlyConcat(added, r.handles, Live(r2));
    OnlyAll(r.handles, Live(r2));
    OnlyIn(added, Live(r2));
  }

  /** Then, if only modules from before are used, no others are open. */
  lemma NothingAdded(r: Registry, held0: multiset<Id>, r': Registry, added: seq<Id>, held: multiset<Id>)
    requires Grown(r, r', added) && Valid(r, held0) && Valid(r', held) && forall x :: x in held ==> x in r.handles
    ensures added == []
  {
    hide Valid, Chain, DepsBehind;
    ValidAllocated(r, held0);
    ValidAllocated(r', held);
    if added != [] {
      var h := added[0];
      assert h == r'.handles[0] && h in r'.handles;
      LiveIsRooted(r', held, h);
      var p :| RootedBy(r', held, h, p);
      RootOld(r, held, r', added, p[0]);
      ChainOld(r, r', p, |p| - 1);
      NotTwice(added, r.handles);
    }
  }

  lemma RootOld(r: Registry, held: multiset<Id>, r': Registry, added: seq<Id>, h: Id)
    requires Grown(r, r', added) && Root(r', held, h) && forall x :: x in held ==> x in r.handles
    ensures h in r.handles
  {
    assert h in added || h in r.handles;
  }

  lemma NotTwice(s: seq<Id>, t: seq<Id>)
    requires Distinct(s + t) && s != []
    ensures s[0] !in t
  {
    forall k | 0 <= k < |t| ensures t[k] != s[0] {
      assert (s + t)[|s| + k] != (s + t)[0];
    }
  }

  lemma {:induction false} ChainOld(r: Registry, r': Registry, p: seq<Id>, k: nat)
    requires DepsBehind(r.handles, r.info) && Allocated(r.handles, r.info) && Allocated(r'.handles, r'.info)
    requires forall h :: h in r.handles ==> h in r'.handles && SameModule(r'.info[h], r.info[h])
    requires Chain(r'.info, p) && k < |p| && p[0] in r.handles
    ensures p[k] in r.handles
  {
    hide DepsBehind;
    if k > 0 {
      ChainOld(r, r', p, k - 1);
      DepsLive(r, p[k - 1], p[k]);
    }
  }

  /** Storage that is not in the list does not matter. */
  lemma Parked(r: Registry, held: multiset<Id>, h: Id, i: Info)
    requires Valid(r, held) && h !in r.handles
    ensures Valid(Registry(r.handles, r.info[h := i]), held)
  {
    hide Edges, DepsBehind, Distinct;
    EdgesSame(r.handles, r.info, r.info[h := i]);
    BehindSame(r.handles, r.info, r.info[h := i]);
  }

  /** A new module takes over the uses of its dependencies. */
  lemma Registered(r: Registry, held: multiset<Id>, h: Id, i: Info)
    requires Valid(r, held + multiset(i.deplibs)) && h !in r.handles && i.refCount == 1
    ensures Valid(Registry([h] + r.handles, r.info[h := i]), held + multiset{h})
  {
    hide Edges, DepsBehind;
    var t, info := [h] + r.handles, r.info[h := i];
    EdgesOne(h, info);
    EdgesConcat([h], r.handles, info);
    EdgesSame(r.handles, r.info, info);
    BehindSame(r.handles, r.info, info);
    RegisteredDeps(r, h, info);
    NotUsed(r, held + multiset(i.deplibs), h);
    forall x | x in held + multiset{h} ensures x in t {
    }
    forall x | x in t ensures CountFits(info[x], (held + multiset{h})[x] + Edges(t, info)[x]) {
      if x != h {
        assert x in r.handles;
        assert CountFits(r.info[x], (held + multiset(i.deplibs))[x] + Edges(r.handles, r.info)[x]);
      }
    }
  }

  lemma RegisteredDeps(r: Registry, h: Id, info: map<Id, Info>)
    requires DepsBehind(r.handles, info) && forall d :: d in Deps(info, h) ==> d in r.handles
    ensures DepsBehind([h] + r.handles, info)
  {
    hide Deps;
    var t := [h] + r.handles;
    forall i, d | 0 <= i < |t| && d in Deps(info, t[i]) ensures Behind(t, i, d) {
      if i == 0 {
        var m :| 0 <= m < |r.handles| && r.handles[m] == d;
        assert t[m + 1] == d;
      } else {
        assert Behind(r.handles, i - 1, d);
        var m :| i - 1 < m < |r.handles| && r.handles[m] == d;
        assert t[m + 1] == d;
      }
    }
  }

  lemma NotUsed(r: Registry, held: multiset<Id>, h: Id)
    requires Valid(r, held) && h !in r.handles
    ensures h !in held && h !in Edges(r.handles, r.info)
  {
    hide Edges, DepsBehind;
    ValidAllocated(r, held);
    EdgesFrom(r.handles, r.info, h);
    if h in Edges(r.handles, r.info) {
      var i :| 0 <= i < |r.handles| && h in Deps(r.info, r.handles[i]);
      DepsLive(r, r.handles[i], h);
    }
  }

  function More(i: Info): Info {
    i.(refCount := i.refCount + 1)
  }

  /** The new handle is there but not in the list. */
  ghost predicate Aside(now: Registry, h: Id, deps: seq<Id>, r: Registry) {
    && Tight(now) && h !in now.info && r.handles == now.handles && h in r.info && r.info[h].deplibs == deps
    && (forall x :: x in r.info <==> x in now.info || x == h)
    && (forall x :: x in now.handles ==> SameModule(r.info[x], now.info[x]))
  }

  /** One more use of a module. */
  lemma UsedOnceMore(r: Registry, uses: multiset<Id>, f: Id)
    requires Valid(r, uses) && f in r.handles
    ensures Valid(Registry(r.handles, r.info[f := More(r.info[f])]), uses + multiset{f})
  {
    hide Edges, DepsBehind, Distinct;
    assert CountFits(r.info[f], uses[f] + Edges(r.handles, r.info)[f]);
    Recounted(r, uses, f, More(r.info[f]), uses + multiset{f});
  }

  lemma AsideFound(now: Registry, held: multiset<Id>, h: Id, deps: seq<Id>, f: Id, i: Info)
    requires Tight(now) && h !in now.info && f in now.handles && Valid(now, held + multiset(deps)) && i.deplibs == deps
    ensures var info := now.info[h := i]; var r := Registry(now.handles, info[f := More(info[f])]);
      Aside(now, h, deps, r) && Valid(r, held + multiset{f} + multiset(deps))
  {
    var uses := held + multiset(deps);
    hide Valid;
    Parked(now, uses, h, i);
    UsedOnceMore(Registry(now.handles, now.info[h := i]), uses, f);
    assert held + multiset{f} + multiset(deps) == uses + multiset{f};
  }

  /** After the dependencies of an unused new handle are given back. */
  lemma GaveBack(r: Registry, held: multiset<Id>, now: Registry, loaded: seq<Id>, h: Id, deps: seq<Id>,
                 r1: Registry, r2: Registry, held2: multiset<Id>)
    requires Valid(r, held) && Grown(r, now, loaded) && Aside(now, h, deps, r1)
    requires Shrunk(r1, r2) && Valid(r2, held2) && forall x :: x in held ==> x in held2
    ensures var r3 := Registry(r2.handles, r2.info - {h});
      && Valid(r3, held2) && Tight(r3) && Grown(r, r3, Only(loaded, Live(r3)))
      && ((forall x :: x in held2 ==> x in r.handles) ==> Only(loaded, Live(r3)) == [])
      && forall x :: x in r3.info ==> x in now.info
  {
    hide Valid, Only, Grown, Shrunk, Live;
    var r3 := Registry(r2.handles, r2.info - {h});
    AsideBack(now, h, deps, r1, r2);
    Freed(r2, held2, h);
    GrownVia(r, now, loaded, r1);
    GrownShrunk(r, held, r1, loaded, r2, held2);
    assert Live(r3) == Live(r2) by { LiveOnly(r2, r3); }
    GrownWithout(r, r2, Only(loaded, Live(r2)), h);
    if forall x :: x in held2 ==> x in r.handles {
      NothingAdded(r, held, r3, Only(loaded, Live(r3)), held2);
    }
  }

  lemma LiveOnly(r: Registry, r': Registry)
    requires r.handles == r'.handles
    ensures Live(r) == Live(r')
  {
  }

  /** What closing the dependencies leaves of the new handle. */
  lemma AsideBack(now: Registry, h: Id, deps: seq<Id>, r1: Registry, r2: Registry)
    requires Aside(now, h, deps, r1) && Shrunk(r1, r2)
    ensures h !in r2.handles && Tight(Registry(r2.handles, r2.info - {h}))
    ensures r1.handles == now.handles && Allocated(r1.handles, r1.info)
    ensures forall x :: x in now.handles ==> x in r1.info && x in now.info && SameModule(r1.info[x], now.info[x])
    ensures forall x :: x in r2.info - {h} ==> x in now.info
  {
  }

  lemma GrownWithout(r: Registry, r2: Registry, added: seq<Id>, h: Id)
    requires Grown(r, r2, added) && h !in r2.handles
    ensures Grown(r, Registry(r2.handles, r2.info - {h}), added)
  {
    assert forall x :: x in added || x in r.handles ==> x in r2.handles;
  }

  lemma StillOpen(r: Registry, r': Registry, held: multiset<Id>, f: Id)
    requires Shrunk(r, r') && Valid(r', held) && held[f] > 0
    ensures f in r.handles && f in r'.handles && f in r'.info && f in r.info
    ensures r'.info[f].filename == r.info[f].filename
  {
    assert f in held;
  }

  lemma GrownVia(r: Registry, now: Registry, loaded: seq<Id>, r1: Registry)
    requires Grown(r, now, loaded) && r1.handles == now.handles && Allocated(r1.handles, r1.info)
    requires forall x :: x in now.handles ==> SameModule(r1.info[x], now.info[x])
    ensures Grown(r, r1, loaded)
  {
    assert forall x :: x in r.handles || x in loaded ==> x in now.handles;
  }

  lemma GrownRegistered(r: Registry, now: Registry, loaded: seq<Id>, h: Id, i: Info)
    requires Grown(r, now, loaded) && Tight(now) && h !in now.info
    ensures var n := Registry([h] + now.handles, now.info[h := i]);
      h !in r.handles && Grown(r, Unmarked(n, h), [h] + loaded) && (!i.isResident ==> Unmarked(n, h) == n)
  {
    assert [h] + (loaded + r.handles) == ([h] + loaded) + r.handles;
    assert forall x :: x in r.handles || x in loaded ==> x in now.handles;
  }

  /** All of it. */
  lemma NewModule(r: Registry, now: Registry, loaded: seq<Id>, held: multiset<Id>, h: Id, i: Info, files: Files,
                  rank: string -> nat)
    requires Grown(r, now, loaded) && Opened(r, now, loaded, files, rank, rank(i.filename))
    requires Tight(now) && (forall x :: x in now.info ==> x < h) && files.loads(i.filename) && !IsOpen(now, i.filename)
    requires (forall d :: d in i.deplibs ==> d in now.handles && d in now.info) && i.refCount == 1
    requires Filenames(now.info, i.deplibs) == Wanted(r, files, files.deplibs(i.filename))
    requires Valid(now, held + multiset(i.deplibs))
    ensures var n := Registry([h] + now.handles, now.info[h := i]);
      && Valid(n, held + multiset{h}) && Tight(n) && (forall x :: x in n.info ==> x < h + 1)
      && h !in r.handles && Grown(r, Unmarked(n, h), [h] + loaded) && (!i.isResident ==> Grown(r, n, [h] + loaded))
      && Opened(r, n, [h] + loaded, files, rank, rank(i.filename) + 1)
  {
    hide Valid, Grown, Opened, Wanted, Filenames, Unmarked, IsOpen;
    Registered(now, held, h, i);
    GrownRegistered(r, now, loaded, h, i);
    OpenedRegistered(r, now, loaded, h, i, files, rank);
  }

  /** lt_dlclose undoes lt_dlopen: the list is what it was, and so is every module in it, except that
      resident modules go on counting. */
  lemma OpenThenClose(r: Registry, held: multiset<Id>, r1: Registry, added: seq<Id>, h: Id, r2: Registry)
    requires Valid(r, held) && Grown(r, r1, added) && Valid(r1, held + multiset{h})
    requires Shrunk(r1, r2) && Valid(r2, held)
    ensures r2.handles == r.handles
    ensures forall x :: x in r.handles ==>
      x in r.info && x in r2.info && (!r.info[x].isResident ==> r2.info[x] == r.info[x])
  {
    hide Valid, Only, Shrunk;
    GrownShrunk(r, held, r1, added, r2, held);
    ValidAllocated(r, held);
    NothingAdded(r, held, r2, Only(added, Live(r2)), held);
    ValidAllocated(r2, held);
    assert [] + r.handles == r.handles;
    SameCounts(r, r2, held);
  }

  lemma SameCounts(r: Registry, r2: Registry, held: multiset<Id>)
    requires Valid(r, held) && Valid(r2, held) && Grown(r, r2, [])
    ensures forall x :: x in r.handles && !r.info[x].isResident ==> r2.info[x] == r.info[x]
  {
    hide Edges, DepsBehind, Distinct;
    EdgesSame(r.handles, r.info, r2.info);
    assert r2.handles == r.handles;
    forall x | x in r.handles && !r.info[x].isResident ensures r2.info[x] == r.info[x] {
      assert CountFits(r.info[x], held[x] + Edges(r.handles, r.info)[x]);
      assert CountFits(r2.info[x], held[x] + Edges(r2.handles, r2.info)[x]);
    }
  }

  class Modules {
    var handles: seq<Id>
    var info: map<Id, Info>
    var nextId: Id

    ghost function R(): Registry
      reads this
    {
      Registry(handles, info)
    }

    /** lt_dlclose (ltdl.c:1922-1984).  `moduleClose` is what the loader reports. */
    method Close(h: Id, moduleClose: Id -> nat, ghost held: multiset<Id>) returns (errors: nat)
      requires Valid(R(), held) && (h in handles ==> held[h] > 0)
      modifies this`handles, this`info
      ensures h !in old(handles) ==> errors == 1 && R() == old(R())
      ensures h in old(handles) ==> Valid(R(), held - multiset{h})
      ensures Shrunk(old(R()), R())
      ensures h in old(handles) ==>
        var i := old(info[h]);
        if i.refCount > 1 || i.isResident then R() == old(Registry(handles, info[h := Less(i)]))
        else h !in handles && h !in info && (i.deplibs == [] ==> R() == old(Unlisted(R(), h)))
      ensures h in old(handles) && (forall x :: moduleClose(x) == 0) ==>
                errors == if old(info[h]).isResident then 1 else 0
      decreases |handles|, 0
    {
      hide Valid, Shrunk;
      ghost var r := R();
      ValidAllocated(r, held);
      ShrunkSelf(r);
      var k := 0;
      while k < |handles| && handles[k] != h
        invariant 0 <= k <= |handles| && h !in handles[..k]
        invariant R() == r
      {
        k := k + 1;
      }
      if k == |handles| {
        return 1;
      }
      info := info[h := info[h].(refCount := info[h].refCount - 1)];
      if info[h].refCount <= 0 && !info[h].isResident {
        handles := handles[..k] + handles[k + 1..];
        ghost var r1 := R();
        UnlinkedVia(r, held, k, r1);
        errors := moduleClose(h);
        ghost var rest := held - multiset{h};
        var more := Unload(h, moduleClose, rest);
        errors := errors + more;
        ghost var r2 := R();
        info := info - {h};
        FreedVia(r, k, r1, r2, rest);
        return;
      }
      RecountedVia(r, held, h);
      return if info[h].isResident then 1 else 0;
    }

    /** unload_deplibs (ltdl.c:969-989). */
    method Unload(h: Id, moduleClose: Id -> nat, ghost held: multiset<Id>) returns (errors: nat)
      requires h in info && h !in handles && Valid(R(), held + multiset(info[h].deplibs))
      modifies this`handles, this`info
      ensures Valid(R(), held) && Shrunk(old(R()), R())
      ensures old(info[h]).deplibs == [] ==> R() == old(R())
      ensures (forall x :: moduleClose(x) == 0) ==> errors == 0
      decreases |handles|, 1
    {
      hide Valid, Shrunk;
      ghost var r, deps := R(), info[h].deplibs;
      ValidAllocated(r, held + multiset(deps));
      ShrunkSelf(r);
      errors := 0;
      var i := 0;
      assert deps[0..] == deps;
      while i < |info[h].deplibs|
        invariant h in info && h !in handles && info[h].deplibs == deps && i <= |deps|
        invariant Valid(R(), held + multiset(deps[i..])) && Shrunk(r, R())
        invariant (i == 0 ==> R() == r) && |handles| <= |r.handles|
        invariant (forall x :: moduleClose(x) == 0) ==> errors == 0
        decreases |deps| - i
      {
        ghost var now, uses := R(), held + multiset(deps[i..]);
        var d := info[h].deplibs[i];
        NextUse(now, held, deps, i);
        if !info[d].isResident {
          var more := Close(d, moduleClose, uses);
          errors := errors + more;
          ShrunkTrans(r, now, R());
          ShrunkKeeps(now, R(), h);
        } else {
          ResidentDropped(now, uses, d);
        }
        i := i + 1;
      }
      assert held + multiset(deps[|deps|..]) == held;
    }

    /** Between calls only open modules are allocated, and new storage is new. */
    ghost predicate Ready()
      reads this
    {
      Tight(R()) && forall h :: h in info ==> h < nextId
    }

    /** What lt_dlopen does with the list: the dependencies are opened (ltdl.c:1407), then the module
        is found there (ltdl.c:389-393), or opened by a loader and put in front (ltdl.c:1483-1493).  If
        it was there already, or cannot be opened, the dependencies are given back (ltdl.c:1410-1437). */
    method Open(name: string, resident: bool, files: Files, moduleClose: Id -> nat,
                ghost rank: string -> nat, ghost held: multiset<Id>)
      returns (handle: Option<Id>, ghost added: seq<Id>)
      requires Ready() && Valid(R(), held) && Layered(files, rank)
      modifies this
      ensures Ready() && (handle.None? ==> Valid(R(), held) && added == [])
      ensures handle.Some? ==>
        var h := handle.value;
        Valid(R(), held + multiset{h}) && h in handles && h in info && info[h].filename == name
      ensures !resident ==> Grown(old(R()), R(), added)
      ensures Grown(old(R()), if handle.None? || handle.value in old(handles) then R() else Unmarked(R(), handle.value),
                    added)
      ensures handle.Some? <==> old(CanOpen(R(), files, name))
      ensures old(IsOpen(R(), name)) ==> handle.Some? && handle.value in old(handles) && added == []
      ensures handle.Some? && !old(IsOpen(R(), name)) ==>
                && handle.value !in old(handles) && added != [] && added[0] == handle.value
                && handle.value in info && info[handle.value].isResident == resident
      ensures Opened(old(R()), R(), added, files, rank, rank(name) + 1)
      decreases rank(name), 1
    {
      hide Valid, Grown, Shrunk, Unmarked, IsOpen, Opened, Wanted, Filenames, Linked;
      ghost var r := R();
      var deps, loaded := LoadDeplibs(files.deplibs(name), name, files, moduleClose, rank, held);
      ghost var now := R();
      var h := nextId;
      nextId := nextId + 1;
      var found := Find(name);
      GrownOpen(r, now, loaded, files, rank, rank(name), name);
      if found.Some? {
        FoundBefore(r, now, loaded, files, rank, name, found.value);
        added := OpenAgain(h, found.value, deps, moduleClose, r, loaded, held);
        handle := found;
        OpenedNothing(r, R(), files, rank, rank(name) + 1);
      } else if !files.loads(name) {
        OpenFails(h, deps, moduleClose, r, loaded, held);
        handle, added := None, [];
        OpenedNothing(r, R(), files, rank, rank(name) + 1);
      } else {
        info := info[h := Info(name, 1, resident, deps)];
        handles := [h] + handles;
        NewModule(r, now, loaded, held, h, info[h], files, rank);
        handle, added := Some(h), [h] + loaded;
      }
    }

    /** The module is open already: the new handle is thrown away (ltdl.c:389-393, 1433-1437). */
    method OpenAgain(h: Id, f: Id, deps: seq<Id>, moduleClose: Id -> nat,
                     ghost r: Registry, ghost loaded: seq<Id>, ghost held: multiset<Id>)
      returns (ghost added: seq<Id>)
      requires Tight(R()) && (forall x :: x in info ==> x < h) && h < nextId && f in handles
      requires Valid(r, held) && Valid(R(), held + multiset(deps)) && Grown(r, R(), loaded) && f in r.handles
      modifies this`handles, this`info
      ensures Ready() && Valid(R(), held + multiset{f}) && Grown(r, R(), added) && added == []
      ensures f in handles && f in info && info[f].filename == old(info[f].filename)
    {
      hide Valid, Grown, Shrunk, Aside, Only;
      ghost var now := R();
      ValidAllocated(r, held);
      info := info[h := Info("", 0, false, deps)];
      info := info[f := info[f].(refCount := info[f].refCount + 1)];
      AsideFound(now, held, h, deps, f, Info("", 0, false, deps));
      ghost var r1 := R();
      var e := Unload(h, moduleClose, held + multiset{f});
      GaveBack(r, held, now, loaded, h, deps, r1, R(), held + multiset{f});
      StillOpen(r1, R(), held + multiset{f}, f);
      info := info - {h};
      added := Only(loaded, Live(R()));
    }

    /** No loader takes it (ltdl.c:1410-1414). */
    method OpenFails(h: Id, deps: seq<Id>, moduleClose: Id -> nat,
                     ghost r: Registry, ghost loaded: seq<Id>, ghost held: multiset<Id>)
      requires Tight(R()) && (forall x :: x in info ==> x < h) && h < nextId
      requires Valid(r, held) && Valid(R(), held + multiset(deps)) && Grown(r, R(), loaded)
      modifies this`handles, this`info
      ensures Ready() && Valid(R(), held) && Grown(r, R(), [])
    {
      hide Valid, Grown, Shrunk, Only;
      ghost var now := R();
      ValidAllocated(r, held);
      info := info[h := Info("", 0, false, deps)];
      Parked(now, held + multiset(deps), h, info[h]);
      ghost var r1 := R();
      var e := Unload(h, moduleClose, held);
      GaveBack(r, held, now, loaded, h, deps, r1, R(), held);
      info := info - {h};
    }

    /** Whether the module is open already (ltdl.c:379-387). */
    method Find(name: string) returns (found: Option<Id>)
      requires Allocated(handles, info)
      ensures found.Some? ==> found.value in handles && info[found.value].filename == name
      ensures found.None? ==> !IsOpen(R(), name)
    {
      for i := 0 to |handles|
        invariant forall k :: 0 <= k < i ==> info[handles[k]].filename != name
      {
        if info[handles[i]].filename == name {
          return Some(handles[i]);
        }
      }
      return None;
    }

    /** load_deplibs (ltdl.c:930-950): in reverse order, and only those that open count. */
    method LoadDeplibs(names: seq<string>, ghost name: string, files: Files, moduleClose: Id -> nat,
                       ghost rank: string -> nat, ghost held: multiset<Id>)
      returns (deps: seq<Id>, ghost added: seq<Id>)
      requires Ready() && Valid(R(), held) && Layered(files, rank) && forall d :: d in names ==> rank(d) < rank(name)
      modifies this
      ensures Ready() && Valid(R(), held + multiset(deps)) && Grown(old(R()), R(), added)
      ensures (forall d :: d in deps ==> d in handles && d in info)
      ensures Filenames(info, deps) == Wanted(old(R()), files, names)
      ensures Opened(old(R()), R(), added, files, rank, rank(name))
      decreases rank(name), 0
    {
      hide Valid, Grown, Opened, CanOpen, IsOpen, Wanted, Filenames, Unmarked;
      deps, added := [], [];
      GrownSelf(R());
      NothingWanted(R(), files, names);
      OpenedNothing(R(), R(), files, rank, rank(name));
      assert held + multiset([]) == held;
      for i := 0 to |names|
        invariant Ready() && Valid(R(), held + multiset(deps)) && Grown(old(R()), R(), added)
        invariant forall d :: d in deps ==> d in handles && d in info
        invariant Filenames(info, deps) == Wanted(old(R()), files, names[|names| - i..])
        invariant Opened(old(R()), R(), added, files, rank, rank(name))
      {
        ghost var now := R();
        var n := |names| - 1 - i;
        var d, more := Open(names[n], false, files, moduleClose, rank, held + multiset(deps));
        GrownOpen(old(R()), now, added, files, rank, rank(name), names[n]);
        FilenamesKept(now, R(), more, deps);
        OpenedMore(now, R(), more, files, rank, rank(names[n]) + 1, rank(name));
        OpenedTrans(old(R()), now, R(), added, more, files, rank, rank(name));
        WantedNext(old(R()), files, names, n);
        GrownTrans(old(R()), now, R(), added, more);
        added := more + added;
        if d.Some? {
          assert held + multiset(deps + [d.value]) == held + multiset(deps) + multiset{d.value};
          FilenamesSnoc(info, deps, d.value);
          deps := deps + [d.value];
        }
      }
      assert names[0..] == names;
    }

    /** lt_dlmakeresident (ltdl.c:2230-2246). */
    method MakeResident(h: Id, ghost held: multiset<Id>)
      requires Ready() && Valid(R(), held) && h in handles
      modifies this`info
      ensures Ready() && Valid(R(), held) && handles == old(handles)
      ensures info == old(info[h := info[h].(isResident := true)])
    {
      hide Edges, DepsBehind, Distinct;
      ghost var r := R();
      assert CountFits(info[h], held[h] + Edges(handles, info)[h]);
      info := info[h := info[h].(isResident := true)];
      EdgesSame(handles, r.info, info);
      BehindSame(handles, r.info, info);
    }

    /** A client that opens a module and closes it. */
    method OpenClose(name: string, files: Files, moduleClose: Id -> nat, ghost rank: string -> nat,
                     ghost held: multiset<Id>)
      requires Ready() && Valid(R(), held) && Layered(files, rank)
      modifies this
      ensures Valid(R(), held) && handles == old(handles)
      ensures forall x :: x in handles ==>
        x in old(info) && x in info && (!old(info[x]).isResident ==> info[x] == old(info[x]))
    {
      hide Valid, Grown, Shrunk;
      ghost var r := R();
      var handle, added := Open(name, false, files, moduleClose, rank, held);
      if handle.Some? {
        ghost var r1 := R();
        var errors := Close(handle.value, moduleClose, held + multiset{handle.value});
        assert held + multiset{handle.value} - multiset{handle.value} == held;
        OpenThenClose(r, held, r1, added, handle.value, R());
      } else {
        GrownNothing(r, R(), held);
      }
    }
  }

  lemma GrownNothing(r: Registry, r': Registry, held: multiset<Id>)
    requires Valid(r, held) && Valid(r', held) && Grown(r, r', [])
    ensures r'.handles == r.handles
    ensures forall x :: x in r.handles ==>
      x in r.info && x in r'.info && (!r.info[x].isResident ==> r'.info[x] == r.info[x])
  {
    hide Valid;
    assert [] + r.handles == r.handles;
    SameCounts(r, r', held);
  }
}
