/**
 Shutting down, lt_dlexit of libltdl/ltdl.c, when no module has dependencies (the default build,
 ltdl.c:804-810): passes over the list close modules whose count is small enough, until only
 resident ones are left.
*/
module LtdlExit {
  import opened LtdlHandles
  import opened Options

  ghost predicate Flat(r: Registry) {
    forall h :: h in r.handles ==> h in r.info && r.info[h].deplibs == []
  }

  // ---------------------------------------------------------------------------------------
  // One pass
  // ---------------------------------------------------------------------------------------

  /** Pass `level` closes this module once. */
  predicate Due(i: Info, level: nat) {
    !i.isResident && i.refCount <= level
  }

  /** The module after the pass. */
  function Ticked(i: Info, level: nat): Info {
    if Due(i, level) then Less(i) else i
  }

  /** The modules a pass leaves open. */
  ghost function Staying(r: Registry, level: nat): set<Id> {
    set h | h in r.handles && h in r.info && (r.info[h].isResident || Ticked(r.info[h], level).refCount > 0)
  }

  /** The list when a pass has done the first `k` modules of `s`. */
  ghost function PassList(s: seq<Id>, k: nat, keep: set<Id>): seq<Id>
    requires k <= |s|
  {
    Only(s[..k], keep) + s[k..]
  }

  ghost predicate InfoIs(now: Registry, h: Id, i: Info) {
    h in now.info && now.info[h] == i
  }

  /** A pass that has done the first `k` of the modules of `r`. */
  ghost predicate Passed(r: Registry, level: nat, k: nat, now: Registry) {
    && k <= |r.handles| && now.handles == PassList(r.handles, k, Staying(r, level)) && Allocated(r.handles, r.info)
    && (forall i :: 0 <= i < k && r.handles[i] in Staying(r, level)
          ==> InfoIs(now, r.handles[i], Ticked(r.info[r.handles[i]], level)))
    && (forall i :: k <= i < |r.handles| ==> InfoIs(now, r.handles[i], r.info[r.handles[i]]))
  }

  lemma PassStarts(r: Registry, level: nat)
    requires Allocated(r.handles, r.info)
    ensures Passed(r, level, 0, r)
  {
    assert r.handles[..0] == [] && [] + r.handles[0..] == r.handles;
    forall i | 0 <= i < |r.handles| ensures r.handles[i] in r.info {
      assert r.handles[i] in r.handles;
    }
  }

  lemma OnlyNone(keep: set<Id>)
    ensures Only([], keep) == []
  {
  }

  lemma PassListNext(s: seq<Id>, k: nat, keep: set<Id>)
    requires k < |s|
    ensures PassList(s, k + 1, keep) == Only(s[..k], keep) + (if s[k] in keep then [s[k]] else []) + s[k + 1..]
    ensures PassList(s, k, keep) == Only(s[..k], keep) + [s[k]] + s[k + 1..]
  {
    hide Only;
    assert s[..k + 1] == s[..k] + [s[k]] && s[k..] == [s[k]] + s[k + 1..];
    OnlyConcat(s[..k], [s[k]], keep);
    OnlyCons(s[k], [], keep);
    OnlyNone(keep);
    assert [s[k]] + [] == [s[k]];
  }

  lemma PassListDrops(s: seq<Id>, k: nat, keep: set<Id>, now: Registry)
    requires k < |s| && Distinct(s) && now.handles == PassList(s, k, keep) && s[k] !in keep
    ensures Only(now.handles, Live(now) - {s[k]}) == PassList(s, k + 1, keep)
  {
    hide Only, PassList;
    var h, front, back, gone := s[k], Only(s[..k], keep), s[k + 1..], Live(now) - {s[k]};
    PassListNext(s, k, keep);
    OnlyIn(s[..k], keep);
    assert now.handles == front + ([h] + back) && front + [] + back == front + back;
    OnlyConcat(front, [h] + back, gone);
    OnlyCons(h, back, gone);
    assert forall x :: x in front || x in back ==> x in now.handles && x != h;
    OnlyAll(front, gone);
    OnlyAll(back, gone);
    assert [] + back == back;
  }

  /** Going over module `k`. */
  lemma PassGoesOn(r: Registry, level: nat, k: nat, now: Registry, now': Registry)
    requires Passed(r, level, k, now) && k < |r.handles| && Distinct(r.handles) && level > 0
    requires var h := r.handles[k];
      && h in now.info && (now.info[h].isResident || now.info[h].refCount > 0)
      && now' == if !Due(now.info[h], level) then now
                 else if now.info[h].refCount > 1 then Registry(now.handles, now.info[h := Less(now.info[h])])
                 else Unlisted(now, h)
    ensures Passed(r, level, k + 1, now')
  {
    hide PassList, Only;
    var h, keep := r.handles[k], Staying(r, level);
    assert InfoIs(now, h, r.info[h]);
    assert r.handles[k] in r.handles;
    if h in keep {
      PassListNext(r.handles, k, keep);
    } else {
      PassListDrops(r.handles, k, keep, now);
    }
  }

  lemma PassEnds(r: Registry, level: nat, now: Registry)
    requires Passed(r, level, |r.handles|, now)
    ensures now.handles == Only(r.handles, Staying(r, level))
    ensures forall h :: h in now.handles ==> h in r.info && InfoIs(now, h, Ticked(r.info[h], level))
  {
    var s, keep := r.handles, Staying(r, level);
    assert s[..|s|] == s && Only(s, keep) + [] == Only(s, keep);
    OnlyIn(s, keep);
    forall h | h in now.handles ensures h in r.info && InfoIs(now, h, Ticked(r.info[h], level)) {
      var i :| 0 <= i < |s| && s[i] == h;
    }
  }

  lemma PassListAt(s: seq<Id>, k: nat, keep: set<Id>)
    requires k < |s|
    ensures var t, j := PassList(s, k, keep), |Only(s[..k], keep)|;
      && |t| == j + |s| - k && t[j] == s[k] && (k + 1 < |s| ==> t[j + 1] == s[k + 1])
  {
  }

  /** Without dependencies every count is held from outside. */
  lemma FlatHeld(r: Registry, held: multiset<Id>, h: Id)
    requires Valid(r, held) && Flat(r) && h in r.handles
    ensures h in r.info && r.info[h].deplibs == [] && (!r.info[h].isResident ==> held[h] == r.info[h].refCount > 0)
  {
    hide Edges, DepsBehind, Distinct;
    EdgesFrom(r.handles, r.info, h);
    assert CountFits(r.info[h], held[h] + Edges(r.handles, r.info)[h]);
    forall i | 0 <= i < |r.handles| ensures h !in Deps(r.info, r.handles[i]) {
      assert r.handles[i] in r.handles;
    }
  }

  /** A pass does not give modules dependencies. */
  lemma PassedFlat(r: Registry, level: nat, k: nat, now: Registry)
    requires Passed(r, level, k, now) && Flat(r)
    ensures Flat(now)
  {
    OnlyIn(r.handles[..k], Staying(r, level));
    forall h | h in now.handles ensures h in now.info && now.info[h].deplibs == [] {
      if h in Only(r.handles[..k], Staying(r, level)) {
        var i :| 0 <= i < k && r.handles[i] == h;
        assert InfoIs(now, h, Ticked(r.info[h], level));
      } else {
        var i :| k <= i < |r.handles| && r.handles[i] == h;
        assert InfoIs(now, h, r.info[h]);
      }
    }
  }

  /** `cur->next`, for the handle at `k`. */
  method Next(m: Modules, h: Id, ghost k: nat) returns (next: Option<Id>)
    requires k < |m.handles| && m.handles[k] == h && Distinct(m.handles)
    ensures next == if k + 1 < |m.handles| then Some(m.handles[k + 1]) else None
  {
    var j := 0;
    while m.handles[j] != h
      invariant 0 <= j <= k
      decreases k - j
    {
      j := j + 1;
    }
    return if j + 1 < |m.handles| then Some(m.handles[j + 1]) else None;
  }

  /** Closing one, and looking for the next again (ltdl.c:297-315). */
  method CloseDue(m: Modules, h: Id, next: Option<Id>, moduleClose: Id -> nat, ghost held: multiset<Id>)
    returns (cur: Option<Id>)
    requires Valid(m.R(), held) && Flat(m.R()) && h in m.handles && h in m.info && !m.info[h].isResident && held[h] > 0
    modifies m`handles, m`info
    ensures Valid(m.R(), held - multiset{h})
    ensures m.R() == old(if m.info[h].refCount > 1 then Registry(m.handles, m.info[h := Less(m.info[h])])
                           else Unlisted(m.R(), h))
    ensures next.None? || next.value in m.handles ==> cur == next
  {
    hide Valid, Unlisted;
    FlatHeld(m.R(), held, h);
    var errors := m.Close(h, moduleClose, held);
    cur := next;
    if cur.Some? && cur.value !in m.handles {
      cur := if m.handles != [] then Some(m.handles[0]) else None;
    }
  }

  ghost predicate Nonresident(r: Registry, h: Id) {
    h in r.info && !r.info[h].isResident
  }

  /** One turn of the loop over `level` (ltdl.c:287-320). */
  method Pass(m: Modules, level: nat, moduleClose: Id -> nat, ghost held0: multiset<Id>)
    returns (sawNonresident: bool, ghost held: multiset<Id>, ghost closed: set<Id>)
    requires Valid(m.R(), held0) && Flat(m.R()) && level > 0
    modifies m`handles, m`info
    ensures Valid(m.R(), held) && Flat(m.R())
    ensures Passed(old(m.R()), level, |old(m.handles)|, m.R())
    ensures sawNonresident <==> exists h :: h in old(m.handles) && Nonresident(old(m.R()), h)
    ensures forall h :: h in closed <==> h in old(m.handles) && Nonresident(old(m.R()), h) && Due(old(m.info[h]), level)
  {
    hide Valid, Passed, Only, Flat, Unlisted, Distinct;
    ghost var r, k := m.R(), 0;
    held, closed := held0, {};
    ValidAllocated(r, held);
    PassStarts(r, level);
    sawNonresident := false;
    var cur := if m.handles != [] then Some(m.handles[0]) else None;
    while cur.Some?
      invariant k <= |r.handles| && Passed(r, level, k, m.R()) && Valid(m.R(), held) && Flat(m.R())
      invariant cur == if k < |r.handles| then Some(r.handles[k]) else None
      invariant sawNonresident <==> exists i :: 0 <= i < k && Nonresident(r, r.handles[i])
      invariant forall h :: h in closed <==> h in r.handles[..k] && Nonresident(r, h) && Due(r.info[h], level)
      decreases |r.handles| - k
    {
      ghost var tmp := cur.value;
      var nonresident;
      ghost var gone;
      cur, nonresident, held, gone := Turn(m, cur.value, level, moduleClose, held, r, k);
      sawNonresident := sawNonresident || nonresident;
      closed := if gone then closed + {tmp} else closed;
      assert r.handles[..k + 1] == r.handles[..k] + [tmp];
      k := k + 1;
    }
    assert r.handles[..k] == r.handles;
  }

  /** What the loop does with one module (ltdl.c:292-318). */
  method Turn(m: Modules, tmp: Id, level: nat, moduleClose: Id -> nat, ghost held0: multiset<Id>,
              ghost r: Registry, ghost k: nat)
    returns (cur: Option<Id>, nonresident: bool, ghost held: multiset<Id>, ghost gone: bool)
    requires k < |r.handles| && tmp == r.handles[k] && level > 0
    requires Passed(r, level, k, m.R()) && Valid(m.R(), held0) && Flat(m.R()) && Flat(r) && Distinct(r.handles)
    modifies m`handles, m`info
    ensures Passed(r, level, k + 1, m.R()) && Valid(m.R(), held) && Flat(m.R())
    ensures cur == if k + 1 < |r.handles| then Some(r.handles[k + 1]) else None
    ensures tmp in r.info && nonresident == Nonresident(r, tmp) && gone == Due(r.info[tmp], level)
  {
    hide Valid, Passed, Only, Flat, Unlisted, Distinct;
    held := held0;
    ghost var now := m.R();
    ghost var j := PassedAt(r, level, k, now, held);
    cur := Next(m, tmp, j);
    ghost var next := cur;
    nonresident := !m.info[tmp].isResident;
    gone := nonresident && m.info[tmp].refCount <= level;
    if nonresident && m.info[tmp].refCount <= level {
      FlatHeld(now, held, tmp);
      cur := CloseDue(m, tmp, cur, moduleClose, held);
      held := held - multiset{tmp};
    }
    PassGoesOn(r, level, k, now, m.R());
    PassedFlat(r, level, k + 1, m.R());
    NextStays(r, level, k, m.R());
    assert cur == next;
  }

  /** Where the loop over the list stands. */
  lemma PassedAt(r: Registry, level: nat, k: nat, now: Registry, held: multiset<Id>) returns (j: nat)
    requires k < |r.handles| && Passed(r, level, k, now) && Valid(now, held)
    ensures var h := r.handles[k];
      && h in now.handles && h in now.info && h in r.info && now.info[h] == r.info[h] && Distinct(now.handles)
      && (now.info[h].isResident || now.info[h].refCount > 0)
      && j < |now.handles| && now.handles[j] == h && (j + 1 < |now.handles| <==> k + 1 < |r.handles|)
      && (k + 1 < |r.handles| ==> now.handles[j + 1] == r.handles[k + 1])
  {
    hide Valid;
    ValidAllocated(now, held);
    PassListAt(r.handles, k, Staying(r, level));
    assert InfoIs(now, r.handles[k], r.info[r.handles[k]]);
    assert r.handles[k] in r.handles;
    j := |Only(r.handles[..k], Staying(r, level))|;
    assert now.handles[j] == r.handles[k];
  }

  /** The next module of the list is still in it. */
  lemma NextStays(r: Registry, level: nat, k: nat, now: Registry)
    requires Passed(r, level, k + 1, now)
    ensures k + 1 < |r.handles| ==> r.handles[k + 1] in now.handles
  {
    if k + 1 < |r.handles| {
      assert r.handles[k + 1] in r.handles[k + 1..];
    }
  }

  // ---------------------------------------------------------------------------------------
  // All passes
  // ---------------------------------------------------------------------------------------

  /** A module's count when pass `level` starts: from pass `r` on, one less each time. */
  function Aged(i: Info, level: nat): Info {
    if i.isResident || level <= i.refCount then i else i.(refCount := 2 * i.refCount - level)
  }

  /** The modules still open when pass `level` starts. */
  ghost function Alive(r: Registry, level: nat): set<Id> {
    set h | h in r.handles && h in r.info && (r.info[h].isResident || level < 2 * r.info[h].refCount)
  }

  ghost predicate AtPass(r: Registry, level: nat, now: Registry) {
    && now.handles == Only(r.handles, Alive(r, level))
    && forall h :: h in now.handles ==> h in r.info && InfoIs(now, h, Aged(r.info[h], level))
  }

  /** The largest count of a module that is not resident. */
  ghost function Most(handles: seq<Id>, info: map<Id, Info>): (m: nat)
    ensures forall h :: h in handles && h in info && !info[h].isResident ==> info[h].refCount <= m
    ensures m > 0 ==> exists h :: h in handles && h in info && !info[h].isResident && info[h].refCount == m
  {
    if handles == [] then 0
    else
      var h, m := handles[0], Most(handles[1..], info);
      assert handles == [h] + handles[1..];
      if h in info && !info[h].isResident && info[h].refCount > m then info[h].refCount else m
  }

  /** Whom a pass closes. */
  lemma PassCloses(r: Registry, level: nat, now: Registry, h: Id)
    requires AtPass(r, level, now) && h in r.handles && h in r.info && !r.info[h].isResident
    ensures h in now.handles && Due(now.info[h], level) <==> r.info[h].refCount <= level < 2 * r.info[h].refCount
  {
    OnlyIn(r.handles, Alive(r, level));
    if h in now.handles {
      assert InfoIs(now, h, Aged(r.info[h], level));
    }
  }

  lemma AliveNext(r: Registry, level: nat, now: Registry, h: Id)
    requires AtPass(r, level, now) && h in now.handles
    ensures h in Staying(now, level) <==> h in Alive(r, level + 1)
    ensures h in r.info && InfoIs(now, h, Aged(r.info[h], level))
    ensures h in now.info && Ticked(now.info[h], level) == Aged(r.info[h], level + 1)
  {
    OnlyIn(r.handles, Alive(r, level));
    assert InfoIs(now, h, Aged(r.info[h], level));
  }

  /** Every pass ages the modules by one. */
  lemma PassAges(r: Registry, level: nat, now: Registry, now': Registry)
    requires AtPass(r, level, now) && Passed(now, level, |now.handles|, now')
    ensures AtPass(r, level + 1, now')
  {
    hide Only, Passed, Ticked, Aged;
    PassEnds(now, level, now');
    assert Alive(r, level + 1) <= Alive(r, level);
    OnlyOnly(r.handles, Alive(r, level), Alive(r, level + 1));
    forall h | h in now.handles ensures h in Staying(now, level) <==> h in Alive(r, level + 1) {
      AliveNext(r, level, now, h);
    }
    OnlySame(now.handles, Staying(now, level), Alive(r, level + 1));
    OnlyIn(now.handles, Staying(now, level));
    forall h | h in now'.handles ensures h in r.info && InfoIs(now', h, Aged(r.info[h], level + 1)) {
      AliveNext(r, level, now, h);
    }
  }

  /** How many passes there are. */
  ghost function Passes(r: Registry): nat {
    if r.handles == [] then 0
    else if Most(r.handles, r.info) == 0 then 1
    else 2 * Most(r.handles, r.info)
  }

  /** A resident module leaves the front of the list. */
  lemma FrontDropped(r: Registry, held: multiset<Id>)
    requires Valid(r, held) && Flat(r) && r.handles != [] && r.info[r.handles[0]].isResident
    ensures var r' := Registry(r.handles[1..], r.info);
      && Valid(r', held[r.handles[0] := 0]) && Flat(r')
      && (forall h :: h in r.handles <==> h == r.handles[0] || h in r'.handles)
  {
    hide Edges, DepsBehind, Distinct;
    var h, t := r.handles[0], r.handles[1..];
    FlatEdges(r.handles, r.info);
    FrontLeft(r.handles);
    FlatEdges(t, r.info);
    forall x | x in t ensures CountFits(r.info[x], held[h := 0][x] + Edges(t, r.info)[x]) {
      assert CountFits(r.info[x], held[x] + Edges(r.handles, r.info)[x]);
    }
  }

  lemma FrontLeft(s: seq<Id>)
    requires Distinct(s) && s != []
    ensures Distinct(s[1..]) && s[0] !in s[1..] && forall h :: h in s <==> h == s[0] || h in s[1..]
  {
    assert s == [s[0]] + s[1..];
  }

  lemma {:induction false} FlatEdges(s: seq<Id>, info: map<Id, Info>)
    requires forall h :: h in s ==> Deps(info, h) == []
    ensures Edges(s, info) == multiset{} && DepsBehind(s, info)
    decreases |s|
  {
    if s != [] {
      assert s == [s[0]] + s[1..];
      FlatEdges(s[1..], info);
    }
  }

  /** lt_dlexit steps over the resident modules in front (ltdl.c:279-282). */
  method DropFront(m: Modules, ghost held0: multiset<Id>) returns (ghost held: multiset<Id>)
    requires Valid(m.R(), held0) && Flat(m.R())
    modifies m`handles
    ensures Valid(m.R(), held) && Flat(m.R())
    ensures forall h :: h in m.handles ==> h in old(m.handles)
    ensures forall h :: h in old(m.handles) && h !in m.handles ==> h in m.info && m.info[h].isResident
  {
    held := held0;
    ValidAllocated(m.R(), held);
    hide Valid, Flat;
    while m.handles != [] && m.info[m.handles[0]].isResident
      invariant Valid(m.R(), held) && Flat(m.R()) && Allocated(m.handles, m.info)
      invariant forall h :: h in m.handles ==> h in old(m.handles)
      invariant forall h :: h in old(m.handles) && h !in m.handles ==> h in m.info && m.info[h].isResident
      decreases |m.handles|
    {
      FrontDropped(m.R(), held);
      held := held[m.handles[0] := 0];
      m.handles := m.handles[1..];
    }
  }

  lemma AtFirstPass(r: Registry, held: multiset<Id>)
    requires Valid(r, held)
    ensures AtPass(r, 1, r)
  {
    hide Valid;
    ValidAllocated(r, held);
    OnlyAll(r.handles, Alive(r, 1));
  }

  /** When a pass sees a module that is not resident. */
  lemma SawOne(r: Registry, level: nat, now: Registry, h: Id)
    requires AtPass(r, level, now) && h in r.handles && h in r.info && !r.info[h].isResident
    ensures (h in now.handles && Nonresident(now, h)) <==> level < 2 * r.info[h].refCount
  {
    OnlyIn(r.handles, Alive(r, level));
    if h in now.handles {
      assert InfoIs(now, h, Aged(r.info[h], level));
    }
  }

  lemma SawNow(r: Registry, level: nat, now: Registry, h: Id)
    requires AtPass(r, level, now) && h in now.handles && Nonresident(now, h)
    ensures h in r.handles && h in r.info && !r.info[h].isResident
  {
    OnlyIn(r.handles, Alive(r, level));
    assert InfoIs(now, h, Aged(r.info[h], level));
  }

  /** Module `h` of `r` is in the log of exactly the passes from its count to twice its count. */
  ghost predicate LoggedRight(r: Registry, log: seq<set<Id>>, h: Id) {
    h in r.info
    && forall l :: 0 <= l < |log| ==> (h in log[l] <==> r.info[h].refCount <= l + 1 < 2 * r.info[h].refCount)
  }

  ghost predicate Largest(r: Registry, most: nat) {
    && (forall h :: h in r.handles && Nonresident(r, h) ==> r.info[h].refCount <= most)
    && (most > 0 ==> exists h :: h in r.handles && Nonresident(r, h) && r.info[h].refCount == most)
  }

  /** What pass `level` tells about the passes to come. */
  lemma PassTells(r: Registry, level: nat, now: Registry, saw: bool, most: nat)
    requires AtPass(r, level, now) && Largest(r, most) && (level == 1 || 1 < level <= 2 * most)
    requires saw <==> exists h :: h in now.handles && Nonresident(now, h)
    ensures if saw then level + 1 <= 2 * most else level == if most == 0 then 1 else 2 * most
    ensures !saw ==> forall h :: h in now.handles ==> h in r.handles && h in r.info && r.info[h].isResident
  {
    hide AtPass;
    if saw {
      var h :| h in now.handles && Nonresident(now, h);
      SawNow(r, level, now, h);
      SawOne(r, level, now, h);
    } else {
      if most > 0 {
        var h :| h in r.handles && Nonresident(r, h) && r.info[h].refCount == most;
        SawOne(r, level, now, h);
      }
      OnlyResident(r, level, now);
    }
  }

  lemma OnlyResident(r: Registry, level: nat, now: Registry)
    requires AtPass(r, level, now) && forall h :: h in now.handles ==> !Nonresident(now, h)
    ensures forall h :: h in now.handles ==> h in r.handles && h in r.info && r.info[h].isResident
  {
    OnlyIn(r.handles, Alive(r, level));
    forall h | h in now.handles ensures h in r.handles && h in r.info && r.info[h].isResident {
      assert InfoIs(now, h, Aged(r.info[h], level));
    }
  }

  /** What pass `level` adds to the log. */
  lemma PassLogs(r: Registry, level: nat, now: Registry, log: seq<set<Id>>, closed: set<Id>, h: Id)
    requires AtPass(r, level, now) && |log| == level - 1 && h in r.handles && Nonresident(r, h)
    requires LoggedRight(r, log, h)
    requires forall x :: x in closed <==> x in now.handles && Nonresident(now, x) && Due(now.info[x], level)
    ensures LoggedRight(r, log + [closed], h)
  {
    OnlyIn(r.handles, Alive(r, level));
    PassCloses(r, level, now, h);
    if h in now.handles {
      assert InfoIs(now, h, Aged(r.info[h], level));
    }
  }

  lemma PassShrinks(r: Registry, level: nat, now: Registry)
    requires Passed(r, level, |r.handles|, now)
    ensures forall h :: h in now.handles ==> h in r.handles
  {
    PassEnds(r, level, now);
    OnlyIn(r.handles, Staying(r, level));
  }

  /** The loop over `level` (ltdl.c:285-321). */
  method CloseAll(m: Modules, moduleClose: Id -> nat, ghost held0: multiset<Id>, ghost most: nat)
    returns (passes: nat, ghost log: seq<set<Id>>)
    requires Valid(m.R(), held0) && Flat(m.R())
    requires Largest(m.R(), most)
    modifies m`handles, m`info
    ensures forall h :: h in m.handles ==> h in old(m.handles) && h in old(m.info) && old(m.info[h]).isResident
    ensures passes == (if most == 0 then 1 else 2 * most) && |log| == passes
    ensures forall h :: h in old(m.handles) && Nonresident(old(m.R()), h) ==> LoggedRight(old(m.R()), log, h)
  {
    hide Valid, Only, Passed, AtPass, Flat, Largest, LoggedRight;
    ghost var r, held := m.R(), held0;
    assert forall h :: h in r.handles && Nonresident(r, h) ==> LoggedRight(r, [], h) by { EmptyLog(r); }
    AtFirstPass(r, held);
    passes, log := 0, [];
    var level, saw := 1, true;
    while saw
      invariant AtPass(r, level, m.R()) && Valid(m.R(), held) && Flat(m.R())
      invariant passes == level - 1 == |log|
      invariant if saw then level == 1 || 1 < level <= 2 * most else passes == if most == 0 then 1 else 2 * most
      invariant !saw ==> forall h :: h in m.handles ==> h in r.handles && h in r.info && r.info[h].isResident
      invariant forall h :: h in r.handles && Nonresident(r, h) ==> LoggedRight(r, log, h)
      decreases saw, 2 * most + 2 - level
    {
      ghost var now := m.R();
      ghost var closed;
      saw, held, closed := Pass(m, level, moduleClose, held);
      PassAges(r, level, now, m.R());
      PassTells(r, level, now, saw, most);
      PassShrinks(now, level, m.R());
      forall h | h in r.handles && Nonresident(r, h) ensures LoggedRight(r, log + [closed], h) {
        PassLogs(r, level, now, log, closed, h);
      }
      log, passes, level := log + [closed], passes + 1, level + 1;
    }
  }

  lemma EmptyLog(r: Registry)
    ensures forall h :: h in r.handles && Nonresident(r, h) ==> LoggedRight(r, [], h)
  {
  }

  /** The residents in front do not matter for the largest count. */
  lemma LargestLeft(r: Registry, r': Registry)
    requires Allocated(r.handles, r.info) && r'.info == r.info && forall h :: h in r'.handles ==> h in r.handles
    requires forall h :: h in r.handles && h !in r'.handles ==> h in r.info && r.info[h].isResident
    ensures Largest(r', Most(r.handles, r.info))
  {
    hide Most;
    var m := Most(r.handles, r.info);
    if m > 0 {
      var h :| h in r.handles && h in r.info && !r.info[h].isResident && r.info[h].refCount == m;
      assert h in r'.handles && Nonresident(r', h);
    }
  }

  /** lt_dlexit at its last call (ltdl.c:275-321).  A module counted `n` times is closed in the passes
      `n` to `2 * n - 1`, and only there; what is left is resident. */
  method Exit(m: Modules, moduleClose: Id -> nat, ghost held0: multiset<Id>)
    returns (passes: nat, ghost log: seq<set<Id>>)
    requires Valid(m.R(), held0) && Flat(m.R())
    modifies m`handles, m`info
    ensures forall h :: h in m.handles ==> h in old(m.handles) && h in old(m.info) && old(m.info[h]).isResident
    ensures passes == old(Passes(m.R())) && |log| == passes
    ensures forall h :: h in old(m.handles) && Nonresident(old(m.R()), h) ==> LoggedRight(old(m.R()), log, h)
  {
    hide Valid, Flat, Largest;
    ghost var r := m.R();
    ValidAllocated(r, held0);
    var handle := m.handles != [];
    ghost var held := DropFront(m, held0);
    LargestLeft(r, m.R());
    passes, log := 0, [];
    if handle {
      passes, log := CloseAll(m, moduleClose, held, Most(old(m.handles), m.info));
    }
  }
}
