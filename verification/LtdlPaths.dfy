/**
 Search paths and sorted vectors of libltdl/ltdl.c: inserting into a vector kept in order, and the
 one-pass path normaliser.
*/
module LtdlPaths {
  import opened Argz
  import opened Options

  const PATHSEP := ':'

  // ---------------------------------------------------------------------------------------
  // Sorted vectors
  // ---------------------------------------------------------------------------------------

  /** strcmp, on characters that stand for unsigned bytes. */
  function StrCmp(s: string, t: string): int {
    if s == [] then if t == [] then 0 else -1
    else if t == [] then 1
    else if s[0] < t[0] then -1
    else if s[0] > t[0] then 1
    else StrCmp(s[1..], t[1..])
  }

  /** It is the lexicographic order: below is what another string begins with, and what has the
      smaller character where they first differ. */
  lemma {:induction false} StrCmpMeans(s: string, t: string)
    ensures StrCmp(s, t) < 0 <==>
      (|s| < |t| && s == t[..|s|]) || exists k :: 0 <= k < |s| && k < |t| && s[..k] == t[..k] && s[k] < t[k]
    ensures StrCmp(s, t) == 0 <==> s == t
    decreases |s|
  {
    StrCmpEqual(s, t);
    if s != [] && t != [] && s[0] == t[0] {
      StrCmpMeans(s[1..], t[1..]);
      LessInside(s, t);
      BeginsInside(s, t);
    } else if s != [] && t != [] {
      LessAtOnce(s, t);
    }
  }

  /** Strings that begin alike differ where what follows does. */
  lemma LessInside(s: string, t: string)
    requires s != [] && t != [] && s[0] == t[0]
    ensures (exists k :: 0 <= k < |s| && k < |t| && s[..k] == t[..k] && s[k] < t[k]) <==>
            (exists k :: 0 <= k < |s[1..]| && k < |t[1..]| && s[1..][..k] == t[1..][..k] && s[1..][k] < t[1..][k])
  {
    if k :| 0 <= k < |s| && k < |t| && s[..k] == t[..k] && s[k] < t[k] {
      assert s[1..][..k - 1] == s[..k][1..] && t[1..][..k - 1] == t[..k][1..];
      assert s[1..][k - 1] < t[1..][k - 1];
    }
    if k :| 0 <= k < |s[1..]| && k < |t[1..]| && s[1..][..k] == t[1..][..k] && s[1..][k] < t[1..][k] {
      assert s[..k + 1] == [s[0]] + s[1..][..k] && t[..k + 1] == [t[0]] + t[1..][..k];
      assert s[k + 1] < t[k + 1];
    }
  }

  lemma BeginsInside(s: string, t: string)
    requires s != [] && t != [] && s[0] == t[0]
    ensures |s| < |t| && s == t[..|s|] <==> |s[1..]| < |t[1..]| && s[1..] == t[1..][..|s[1..]|]
  {
    if |s| < |t| {
      assert s == [s[0]] + s[1..] && t[..|s|] == [t[0]] + t[1..][..|s| - 1];
    }
  }

  lemma SameFirst(s: string, t: string, k: nat)
    requires 0 < k <= |s| && k <= |t| && s[..k] == t[..k]
    ensures s[0] == t[0]
  {
    assert s[..k][0] == t[..k][0];
  }

  lemma LessAtOnce(s: string, t: string)
    requires s != [] && t != [] && s[0] != t[0]
    ensures (exists k :: 0 <= k < |s| && k < |t| && s[..k] == t[..k] && s[k] < t[k]) <==> s[0] < t[0]
    ensures |s| < |t| ==> s != t[..|s|]
  {
    if k :| 0 <= k < |s| && k < |t| && s[..k] == t[..k] && s[k] < t[k] {
      if k > 0 {
        SameFirst(s, t, k);
      }
    }
    if s[0] < t[0] {
      assert s[..0] == t[..0];
    }
  }

  ghost predicate Increasing(l: seq<string>) {
    forall i, j :: 0 <= i < j < |l| ==> StrCmp(l[i], l[j]) < 0
  }

  /** What a dictionary puts in front: a beginning, or a smaller character at the first difference. */
  ghost predicate Precedes(s: string, t: string) {
    (|s| < |t| && s == t[..|s|]) || exists k :: 0 <= k < |s| && k < |t| && s[..k] == t[..k] && s[k] < t[k]
  }

  lemma {:induction false} StrCmpEqual(s: string, t: string)
    ensures StrCmp(s, t) == 0 <==> s == t
    decreases |s|
  {
    if s != [] && t != [] {
      StrCmpEqual(s[1..], t[1..]);
      assert s == [s[0]] + s[1..] && t == [t[0]] + t[1..];
    }
  }

  lemma {:induction false} StrCmpOrder(s: string, t: string, u: string)
    ensures StrCmp(s, t) < 0 <==> StrCmp(t, s) > 0
    ensures StrCmp(s, t) < 0 && StrCmp(t, u) < 0 ==> StrCmp(s, u) < 0
    decreases |s|
  {
    if s != [] && t != [] && u != [] {
      StrCmpOrder(s[1..], t[1..], u[1..]);
    } else if s != [] && t != [] {
      StrCmpOrder(s[1..], t[1..], []);
    }
  }

  /** The list with `entry` put in front of the first that is above it, unless it is there. */
  function InOrder(l: seq<string>, entry: string): seq<string> {
    if l == [] then [entry]
    else if StrCmp(entry, l[0]) < 0 then [entry] + l
    else if StrCmp(entry, l[0]) == 0 then l
    else [l[0]] + InOrder(l[1..], entry)
  }

  lemma {:induction false} InOrderMembers(l: seq<string>, entry: string)
    ensures forall s :: s in InOrder(l, entry) <==> s in l || s == entry
    decreases |l|
  {
    if l != [] {
      InOrderMembers(l[1..], entry);
      StrCmpEqual(entry, l[0]);
      assert l == [l[0]] + l[1..];
    }
  }

  lemma {:induction false} InOrderIncreasing(l: seq<string>, entry: string)
    requires Increasing(l)
    ensures Increasing(InOrder(l, entry))
    decreases |l|
  {
    if l == [] {
    } else if StrCmp(entry, l[0]) < 0 {
      IncreasingCons(entry, l);
    } else if StrCmp(entry, l[0]) > 0 {
      InOrderIncreasing(l[1..], entry);
      InOrderMembers(l[1..], entry);
      StrCmpOrder(l[0], entry, []);
      StrCmpOrder(entry, l[0], []);
      AboveCons(l[0], InOrder(l[1..], entry));
    }
  }

  lemma AboveCons(s: string, l: seq<string>)
    requires Increasing(l) && forall t :: t in l ==> StrCmp(s, t) < 0
    ensures Increasing([s] + l)
  {
    forall i, j | 0 <= i < j < |l| + 1 ensures StrCmp(([s] + l)[i], ([s] + l)[j]) < 0 {
      assert l[j - 1] in l;
    }
  }

  lemma IncreasingCons(s: string, l: seq<string>)
    requires Increasing(l) && l != [] && StrCmp(s, l[0]) < 0
    ensures Increasing([s] + l)
  {
    forall t | t in l ensures StrCmp(s, t) < 0 {
      var i :| 0 <= i < |l| && l[i] == t;
      StrCmpOrder(s, l[0], t);
    }
    AboveCons(s, l);
  }

  /** Inserting one after another. */
  function InOrderAll(entries: seq<string>): seq<string> {
    if entries == [] then [] else InOrder(InOrderAll(entries[..|entries| - 1]), entries[|entries| - 1])
  }

  lemma IncreasingPrecedes(l: seq<string>)
    requires Increasing(l)
    ensures forall i, j :: 0 <= i < j < |l| ==> Precedes(l[i], l[j])
  {
    forall i, j | 0 <= i < j < |l| ensures Precedes(l[i], l[j]) {
      StrCmpMeans(l[i], l[j]);
    }
  }

  /** From an empty vector, whatever is inserted: increasing, and exactly what was inserted. */
  lemma {:induction false} InOrderSorts(entries: seq<string>)
    ensures Increasing(InOrderAll(entries))
    ensures forall s :: s in InOrderAll(entries) <==> s in entries
    ensures var l := InOrderAll(entries); forall i, j :: 0 <= i < j < |l| ==> Precedes(l[i], l[j])
    decreases |entries|
  {
    if entries != [] {
      var front, last := entries[..|entries| - 1], entries[|entries| - 1];
      InOrderSorts(front);
      InOrderIncreasing(InOrderAll(front), last);
      InOrderMembers(InOrderAll(front), last);
      assert entries == front + [last];
    }
    IncreasingPrecedes(InOrderAll(entries));
  }

  /** The first `k` entries are below the new one. */
  ghost predicate Under(l: seq<string>, k: nat, entry: string) {
    k <= |l| && forall i :: 0 <= i < k ==> StrCmp(entry, l[i]) > 0
  }

  lemma CutAt(l: seq<string>, k: nat, entry: string)
    requires 0 < k <= |l|
    ensures [l[0]] + l[1..] == l && (k < |l| ==> l[1..][k - 1] == l[k])
    ensures [l[0]] + (l[1..][..k - 1] + [entry] + l[1..][k - 1..]) == l[..k] + [entry] + l[k..]
  {
    assert l[..k] == [l[0]] + l[1..][..k - 1] && l[k..] == l[1..][k - 1..];
  }

  lemma {:induction false} InOrderAt(l: seq<string>, k: nat, entry: string)
    requires Under(l, k, entry)
    ensures k == |l| || StrCmp(entry, l[k]) < 0 ==> InOrder(l, entry) == l[..k] + [entry] + l[k..]
    ensures k < |l| && StrCmp(entry, l[k]) == 0 ==> InOrder(l, entry) == l
    decreases |l|
  {
    hide StrCmp;
    if l == [] {
      assert [] + [entry] + [] == [entry];
    } else if k == 0 {
      assert [] + [entry] + l == [entry] + l && l[..0] == [] && l[0..] == l;
    } else {
      InOrderAt(l[1..], k - 1, entry);
      CutAt(l, k, entry);
    }
  }

  /** lt_argz_insertinorder (ltdl.c:1724-1743). */
  method InsertInOrder(v: Vector, entry: string, ghost l: seq<string>)
    requires v.Valid() && v.Bytes() == Encode(l) && AllPlain(l) && Plain(entry) && entry != []
    modifies v
    ensures v.Valid() && AllPlain(InOrder(l, entry)) && v.Bytes() == Encode(InOrder(l, entry))
  {
    hide Encode, Plain, AllPlain, InOrder, NextOffset;
    InOrderPlain(l, entry);
    EncodeEnded(l);
    var before := v.Next(None);
    ghost var k := 0;
    FirstEntry(l);
    while before.Some?
      invariant k <= |l| && Under(l, k, entry) && v.Valid() && v.Bytes() == Encode(l)
      invariant before == if k < |l| then Some(Offset(l, k)) else None
      decreases |l| - k
    {
      NextEntry(l, k);
      var cmp := StrCmp(entry, StringAt(v.argz[..v.argzLen], before.value));
      if cmp < 0 {
        break;
      }
      if cmp == 0 {
        InOrderAt(l, k, entry);
        return;
      }
      before := v.Next(before);
      k := k + 1;
    }
    InOrderAt(l, k, entry);
    if k < |l| {
      NextEntry(l, k);
      InsertOffset(l, k, entry);
    } else {
      InsertLast(l, entry);
    }
    v.Insert(before, entry);
  }

  lemma {:induction false} InOrderPlain(l: seq<string>, entry: string)
    requires AllPlain(l) && Plain(entry)
    ensures AllPlain(InOrder(l, entry))
  {
    InOrderMembers(l, entry);
    forall i | 0 <= i < |InOrder(l, entry)| ensures Plain(InOrder(l, entry)[i]) {
      assert InOrder(l, entry)[i] in InOrder(l, entry);
    }
  }

  lemma FirstEntry(l: seq<string>)
    ensures Ended(Encode(l)) && NextOffset(Encode(l), None) == if l != [] then Some(Offset(l, 0)) else None
  {
    EncodeEnded(l);
    EncodeEmpty(l);
    assert l[..0] == [];
  }

  lemma InsertOffset(l: seq<string>, k: nat, entry: string)
    requires AllPlain(l) && Plain(entry) && k < |l|
    ensures Offset(l, k) <= |Encode(l)|
    ensures var a := Encode(l);
      InsertAt(a, StartOf(a, Offset(l, k)), entry + [EOS]) == Encode(l[..k] + [entry] + l[k..])
  {
    hide Encode;
    EncodeConcat(l[..k], l[k..]);
    assert l == l[..k] + l[k..];
    var a := Encode(l);
    assert a[..Offset(l, k)] == Encode(l[..k]);
    InsertEntry(l, Offset(l, k), entry);
    FrontPlain(l, k);
    CountEncode(l[..k]);
  }

  lemma FrontPlain(l: seq<string>, k: nat)
    requires AllPlain(l) && k <= |l|
    ensures AllPlain(l[..k])
  {
  }

  lemma InsertLast(l: seq<string>, entry: string)
    ensures Encode(l) + (entry + [EOS]) == Encode(l[..|l|] + [entry] + l[|l|..])
  {
    hide Encode;
    EncodeConcat(l, [entry]);
    EncodeCons(entry, []);
    assert l[..|l|] == l && l[|l|..] == [] && l + [entry] + [] == l + [entry];
  }

  // ---------------------------------------------------------------------------------------
  // Normalising a path
  // ---------------------------------------------------------------------------------------

  function Peek(s: string): char {
    if s == [] then EOS else s[0]
  }

  /** The normal form of `s`; `any`: something has been written before. */
  function Canon(s: string, any: bool): string {
    if s == [] then []
    else
      var c, next := s[0], Peek(s[1..]);
      if c == PATHSEP then
        if !any || next == PATHSEP || next == EOS then Canon(s[1..], any) else [c] + Canon(s[1..], true)
      else if c != '/' then [c] + Canon(s[1..], true)
      else if next != PATHSEP && next != EOS && next != '/' then ['/'] + Canon(s[1..], true)
      else Canon(s[1..], any)
  }

  function CharBehind(path: string, src: nat): char {
    if src + 1 < |path| then path[src + 1] else EOS
  }

  /** The character at `src` is left out; `any`: something has been written before. */
  predicate LeftOut(path: string, src: nat, any: bool)
    requires src < |path|
  {
    var c, next := path[src], CharBehind(path, src);
    if c == PATHSEP then !any || next == PATHSEP || next == EOS
    else c == '/' && (next == PATHSEP || next == EOS || next == '/')
  }

  lemma CharLeftOut(path: string, src: nat, any: bool)
    requires src < |path| && LeftOut(path, src, any)
    ensures Canon(path[src..], any) == Canon(path[src + 1..], any)
  {
    assert path[src..][1..] == path[src + 1..];
  }

  lemma CharWritten(path: string, src: nat, any: bool, out: string)
    requires src < |path| && !LeftOut(path, src, any)
    ensures out + Canon(path[src..], any) == out + [path[src]] + Canon(path[src + 1..], true)
  {
    assert path[src..][1..] == path[src + 1..];
  }

  /** canonicalize_path (ltdl.c:575-632). */
  method CanonicalizePath(path: string) returns (canonical: string)
    requires path != [] && Plain(path)
    ensures canonical == Canon(path, false)
  {
    hide Canon, Plain;
    var buf := new char[1 + |path|];
    var dest := 0;
    assert path[0..] == path;
    for src := 0 to |path|
      invariant dest <= src
      invariant Canon(path, false) == buf[..dest] + Canon(path[src..], dest > 0)
    {
      ghost var was := buf[..dest];
      var next := CharBehind(path, src);
      if LeftOut(path, src, dest > 0) {
        CharLeftOut(path, src, dest > 0);
      } else {
        CharWritten(path, src, dest > 0, was);
      }
      if path[src] == PATHSEP && (dest == 0 || next == PATHSEP || next == EOS) {
        continue;
      }
      if path[src] != '/' {
        buf[dest] := path[src];
        dest := dest + 1;
        assert buf[..dest] == was + [path[src]];
      } else if next != PATHSEP && next != EOS && next != '/' {
        buf[dest] := '/';
        dest := dest + 1;
        assert buf[..dest] == was + [path[src]];
      }
    }
    EmptyCanon(dest > 0);
    assert path[|path|..] == [];
    return buf[..dest];
  }

  lemma EmptyCanon(any: bool)
    ensures Canon([], any) == []
  {
  }

  // ---------------------------------------------------------------------------------------
  // What normalising does
  // ---------------------------------------------------------------------------------------

  /** An ordinary character, that is, neither a separator nor the end. */
  predicate Ordinary(c: char) {
    c != PATHSEP && c != EOS && c != '/'
  }

  /** Every slash is followed by an ordinary character. */
  ghost predicate Slashes(t: string) {
    forall i :: 0 <= i < |t| && t[i] == '/' ==> i + 1 < |t| && Ordinary(t[i + 1])
  }

  /** Separators stand between elements only. */
  ghost predicate Seps(t: string) {
    forall i :: 0 <= i < |t| && t[i] == PATHSEP ==> 0 < i < |t| - 1 && t[i + 1] != PATHSEP
  }

  /** A path in normal form. */
  ghost predicate Canonical(t: string) {
    Slashes(t) && Seps(t)
  }

  lemma SlashesCons(c: char, t: string)
    requires Slashes(t) && (c == '/' ==> t != [] && Ordinary(t[0]))
    ensures Slashes([c] + t)
  {
  }

  /** In every output each slash is followed by an ordinary character. */
  lemma {:induction false} CanonSlashes(s: string, any: bool)
    requires Plain(s)
    ensures Slashes(Canon(s, any))
    ensures s != [] && Ordinary(s[0]) ==> Canon(s, any) != [] && Canon(s, any)[0] == s[0]
    decreases |s|
  {
    if s != [] {
      CanonSlashes(s[1..], any);
      CanonSlashes(s[1..], true);
      SlashesCons(PATHSEP, Canon(s[1..], true));
      if s[0] != PATHSEP && (s[0] != '/' || Ordinary(Peek(s[1..]))) {
        SlashesCons(s[0], Canon(s[1..], true));
      }
    }
  }

  /** No separator stands at the end or in front of another. */
  ghost predicate Between(t: string) {
    forall i :: 0 <= i < |t| && t[i] == PATHSEP ==> i < |t| - 1 && t[i + 1] != PATHSEP
  }

  lemma BetweenCons(c: char, t: string)
    ensures Between([c] + t) <==> Between(t) && (c == PATHSEP ==> t != [] && t[0] != PATHSEP)
  {
    var u := [c] + t;
    assert forall i :: 0 <= i < |t| ==> u[i + 1] == t[i];
    if Between(u) {
      forall i | 0 <= i < |t| && t[i] == PATHSEP ensures i < |t| - 1 && t[i + 1] != PATHSEP {
        assert u[i + 1] == PATHSEP && u[i + 2] == t[i + 1];
      }
      assert u[0] == c;
    }
  }

  /** On a path whose slashes are in order only separators go, and all that should. */
  lemma {:induction false} CanonSeps(s: string, any: bool)
    requires Plain(s) && Slashes(s)
    ensures var t := Canon(s, any);
      Between(t) && (!any && t != [] ==> t[0] != PATHSEP) && (s != [] && s[0] != PATHSEP ==> t != [] && t[0] == s[0])
    decreases |s|
  {
    if s != [] {
      SlashesRest(s);
      CanonSeps(s[1..], any);
      CanonSeps(s[1..], true);
      BetweenCons(s[0], Canon(s[1..], true));
    }
  }

  lemma SlashesRest(s: string)
    requires s != [] && Plain(s) && Slashes(s)
    ensures Plain(s[1..]) && Slashes(s[1..]) && (s[0] == '/' ==> Ordinary(Peek(s[1..])))
  {
  }

  /** What is in normal form stays. */
  lemma {:induction false} CanonStays(s: string, any: bool)
    requires Plain(s) && Slashes(s)
    requires forall i :: 0 <= i < |s| && s[i] == PATHSEP ==> i < |s| - 1 && s[i + 1] != PATHSEP
    requires s != [] && s[0] == PATHSEP ==> any
    ensures Canon(s, any) == s
    decreases |s|
  {
    if s != [] {
      SlashesRest(s);
      CanonStays(s[1..], true);
      assert s == [s[0]] + s[1..];
    }
  }

  lemma {:induction false} CanonPlain(s: string, any: bool)
    requires Plain(s)
    ensures Plain(Canon(s, any))
    decreases |s|
  {
    if s != [] {
      CanonPlain(s[1..], any);
      CanonPlain(s[1..], true);
    }
  }

  /** A fixed point is exactly a path in normal form. */
  lemma CanonFixed(s: string)
    requires Plain(s)
    ensures Canon(s, false) == s <==> Canonical(s)
  {
    if Canonical(s) {
      CanonStays(s, false);
    }
    if Canon(s, false) == s {
      CanonSlashes(s, false);
      CanonSeps(s, false);
      assert forall i :: 0 <= i < |s| && s[i] == PATHSEP ==> i != 0;
    }
  }

  /** Two applications reach it on every string. */
  lemma CanonTwice(s: string)
    requires Plain(s)
    ensures Canonical(Canon(Canon(s, false), false))
    ensures Canon(Canon(Canon(s, false), false), false) == Canon(Canon(s, false), false)
  {
    CanonPlain(s, false);
    CanonSlashes(s, false);
    var t := Canon(s, false);
    CanonPlain(t, false);
    CanonSlashes(t, false);
    CanonSeps(t, false);
    var u := Canon(t, false);
    assert forall i :: 0 <= i < |u| && u[i] == PATHSEP ==> i != 0;
    CanonFixed(u);
  }

  /** An element of nothing but slashes. */
  predicate Bare(s: string) {
    s != [] && s[0] == '/' && (|s| == 1 || s[1] == PATHSEP || Bare(s[1..]))
  }

  /** Such an element behind one that is not. */
  predicate LateBare(s: string, any: bool) {
    && s != []
    && ((s[0] == PATHSEP && any && Bare(s[1..])) || LateBare(s[1..], any || (s[0] != PATHSEP && s[0] != '/')))
  }

  lemma {:induction false} NothingFirst(s: string)
    requires Plain(s) && s != [] && s[0] == PATHSEP
    ensures var t := Canon(s, true); t == [] || t[0] == PATHSEP
    decreases |s|
  {
    if |s| > 1 && s[1] == PATHSEP {
      NothingFirst(s[1..]);
    }
  }

  lemma {:induction false} BareFirst(s: string)
    requires Plain(s) && s != [] && s[0] != PATHSEP
    ensures var t := Canon(s, true); Bare(s) <==> t == [] || t[0] == PATHSEP
    decreases |s|
  {
    if s[0] == '/' && |s| > 1 {
      if s[1] == PATHSEP {
        NothingFirst(s[1..]);
      } else {
        BareFirst(s[1..]);
      }
    }
  }

  lemma {:induction false} BetweenExactly(s: string, any: bool)
    requires Plain(s)
    ensures Between(Canon(s, any)) <==> !LateBare(s, any)
    decreases |s|
  {
    if s != [] {
      BetweenExactly(s[1..], any);
      BetweenExactly(s[1..], true);
      BetweenCons(s[0], Canon(s[1..], true));
      if |s| > 1 && s[1] != PATHSEP {
        BareFirst(s[1..]);
      }
    }
  }

  lemma {:induction false} NoSepFirst(s: string)
    requires Plain(s)
    ensures var t := Canon(s, false); t != [] ==> t[0] != PATHSEP
    decreases |s|
  {
    if s != [] {
      NoSepFirst(s[1..]);
    }
  }

  /** One application is enough exactly when no element of nothing but slashes stands behind one
      that is not. */
  lemma CanonOnce(s: string)
    requires Plain(s)
    ensures Canon(Canon(s, false), false) == Canon(s, false) <==> !LateBare(s, false)
  {
    var t := Canon(s, false);
    CanonPlain(s, false);
    CanonSlashes(s, false);
    CanonFixed(t);
    BetweenExactly(s, false);
    NoSepFirst(s);
    assert Seps(t) <==> Between(t);
  }

  /** Not so for `a:/:b`. */
  lemma CanonOnceFails()
    ensures Canon("a:/:b", false) == "a::b" && Canon("a::b", false) == "a:b"
  {
    assert "a:/:b"[1..] == ":/:b" && ":/:b"[1..] == "/:b" && "/:b"[1..] == ":b" && ":b"[1..] == "b" && "b"[1..] == "";
    assert "a::b"[1..] == "::b" && "::b"[1..] == ":b";
    assert Canon("b", true) == "b" && Canon(":b", true) == ":b" && Canon("/:b", true) == ":b";
    assert Canon(":/:b", true) == "::b" && Canon("::b", true) == ":b";
  }
}
