/**
 Search paths as lists of directories: what normalising does to the elements of a path, and what
 lt_dlpath_insertdir (libltdl/ltdl.c) does to the list.
*/
module LtdlDirs {
  import opened Argz
  import opened Options
  import opened LtdlPaths

  // ---------------------------------------------------------------------------------------
  // Elements of a normalised path
  // ---------------------------------------------------------------------------------------

  predicate AllSlashes(e: string) {
    forall i :: 0 <= i < |e| ==> e[i] == '/'
  }

  /** One slash for each run of them, and none at the end. */
  function Clean(e: string): string {
    if e == [] then []
    else if e[0] == '/' && (|e| == 1 || e[1] == '/') then Clean(e[1..])
    else [e[0]] + Clean(e[1..])
  }

  /** The names between the slashes, joined by single ones, behind a slash if there was one in front. */
  lemma {:induction false} CleanMeans(e: string)
    ensures var l := Elements(e, '/');
      && (l == [] <==> AllSlashes(e))
      && Clean(e) == if l == [] then [] else (if e[0] == '/' then "/" else "") + Joined(l, '/')
    decreases |e|
  {
    if e != [] && e[0] == '/' {
      CleanMeans(e[1..]);
      CleanSlash(e);
    } else if e != [] {
      var p, rest, more := Pieces(e, '/');
      hide Clean, Elements, Joined, AllSlashes;
      CleanPiece(p, e[|p|..]);
      if more {
        CleanMeans(e[|p|..]);
        CleanName(e, p, rest);
      } else {
        CleanLast(e);
      }
    }
  }

  lemma CleanSlash(e: string)
    requires e != [] && e[0] == '/'
    ensures AllSlashes(e) <==> AllSlashes(e[1..])
    ensures Elements(e, '/') == Elements(e[1..], '/')
    ensures Clean(e) == (if |e| == 1 || e[1] == '/' then Clean(e[1..]) else ['/'] + Clean(e[1..]))
  {
    assert e == [e[0]] + e[1..];
  }

  /** A name in front of a slash. */
  lemma CleanName(e: string, p: string, rest: string)
    requires p != [] && '/' !in p && e == p + (['/'] + rest)
    requires Clean(e) == p + Clean(e[|p|..]) && Elements(e, '/') == [p] + Elements(rest, '/')
    requires var l := Elements(e[|p|..], '/'); Clean(e[|p|..]) == if l == [] then [] else "/" + Joined(l, '/')
    ensures !AllSlashes(e) && Clean(e) == Joined(Elements(e, '/'), '/') && e[0] != '/'
  {
    hide Clean, Elements, Joined;
    assert e[|p|..] == ['/'] + rest && e[0] == p[0] && p[0] in p;
    ElementsSkip(rest, '/');
    JoinedName(p, Elements(rest, '/'));
  }

  lemma JoinedName(p: string, l: seq<string>)
    ensures p + (if l == [] then [] else "/" + Joined(l, '/')) == Joined([p] + l, '/')
  {
    JoinedCons(p, l, '/');
    assert p + [] == p;
  }

  lemma CleanLast(e: string)
    requires e != [] && '/' !in e
    ensures Clean(e[|e|..]) == [] && e + [] == e && e[0] != '/' && !AllSlashes(e)
    ensures Elements([], '/') == [] && Joined([e], '/') == e && [e] + [] == [e]
  {
    assert e[0] in e;
  }

  lemma {:induction false} CleanPiece(p: string, t: string)
    requires '/' !in p
    ensures Clean(p + t) == p + Clean(t)
    decreases |p|
  {
    if p == [] {
      assert p + t == t;
    } else {
      assert (p + t)[1..] == p[1..] + t;
      CleanPiece(p[1..], t);
    }
  }

  function Cleaned(l: seq<string>): seq<string> {
    if l == [] then [] else [Clean(l[0])] + Cleaned(l[1..])
  }

  /** An element in a path that goes on with `t`. */
  lemma {:induction false} CanonElement(e: string, t: string)
    requires Plain(e) && PATHSEP !in e && (t != [] ==> t[0] == PATHSEP)
    ensures Canon(e + t, true) == Clean(e) + Canon(t, true)
    decreases |e|
  {
    if e == [] {
      assert e + t == t;
    } else {
      assert (e + t)[1..] == e[1..] + t;
      assert |e| > 1 ==> e[1] in e;
      CanonElement(e[1..], t);
    }
  }

  lemma {:induction false} CanonFirst(e: string, t: string)
    requires Plain(e) && PATHSEP !in e && (t != [] ==> t[0] == PATHSEP) && !AllSlashes(e)
    ensures Canon(e + t, false) == Clean(e) + Canon(t, true)
    decreases |e|
  {
    assert (e + t)[1..] == e[1..] + t;
    assert |e| > 1 ==> e[1] in e;
    if e[0] == '/' && (|e| == 1 || e[1] == '/') {
      CanonFirst(e[1..], t);
    } else {
      CanonElement(e[1..], t);
    }
  }

  lemma JoinedCons(e: string, l: seq<string>, sep: char)
    ensures Joined([e] + l, sep) == if l == [] then e else e + [sep] + Joined(l, sep)
    ensures Cleaned([e] + l) == [Clean(e)] + Cleaned(l)
  {
    assert ([e] + l)[1..] == l;
  }

  ghost predicate NoneBare(l: seq<string>) {
    forall i :: 0 <= i < |l| ==> !AllSlashes(l[i])
  }

  lemma CanonPiece(e: string, t: string, l: seq<string>, any: bool)
    requires Plain(e) && PATHSEP !in e && !AllSlashes(e) && (t != [] ==> t[0] == PATHSEP)
    requires Canon(t, true) == if l != [] then [PATHSEP] + Joined(Cleaned(l), PATHSEP) else []
    ensures Canon(e + t, any) == Joined(Cleaned([e] + l), PATHSEP)
  {
    hide Canon, Joined, AllSlashes, Clean, Plain;
    CanonElement(e, t);
    CanonFirst(e, t);
    JoinedCons(Clean(e), Cleaned(l), PATHSEP);
    JoinedCons(e, l, PATHSEP);
    assert Clean(e) + [] == Clean(e);
    assert Clean(e) + ([PATHSEP] + Joined(Cleaned(l), PATHSEP)) == Clean(e) + [PATHSEP] + Joined(Cleaned(l), PATHSEP);
  }

  /** When every element has something else than slashes, the normal form is the cleaned elements,
      joined by single separators. */
  lemma {:induction false} CanonJoins(s: string, any: bool)
    requires Plain(s) && NoneBare(Elements(s, PATHSEP))
    ensures var l := Elements(s, PATHSEP); var t := Joined(Cleaned(l), PATHSEP);
      Canon(s, any) == if any && l != [] && s[0] == PATHSEP then [PATHSEP] + t else t
    decreases |s|, 1
  {
    hide Joined, Cleaned, NoneBare;
    if s == [] {
      NothingJoined();
    } else if s[0] == PATHSEP {
      assert Elements(s, PATHSEP) == Elements(s[1..], PATHSEP);
      CanonJoins(s[1..], any);
      CanonJoins(s[1..], true);
      ElementsStart(s[1..]);
    } else {
      CanonJoinsElement(s, any);
    }
  }

  lemma CanonJoinsElement(s: string, any: bool)
    requires Plain(s) && NoneBare(Elements(s, PATHSEP)) && s != [] && s[0] != PATHSEP
    ensures Canon(s, any) == Joined(Cleaned(Elements(s, PATHSEP)), PATHSEP)
    decreases |s|, 0
  {
    var e, rest, more := Pieces(s, PATHSEP);
    var l := Elements(rest, PATHSEP);
    var t := if more then [PATHSEP] + rest else [];
    PlainParts(e, t);
    NoneBareCons(e, l);
    if more {
      ElementsSkip(rest, PATHSEP);
      CanonJoins(t, true);
    }
    hide Canon, Joined, Cleaned;
    NothingJoined();
    CanonPiece(e, t, l, any);
  }

  lemma NoneBareCons(e: string, l: seq<string>)
    requires NoneBare([e] + l)
    ensures !AllSlashes(e) && NoneBare(l)
  {
    assert ([e] + l)[0] == e && forall i :: 0 <= i < |l| ==> l[i] == ([e] + l)[i + 1];
  }

  lemma NothingJoined()
    ensures Joined(Cleaned([]), PATHSEP) == [] && Canon([], true) == []
  {
  }

  lemma ElementsStart(s: string)
    ensures s != [] && s[0] != PATHSEP ==> Elements(s, PATHSEP) != []
  {
  }

  lemma PlainParts(s: string, t: string)
    ensures Plain(s + t) <==> Plain(s) && Plain(t)
  {
    if Plain(s + t) {
      assert forall i :: 0 <= i < |s| ==> (s + t)[i] == s[i];
      assert forall i :: 0 <= i < |t| ==> (s + t)[|s| + i] == t[i];
    }
  }

  // ---------------------------------------------------------------------------------------
  // Joining
  // ---------------------------------------------------------------------------------------

  /** Joined pieces are in normal form exactly when each is. */
  lemma CanonicalPair(s: string, t: string)
    requires s != [] && t != []
    ensures Canonical(s + [PATHSEP] + t) <==> Canonical(s) && Canonical(t)
  {
    SlashesPair(s, t);
    SepsPair(s, t);
  }

  lemma SlashesPair(s: string, t: string)
    ensures Slashes(s + [PATHSEP] + t) <==> Slashes(s) && Slashes(t)
  {
    var u := s + [PATHSEP] + t;
    assert forall i :: 0 <= i < |t| ==> u[|s| + 1 + i] == t[i];
    if Slashes(u) {
      forall i | 0 <= i < |s| && s[i] == '/' ensures i + 1 < |s| && Ordinary(s[i + 1]) {
        assert u[i] == '/' && u[|s|] == PATHSEP;
        assert i + 1 < |s| ==> u[i + 1] == s[i + 1];
      }
      forall i | 0 <= i < |t| && t[i] == '/' ensures i + 1 < |t| && Ordinary(t[i + 1]) {
        assert u[|s| + 1 + i] == '/';
      }
    }
  }

  lemma SepsPair(s: string, t: string)
    requires s != [] && t != []
    ensures Seps(s + [PATHSEP] + t) <==> Seps(s) && Seps(t)
  {
    var u := s + [PATHSEP] + t;
    assert forall i :: 0 <= i < |t| ==> u[|s| + 1 + i] == t[i];
    if Seps(u) {
      forall i | 0 <= i < |s| && s[i] == PATHSEP ensures 0 < i < |s| - 1 && s[i + 1] != PATHSEP {
        assert u[i] == PATHSEP && u[|s|] == PATHSEP;
        assert i + 1 < |s| ==> u[i + 1] == s[i + 1];
      }
      forall i | 0 <= i < |t| && t[i] == PATHSEP ensures 0 < i < |t| - 1 && t[i + 1] != PATHSEP {
        assert u[|s| + 1 + i] == PATHSEP && u[|s|] == PATHSEP;
      }
    }
  }

  ghost predicate AllNonempty(l: seq<string>) {
    forall i :: 0 <= i < |l| ==> l[i] != []
  }

  ghost predicate AllCanonical(l: seq<string>) {
    forall i :: 0 <= i < |l| ==> Canonical(l[i])
  }

  lemma {:induction false} CanonicalJoined(l: seq<string>)
    requires l != [] && AllNonempty(l)
    ensures Joined(l, PATHSEP) != []
    ensures Canonical(Joined(l, PATHSEP)) <==> AllCanonical(l)
    decreases |l|
  {
    if |l| > 1 {
      assert l == [l[0]] + l[1..];
      CanonicalJoined(l[1..]);
      CanonicalPair(l[0], Joined(l[1..], PATHSEP));
    }
  }

  ghost predicate AllSeps(l: seq<string>) {
    forall i :: 0 <= i < |l| ==> Seps(l[i])
  }

  lemma {:induction false} SepsJoined(l: seq<string>)
    requires l != [] && AllNonempty(l)
    ensures Joined(l, PATHSEP) != [] && (Seps(Joined(l, PATHSEP)) <==> AllSeps(l))
    decreases |l|
  {
    if |l| > 1 {
      assert l == [l[0]] + l[1..];
      SepsJoined(l[1..]);
      SepsPair(l[0], Joined(l[1..], PATHSEP));
    }
  }

  /** All the elements of the pieces. */
  function Pieced(l: seq<string>): seq<string> {
    if l == [] then [] else Elements(l[0], PATHSEP) + Pieced(l[1..])
  }

  lemma {:induction false} ElementsPair(s: string, t: string)
    ensures Elements(s + [PATHSEP] + t, PATHSEP) == Elements(s, PATHSEP) + Elements(t, PATHSEP)
    decreases |s|
  {
    if s == [] {
      assert [] + [PATHSEP] + t == [PATHSEP] + t;
      ElementsSkip(t, PATHSEP);
    } else if s[0] == PATHSEP {
      ElementsPair(s[1..], t);
      assert s + [PATHSEP] + t == [PATHSEP] + (s[1..] + [PATHSEP] + t);
      ElementsSkip(s[1..] + [PATHSEP] + t, PATHSEP);
    } else {
      var e, rest, more := Pieces(s, PATHSEP);
      ElementsPair(rest, t);
      ElementsPairStep(e, rest, more, t);
    }
  }

  lemma ElementsPairStep(e: string, rest: string, more: bool, t: string)
    requires e != [] && PATHSEP !in e && (!more ==> rest == [])
    requires Elements(rest + [PATHSEP] + t, PATHSEP) == Elements(rest, PATHSEP) + Elements(t, PATHSEP)
    ensures var s := e + if more then [PATHSEP] + rest else [];
      Elements(s + [PATHSEP] + t, PATHSEP) == [e] + Elements(rest, PATHSEP) + Elements(t, PATHSEP)
  {
    hide Elements;
    var s := e + if more then [PATHSEP] + rest else [];
    if more {
      assert s + [PATHSEP] + t == e + ([PATHSEP] + (rest + [PATHSEP] + t));
      ElementsFirst(e, [PATHSEP] + (rest + [PATHSEP] + t), PATHSEP);
      ElementsSkip(rest + [PATHSEP] + t, PATHSEP);
    } else {
      assert s + [PATHSEP] + t == e + ([PATHSEP] + t);
      ElementsFirst(e, [PATHSEP] + t, PATHSEP);
      ElementsSkip(t, PATHSEP);
      NoElements();
    }
    assert [e] + (Elements(rest, PATHSEP) + Elements(t, PATHSEP))
        == [e] + Elements(rest, PATHSEP) + Elements(t, PATHSEP);
    assert [e] + [] == [e];
  }

  lemma NoElements()
    ensures Elements([], PATHSEP) == []
  {
  }

  lemma {:induction false} ElementsJoined(l: seq<string>)
    ensures Elements(Joined(l, PATHSEP), PATHSEP) == Pieced(l)
    decreases |l|
  {
    if |l| == 1 {
      assert l[1..] == [] && Elements(l[0], PATHSEP) + [] == Elements(l[0], PATHSEP);
    } else if l != [] {
      ElementsJoined(l[1..]);
      ElementsPair(l[0], Joined(l[1..], PATHSEP));
    }
  }

  lemma {:induction false} PiecedConcat(l: seq<string>, m: seq<string>)
    ensures Pieced(l + m) == Pieced(l) + Pieced(m)
    decreases |l|
  {
    if l == [] {
      assert l + m == m;
    } else {
      PiecedConcat(l[1..], m);
      assert (l + m)[1..] == l[1..] + m;
      assert Elements(l[0], PATHSEP) + (Pieced(l[1..]) + Pieced(m))
          == Elements(l[0], PATHSEP) + Pieced(l[1..]) + Pieced(m);
    }
  }

  /** Elements are not split again. */
  ghost predicate Whole(l: seq<string>) {
    forall i :: 0 <= i < |l| ==> l[i] != [] && PATHSEP !in l[i]
  }

  lemma {:induction false} PiecedWhole(l: seq<string>)
    requires Whole(l)
    ensures Pieced(l) == l
    decreases |l|
  {
    if l != [] {
      PiecedWhole(l[1..]);
      ElementsFirst(l[0], [], PATHSEP);
      assert l[0] + [] == l[0] && l == [l[0]] + l[1..];
    }
  }

  lemma {:induction false} ElementsWhole(s: string)
    ensures Whole(Elements(s, PATHSEP))
    decreases |s|
  {
    if s != [] && s[0] == PATHSEP {
      ElementsWhole(s[1..]);
    } else if s != [] {
      var e, rest, more := Pieces(s, PATHSEP);
      ElementsWhole(rest);
    }
  }

  // ---------------------------------------------------------------------------------------
  // Inserting a directory
  // ---------------------------------------------------------------------------------------

  /** Joining with zero bytes, and one at the end, is encoding. */
  lemma {:induction false} JoinedEncode(l: seq<string>)
    requires l != []
    ensures Joined(l, EOS) + [EOS] == Encode(l)
    decreases |l|
  {
    if |l| == 1 {
      EncodeCons(l[0], []);
      assert l == [l[0]];
    } else {
      JoinedEncode(l[1..]);
      assert l[0] + [EOS] + (Joined(l[1..], EOS) + [EOS]) == l[0] + [EOS] + Joined(l[1..], EOS) + [EOS];
    }
  }

  lemma {:induction false} JoinedMarked(l: seq<string>, sep: char)
    requires AllPlain(l)
    ensures Marked(Joined(l, EOS), sep) == Joined(l, sep)
    decreases |l|
  {
    if |l| > 1 {
      JoinedMarked(l[1..], sep);
    }
  }

  /** While separators are single and stand between elements, the entries of a path are its elements, and
      offsets in it are offsets among them. */
  lemma PathEntries(path: string)
    requires Plain(path) && path != [] && Seps(path)
    ensures var l := Elements(path, PATHSEP);
      && l != [] && AllPlain(l) && Squeezed(path, PATHSEP, EOS, false) + [EOS] == Encode(l)
      && Joined(l, PATHSEP) == path && |Encode(l)| == |path| + 1
      && Marked(Joined(l, EOS), PATHSEP) == path
  {
    var l, t := Elements(path, PATHSEP), Squeezed(path, PATHSEP, EOS, false);
    assert path[0] != PATHSEP && path[|path| - 1] != PATHSEP;
    SeparatedStays(path, PATHSEP, false);
    SqueezedMarked(path, PATHSEP, false);
    CreatedEntries(path, PATHSEP);
    assert l + [] == l && Trailing(path, PATHSEP) == [];
    ElementsStart(path);
    ElementsPlain(path);
    JoinedEncode(l);
    JoinedMarked(l, PATHSEP);
    assert Joined(l, EOS) == (Joined(l, EOS) + [EOS])[..|t|] == t;
  }

  lemma {:induction false} ElementsPlain(s: string)
    requires Plain(s)
    ensures AllPlain(Elements(s, PATHSEP))
    decreases |s|
  {
    if s != [] && s[0] == PATHSEP {
      ElementsPlain(s[1..]);
    } else if s != [] {
      var e, rest, more := Pieces(s, PATHSEP);
      PlainParts(e, if more then [PATHSEP] + rest else []);
      PlainParts([PATHSEP], rest);
      ElementsPlain(rest);
    }
  }

  /** Zero bytes in the vector are separators in the path. */
  lemma {:induction false} CountMarked(t: string, sep: char)
    requires sep != EOS && sep !in t
    ensures Count(Marked(t, sep), sep) == Count(t, EOS)
    decreases |t|
  {
    if t != [] {
      CountMarked(t[1..], sep);
      assert Marked(t, sep)[1..] == Marked(t[1..], sep);
    }
  }

  lemma {:induction false} SqueezedMarks(s: string, delim: char, mark: char, open: bool)
    requires mark != delim
    ensures delim !in Squeezed(s, delim, mark, open)
    decreases |s|
  {
    if s != [] {
      SqueezedMarks(s[1..], delim, mark, s[0] != delim);
    }
  }

  /** The entry that `before` points into, or the number of entries. */
  function Place(path: string, before: Option<nat>): nat
    requires before.Some? ==> before.value <= |path|
  {
    match before
    case None => |Elements(path, PATHSEP)|
    case Some(b) => Count(path[..b], PATHSEP)
  }

  /** The list with the directory in its place. */
  function Placed(l: seq<string>, k: nat, dir: string): seq<string>
    requires k <= |l|
  {
    l[..k] + [dir] + l[k..]
  }

  /** Inserting on bytes inserts in the list. */
  lemma InsertPlace(path: string, before: Option<nat>, dir: string)
    requires Plain(path) && path != [] && Seps(path) && Plain(dir)
    requires before.Some? ==> before.value <= |path|
    ensures var l := Elements(path, PATHSEP); var k := Place(path, before); var a := Encode(l);
      && k <= |l| && |a| == |path| + 1
      && Encode(Placed(l, k, dir)) == match before
         case None => a + (dir + [EOS])
         case Some(b) => InsertAt(a, StartOf(a, b), dir + [EOS])
  {
    hide Encode, Squeezed, Elements, Seps;
    PathEntries(path);
    var l := Elements(path, PATHSEP);
    match before
    case None => InsertLast(l, dir);
    case Some(b) =>
      var t := Squeezed(path, PATHSEP, EOS, false);
      assert t == Joined(l, EOS) by { JoinedEncode(l); assert (t + [EOS])[..|t|] == (Joined(l, EOS) + [EOS])[..|t|]; }
      SqueezedMarks(path, PATHSEP, EOS, false);
      assert Marked(t[..b], PATHSEP) == path[..b];
      CountMarked(t[..b], PATHSEP);
      assert Encode(l)[..b] == t[..b];
      InsertEntry(l, b, dir);
  }

  lemma JoinedFirst(l: seq<string>, sep: char)
    requires l != [] && l[0] != []
    ensures Joined(l, sep) != [] && Joined(l, sep)[0] == l[0][0]
  {
  }

  /** Joining it again. */
  lemma Rejoined(l: seq<string>)
    requires l != [] && AllPlain(l) && l[0] != []
    ensures var r := Joined(l, PATHSEP);
      Stringified(Encode(l), PATHSEP) == r + [EOS] && Plain(r) && StringAt(r + [EOS], 0) == r && |Encode(l)| >= 2
  {
    hide Encode;
    JoinedEncode(l);
    JoinedMarked(l, PATHSEP);
    JoinedFirst(l, EOS);
    StringifiedMarked(Joined(l, EOS), PATHSEP);
    var r := Joined(l, PATHSEP);
    assert Plain(r);
    assert forall k :: 0 <= k < |r| ==> (r + [EOS])[k] == r[k] && r[k] != EOS;
    assert (r + [EOS])[|r|] == EOS;
    assert IndexFrom(r + [EOS], EOS, 0) == |r|;
  }

  lemma PlacedPieces(l: seq<string>, k: nat, dir: string)
    requires Whole(l) && AllPlain(l) && k <= |l| && Plain(dir) && dir != []
    ensures var m := Placed(l, k, dir);
      && m != [] && AllPlain(m) && AllNonempty(m) && m[0] != []
      && Pieced(m) == l[..k] + Elements(dir, PATHSEP) + l[k..]
      && (AllCanonical(m) <==> AllCanonical(l) && Canonical(dir)) && (AllSeps(m) <==> Seps(dir))
  {
    PlacedPieced(l, k, dir);
    WholeSeps(l);
    hide Elements, Canonical, Plain, Pieced, Seps;
    var m := Placed(l, k, dir);
    PlacedAt(l, k, dir);
    hide Placed;
    assert AllPlain(m) && AllNonempty(m) && m[0] != [];
    PlacedBoth(l, k, dir, Canonical);
    PlacedBoth(l, k, dir, Seps);
  }

  lemma PlacedAt(l: seq<string>, k: nat, dir: string)
    requires k <= |l|
    ensures var m := Placed(l, k, dir);
      && |m| == |l| + 1
      && forall i :: 0 <= i < |m| ==> m[i] == if i < k then l[i] else if i == k then dir else l[i - 1]
  {
  }

  /** What holds of all entries after the insertion held of those before, and holds of the new one. */
  lemma PlacedBoth(l: seq<string>, k: nat, dir: string, holds: string -> bool)
    requires k <= |l|
    ensures (forall i :: 0 <= i <= |l| ==> holds(Placed(l, k, dir)[i])) <==>
            (forall i :: 0 <= i < |l| ==> holds(l[i])) && holds(dir)
  {
    var m := Placed(l, k, dir);
    PlacedAt(l, k, dir);
    hide Placed;
    assert m[k] == dir;
    assert forall i :: 0 <= i < |l| ==> l[i] == m[if i < k then i else i + 1];
  }

  lemma WholeSeps(l: seq<string>)
    requires Whole(l)
    ensures AllSeps(l)
  {
  }

  lemma PlacedPieced(l: seq<string>, k: nat, dir: string)
    requires Whole(l) && k <= |l|
    ensures Pieced(Placed(l, k, dir)) == l[..k] + Elements(dir, PATHSEP) + l[k..]
  {
    assert Pieced([dir]) == Elements(dir, PATHSEP) by {
      assert Pieced([dir]) == Elements(dir, PATHSEP) + Pieced([dir][1..]) == Elements(dir, PATHSEP);
    }
    hide Elements, Pieced;
    PiecedConcat(l[..k] + [dir], l[k..]);
    PiecedConcat(l[..k], [dir]);
    PiecedWhole(l[..k]);
    PiecedWhole(l[k..]);
  }

  /** lt_dlpath_insertdir (ltdl.c:2092-2159).  The list of directories gets those of `dir` in front of
      the entry that `before` points into, or at the end.  It is `dir` itself that is inserted, not
      its normal form: the path stays normal exactly when `dir` is, and its offsets keep their meaning
      exactly when the separators in `dir` are single and stand between elements. */
  method InsertDir(ppath: Option<string>, before: Option<nat>, dir: string) returns (path: string)
    requires Plain(dir) && Canon(dir, false) != []
    requires ppath.Some? ==> Plain(ppath.value) && ppath.value != [] && Seps(ppath.value)
    requires before.Some? ==> ppath.Some? && before.value <= |ppath.value|
    ensures Plain(path) && path != [] && (Seps(path) <==> Seps(dir))
    ensures ppath.None? ==> path == dir
    ensures ppath.Some? ==>
      var l, k := Elements(ppath.value, PATHSEP), Place(ppath.value, before);
      && k <= |l| && Elements(path, PATHSEP) == l[..k] + Elements(dir, PATHSEP) + l[k..]
      && (Canonical(path) <==> Canonical(ppath.value) && Canonical(dir))
  {
    hide Canonical, Elements, Squeezed, Encode, Stringified, Place, Whole, AllPlain, AllCanonical, AllNonempty;
    hide Seps, AllSeps;
    assert dir != [];
    var canonical := CanonicalizePath(dir);
    if ppath.None? {
      return dir;
    }
    ghost var p := ppath.value;
    ghost var l, k := Elements(p, PATHSEP), Place(p, before);
    PathEntries(p);
    InsertPlace(p, before, dir);
    ElementsWhole(p);
    PlacedPieces(l, k, dir);
    ghost var m := Placed(l, k, dir);
    Rejoined(m);
    ElementsJoined(m);
    PathCanonical(l, p);
    CanonicalJoined(m);
    SepsJoined(m);

    var v := new Vector();
    v.CreateSep(ppath.value, PATHSEP);
    v.Insert(before, dir);
    assert v.Bytes() == Encode(m);
    v.Stringify(PATHSEP);
    path := StringAt(v.argz[..v.argzLen], 0);
  }

  lemma PathCanonical(l: seq<string>, path: string)
    requires Whole(l) && l != [] && Joined(l, PATHSEP) == path
    ensures AllCanonical(l) <==> Canonical(path)
  {
    hide Canonical;
    CanonicalJoined(l);
  }
}
