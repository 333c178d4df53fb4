/**
 The vectors of libltdl/argz.c: entries one after the other in a buffer, each ended by a zero byte.
 `Encode` and `Decode` say which list of strings a buffer stands for.
*/
module Argz {
  import opened Options

  const EOS := '\0'

  // ---------------------------------------------------------------------------------------
  // Lists in buffers
  // ---------------------------------------------------------------------------------------

  /** What a C string can hold. */
  ghost predicate Plain(s: string) {
    forall i :: 0 <= i < |s| ==> s[i] != EOS
  }

  ghost predicate AllPlain(l: seq<string>) {
    forall i :: 0 <= i < |l| ==> Plain(l[i])
  }

  function Encode(l: seq<string>): string {
    if l == [] then [] else l[0] + [EOS] + Encode(l[1..])
  }

  lemma EncodeShows()
    ensures Encode([]) == "" && Encode(["a", "bc"]) == "a\0bc\0"
  {
    assert ["a", "bc"][1..] == ["bc"] && ["bc"][1..] == [];
  }

  /** Nothing, or a buffer that ends with a zero byte. */
  ghost predicate Ended(a: string) {
    a == [] || a[|a| - 1] == EOS
  }

  /** The index of the first `c` from `i` on, or the length. */
  function IndexFrom(a: string, c: char, i: nat): (j: nat)
    requires i <= |a|
    ensures i <= j <= |a|
    ensures forall k :: i <= k < j ==> a[k] != c
    ensures j < |a| ==> a[j] == c
    decreases |a| - i
  {
    if i == |a| || a[i] == c then i else IndexFrom(a, c, i + 1)
  }

  function Decode(a: string): seq<string>
    requires Ended(a)
  {
    if a == [] then []
    else
      var n := IndexFrom(a, EOS, 0);
      [a[..n]] + Decode(a[n + 1..])
  }

  lemma {:induction false} EncodeEnded(l: seq<string>)
    ensures Ended(Encode(l))
    decreases |l|
  {
    if l != [] {
      EncodeEnded(l[1..]);
    }
  }

  lemma DecodeFirst(e: string, a: string)
    requires Plain(e) && Ended(a)
    ensures Ended(e + [EOS] + a) && Decode(e + [EOS] + a) == [e] + Decode(a)
  {
    var t := e + [EOS] + a;
    var n := IndexFrom(t, EOS, 0);
    assert t[|e|] == EOS;
    assert forall k :: 0 <= k < |e| ==> t[k] == e[k];
    assert n == |e|;
    assert t[..n] == e && t[n + 1..] == a;
  }

  /** Every list of strings comes back. */
  lemma {:induction false} DecodeEncode(l: seq<string>)
    requires AllPlain(l)
    ensures Ended(Encode(l)) && Decode(Encode(l)) == l
    decreases |l|
  {
    if l != [] {
      DecodeEncode(l[1..]);
      DecodeFirst(l[0], Encode(l[1..]));
      assert l == [l[0]] + l[1..];
    }
  }

  lemma EncodeCons(e: string, l: seq<string>)
    ensures Encode([e] + l) == e + [EOS] + Encode(l)
    ensures Encode([e]) == e + [EOS]
  {
    assert ([e] + l)[1..] == l && [e][1..] == [];
    assert e + [EOS] + [] == e + [EOS];
  }

  lemma DecodeSplits(a: string) returns (n: nat)
    requires Ended(a) && a != []
    ensures n < |a| && Plain(a[..n]) && a == a[..n] + [EOS] + a[n + 1..] && Ended(a[n + 1..])
    ensures Decode(a) == [a[..n]] + Decode(a[n + 1..])
  {
    n := IndexFrom(a, EOS, 0);
  }

  /** Every buffer comes back. */
  lemma {:induction false} EncodeDecode(a: string)
    requires Ended(a)
    ensures Encode(Decode(a)) == a && AllPlain(Decode(a))
    decreases |a|
  {
    if a != [] {
      var n := DecodeSplits(a);
      EncodeDecode(a[n + 1..]);
      hide Decode, Encode, Ended, Plain;
      EncodeCons(a[..n], Decode(a[n + 1..]));
    }
  }

  lemma {:induction false} EncodeConcat(l: seq<string>, m: seq<string>)
    ensures Encode(l + m) == Encode(l) + Encode(m)
    decreases |l|
  {
    if l == [] {
      assert l + m == m;
    } else {
      EncodeConcat(l[1..], m);
      assert (l + m)[1..] == l[1..] + m;
      assert l[0] + [EOS] + (Encode(l[1..]) + Encode(m)) == l[0] + [EOS] + Encode(l[1..]) + Encode(m);
    }
  }

  // ---------------------------------------------------------------------------------------
  // Entries and offsets
  // ---------------------------------------------------------------------------------------

  /** How many `c` there are. */
  function Count(s: string, c: char): nat {
    if s == [] then 0 else (if s[0] == c then 1 else 0) + Count(s[1..], c)
  }

  /** The offset of entry `k`. */
  function Offset(l: seq<string>, k: nat): nat
    requires k <= |l|
  {
    |Encode(l[..k])|
  }

  /** Where the entry that `before` points into starts. */
  function StartOf(a: string, before: nat): (i: nat)
    requires before <= |a|
    ensures i <= before && (i == 0 || a[i - 1] == EOS)
    ensures forall j :: i <= j < before ==> a[j] != EOS
  {
    if before > 0 && a[before - 1] != EOS then StartOf(a, before - 1) else before
  }

  function InsertAt(a: string, i: nat, b: string): string
    requires i <= |a|
  {
    a[..i] + b + a[i..]
  }

  lemma {:induction false} CountConcat(s: string, t: string, c: char)
    ensures Count(s + t, c) == Count(s, c) + Count(t, c)
    decreases |s|
  {
    if s == [] {
      assert s + t == t;
    } else {
      CountConcat(s[1..], t, c);
      assert (s + t)[1..] == s[1..] + t;
    }
  }

  lemma {:induction false} CountNone(s: string, c: char)
    requires forall i :: 0 <= i < |s| ==> s[i] != c
    ensures Count(s, c) == 0
    decreases |s|
  {
    if s != [] {
      CountNone(s[1..], c);
    }
  }

  lemma {:induction false} CountEncode(l: seq<string>)
    requires AllPlain(l)
    ensures Count(Encode(l), EOS) == |l|
    decreases |l|
  {
    if l != [] {
      CountEncode(l[1..]);
      CountNone(l[0], EOS);
      CountConcat(l[0], [EOS], EOS);
      CountConcat(l[0] + [EOS], Encode(l[1..]), EOS);
    }
  }

  lemma BothPlain(l: seq<string>, m: seq<string>)
    requires AllPlain(l) && AllPlain(m)
    ensures AllPlain(l + m)
  {
  }

  lemma EncodeInjective(l: seq<string>, m: seq<string>)
    requires AllPlain(l) && AllPlain(m) && Encode(l) == Encode(m)
    ensures l == m
  {
    DecodeEncode(l);
    DecodeEncode(m);
  }

  lemma Parts<T>(s: seq<T>, t: seq<T>)
    ensures (s + t)[..|s|] == s && (s + t)[|s|..] == t
  {
  }

  /** A prefix that is empty or ends with a zero byte holds the first entries. */
  lemma PrefixEntries(l: seq<string>, i: nat)
    requires AllPlain(l) && i <= |Encode(l)| && (i == 0 || Encode(l)[i - 1] == EOS)
    ensures var a := Encode(l); var k := Count(a[..i], EOS);
      k <= |l| && a[..i] == Encode(l[..k]) && a[i..] == Encode(l[k..])
  {
    var a := Encode(l);
    EncodeEnded(l);
    assert Ended(a[..i]) && Ended(a[i..]) && a == a[..i] + a[i..];
    SplitEntries(l, a[..i], a[i..]);
  }

  lemma SplitEntries(l: seq<string>, a: string, b: string)
    requires AllPlain(l) && Encode(l) == a + b && Ended(a) && Ended(b)
    ensures var k := Count(a, EOS); k <= |l| && a == Encode(l[..k]) && b == Encode(l[k..])
  {
    hide Encode, Decode, Count, AllPlain, Ended;
    EncodeDecode(a);
    EncodeDecode(b);
    var m, n := Decode(a), Decode(b);
    BothPlain(m, n);
    EncodeConcat(m, n);
    EncodeInjective(l, m + n);
    CountEncode(m);
    Parts(m, n);
  }

  /** Inserting bytes where an entry starts inserts an entry. */
  lemma InsertEntry(l: seq<string>, before: nat, entry: string)
    requires AllPlain(l) && Plain(entry) && before <= |Encode(l)|
    ensures var a := Encode(l); var k := Count(a[..before], EOS);
      && k <= |l|
      && InsertAt(a, StartOf(a, before), entry + [EOS]) == Encode(l[..k] + [entry] + l[k..])
  {
    hide Encode, Count, Plain;
    var a := Encode(l);
    var i := StartOf(a, before);
    PrefixEntries(l, i);
    var k := Count(a[..before], EOS);
    assert k == Count(a[..i], EOS) by {
      assert a[..before] == a[..i] + a[i..before];
      CountNone(a[i..before], EOS);
      CountConcat(a[..i], a[i..before], EOS);
    }
    EncodeConcat(l[..k], [entry]);
    EncodeConcat(l[..k] + [entry], l[k..]);
    EncodeCons(entry, []);
  }

  // ---------------------------------------------------------------------------------------
  // Splitting at delimiters
  // ---------------------------------------------------------------------------------------

  /** `s` without leading delimiters, and `mark` for each run of them after that; `open`: something
      that is no delimiter has just been written. */
  function Squeezed(s: string, delim: char, mark: char, open: bool): string {
    if s == [] then []
    else if s[0] != delim then [s[0]] + Squeezed(s[1..], delim, mark, true)
    else (if open then [mark] else []) + Squeezed(s[1..], delim, mark, false)
  }

  /** The pieces between delimiters that are not empty. */
  function Elements(s: string, delim: char): seq<string>
    decreases |s|
  {
    if s == [] then []
    else if s[0] == delim then Elements(s[1..], delim)
    else
      var n := IndexFrom(s, delim, 0);
      [s[..n]] + Elements(s[n..], delim)
  }

  /** No delimiter in front, and none behind another. */
  ghost predicate Separated(t: string, delim: char) {
    (t != [] ==> t[0] != delim) && forall i :: 0 <= i < |t| - 1 ==> t[i] != delim || t[i + 1] != delim
  }

  /** Zero bytes become `sep`. */
  function Marked(t: string, sep: char): (r: string)
    ensures |r| == |t|
    ensures forall i :: 0 <= i < |t| ==> r[i] == if t[i] == EOS then sep else t[i]
  {
    seq(|t|, i requires 0 <= i < |t| => if t[i] == EOS then sep else t[i])
  }

  /** What argz_stringify leaves: neither the first nor the last byte is changed. */
  function Stringified(a: string, sep: char): string {
    seq(|a|, i requires 0 <= i < |a| => if 1 <= i < |a| - 1 && a[i] == EOS then sep else a[i])
  }

  function Joined(l: seq<string>, sep: char): string {
    if l == [] then [] else if |l| == 1 then l[0] else l[0] + [sep] + Joined(l[1..], sep)
  }

  lemma {:induction false} SqueezedSeparated(s: string, delim: char, open: bool)
    ensures var t := Squeezed(s, delim, delim, open);
      && (forall i :: 0 <= i < |t| - 1 ==> t[i] != delim || t[i + 1] != delim)
      && (!open && t != [] ==> t[0] != delim)
    decreases |s|
  {
    if s != [] {
      SqueezedSeparated(s[1..], delim, s[0] != delim);
    }
  }

  lemma {:induction false} SeparatedStays(s: string, delim: char, open: bool)
    requires forall i :: 0 <= i < |s| - 1 ==> s[i] != delim || s[i + 1] != delim
    requires s != [] && s[0] == delim ==> open
    ensures Squeezed(s, delim, delim, open) == s
    decreases |s|
  {
    if s != [] {
      assert s[1..] != [] ==> s[1..][0] == s[1];
      SeparatedStays(s[1..], delim, s[0] != delim);
      assert s == [s[0]] + s[1..];
    }
  }

  lemma {:induction false} SqueezedMarked(s: string, delim: char, open: bool)
    requires Plain(s)
    ensures Marked(Squeezed(s, delim, EOS, open), delim) == Squeezed(s, delim, delim, open)
    decreases |s|
  {
    if s != [] {
      SqueezedMarked(s[1..], delim, s[0] != delim);
      var head := if s[0] != delim then [s[0]] else if open then [EOS] else [];
      assert Squeezed(s, delim, EOS, open) == head + Squeezed(s[1..], delim, EOS, s[0] != delim);
    }
  }

  lemma StringifiedMarked(t: string, sep: char)
    requires t != [] && t[0] != EOS
    ensures Stringified(t + [EOS], sep) == Marked(t, sep) + [EOS]
  {
  }

  /** argz_create_sep, then argz_stringify: the string without leading delimiters, and with one
      for each run of them. */
  lemma RoundTrip(s: string, delim: char)
    requires Plain(s) && exists i :: 0 <= i < |s| && s[i] != delim
    ensures var t := Squeezed(s, delim, delim, false);
      && Stringified(Squeezed(s, delim, EOS, false) + [EOS], delim) == t + [EOS]
      && Separated(t, delim) && Elements(t, delim) == Elements(s, delim)
  {
    var t := Squeezed(s, delim, EOS, false);
    var i :| 0 <= i < |s| && s[i] != delim;
    SqueezedFirst(s, delim, i);
    SqueezedMarked(s, delim, false);
    SqueezedSeparated(s, delim, false);
    SqueezedElements(s, delim);
    StringifiedMarked(t, delim);
  }

  lemma {:induction false} SqueezedFirst(s: string, delim: char, i: nat)
    requires Plain(s) && i < |s| && s[i] != delim
    ensures var t := Squeezed(s, delim, EOS, false); t != [] && t[0] != EOS
    decreases |s|
  {
    if s[0] == delim {
      SqueezedFirst(s[1..], delim, i - 1);
    }
  }

  /** An element stays as it is. */
  lemma {:induction false} SqueezedElement(e: string, t: string, delim: char, mark: char, open: bool)
    requires delim !in e && e != []
    ensures Squeezed(e + t, delim, mark, open) == e + Squeezed(t, delim, mark, true)
    decreases |e|
  {
    assert (e + t)[1..] == e[1..] + t && e == [e[0]] + e[1..];
    if |e| > 1 {
      SqueezedElement(e[1..], t, delim, mark, true);
    } else {
      assert e[1..] + t == t;
    }
  }

  lemma ElementsFirst(e: string, t: string, delim: char)
    requires delim !in e && e != [] && (t != [] ==> t[0] == delim)
    ensures Elements(e + t, delim) == [e] + Elements(t, delim)
  {
    var s := e + t;
    assert forall k :: 0 <= k < |e| ==> s[k] == e[k] && s[k] != delim;
    assert t != [] ==> s[|e|] == delim;
    assert IndexFrom(s, delim, 0) == |e|;
    assert s[..|e|] == e && s[|e|..] == t;
  }

  lemma ElementsSkip(t: string, delim: char)
    ensures Elements([delim] + t, delim) == Elements(t, delim)
  {
    assert ([delim] + t)[1..] == t;
  }

  /** The first element of a string, and what follows its delimiter. */
  lemma Pieces(s: string, delim: char) returns (e: string, rest: string, more: bool)
    requires s != [] && s[0] != delim
    ensures e != [] && delim !in e && |rest| < |s| && s == e + (if more then [delim] + rest else [])
    ensures (!more ==> rest == [])
    ensures Elements(s, delim) == [e] + Elements(rest, delim)
  {
    var n := IndexFrom(s, delim, 0);
    e, more := s[..n], n < |s|;
    rest := if more then s[n + 1..] else [];
    assert s[n..] == if more then [delim] + rest else [];
    assert s == s[..n] + s[n..];
    if more {
      ElementsSkip(rest, delim);
    }
  }

  lemma {:induction false} SqueezedElements(s: string, delim: char)
    ensures Elements(Squeezed(s, delim, delim, false), delim) == Elements(s, delim)
    decreases |s|
  {
    if s == [] {
    } else if s[0] == delim {
      SqueezedElements(s[1..], delim);
      assert [] + Squeezed(s[1..], delim, delim, false) == Squeezed(s[1..], delim, delim, false);
    } else {
      var e, rest, more := Pieces(s, delim);
      SqueezedElements(rest, delim);
      SqueezedRest(e, rest, more, delim, delim);
      var t := Squeezed(rest, delim, delim, false);
      ElementsFirst(e, if more then [delim] + t else [], delim);
      ElementsSkip(t, delim);
    }
  }

  lemma SqueezedRest(e: string, rest: string, more: bool, delim: char, mark: char)
    requires e != [] && delim !in e
    ensures Squeezed(e + (if more then [delim] + rest else []), delim, mark, false)
         == e + if more then [mark] + Squeezed(rest, delim, mark, false) else []
  {
    SqueezedElement(e, if more then [delim] + rest else [], delim, mark, false);
    assert ([delim] + rest)[1..] == rest;
  }

  /** A delimiter at the end, or nothing at all, leaves an empty entry. */
  function Trailing(s: string, delim: char): seq<string> {
    if s == [] || s[|s| - 1] == delim then [""] else []
  }

  lemma CreatedMore(e: string, t: string, l: seq<string>, m: seq<string>)
    requires t + [EOS] == Encode(l + m)
    ensures e + ([EOS] + t) + [EOS] == Encode([e] + l + m)
  {
    hide Encode;
    EncodeCons(e, l + m);
    assert [e] + l + m == [e] + (l + m);
    assert e + [EOS] + (t + [EOS]) == e + ([EOS] + t) + [EOS];
  }

  /** The entries argz_create_sep makes. */
  lemma {:induction false} CreatedEntries(s: string, delim: char)
    ensures Squeezed(s, delim, EOS, false) + [EOS] == Encode(Elements(s, delim) + Trailing(s, delim))
    decreases |s|
  {
    if s == [] {
      EncodeCons("", []);
    } else if s[0] == delim {
      CreatedEntries(s[1..], delim);
      assert [] + Squeezed(s[1..], delim, EOS, false) == Squeezed(s[1..], delim, EOS, false);
    } else {
      var e, rest, more := Pieces(s, delim);
      SqueezedRest(e, rest, more, delim, EOS);
      if more {
        CreatedEntries(rest, delim);
        assert Trailing(s, delim) == Trailing(rest, delim);
        CreatedMore(e, Squeezed(rest, delim, EOS, false), Elements(rest, delim), Trailing(rest, delim));
      } else {
        assert s == e && Trailing(s, delim) == [];
        EncodeCons(e, []);
        assert [e] + [] + [] == [e];
      }
    }
  }

  // ---------------------------------------------------------------------------------------
  // The buffer
  // ---------------------------------------------------------------------------------------

  /** `*pargz` and `*pargz_len`. */
  class Vector {
    var argz: array<char>
    var argzLen: nat

    ghost predicate Valid()
      reads this
    {
      argzLen <= argz.Length
    }

    ghost function Bytes(): string
      requires Valid()
      reads this, argz
    {
      argz[..argzLen]
    }

    constructor ()
      ensures Valid() && Bytes() == [] && fresh(argz)
    {
      argz, argzLen := new char[0], 0;
    }

    /** argz_append (argz.c:48-76). */
    method Append(buf: string)
      requires Valid()
      modifies this
      ensures Valid() && Bytes() == old(Bytes()) + buf
      ensures argz == old(argz) || fresh(argz)
    {
      if |buf| == 0 {
        return;
      }
      var len := argzLen + |buf|;
      var grown := new char[len];
      forall i | 0 <= i < argzLen {
        grown[i] := argz[i];
      }
      forall i | 0 <= i < |buf| {
        grown[argzLen + i] := buf[i];
      }
      assert grown[..len] == argz[..argzLen] + buf;
      argz, argzLen := grown, len;
    }

    /** argz_create_sep (argz.c:79-128). */
    method CreateSep(str: string, delim: char)
      requires Plain(str) && delim != EOS
      modifies this
      ensures Valid() && fresh(argz) && Bytes() == Squeezed(str, delim, EOS, false) + [EOS]
    {
      var len := 1 + |str|;
      var a := new char[len];
      var q := 0;
      for p := 0 to |str|
        invariant q <= p && len == q + (|str| - p) + 1
        invariant Squeezed(str, delim, EOS, false)
               == a[..q] + Squeezed(str[p..], delim, EOS, q > 0 && a[q - 1] != EOS)
      {
        assert str[p..] == [str[p]] + str[p + 1..];
        if str[p] == delim {
          if q > 0 && a[q - 1] != EOS {
            a[q] := EOS;
            q := q + 1;
          } else {
            len := len - 1;
          }
        } else {
          a[q] := str[p];
          q := q + 1;
        }
      }
      a[q] := EOS;
      argz, argzLen := a, len;
    }

    /** argz_insert (argz.c:131-174). */
    method Insert(before: Option<nat>, entry: string)
      requires Valid() && entry != [] && (before.Some? ==> before.value < argzLen)
      modifies this
      ensures Valid() && (argz == old(argz) || fresh(argz))
      ensures Bytes() == match before
        case None => old(Bytes()) + (entry + [EOS])
        case Some(b) => InsertAt(old(Bytes()), StartOf(old(Bytes()), b), entry + [EOS])
    {
      if before.None? {
        Append(entry + [EOS]);
        return;
      }
      var b := before.value;
      while b > 0 && argz[b - 1] != EOS
        invariant 0 <= b <= before.value && StartOf(Bytes(), b) == StartOf(Bytes(), before.value)
      {
        b := b - 1;
      }
      Shift(b, entry + [EOS]);
    }

    /** Making room and copying (argz.c:148-171). */
    method Shift(b: nat, entry: string)
      requires Valid() && b <= argzLen
      modifies this
      ensures Valid() && fresh(argz) && Bytes() == InsertAt(old(Bytes()), b, entry)
    {
      var grown := Enlarged(b, entry);
      Shifted(argz[..argzLen], b, entry, grown[..]);
      argz, argzLen := grown, grown.Length;
      assert argz[..argzLen] == argz[..];
    }

    /** The larger buffer, with the tail moved up. */
    method Enlarged(b: nat, entry: string) returns (grown: array<char>)
      requires Valid() && b <= argzLen
      ensures fresh(grown) && grown.Length == argzLen + |entry|
      ensures forall i :: 0 <= i < b ==> grown[i] == argz[i]
      ensures forall i :: b <= i < b + |entry| ==> grown[i] == entry[i - b]
      ensures forall i :: b + |entry| <= i < grown.Length ==> grown[i] == argz[i - |entry|]
    {
      grown := new char[argzLen + |entry|];
      forall i | 0 <= i < b {
        grown[i] := argz[i];
      }
      forall i | b + |entry| <= i < grown.Length {
        grown[i] := argz[i - |entry|];
      }
      forall i | b <= i < b + |entry| {
        grown[i] := entry[i - b];
      }
    }

    /** argz_next (argz.c:177-208), with offsets for pointers. */
    method Next(entry: Option<nat>) returns (next: Option<nat>)
      requires Valid() && Ended(Bytes()) && (entry.Some? ==> entry.value < argzLen)
      ensures next == NextOffset(Bytes(), entry)
    {
      if entry.None? {
        return if argzLen > 0 then Some(0) else None;
      }
      var i := entry.value;
      while argz[i] != EOS
        invariant i < argzLen && IndexFrom(Bytes(), EOS, i) == IndexFrom(Bytes(), EOS, entry.value)
        decreases argzLen - i
      {
        i := i + 1;
      }
      return if i + 1 >= argzLen then None else Some(i + 1);
    }

    /** argz_stringify (argz.c:211-225). */
    method Stringify(sep: char)
      requires Valid() && (sep != EOS ==> argzLen >= 2)
      modifies argz
      ensures Valid() && Bytes() == if sep == EOS then old(Bytes()) else Stringified(old(Bytes()), sep)
    {
      if sep != EOS {
        var i := argzLen - 1;
        i := i - 1;
        while i > 0
          invariant 0 <= i <= argzLen - 2
          invariant forall k :: 0 <= k < argzLen ==>
            argz[k] == if i < k < argzLen - 1 && old(argz[k]) == EOS then sep else old(argz[k])
        {
          if argz[i] == EOS {
            argz[i] := sep;
          }
          i := i - 1;
        }
      }
    }
  }

  lemma Shifted(a: string, b: nat, entry: string, r: string)
    requires b <= |a| && |r| == |a| + |entry|
    requires forall i :: 0 <= i < b ==> r[i] == a[i]
    requires forall i :: b <= i < b + |entry| ==> r[i] == entry[i - b]
    requires forall i :: b + |entry| <= i < |r| ==> r[i] == a[i - |entry|]
    ensures r == InsertAt(a, b, entry)
  {
  }

  function NextOffset(a: string, entry: Option<nat>): Option<nat>
    requires Ended(a) && (entry.Some? ==> entry.value < |a|)
  {
    if entry.None? then if a != [] then Some(0) else None
    else var j := IndexFrom(a, EOS, entry.value) + 1; if j >= |a| then None else Some(j)
  }

  /** Stepping from entry to entry. */
  lemma NextEntry(l: seq<string>, k: nat)
    requires AllPlain(l) && k < |l|
    ensures Ended(Encode(l)) && Offset(l, k) < |Encode(l)|
    ensures NextOffset(Encode(l), Some(Offset(l, k))) == if k + 1 < |l| then Some(Offset(l, k + 1)) else None
    ensures StringAt(Encode(l), Offset(l, k)) == l[k]
  {
    EncodeEnded(l);
    hide Encode, NextOffset, StringAt;
    var front, back := l[..k], l[k + 1..];
    assert l == front + ([l[k]] + back) && l[..k + 1] == front + [l[k]];
    EncodeConcat(front, [l[k]] + back);
    EncodeCons(l[k], back);
    EncodeConcat(front, [l[k]]);
    EncodeEmpty(back);
    EntryAt(Encode(front), l[k], Encode(back));
  }

  lemma EntryAt(front: string, e: string, back: string)
    requires Plain(e)
    ensures var a, i := front + (e + [EOS] + back), |front|; var j := |front + (e + [EOS])|;
      && IndexFrom(a, EOS, i) == j - 1 && StringAt(a, i) == e
      && (Ended(a) ==> NextOffset(a, Some(i)) == if back != [] then Some(j) else None)
  {
    var a, i := front + (e + [EOS] + back), |front|;
    assert forall j :: i <= j < i + |e| ==> a[j] == e[j - i];
    assert a[i + |e|] == EOS;
    assert IndexFrom(a, EOS, i) == i + |e|;
  }

  lemma EncodeEmpty(l: seq<string>)
    ensures Encode(l) == [] <==> l == []
  {
  }

  /** The string that starts at `i`. */
  function StringAt(a: string, i: nat): string
    requires i <= |a|
  {
    a[i..IndexFrom(a, EOS, i)]
  }
}
