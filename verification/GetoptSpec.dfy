/**
 The option scanner of 3rdparty/getopt/getopt.c.  `Parse` reads an argument vector once, from left
 to right, and says which events a caller should see and how the vector should end up; it knows
 nothing of calls, of resuming inside an element, or of moving arguments.  The scanner of
 GetoptScanner is proved against it.
*/
module GetoptSpec {
  import opened Options

  datatype Ordering = RequireOrder | Permute | ReturnInOrder

  /** `flag` stands for the address in `struct option`; only its identity matters. */
  datatype LongOption = LongOption(name: string, hasArg: int, flag: Option<int>, val: int)

  datatype Spec = Spec(optstring: string, longopts: Option<seq<LongOption>>)

  /** The value of a call: a character or a number. */
  datatype Ret = Char(c: char) | Num(n: int)

  /** What one call hands to its caller; `optopt` and `longind` only when it sets them. */
  datatype Event = Event(ret: Ret, optarg: Option<string>, optopt: Option<int>, longind: Option<nat>)

  /** A call that finds no more options. */
  const DONE := Event(Num(-1), None, None, None)

  /** One option taken off an element: what is left of the element, and how many of the elements
      behind it are used up when nothing is left. */
  datatype Outcome = Outcome(event: Event, left: string, taken: nat)

  // ---------------------------------------------------------------------------------------
  // Looking names up
  // ---------------------------------------------------------------------------------------

  datatype Lookup = NotFound | Ambiguous | Found(index: nat)

  predicate Match(o: LongOption, name: string, exact: bool) {
    if exact then o.name == name else name <= o.name
  }

  function FirstMatch(longs: seq<LongOption>, name: string, exact: bool): (r: nat)
    ensures r <= |longs|
    ensures forall j :: 0 <= j < r ==> !Match(longs[j], name, exact)
    ensures r < |longs| ==> Match(longs[r], name, exact)
  {
    if longs == [] then 0
    else if Match(longs[0], name, exact) then 0
    else
      var rest := longs[1..];
      assert forall j :: 1 <= j < |longs| ==> longs[j] == rest[j - 1];
      1 + FirstMatch(rest, name, exact)
  }

  /** The index of the first `c`, or the length. */
  function IndexOf(s: string, c: char): (r: nat)
    ensures r <= |s| && c !in s[..r]
    ensures r < |s| ==> s[r] == c
  {
    if s == "" then 0
    else if s[0] == c then 0
    else
      var r := 1 + IndexOf(s[1..], c);
      assert s[..r] == [s[0]] + s[1..][..r - 1];
      r
  }

  predicate SameAction(a: LongOption, b: LongOption) {
    a.hasArg == b.hasArg && a.flag == b.flag && a.val == b.val
  }

  /** Every other option that `name` abbreviates does what option `f` does; or, when `strict`,
      there is no other. */
  predicate Agreed(longs: seq<LongOption>, name: string, f: nat, strict: bool)
    requires f < |longs|
  {
    forall j :: f < j < |longs| && Match(longs[j], name, false) ==> !strict && SameAction(longs[f], longs[j])
  }

  /** The first exact match; else the first option that `name` abbreviates, if the others agree. */
  function Resolve(longs: seq<LongOption>, name: string, strict: bool): (r: Lookup)
    ensures r.Found? ==> r.index < |longs|
  {
    var e, f := FirstMatch(longs, name, true), FirstMatch(longs, name, false);
    if e < |longs| then Found(e)
    else if f == |longs| then NotFound
    else if Agreed(longs, name, f, strict) then Found(f)
    else Ambiguous
  }

  /** What `-W name` resolves to, `--name` resolves to. */
  lemma StrictFindsLess(longs: seq<LongOption>, name: string)
    ensures Resolve(longs, name, true).Found? ==> Resolve(longs, name, false) == Resolve(longs, name, true)
    ensures Resolve(longs, name, true).NotFound? <==> Resolve(longs, name, false).NotFound?
  {
    var f := FirstMatch(longs, name, false);
    assert f < |longs| && Agreed(longs, name, f, true) ==> Agreed(longs, name, f, false);
  }

  /** They differ exactly on a name that is no option's own, abbreviates two options or more, and
      all of these do the same. */
  lemma StrictDiffers(longs: seq<LongOption>, name: string)
    ensures Resolve(longs, name, true) != Resolve(longs, name, false) <==>
      && (forall i :: 0 <= i < |longs| ==> longs[i].name != name)
      && (exists i, j :: 0 <= i < j < |longs| && name <= longs[i].name && name <= longs[j].name)
      && (forall i, j :: 0 <= i < j < |longs| && name <= longs[i].name && name <= longs[j].name
            ==> SameAction(longs[i], longs[j]))
  {
    hide FirstMatch;
    var e, f := FirstMatch(longs, name, true), FirstMatch(longs, name, false);
    if forall i :: 0 <= i < |longs| ==> longs[i].name != name {
      if Resolve(longs, name, true) != Resolve(longs, name, false) {
        assert f < |longs| && Match(longs[f], name, false);
        var j :| f < j < |longs| && Match(longs[j], name, false);
        assert name <= longs[f].name && name <= longs[j].name;
        forall i, k | 0 <= i < k < |longs| && name <= longs[i].name && name <= longs[k].name
          ensures SameAction(longs[i], longs[k])
        {
          assert Match(longs[i], name, false) && Match(longs[k], name, false);
        }
      }
      if i, j :| 0 <= i < j < |longs| && name <= longs[i].name && name <= longs[j].name {
        assert Match(longs[i], name, false) && Match(longs[j], name, false);
        assert f <= i;
      }
    } else {
      var i :| 0 <= i < |longs| && longs[i].name == name;
      assert Match(longs[i], name, true);
    }
  }

  // ---------------------------------------------------------------------------------------
  // One option
  // ---------------------------------------------------------------------------------------

  function At(s: string, i: nat): char {
    if i < |s| then s[i] else '\0'
  }

  /** What a missing argument is reported as. */
  function Missing(spec: Spec): Ret {
    Char(if At(spec.optstring, 0) == ':' then ':' else '?')
  }

  function Value(o: LongOption): Ret {
    Num(if o.flag.Some? then 0 else o.val)
  }

  /** Long option `i`, given as `text` with its name ending at `e`. */
  function Take(spec: Spec, i: nat, o: LongOption, text: string, e: nat, rest: seq<string>,
                optarg: Option<string>, optopt: Option<int>): (r: Outcome)
    requires e <= |text|
    ensures r.left == "" && r.taken <= |rest|
  {
    if e < |text| then
      if o.hasArg != 0 then Outcome(Event(Value(o), Some(text[e + 1..]), None, Some(i)), "", 0)
      else Outcome(Event(Char('?'), optarg, optopt, None), "", 0)
    else if o.hasArg == 1 then
      if rest != [] then Outcome(Event(Value(o), Some(rest[0]), None, Some(i)), "", 1)
      else Outcome(Event(Missing(spec), optarg, optopt, None), "", 0)
    else Outcome(Event(Value(o), optarg, None, Some(i)), "", 0)
  }

  function LongOutcome(text: string, rest: seq<string>, spec: Spec): Outcome
    requires spec.longopts.Some?
  {
    var e := IndexOf(text, '=');
    match Resolve(spec.longopts.value, text[..e], false)
    case Found(i) =>
      var o := spec.longopts.value[i];
      Take(spec, i, o, text, e, rest, None, Some(o.val))
    case _ => Outcome(Event(Char('?'), None, Some(0), None), "", 0)
  }

  /** `-W text`.  An ambiguous name uses up one more element. */
  function NamedOutcome(text: string, rest: seq<string>, spec: Spec): Outcome
    requires spec.longopts.Some?
  {
    var e := IndexOf(text, '=');
    match Resolve(spec.longopts.value, text[..e], true)
    case Found(i) => Take(spec, i, spec.longopts.value[i], text, e, rest, Some(text), None)
    case NotFound => Outcome(Event(Char('W'), Some(text), None, None), "", 0)
    case Ambiguous => Outcome(Event(Char('?'), Some(text), None, None), "", 1)
  }

  /** `-W`, whose name is what is left of the element, or the next element. */
  function NextNamedOutcome(left: string, rest: seq<string>, spec: Spec): Outcome
    requires spec.longopts.Some?
  {
    if left != "" then NamedOutcome(left, rest, spec)
    else if rest == [] then Outcome(Event(Missing(spec), None, Some('W' as int), None), "", 0)
    else var o := NamedOutcome(rest[0], rest[1..], spec); o.(taken := 1 + o.taken)
  }

  /** `W;` sends the name to the table of long options. */
  predicate IsNamed(optstring: string, c: char) {
    c == 'W' && c in optstring && At(optstring, IndexOf(optstring, c) + 1) == ';'
  }

  /** `W;` needs the table. */
  predicate Usable(spec: Spec) {
    IsNamed(spec.optstring, 'W') ==> spec.longopts.Some?
  }

  /** The first letter of a nonempty cluster; `rest` is behind the element. */
  function ShortOutcome(cluster: string, rest: seq<string>, spec: Spec): (r: Outcome)
    requires cluster != "" && Usable(spec)
    ensures |r.left| < |cluster| && r.taken <= |rest| + 1
  {
    var c, left, opts := cluster[0], cluster[1..], spec.optstring;
    var k := IndexOf(opts, c);
    if k == |opts| || c == ':' then Outcome(Event(Char('?'), None, Some(c as int), None), left, 0)
    else if IsNamed(opts, c) then NextNamedOutcome(left, rest, spec)
    else if At(opts, k + 1) != ':' then Outcome(Event(Char(c), None, None, None), left, 0)
    else if left != "" then Outcome(Event(Char(c), Some(left), None, None), "", 0)
    else if At(opts, k + 2) == ':' then Outcome(Event(Char(c), None, None, None), "", 0)
    else if rest == [] then Outcome(Event(Missing(spec), None, Some(c as int), None), "", 0)
    else Outcome(Event(Char(c), Some(rest[0]), None, None), "", 1)
  }

  // ---------------------------------------------------------------------------------------
  // A whole vector
  // ---------------------------------------------------------------------------------------

  predicate NonOption(arg: string) {
    At(arg, 0) != '-' || At(arg, 1) == '\0'
  }

  /** The first option of the first element. */
  function ElementOutcome(args: seq<string>, spec: Spec): (r: Outcome)
    requires args != [] && !NonOption(args[0]) && args[0] != "--" && Usable(spec)
    ensures |r.left| < |args[0]| && r.taken <= |args|
  {
    if spec.longopts.Some? && args[0][1] == '-' then LongOutcome(args[0][2..], args[1..], spec)
    else ShortOutcome(args[0][1..], args[1..], spec)
  }

  /** The events of a vector, the elements the options take up, and the operands.  `overrun`: a
      call steps over the end of the vector. */
  datatype Parsed = Parsed(events: seq<Event>, options: seq<string>, operands: seq<string>, overrun: bool)

  /** `left` is what remains of the first of `args`.  The first event comes from a call with `now`,
      the others from calls with `later`. */
  function Parse(ordering: Ordering, now: Spec, later: Spec, left: string, args: seq<string>): Parsed
    requires Usable(now) && Usable(later) && (left != "" ==> args != [])
    decreases |args|, if left != "" then |left| else if args != [] then |args[0]| else 0
  {
    if left == "" && args == [] then Parsed([], [], [], false)
    else if left == "" && args[0] == "--" then Parsed([], args[..1], args[1..], false)
    else if left == "" && NonOption(args[0]) then
      if ordering == Permute then
        var p := Parse(ordering, now, later, "", args[1..]);
        p.(operands := args[..1] + p.operands)
      else if ordering == RequireOrder then Parsed([], [], args, false)
      else
        var p := Parse(ordering, later, later, "", args[1..]);
        p.(events := [Event(Num(1), Some(args[0]), None, None)] + p.events, options := args[..1] + p.options)
    else
      var o := if left != "" then ShortOutcome(left, args[1..], now) else ElementOutcome(args, now);
      if o.left != "" then
        var p := Parse(ordering, later, later, o.left, args);
        p.(events := [o.event] + p.events)
      else if 1 + o.taken > |args| then Parsed([o.event], args, [], true)
      else
        var p := Parse(ordering, later, later, "", args[1 + o.taken..]);
        p.(events := [o.event] + p.events, options := args[..1 + o.taken] + p.options)
  }

  // ---------------------------------------------------------------------------------------
  // Parsing one step
  // ---------------------------------------------------------------------------------------

  /** What there is to do at a position: `left` of an element, or the whole of it. */
  function NextOutcome(left: string, args: seq<string>, spec: Spec): (r: Outcome)
    requires args != [] && Usable(spec) && (left == "" ==> !NonOption(args[0]) && args[0] != "--")
    ensures |r.left| < if left != "" then |left| else |args[0]|
  {
    if left != "" then ShortOutcome(left, args[1..], spec) else ElementOutcome(args, spec)
  }

  function Skipping(skipped: seq<string>, p: Parsed): Parsed {
    p.(operands := skipped + p.operands)
  }

  lemma ParseOperand(now: Spec, later: Spec, args: seq<string>)
    requires Usable(now) && Usable(later) && args != [] && NonOption(args[0])
    ensures Parse(Permute, now, later, "", args) ==
            Skipping(args[..1], Parse(Permute, now, later, "", args[1..]))
  {
    hide ShortOutcome, ElementOutcome, Usable;
  }

  function Consing(event: Event, taken: seq<string>, p: Parsed): Parsed {
    Parsed([event] + p.events, taken + p.options, p.operands, p.overrun)
  }

  lemma ParseTakes(ordering: Ordering, now: Spec, later: Spec, left: string, args: seq<string>)
    requires args != [] && Usable(now) && Usable(later)
    requires left == "" ==> !NonOption(args[0]) && args[0] != "--"
    ensures
      var o := NextOutcome(left, args, now);
      var k := if o.left == "" then 1 + o.taken else 0;
      Parse(ordering, now, later, left, args) ==
        if k > |args| then Parsed([o.event], args, [], true)
        else Consing(o.event, args[..k], Parse(ordering, later, later, o.left, args[k..]))
    ensures NextOutcome(left, args, now).taken <= |args|
  {
    hide ShortOutcome, ElementOutcome;
    assert args[0..] == args;
  }

  /** The parse of a vector that does not start with an option. */
  lemma ParseStops(ordering: Ordering, now: Spec, later: Spec, args: seq<string>)
    requires Usable(now) && Usable(later)
    ensures
      var p := Parse(ordering, now, later, "", args);
      if args == [] then p == Parsed([], [], [], false)
      else if args[0] == "--" then p == Parsed([], args[..1], args[1..], false)
      else if NonOption(args[0]) && ordering == RequireOrder then p == Parsed([], [], args, false)
      else if NonOption(args[0]) && ordering == ReturnInOrder then
        p == Consing(Event(Num(1), Some(args[0]), None, None), args[..1], Parse(ordering, later, later, "", args[1..]))
      else true
  {
    hide ShortOutcome, ElementOutcome;
  }

  // ---------------------------------------------------------------------------------------
  // What a parse means
  // ---------------------------------------------------------------------------------------

  /** The elements marked `which`, in order. */
  function Pick(args: seq<string>, mask: seq<bool>, which: bool): seq<string>
    requires |mask| == |args|
  {
    if args == [] then []
    else (if mask[0] == which then args[..1] else []) + Pick(args[1..], mask[1..], which)
  }

  lemma {:induction false} PickConcat(s: seq<string>, t: seq<string>, m: seq<bool>, n: seq<bool>, which: bool)
    requires |m| == |s| && |n| == |t|
    ensures Pick(s + t, m + n, which) == Pick(s, m, which) + Pick(t, n, which)
    decreases |s|
  {
    if s == [] {
      assert s + t == t && m + n == n;
    } else {
      PickConcat(s[1..], t, m[1..], n, which);
      assert (s + t)[1..] == s[1..] + t && (m + n)[1..] == m[1..] + n && (s + t)[..1] == s[..1];
      var head := if m[0] == which then s[..1] else [];
      assert Pick(s + t, m + n, which) == head + Pick(s[1..] + t, m[1..] + n, which);
      assert Pick(s, m, which) == head + Pick(s[1..], m[1..], which);
    }
  }

  lemma {:induction false} PickSame(s: seq<string>, mark: bool)
    ensures var m := seq(|s|, _ => mark); Pick(s, m, mark) == s && Pick(s, m, !mark) == []
    decreases |s|
  {
    if s != [] {
      PickSame(s[1..], mark);
      assert seq(|s|, _ => mark)[1..] == seq(|s[1..]|, _ => mark);
    }
  }

  lemma {:induction false} PickAll(s: seq<string>, m: seq<bool>)
    requires |m| == |s|
    ensures multiset(Pick(s, m, true)) + multiset(Pick(s, m, false)) == multiset(s)
    decreases |s|
  {
    if s != [] {
      PickAll(s[1..], m[1..]);
      assert s == s[..1] + s[1..];
      assert Pick(s, m, m[0]) == s[..1] + Pick(s[1..], m[1..], m[0]);
      assert Pick(s, m, !m[0]) == Pick(s[1..], m[1..], !m[0]);
    }
  }

  /** Marking the first `k` elements alike and the others by `n`. */
  function Marked(k: nat, mark: bool, n: seq<bool>): (m: seq<bool>)
    ensures |m| == k + |n|
    ensures k > 0 ==> m[0] == mark
  {
    seq(k, _ => mark) + n
  }

  lemma PickMarked(args: seq<string>, k: nat, mark: bool, n: seq<bool>)
    requires k + |n| == |args|
    ensures Pick(args, Marked(k, mark, n), mark) == args[..k] + Pick(args[k..], n, mark)
    ensures Pick(args, Marked(k, mark, n), !mark) == Pick(args[k..], n, !mark)
  {
    var m := seq(k, _ => mark);
    assert args == args[..k] + args[k..];
    PickSame(args[..k], mark);
    PickConcat(args[..k], args[k..], m, n, mark);
    PickConcat(args[..k], args[k..], m, n, !mark);
  }

  /** A call steps over the end exactly when the last element is, or ends in, a `-W` name that two
      options or more begin with. */
  lemma OverrunExactly(cluster: string, rest: seq<string>, spec: Spec)
    requires cluster != "" && Usable(spec)
    ensures
      var o := ShortOutcome(cluster, rest, spec);
      var text := if |cluster| > 1 then cluster[1..] else if rest != [] then rest[0] else "";
      o.left == "" && o.taken > |rest| <==>
        && IsNamed(spec.optstring, cluster[0])
        && |cluster| + |rest| > 1 && |rest| == (if |cluster| > 1 then 0 else 1)
        && Resolve(spec.longopts.value, text[..IndexOf(text, '=')], true).Ambiguous?
  {
    hide Resolve;
  }

  /** Without `W;` no call ever does. */
  lemma {:induction false} NoOverrun(ordering: Ordering, now: Spec, later: Spec, left: string, args: seq<string>)
    requires Usable(now) && Usable(later) && (left != "" ==> args != [])
    requires !IsNamed(now.optstring, 'W') && !IsNamed(later.optstring, 'W')
    ensures !Parse(ordering, now, later, left, args).overrun
    decreases |args|, if left != "" then |left| else if args != [] then |args[0]| else 0
  {
    hide Resolve;
    if left == "" && (args == [] || args[0] == "--") {
    } else if left == "" && NonOption(args[0]) {
      NoOverrun(ordering, if ordering == Permute then now else later, later, "", args[1..]);
    } else {
      var o := if left != "" then ShortOutcome(left, args[1..], now) else ElementOutcome(args, now);
      if o.left != "" {
        NoOverrun(ordering, later, later, o.left, args);
      } else if 1 + o.taken <= |args| {
        NoOverrun(ordering, later, later, "", args[1 + o.taken..]);
      }
    }
  }

  /** No option is reported as -1. */
  predicate Clear(spec: Spec) {
    spec.longopts.Some? ==> forall i :: 0 <= i < |spec.longopts.value| ==> Value(spec.longopts.value[i]) != Num(-1)
  }

  predicate NoneDone(events: seq<Event>) {
    forall i :: 0 <= i < |events| ==> events[i].ret != Num(-1)
  }

  lemma OutcomeNotDone(left: string, args: seq<string>, spec: Spec)
    requires args != [] && Usable(spec) && Clear(spec)
    ensures left != "" ==> ShortOutcome(left, args[1..], spec).event.ret != Num(-1)
    ensures !NonOption(args[0]) && args[0] != "--" ==> ElementOutcome(args, spec).event.ret != Num(-1)
  {
    hide NamedOutcome, LongOutcome, IndexOf, Clear;
    if spec.longopts.Some? {
      forall text, rest ensures NamedOutcome(text, rest, spec).event.ret != Num(-1) {
        NamedNotDone(text, rest, spec);
      }
      forall text, rest ensures LongOutcome(text, rest, spec).event.ret != Num(-1) {
        LongNotDone(text, rest, spec);
      }
    }
  }

  lemma NamedNotDone(text: string, rest: seq<string>, spec: Spec)
    requires spec.longopts.Some? && Clear(spec)
    ensures NamedOutcome(text, rest, spec).event.ret != Num(-1)
  {
    hide Resolve, IndexOf;
  }

  lemma LongNotDone(text: string, rest: seq<string>, spec: Spec)
    requires spec.longopts.Some? && Clear(spec)
    ensures LongOutcome(text, rest, spec).event.ret != Num(-1)
  {
    hide Resolve, IndexOf;
  }

  /** The events before the last are none of them mistaken for it. */
  lemma {:induction false} EventsNotDone(ordering: Ordering, now: Spec, later: Spec, left: string, args: seq<string>)
    requires Usable(now) && Usable(later) && (left != "" ==> args != []) && Clear(now) && Clear(later)
    ensures NoneDone(Parse(ordering, now, later, left, args).events)
    decreases |args|, if left != "" then |left| else if args != [] then |args[0]| else 0
  {
    hide ShortOutcome, ElementOutcome, Clear, Usable;
    if left == "" && (args == [] || args[0] == "--") {
    } else if left == "" && NonOption(args[0]) {
      EventsNotDone(ordering, if ordering == Permute then now else later, later, "", args[1..]);
    } else {
      OutcomeNotDone(left, args, now);
      var o := if left != "" then ShortOutcome(left, args[1..], now) else ElementOutcome(args, now);
      if o.left != "" {
        EventsNotDone(ordering, later, later, o.left, args);
        assert Parse(ordering, now, later, left, args).events
            == [o.event] + Parse(ordering, later, later, o.left, args).events;
      } else if 1 + o.taken <= |args| {
        EventsNotDone(ordering, later, later, "", args[1 + o.taken..]);
        assert Parse(ordering, now, later, left, args).events
            == [o.event] + Parse(ordering, later, later, "", args[1 + o.taken..]).events;
      }
    }
  }
}
