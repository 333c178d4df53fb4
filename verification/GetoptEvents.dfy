/**
 What the events of a parse say: which option of the table, which value, and which part of the vector is
 the argument.
*/
module GetoptEvents {
  import opened GetoptSpec
  import opened GetoptRoles
  import opened Options

  // ---------------------------------------------------------------------------------------
  // Looking up
  // ---------------------------------------------------------------------------------------

  ghost predicate Abbreviates(name: string, longs: seq<LongOption>, i: nat) {
    i < |longs| && name <= longs[i].name
  }

  /** Two options that a name abbreviates and that do different things. */
  ghost predicate Torn(name: string, longs: seq<LongOption>, i: nat, j: nat) {
    && Abbreviates(name, longs, i) && Abbreviates(name, longs, j)
    && (longs[i].hasArg != longs[j].hasArg || longs[i].flag != longs[j].flag || longs[i].val != longs[j].val)
  }

  ghost predicate NoFullName(longs: seq<LongOption>, name: string) {
    forall i :: 0 <= i < |longs| ==> longs[i].name != name
  }

  lemma MatchMeans(longs: seq<LongOption>, name: string)
    ensures FirstMatch(longs, name, true) == |longs| <==> NoFullName(longs, name)
    ensures FirstMatch(longs, name, false) == |longs| <==> forall i: nat :: !Abbreviates(name, longs, i)
    ensures FirstMatch(longs, name, true) < |longs| ==> longs[FirstMatch(longs, name, true)].name == name
    ensures forall i: nat :: i < FirstMatch(longs, name, true) ==> longs[i].name != name
    ensures forall i: nat :: i < FirstMatch(longs, name, false) ==> !Abbreviates(name, longs, i)
    ensures FirstMatch(longs, name, false) < |longs| ==> Abbreviates(name, longs, FirstMatch(longs, name, false))
  {
    hide FirstMatch;
    var e, f := FirstMatch(longs, name, true), FirstMatch(longs, name, false);
    forall i: nat | i < e ensures longs[i].name != name {
      assert !Match(longs[i], name, true);
    }
    forall i: nat | i < f ensures !Abbreviates(name, longs, i) {
      assert !Match(longs[i], name, false);
    }
    assert e < |longs| ==> Match(longs[e], name, true);
    assert f < |longs| ==> Match(longs[f], name, false);
    assert f < |longs| ==> Abbreviates(name, longs, f);
  }

  /** A full name wins, the first one if there are several; otherwise the first option that the name
      abbreviates wins, unless two of them do different things, or, when `strict`, unless there are two. */
  lemma ResolveMeans(longs: seq<LongOption>, name: string, strict: bool)
    ensures Resolve(longs, name, strict).NotFound? <==> forall i: nat :: !Abbreviates(name, longs, i)
    ensures Resolve(longs, name, false).Ambiguous? <==>
              NoFullName(longs, name) && exists i: nat, j: nat :: Torn(name, longs, i, j)
    ensures Resolve(longs, name, true).Ambiguous? <==>
              NoFullName(longs, name)
              && exists i: nat, j: nat :: i < j && Abbreviates(name, longs, i) && Abbreviates(name, longs, j)
    ensures var r := Resolve(longs, name, strict);
      r.Found? ==>
        && Abbreviates(name, longs, r.index) && (longs[r.index].name == name || NoFullName(longs, name))
        && forall i: nat :: i < r.index && Abbreviates(name, longs, i) ==>
             longs[r.index].name == name && longs[i].name != name
  {
    hide FirstMatch;
    MatchMeans(longs, name);
    FullNameMatches(longs, name);
    if NoFullName(longs, name) {
      TornMeans(longs, name);
      StrictMeans(longs, name);
    }
  }

  lemma FullNameMatches(longs: seq<LongOption>, name: string)
    ensures !NoFullName(longs, name) ==> exists i: nat :: Abbreviates(name, longs, i)
  {
    if i :| 0 <= i < |longs| && longs[i].name == name {
      assert Abbreviates(name, longs, i);
    }
  }

  lemma TornMeans(longs: seq<LongOption>, name: string)
    ensures var f := FirstMatch(longs, name, false);
      f < |longs| && !Agreed(longs, name, f, false) <==> exists i: nat, j: nat :: Torn(name, longs, i, j)
  {
    hide FirstMatch;
    var f := FirstMatch(longs, name, false);
    MatchMeans(longs, name);
    if f < |longs| && !Agreed(longs, name, f, false) {
      var j :| f < j < |longs| && Match(longs[j], name, false) && !SameAction(longs[f], longs[j]);
      assert Torn(name, longs, f, j);
    }
    if i: nat, j: nat :| Torn(name, longs, i, j) {
      assert Match(longs[i], name, false) && Match(longs[j], name, false) && f <= i && f <= j;
      assert !SameAction(longs[f], longs[i]) || !SameAction(longs[f], longs[j]);
    }
  }

  lemma StrictMeans(longs: seq<LongOption>, name: string)
    ensures var f := FirstMatch(longs, name, false);
      f < |longs| && !Agreed(longs, name, f, true) <==>
        exists i: nat, j: nat :: i < j && Abbreviates(name, longs, i) && Abbreviates(name, longs, j)
  {
    hide FirstMatch;
    var f := FirstMatch(longs, name, false);
    MatchMeans(longs, name);
    if f < |longs| && !Agreed(longs, name, f, true) {
      var j :| f < j < |longs| && Match(longs[j], name, false);
      assert Abbreviates(name, longs, f) && Abbreviates(name, longs, j);
    }
    if i: nat, j: nat :| i < j && Abbreviates(name, longs, i) && Abbreviates(name, longs, j) {
      assert Match(longs[j], name, false) && f < j;
    }
  }

  /** An operand is empty, or does not begin with `-`, or is `-` itself. */
  lemma OperandMeans(arg: string)
    requires '\0' !in arg
    ensures NonOption(arg) <==> arg == "" || arg[0] != '-' || arg == "-"
  {
    assert |arg| > 1 ==> arg[1] in arg;
  }

  // ---------------------------------------------------------------------------------------
  // One option
  // ---------------------------------------------------------------------------------------

  /** The name in `text` ends at `k`. */
  ghost predicate NameEnds(text: string, k: nat) {
    k <= |text| && '=' !in text[..k] && (k < |text| ==> text[k] == '=')
  }

  lemma NameEnd(text: string, k: nat)
    ensures NameEnds(text, k) <==> k == IndexOf(text, '=')
  {
    hide IndexOf;
    var e := IndexOf(text, '=');
    NoneBefore(text, e, '=');
    if NameEnds(text, k) {
      NoneBefore(text, k, '=');
    }
  }

  lemma NoneBefore(text: string, k: nat, c: char)
    requires k <= |text| && c !in text[..k]
    ensures forall i :: 0 <= i < k ==> text[i] != c
  {
    forall i | 0 <= i < k ensures text[i] != c {
      assert text[..k][i] == text[i];
    }
  }

  /** `text` names option `o`, and the argument is what stands behind `=`, or the next element, or
      `default` when there is none. */
  ghost predicate Argued(o: LongOption, text: string, rest: seq<string>, default: Option<string>,
                         optarg: Option<string>) {
    forall k: nat :: NameEnds(text, k) ==>
      && text[..k] <= o.name
      && if k < |text| then o.hasArg != 0 && optarg == Some(text[k + 1..])
         else if o.hasArg == 1 then rest != [] && optarg == Some(rest[0])
         else optarg == default
  }

  /** Why a name that was found gives no option: an argument that is not allowed, or one that is
      missing. */
  ghost predicate Refused(o: LongOption, text: string, k: nat, rest: seq<string>, spec: Spec, ret: Ret) {
    if k < |text| then o.hasArg == 0 && ret == Char('?')
    else o.hasArg == 1 && rest == [] && ret == (if [':'] <= spec.optstring then Char(':') else Char('?'))
  }

  /** `--text`: a call returns the value of the option found, or 0 when the option has a flag. */
  lemma LongMeans(text: string, rest: seq<string>, spec: Spec, k: nat)
    requires spec.longopts.Some? && NameEnds(text, k)
    ensures var o, longs := LongOutcome(text, rest, spec), spec.longopts.value;
      && o.left == "" && o.taken <= 1
      && match o.event.longind
         case Some(i) =>
           && Resolve(longs, text[..k], false) == Found(i) && i < |longs| && o.event.optopt == None
           && (longs[i].flag == None ==> o.event.ret == Num(longs[i].val))
           && (longs[i].flag != None ==> o.event.ret == Num(0))
           && Argued(longs[i], text, rest, None, o.event.optarg)
           && (o.taken == 1 <==> k == |text| && longs[i].hasArg == 1)
         case None =>
           && o.taken == 0 && o.event.optarg == None
           && match Resolve(longs, text[..k], false)
              case Found(i) =>
                o.event.optopt == Some(longs[i].val) && Refused(longs[i], text, k, rest, spec, o.event.ret)
              case _ => o.event.ret == Char('?') && o.event.optopt == Some(0)
  {
    hide FirstMatch, Agreed, IndexOf;
    NameEnd(text, k);
    ResolveMeans(spec.longopts.value, text[..k], false);
    forall j: nat ensures NameEnds(text, j) ==> j == k {
      NameEnd(text, j);
    }
  }

  /** `-W text`: the same, but the argument is the text itself when there is no other, and an ambiguous
      name uses up an element. */
  lemma NamedMeans(text: string, rest: seq<string>, spec: Spec, k: nat)
    requires spec.longopts.Some? && NameEnds(text, k)
    ensures var o, longs := NamedOutcome(text, rest, spec), spec.longopts.value;
      && o.left == "" && o.taken <= 1 && o.event.optopt == None
      && match o.event.longind
         case Some(i) =>
           && Resolve(longs, text[..k], true) == Found(i) && i < |longs|
           && (longs[i].flag == None ==> o.event.ret == Num(longs[i].val))
           && (longs[i].flag != None ==> o.event.ret == Num(0))
           && Argued(longs[i], text, rest, Some(text), o.event.optarg)
           && (o.taken == 1 <==> k == |text| && longs[i].hasArg == 1)
         case None =>
           && o.event.optarg == Some(text)
           && match Resolve(longs, text[..k], true)
              case Found(i) => o.taken == 0 && Refused(longs[i], text, k, rest, spec, o.event.ret)
              case NotFound => o.taken == 0 && o.event.ret == Char('W')
              case Ambiguous => o.taken == 1 && o.event.ret == Char('?')
  {
    hide FirstMatch, Agreed, IndexOf;
    NameEnd(text, k);
    ResolveMeans(spec.longopts.value, text[..k], true);
    forall j: nat ensures NameEnds(text, j) ==> j == k {
      NameEnd(text, j);
    }
  }

  /** The letter `c` is declared at `q`. */
  ghost predicate Declared(opts: string, c: char, q: nat) {
    q < |opts| && opts[q] == c && c !in opts[..q] && c != ':'
  }

  lemma DeclaredAt(opts: string, c: char, q: nat)
    ensures Declared(opts, c, q) ==> q == IndexOf(opts, c) && c in opts
    ensures c != ':' && c in opts ==> Declared(opts, c, IndexOf(opts, c))
    ensures c in opts <==> IndexOf(opts, c) < |opts|
  {
    hide IndexOf;
    var e := IndexOf(opts, c);
    NoneBefore(opts, e, c);
    if Declared(opts, c, q) {
      NoneBefore(opts, q, c);
    }
  }

  /** A letter: what follows its declaration decides about the argument. */
  lemma ShortMeans(cluster: string, rest: seq<string>, spec: Spec, q: nat)
    requires cluster != "" && Usable(spec)
    ensures var o, c, tail, opts := ShortOutcome(cluster, rest, spec), cluster[0], cluster[1..], spec.optstring;
      && (c !in opts || c == ':' ==> o == Outcome(Event(Char('?'), None, Some(c as int), None), tail, 0))
      && (Declared(opts, c, q) ==>
           var more := opts[q + 1..];
           if c == 'W' && ";" <= more then
             spec.longopts.Some? &&
             (if tail != "" then o == NamedOutcome(tail, rest, spec)
              else if rest != [] then
                var n := NamedOutcome(rest[0], rest[1..], spec); o == n.(taken := 1 + n.taken)
              else MissesArgument(o, c, opts))
           else if ":" <= more then
             if tail != "" then o == Outcome(Event(Char(c), Some(tail), None, None), "", 0)
             else if "::" <= more then o == Outcome(Event(Char(c), None, None, None), "", 0)
             else if rest != [] then o == Outcome(Event(Char(c), Some(rest[0]), None, None), "", 1)
             else MissesArgument(o, c, opts)
           else o == Outcome(Event(Char(c), None, None, None), tail, 0))
  {
    hide IndexOf, NamedOutcome;
    DeclaredAt(spec.optstring, cluster[0], q);
  }

  ghost predicate MissesArgument(o: Outcome, c: char, opts: string) {
    o == Outcome(Event(Char(if ":" <= opts then ':' else '?'), None, Some(c as int), None), "", 0)
  }

  // ---------------------------------------------------------------------------------------
  // A whole vector
  // ---------------------------------------------------------------------------------------

  /** The text behind place `p` of the first element, or the next element when there is none. */
  function Behind(args: seq<string>, p: nat): (r: Option<string>)
    requires args != [] && p < |args[0]|
  {
    if p + 1 < |args[0]| then Some(args[0][p + 1..]) else if |args| > 1 then Some(args[1]) else None
  }

  /** What is behind that text. */
  function Onward(args: seq<string>, p: nat): (r: seq<string>)
    requires args != [] && p < |args[0]|
  {
    if p + 1 < |args[0]| then args[1..] else if |args| > 1 then args[2..] else []
  }

  /** The first element has `--` and a name of `o`; or a `W` at `p`, whose text is one. */
  ghost predicate NamedIn(args: seq<string>, o: LongOption, optarg: Option<string>)
    requires args != []
  {
    || ("--" <= args[0] && Argued(o, args[0][2..], args[1..], None, optarg))
    || (exists p: nat :: WNamedIn(args, p, o, optarg))
  }

  ghost predicate WNamedIn(args: seq<string>, p: nat, o: LongOption, optarg: Option<string>)
    requires args != []
  {
    && p < |args[0]| && args[0][p] == 'W' && Behind(args, p).Some?
    && Argued(o, Behind(args, p).value, Onward(args, p), Behind(args, p), optarg)
  }

  /** The letter stands in the first element at `p`, and was declared at `q`. */
  ghost predicate LetterIn(args: seq<string>, opts: string, p: nat, q: nat, c: char, optarg: Option<string>)
    requires args != []
  {
    && p < |args[0]| && args[0][p] == c && Declared(opts, c, q)
    && var more := opts[q + 1..];
       if c == 'W' && ";" <= more then optarg.Some? && optarg == Behind(args, p)
       else if "::" <= more then optarg == if p + 1 < |args[0]| then Behind(args, p) else None
       else if ":" <= more then optarg.Some? && optarg == Behind(args, p)
       else optarg == None
  }

  /** The event is that of an option in the first element: a long option; a letter; or an error. */
  ghost predicate Given(e: Event, args: seq<string>, spec: Spec)
    requires args != []
  {
    match e.longind
    case Some(i) =>
      spec.longopts.Some? && i < |spec.longopts.value| && NamedIn(args, spec.longopts.value[i], e.optarg)
    case None =>
      e.ret.Char? && (e.ret.c != '?' && e.ret.c != ':' ==>
        exists p: nat, q: nat :: LetterIn(args, spec.optstring, p, q, e.ret.c, e.optarg))
  }

  lemma LongGiven(args: seq<string>, spec: Spec)
    requires args != [] && "--" <= args[0] && spec.longopts.Some?
    ensures Given(LongOutcome(args[0][2..], args[1..], spec).event, args, spec)
  {
    var text := args[0][2..];
    hide LongOutcome, IndexOf, Argued;
    NameEnd(text, IndexOf(text, '='));
    LongMeans(text, args[1..], spec, IndexOf(text, '='));
  }

  lemma LetterGiven(args: seq<string>, spec: Spec, p: nat)
    requires args != [] && p < |args[0]| && Usable(spec)
    ensures Given(ShortOutcome(args[0][p..], args[1..], spec).event, args, spec)
  {
    hide IndexOf, ShortOutcome, NamedOutcome, Argued, Declared;
    var cluster, rest, c := args[0][p..], args[1..], args[0][p];
    var q := IndexOf(spec.optstring, c);
    var o := ShortOutcome(cluster, rest, spec);
    assert cluster[0] == c && cluster[1..] == args[0][p + 1..];
    DeclaredAt(spec.optstring, c, q);
    ShortMeans(cluster, rest, spec, q);
    if c in spec.optstring && c != ':' {
      if c == 'W' && ";" <= spec.optstring[q + 1..] {
        if Behind(args, p).Some? {
          var text := Behind(args, p).value;
          NameEnd(text, IndexOf(text, '='));
          NamedMeans(text, Onward(args, p), spec, IndexOf(text, '='));
          assert o.event == NamedOutcome(text, Onward(args, p), spec).event;
          assert o.event.longind.Some? ==>
            WNamedIn(args, p, spec.longopts.value[o.event.longind.value], o.event.optarg);
          assert o.event.longind.None? && o.event.ret == Char('W') ==>
            LetterIn(args, spec.optstring, p, q, c, o.event.optarg);
        }
      } else {
        assert o.event.ret == Char(c) && c != '?' ==> LetterIn(args, spec.optstring, p, q, c, o.event.optarg);
      }
    }
  }

  lemma NextGiven(left: string, args: seq<string>, spec: Spec)
    requires args != [] && Usable(spec) && Inside(left, args) && (left == "" ==> !NonOption(args[0]) && args[0] != "--")
    ensures Given(NextOutcome(left, args, spec).event, args, spec)
  {
    hide LongOutcome, ShortOutcome, Given;
    if left != "" {
      LetterGiven(args, spec, |args[0]| - |left|);
    } else if spec.longopts.Some? && args[0][1] == '-' {
      LongGiven(args, spec);
    } else {
      LetterGiven(args, spec, 1);
    }
  }

  /** The event is that of an option in the first element, or of an operand returned in order. */
  ghost predicate From(e: Event, args: seq<string>, ordering: Ordering, now: Spec, later: Spec)
    requires args != []
  {
    || Given(e, args, now) || Given(e, args, later)
    || (ordering == ReturnInOrder && NonOption(args[0]) && e == Event(Num(1), Some(args[0]), None, None))
  }

  ghost predicate FromSome(e: Event, args: seq<string>, ordering: Ordering, now: Spec, later: Spec) {
    exists j: nat :: j < |args| && From(e, args[j..], ordering, now, later)
  }

  /** Every event comes from an element: an option of the table that the element names, with the
      argument that stands behind it; a letter of the element, likewise; or an operand. */
  lemma {:induction false} EventsFrom(ordering: Ordering, now: Spec, later: Spec, left: string, args: seq<string>)
    requires Usable(now) && Usable(later) && Inside(left, args)
    ensures forall e :: e in Parse(ordering, now, later, left, args).events ==> FromSome(e, args, ordering, now, later)
    decreases |args|, if left != "" then |left| else if args != [] then |args[0]| else 0
  {
    hide Parse, NextOutcome, Usable, From, EndsWith;
    if left == "" && (args == [] || NonOption(args[0]) || args[0] == "--") {
      ParseStops(ordering, now, later, args);
      if args != [] && args[0] != "--" && ordering != RequireOrder {
        ParseOperand(now, later, args);
        var next := if ordering == ReturnInOrder then later else now;
        EventsFrom(ordering, next, later, "", args[1..]);
        FromRest(ordering, now, later, args, 1, Parse(ordering, next, later, "", args[1..]).events, next);
        if ordering == ReturnInOrder {
          FromFirst(Event(Num(1), Some(args[0]), None, None), args, ordering, now, later);
        }
      }
    } else {
      ParseTakes(ordering, now, later, left, args);
      LeftEnds(left, args, now);
      NextGiven(left, args, now);
      var o := NextOutcome(left, args, now);
      FromFirst(o.event, args, ordering, now, later);
      var k := if o.left == "" then 1 + o.taken else 0;
      if k <= |args| {
        EventsFrom(ordering, later, later, o.left, args[k..]);
        FromRest(ordering, now, later, args, k, Parse(ordering, later, later, o.left, args[k..]).events, later);
      }
    }
  }

  lemma FromFirst(e: Event, args: seq<string>, ordering: Ordering, now: Spec, later: Spec)
    requires args != []
    requires Given(e, args, now) ||
      (ordering == ReturnInOrder && NonOption(args[0]) && e == Event(Num(1), Some(args[0]), None, None))
    ensures FromSome(e, args, ordering, now, later)
  {
    hide Given;
    assert args[0..] == args;
    assert From(e, args[0..], ordering, now, later);
  }

  lemma FromRest(ordering: Ordering, now: Spec, later: Spec, args: seq<string>, k: nat, events: seq<Event>, next: Spec)
    requires k <= |args| && (next == now || next == later)
    requires forall e :: e in events ==> FromSome(e, args[k..], ordering, next, later)
    ensures forall e :: e in events ==> FromSome(e, args, ordering, now, later)
  {
    hide Given;
    forall e | e in events ensures FromSome(e, args, ordering, now, later) {
      var j: nat :| j < |args[k..]| && From(e, args[k..][j..], ordering, next, later);
      assert args[k..][j..] == args[k + j..];
      assert From(e, args[k + j..], ordering, now, later);
    }
  }

  /** The value of a long option is the caller's, or 0 when the option has a flag. */
  lemma {:induction false} ValuesReturned(ordering: Ordering, now: Spec, later: Spec, left: string, args: seq<string>)
    requires Usable(now) && Usable(later) && (left != "" ==> args != []) && now.longopts == later.longopts
    ensures forall e | e in Parse(ordering, now, later, left, args).events && e.longind.Some? ::
      var i := e.longind.value;
      && later.longopts.Some? && i < |later.longopts.value|
      && (later.longopts.value[i].flag == None ==> e.ret == Num(later.longopts.value[i].val))
      && (later.longopts.value[i].flag != None ==> e.ret == Num(0))
    decreases |args|, if left != "" then |left| else if args != [] then |args[0]| else 0
  {
    hide Parse, NextOutcome, Usable;
    if left == "" && (args == [] || NonOption(args[0]) || args[0] == "--") {
      ParseStops(ordering, now, later, args);
      if args != [] && args[0] != "--" && ordering != RequireOrder {
        ParseOperand(now, later, args);
        ValuesReturned(ordering, if ordering == ReturnInOrder then later else now, later, "", args[1..]);
      }
    } else {
      ParseTakes(ordering, now, later, left, args);
      NextValue(left, args, now);
      var o := NextOutcome(left, args, now);
      var k := if o.left == "" then 1 + o.taken else 0;
      if k <= |args| {
        ValuesReturned(ordering, later, later, o.left, args[k..]);
      }
    }
  }

  /** The value that goes with the option of an event. */
  ghost predicate Valued(e: Event, spec: Spec) {
    e.longind.Some? ==>
      && spec.longopts.Some? && e.longind.value < |spec.longopts.value|
      && var o := spec.longopts.value[e.longind.value];
         (o.flag == None ==> e.ret == Num(o.val)) && (o.flag != None ==> e.ret == Num(0))
  }

  lemma NextValue(left: string, args: seq<string>, spec: Spec)
    requires args != [] && Usable(spec) && (left == "" ==> !NonOption(args[0]) && args[0] != "--")
    ensures Valued(NextOutcome(left, args, spec).event, spec)
  {
    hide LongOutcome, NamedOutcome, IndexOf, Valued;
    if spec.longopts.Some? {
      forall text, rest ensures Valued(LongOutcome(text, rest, spec).event, spec) {
        LongValue(text, rest, spec);
      }
      forall text, rest ensures Valued(NamedOutcome(text, rest, spec).event, spec) {
        NamedValue(text, rest, spec);
      }
    }
    forall ret, optarg, optopt ensures Valued(Event(ret, optarg, optopt, None), spec) {
      NoValue(ret, optarg, optopt, spec);
    }
  }

  lemma LongValue(text: string, rest: seq<string>, spec: Spec)
    requires spec.longopts.Some?
    ensures Valued(LongOutcome(text, rest, spec).event, spec)
  {
    hide LongOutcome, IndexOf, Argued, Refused;
    NameEnd(text, IndexOf(text, '='));
    LongMeans(text, rest, spec, IndexOf(text, '='));
  }

  lemma NamedValue(text: string, rest: seq<string>, spec: Spec)
    requires spec.longopts.Some?
    ensures Valued(NamedOutcome(text, rest, spec).event, spec)
  {
    hide NamedOutcome, IndexOf, Argued, Refused;
    NameEnd(text, IndexOf(text, '='));
    NamedMeans(text, rest, spec, IndexOf(text, '='));
  }

  lemma NoValue(ret: Ret, optarg: Option<string>, optopt: Option<int>, spec: Spec)
    ensures Valued(Event(ret, optarg, optopt, None), spec)
  {
  }

  lemma AllValued(ordering: Ordering, now: Spec, later: Spec, left: string, args: seq<string>)
    requires Usable(now) && Usable(later) && (left != "" ==> args != []) && now.longopts == later.longopts
    ensures forall e :: e in Parse(ordering, now, later, left, args).events ==> Valued(e, later)
  {
    hide Parse, Usable;
    ValuesReturned(ordering, now, later, left, args);
  }
}
