/**
 What a parse makes of each element of the vector: option, argument, operand, or lost.
*/
module GetoptRoles {
  import opened GetoptSpec
  import opened Options

  /** An operand; an element with options; the `--` that ends them; an operand returned in order; the
      argument handed out with `event`; the name behind a lone `-W`; or an element lost to an
      ambiguous name. */
  datatype Role =
    | Operand
    | OptionElement
    | Dashes
    | Returned(event: Event)
    | Argument(event: Event)
    | Name(event: Event)
    | Swallowed(event: Event)

  /** The letters still to come from the first element, when it is not a long option. */
  function Cluster(left: string, args: seq<string>): string
    requires args != [] && (left == "" ==> !NonOption(args[0]))
  {
    if left != "" then left else args[0][1..]
  }

  /** The option to be taken is a `-W` with a name. */
  predicate TakesName(left: string, args: seq<string>, spec: Spec)
    requires args != [] && (left == "" ==> !NonOption(args[0]))
  {
    && !(left == "" && spec.longopts.Some? && args[0][1] == '-')
    && IsNamed(spec.optstring, Cluster(left, args)[0])
    && |Cluster(left, args)| + |args| > 2
  }

  /** That name: the rest of the element, or the next element. */
  function NameTaken(left: string, args: seq<string>, spec: Spec): string
    requires args != [] && (left == "" ==> !NonOption(args[0])) && TakesName(left, args, spec)
  {
    if |Cluster(left, args)| > 1 then Cluster(left, args)[1..] else args[1]
  }

  /** Two options or more begin with it, and none is it. */
  predicate NameUnclear(left: string, args: seq<string>, spec: Spec)
    requires args != [] && Usable(spec) && (left == "" ==> !NonOption(args[0]))
  {
    TakesName(left, args, spec) &&
    var name := NameTaken(left, args, spec);
    Resolve(spec.longopts.value, name[..IndexOf(name, '=')], true).Ambiguous?
  }

  /** The name is an element of its own. */
  predicate LoneName(left: string, args: seq<string>, spec: Spec)
    requires args != [] && (left == "" ==> !NonOption(args[0]))
  {
    TakesName(left, args, spec) && |Cluster(left, args)| == 1
  }

  /** The role of the last element that an option uses up. */
  function LastRole(left: string, args: seq<string>, spec: Spec, e: Event): (r: Role)
    requires args != [] && Usable(spec) && (left == "" ==> !NonOption(args[0]))
    ensures r == Swallowed(e) || r == Argument(e)
  {
    if NameUnclear(left, args, spec) then Swallowed(e) else Argument(e)
  }

  /** An element, and those that its last option uses up. */
  function Block(left: string, args: seq<string>, spec: Spec): (r: seq<Role>)
    requires args != [] && Usable(spec) && (left == "" ==> !NonOption(args[0]) && args[0] != "--")
  {
    var o, lone := NextOutcome(left, args, spec), LoneName(left, args, spec);
    [OptionElement] + (if lone then [Name(o.event)] else [])
    + (if o.taken == (if lone then 2 else 1) then [LastRole(left, args, spec, o.event)] else [])
  }

  function Operands(n: nat): (r: seq<Role>)
    ensures |r| == n && forall i :: 0 <= i < n ==> r[i] == Operand
  {
    seq(n, _ => Operand)
  }

  /** The roles of the elements, along the parse. */
  function Roles(ordering: Ordering, now: Spec, later: Spec, left: string, args: seq<string>): (r: seq<Role>)
    requires Usable(now) && Usable(later) && (left != "" ==> args != [])
    ensures |r| == |args|
    decreases |args|, if left != "" then |left| else if args != [] then |args[0]| else 0
  {
    if left == "" && args == [] then []
    else if left == "" && args[0] == "--" then [Dashes] + Operands(|args| - 1)
    else if left == "" && NonOption(args[0]) then
      if ordering == Permute then [Operand] + Roles(ordering, now, later, "", args[1..])
      else if ordering == RequireOrder then Operands(|args|)
      else [Returned(Event(Num(1), Some(args[0]), None, None))] + Roles(ordering, later, later, "", args[1..])
    else
      var o := NextOutcome(left, args, now);
      BlockLength(left, args, now);
      if o.left != "" then Roles(ordering, later, later, o.left, args)
      else if 1 + o.taken > |args| then Block(left, args, now)[..|args|]
      else Block(left, args, now) + Roles(ordering, later, later, "", args[1 + o.taken..])
  }

  lemma BlockLength(left: string, args: seq<string>, spec: Spec)
    requires args != [] && Usable(spec) && (left == "" ==> !NonOption(args[0]) && args[0] != "--")
    ensures var o := NextOutcome(left, args, spec); o.left == "" ==> |Block(left, args, spec)| == 1 + o.taken
    ensures NameUnclear(left, args, spec) ==> NextOutcome(left, args, spec).left == ""
  {
    hide Resolve;
  }

  /** What a role says of its element and of the ones in front of it. */
  ghost predicate Fitting(ordering: Ordering, left: string, args: seq<string>, roles: seq<Role>, events: seq<Event>,
                          spec: Spec, i: nat)
    requires |roles| == |args| && i < |args|
  {
    match roles[i]
    case Operand =>
      if ordering == RequireOrder then
        && (forall j :: i < j < |args| ==> roles[j].Operand?)
        && (NonOption(args[i]) || (i > 0 && (roles[i - 1].Operand? || roles[i - 1].Dashes?)))
      else NonOption(args[i]) || exists j :: 0 <= j < i && roles[j].Dashes?
    case OptionElement => (i == 0 && left != "") || (!NonOption(args[i]) && args[i] != "--")
    case Dashes => args[i] == "--" && forall j :: i < j < |args| ==> roles[j].Operand?
    case Returned(e) =>
      ordering == ReturnInOrder && NonOption(args[i]) && e in events && e == Event(Num(1), Some(args[i]), None, None)
    case Argument(e) => i > 0 && e in events && e.optarg == Some(args[i])
    case Name(e) => i > 0 && e in events && roles[i - 1].OptionElement? && EndsIn(args[i - 1], 'W')
    case Swallowed(e) =>
      && i > 0 && e in events && e.ret == Char('?') && e.optarg.Some? && Unclear(spec, e.optarg.value)
      && if roles[i - 1].Name? then e.optarg == Some(args[i - 1]) else EndsWith(args[i - 1], "W" + e.optarg.value)
  }

  predicate EndsIn(arg: string, c: char) {
    arg != "" && arg[|arg| - 1] == c
  }

  predicate EndsWith(arg: string, tail: string) {
    |tail| <= |arg| && arg[|arg| - |tail|..] == tail
  }

  /** A name that a long option is written behind `-W` with. */
  predicate Unclear(spec: Spec, name: string) {
    spec.longopts.Some? && Resolve(spec.longopts.value, name[..IndexOf(name, '=')], true).Ambiguous?
  }

  function MaskOf(roles: seq<Role>): (m: seq<bool>)
    ensures |m| == |roles| && forall i :: 0 <= i < |m| ==> (m[i] <==> !roles[i].Operand?)
  {
    seq(|roles|, i requires 0 <= i < |roles| => !roles[i].Operand?)
  }

  lemma MaskMarked(block: seq<Role>, rest: seq<Role>, mark: bool)
    requires forall i :: 0 <= i < |block| ==> (mark <==> !block[i].Operand?)
    ensures MaskOf(block + rest) == Marked(|block|, mark, MaskOf(rest))
  {
  }

  /** The elements with a role in an option are the parse's options, the others its operands: the
      vector is split in two, and both parts keep their order. */
  lemma {:induction false} Partition(ordering: Ordering, now: Spec, later: Spec, left: string, args: seq<string>)
    requires Usable(now) && Usable(later) && (left != "" ==> args != [])
    ensures var p, mask := Parse(ordering, now, later, left, args), MaskOf(Roles(ordering, now, later, left, args));
      p.options == Pick(args, mask, true) && p.operands == Pick(args, mask, false)
    decreases |args|, if left != "" then |left| else if args != [] then |args[0]| else 0
  {
    hide Parse, Roles, NextOutcome, Pick, MaskOf, Usable, Block;
    var roles := Roles(ordering, now, later, left, args);
    if left == "" && (args == [] || NonOption(args[0]) || args[0] == "--") {
      ParseStops(ordering, now, later, args);
      RolesStop(ordering, now, later, args);
      if args == [] {
        PickNone();
      } else if args[0] == "--" {
        PickOperands(args[1..]);
        PickParts(args, roles, 1, true, Operands(|args| - 1));
      } else if ordering == RequireOrder {
        PickOperands(args);
      } else {
        ParseOperand(now, later, args);
        var mark := ordering == ReturnInOrder;
        Partition(ordering, if mark then later else now, later, "", args[1..]);
        PickParts(args, roles, 1, mark, Roles(ordering, if mark then later else now, later, "", args[1..]));
      }
    } else {
      ParseTakes(ordering, now, later, left, args);
      RolesTake(ordering, now, later, left, args);
      var o := NextOutcome(left, args, now);
      if o.left != "" {
        Partition(ordering, later, later, o.left, args);
        assert args[0..] == args;
      } else if 1 + o.taken <= |args| {
        var k := 1 + o.taken;
        Partition(ordering, later, later, "", args[k..]);
        PickParts(args, roles, k, true, Roles(ordering, later, later, "", args[k..]));
      } else {
        PickNone();
        PickParts(args, roles, |args|, true, []);
        assert args[|args|..] == [] && MaskOf([]) == [] && args[..|args|] == args;
      }
    }
  }

  /** The first `k` elements, all marked alike, and the rest. */
  lemma PickParts(args: seq<string>, roles: seq<Role>, k: nat, mark: bool, rest: seq<Role>)
    requires |roles| == |args| && k + |rest| == |args| && roles == roles[..k] + rest
    requires forall i :: 0 <= i < k ==> (mark <==> !roles[i].Operand?)
    ensures Pick(args, MaskOf(roles), mark) == args[..k] + Pick(args[k..], MaskOf(rest), mark)
    ensures Pick(args, MaskOf(roles), !mark) == Pick(args[k..], MaskOf(rest), !mark)
  {
    hide Pick, MaskOf;
    MaskMarked(roles[..k], rest, mark);
    PickMarked(args, k, mark, MaskOf(rest));
  }

  lemma PickOperands(args: seq<string>)
    ensures Pick(args, MaskOf(Operands(|args|)), true) == [] && Pick(args, MaskOf(Operands(|args|)), false) == args
  {
    PickSame(args, false);
    assert MaskOf(Operands(|args|)) == seq(|args|, _ => false);
  }

  lemma PickNone()
    ensures Pick([], [], true) == Pick([], [], false) == []
  {
  }

  lemma RolesStop(ordering: Ordering, now: Spec, later: Spec, args: seq<string>)
    requires Usable(now) && Usable(later)
    ensures var r := Roles(ordering, now, later, "", args);
      if args == [] then r == []
      else if args[0] == "--" then r == [Dashes] + Operands(|args| - 1)
      else if !NonOption(args[0]) then true
      else if ordering == Permute then r == [Operand] + Roles(ordering, now, later, "", args[1..])
      else if ordering == RequireOrder then r == Operands(|args|)
      else r == [Returned(Event(Num(1), Some(args[0]), None, None))] + Roles(ordering, later, later, "", args[1..])
  {
    hide NextOutcome, Block;
  }

  lemma RolesTake(ordering: Ordering, now: Spec, later: Spec, left: string, args: seq<string>)
    requires args != [] && Usable(now) && Usable(later)
    requires left == "" ==> !NonOption(args[0]) && args[0] != "--"
    ensures
      var o, r := NextOutcome(left, args, now), Roles(ordering, now, later, left, args);
      if o.left != "" then r == Roles(ordering, later, later, o.left, args)
      else
        && |Block(left, args, now)| == 1 + o.taken
        && if 1 + o.taken > |args| then r == Block(left, args, now)[..|args|]
           else r == Block(left, args, now) + Roles(ordering, later, later, "", args[1 + o.taken..])
    ensures forall i :: 0 <= i < |Block(left, args, now)| ==> !Block(left, args, now)[i].Operand?
  {
    hide NextOutcome, Block;
    BlockLength(left, args, now);
    BlockMarked(left, args, now);
  }

  lemma BlockMarked(left: string, args: seq<string>, spec: Spec)
    requires args != [] && Usable(spec) && (left == "" ==> !NonOption(args[0]) && args[0] != "--")
    ensures forall i :: 0 <= i < |Block(left, args, spec)| ==> !Block(left, args, spec)[i].Operand?
  {
  }

  /** A later element has the role it has in the rest of the vector. */
  lemma FittingLater(ordering: Ordering, left: string, args: seq<string>, block: seq<Role>, rest: seq<Role>,
                     events: seq<Event>, some: seq<Event>, spec: Spec, i: nat)
    requires |block| + |rest| == |args| && |block| <= i < |args|
    requires Fitting(ordering, "", args[|block|..], rest, some, spec, i - |block|)
    requires forall e :: e in some ==> e in events
    ensures Fitting(ordering, left, args, block + rest, events, spec, i)
  {
    var k, r := |block|, block + rest;
    assert r[i] == rest[i - k] && args[k..][i - k] == args[i];
    if i > k {
      assert r[i - 1] == rest[i - 1 - k] && args[k..][i - 1 - k] == args[i - 1];
    }
    assert forall j :: i < j < |args| ==> r[j] == rest[j - k];
    if rest[i - k].Operand? && ordering != RequireOrder && !NonOption(args[i]) {
      var j :| 0 <= j < i - k && rest[j].Dashes?;
      assert r[j + k].Dashes?;
    }
  }

  /** What the elements of one block are. */
  lemma BlockFits(ordering: Ordering, left: string, args: seq<string>, spec: Spec, roles: seq<Role>,
                  events: seq<Event>, i: nat)
    requires args != [] && Usable(spec) && (left == "" ==> !NonOption(args[0]) && args[0] != "--")
    requires |roles| == |args| && i < |args| && NextOutcome(left, args, spec).left == ""
    requires i < |Block(left, args, spec)| && NextOutcome(left, args, spec).event in events
    requires forall j :: 0 <= j <= i ==> roles[j] == Block(left, args, spec)[j]
    requires left != "" ==> EndsWith(args[0], left)
    ensures Fitting(ordering, left, args, roles, events, spec, i)
  {
    hide NextOutcome, Block, EndsWith, EndsIn, Unclear, NonOption, Usable;
    BlockLength(left, args, spec);
    BlockRoles(left, args, spec, i);
    assert roles[i] == Block(left, args, spec)[i] && (i > 0 ==> roles[i - 1] == Block(left, args, spec)[i - 1]);
  }

  lemma BlockRoles(left: string, args: seq<string>, spec: Spec, i: nat)
    requires args != [] && Usable(spec) && (left == "" ==> !NonOption(args[0]) && args[0] != "--")
    requires i < |args| && NextOutcome(left, args, spec).left == "" && i < |Block(left, args, spec)|
    requires left != "" ==> EndsWith(args[0], left)
    ensures var e, b := NextOutcome(left, args, spec).event, Block(left, args, spec);
      if i == 0 then b[i] == OptionElement
      else if b[i].Name? then b[i] == Name(e) && i == 1 && b[0] == OptionElement && EndsIn(args[0], 'W')
      else if b[i].Swallowed? then
        && b[i] == Swallowed(e) && e.ret == Char('?') && e.optarg.Some? && Unclear(spec, e.optarg.value)
        && if b[i - 1].Name? then e.optarg == Some(args[i - 1]) else EndsWith(args[i - 1], "W" + e.optarg.value)
      else b[i] == Argument(e) && e.optarg == Some(args[i])
  {
    var taken, lone := NextOutcome(left, args, spec).taken, LoneName(left, args, spec);
    BlockLength(left, args, spec);
    ClusterEnds(left, args);
    if i > 0 {
      assert args[1..][i - 1] == args[i];
      if lone && i == 1 {
        assert EndsIn(args[0], 'W') by { LastOf(args[0], Cluster(left, args)); }
      } else if NameUnclear(left, args, spec) {
        UnclearTurn(left, args, spec);
      } else {
        ArgumentTurn(left, args, spec);
      }
    }
  }

  lemma LastOf(arg: string, tail: string)
    requires EndsWith(arg, tail) && tail != ""
    ensures EndsIn(arg, tail[|tail| - 1])
  {
    assert arg[|arg| - |tail|..][|tail| - 1] == arg[|arg| - 1];
  }

  /** An ambiguous `-W` name: reported as it stands, and one more element goes. */
  lemma UnclearTurn(left: string, args: seq<string>, spec: Spec)
    requires args != [] && Usable(spec) && (left == "" ==> !NonOption(args[0]) && args[0] != "--")
    requires NameUnclear(left, args, spec) && EndsWith(args[0], Cluster(left, args))
    ensures var o, name := NextOutcome(left, args, spec), NameTaken(left, args, spec);
      && o.event == Event(Char('?'), Some(name), None, None) && o.left == "" && Unclear(spec, name)
      && o.taken == (if |Cluster(left, args)| == 1 then 2 else 1)
    ensures |Cluster(left, args)| > 1 ==> EndsWith(args[0], "W" + NameTaken(left, args, spec))
  {
    hide Resolve;
    var c := Cluster(left, args);
    assert c == [c[0]] + c[1..];
  }

  /** Otherwise the last element used up is the argument. */
  lemma ArgumentTurn(left: string, args: seq<string>, spec: Spec)
    requires args != [] && Usable(spec) && (left == "" ==> !NonOption(args[0]) && args[0] != "--")
    requires !NameUnclear(left, args, spec)
    ensures var o, lone := NextOutcome(left, args, spec), LoneName(left, args, spec);
      o.left == "" && o.taken < |args| && o.taken == (if lone then 2 else 1) ==> o.event.optarg == Some(args[o.taken])
  {
    hide Resolve, LongOutcome, NamedOutcome, IndexOf;
    if TakesName(left, args, spec) {
      var rest := if LoneName(left, args, spec) then args[1..][1..] else args[1..];
      NamedTurn(NameTaken(left, args, spec), rest, spec);
    } else if left == "" && spec.longopts.Some? && args[0][1] == '-' {
      LongTurn(args[0][2..], args[1..], spec);
    }
  }

  /** An option takes no element, or the next one as its argument. */
  predicate Takes(o: Outcome, rest: seq<string>) {
    o.left == "" && (o.taken == 0 || (o.taken == 1 && rest != [] && o.event.optarg == Some(rest[0])))
  }

  lemma LongTurn(text: string, rest: seq<string>, spec: Spec)
    requires spec.longopts.Some?
    ensures Takes(LongOutcome(text, rest, spec), rest)
  {
    hide Resolve, IndexOf;
  }

  lemma NamedTurn(text: string, rest: seq<string>, spec: Spec)
    requires spec.longopts.Some? && !Resolve(spec.longopts.value, text[..IndexOf(text, '=')], true).Ambiguous?
    ensures Takes(NamedOutcome(text, rest, spec), rest)
  {
    hide Resolve, IndexOf;
  }

  lemma ClusterEnds(left: string, args: seq<string>)
    requires args != [] && (left == "" ==> !NonOption(args[0])) && (left != "" ==> EndsWith(args[0], left))
    ensures EndsWith(args[0], Cluster(left, args)) && Cluster(left, args) != ""
  {
  }

  lemma LeftEnds(left: string, args: seq<string>, spec: Spec)
    requires args != [] && Usable(spec) && (left == "" ==> !NonOption(args[0]) && args[0] != "--")
    requires left != "" ==> EndsWith(args[0], left)
    ensures var o := NextOutcome(left, args, spec); o.left != "" ==> EndsWith(args[0], o.left)
  {
    hide Resolve;
  }

  /** The initial state of an element, or a place inside it. */
  predicate Inside(left: string, args: seq<string>) {
    left != "" ==> args != [] && EndsWith(args[0], left)
  }

  /** Every element is what its role says: none is an argument that was not handed out, none is lost but
      to an ambiguous `-W` name, and operands are not written like options or stand behind `--`, or,
      with REQUIRE_ORDER, behind such an operand. */
  lemma {:induction false} RolesFit(ordering: Ordering, now: Spec, later: Spec, left: string, args: seq<string>)
    requires Usable(now) && Usable(later) && Inside(left, args) && now.longopts == later.longopts
    ensures var roles := Roles(ordering, now, later, left, args);
      forall i :: 0 <= i < |args| ==>
        Fitting(ordering, left, args, roles, Parse(ordering, now, later, left, args).events, later, i)
    decreases |args|, if left != "" then |left| else if args != [] then |args[0]| else 0
  {
    hide Parse, Roles, NextOutcome, Usable, Fitting, Block, EndsWith;
    var events, roles := Parse(ordering, now, later, left, args).events, Roles(ordering, now, later, left, args);
    if left == "" && (args == [] || NonOption(args[0]) || args[0] == "--") {
      ParseStops(ordering, now, later, args);
      RolesStop(ordering, now, later, args);
      if args != [] && args[0] != "--" && ordering != RequireOrder {
        ParseOperand(now, later, args);
        var mark := ordering == ReturnInOrder;
        var next := if mark then later else now;
        RolesFit(ordering, next, later, "", args[1..]);
        OperandFits(ordering, args, roles, events, later);
        TailFits(ordering, "", args, roles[..1], Roles(ordering, next, later, "", args[1..]), events,
                 Parse(ordering, next, later, "", args[1..]).events, later);
      } else {
        StopFits(ordering, args, roles, events, later);
      }
    } else {
      ParseTakes(ordering, now, later, left, args);
      RolesTake(ordering, now, later, left, args);
      LeftEnds(left, args, now);
      var o := NextOutcome(left, args, now);
      if o.left != "" {
        RolesFit(ordering, later, later, o.left, args);
        assert args[0..] == args;
        InsideFits(ordering, left, o.left, args, roles, events,
                   Parse(ordering, later, later, o.left, args).events, later);
      } else {
        FirstFit(ordering, left, args, now, roles, events, later);
        if 1 + o.taken <= |args| {
          RolesFit(ordering, later, later, "", args[1 + o.taken..]);
          TailFits(ordering, left, args, Block(left, args, now), Roles(ordering, later, later, "", args[1 + o.taken..]),
                   events, Parse(ordering, later, later, "", args[1 + o.taken..]).events, later);
        }
      }
    }
  }

  lemma TailFits(ordering: Ordering, left: string, args: seq<string>, block: seq<Role>, rest: seq<Role>,
                 events: seq<Event>, some: seq<Event>, spec: Spec)
    requires |block| + |rest| == |args|
    requires forall i :: 0 <= i < |rest| ==> Fitting(ordering, "", args[|block|..], rest, some, spec, i)
    requires forall e :: e in some ==> e in events
    ensures forall i :: |block| <= i < |args| ==> Fitting(ordering, left, args, block + rest, events, spec, i)
  {
    hide Fitting;
    forall i | |block| <= i < |args| ensures Fitting(ordering, left, args, block + rest, events, spec, i) {
      assert Fitting(ordering, "", args[|block|..], rest, some, spec, i - |block|);
      FittingLater(ordering, left, args, block, rest, events, some, spec, i);
    }
  }

  lemma FirstFit(ordering: Ordering, left: string, args: seq<string>, now: Spec, roles: seq<Role>,
                 events: seq<Event>, later: Spec)
    requires args != [] && Usable(now) && (left == "" ==> !NonOption(args[0]) && args[0] != "--") && Inside(left, args)
    requires |roles| == |args| && now.longopts == later.longopts && NextOutcome(left, args, now).left == ""
    requires NextOutcome(left, args, now).event in events
    requires var b := Block(left, args, now); if |b| <= |args| then b <= roles else roles == b[..|args|]
    ensures forall i :: 0 <= i < |args| && i < |Block(left, args, now)| ==>
              Fitting(ordering, left, args, roles, events, later, i)
  {
    hide Fitting, Block, NextOutcome;
    forall i | 0 <= i < |args| && i < |Block(left, args, now)|
      ensures Fitting(ordering, left, args, roles, events, later, i)
    {
      BlockFits(ordering, left, args, now, roles, events, i);
      SameTable(ordering, left, args, roles, events, now, later, i);
    }
  }

  lemma SameTable(ordering: Ordering, left: string, args: seq<string>, roles: seq<Role>, events: seq<Event>,
                  now: Spec, later: Spec, i: nat)
    requires |roles| == |args| && i < |args| && now.longopts == later.longopts
    requires Fitting(ordering, left, args, roles, events, now, i)
    ensures Fitting(ordering, left, args, roles, events, later, i)
  {
  }

  lemma OperandFits(ordering: Ordering, args: seq<string>, roles: seq<Role>, events: seq<Event>, spec: Spec)
    requires args != [] && |roles| == |args| && NonOption(args[0])
    requires ordering == Permute ==> roles[0] == Operand
    requires ordering == ReturnInOrder ==>
      var e := Event(Num(1), Some(args[0]), None, None); roles[0] == Returned(e) && e in events
    requires ordering != RequireOrder
    ensures Fitting(ordering, "", args, roles, events, spec, 0)
  {
  }

  lemma StopFits(ordering: Ordering, args: seq<string>, roles: seq<Role>, events: seq<Event>, spec: Spec)
    requires |roles| == |args|
    requires args != [] ==>
      if args[0] == "--" then roles == [Dashes] + Operands(|args| - 1)
      else ordering == RequireOrder && NonOption(args[0]) && roles == Operands(|args|)
    ensures forall i :: 0 <= i < |args| ==> Fitting(ordering, "", args, roles, events, spec, i)
  {
    if args != [] && args[0] == "--" {
      assert roles[0].Dashes?;
    }
  }

  /** Taking the first letters of an element changes nothing of what it is. */
  lemma InsideFits(ordering: Ordering, left: string, next: string, args: seq<string>, roles: seq<Role>,
                   events: seq<Event>, some: seq<Event>, spec: Spec)
    requires |roles| == |args| && args != [] && next != "" && (forall e :: e in some ==> e in events)
    requires left == "" ==> !NonOption(args[0]) && args[0] != "--"
    requires forall i :: 0 <= i < |args| ==> Fitting(ordering, next, args, roles, some, spec, i)
    ensures forall i :: 0 <= i < |args| ==> Fitting(ordering, left, args, roles, events, spec, i)
  {
    forall i | 0 <= i < |args| ensures Fitting(ordering, left, args, roles, events, spec, i) {
      assert Fitting(ordering, next, args, roles, some, spec, i);
    }
  }

  /** Some `-W` name of the run is ambiguous. */
  ghost predicate MeetsUnclear(ordering: Ordering, now: Spec, later: Spec, left: string, args: seq<string>)
    requires Usable(now) && Usable(later) && (left != "" ==> args != [])
    decreases |args|, if left != "" then |left| else if args != [] then |args[0]| else 0
  {
    if left == "" && (args == [] || args[0] == "--") then false
    else if left == "" && NonOption(args[0]) then
      ordering != RequireOrder &&
      MeetsUnclear(ordering, if ordering == Permute then now else later, later, "", args[1..])
    else
      var o := NextOutcome(left, args, now);
      NameUnclear(left, args, now) ||
      (if o.left != "" then MeetsUnclear(ordering, later, later, o.left, args)
       else 1 + o.taken <= |args| && MeetsUnclear(ordering, later, later, "", args[1 + o.taken..]))
  }

  ghost predicate Loses(roles: seq<Role>) {
    exists i :: 0 <= i < |roles| && roles[i].Swallowed?
  }

  lemma LosesParts(block: seq<Role>, rest: seq<Role>)
    ensures Loses(block + rest) <==> Loses(block) || Loses(rest)
  {
    var r := block + rest;
    if Loses(rest) {
      var i :| 0 <= i < |rest| && rest[i].Swallowed?;
      assert r[|block| + i].Swallowed?;
    }
    if Loses(block) {
      var i :| 0 <= i < |block| && block[i].Swallowed?;
      assert r[i].Swallowed?;
    }
    if Loses(r) {
      var i :| 0 <= i < |r| && r[i].Swallowed?;
      assert if i < |block| then block[i].Swallowed? else rest[i - |block|].Swallowed?;
    }
  }

  lemma BlockLoses(left: string, args: seq<string>, spec: Spec)
    requires args != [] && Usable(spec) && (left == "" ==> !NonOption(args[0]) && args[0] != "--")
    requires NextOutcome(left, args, spec).left == ""
    ensures var b := Block(left, args, spec);
      NameUnclear(left, args, spec) <==> Loses(b[..if |b| <= |args| then |b| else |args|]) || |b| > |args|
  {
    hide NextOutcome, NameUnclear, Usable, IsNamed, NonOption;
    BlockLength(left, args, spec);
    var b := Block(left, args, spec);
    if NameUnclear(left, args, spec) {
      ClusterSome(left, args);
      UnclearTaken(left, args, spec);
      assert b[|b| - 1].Swallowed?;
      if |b| <= |args| {
        assert b[..|b|] == b && b[|b| - 1].Swallowed?;
      }
    } else {
      ClearTaken(left, args, spec);
      forall i | 0 <= i < |b| ensures !b[i].Swallowed? {
      }
    }
  }

  lemma ClusterSome(left: string, args: seq<string>)
    requires args != [] && (left == "" ==> !NonOption(args[0]))
    ensures Cluster(left, args) != ""
  {
  }

  lemma UnclearTaken(left: string, args: seq<string>, spec: Spec)
    requires args != [] && Usable(spec) && (left == "" ==> !NonOption(args[0]) && args[0] != "--")
    requires NameUnclear(left, args, spec)
    ensures NextOutcome(left, args, spec).taken == (if |Cluster(left, args)| == 1 then 2 else 1)
    ensures TakesName(left, args, spec)
  {
    hide Resolve;
  }

  lemma ClearTaken(left: string, args: seq<string>, spec: Spec)
    requires args != [] && Usable(spec) && (left == "" ==> !NonOption(args[0]) && args[0] != "--")
    requires !NameUnclear(left, args, spec)
    ensures NextOutcome(left, args, spec).taken < |args|
  {
    hide Resolve;
  }

  /** An element is swallowed, or the end stepped over, exactly in a run with an ambiguous `-W` name. */
  lemma {:induction false} SwallowedExactly(ordering: Ordering, now: Spec, later: Spec, left: string, args: seq<string>)
    requires Usable(now) && Usable(later) && (left != "" ==> args != [])
    ensures Loses(Roles(ordering, now, later, left, args)) || Parse(ordering, now, later, left, args).overrun <==>
            MeetsUnclear(ordering, now, later, left, args)
    decreases |args|, if left != "" then |left| else if args != [] then |args[0]| else 0
  {
    hide Parse, Roles, NextOutcome, Usable, Block, Loses, NameUnclear;
    if left == "" && (args == [] || NonOption(args[0]) || args[0] == "--") {
      ParseStops(ordering, now, later, args);
      RolesStop(ordering, now, later, args);
      StopLoses(|args|);
      if args != [] && args[0] != "--" && ordering != RequireOrder {
        ParseOperand(now, later, args);
        var next := if ordering == Permute then now else later;
        SwallowedExactly(ordering, next, later, "", args[1..]);
        var first := Roles(ordering, now, later, "", args)[..1];
        FirstLoses(first);
        LosesParts(first, Roles(ordering, next, later, "", args[1..]));
      } else if args != [] && args[0] == "--" {
        StopLoses(|args| - 1);
        FirstLoses([Dashes]);
        LosesParts([Dashes], Operands(|args| - 1));
      }
    } else {
      ParseTakes(ordering, now, later, left, args);
      RolesTake(ordering, now, later, left, args);
      var o := NextOutcome(left, args, now);
      if o.left != "" {
        BlockLength(left, args, now);
        SwallowedExactly(ordering, later, later, o.left, args);
        assert args[0..] == args;
      } else {
        BlockLoses(left, args, now);
        if 1 + o.taken <= |args| {
          SwallowedExactly(ordering, later, later, "", args[1 + o.taken..]);
          var b := Block(left, args, now);
          assert b[..|b|] == b;
          LosesParts(b, Roles(ordering, later, later, "", args[1 + o.taken..]));
        }
      }
    }
  }

  lemma StopLoses(n: nat)
    ensures !Loses(Operands(n)) && !Loses([])
  {
  }

  lemma FirstLoses(block: seq<Role>)
    requires |block| == 1 && !block[0].Swallowed?
    ensures !Loses(block)
  {
  }

  /** Two options that begin with `foo`. */
  const FOOS := Spec("W;", Some([LongOption("fooa", 0, None, 1), LongOption("foob", 0, None, 2)]))

  lemma FooUnclear()
    ensures Usable(FOOS) && Resolve(FOOS.longopts.value, "foo"[..IndexOf("foo", '=')], true).Ambiguous?
    ensures IsNamed(FOOS.optstring, 'W')
  {
    var longs := FOOS.longopts.value;
    assert "foo"[..IndexOf("foo", '=')] == "foo";
    assert !Match(longs[0], "foo", true) && !Match(longs[1], "foo", true);
    assert "foo" <= longs[0].name && "foo" <= longs[1].name;
    assert Match(longs[0], "foo", false) && Match(longs[1], "foo", false);
    assert FirstMatch(longs, "foo", false) == 0 && !Agreed(longs, "foo", 0, true);
  }

  lemma FooTurn(args: seq<string>)
    requires |args| >= 2 && args[0] == "-W" && args[1] == "foo"
    ensures Usable(FOOS) && NameUnclear("", args, FOOS)
    ensures NextOutcome("", args, FOOS) == Outcome(Event(Char('?'), Some("foo"), None, None), "", 2)
  {
    FooUnclear();
    hide Resolve;
    assert Cluster("", args) == "W" && "W"[1..] == "";
    assert args[1..][0] == "foo";
  }

  /** `-W foo operand`: the operand is neither handed out nor left over. */
  lemma OperandSwallowed()
    ensures var args, e := ["-W", "foo", "operand"], Event(Char('?'), Some("foo"), None, None);
      && Usable(FOOS) && Roles(Permute, FOOS, FOOS, "", args) == [OptionElement, Name(e), Swallowed(e)]
      && Parse(Permute, FOOS, FOOS, "", args) == Parsed([e], args, [], false)
  {
    var args, e := ["-W", "foo", "operand"], Event(Char('?'), Some("foo"), None, None);
    FooTurn(args);
    ParseTakes(Permute, FOOS, FOOS, "", args);
    RolesTake(Permute, FOOS, FOOS, "", args);
    hide NextOutcome, NameUnclear;
    assert args[3..] == [] && args[..3] == args;
    assert Parse(Permute, FOOS, FOOS, "", args[3..]) == Parsed([], [], [], false);
    assert Cluster("", args) == "W";
    assert Block("", args, FOOS) == [OptionElement, Name(e), Swallowed(e)];
  }

  /** `-W foo` at the end: the scan goes on behind the vector. */
  lemma EndOverrun()
    ensures Usable(FOOS) && Parse(Permute, FOOS, FOOS, "", ["-W", "foo"]).overrun
  {
    FooTurn(["-W", "foo"]);
    ParseTakes(Permute, FOOS, FOOS, "", ["-W", "foo"]);
  }
}
