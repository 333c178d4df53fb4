/**
 The statics of 3rdparty/getopt/getopt.c as an object, with its operations on an argument vector.
 Each call of `Next` takes the next event off the parse of the vector, and keeps what the vector
 will look like in the end; `Drain` calls it until it returns -1.
*/
module GetoptScanner {
  import opened GetoptSpec
  import opened GetoptRoles
  import opened GetoptEvents
  import opened Options

  // ---------------------------------------------------------------------------------------
  // Rotating
  // ---------------------------------------------------------------------------------------

  /** `a` with its blocks [b, m) and [m, t) exchanged. */
  function Rotated(a: seq<string>, b: nat, m: nat, t: nat): seq<string>
    requires b <= m <= t <= |a|
  {
    a[..b] + a[m..t] + a[b..m] + a[t..]
  }

  /** `a` with the blocks of length `len` at `i` and at `j` exchanged. */
  function Swapped(a: seq<string>, i: nat, j: nat, len: nat): seq<string>
    requires i + len <= j && j + len <= |a|
  {
    seq(|a|, x requires 0 <= x < |a| =>
      if i <= x < i + len then a[x + (j - i)] else if j <= x < j + len then a[x - (j - i)] else a[x])
  }

  function Gcd(a: nat, b: nat): (d: nat)
    ensures b == 0 ==> d == a
    ensures a == 0 ==> d == b
  {
    if a == 0 then b
    else if b == 0 then a
    else if b > a then Gcd(a, b - a)
    else Gcd(a - b, b)
  }

  lemma GcdStep(a: nat, b: nat)
    requires a > 0 && b > 0
    ensures Gcd(a, b) == if b > a then Gcd(a, b - a) else Gcd(a - b, b)
  {
  }

  ghost predicate Divides(d: nat, n: nat) {
    exists k: nat :: k * d == n
  }

  lemma DividesSum(d: nat, a: nat, b: nat)
    requires Divides(d, a)
    ensures Divides(d, b) ==> Divides(d, a + b)
    ensures b >= a && Divides(d, b) ==> Divides(d, b - a)
  {
    var k: nat :| k * d == a;
    if l: nat :| l * d == b {
      assert (k + l) * d == a + b;
      if b > a {
        assert l > k;
        assert (l - k) * d == b - a;
      } else if b == a {
        assert 0 * d == b - a;
      }
    }
  }

  lemma DividesTrivially(d: nat)
    ensures Divides(d, d) && Divides(d, 0)
  {
    assert 1 * d == d && 0 * d == 0;
  }

  /** `Gcd` is a common divisor, and every common divisor divides it. */
  lemma {:induction false} GcdIsGreatest(a: nat, b: nat)
    ensures Divides(Gcd(a, b), a) && Divides(Gcd(a, b), b)
    ensures forall d: nat :: Divides(d, a) && Divides(d, b) ==> Divides(d, Gcd(a, b))
    decreases a + b
  {
    hide Divides;
    DividesTrivially(Gcd(a, b));
    if a == 0 || b == 0 {
    } else if b > a {
      GcdIsGreatest(a, b - a);
      DividesSum(Gcd(a, b), a, b - a);
      forall d: nat | Divides(d, a) && Divides(d, b) ensures Divides(d, Gcd(a, b)) {
        DividesSum(d, a, b);
      }
    } else {
      GcdIsGreatest(a - b, b);
      DividesSum(Gcd(a, b), b, a - b);
      forall d: nat | Divides(d, a) && Divides(d, b) ensures Divides(d, Gcd(a, b)) {
        DividesSum(d, b, a);
      }
    }
  }

  lemma SwappedSlices(a: seq<string>, b: nat, m: nat, u: nat, t: nat)
    requires b <= m <= u <= t <= |a| && m - b == t - u
    ensures var s := Swapped(a, b, u, m - b);
      && |s| == |a| && s[..b] == a[..b] && s[b..m] == a[u..t] && s[m..u] == a[m..u]
      && s[u..t] == a[b..m] && s[t..] == a[t..] && s[u..] == a[b..m] + a[t..]
  {
    hide Swapped;
    SwappedSlice(a, b, m, u, t, 0, b, 0, b);
    SwappedSlice(a, b, m, u, t, b, m, u, t);
    SwappedSlice(a, b, m, u, t, m, u, m, u);
    SwappedSlice(a, b, m, u, t, u, t, b, m);
    SwappedSlice(a, b, m, u, t, t, |a|, t, |a|);
    SplitSlice(Swapped(a, b, u, m - b), u, t);
    assert a[t..|a|] == a[t..];
  }

  /** A slice within one of the five parts. */
  lemma SwappedSlice(a: seq<string>, b: nat, m: nat, u: nat, t: nat, i: nat, e: nat, j: nat, f: nat)
    requires b <= m <= u <= t <= |a| && m - b == t - u && i <= e <= |a| && j <= f <= |a| && e - i == f - j
    requires i == e || j == if b <= i && e <= m then i + (u - b) else if u <= i && e <= t then i - (u - b) else i
    requires e <= b || (b <= i && e <= m) || (m <= i && e <= u) || (u <= i && e <= t) || t <= i
    ensures var s := Swapped(a, b, u, m - b); |s| == |a| && s[i..e] == a[j..f]
  {
    var s := Swapped(a, b, u, m - b);
    forall x | i <= x < e ensures s[x] == a[x + (j - i)] {
    }
    SameSlice(s, a, i, j, e - i);
  }

  lemma SplitSlice(s: seq<string>, u: nat, t: nat)
    requires u <= t <= |s|
    ensures s[u..] == s[u..t] + s[t..] && s[t..|s|] == s[t..]
  {
  }

  lemma SameSlice(s: seq<string>, a: seq<string>, i: nat, j: nat, len: nat)
    requires i + len <= |s| && j + len <= |a|
    requires forall x :: i <= x < i + len ==> s[x] == a[x + (j - i)]
    ensures s[i..i + len] == a[j..j + len]
  {
  }

  lemma Reassociated(p: seq<string>, q: seq<string>, r: seq<string>, s: seq<string>, t: seq<string>)
    ensures p + q + r + (s + t) == p + (q + r) + s + t
  {
  }

  /** Moving the shorter first block to the far end leaves a smaller rotation with the same result. */
  lemma RotateShortFirst(a: seq<string>, b: nat, m: nat, t: nat)
    requires b <= m <= t <= |a| && m - b < t - m
    ensures Rotated(Swapped(a, b, t - (m - b), m - b), b, m, t - (m - b)) == Rotated(a, b, m, t)
  {
    var len := m - b;
    var u := t - len;
    hide Swapped;
    SwappedSlices(a, b, m, u, t);
    assert a[m..t] == a[m..u] + a[u..t];
    Reassociated(a[..b], a[m..u], a[u..t], a[b..m], a[t..]);
  }

  lemma RotateShortLast(a: seq<string>, b: nat, m: nat, t: nat)
    requires b <= m <= t <= |a| && t - m <= m - b
    ensures Rotated(Swapped(a, b, m, t - m), b + (t - m), m, t) == Rotated(a, b, m, t)
  {
    hide Swapped;
    var len := t - m;
    var s := Swapped(a, b, m, len);
    SwappedSlices(a, b, b + len, m, t);
    assert s[..b + len] == s[..b] + s[b..b + len] && a[b..m] == a[b..b + len] + a[b + len..m];
    Reassociated(a[..b] + a[m..t], a[b..b + len], a[b + len..m], a[t..], []);
  }

  lemma RotateNothing(a: seq<string>, b: nat, m: nat, t: nat)
    requires b <= m <= t <= |a| && (b == m || m == t)
    ensures Rotated(a, b, m, t) == a
  {
  }

  lemma SwappedIs(a: seq<string>, s: seq<string>, i: nat, j: nat, len: nat)
    requires i + len <= j && j + len <= |a| == |s|
    requires forall x :: 0 <= x < |a| && !(i <= x < i + len) && !(j <= x < j + len) ==> s[x] == a[x]
    requires forall x :: i <= x < i + len ==> s[x] == a[x + (j - i)]
    requires forall x :: j <= x < j + len ==> s[x] == a[x - (j - i)]
    ensures s == Swapped(a, i, j, len)
  {
  }

  /** The inner loops of `exchange` (getopt.c:343-349 and 360-366). */
  method SwapBlocks(argv: array<string>, i: nat, j: nat, len: nat)
    requires i + len <= j && j + len <= argv.Length
    modifies argv
    ensures argv[..] == Swapped(old(argv[..]), i, j, len)
  {
    hide Swapped;
    for k := 0 to len
      invariant forall x :: 0 <= x < argv.Length && !(i <= x < i + k) && !(j <= x < j + k) ==> argv[x] == old(argv[x])
      invariant forall x :: i <= x < i + k ==> argv[x] == old(argv[x + (j - i)])
      invariant forall x :: j <= x < j + k ==> argv[x] == old(argv[x - (j - i)])
    {
      argv[i + k], argv[j + k] := argv[j + k], argv[i + k];
    }
    SwappedIs(old(argv[..]), argv[..], i, j, len);
  }

  // ---------------------------------------------------------------------------------------
  // Where the scan stands
  // ---------------------------------------------------------------------------------------

  /** The skipped operands are [first, last); the scan is at `optind`, with `left` still to come
      from that element. */
  datatype Position = Position(first: nat, last: nat, optind: nat, left: string)

  /** The elements found to belong to options, the operands skipped, and what is not scanned. */
  datatype View = View(done: seq<string>, skipped: seq<string>, rest: seq<string>)

  predicate Fit(p: Position, ordering: Ordering, n: nat) {
    && p.first <= p.last <= p.optind <= n
    && (ordering != Permute ==> p.first == p.last)
    && (p.left != "" ==> p.optind < n)
  }

  function Sight(a: seq<string>, p: Position): View
    requires p.first <= p.last <= p.optind <= |a|
  {
    View(a[..p.first] + a[p.last..p.optind], a[p.first..p.last], a[p.optind..])
  }

  /** The caller may have moved `optind` back between elements (getopt.c:549-552). */
  function Clamped(p: Position): Position {
    if p.left != "" then p
    else Position(if p.first > p.optind then p.optind else p.first,
                  if p.last > p.optind then p.optind else p.last, p.optind, "")
  }

  /** A leading `-` or `+`, or POSIXLY_CORRECT, chooses the ordering (getopt.c:401-414). */
  function OrderingOf(optstring: string, posixlyCorrect: bool): Ordering {
    if At(optstring, 0) == '-' then ReturnInOrder
    else if At(optstring, 0) == '+' || posixlyCorrect then RequireOrder
    else Permute
  }

  /** With a leading `-` an operand is handed out; with `+`, or POSIXLY_CORRECT, it ends the options;
      otherwise it is set aside, and what follows is parsed as if it was not there. */
  lemma OrderingMeans(optstring: string, posixlyCorrect: bool, now: Spec, later: Spec, args: seq<string>)
    requires Usable(now) && Usable(later) && args != [] && (args[0] == "" || args[0] == "-" || args[0][0] != '-')
    ensures var ordering := OrderingOf(optstring, posixlyCorrect);
      var p := Parse(ordering, now, later, "", args);
      if "-" <= optstring then
        && p.events != [] && p.events[0] == Event(Num(1), Some(args[0]), None, None)
        && p.options == args[..1] + Parse(ordering, later, later, "", args[1..]).options
        && p.operands == Parse(ordering, later, later, "", args[1..]).operands
      else if "+" <= optstring || posixlyCorrect then p == Parsed([], [], args, false)
      else
        var rest := Parse(ordering, now, later, "", args[1..]);
        p.events == rest.events && p.options == rest.options && p.operands == args[..1] + rest.operands
  {
    hide Parse, Usable;
    ParseStops(OrderingOf(optstring, posixlyCorrect), now, later, args);
    ParseOperand(now, later, args);
  }

  /** Only the call that initializes steps over that character. */
  function Stripped(spec: Spec): Spec {
    if At(spec.optstring, 0) == '-' || At(spec.optstring, 0) == '+' then spec.(optstring := spec.optstring[1..])
    else spec
  }

  lemma StrippedUsable(spec: Spec)
    ensures Usable(Stripped(spec)) <==> Usable(spec)
    ensures Clear(Stripped(spec)) <==> Clear(spec)
  {
    var s := spec.optstring;
    if Stripped(spec) != spec {
      assert 'W' in s <==> 'W' in s[1..];
      assert IndexOf(s, 'W') == 1 + IndexOf(s[1..], 'W');
    }
  }

  // ---------------------------------------------------------------------------------------
  // Skipping operands
  // ---------------------------------------------------------------------------------------

  /** How many operands stand at the front. */
  function Leading(args: seq<string>): (k: nat)
    ensures k <= |args| && (k < |args| ==> !NonOption(args[k]))
  {
    if args == [] || !NonOption(args[0]) then 0 else 1 + Leading(args[1..])
  }

  lemma {:induction false} LeadingIs(args: seq<string>, k: nat)
    requires k <= |args| && (forall i :: 0 <= i < k ==> NonOption(args[i]))
    requires k < |args| ==> !NonOption(args[k])
    ensures Leading(args) == k
  {
    if k > 0 {
      LeadingIs(args[1..], k - 1);
    }
  }

  lemma SkippingTwice(s: seq<string>, t: seq<string>, p: Parsed)
    ensures Skipping(s, Skipping(t, p)) == Skipping(s + t, p)
    ensures Skipping([], p) == p
  {
    assert s + (t + p.operands) == (s + t) + p.operands;
  }

  lemma {:induction false} ParseSkips(now: Spec, later: Spec, args: seq<string>)
    requires Usable(now) && Usable(later)
    ensures var k := Leading(args);
      Parse(Permute, now, later, "", args) == Skipping(args[..k], Parse(Permute, now, later, "", args[k..]))
  {
    hide Parse, Usable, NonOption, Skipping;
    var k := Leading(args);
    if args != [] && NonOption(args[0]) {
      ParseOperand(now, later, args);
      ParseSkips(now, later, args[1..]);
      assert args[1..][k - 1..] == args[k..];
      assert args[..1] + args[1..][..k - 1] == args[..k];
      SkippingTwice(args[..1], args[1..][..k - 1], Parse(Permute, now, later, "", args[k..]));
    } else {
      assert args[0..] == args && args[..0] == [];
      SkippingTwice([], [], Parse(Permute, now, later, "", args));
    }
  }

  /** One call: the next event of parse `p` is taken, and from `v'` the rest of the parse, `p'`,
      leads to the same vector as before. */
  ghost predicate Pops(p: Parsed, v: View, event: Event, p': Parsed, v': View) {
    && p.events != [] && event == p.events[0] && p'.events == p.events[1..] && p'.overrun == p.overrun
    && v'.done + p'.options == v.done + p.options
    && v'.skipped + p'.operands == v.skipped + p.operands
  }

  /** The last call. */
  ghost predicate Ends(p: Parsed, v: View, a: seq<string>, optind: int) {
    && p.events == [] && !p.overrun
    && a == v.done + p.options + v.skipped + p.operands
    && optind == |v.done| + |p.options|
  }

  lemma SightRotated(a: seq<string>, f: nat, l: nat, o: nat)
    requires f <= l <= o <= |a|
    ensures Sight(Rotated(a, f, l, o), Position(f + (o - l), o, o, "")) == Sight(a, Position(f, l, o, ""))
    ensures var v := Sight(a, Position(f, l, o, "")); Rotated(a, f, l, o) == v.done + v.skipped + v.rest
    ensures |Sight(a, Position(f, l, o, "")).done| == f + (o - l)
  {
  }

  lemma SightEmpty(a: seq<string>, f: nat, o: nat)
    requires f <= o <= |a|
    ensures Sight(a, Position(f, f, o, "")) == View(a[..o], [], a[o..])
  {
  }

  lemma SightSkips(a: seq<string>, f: nat, o: nat, k: nat)
    requires f <= o <= o + k <= |a|
    ensures var v := Sight(a, Position(f, o, o, ""));
      Sight(a, Position(f, o + k, o + k, "")) == View(v.done, v.skipped + v.rest[..k], v.rest[k..])
    ensures a == var v := Sight(a, Position(f, o, o, "")); v.done + v.skipped + v.rest
  {
    assert a[f..o + k] == a[f..o] + a[o..][..k] && a[o..][k..] == a[o + k..];
  }

  lemma SightTakes(a: seq<string>, f: nat, l: nat, o: nat, k: nat)
    requires f <= l <= o <= o + k <= |a|
    ensures var v := Sight(a, Position(f, l, o, ""));
      Sight(a, Position(f, l, o + k, "")) == View(v.done + v.rest[..k], v.skipped, v.rest[k..])
  {
    assert a[l..o + k] == a[l..o] + a[o..][..k] && a[o..][k..] == a[o + k..];
  }

  /** The loops over the table (getopt.c:652-676, and for `-W` 844-864, which is `strict`). */
  method FindLong(longs: seq<LongOption>, name: string, strict: bool) returns (found: Lookup)
    ensures found == Resolve(longs, name, strict)
  {
    var pfound, ambig := NotFound, false;
    for i := 0 to |longs|
      invariant forall j :: 0 <= j < i ==> !Match(longs[j], name, true)
      invariant pfound == NotFound || pfound.Found?
      invariant pfound == NotFound ==> !ambig && forall j :: 0 <= j < i ==> !Match(longs[j], name, false)
      invariant pfound.Found? ==> pfound.index < i && Match(longs[pfound.index], name, false)
      invariant pfound.Found? ==> forall j :: 0 <= j < pfound.index ==> !Match(longs[j], name, false)
      invariant pfound.Found? ==>
        (ambig <==> !(forall j :: pfound.index < j < i && Match(longs[j], name, false)
                        ==> !strict && SameAction(longs[pfound.index], longs[j])))
    {
      var p := longs[i];
      if name <= p.name {
        if |name| == |p.name| {
          return Found(i);
        } else if pfound.NotFound? {
          pfound := Found(i);
        } else if strict || !SameAction(longs[pfound.index], p) {
          assert Match(longs[i], name, false);
          ambig := true;
        }
      }
    }
    if ambig {
      return Ambiguous;
    }
    return pfound;
  }

  // ---------------------------------------------------------------------------------------
  // The scanner
  // ---------------------------------------------------------------------------------------

  class Getopt {
    var optarg: Option<string>
    var optind: nat
    var optopt: int
    var nextchar: string
    var firstNonopt: nat
    var lastNonopt: nat
    var ordering: Ordering
    var initialized: bool

    constructor ()
      ensures optind == 1 && !initialized
    {
      optarg, optind, optopt, nextchar := None, 1, '?' as int, "";
      firstNonopt, lastNonopt, ordering, initialized := 0, 0, RequireOrder, false;
    }

    ghost function Here(): Position
      reads this
    {
      Position(firstNonopt, lastNonopt, optind, nextchar)
    }

    /** The call with this state initializes. */
    ghost predicate Restarts()
      reads this
    {
      optind == 0 || !initialized
    }

    /** Where a call starts from. */
    ghost function Entry(): Position
      reads this
    {
      var start := if optind == 0 then 1 else optind;
      if Restarts() then Position(start, start, start, "") else Clamped(Here())
    }

    ghost function EntryOrdering(spec: Spec, posixlyCorrect: bool): Ordering
      reads this
    {
      if Restarts() then OrderingOf(spec.optstring, posixlyCorrect) else ordering
    }

    ghost function EntrySpec(spec: Spec): Spec
      reads this
    {
      if Restarts() then Stripped(spec) else spec
    }

    /** `exchange` (getopt.c:298-376). */
    method Exchange(argv: array<string>) returns (ghost swaps: nat)
      requires firstNonopt <= lastNonopt <= optind <= argv.Length
      modifies this`firstNonopt, this`lastNonopt, argv
      ensures argv[..] == Rotated(old(argv[..]), old(firstNonopt), old(lastNonopt), optind)
      ensures firstNonopt == old(firstNonopt) + (optind - old(lastNonopt)) && lastNonopt == optind
      ensures var a, b := old(lastNonopt - firstNonopt), optind - old(lastNonopt);
        a > 0 && b > 0 ==> swaps + Gcd(a, b) == a + b
    {
      hide Rotated, Swapped, Gcd;
      var bottom, middle, top := firstNonopt, lastNonopt, optind;
      swaps := 0;
      while top > middle && middle > bottom
        invariant firstNonopt == old(firstNonopt) && lastNonopt == old(lastNonopt)
        invariant firstNonopt <= bottom <= middle == lastNonopt <= top <= optind
        invariant Rotated(argv[..], bottom, middle, top) == Rotated(old(argv[..]), firstNonopt, middle, optind)
        invariant swaps + (top - bottom) - Gcd(middle - bottom, top - middle) ==
                  (optind - firstNonopt) - Gcd(middle - firstNonopt, optind - middle)
        decreases top - bottom
      {
        GcdStep(middle - bottom, top - middle);
        if top - middle > middle - bottom {
          var len := middle - bottom;
          RotateShortFirst(argv[..], bottom, middle, top);
          SwapBlocks(argv, bottom, top - (middle - bottom), len);
          top, swaps := top - len, swaps + len;
        } else {
          var len := top - middle;
          RotateShortLast(argv[..], bottom, middle, top);
          SwapBlocks(argv, bottom, middle, len);
          bottom, swaps := bottom + len, swaps + len;
        }
      }
      RotateNothing(argv[..], bottom, middle, top);
      firstNonopt := firstNonopt + (optind - lastNonopt);
      lastNonopt := optind;
    }

    /** `_getopt_initialize` (getopt.c:383-414). */
    method Initialize(optstring0: string, posixlyCorrect: bool) returns (optstring: string)
      modifies this`firstNonopt, this`lastNonopt, this`nextchar, this`ordering
      ensures Here() == Position(optind, optind, optind, "") && ordering == OrderingOf(optstring0, posixlyCorrect)
      ensures forall longs :: Spec(optstring, longs) == Stripped(Spec(optstring0, longs))
    {
      optstring := optstring0;
      firstNonopt, lastNonopt := optind, optind;
      nextchar := "";
      if At(optstring, 0) == '-' {
        ordering := ReturnInOrder;
        optstring := optstring[1..];
      } else if At(optstring, 0) == '+' {
        ordering := RequireOrder;
        optstring := optstring[1..];
      } else if posixlyCorrect {
        ordering := RequireOrder;
      } else {
        ordering := Permute;
      }
    }

    /** The state after an option: `o` is taken from the element at `start`. */
    twostate predicate Took(o: Outcome, start: nat, event: Event)
      reads this
    {
      && event == o.event && optarg == event.optarg && nextchar == o.left
      && optind == start + (if o.left == "" then 1 + o.taken else 0)
      && optopt == if event.optopt.Some? then event.optopt.value else old(optopt)
    }

    /** The argument of long option `i`, if it takes one (getopt.c:692-744, and for `-W` 876-916). */
    method TakeLong(argv: array<string>, spec: Spec, i: nat, pfound: LongOption, text: string, nameend: nat,
                    complaint: Option<int>) returns (event: Event)
      requires 0 < optind <= argv.Length && nameend <= |text|
      modifies this`optind, this`nextchar, this`optarg, this`optopt
      ensures Took(Take(spec, i, pfound, text, nameend, argv[old(optind)..], old(optarg), complaint),
                   old(optind) - 1, event)
    {
      if nameend < |text| {
        if pfound.hasArg != 0 {
          optarg := Some(text[nameend + 1..]);
        } else {
          nextchar := "";
          optopt := if complaint.Some? then complaint.value else optopt;
          return Event(Char('?'), optarg, complaint, None);
        }
      } else if pfound.hasArg == 1 {
        if optind < argv.Length {
          optarg := Some(argv[optind]);
          optind := optind + 1;
        } else {
          nextchar := "";
          optopt := if complaint.Some? then complaint.value else optopt;
          return Event(Missing(spec), optarg, complaint, None);
        }
      }
      nextchar := "";
      return Event(Value(pfound), optarg, None, Some(i));
    }

    /** A `--name` element (getopt.c:635-770). */
    method LongElement(argv: array<string>, spec: Spec) returns (event: Event)
      requires optind < argv.Length && spec.longopts.Some? && optarg == None
      modifies this`optind, this`nextchar, this`optarg, this`optopt
      ensures Took(LongOutcome(old(nextchar), argv[old(optind) + 1..], spec), old(optind), event)
    {
      hide Resolve, Take;
      var nameend := IndexOf(nextchar, '=');
      var found := FindLong(spec.longopts.value, nextchar[..nameend], false);
      optind := optind + 1;
      match found
      case Found(i) =>
        var pfound := spec.longopts.value[i];
        event := TakeLong(argv, spec, i, pfound, nextchar, nameend, Some(pfound.val));
      case _ =>
        nextchar := "";
        optopt := 0;
        event := Event(Char('?'), None, Some(0), None);
    }

    /** `-W name` (getopt.c:798-920), after its letter has been taken. */
    method NamedOption(argv: array<string>, spec: Spec) returns (event: Event)
      requires if nextchar != "" then optind < argv.Length else 0 < optind <= argv.Length
      requires spec.longopts.Some? && optarg == None
      modifies this`optind, this`nextchar, this`optarg, this`optopt
      ensures var start := if old(nextchar) != "" then old(optind) else old(optind) - 1;
        Took(NextNamedOutcome(old(nextchar), argv[start + 1..], spec), start, event)
    {
      hide Resolve, Take;
      if nextchar != "" {
        optarg := Some(nextchar);
        optind := optind + 1;
      } else if optind == argv.Length {
        optopt := 'W' as int;
        return Event(Missing(spec), None, Some('W' as int), None);
      } else {
        assert argv[optind..][1..] == argv[optind + 1..];
        optarg := Some(argv[optind]);
        optind := optind + 1;
      }
      nextchar := optarg.value;
      var nameend := IndexOf(nextchar, '=');
      var found := FindLong(spec.longopts.value, nextchar[..nameend], true);
      match found
      case Ambiguous =>
        nextchar := "";
        optind := optind + 1;
        event := Event(Char('?'), optarg, None, None);
      case Found(i) =>
        event := TakeLong(argv, spec, i, spec.longopts.value[i], nextchar, nameend, None);
      case NotFound =>
        nextchar := "";
        event := Event(Char('W'), optarg, None, None);
    }

    /** The next letter of a cluster (getopt.c:774-968). */
    method ShortOption(argv: array<string>, spec: Spec) returns (event: Event)
      requires nextchar != "" && optind < argv.Length && Usable(spec) && optarg == None
      modifies this`optind, this`nextchar, this`optarg, this`optopt
      ensures Took(ShortOutcome(old(nextchar), argv[old(optind) + 1..], spec), old(optind), event)
    {
      hide NextNamedOutcome;
      var c := nextchar[0];
      nextchar := nextchar[1..];
      var temp := IndexOf(spec.optstring, c);
      if nextchar == "" {
        optind := optind + 1;
      }
      if temp == |spec.optstring| || c == ':' {
        optopt := c as int;
        return Event(Char('?'), None, Some(c as int), None);
      }
      if c == 'W' && At(spec.optstring, temp + 1) == ';' {
        event := NamedOption(argv, spec);
        return;
      }
      if At(spec.optstring, temp + 1) == ':' {
        if At(spec.optstring, temp + 2) == ':' {
          if nextchar != "" {
            optarg := Some(nextchar);
            optind := optind + 1;
          } else {
            optarg := None;
          }
        } else if nextchar != "" {
          optarg := Some(nextchar);
          optind := optind + 1;
        } else if optind == argv.Length {
          optopt := c as int;
          return Event(Missing(spec), None, Some(c as int), None);
        } else {
          optarg := Some(argv[optind]);
          optind := optind + 1;
        }
        nextchar := "";
      }
      return Event(Char(c), optarg, None, None);
    }

    /** Options found behind the operands skipped so far change places with them (getopt.c:556-562). */
    method Regroup(argv: array<string>)
      requires Fit(Here(), ordering, argv.Length) && nextchar == ""
      modifies this`firstNonopt, this`lastNonopt, argv
      ensures firstNonopt <= optind
      ensures Sight(argv[..], Position(firstNonopt, optind, optind, "")) == old(Sight(argv[..], Here()))
    {
      hide Rotated, Sight;
      if firstNonopt != lastNonopt && lastNonopt != optind {
        SightRotated(argv[..], firstNonopt, lastNonopt, optind);
        ghost var swaps := Exchange(argv);
      } else if lastNonopt != optind {
        SightEmpty(argv[..], firstNonopt, optind);
        SightEmpty(argv[..], optind, optind);
        firstNonopt := optind;
      }
    }

    /** Over the operands that follow (getopt.c:567-568). */
    method SkipRun(argv: array<string>)
      requires optind <= argv.Length
      modifies this`optind
      ensures old(optind) <= optind <= argv.Length
      ensures forall i :: old(optind) <= i < optind ==> NonOption(argv[i])
      ensures optind < argv.Length ==> !NonOption(argv[optind])
    {
      while optind < argv.Length && NonOption(argv[optind])
        invariant old(optind) <= optind <= argv.Length
        invariant forall i :: old(optind) <= i < optind ==> NonOption(argv[i])
      {
        optind := optind + 1;
      }
    }

    /** The operands that follow are skipped too (getopt.c:554-570). */
    method SkipOperands(argv: array<string>)
      requires Fit(Here(), ordering, argv.Length) && nextchar == "" && ordering == Permute
      modifies this`optind, this`firstNonopt, this`lastNonopt, argv
      ensures Fit(Here(), ordering, argv.Length) && lastNonopt == optind
      ensures
        var v := old(Sight(argv[..], Here()));
        var k := Leading(v.rest);
        && Sight(argv[..], Here()) == View(v.done, v.skipped + v.rest[..k], v.rest[k..])
        && optind == old(optind) + k
    {
      hide Sight, NonOption, Leading;
      ghost var v, o := Sight(argv[..], Here()), optind;
      Regroup(argv);
      SkipRun(argv);
      SkipsTo(argv[..], firstNonopt, o, optind, v);
      lastNonopt := optind;
    }

    /** `--` ends the options (getopt.c:577-600). */
    method EndAtDashes(argv: array<string>)
      requires Fit(Here(), ordering, argv.Length) && nextchar == "" && optind < argv.Length
      requires firstNonopt == lastNonopt || lastNonopt == optind
      modifies this`optind, this`firstNonopt, this`lastNonopt, argv
      ensures var v := old(Sight(argv[..], Here()));
        && argv[..] == v.done + v.rest[..1] + v.skipped + v.rest[1..]
        && optind == |v.done| + 1 && nextchar == ""
    {
      hide Rotated, Sight;
      SightTakes(argv[..], firstNonopt, lastNonopt, optind, 1);
      RestAt(argv[..], Here());
      optind := optind + 1;
      SightRotated(argv[..], firstNonopt, lastNonopt, optind);
      if firstNonopt != lastNonopt && lastNonopt != optind {
        ghost var swaps := Exchange(argv);
      } else if firstNonopt == lastNonopt {
        RotateNothing(argv[..], firstNonopt, lastNonopt, optind);
        firstNonopt := optind;
      }
      lastNonopt := argv.Length;
      optind := argv.Length;
      if firstNonopt != lastNonopt {
        optind := firstNonopt;
      }
    }

    /** What a call makes of the element it has come to (getopt.c:577-617).  A result ends the call. */
    method Settle(argv: array<string>, long: bool) returns (stop: Option<Event>)
      requires Fit(Here(), ordering, argv.Length) && nextchar == "" && optarg == None
      requires firstNonopt == lastNonopt || lastNonopt == optind
      modifies this`optind, this`firstNonopt, this`lastNonopt, this`nextchar, this`optarg, argv
      ensures Settled(ordering, long, old(Sight(argv[..], Here())), stop, argv[..], Here(), optarg)
    {
      hide Sight, Leading, Rotated;
      RestAt(argv[..], Here());
      if optind != argv.Length && argv[optind] == "--" {
        EndAtDashes(argv);
        return Some(DONE);
      }
      SightRotated(argv[..], firstNonopt, lastNonopt, optind);
      RotateNothing(argv[..], firstNonopt, lastNonopt, optind);
      if optind == argv.Length {
        if firstNonopt != lastNonopt {
          optind := firstNonopt;
        }
        return Some(DONE);
      }
      if NonOption(argv[optind]) {
        if ordering == RequireOrder {
          return Some(DONE);
        }
        SightTakes(argv[..], firstNonopt, lastNonopt, optind, 1);
        optarg := Some(argv[optind]);
        optind := optind + 1;
        return Some(Event(Num(1), optarg, None, None));
      }
      nextchar := argv[optind][if long && argv[optind][1] == '-' then 2 else 1..];
      SightLeft(argv[..], Here());
      return None;
    }

    /** Going to the next element (getopt.c:543-618). */
    method Advance(argv: array<string>, long: bool) returns (stop: Option<Event>)
      requires nextchar == "" && optarg == None && Fit(Clamped(Here()), ordering, argv.Length)
      modifies this`optind, this`firstNonopt, this`lastNonopt, this`nextchar, this`optarg, argv
      ensures
        var v := old(Sight(argv[..], Clamped(Here())));
        var k := Skips(ordering, v.rest);
        Settled(ordering, long, View(v.done, v.skipped + v.rest[..k], v.rest[k..]), stop, argv[..], Here(), optarg)
    {
      hide Sight, Leading, Settled;
      if lastNonopt > optind {
        lastNonopt := optind;
      }
      if firstNonopt > optind {
        firstNonopt := optind;
      }
      ghost var v := Sight(argv[..], Here());
      if ordering == Permute {
        SkipOperands(argv);
      } else {
        SkipNothing(v);
      }
      stop := Settle(argv, long);
    }

    /** The scan of one call (getopt.c:543-968). */
    method Scan(argv: array<string>, spec: Spec, ghost later: Spec) returns (event: Event)
      requires optarg == None && Fit(Clamped(Here()), ordering, argv.Length) && Usable(spec) && Usable(later)
      requires InCluster(argv[..], Here(), spec) && spec.longopts == later.longopts
      modifies this`optind, this`firstNonopt, this`lastNonopt, this`nextchar, this`optarg, this`optopt, argv
      ensures Scanned(ordering, spec, later, old(argv[..]), old(Clamped(Here())), event, argv[..], Here())
    {
      hide Sight, Settled, Scanned, Leading, ShortOutcome, LongOutcome, Parse, EndsWith, InCluster;
      ghost var a0, p0 := argv[..], Clamped(Here());
      ClusterClamped(a0, Here(), spec);
      if nextchar == "" {
        var stop := Advance(argv, spec.longopts.Some?);
        if stop.Some? {
          ScanStops(ordering, spec, later, a0, p0, stop.value, argv[..], Here(), optarg);
          return stop.value;
        }
      }
      ghost var a1, p1 := argv[..], Here();
      ScanStarts(ordering, spec, later, a0, p0, a1, p1, optarg);
      if spec.longopts.Some? && At(argv[optind], 1) == '-' {
        event := LongElement(argv, spec);
      } else {
        event := ShortOption(argv, spec);
      }
      ScanTakes(ordering, spec, later, a0, p0, a1, p1, Here());
    }

    /** The caller's side of a call: the vector and the state fit each other. */
    ghost predicate Ready(a: seq<string>, spec: Spec, posixlyCorrect: bool)
      reads this
    {
      && Usable(spec) && Fit(Entry(), EntryOrdering(spec, posixlyCorrect), |a|)
      && InCluster(a, Entry(), spec)
    }

    /** `_getopt_internal` (getopt.c:505-969) with `long_only` off. */
    method Next(argv: array<string>, spec: Spec, posixlyCorrect: bool) returns (event: Event)
      requires argv.Length > 0 ==> Ready(argv[..], spec, posixlyCorrect)
      modifies this, argv
      ensures argv.Length == 0 ==> event == DONE && unchanged(this)
      ensures argv.Length > 0 ==>
        && initialized && ordering == old(EntryOrdering(spec, posixlyCorrect)) && Usable(old(EntrySpec(spec)))
        && Scanned(ordering, old(EntrySpec(spec)), spec, old(argv[..]), old(Entry()), event, argv[..], Here())
      ensures argv.Length > 0 ==>
        var rest := old(Sight(argv[..], Entry()).rest);
        event == DONE || (Valued(event, spec) && FromSome(event, rest, ordering, old(EntrySpec(spec)), spec))
    {
      hide Scanned, Usable, Valued, FromSome, Sight;
      if argv.Length < 1 {
        return DONE;
      }
      StrippedUsable(spec);
      optarg := None;
      var now := spec;
      if optind == 0 || !initialized {
        if optind == 0 {
          optind := 1;
        }
        var optstring := Initialize(spec.optstring, posixlyCorrect);
        now := Spec(optstring, spec.longopts);
        initialized := true;
      }
      ghost var a, p := argv[..], Entry();
      event := Scan(argv, now, spec);
      InsideRest(a, p, spec);
      ScannedFrom(ordering, now, spec, a, p, event, argv[..], Here());
    }

    /** The caller's loop (getopt.c:998-1042): calls until one returns -1.  The events are those of
        the vector's parse; the vector ends up with the elements of the options in front, the
        operands behind, and `optind` between them. */
    method Drain(argv: array<string>, spec: Spec, posixlyCorrect: bool) returns (events: seq<Event>)
      requires argv.Length > 0 && Ready(argv[..], spec, posixlyCorrect) && Clear(spec)
      requires !Whole(spec, posixlyCorrect, argv[..]).overrun
      modifies this, argv
      ensures
        var v := old(Sight(argv[..], Entry()));
        var parsed := old(Whole(spec, posixlyCorrect, argv[..]));
        Finished(parsed, v, events, argv[..], optind)
    {
      hide Finished, Pending, Parse, Sight;
      ghost var v, parsed := Sight(argv[..], Entry()), Whole(spec, posixlyCorrect, argv[..]);
      Unstarted(EntryOrdering(spec, posixlyCorrect), EntrySpec(spec), spec, parsed, v, argv[..], Entry());
      events := [];
      var event := Continue(argv, spec, posixlyCorrect, parsed, v, events);
      while event != DONE
        invariant if event == DONE then Finished(parsed, v, events, argv[..], optind)
                  else Awaits(argv[..], spec, posixlyCorrect, parsed, v, events + [event])
        invariant |events| <= |parsed.events|
        decreases |parsed.events| - |events|
      {
        events := events + [event];
        event := Continue(argv, spec, posixlyCorrect, parsed, v, events);
      }
    }

    /** Between calls: what there is to come. */
    ghost predicate Awaits(a: seq<string>, spec: Spec, posixlyCorrect: bool, parsed: Parsed, v: View,
                           events: seq<Event>)
      reads this
    {
      && Pending(EntryOrdering(spec, posixlyCorrect), EntrySpec(spec), spec, parsed, v, events, a, Entry())
      && |events| <= |parsed.events|
    }

    /** One turn of the caller's loop. */
    method Continue(argv: array<string>, spec: Spec, posixlyCorrect: bool,
                    ghost parsed: Parsed, ghost v: View, ghost events: seq<Event>) returns (event: Event)
      requires argv.Length > 0 && Clear(spec)
      requires Awaits(argv[..], spec, posixlyCorrect, parsed, v, events)
      modifies this, argv
      ensures if event == DONE then Finished(parsed, v, events, argv[..], optind)
              else Awaits(argv[..], spec, posixlyCorrect, parsed, v, events + [event])
    {
      hide Scanned, Finished, Pending, Sight, Parse, Clear;
      ghost var a, p, now, ord := argv[..], Entry(), EntrySpec(spec), EntryOrdering(spec, posixlyCorrect);
      PendingReady(ord, now, spec, parsed, v, events, a, p);
      StrippedUsable(spec);
      event := Next(argv, spec, posixlyCorrect);
      GoesOn(ord, now, spec, parsed, v, events, a, p, event, argv[..], Here());
      if event != DONE {
        PendingReady(ord, spec, spec, parsed, v, events + [event], argv[..], Here());
      }
    }

    /** The parse of what the next call starts from. */
    ghost function Whole(spec: Spec, posixlyCorrect: bool, a: seq<string>): Parsed
      requires Ready(a, spec, posixlyCorrect)
      reads this
    {
      StrippedUsable(spec);
      Parse(EntryOrdering(spec, posixlyCorrect), EntrySpec(spec), spec, Entry().left, Sight(a, Entry()).rest)
    }
  }

  /** The vector and `optind` once all events are out. */
  ghost predicate Finished(parsed: Parsed, v: View, events: seq<Event>, a: seq<string>, optind: int) {
    && events == parsed.events
    && a == (v.done + parsed.options) + (v.skipped + parsed.operands)
    && optind == |v.done| + |parsed.options|
  }

  /** The events so far and those of `rest` are the events of the whole, and `rest` leads from `w`
      to the same vector as the whole from `v`. */
  ghost predicate Total(parsed: Parsed, v: View, events: seq<Event>, rest: Parsed, w: View) {
    && events + rest.events == parsed.events && !rest.overrun
    && w.done + rest.options == v.done + parsed.options
    && w.skipped + rest.operands == v.skipped + parsed.operands
  }

  /** Between two calls of a run. */
  ghost predicate Pending(ordering: Ordering, now: Spec, later: Spec, parsed: Parsed, v: View,
                          events: seq<Event>, a: seq<string>, p: Position)
  {
    && Fit(p, ordering, |a|) && InCluster(a, p, later) && Usable(now) && Usable(later)
    && Total(parsed, v, events, Parse(ordering, now, later, p.left, Sight(a, p).rest), Sight(a, p))
  }

  lemma TotalEnds(parsed: Parsed, v: View, events: seq<Event>, rest: Parsed, w: View, a: seq<string>, optind: int)
    requires Total(parsed, v, events, rest, w) && Ends(rest, w, a, optind)
    ensures Finished(parsed, v, events, a, optind)
  {
    assert a == (w.done + rest.options) + (w.skipped + rest.operands);
    assert events + [] == events;
  }

  lemma TotalPops(parsed: Parsed, v: View, events: seq<Event>, rest: Parsed, w: View, event: Event, rest': Parsed,
                  w': View)
    requires Total(parsed, v, events, rest, w) && Pops(rest, w, event, rest', w')
    ensures Total(parsed, v, events + [event], rest', w')
  {
    assert events + rest.events == events + [event] + rest.events[1..];
  }

  lemma Unstarted(ordering: Ordering, now: Spec, later: Spec, parsed: Parsed, v: View, a: seq<string>, p: Position)
    requires Fit(p, ordering, |a|) && InCluster(a, p, later) && Usable(now) && Usable(later)
    requires v == Sight(a, p) && parsed == Parse(ordering, now, later, p.left, v.rest) && !parsed.overrun
    ensures Pending(ordering, now, later, parsed, v, [], a, p)
  {
    hide Parse;
    assert [] + parsed.events == parsed.events;
  }

  lemma PendingReady(ordering: Ordering, now: Spec, later: Spec, parsed: Parsed, v: View, events: seq<Event>,
                     a: seq<string>, p: Position)
    requires Pending(ordering, now, later, parsed, v, events, a, p)
    ensures Fit(p, ordering, |a|) && InCluster(a, p, later) && Usable(now) && Usable(later) && Clamped(p) == p
    ensures |events| <= |parsed.events|
  {
    hide Parse;
  }

  lemma GoesOn(ordering: Ordering, now: Spec, later: Spec, parsed: Parsed, v: View, events: seq<Event>,
               a: seq<string>, p: Position, event: Event, a': seq<string>, p': Position)
    requires Pending(ordering, now, later, parsed, v, events, a, p) && Clear(now) && Clear(later)
    requires Scanned(ordering, now, later, a, p, event, a', p')
    ensures if event == DONE then Finished(parsed, v, events, a', p'.optind)
            else Pending(ordering, later, later, parsed, v, events + [event], a', p') && p.optind <= p'.optind
    ensures |events| <= |parsed.events|
  {
    hide Parse, Clear, Pops, Ends, Finished, Sight;
    RestAt(a, p);
    var rest, w := Parse(ordering, now, later, p.left, Sight(a, p).rest), Sight(a, p);
    EventsNotDone(ordering, now, later, p.left, w.rest);
    if rest.events == [] {
      TotalEnds(parsed, v, events, rest, w, a', p'.optind);
    } else {
      assert p'.optind <= |a'|;
      RestAt(a', p');
      var rest' := Parse(ordering, later, later, p'.left, Sight(a', p').rest);
      TotalPops(parsed, v, events, rest, w, event, rest', Sight(a', p'));
      PopsFirst(rest, w, event, rest', Sight(a', p'));
    }
  }

  lemma PopsFirst(p: Parsed, v: View, event: Event, p': Parsed, v': View)
    requires Pops(p, v, event, p', v') && NoneDone(p.events)
    ensures event != DONE
  {
  }

  /** Between two options of an element, the scan is inside it, and it is not a `--name`. */
  predicate InCluster(a: seq<string>, p: Position, spec: Spec) {
    p.left != "" && p.optind < |a| ==>
      EndsWith(a[p.optind], p.left) && (spec.longopts.Some? ==> At(a[p.optind], 1) != '-')
  }

  /** What one call does, in terms of the parse of what is not scanned yet: it ends, or takes the
      first event, or steps over the end of the vector. */
  ghost predicate Scanned(ordering: Ordering, now: Spec, later: Spec, a: seq<string>, p: Position,
                          event: Event, a': seq<string>, p': Position)
    requires Fit(p, ordering, |a|) && Usable(now) && Usable(later)
  {
    var v := Sight(a, p);
    var parsed := Parse(ordering, now, later, p.left, v.rest);
    && |a'| == |a|
    && if parsed.events == [] then
      event == DONE && Ends(parsed, v, a', p'.optind)
    else if p'.optind > |a'| then
      parsed.events == [event] && parsed.overrun && p'.optind == |a'| + 1
    else
      && Fit(p', ordering, |a'|) && InCluster(a', p', later)
      && p.optind <= p'.optind && a'[p'.optind..] == a[p'.optind..]
      && Pops(parsed, v, event, Parse(ordering, later, later, p'.left, a'[p'.optind..]), Sight(a', p'))
  }

  lemma ClusterClamped(a: seq<string>, p: Position, spec: Spec)
    requires InCluster(a, p, spec)
    ensures InCluster(a, Clamped(p), spec)
    ensures p.left != "" && p.optind < |a| && spec.longopts.Some? ==> At(a[p.optind], 1) != '-'
  {
    hide EndsWith;
  }

  lemma InsideRest(a: seq<string>, p: Position, spec: Spec)
    requires p.first <= p.last <= p.optind <= |a| && (p.left != "" ==> p.optind < |a|) && InCluster(a, p, spec)
    ensures Inside(p.left, Sight(a, p).rest)
  {
    hide EndsWith;
  }

  /** The event of a call comes from an element that was not scanned yet. */
  lemma ScannedFrom(ordering: Ordering, now: Spec, later: Spec, a: seq<string>, p: Position,
                    event: Event, a': seq<string>, p': Position)
    requires Fit(p, ordering, |a|) && Usable(now) && Usable(later) && now.longopts == later.longopts
    requires Inside(p.left, Sight(a, p).rest) && Scanned(ordering, now, later, a, p, event, a', p')
    ensures event == DONE || (Valued(event, later) && FromSome(event, Sight(a, p).rest, ordering, now, later))
  {
    hide Parse, FromSome, Usable, EndsWith;
    EventsFrom(ordering, now, later, p.left, Sight(a, p).rest);
    ValuesReturned(ordering, now, later, p.left, Sight(a, p).rest);
  }

  /** How a call ends or goes on at the first of `v.rest`. */
  ghost predicate Settled(ordering: Ordering, long: bool, v: View, stop: Option<Event>,
                          a: seq<string>, p: Position, optarg: Option<string>) {
    if v.rest == [] then
      stop == Some(DONE) && a == v.done + v.skipped && p.optind == |v.done|
    else if v.rest[0] == "--" then
      && stop == Some(DONE)
      && a == v.done + v.rest[..1] + v.skipped + v.rest[1..] && p.optind == |v.done| + 1
    else if NonOption(v.rest[0]) && ordering == RequireOrder then
      && stop == Some(DONE)
      && a == v.done + v.skipped + v.rest && p.optind == |v.done|
    else
      && Fit(p, ordering, |a|)
      && (if NonOption(v.rest[0]) then
            && stop == Some(Event(Num(1), Some(v.rest[0]), None, None)) && optarg == Some(v.rest[0]) && p.left == ""
            && Sight(a, p) == View(v.done + v.rest[..1], v.skipped, v.rest[1..])
          else
            && stop == None && p.left == v.rest[0][if long && v.rest[0][1] == '-' then 2 else 1..] && p.left != ""
            && optarg == None && Sight(a, p) == v)
  }

  function After(p: Position, o: Outcome): Position {
    Position(p.first, p.last, p.optind + (if o.left == "" then 1 + o.taken else 0), o.left)
  }

  /** Taking one option off agrees with parsing it. */
  lemma Takes(ordering: Ordering, now: Spec, later: Spec, left: string, a: seq<string>, p: Position)
    requires Fit(p, ordering, |a|) && p.optind < |a| && Usable(now) && Usable(later)
    requires left == "" ==> !NonOption(a[p.optind]) && a[p.optind] != "--"
    ensures
      var o := NextOutcome(left, a[p.optind..], now);
      var p' := After(p, o);
      var parsed := Parse(ordering, now, later, left, a[p.optind..]);
      if p'.optind > |a| then
        parsed.events == [o.event] && parsed.overrun && p'.optind == |a| + 1
      else
        && Fit(p', ordering, |a|)
        && Pops(parsed, Sight(a, p), o.event, Parse(ordering, later, later, p'.left, a[p'.optind..]), Sight(a, p'))
  {
    hide NextOutcome, NonOption, Sight, Parse;
    var args := a[p.optind..];
    var o := NextOutcome(left, args, now);
    var p' := After(p, o);
    ParseTakes(ordering, now, later, left, args);
    SightLeft(a, p);
    if p'.optind <= |a| {
      SightLeft(a, p');
      RestAt(a, p);
      var taken := p'.optind - p.optind;
      assert args[taken..] == a[p'.optind..];
      SightTakes(a, p.first, p.last, p.optind, taken);
      PopsConsing(o.event, args[..taken], Parse(ordering, later, later, p'.left, a[p'.optind..]),
                  Sight(a, p), Sight(a, p'));
    }
  }

  lemma PopsConsing(event: Event, taken: seq<string>, p: Parsed, v: View, v': View)
    requires v'.done == v.done + taken && v'.skipped == v.skipped
    ensures Pops(Consing(event, taken, p), v, event, p, v')
  {
    assert v.done + taken + p.options == v.done + (taken + p.options);
  }

  /** How many operands a call skips. */
  function Skips(ordering: Ordering, args: seq<string>): (k: nat)
    ensures k <= |args|
  {
    if ordering == Permute then Leading(args) else 0
  }

  lemma ParseFrom(ordering: Ordering, now: Spec, later: Spec, args: seq<string>)
    requires Usable(now) && Usable(later)
    ensures var k := Skips(ordering, args);
      Parse(ordering, now, later, "", args) == Skipping(args[..k], Parse(ordering, now, later, "", args[k..]))
  {
    hide Parse, Leading;
    if ordering == Permute {
      ParseSkips(now, later, args);
    } else {
      assert args[0..] == args;
    }
  }

  /** The call has come to an option at `p1`, or was inside that element from the start. */
  ghost predicate Reached(long: bool, a0: seq<string>, p0: Position, a1: seq<string>, p1: Position) {
    && |a1| == |a0| && p0.optind <= p1.optind < |a1| && p1.left != ""
    && a1[p1.optind..] == a0[p1.optind..]
    && var elem := a1[p1.optind];
    if p0.left != "" then p1 == p0
    else !NonOption(elem) && elem != "--" && p1.left == elem[if long && elem[1] == '-' then 2 else 1..]
  }

  /** Coming there, it has only skipped operands. */
  ghost predicate Begun(ordering: Ordering, now: Spec, later: Spec, a0: seq<string>, p0: Position,
                        a1: seq<string>, p1: Position)
    requires Fit(p0, ordering, |a0|) && Usable(now) && Usable(later)
  {
    && Reached(now.longopts.Some?, a0, p0, a1, p1) && Fit(p1, ordering, |a1|)
    && var v0, v1 := Sight(a0, p0), Sight(a1, p1);
    && v1.done == v0.done
    && exists s :: v1.skipped == v0.skipped + s
         && Parse(ordering, now, later, p0.left, v0.rest) ==
            Skipping(s, Parse(ordering, now, later, p0.left, a1[p1.optind..]))
  }

  lemma PopsSkipping(s: seq<string>, p: Parsed, v: View, v1: View, event: Event, p': Parsed, v': View)
    requires v1.done == v.done && v1.skipped == v.skipped + s && Pops(p, v1, event, p', v')
    ensures Pops(Skipping(s, p), v, event, p', v')
  {
    assert v.skipped + (s + p.operands) == v.skipped + s + p.operands;
  }

  lemma EndsSkipping(s: seq<string>, p: Parsed, v: View, v1: View, a: seq<string>, optind: int)
    requires v1.done == v.done && v1.skipped == v.skipped + s && Ends(p, v1, a, optind)
    ensures Ends(Skipping(s, p), v, a, optind)
  {
    assert v.done + p.options + v.skipped + (s + p.operands) == v.done + p.options + (v.skipped + s) + p.operands;
  }

  lemma ScanStarts(ordering: Ordering, now: Spec, later: Spec, a0: seq<string>, p0: Position,
                   a1: seq<string>, p1: Position, optarg: Option<string>)
    requires Fit(p0, ordering, |a0|) && Usable(now) && Usable(later) && |a1| == |a0|
    requires
      if p0.left != "" then a1 == a0 && p1 == p0 && optarg == None
      else var v0 := Sight(a0, p0); var k := Skips(ordering, v0.rest);
        && Settled(ordering, now.longopts.Some?, View(v0.done, v0.skipped + v0.rest[..k], v0.rest[k..]), None,
                   a1, p1, optarg)
    ensures Begun(ordering, now, later, a0, p0, a1, p1) && optarg == None
  {
    hide Sight, Parse, Skipping;
    var v0 := Sight(a0, p0);
    RestAt(a0, p0);
    if p0.left != "" {
      SkippingTwice([], [], Parse(ordering, now, later, p0.left, v0.rest));
      assert v0.skipped == v0.skipped + [];
    } else {
      var k := Skips(ordering, v0.rest);
      RestAt(a1, p1);
      ParseFrom(ordering, now, later, v0.rest);
      assert v0.rest[k..] == a0[p0.optind + k..];
    }
  }

  lemma ScanTakes(ordering: Ordering, now: Spec, later: Spec, a0: seq<string>, p0: Position,
                  a1: seq<string>, p1: Position, p2: Position)
    requires Fit(p0, ordering, |a0|) && Usable(now) && Usable(later) && now.longopts == later.longopts
    requires Begun(ordering, now, later, a0, p0, a1, p1) && InCluster(a0, p0, now)
    requires p2 == After(p1, NextOutcome(p0.left, a1[p1.optind..], now))
    ensures Scanned(ordering, now, later, a0, p0, NextOutcome(p0.left, a1[p1.optind..], now).event, a1, p2)
  {
    var v0, v1 := Sight(a0, p0), Sight(a1, p1);
    RestAt(a0, p0);
    var s :| v1.skipped == v0.skipped + s
         && Parse(ordering, now, later, p0.left, v0.rest) ==
            Skipping(s, Parse(ordering, now, later, p0.left, a1[p1.optind..]));
    ScanTakesVia(ordering, now, later, a0, p0, a1, p1, p2, s);
  }

  lemma ScanTakesVia(ordering: Ordering, now: Spec, later: Spec, a0: seq<string>, p0: Position,
                     a1: seq<string>, p1: Position, p2: Position, s: seq<string>)
    requires Fit(p0, ordering, |a0|) && Usable(now) && Usable(later) && now.longopts == later.longopts
    requires Reached(now.longopts.Some?, a0, p0, a1, p1) && Fit(p1, ordering, |a1|) && InCluster(a0, p0, now)
    requires p2 == After(p1, NextOutcome(p0.left, a1[p1.optind..], now))
    requires Sight(a1, p1).done == Sight(a0, p0).done && Sight(a1, p1).skipped == Sight(a0, p0).skipped + s
    requires p0.left != "" ==> Sight(a0, p0).rest != []
    requires Parse(ordering, now, later, p0.left, Sight(a0, p0).rest) ==
             Skipping(s, Parse(ordering, now, later, p0.left, a1[p1.optind..]))
    ensures Scanned(ordering, now, later, a0, p0, NextOutcome(p0.left, a1[p1.optind..], now).event, a1, p2)
  {
    hide Sight, Parse, Skipping, NextOutcome, NonOption, Pops, Usable, EndsWith;
    var v0, v1 := Sight(a0, p0), Sight(a1, p1);
    var o := NextOutcome(p0.left, a1[p1.optind..], now);
    Takes(ordering, now, later, p0.left, a1, p1);
    SkippingKeeps(s, Parse(ordering, now, later, p0.left, a1[p1.optind..]));
    if p2.optind <= |a1| {
      PopsSkipping(s, Parse(ordering, now, later, p0.left, a1[p1.optind..]), v0, v1, o.event,
                   Parse(ordering, later, later, p2.left, a1[p2.optind..]), Sight(a1, p2));
      PopsSome(Parse(ordering, now, later, p0.left, v0.rest), v0, o.event,
               Parse(ordering, later, later, p2.left, a1[p2.optind..]), Sight(a1, p2));
      assert a1[p2.optind..] == a1[p1.optind..][p2.optind - p1.optind..];
      assert a0[p2.optind..] == a0[p1.optind..][p2.optind - p1.optind..];
      LongLeavesNothing(p0.left, a1[p1.optind..], now);
      assert a1[p1.optind..][0] == a1[p1.optind];
      LeftEnds(p0.left, a1[p1.optind..], now);
    }
  }

  lemma PopsSome(p: Parsed, v: View, event: Event, p': Parsed, v': View)
    requires Pops(p, v, event, p', v')
    ensures p.events != []
  {
  }

  lemma SkippingKeeps(s: seq<string>, p: Parsed)
    ensures var q := Skipping(s, p); q.events == p.events && q.options == p.options && q.overrun == p.overrun
  {
  }

  lemma LongLeavesNothing(left: string, args: seq<string>, spec: Spec)
    requires args != [] && Usable(spec) && (left == "" ==> !NonOption(args[0]) && args[0] != "--")
    ensures left == "" && spec.longopts.Some? && args[0][1] == '-' ==> NextOutcome(left, args, spec).left == ""
  {
    hide Resolve;
  }

  /** A call that stops before any option. */
  lemma ScanStops(ordering: Ordering, now: Spec, later: Spec, a0: seq<string>, p0: Position, stop: Event,
                  a1: seq<string>, p1: Position, optarg: Option<string>)
    requires Fit(p0, ordering, |a0|) && Usable(now) && Usable(later) && |a1| == |a0| && p0.left == ""
    requires
      var v0 := Sight(a0, p0); var k := Skips(ordering, v0.rest);
      Settled(ordering, now.longopts.Some?, View(v0.done, v0.skipped + v0.rest[..k], v0.rest[k..]), Some(stop),
               a1, p1, optarg)
    ensures Scanned(ordering, now, later, a0, p0, stop, a1, p1)
  {
    hide Sight, Skipping, Parse, Leading, Usable, NonOption;
    var v0 := Sight(a0, p0);
    var k := Skips(ordering, v0.rest);
    var s, args := v0.rest[..k], v0.rest[k..];
    var v := View(v0.done, v0.skipped + s, args);
    ParseFrom(ordering, now, later, v0.rest);
    ParseStops(ordering, now, later, args);
    var q := Parse(ordering, now, later, "", args);
    SkippingKeeps(s, q);
    RestAt(a0, p0);
    if args == [] || args[0] == "--" || (NonOption(args[0]) && ordering == RequireOrder) {
      assert v.done + [] + v.skipped == v.done + v.skipped && v.done + v.skipped + [] == v.done + v.skipped;
      EndsSkipping(s, q, v0, v, a1, p1.optind);
    } else {
      RestAt(a1, p1);
      PopsConsing(stop, args[..1], Parse(ordering, later, later, "", args[1..]), v, Sight(a1, p1));
      PopsSkipping(s, q, v0, v, stop, Parse(ordering, later, later, "", args[1..]), Sight(a1, p1));
      assert a0[p0.optind..][k..][1..] == a0[p0.optind + k + 1..];
    }
  }

  lemma SkipNothing(v: View)
    ensures View(v.done, v.skipped + v.rest[..0], v.rest[0..]) == v
  {
  }

  lemma SightLeft(a: seq<string>, p: Position)
    requires p.first <= p.last <= p.optind <= |a|
    ensures Sight(a, p) == Sight(a, p.(left := ""))
  {
  }

  lemma SkipsTo(a: seq<string>, f: nat, o: nat, n: nat, v: View)
    requires f <= o <= n <= |a| && v == Sight(a, Position(f, o, o, ""))
    requires forall i :: o <= i < n ==> NonOption(a[i])
    requires n < |a| ==> !NonOption(a[n])
    ensures Leading(v.rest) == n - o
    ensures var k := n - o; Sight(a, Position(f, n, n, "")) == View(v.done, v.skipped + v.rest[..k], v.rest[k..])
  {
    hide NonOption, Leading;
    SightSkips(a, f, o, n - o);
    LeadingIs(v.rest, n - o);
  }

  lemma RestAt(a: seq<string>, p: Position)
    requires p.first <= p.last <= p.optind <= |a|
    ensures var v := Sight(a, p);
      && v.rest == a[p.optind..] && |v.rest| == |a| - p.optind && |v.done| == p.first + (p.optind - p.last)
  {
  }

  /** A whole run from the first element on: the vector is permuted, its first element stays, and each
      side of `optind` is in the original order.  In front are the options, their arguments and `--`,
      each as its role says. */
  lemma FinalVector(ordering: Ordering, now: Spec, later: Spec, a: seq<string>, events: seq<Event>,
                    a': seq<string>, optind: nat)
    requires a != [] && Usable(now) && Usable(later) && now.longopts == later.longopts
    requires Finished(Parse(ordering, now, later, "", a[1..]), Sight(a, Position(1, 1, 1, "")), events, a', optind)
    ensures 1 <= optind <= |a'| == |a| && a'[0] == a[0] && multiset(a') == multiset(a)
    ensures var roles := Roles(ordering, now, later, "", a[1..]);
      && a'[1..optind] == Pick(a[1..], MaskOf(roles), true) && a'[optind..] == Pick(a[1..], MaskOf(roles), false)
      && forall i :: 0 <= i < |roles| ==> Fitting(ordering, "", a[1..], roles, events, later, i)
  {
    hide Parse, Pick, Usable, Fitting, Roles, MaskOf;
    var mask := MaskOf(Roles(ordering, now, later, "", a[1..]));
    Partition(ordering, now, later, "", a[1..]);
    RolesFit(ordering, now, later, "", a[1..]);
    PickAll(a[1..], mask);
    var p := Parse(ordering, now, later, "", a[1..]);
    assert a' == a[..1] + p.options + p.operands by {
      assert Sight(a, Position(1, 1, 1, "")).done == a[..1];
      assert [] + p.operands == p.operands;
    }
    assert a == a[..1] + a[1..];
    assert |multiset(a')| == |multiset(a)|;
  }

  /** A program that scans its whole command line: the events are those of the parse, and the vector
      ends up permuted, with what belongs to options in front of `optind` and the operands behind it, both
      in the order given, each element as its role says. */
  method ScanVector(argv: array<string>, spec: Spec, posixlyCorrect: bool)
    returns (events: seq<Event>, optind: nat)
    requires argv.Length > 0 && Usable(spec) && Usable(Stripped(spec)) && Clear(spec)
    requires !Parse(OrderingOf(spec.optstring, posixlyCorrect), Stripped(spec), spec, "", argv[1..]).overrun
    modifies argv
    ensures var ordering, args := OrderingOf(spec.optstring, posixlyCorrect), old(argv[1..]);
      var roles := Roles(ordering, Stripped(spec), spec, "", args);
      && events == Parse(ordering, Stripped(spec), spec, "", args).events
      && 1 <= optind <= argv.Length && argv[0] == old(argv[0]) && multiset(argv[..]) == old(multiset(argv[..]))
      && argv[1..optind] == Pick(args, MaskOf(roles), true) && argv[optind..] == Pick(args, MaskOf(roles), false)
      && (forall i :: 0 <= i < |roles| ==> Fitting(ordering, "", args, roles, events, spec, i))
      && forall e :: e in events ==> Valued(e, spec) && FromSome(e, args, ordering, Stripped(spec), spec)
  {
    hide Parse, Roles, Pick, MaskOf, Fitting, Usable, Clear, Valued, FromSome;
    var scanner := new Getopt();
    ghost var a, ordering := argv[..], OrderingOf(spec.optstring, posixlyCorrect);
    assert a[1..] == argv[1..];
    assert Sight(a, scanner.Entry()).rest == a[1..];
    events := scanner.Drain(argv, spec, posixlyCorrect);
    optind := scanner.optind;
    FinalVector(ordering, Stripped(spec), spec, a, events, argv[..], optind);
    EventsFrom(ordering, Stripped(spec), spec, "", a[1..]);
    AllValued(ordering, Stripped(spec), spec, "", a[1..]);
    assert argv[..][1..optind] == argv[1..optind] && argv[..][optind..] == argv[optind..];
  }
}
