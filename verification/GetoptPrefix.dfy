/**
 Only the call that initializes the scanner steps over a leading `+` or `-` of the option string.  Later
 calls take it for an option letter, and do not see a `:` behind it.  When that shows is stated exactly.
*/
module GetoptPrefix {
  import opened GetoptSpec
  import opened GetoptScanner
  import opened Options

  /** How the letter at `k` takes an argument. */
  datatype Mode = Never | Required | Optional

  function ModeAt(opts: string, k: nat): Mode {
    if At(opts, k + 1) != ':' then Never else if At(opts, k + 2) == ':' then Optional else Required
  }

  predicate Prefixed(spec: Spec) {
    At(spec.optstring, 0) == '-' || At(spec.optstring, 0) == '+'
  }

  /** Long option `i` needs an argument, and none is there. */
  predicate LacksValue(spec: Spec, i: nat, text: string, rest: seq<string>)
    requires spec.longopts.Some? && i < |spec.longopts.value|
  {
    IndexOf(text, '=') == |text| && spec.longopts.value[i].hasArg == 1 && rest == []
  }

  /** `-W text`, where the option named lacks its argument. */
  predicate NameLacks(text: string, rest: seq<string>, spec: Spec)
    requires spec.longopts.Some?
  {
    var found := Resolve(spec.longopts.value, text[..IndexOf(text, '=')], true);
    found.Found? && LacksValue(spec, found.index, text, rest)
  }

  /** The option that `cluster` starts with lacks its argument. */
  predicate Lacks(cluster: string, rest: seq<string>, spec: Spec)
    requires cluster != "" && Usable(spec)
  {
    var c, left, k := cluster[0], cluster[1..], IndexOf(spec.optstring, cluster[0]);
    if k == |spec.optstring| || c == ':' then false
    else if IsNamed(spec.optstring, c) then
      if left != "" then NameLacks(left, rest, spec)
      else rest == [] || NameLacks(rest[0], rest[1..], spec)
    else ModeAt(spec.optstring, k) == Required && left == "" && rest == []
  }

  /** The cases in which a later call does with a cluster what the first would have done. */
  predicate Harmless(cluster: string, rest: seq<string>, spec: Spec)
    requires cluster != "" && Usable(spec)
  {
    Prefixed(spec) ==>
      var opts, letters, alone := spec.optstring, spec.optstring[1..], |cluster| == 1;
      var first, own := ModeAt(opts, 0), ModeAt(letters, IndexOf(letters, cluster[0]));
      if cluster[0] != opts[0] then
        At(letters, 0) == ':' ==> !Lacks(cluster, rest, spec)
      else if cluster[0] !in letters then
        alone && rest == [] && first == Required
      else if !alone then
        first == Never <==> own == Never
      else
        (first == Required <==> own == Required) && (first == Required ==> rest != [])
  }

  lemma IndexStripped(opts: string, c: char)
    requires opts != ""
    ensures IndexOf(opts, c) == if opts[0] == c then 0 else 1 + IndexOf(opts[1..], c)
    ensures forall k: nat :: At(opts, k + 1) == At(opts[1..], k)
  {
  }

  lemma NamedStripped(opts: string, c: char)
    requires opts != "" && opts[0] != 'W'
    ensures IsNamed(opts[1..], c) <==> IsNamed(opts, c)
  {
    if c == 'W' {
      IndexStripped(opts, c);
      assert c in opts <==> c in opts[1..];
    }
  }

  lemma TakeStripped(spec: Spec, bare: Spec, i: nat, text: string, rest: seq<string>, optarg: Option<string>,
                     optopt: Option<int>)
    requires spec.longopts.Some? && i < |spec.longopts.value|
    ensures var o, e := spec.longopts.value[i], IndexOf(text, '=');
      Take(bare, i, o, text, e, rest, optarg, optopt) == Take(spec, i, o, text, e, rest, optarg, optopt) <==>
        (LacksValue(spec, i, text, rest) ==> Missing(bare) == Missing(spec))
  {
  }

  lemma NameStripped(text: string, rest: seq<string>, spec: Spec, bare: Spec)
    requires spec.longopts.Some? && bare.longopts == spec.longopts
    ensures NamedOutcome(text, rest, bare) == NamedOutcome(text, rest, spec) <==>
            (NameLacks(text, rest, spec) ==> Missing(bare) == Missing(spec))
  {
    hide Resolve, Take;
    var found := Resolve(spec.longopts.value, text[..IndexOf(text, '=')], true);
    if found.Found? {
      TakeStripped(spec, bare, found.index, text, rest, Some(text), None);
    }
  }

  lemma NextNameStripped(left: string, rest: seq<string>, spec: Spec, bare: Spec)
    requires spec.longopts.Some? && bare.longopts == spec.longopts
    ensures NextNamedOutcome(left, rest, bare) == NextNamedOutcome(left, rest, spec) <==>
            ((if left != "" then NameLacks(left, rest, spec) else rest == [] || NameLacks(rest[0], rest[1..], spec))
              ==> Missing(bare) == Missing(spec))
  {
    hide NamedOutcome, NameLacks;
    if left != "" {
      NameStripped(left, rest, spec, bare);
    } else if rest != [] {
      NameStripped(rest[0], rest[1..], spec, bare);
    }
  }

  /** A letter other than the prefix differs exactly when its argument is missing, and the `:` that asks
      for a special report stands behind the prefix. */
  lemma OtherLetter(cluster: string, rest: seq<string>, spec: Spec, bare: Spec)
    requires cluster != "" && Usable(spec) && Usable(bare) && Prefixed(spec) && bare == Stripped(spec)
    requires cluster[0] != spec.optstring[0]
    ensures ShortOutcome(cluster, rest, bare) == ShortOutcome(cluster, rest, spec) <==>
            (Lacks(cluster, rest, spec) ==> Missing(bare) == Missing(spec))
  {
    hide NextNamedOutcome, NameLacks;
    IndexStripped(spec.optstring, cluster[0]);
    NamedStripped(spec.optstring, cluster[0]);
    if IsNamed(spec.optstring, cluster[0]) {
      NextNameStripped(cluster[1..], rest, spec, bare);
    }
  }

  lemma MissingStripped(spec: Spec)
    requires Prefixed(spec)
    ensures Missing(Stripped(spec)) == Missing(spec) <==> At(spec.optstring[1..], 0) != ':'
  {
  }

  /** The prefix itself, as a letter. */
  lemma PrefixLetter(cluster: string, rest: seq<string>, spec: Spec, bare: Spec)
    requires cluster != "" && Usable(spec) && Usable(bare) && Prefixed(spec) && bare == Stripped(spec)
    requires cluster[0] == spec.optstring[0]
    ensures ShortOutcome(cluster, rest, bare) == ShortOutcome(cluster, rest, spec) <==> Harmless(cluster, rest, spec)
  {
    var opts, letters, c := spec.optstring, spec.optstring[1..], cluster[0];
    IndexStripped(opts, c);
    var k := IndexOf(letters, c);
    assert c in letters ==> k < |letters| by {
      assert letters[..|letters|] == letters;
    }
  }

  /** Short options: a later call does the same as the first exactly in the harmless cases. */
  lemma PrefixExactly(cluster: string, rest: seq<string>, spec: Spec)
    requires cluster != "" && Usable(spec) && Usable(Stripped(spec))
    ensures ShortOutcome(cluster, rest, Stripped(spec)) == ShortOutcome(cluster, rest, spec) <==>
            Harmless(cluster, rest, spec)
  {
    hide ShortOutcome, Lacks;
    if Prefixed(spec) {
      if cluster[0] == spec.optstring[0] {
        PrefixLetter(cluster, rest, spec, Stripped(spec));
      } else {
        OtherLetter(cluster, rest, spec, Stripped(spec));
        MissingStripped(spec);
      }
    }
  }

  /** Long options: they differ exactly when a required argument is missing, and a `:` stands behind the
      prefix. */
  lemma LongPrefixExactly(text: string, rest: seq<string>, spec: Spec)
    requires spec.longopts.Some?
    ensures LongOutcome(text, rest, Stripped(spec)) == LongOutcome(text, rest, spec) <==>
            var found := Resolve(spec.longopts.value, text[..IndexOf(text, '=')], false);
            !(Prefixed(spec) && At(spec.optstring[1..], 0) == ':'
              && found.Found? && LacksValue(spec, found.index, text, rest))
  {
    hide Resolve, Take;
    var found := Resolve(spec.longopts.value, text[..IndexOf(text, '=')], false);
    if Prefixed(spec) {
      MissingStripped(spec);
      if found.Found? {
        TakeStripped(spec, Stripped(spec), found.index, text, rest, None, Some(spec.longopts.value[found.index].val));
      }
    }
  }

  /** With `+:a:` a missing argument is `:` to the first call and `?` to the later ones, and `-+` is an
      option to these only. */
  lemma PrefixShows()
    ensures var spec := Spec("+:a:", None);
      && !Harmless("a", [], spec) && !Harmless("+", ["b"], spec) && Harmless("a", ["b"], spec)
  {
    var s := "+:a:";
    assert s[1..] == ":a:" && s[1..][1..] == "a:" && s[1..][1..][1..] == ":";
    assert IndexOf("a:", 'a') == 0 && IndexOf(":a:", 'a') == 1 && IndexOf(s, 'a') == 2;
  }
}
