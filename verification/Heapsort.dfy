/**
 The lowered heapsort of misc/bench.ideal.c: a program of labels and jumps over `ra[1..n]`.  Each
 label has an assertion on the array and the registers, and every block that reaches a label
 establishes it.
*/
module Heapsort {

  // ---------------------------------------------------------------------------------------
  // Assertions
  // ---------------------------------------------------------------------------------------

  /** Below `lo`, every item of [2 * lo, hi] is under its parent. */
  ghost predicate Heap(s: seq<real>, lo: nat, hi: nat)
    requires hi < |s|
  {
    forall c :: 2 * lo <= c <= hi ==> s[c / 2] >= s[c]
  }

  /** Behind `ir` the items are in order, and none is under an item up to `ir`. */
  ghost predicate Tail(s: seq<real>, ir: nat, n: nat)
    requires n < |s|
  {
    && (forall p, q :: ir < p < q <= n ==> s[p] <= s[q])
    && (forall p, q :: 1 <= p <= ir < q <= n ==> s[p] <= s[q])
  }

  ghost predicate Ordered(s: seq<real>, n: nat)
    requires n < |s|
  {
    forall p, q :: 1 <= p < q <= n ==> s[p] <= s[q]
  }

  /** The children of `i` are not above `x`. */
  ghost predicate Covers(s: seq<real>, i: nat, ir: nat, x: real)
    requires ir < |s|
  {
    && (2 * i <= ir ==> x >= s[2 * i])
    && (2 * i + 1 <= ir ==> x >= s[2 * i + 1])
  }

  /** A heap from `l` to `ir` but for a hole at `i`, which `rra` does not outgrow upwards. */
  ghost predicate Hole(s: seq<real>, n: nat, l: nat, ir: nat, i: nat, rra: real) {
    && 1 <= l <= i <= ir <= n < |s|
    && (forall c :: 2 * l <= c <= ir && c / 2 != i && c != i ==> s[c / 2] >= s[c])
    && (i >= 2 * l ==> s[i / 2] >= rra && Covers(s, i, ir, s[i / 2]))
    && Tail(s[i := rra], ir, n)
  }

  /** Between two siftings: building while `l > 1`, extracting when `l == 1`. */
  ghost predicate Between(s: seq<real>, n: nat, l: nat, ir: nat) {
    && 1 <= l <= n / 2 + 1 && 2 <= ir <= n < |s|
    && (l > 1 ==> ir == n)
    && Heap(s, l, ir) && Tail(s, ir, n)
  }

  lemma {:induction false} HeapTop(s: seq<real>, hi: nat, k: nat)
    requires 1 <= k <= hi < |s| && Heap(s, 1, hi)
    ensures s[1] >= s[k]
    decreases k
  {
    if k > 1 {
      HeapTop(s, hi, k / 2);
    }
  }

  lemma Exchanged(s: seq<real>, i: nat, j: nat)
    requires i < |s| && j < |s|
    ensures multiset(s[i := s[j]][j := s[i]]) == multiset(s)
  {
  }

  /** Filling a hole whose children are covered gives a heap. */
  lemma FillHole(s: seq<real>, n: nat, l: nat, ir: nat, i: nat, rra: real)
    requires Hole(s, n, l, ir, i, rra) && Covers(s, i, ir, rra)
    ensures Heap(s[i := rra], l, ir) && Tail(s[i := rra], ir, n)
  {
    hide Tail;
    var t := s[i := rra];
    forall c | 2 * l <= c <= ir ensures t[c / 2] >= t[c] {
      if c / 2 == i {
        assert c == 2 * i || c == 2 * i + 1;
      }
    }
  }

  /** Pulling the larger child up moves the hole down. */
  lemma LowerHole(s: seq<real>, n: nat, l: nat, ir: nat, i: nat, j: nat, rra: real)
    requires Hole(s, n, l, ir, i, rra) && (j == 2 * i || j == 2 * i + 1) && j <= ir
    requires Covers(s, i, ir, s[j]) && rra < s[j]
    ensures Hole(s[i := s[j]], n, l, ir, j, rra)
  {
    hide Tail;
    var t := s[i := s[j]];
    LowerTail(s, n, ir, i, j, rra);
    LowerHeap(s, l, ir, i, j);
    assert 2 * j <= ir ==> (2 * j) / 2 == j && s[j] >= s[2 * j];
    assert 2 * j + 1 <= ir ==> (2 * j + 1) / 2 == j && s[j] >= s[2 * j + 1];
  }

  lemma LowerHeap(s: seq<real>, l: nat, ir: nat, i: nat, j: nat)
    requires 1 <= l <= i < j <= ir < |s| && (j == 2 * i || j == 2 * i + 1)
    requires forall c :: 2 * l <= c <= ir && c / 2 != i && c != i ==> s[c / 2] >= s[c]
    requires Covers(s, i, ir, s[j]) && (i >= 2 * l ==> Covers(s, i, ir, s[i / 2]))
    ensures var t := s[i := s[j]]; forall c :: 2 * l <= c <= ir && c / 2 != j && c != j ==> t[c / 2] >= t[c]
  {
    var t := s[i := s[j]];
    forall c | 2 * l <= c <= ir && c / 2 != j && c != j ensures t[c / 2] >= t[c] {
      if c / 2 == i {
        assert c == 2 * i || c == 2 * i + 1;
      }
    }
  }

  lemma LowerItems(s: seq<real>, i: nat, j: nat, x: real)
    requires i < |s| && j < |s| && i != j
    ensures multiset(s[i := s[j]][j := x]) == multiset(s[i := x])
  {
    Exchanged(s[i := x], i, j);
    assert s[i := s[j]][j := x] == s[i := x][i := s[j]][j := x];
  }

  lemma LowerTail(s: seq<real>, n: nat, ir: nat, i: nat, j: nat, rra: real)
    requires 1 <= i < j <= ir <= n < |s| && Tail(s[i := rra], ir, n)
    ensures Tail(s[i := s[j]][j := rra], ir, n)
  {
    var v, t := s[i := rra], s[i := s[j]][j := rra];
    forall p, q | 1 <= p <= ir < q <= n ensures t[p] <= t[q] {
      assert v[j] <= v[q] && v[i] <= v[q] && v[p] <= v[q];
    }
    assert forall q :: ir < q <= n ==> t[q] == v[q];
  }

  /** The first of the heap goes to its end, and what was there is to be sifted in from the top. */
  lemma TakeTop(s: seq<real>, n: nat, ir: nat)
    requires Between(s, n, 1, ir)
    ensures var t := s[ir := s[1]];
      && Tail(t[1 := s[ir]], ir - 1, n)
      && multiset(t[1 := s[ir]]) == multiset(s)
      && (ir > 2 ==> Hole(t, n, 1, ir - 1, 1, s[ir]))
  {
    Exchanged(s, ir, 1);
    forall k | 1 <= k <= ir ensures s[1] >= s[k] {
      HeapTop(s, ir, k);
    }
  }

  lemma StartHeap(s: seq<real>, n: nat)
    requires 2 <= n < |s|
    ensures Between(s, n, n / 2 + 1, n)
  {
  }

  /** The next item to be sifted while building. */
  lemma OpenHole(s: seq<real>, n: nat, l: nat)
    requires l > 1 && Between(s, n, l, n)
    ensures Hole(s, n, l - 1, n, l - 1, s[l - 1]) && s[l - 1 := s[l - 1]] == s
  {
    assert s[l - 1 := s[l - 1]] == s;
    forall c | 2 * (l - 1) <= c <= n && c / 2 != l - 1 && c != l - 1 ensures s[c / 2] >= s[c] {
      assert c / 2 >= l;
    }
  }

  lemma OneLeft(s: seq<real>, n: nat, x: real)
    requires 1 <= n < |s| && Tail(s[1 := x], 1, n)
    ensures Ordered(s[1 := x], n)
  {
  }

  // ---------------------------------------------------------------------------------------
  // The program
  // ---------------------------------------------------------------------------------------

  datatype Label = L1149 | L1151 | L1154 | L1161 | L1164 | L1166 | L1168 | L1170 | L1174 | L1175 | L1177 | L1178
                 | L1181 | L1186 | L1187 | Returned

  datatype Locals = Locals(l: int, ir: int, i: int, j: int, rra: real, TLE38: bool, TEF39: bool)

  /** The label to go on from, the array, and the local variables. */
  datatype State = State(pc: Label, ra: seq<real>, v: Locals)

  /** Between opening a hole and filling it. */
  ghost predicate Sifting(s: seq<real>, n: nat, l: int, ir: int, i: int, rra: real) {
    && 1 <= l <= i <= ir <= n < |s| && l <= n / 2 + 1 && 2 <= ir && (l > 1 ==> ir == n)
    && Hole(s, n, l, ir, i, rra)
  }

  /** `j` is the larger child of `i`. */
  ghost predicate Larger(s: seq<real>, ir: int, i: int, j: int) {
    && 1 <= i && 1 <= j <= ir < |s| && (j == 2 * i || j == 2 * i + 1)
    && Covers(s, i, ir, s[j])
  }

  /** What holds at each label. */
  ghost predicate Holds(x: State, n: nat) {
    var s, v := x.ra, x.v;
    match x.pc
    case L1149 => 1 <= v.l <= n && 2 <= v.ir <= n < |s| && (v.l > 1 ==> v.ir == n) && Between(s, n, v.l, v.ir)
    case L1151 => 1 < v.l <= n == v.ir < |s| && Between(s, n, v.l, v.ir)
    case L1154 => 1 == v.l && 2 <= v.ir <= n < |s| && Between(s, n, v.l, v.ir)
    case L1161 => v.l == 1 && v.ir == 1 <= n < |s| && Tail(s[1 := v.rra], 1, n)
    case L1164 => Sifting(s, n, v.l, v.ir, v.l, v.rra)
    case L1166 =>
      Sifting(s, n, v.l, v.ir, v.i, v.rra) && (v.j == 2 * v.i || (v.j == v.ir + 1 && Covers(s, v.i, v.ir, v.rra)))
    case L1168 => Sifting(s, n, v.l, v.ir, v.i, v.rra) && v.j == 2 * v.i <= v.ir
    case L1170 => Sifting(s, n, v.l, v.ir, v.i, v.rra) && v.j == 2 * v.i < v.ir
    case L1174 => Sifting(s, n, v.l, v.ir, v.i, v.rra) && v.j == 2 * v.i == v.ir && !v.TLE38
    case L1175 =>
      Sifting(s, n, v.l, v.ir, v.i, v.rra) && v.j == 2 * v.i <= v.ir && (v.TEF39 <==> v.j < v.ir && s[v.j] < s[v.j + 1])
    case L1177 => Sifting(s, n, v.l, v.ir, v.i, v.rra) && v.j == 2 * v.i < v.ir && s[v.j] < s[v.j + 1]
    case L1178 => Sifting(s, n, v.l, v.ir, v.i, v.rra) && Larger(s, v.ir, v.i, v.j)
    case L1181 => Sifting(s, n, v.l, v.ir, v.i, v.rra) && Larger(s, v.ir, v.i, v.j) && v.rra < s[v.j]
    case L1186 => Sifting(s, n, v.l, v.ir, v.i, v.rra) && Larger(s, v.ir, v.i, v.j) && v.rra >= s[v.j]
    case L1187 => Sifting(s, n, v.l, v.ir, v.i, v.rra) && Covers(s, v.i, v.ir, v.rra)
    case Returned => n < |s| && Ordered(s, n)
  }

  /** The array with the item in hand in the place it will go to. */
  ghost function Filled(x: State, n: nat): seq<real>
    requires Holds(x, n)
  {
    match x.pc
    case L1149 => x.ra
    case L1151 => x.ra
    case L1154 => x.ra
    case Returned => x.ra
    case L1161 => x.ra[1 := x.v.rra]
    case L1164 => x.ra[x.v.l := x.v.rra]
    case _ => x.ra[x.v.i := x.v.rra]
  }

  ghost function Items(x: State, n: nat): multiset<real>
    requires Holds(x, n)
  {
    multiset(Filled(x, n))
  }

  /** The blocks. */
  ghost function Step(x: State, n: nat): State
    requires Holds(x, n)
  {
    var s, v := x.ra, x.v;
    match x.pc
    case L1149 => State(if v.l > 1 then L1151 else L1154, s, v)
    case L1151 => State(L1164, s, v.(l := v.l - 1, rra := s[v.l - 1]))
    case L1154 => State(if v.ir - 1 == 1 then L1161 else L1164, s[v.ir := s[1]], v.(ir := v.ir - 1, rra := s[v.ir]))
    case L1161 => State(Returned, s[1 := v.rra], v)
    case L1164 => State(L1166, s, v.(i := v.l, j := 2 * v.l))
    case L1166 => State(if v.j <= v.ir then L1168 else L1187, s, v)
    case L1168 => State(if v.j < v.ir then L1170 else L1174, s, v.(TLE38 := v.j < v.ir))
    case L1170 => State(L1175, s, v.(TEF39 := s[v.j] < s[v.j + 1]))
    case L1174 => State(L1175, s, v.(TEF39 := v.TLE38))
    case L1175 => State(if v.TEF39 then L1177 else L1178, s, v)
    case L1177 => State(L1178, s, v.(j := v.j + 1))
    case L1178 => State(if v.rra < s[v.j] then L1181 else L1186, s, v)
    case L1181 => State(L1166, s[v.i := s[v.j]], v.(i := v.j, j := v.j + v.j))
    case L1186 => State(L1166, s, v.(j := v.ir + 1))
    case L1187 => State(L1149, s[v.i := v.rra], v)
    case Returned => x
  }

  /** Siftings to come, then turns of the inner loop to come, then blocks. */
  ghost function Stage(pc: Label): nat {
    match pc
    case L1164 => 5
    case L1187 => 3
    case L1149 => 2
    case L1151 => 1
    case L1154 => 1
    case L1161 => 1
    case Returned => 0
    case _ => 4
  }

  ghost function Turns(x: State): nat {
    if Stage(x.pc) != 4 || x.v.j > x.v.ir || x.v.i > x.v.ir then 0 else x.v.ir - x.v.i + 1
  }

  ghost function Rank(pc: Label): nat {
    match pc
    case L1166 => 9
    case L1168 => 8
    case L1170 => 7
    case L1174 => 7
    case L1175 => 6
    case L1177 => 5
    case L1178 => 4
    case _ => 3
  }

  ghost predicate Nearer(x': State, x: State) {
    || x'.v.l + x'.v.ir < x.v.l + x.v.ir
    || (x'.v.l + x'.v.ir == x.v.l + x.v.ir
        && (Stage(x'.pc) < Stage(x.pc)
            || (Stage(x'.pc) == Stage(x.pc)
                && (Turns(x') < Turns(x) || (Turns(x') == Turns(x) && Rank(x'.pc) < Rank(x.pc))))))
  }

  /** Every block establishes what holds at the label it goes to. */
  lemma StepHolds(x: State, n: nat)
    requires Holds(x, n)
    ensures Holds(Step(x, n), n)
  {
    hide Hole, Between, Tail, Covers, Ordered, Sifting, Larger;
    var s, v := x.ra, x.v;
    match x.pc
    case L1151 => Open(s, n, v.l);
    case L1154 => Extract(s, n, v.ir);
    case L1161 => OneLeft(s, n, v.rra);
    case L1166 => NoChildren(s, n, v.l, v.ir, v.i, v.rra);
    case L1175 => LargerChild(s, n, v.l, v.ir, v.i, v.rra);
    case L1177 => LargerChild(s, n, v.l, v.ir, v.i, v.rra);
    case L1181 => Lower(s, n, v.l, v.ir, v.i, v.j, v.rra);
    case L1186 => CoversAbove(s, v.ir, v.i, v.j, v.rra);
    case L1187 => Fill(s, n, v.l, v.ir, v.i, v.rra);
    case _ =>
  }

  /** The block at 1151. */
  lemma Open(s: seq<real>, n: nat, l: int)
    requires 1 < l <= n < |s| && Between(s, n, l, n)
    ensures Sifting(s, n, l - 1, n, l - 1, s[l - 1])
  {
    hide Hole;
    OpenHole(s, n, l);
  }

  /** The block at 1154. */
  lemma Extract(s: seq<real>, n: nat, ir: int)
    requires 2 <= ir <= n < |s| && Between(s, n, 1, ir)
    ensures if ir == 2 then Tail(s[ir := s[1]][1 := s[ir]], 1, n) else Sifting(s[ir := s[1]], n, 1, ir - 1, 1, s[ir])
  {
    hide Hole, Tail, Between;
    TakeTop(s, n, ir);
  }

  lemma NoChildren(s: seq<real>, n: nat, l: int, ir: int, i: int, x: real)
    requires Sifting(s, n, l, ir, i, x)
    ensures 2 * i > ir ==> Covers(s, i, ir, x)
  {
  }

  lemma LargerChild(s: seq<real>, n: nat, l: int, ir: int, i: int, x: real)
    requires Sifting(s, n, l, ir, i, x) && 2 * i <= ir
    ensures var j := 2 * i; if j < ir && s[j] < s[j + 1] then Larger(s, ir, i, j + 1) else Larger(s, ir, i, j)
  {
    hide Hole;
  }

  /** The block at 1181. */
  lemma Lower(s: seq<real>, n: nat, l: int, ir: int, i: int, j: int, x: real)
    requires Sifting(s, n, l, ir, i, x) && Larger(s, ir, i, j) && x < s[j]
    ensures Sifting(s[i := s[j]], n, l, ir, j, x)
  {
    hide Hole, Covers;
    LowerHole(s, n, l, ir, i, j, x);
  }

  lemma CoversAbove(s: seq<real>, ir: int, i: int, j: int, x: real)
    requires Larger(s, ir, i, j) && x >= s[j]
    ensures Covers(s, i, ir, x)
  {
  }

  /** The block at 1187. */
  lemma Fill(s: seq<real>, n: nat, l: int, ir: int, i: int, x: real)
    requires Sifting(s, n, l, ir, i, x) && Covers(s, i, ir, x)
    ensures Between(s[i := x], n, l, ir) && 1 <= l <= n && 2 <= ir <= n < |s| && (l > 1 ==> ir == n) && 1 <= i < |s|
  {
    hide Hole, Covers, Tail, Heap;
    FillHole(s, n, l, ir, i, x);
  }

  /** Every block keeps the array outside 1..n. */
  lemma StepFrames(x: State, n: nat)
    requires Holds(x, n)
    ensures var x' := Step(x, n); |x'.ra| == |x.ra| && x'.ra[0] == x.ra[0] && x'.ra[n + 1..] == x.ra[n + 1..]
  {
    hide Hole, Between, Tail, Covers, Ordered;
  }

  /** Every block keeps the items. */
  lemma StepKeeps(x: State, n: nat)
    requires Holds(x, n)
    ensures Holds(Step(x, n), n) && Items(Step(x, n), n) == Items(x, n)
  {
    hide Holds, Filled, Step;
    StepHolds(x, n);
    match x.pc
    case L1151 => OpenKeeps(x, n);
    case L1154 => ExtractKeeps(x, n);
    case L1181 => LowerKeeps(x, n);
    case _ => OtherKeeps(x, n);
  }

  lemma OpenKeeps(x: State, n: nat)
    requires Holds(x, n) && Holds(Step(x, n), n) && x.pc == L1151
    ensures Items(Step(x, n), n) == Items(x, n)
  {
    hide Between, Sifting;
    assert x.ra[x.v.l - 1 := x.ra[x.v.l - 1]] == x.ra;
  }

  lemma ExtractKeeps(x: State, n: nat)
    requires Holds(x, n) && Holds(Step(x, n), n) && x.pc == L1154
    ensures Items(Step(x, n), n) == Items(x, n)
  {
    hide Between, Sifting, Tail;
    Exchanged(x.ra, x.v.ir, 1);
  }

  lemma LowerKeeps(x: State, n: nat)
    requires Holds(x, n) && Holds(Step(x, n), n) && x.pc == L1181
    ensures Items(Step(x, n), n) == Items(x, n)
  {
    hide Sifting;
    LowerItems(x.ra, x.v.i, x.v.j, x.v.rra);
  }

  lemma OtherKeeps(x: State, n: nat)
    requires Holds(x, n) && Holds(Step(x, n), n) && x.pc !in {L1151, L1154, L1181}
    ensures Filled(Step(x, n), n) == Filled(x, n)
  {
    hide Sifting, Larger, Between, Tail, Covers, Ordered;
    if x.pc in {L1149, L1161, L1164, L1187, Returned} {
      OuterKeeps(x, n);
    } else {
      InnerKeeps(x, n);
    }
  }

  lemma OuterKeeps(x: State, n: nat)
    requires Holds(x, n) && Holds(Step(x, n), n) && x.pc in {L1149, L1161, L1164, L1187, Returned}
    ensures Filled(Step(x, n), n) == Filled(x, n)
  {
    hide Sifting, Larger, Between, Tail, Covers, Ordered;
  }

  lemma InnerKeeps(x: State, n: nat)
    requires Holds(x, n) && Holds(Step(x, n), n) && x.pc !in {L1149, L1161, L1164, L1187, Returned, L1151, L1154, L1181}
    ensures Filled(Step(x, n), n) == Filled(x, n)
  {
    hide Sifting, Larger, Between, Tail, Covers, Ordered;
  }

  /** Every block comes nearer to the end. */
  lemma StepNearer(x: State, n: nat)
    requires Holds(x, n) && x.pc != Returned
    ensures Nearer(Step(x, n), x) && Step(x, n).v.l + Step(x, n).v.ir >= 0
  {
    hide Hole, Between, Tail, Covers, Ordered;
  }

  /** heapsort_r (bench.ideal.c:9087-9150, body 9280-10427). */
  method Sort(n: nat, ra: array<real>)
    requires 2 <= n < ra.Length
    modifies ra
    ensures forall p, q :: 1 <= p < q <= n ==> ra[p] <= ra[q]
    ensures multiset(ra[..]) == multiset(old(ra[..]))
    ensures ra[0] == old(ra[0]) && ra[n + 1..] == old(ra[n + 1..])
  {
    hide Holds, Items, Step, Stage, Turns, Rank;
    var v := Locals(n / 2 + 1, n, 0, 0, 0.0, false, false);
    var pc := L1149;
    Begin(ra[..], n, v);
    while pc != Returned
      invariant Holds(State(pc, ra[..], v), n) && v.l + v.ir >= 0
      invariant Items(State(pc, ra[..], v), n) == multiset(old(ra[..]))
      invariant ra[0] == old(ra[0]) && ra[n + 1..] == old(ra[n + 1..])
      decreases v.l + v.ir, Stage(pc), Turns(State(pc, ra[..], v)), Rank(pc)
    {
      StepKeeps(State(pc, ra[..], v), n);
      StepFrames(State(pc, ra[..], v), n);
      StepNearer(State(pc, ra[..], v), n);
      pc, v := Block(pc, n, ra, v);
    }
    End(State(pc, ra[..], v), n);
  }

  lemma Begin(s: seq<real>, n: nat, v: Locals)
    requires 2 <= n < |s| && v.l == n / 2 + 1 && v.ir == n
    ensures var x := State(L1149, s, v); Holds(x, n) && Items(x, n) == multiset(s)
  {
    hide Between;
    StartHeap(s, n);
  }

  lemma End(x: State, n: nat)
    requires Holds(x, n) && x.pc == Returned
    ensures n < |x.ra| && Ordered(x.ra, n) && Items(x, n) == multiset(x.ra)
  {
    hide Ordered;
  }

  /** One block. */
  method Block(pc0: Label, n: nat, ra: array<real>, v0: Locals) returns (pc: Label, v: Locals)
    requires Holds(State(pc0, ra[..], v0), n) && pc0 != Returned
    modifies ra
    ensures old(Holds(State(pc0, ra[..], v0), n)) && State(pc, ra[..], v) == old(Step(State(pc0, ra[..], v0), n))
  {
    hide Hole, Between, Tail, Covers, Ordered;
    pc, v := pc0, v0;
    match pc
    case L1149 =>
      pc := if v.l > 1 then L1151 else L1154;
    case L1151 =>
      v := v.(l := v.l - 1);
      v := v.(rra := ra[v.l]);
      pc := L1164;
    case L1164 =>
      v := v.(i := v.l, j := 2 * v.l);
      pc := L1166;
    case L1166 =>
      pc := if v.j <= v.ir then L1168 else L1187;
    case L1168 =>
      v := v.(TLE38 := v.j < v.ir);
      pc := if v.TLE38 then L1170 else L1174;
    case L1170 =>
      v := v.(TEF39 := ra[v.j] < ra[v.j + 1]);
      pc := L1175;
    case L1174 =>
      v := v.(TEF39 := v.TLE38);
      pc := L1175;
    case L1175 =>
      pc := if v.TEF39 then L1177 else L1178;
    case L1177 =>
      v := v.(j := v.j + 1);
      pc := L1178;
    case L1178 =>
      pc := if v.rra < ra[v.j] then L1181 else L1186;
    case L1181 =>
      ra[v.i] := ra[v.j];
      v := v.(i := v.j);
      v := v.(j := v.j + v.i);
      pc := L1166;
    case L1186 =>
      v := v.(j := v.ir + 1);
      pc := L1166;
    case L1187 =>
      ra[v.i] := v.rra;
      pc := L1149;
    case L1154 =>
      v := v.(rra := ra[v.ir]);
      ra[v.ir] := ra[1];
      v := v.(ir := v.ir - 1);
      pc := if v.ir == 1 then L1161 else L1164;
    case L1161 =>
      ra[1] := v.rra;
      pc := Returned;
  }
}
