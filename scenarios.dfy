/** Concrete behaviours of the converter and the recogniser together: the
    automaton built for a tree, and the set of current states the
    recognition loop ends with on a given input. */
module Scenarios {
  import opened Afn
  import opened Conversor
  import R = Reconhecedor

  /** The epsilon-closure of a set that no epsilon edge leaves is the set itself. */
  lemma ClosureOfClosed(g: Graph, s: set<nat>)
    requires forall q :: q in s ==> q < |g|
    requires ClosedUnder(g, EpsilonEdge, s)
    ensures R.Closure(g, s) == s
  {
    forall q: nat | q in R.Closure(g, s)
      ensures q in s
    {
      var p :| p in s && Reaches(g, EpsilonEdge, p, q);
      ClosedContainsReach(g, EpsilonEdge, s, p, q);
    }
    forall q | q in s
      ensures q in R.Closure(g, s)
    {
      ReachesRefl(g, EpsilonEdge, q);
    }
  }

  /** A one-symbol automaton: the start state is not final and its
      epsilon-closure is itself. */
  lemma LiteralStart(c: char)
    ensures var (g, f) := Build([], Literal(c));
      && f == Fragment(0, 1) && |g| == 2
      && R.Closure(g, {0}) == {0} && !g[0].isFinal && g[1].isFinal
      && forall d :: d != c ==> Targets(g[0].trans, Char(d)) == []
  {
    var g := Build([], Literal(c)).0;
    SymbolAfter([], Char(c), 0, Epsilon);
    SymbolAfter([], Char(c), 1, Epsilon);
    assert Targets(g[0].trans, Epsilon) == [];
    ClosureOfClosed(g, {0});
    forall d | d != c
      ensures Targets(g[0].trans, Char(d)) == []
    {
      SymbolAfter([], Char(c), 0, Char(d));
    }
  }

  /** `a` accepts `a`: the step on `a` enters the final state, which is
      then among the current states, so the verdict is `Accepted`. */
  lemma LiteralAccepts(c: char)
    ensures var (g, f) := Build([], Literal(c));
      f.final in R.LastSet(g, f.start, [c]) && g[f.final].isFinal
  {
    LiteralStart(c);
    var g := Build([], Literal(c)).0;
    SymbolAfter([], Char(c), 0, Char(c));
    assert g == Run([], SymbolOps(0, Char(c)));
    assert ListOf(g, 0, Char(c)) == ListOf([], 0, Char(c)) + [1] == [1];
    assert 0 in {0} && 0 < |g| && 1 in Targets(g[0].trans, Char(c));
    assert 1 in R.Move(g, {0}, c);
    ReachesRefl(g, EpsilonEdge, 1);
    assert R.EpsilonFrom(g, R.Move(g, {0}, c), 1);
    var t := R.Trace(g, 0, [c]);
    assert t[0] == {0};
    assert |t| == 2;
  }

  /** `a` rejects the empty input: the only current state is the
      non-final start state, so the verdict is `NoFinalState`. */
  lemma LiteralRejectsEmpty(c: char)
    ensures var (g, f) := Build([], Literal(c));
      && R.LastSet(g, f.start, "") == {f.start}
      && !g[f.start].isFinal
  {
    LiteralStart(c);
  }

  /** `a` rejects `b`: no state is entered on `b`, so the set of current
      states becomes empty and the verdict is `NoReachableState`. */
  lemma LiteralRejectsOther(c: char, d: char)
    requires c != d
    ensures var (g, f) := Build([], Literal(c)); R.LastSet(g, f.start, [d]) == {}
  {
    LiteralStart(c);
    var g := Build([], Literal(c)).0;
    var t := R.Trace(g, 0, [d]);
    assert t[0] == {0};
    assert |t| == 2;
    assert R.Move(g, {0}, d) == {};
    assert R.Closure(g, {}) == {};
  }

  /** In the automaton for `re*` the start state reaches the final state
      over one epsilon edge, and the final state is flagged. */
  lemma StarSkips(re: Regex)
    ensures var (g, f) := Build([], Star(re));
      Reaches(g, EpsilonEdge, f.start, f.final) && g[f.final].isFinal
  {
    var x := Build([], re);
    var n := |x.0|;
    var g := Run(x.0, StarOps(n, x.1));
    assert Build([], Star(re)) == (g, Fragment(n, n + 1));
    StarAfter(x.0, x.1, n, Epsilon);
    StarAfter(x.0, x.1, n + 1, Epsilon);
    assert n + 1 in ListOf(g, n, Epsilon);
    ListedStep(g, n, Epsilon, n + 1);
    ReachesRefl(g, EpsilonEdge, n);
    ReachesStep(g, EpsilonEdge, n, n, n + 1);
  }

  /** `re*` accepts the empty input, whatever `re` is: the final state is
      in the closure of the start state, so the verdict is `Accepted`. */
  lemma StarAcceptsEmpty(re: Regex)
    ensures var (g, f) := Build([], Star(re));
      f.final in R.LastSet(g, f.start, "") && g[f.final].isFinal
  {
    StarSkips(re);
    var (g, f) := Build([], Star(re));
    assert R.EpsilonFrom(g, {f.start}, f.final);
  }

  /** A set that holds `s`, is closed under epsilon edges and holds only
      states epsilon-reachable from `s` is the epsilon-closure of `s`. */
  lemma ClosureIs(g: Graph, s: set<nat>, c: set<nat>)
    requires forall q :: q in c ==> q < |g| && R.EpsilonFrom(g, s, q)
    requires s <= c && ClosedUnder(g, EpsilonEdge, c)
    ensures R.Closure(g, s) == c
  {
    R.ClosureLeast(g, s, c);
  }

  /** An epsilon edge listed at `a` extends reachability from `p` to `b`. */
  lemma EpsilonOnward(g: Graph, p: nat, a: nat, b: nat)
    requires Reaches(g, EpsilonEdge, p, a) && b in ListOf(g, a, Epsilon)
    ensures Reaches(g, EpsilonEdge, p, b)
  {
    ListedStep(g, a, Epsilon, b);
    ReachesStep(g, EpsilonEdge, p, a, b);
  }

  /** The edges of two literals in sequence on states `n` to `n + 3`:
      `c`, epsilon, `d` in a row. */
  function PairLinks(n: nat, c: char, d: char, q: nat, s: Symbol): seq<nat> {
    (if q == n && s == Char(c) then [n + 1] else []) +
    (if q == n + 1 && s == Epsilon then [n + 2] else []) +
    (if q == n + 2 && s == Char(d) then [n + 3] else [])
  }

  /** The epsilon-closure of `{p}` when `p` has one epsilon edge, to `r`,
      and `r` has none. */
  lemma ClosureChain(g: Graph, p: nat, r: nat)
    requires p < |g| && r < |g|
    requires Targets(g[p].trans, Epsilon) == [r] && Targets(g[r].trans, Epsilon) == []
    ensures R.Closure(g, {p}) == {p, r}
  {
    ReachesRefl(g, EpsilonEdge, p);
    EpsilonOnward(g, p, p, r);
    assert p in {p};
    assert R.EpsilonFrom(g, {p}, p) && R.EpsilonFrom(g, {p}, r);
    forall x, y | x in {p, r} && Step(g, EpsilonEdge, x, y)
      ensures y in {p, r}
    {
      assert y in Targets(g[x].trans, Epsilon);
    }
    assert ClosedUnder(g, EpsilonEdge, {p, r});
    assert forall q :: q in {p, r} ==> q < |g| && R.EpsilonFrom(g, {p}, q);
    ClosureIs(g, {p}, {p, r});
  }

  /** The epsilon-closure of `{p}` when `p` has epsilon edges to `r1` and
      `r2`, and these have none. */
  lemma ClosureFork(g: Graph, p: nat, r1: nat, r2: nat)
    requires p < |g| && r1 < |g| && r2 < |g|
    requires Targets(g[p].trans, Epsilon) == [r1, r2]
    requires Targets(g[r1].trans, Epsilon) == [] && Targets(g[r2].trans, Epsilon) == []
    ensures R.Closure(g, {p}) == {p, r1, r2}
  {
    ReachesRefl(g, EpsilonEdge, p);
    EpsilonOnward(g, p, p, r1);
    EpsilonOnward(g, p, p, r2);
    assert p in {p};
    assert R.EpsilonFrom(g, {p}, p) && R.EpsilonFrom(g, {p}, r1) && R.EpsilonFrom(g, {p}, r2);
    forall x, y | x in {p, r1, r2} && Step(g, EpsilonEdge, x, y)
      ensures y in {p, r1, r2}
    {
      assert y in Targets(g[x].trans, Epsilon);
    }
    assert ClosedUnder(g, EpsilonEdge, {p, r1, r2});
    assert forall q :: q in {p, r1, r2} ==> q < |g| && R.EpsilonFrom(g, {p}, q);
    ClosureIs(g, {p}, {p, r1, r2});
  }

  /** The step on `ch` from `cur` enters exactly `d0` when `p0` is the only
      member of `cur` with an edge on `ch`, and that edge goes to `d0` alone. */
  lemma MoveOne(g: Graph, cur: set<nat>, ch: char, p0: nat, d0: nat)
    requires p0 in cur && p0 < |g| && Targets(g[p0].trans, Char(ch)) == [d0]
    requires forall p :: p in cur && p != p0 ==> p < |g| && Targets(g[p].trans, Char(ch)) == []
    ensures R.Move(g, cur, ch) == {d0}
  {
    assert d0 in Targets(g[p0].trans, Char(ch));
    forall x | x in R.Move(g, cur, ch)
      ensures x == d0
    {
      var p, y :| p in cur && p < |g| && y in Targets(g[p].trans, Char(ch)) && x == y;
    }
  }

  /** The step on `ch` from `cur` enters nothing when no member of `cur`
      has an edge on `ch`. */
  lemma MoveNone(g: Graph, cur: set<nat>, ch: char)
    requires forall p :: p in cur ==> p < |g| && Targets(g[p].trans, Char(ch)) == []
    ensures R.Move(g, cur, ch) == {}
  {
  }

  /** The current states for a two-letter input, step by step: the
      recognition loop ends with the third set when the first two are not
      empty. */
  lemma TraceOfTwo(g: Graph, start: nat, x: char, y: char, s0: set<nat>, s1: set<nat>, s2: set<nat>)
    requires start < |g|
    requires R.Closure(g, {start}) == s0 && s0 != {}
    requires R.Closure(g, R.Move(g, s0, x)) == s1 && s1 != {}
    requires R.Closure(g, R.Move(g, s1, y)) == s2
    ensures R.LastSet(g, start, [x, y]) == s2
  {
    var t := R.Trace(g, start, [x, y]);
    assert t[0] == s0;
    assert |t| > 1 && t[1] == s1;
    assert |t| == 3;
  }

  /** The current states for a one-letter input: the closure of the start,
      then the closure of the step on the letter. */
  lemma TraceOfOne(g: Graph, start: nat, x: char, s0: set<nat>, s1: set<nat>)
    requires start < |g|
    requires R.Closure(g, {start}) == s0 && s0 != {}
    requires R.Closure(g, R.Move(g, s0, x)) == s1
    ensures R.LastSet(g, start, [x]) == s1
  {
    var t := R.Trace(g, start, [x]);
    assert t[0] == s0;
    assert |t| == 2;
  }

  /** The current states for a three-letter input, step by step. */
  lemma TraceOfThree(g: Graph, start: nat, x: char, y: char, z: char,
                     s0: set<nat>, s1: set<nat>, s2: set<nat>, s3: set<nat>)
    requires start < |g|
    requires R.Closure(g, {start}) == s0 && s0 != {}
    requires R.Closure(g, R.Move(g, s0, x)) == s1 && s1 != {}
    requires R.Closure(g, R.Move(g, s1, y)) == s2 && s2 != {}
    requires R.Closure(g, R.Move(g, s2, z)) == s3
    ensures R.LastSet(g, start, [x, y, z]) == s3
  {
    var t := R.Trace(g, start, [x, y, z]);
    assert t[0] == s0;
    assert |t| > 1 && t[1] == s1;
    assert |t| > 2 && t[2] == s2;
    assert |t| == 4;
  }

  /** One literal built above `g`: two new states and one edge on `c`. */
  lemma LiteralAfter(g: Graph, c: char, q: nat, s: Symbol)
    ensures var (h, f) := Build(g, Literal(c)); var n := |g|;
      && |h| == n + 2 && f == Fragment(n, n + 1)
      && ListOf(h, q, s) == ListOf(g, q, s) + if q == n && s == Char(c) then [n + 1] else []
  {
    SymbolAfter(g, Char(c), q, s);
  }

  /** Two literals in sequence built above `g`: four new states, wired
      `c`, epsilon, `d` in a row, and nothing else changed. */
  lemma PairAfter(g: Graph, c: char, d: char, q: nat, s: Symbol)
    ensures var (h, f) := Build(g, Concat(Literal(c), Literal(d))); var n := |g|;
      && |h| == n + 4 && f == Fragment(n, n + 3)
      && ListOf(h, q, s) == ListOf(g, q, s) + PairLinks(n, c, d, q, s)
  {
    var n := |g|;
    var (g1, f1) := Build(g, Literal(c));
    LiteralAfter(g, c, q, s);
    var (g2, f2) := Build(g1, Literal(d));
    LiteralAfter(g1, d, q, s);
    var (h, f) := Build(g, Concat(Literal(c), Literal(d)));
    assert h == Run(g2, ConcatOps(f1, f2)) && f == Fragment(n, n + 3);
    ConcatAfter(g2, f1, f2, q, s);
    PairSum(ListOf(g, q, s), ListOf(g1, q, s), ListOf(g2, q, s), ListOf(h, q, s), n, c, d, q, s);
  }

  /** The three wiring steps of a pair add up to `PairLinks`, whichever
      order they come in. */
  lemma PairSum(l: seq<nat>, l1: seq<nat>, l2: seq<nat>, l3: seq<nat>, n: nat, c: char, d: char, q: nat, s: Symbol)
    requires l1 == l + if q == n && s == Char(c) then [n + 1] else []
    requires l2 == l1 + if q == n + 2 && s == Char(d) then [n + 3] else []
    requires l3 == l2 + if q == n + 1 && s == Epsilon then [n + 2] else []
    ensures l3 == l + PairLinks(n, c, d, q, s)
  {
    var a := if q == n && s == Char(c) then [n + 1] else [];
    var e := if q == n + 1 && s == Epsilon then [n + 2] else [];
    var b := if q == n + 2 && s == Char(d) then [n + 3] else [];
    assert PairLinks(n, c, d, q, s) == a + e + b;
    if q == n {
      assert e == [] && b == [] && a + e + b == a;
    } else if q == n + 1 {
      assert a == [] && b == [] && a + e + b == e;
    } else {
      assert a == [] && e == [] && a + e + b == b;
    }
  }

  /** The tree of a union of two two-letter words, such as `ab|cd`. */
  function TwoWords(a: char, b: char, c: char, d: char): Regex {
    Union(Concat(Literal(a), Literal(b)), Concat(Literal(c), Literal(d)))
  }

  /** The transitions of the automaton for `ab|cd`: `a`, epsilon, `b` along
      states 0 to 3, `c`, epsilon, `d` along states 4 to 7, the new start 8
      with epsilon edges to 0 and 4, and both old finals with one to 9. */
  function TwoWordsLinks(a: char, b: char, c: char, d: char, q: nat, s: Symbol): seq<nat> {
    if q == 0 && s == Char(a) then [1]
    else if q == 1 && s == Epsilon then [2]
    else if q == 2 && s == Char(b) then [3]
    else if q == 4 && s == Char(c) then [5]
    else if q == 5 && s == Epsilon then [6]
    else if q == 6 && s == Char(d) then [7]
    else if q == 8 && s == Epsilon then [0, 4]
    else if (q == 3 || q == 7) && s == Epsilon then [9]
    else []
  }

  /** The wiring of the two pairs and of the union add up to `TwoWordsLinks`. */
  lemma TwoWordsSum(a: char, b: char, c: char, d: char, q: nat, s: Symbol)
    ensures PairLinks(0, a, b, q, s) + PairLinks(4, c, d, q, s) +
      ((if q == 8 && s == Epsilon then [0, 4] else []) +
       (if q == 3 && s == Epsilon then [9] else []) +
       (if q == 7 && s == Epsilon then [9] else []))
      == TwoWordsLinks(a, b, c, d, q, s)
  {
    if q < 3 {
      assert PairLinks(4, c, d, q, s) == [];
    } else if q == 3 {
      assert PairLinks(0, a, b, q, s) == [] && PairLinks(4, c, d, q, s) == [];
    } else if q < 7 {
      assert PairLinks(0, a, b, q, s) == [];
    } else {
      assert PairLinks(0, a, b, q, s) == [] && PairLinks(4, c, d, q, s) == [];
    }
  }

  /** The automaton `converter` builds for `ab|cd`, state by state. */
  lemma TwoWordsShape(a: char, b: char, c: char, d: char)
    ensures var (g, f) := Build([], TwoWords(a, b, c, d));
      && |g| == 10 && f == Fragment(8, 9)
      && (forall q: nat, s :: q < 10 ==> Targets(g[q].trans, s) == TwoWordsLinks(a, b, c, d, q, s))
      && (forall q :: 0 <= q < 10 ==> (g[q].isFinal <==> q == 9))
  {
    var x := Build([], Concat(Literal(a), Literal(b)));
    PairAfter([], a, b, 0, Epsilon);
    var y := Build(x.0, Concat(Literal(c), Literal(d)));
    PairAfter(x.0, c, d, 0, Epsilon);
    var g := Run(y.0, UnionOps(8, x.1, y.1));
    assert Build([], TwoWords(a, b, c, d)) == (g, Fragment(8, 9));
    forall q: nat, s
      ensures ListOf(g, q, s) == TwoWordsLinks(a, b, c, d, q, s)
    {
      PairAfter([], a, b, q, s);
      assert ListOf(x.0, q, s) == PairLinks(0, a, b, q, s);
      PairAfter(x.0, c, d, q, s);
      UnionAfter(y.0, x.1, y.1, q, s);
      TwoWordsSum(a, b, c, d, q, s);
    }
    BuildShape(TwoWords(a, b, c, d));
  }

  /** `g` has the ten states and the transitions of the automaton for
      `ab|cd`, with 9 the only final state. */
  ghost predicate TwoWordsGraph(g: Graph, a: char, b: char, c: char, d: char) {
    && |g| == 10
    && (forall q: nat, s :: q < 10 ==> Targets(g[q].trans, s) == TwoWordsLinks(a, b, c, d, q, s))
    && (forall q :: 0 <= q < 10 ==> (g[q].isFinal <==> q == 9))
  }

  /** The automaton for `ab|cd` starts in {8, 0, 4}. */
  lemma TwoWordsStart(g: Graph, a: char, b: char, c: char, d: char)
    requires TwoWordsGraph(g, a, b, c, d)
    ensures R.Closure(g, {8}) == {8, 0, 4}
  {
    assert Targets(g[8].trans, Epsilon) == [0, 4];
    assert Targets(g[0].trans, Epsilon) == [] && Targets(g[4].trans, Epsilon) == [];
    ClosureFork(g, 8, 0, 4);
  }

  /** From {8, 0, 4}, reading the first letter of the first word leads
      into that word alone: to {1, 2}. */
  lemma TwoWordsEnterFirst(g: Graph, a: char, b: char, c: char, d: char)
    requires TwoWordsGraph(g, a, b, c, d) && a != c
    ensures R.Closure(g, R.Move(g, {8, 0, 4}, a)) == {1, 2}
  {
    assert Targets(g[0].trans, Char(a)) == [1];
    assert Targets(g[4].trans, Char(a)) == [] && Targets(g[8].trans, Char(a)) == [];
    MoveOne(g, {8, 0, 4}, a, 0, 1);
    assert Targets(g[1].trans, Epsilon) == [2] && Targets(g[2].trans, Epsilon) == [];
    ClosureChain(g, 1, 2);
  }

  /** From {8, 0, 4}, reading the first letter of the second word leads
      into that word alone: to {5, 6}. */
  lemma TwoWordsEnterSecond(g: Graph, a: char, b: char, c: char, d: char)
    requires TwoWordsGraph(g, a, b, c, d) && a != c
    ensures R.Closure(g, R.Move(g, {8, 0, 4}, c)) == {5, 6}
  {
    assert Targets(g[4].trans, Char(c)) == [5];
    assert Targets(g[0].trans, Char(c)) == [] && Targets(g[8].trans, Char(c)) == [];
    MoveOne(g, {8, 0, 4}, c, 4, 5);
    assert Targets(g[5].trans, Epsilon) == [6] && Targets(g[6].trans, Epsilon) == [];
    ClosureChain(g, 5, 6);
  }

  /** Inside either word, its second letter leads to the word's last state
      and on to the final state 9. */
  lemma TwoWordsFinish(g: Graph, a: char, b: char, c: char, d: char)
    requires TwoWordsGraph(g, a, b, c, d)
    ensures R.Closure(g, R.Move(g, {1, 2}, b)) == {3, 9}
    ensures R.Closure(g, R.Move(g, {5, 6}, d)) == {7, 9}
  {
    assert Targets(g[2].trans, Char(b)) == [3] && Targets(g[1].trans, Char(b)) == [];
    MoveOne(g, {1, 2}, b, 2, 3);
    assert Targets(g[3].trans, Epsilon) == [9] && Targets(g[9].trans, Epsilon) == [];
    ClosureChain(g, 3, 9);
    assert Targets(g[6].trans, Char(d)) == [7] && Targets(g[5].trans, Char(d)) == [];
    MoveOne(g, {5, 6}, d, 6, 7);
    assert Targets(g[7].trans, Epsilon) == [9];
    ClosureChain(g, 7, 9);
  }

  /** The current states for `ab`: {8, 0, 4}, then {1, 2}, then {3, 9}. */
  lemma TwoWordsTraceFirst(g: Graph, a: char, b: char, c: char, d: char)
    requires TwoWordsGraph(g, a, b, c, d) && a != c
    ensures R.LastSet(g, 8, [a, b]) == {3, 9}
  {
    TwoWordsStart(g, a, b, c, d);
    TwoWordsEnterFirst(g, a, b, c, d);
    TwoWordsFinish(g, a, b, c, d);
    TraceOfTwo(g, 8, a, b, {8, 0, 4}, {1, 2}, {3, 9});
  }

  /** The current states for `cd`: {8, 0, 4}, then {5, 6}, then {7, 9}. */
  lemma TwoWordsTraceSecond(g: Graph, a: char, b: char, c: char, d: char)
    requires TwoWordsGraph(g, a, b, c, d) && a != c
    ensures R.LastSet(g, 8, [c, d]) == {7, 9}
  {
    TwoWordsStart(g, a, b, c, d);
    TwoWordsEnterSecond(g, a, b, c, d);
    TwoWordsFinish(g, a, b, c, d);
    TraceOfTwo(g, 8, c, d, {8, 0, 4}, {5, 6}, {7, 9});
  }

  /** The current states for `ac`: {8, 0, 4}, then {1, 2}, then none,
      since neither 1 nor 2 has an edge on `c`. */
  lemma TwoWordsTraceMixed(g: Graph, a: char, b: char, c: char, d: char)
    requires TwoWordsGraph(g, a, b, c, d) && a != c && b != c
    ensures R.LastSet(g, 8, [a, c]) == {}
  {
    TwoWordsStart(g, a, b, c, d);
    TwoWordsEnterFirst(g, a, b, c, d);
    assert Targets(g[1].trans, Char(c)) == [] && Targets(g[2].trans, Char(c)) == [];
    MoveNone(g, {1, 2}, c);
    assert R.Closure(g, {}) == {};
    TraceOfTwo(g, 8, a, c, {8, 0, 4}, {1, 2}, {});
  }

  /** `ab|cd` accepts `ab`: the last current states hold the final state,
      so the verdict is `Accepted`. */
  lemma TwoWordsAcceptsFirst(a: char, b: char, c: char, d: char)
    requires a != c
    ensures var (g, f) := Build([], TwoWords(a, b, c, d));
      R.LastSet(g, f.start, [a, b]) == {3, f.final} && g[f.final].isFinal
  {
    TwoWordsShape(a, b, c, d);
    TwoWordsTraceFirst(Build([], TwoWords(a, b, c, d)).0, a, b, c, d);
  }

  /** `ab|cd` accepts `cd`, with verdict `Accepted`. */
  lemma TwoWordsAcceptsSecond(a: char, b: char, c: char, d: char)
    requires a != c
    ensures var (g, f) := Build([], TwoWords(a, b, c, d));
      R.LastSet(g, f.start, [c, d]) == {7, f.final} && g[f.final].isFinal
  {
    TwoWordsShape(a, b, c, d);
    TwoWordsTraceSecond(Build([], TwoWords(a, b, c, d)).0, a, b, c, d);
  }

  /** `ab|cd` rejects `ac`: the set of current states becomes empty, so
      the verdict is `NoReachableState`. */
  lemma TwoWordsRejectsMixed(a: char, b: char, c: char, d: char)
    requires a != c && b != c
    ensures var (g, f) := Build([], TwoWords(a, b, c, d)); R.LastSet(g, f.start, [a, c]) == {}
  {
    TwoWordsShape(a, b, c, d);
    TwoWordsTraceMixed(Build([], TwoWords(a, b, c, d)).0, a, b, c, d);
  }

  /** The tree of `(aa)*`, for any letter in place of `a`. */
  function DoubledStar(x: char): Regex {
    Star(Group(Concat(Literal(x), Literal(x))))
  }

  /** The transitions of the automaton for `(aa)*`: `a`, epsilon, `a` along
      states 0 to 3, and both the new start 4 and the old final 3 with
      epsilon edges to 0 and to the new final 5. */
  function DoubledStarLinks(x: char, q: nat, s: Symbol): seq<nat> {
    if q == 0 && s == Char(x) then [1]
    else if q == 1 && s == Epsilon then [2]
    else if q == 2 && s == Char(x) then [3]
    else if (q == 3 || q == 4) && s == Epsilon then [0, 5]
    else []
  }

  /** The wiring of the pair and of the star add up to `DoubledStarLinks`. */
  lemma DoubledStarSum(x: char, q: nat, s: Symbol)
    ensures PairLinks(0, x, x, q, s) +
      ((if q == 4 && s == Epsilon then [0, 5] else []) +
       (if q == 3 && s == Epsilon then [0, 5] else []))
      == DoubledStarLinks(x, q, s)
  {
    if q >= 3 {
      assert PairLinks(0, x, x, q, s) == [];
    }
  }

  /** `g` has the six states and the transitions of the automaton for
      `(aa)*`, with 5 the only final state. */
  ghost predicate DoubledStarGraph(g: Graph, x: char) {
    && |g| == 6
    && (forall q: nat, s :: q < 6 ==> Targets(g[q].trans, s) == DoubledStarLinks(x, q, s))
    && (forall q :: 0 <= q < 6 ==> (g[q].isFinal <==> q == 5))
  }

  /** The automaton `converter` builds for `(aa)*`, state by state. */
  lemma DoubledStarShape(x: char)
    ensures var (g, f) := Build([], DoubledStar(x));
      f == Fragment(4, 5) && DoubledStarGraph(g, x)
  {
    var y := Build([], Concat(Literal(x), Literal(x)));
    PairAfter([], x, x, 0, Epsilon);
    var g := Run(y.0, StarOps(4, y.1));
    assert Build([], DoubledStar(x)) == (g, Fragment(4, 5));
    forall q: nat, s
      ensures ListOf(g, q, s) == DoubledStarLinks(x, q, s)
    {
      PairAfter([], x, x, q, s);
      assert ListOf(y.0, q, s) == PairLinks(0, x, x, q, s);
      StarAfter(y.0, y.1, q, s);
      DoubledStarSum(x, q, s);
    }
    BuildShape(DoubledStar(x));
  }

  /** In the automaton for `(aa)*`, the start's closure is {4, 0, 5}, and
      the closure after the second letter of a pair is {3, 0, 5}. */
  lemma DoubledStarClosures(g: Graph, x: char)
    requires DoubledStarGraph(g, x)
    ensures R.Closure(g, {4}) == {4, 0, 5}
    ensures R.Closure(g, {3}) == {3, 0, 5}
    ensures R.Closure(g, {1}) == {1, 2}
  {
    assert Targets(g[4].trans, Epsilon) == [0, 5] && Targets(g[3].trans, Epsilon) == [0, 5];
    assert Targets(g[0].trans, Epsilon) == [] && Targets(g[5].trans, Epsilon) == [];
    ClosureFork(g, 4, 0, 5);
    ClosureFork(g, 3, 0, 5);
    assert Targets(g[1].trans, Epsilon) == [2] && Targets(g[2].trans, Epsilon) == [];
    ClosureChain(g, 1, 2);
  }

  /** In the automaton for `(aa)*`, an odd number of letters leads to
      {1, 2}, an even one back to {3, 0, 5}. */
  lemma DoubledStarSteps(g: Graph, x: char)
    requires DoubledStarGraph(g, x)
    ensures R.Closure(g, {4}) == {4, 0, 5}
    ensures R.Closure(g, R.Move(g, {4, 0, 5}, x)) == {1, 2}
    ensures R.Closure(g, R.Move(g, {3, 0, 5}, x)) == {1, 2}
    ensures R.Closure(g, R.Move(g, {1, 2}, x)) == {3, 0, 5}
  {
    DoubledStarClosures(g, x);
    assert Targets(g[0].trans, Char(x)) == [1] && Targets(g[2].trans, Char(x)) == [3];
    assert Targets(g[4].trans, Char(x)) == [] && Targets(g[5].trans, Char(x)) == [];
    assert Targets(g[3].trans, Char(x)) == [] && Targets(g[1].trans, Char(x)) == [];
    MoveOne(g, {4, 0, 5}, x, 0, 1);
    MoveOne(g, {3, 0, 5}, x, 0, 1);
    MoveOne(g, {1, 2}, x, 2, 3);
  }

  /** `(aa)*` rejects `a`: the last current states are {1, 2}, neither
      final, so the verdict is `NoFinalState`. */
  lemma DoubledStarRejectsOne(x: char)
    ensures var (g, f) := Build([], DoubledStar(x));
      R.LastSet(g, f.start, [x]) == {1, 2} && !g[1].isFinal && !g[2].isFinal
  {
    DoubledStarShape(x);
    var g := Build([], DoubledStar(x)).0;
    DoubledStarSteps(g, x);
    TraceOfOne(g, 4, x, {4, 0, 5}, {1, 2});
  }

  /** `(aa)*` accepts `aa`: the last current states hold the final state 5,
      so the verdict is `Accepted`. */
  lemma DoubledStarAcceptsTwo(x: char)
    ensures var (g, f) := Build([], DoubledStar(x));
      R.LastSet(g, f.start, [x, x]) == {3, 0, f.final} && g[f.final].isFinal
  {
    DoubledStarShape(x);
    var g := Build([], DoubledStar(x)).0;
    DoubledStarSteps(g, x);
    TraceOfTwo(g, 4, x, x, {4, 0, 5}, {1, 2}, {3, 0, 5});
  }

  /** `(aa)*` rejects `aaa`: the current states alternate between {1, 2}
      and {3, 0, 5} and end on {1, 2}, neither final, so the verdict is
      `NoFinalState`. */
  lemma DoubledStarRejectsThree(x: char)
    ensures var (g, f) := Build([], DoubledStar(x));
      R.LastSet(g, f.start, [x, x, x]) == {1, 2} && !g[1].isFinal && !g[2].isFinal
  {
    DoubledStarShape(x);
    var g := Build([], DoubledStar(x)).0;
    DoubledStarSteps(g, x);
    TraceOfThree(g, 4, x, x, x, {4, 0, 5}, {1, 2}, {3, 0, 5}, {1, 2});
  }

  /** `(aa)*` parses as the star of the group of `aa`. */
  lemma DoubledStarParse()
    ensures Parse("(aa)*") == Ok(DoubledStar('a'))
  {
    var s := "(aa)*";
    assert ParseTerm(s, 2) == Ok((Literal('a'), 3));
    assert ParseTerm(s, 1) == Ok((Concat(Literal('a'), Literal('a')), 3));
    assert ParseExpr(s, 1) == Ok((Concat(Literal('a'), Literal('a')), 3));
    assert ParseBase(s, 0) == Ok((Group(Concat(Literal('a'), Literal('a'))), 4));
    assert ParseTerm(s, 0) == Ok((DoubledStar('a'), 5));
  }

  /** Concatenation binds tighter than `|`: `ab|cd` is the union of `ab`
      and `cd`. */
  lemma UnionOfConcatenations()
    ensures Parse("ab|cd") ==
      Ok(Union(Concat(Literal('a'), Literal('b')), Concat(Literal('c'), Literal('d'))))
  {
    var s := "ab|cd";
    assert ParseTerm(s, 1) == Ok((Literal('b'), 2));
    assert ParseTerm(s, 0) == Ok((Concat(Literal('a'), Literal('b')), 2));
    assert ParseTerm(s, 4) == Ok((Literal('d'), 5));
    assert ParseTerm(s, 3) == Ok((Concat(Literal('c'), Literal('d')), 5));
    assert ParseExpr(s, 3) == Ok((Concat(Literal('c'), Literal('d')), 5));
  }

  /** `*` applies to the base just before it: `ab*` is `a` followed by `b*`. */
  lemma StarBindsBase()
    ensures Parse("ab*") == Ok(Concat(Literal('a'), Star(Literal('b'))))
  {
  }

  /** Where the source goes on silently, the parser reports: `a)` leaves
      input over, and `(a` ends inside a group. */
  lemma MalformedInputs()
    ensures Parse("a)") == Err(TrailingInput(1))
    ensures Parse("(a") == Err(UnexpectedEnd(2))
  {
  }
}
