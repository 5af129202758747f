/** Simulation of the epsilon-NFA on an input string (reconhecedor.py):
    epsilon-closure, the step on one symbol, and the recognition loop that
    records one history entry per step. */
module Reconhecedor {
  import opened Afn

  datatype Option<T> = None | Some(value: T)

  /** The answer of `reconhecer`: accepted (naming the final state found), or
      rejected because the set of current states became empty, or because no
      current state is final once the whole input is read. */
  datatype Verdict = Accepted(final: nat) | NoReachableState | NoFinalState

  /** One history entry: the symbol read (none for the initial entry) and the
      current states sorted by id. */
  datatype StepRecord = StepRecord(symbol: Option<char>, states: seq<nat>)

  // ---------------------------------------------------------------------------
  // Specification
  // ---------------------------------------------------------------------------

  /** The epsilon-closure of `s`: the states reachable from a member of `s`
      over epsilon edges only, the members themselves included. */
  ghost function Closure(g: Graph, s: set<nat>): set<nat> {
    set q: nat | q < |g| && EpsilonFrom(g, s, q)
  }

  /** `q` is reachable over epsilon edges from some member of `s`. */
  ghost predicate EpsilonFrom(g: Graph, s: set<nat>, q: nat) {
    exists p :: p in s && Reaches(g, EpsilonEdge, p, q)
  }

  /** The states entered from `cur` by an edge labelled exactly `c`. */
  ghost function Move(g: Graph, cur: set<nat>, c: char): set<nat> {
    set p, d | p in cur && p < |g| && d in Targets(g[p].trans, Char(c)) :: d
  }

  /** The sets of current states recorded while reading `w`: first the closure
      of the start state, then one set per symbol read, stopping right after
      the first empty set. */
  ghost function Trace(g: Graph, start: nat, w: string): (t: seq<set<nat>>)
    requires start < |g|
    ensures 1 <= |t| <= |w| + 1
    ensures t[0] == Closure(g, {start})
    ensures forall i :: 0 < i < |t| ==> t[i] == Closure(g, Move(g, t[i - 1], w[i - 1]))
    ensures forall i :: 0 <= i < |t| - 1 ==> t[i] != {}
    ensures |t| < |w| + 1 ==> t[|t| - 1] == {}
    decreases |w|
  {
    if w == [] then
      ReachesRefl(g, EpsilonEdge, start);
      assert start in Closure(g, {start});
      [Closure(g, {start})]
    else
      var w' := w[..|w| - 1];
      var prev := Trace(g, start, w');
      assert forall i :: 0 <= i < |w'| ==> w'[i] == w[i];
      if prev[|prev| - 1] == {} then prev
      else prev + [Closure(g, Move(g, prev[|prev| - 1], w[|w| - 1]))]
  }

  /** The current states once the recognition loop has stopped. */
  ghost function LastSet(g: Graph, start: nat, w: string): set<nat>
    requires start < |g|
  {
    var t := Trace(g, start, w);
    t[|t| - 1]
  }

  /** The history written for a trace. */
  function Records(g: Graph, t: seq<set<nat>>, w: string): (r: seq<StepRecord>)
    requires |t| <= |w| + 1
    ensures |r| == |t|
    ensures forall i :: 0 <= i < |t| ==>
      r[i] == StepRecord(if i == 0 then None else Some(w[i - 1]), SortById(t[i], |g|))
  {
    if t == [] then []
    else
      var i := |t| - 1;
      Records(g, t[..i], w) + [StepRecord(if i == 0 then None else Some(w[i - 1]), SortById(t[i], |g|))]
  }

  // ---------------------------------------------------------------------------
  // _epsilon_fecho
  // ---------------------------------------------------------------------------

  /** `_epsilon_fecho`: a worklist fixpoint. The worklist is kept as a set,
      so the order in which states are taken from it is left open; the
      result does not depend on it. */
  method EpsilonClosure(g: Graph, s: set<nat>) returns (c: set<nat>)
    requires WellFormed(g) && forall q :: q in s ==> q < |g|
    ensures c == Closure(g, s)
    ensures s <= c && ClosedUnder(g, EpsilonEdge, c)
  {
    c := s;
    var work := s;
    ClosureInvInit(g, s);
    while work != {}
      invariant ClosureInv(g, s, c, work)
      decreases |g| - |c|, |work|
    {
      var q :| q in work;
      ghost var c0, work0 := c, work;
      var dests := Targets(g[q].trans, Epsilon);
      c, work := AddUnseen(dests, c, work - {q});
      ClosureInvStep(g, s, c0, work0, q, c, work);
    }
    ClosureLeast(g, s, c);
  }

  /** The loop invariant of `_epsilon_fecho`: the worklist lies inside the
      closure built so far, which contains `s`, holds only states
      epsilon-reachable from `s`, and is left by epsilon edges only from
      states still waiting in the worklist. */
  ghost predicate ClosureInv(g: Graph, s: set<nat>, c: set<nat>, work: set<nat>) {
    && work <= c && s <= c && |c| <= |g|
    && (forall q :: q in c ==> q < |g| && EpsilonFrom(g, s, q))
    && (forall a, b :: a in c && a !in work && Step(g, EpsilonEdge, a, b) ==> b in c)
  }

  lemma ClosureInvInit(g: Graph, s: set<nat>)
    requires forall q :: q in s ==> q < |g|
    ensures ClosureInv(g, s, s, s)
  {
    forall q | q in s
      ensures EpsilonFrom(g, s, q)
    {
      ReachesRefl(g, EpsilonEdge, q);
    }
    BoundedCard(s, |g|);
  }

  /** One round of the worklist loop keeps the invariant and decreases the
      pair (states outside the closure, worklist size). */
  lemma ClosureInvStep(g: Graph, s: set<nat>, c0: set<nat>, work0: set<nat>, q: nat, c: set<nat>, work: set<nat>)
    requires WellFormed(g) && ClosureInv(g, s, c0, work0) && q in work0
    requires c == c0 + (set d | d in Targets(g[q].trans, Epsilon))
    requires work == (work0 - {q}) + ((set d | d in Targets(g[q].trans, Epsilon)) - c0)
    ensures ClosureInv(g, s, c, work)
    ensures |c0| < |c| || (c == c0 && |work| < |work0|)
  {
    var ds := set d | d in Targets(g[q].trans, Epsilon);
    if c == c0 {
      assert ds - c0 == {};
    }
    assert work <= c && s <= c;
    StepReached(g, s, c0, q, c);
    StepClosed(g, c0, work0, q, c, work);
    BoundedCard(c, |g|);
    StepShrinks(c0, work0, q, c, work);
  }

  /** One round either grows the closure or shrinks the worklist. */
  lemma StepShrinks(c0: set<nat>, work0: set<nat>, q: nat, c: set<nat>, work: set<nat>)
    requires q in work0 && c0 <= c
    requires c == c0 ==> work == work0 - {q}
    ensures |c0| < |c| || (c == c0 && |work| < |work0|)
  {
    if c != c0 {
      assert c0 < c;
      ProperSubsetCard(c0, c);
    }
  }

  /** The states added in one round are epsilon-reachable from `s`. */
  lemma StepReached(g: Graph, s: set<nat>, c0: set<nat>, q: nat, c: set<nat>)
    requires WellFormed(g) && q in c0
    requires forall x :: x in c0 ==> x < |g| && EpsilonFrom(g, s, x)
    requires c == c0 + (set d | d in Targets(g[q].trans, Epsilon))
    ensures forall x :: x in c ==> x < |g| && EpsilonFrom(g, s, x)
  {
    forall x | x in c
      ensures x < |g| && EpsilonFrom(g, s, x)
    {
      if x !in c0 {
        assert Step(g, EpsilonEdge, q, x);
        var p :| p in s && Reaches(g, EpsilonEdge, p, q);
        ReachesStep(g, EpsilonEdge, p, q, x);
      }
    }
  }

  /** After one round, epsilon edges leave the closure only from states
      still in the worklist. */
  lemma StepClosed(g: Graph, c0: set<nat>, work0: set<nat>, q: nat, c: set<nat>, work: set<nat>)
    requires q in work0 && q < |g|
    requires forall a, b :: a in c0 && a !in work0 && Step(g, EpsilonEdge, a, b) ==> b in c0
    requires c == c0 + (set d | d in Targets(g[q].trans, Epsilon))
    requires work == (work0 - {q}) + ((set d | d in Targets(g[q].trans, Epsilon)) - c0)
    ensures forall a, b :: a in c && a !in work && Step(g, EpsilonEdge, a, b) ==> b in c
  {
    forall a, b | a in c && a !in work && Step(g, EpsilonEdge, a, b)
      ensures b in c
    {
      if a == q {
        assert b in Targets(g[q].trans, Epsilon);
      } else {
        assert a in c0 && a !in work0;
      }
    }
  }

  /** A set of ids below `n` has at most `n` elements. */
  lemma {:induction false} BoundedCard(s: set<nat>, n: nat)
    requires forall q :: q in s ==> q < n
    ensures |s| <= n
  {
    if n > 0 {
      BoundedCard(s - {n - 1}, n - 1);
    } else {
      assert s == {};
    }
  }

  /** A proper subset is strictly smaller. */
  lemma ProperSubsetCard(a: set<nat>, b: set<nat>)
    requires a < b
    ensures |a| < |b|
  {
    var d :| d in b && d !in a;
    assert b == a + (b - a);
    assert |b| == |a| + |b - a|;
    assert d in b - a;
  }

  /** The inner loop of `_epsilon_fecho`: every listed state not yet in the
      closure joins both the closure and the worklist. */
  method AddUnseen(dests: seq<nat>, c: set<nat>, work: set<nat>) returns (c2: set<nat>, work2: set<nat>)
    ensures c2 == c + (set d | d in dests)
    ensures work2 == work + ((set d | d in dests) - c)
  {
    c2, work2 := c, work;
    var i := 0;
    while i < |dests|
      invariant 0 <= i <= |dests|
      invariant c2 == c + (set d | d in dests[..i])
      invariant work2 == work + ((set d | d in dests[..i]) - c)
    {
      if dests[i] !in c2 {
        c2 := c2 + {dests[i]};
        work2 := work2 + {dests[i]};
      }
      assert dests[..i + 1] == dests[..i] + [dests[i]];
      i := i + 1;
    }
    assert dests[..i] == dests;
  }

  /** Any set that contains `s` and that no epsilon edge leaves contains the closure of `s`. */
  lemma ClosureLeast(g: Graph, s: set<nat>, c: set<nat>)
    requires s <= c && ClosedUnder(g, EpsilonEdge, c)
    ensures Closure(g, s) <= c
  {
    forall q | q in Closure(g, s)
      ensures q in c
    {
      var p :| p in s && Reaches(g, EpsilonEdge, p, q);
      ClosedContainsReach(g, EpsilonEdge, c, p, q);
    }
  }

  /** Closing twice is closing once. */
  lemma ClosureIdempotent(g: Graph, s: set<nat>)
    requires forall q :: q in s ==> q < |g|
    ensures Closure(g, Closure(g, s)) == Closure(g, s)
  {
    var c := Closure(g, s);
    forall q | q in c
      ensures q in Closure(g, c)
    {
      ReachesRefl(g, EpsilonEdge, q);
    }
    forall q | q in Closure(g, c)
      ensures q in c
    {
      var m :| m in c && Reaches(g, EpsilonEdge, m, q);
      var p :| p in s && Reaches(g, EpsilonEdge, p, m);
      ReachesTrans(g, EpsilonEdge, p, m, q);
    }
  }

  // ---------------------------------------------------------------------------
  // reconhecer
  // ---------------------------------------------------------------------------

  /** The inner loop of `reconhecer`: the union of the lists stored under
      exactly `c` in the tables of the current states. */
  method MoveOn(g: Graph, cur: set<nat>, c: char) returns (next: set<nat>)
    requires forall q :: q in cur ==> q < |g|
    ensures next == Move(g, cur, c)
  {
    next := {};
    var rest := cur;
    while rest != {}
      invariant rest <= cur
      invariant next == Move(g, cur - rest, c)
      decreases rest
    {
      var q :| q in rest;
      ghost var done := cur - rest;
      rest := rest - {q};
      next := next + (set d | d in Targets(g[q].trans, Char(c)));
      assert cur - rest == done + {q};
    }
  }

  /** Once the trace has stopped on an empty set, reading more input changes nothing. */
  lemma {:induction false} TraceStops(g: Graph, start: nat, w: string, i: nat)
    requires start < |g| && i <= |w|
    requires LastSet(g, start, w[..i]) == {}
    ensures Trace(g, start, w) == Trace(g, start, w[..i])
    decreases |w| - i
  {
    if i < |w| {
      assert w[..i + 1][..i] == w[..i];
      TraceStops(g, start, w, i + 1);
    } else {
      assert w[..i] == w;
    }
  }

  /** The trace of the empty prefix is the closure of the start state. */
  lemma TraceStart(g: Graph, start: nat, w: string)
    requires start < |g|
    ensures w[..0] == [] && Trace(g, start, w[..0]) == [Closure(g, {start})]
  {
    assert w[..0] == [];
  }

  /** Reading one more symbol while the current set is not empty appends
      the closure of the step to the trace. */
  lemma TraceExtend(g: Graph, start: nat, w: string, i: nat)
    requires start < |g| && i < |w|
    requires |Trace(g, start, w[..i])| == i + 1 && LastSet(g, start, w[..i]) != {}
    ensures Trace(g, start, w[..i + 1]) ==
      Trace(g, start, w[..i]) + [Closure(g, Move(g, LastSet(g, start, w[..i]), w[i]))]
  {
    assert w[..i + 1][..i] == w[..i];
  }

  /** Appending a set to the trace appends its record to the history. */
  lemma RecordsExtend(g: Graph, t: seq<set<nat>>, x: set<nat>, w: string)
    requires 1 <= |t| <= |w|
    ensures Records(g, t + [x], w) == Records(g, t, w) + [StepRecord(Some(w[|t| - 1]), SortById(x, |g|))]
  {
    assert (t + [x])[..|t|] == t;
  }

  /** One symbol of `reconhecer`: the move on `c` followed by the closure. */
  method StepOn(g: Graph, cur: set<nat>, c: char) returns (next: set<nat>)
    requires WellFormed(g) && forall q :: q in cur ==> q < |g|
    ensures next == Closure(g, Move(g, cur, c))
    ensures forall q :: q in next ==> q < |g|
  {
    var moved := MoveOn(g, cur, c);
    forall q | q in moved
      ensures q < |g|
    {
      var p, d :| p in cur && p < |g| && d in Targets(g[p].trans, Char(c)) && d == q;
    }
    next := EpsilonClosure(g, moved);
  }

  /** The acceptance test at the end of `reconhecer`: some current state is
      final exactly when one is returned. */
  method FindFinal(g: Graph, cur: set<nat>) returns (r: Option<nat>)
    requires forall q :: q in cur ==> q < |g|
    ensures r.Some? ==> r.value in cur && g[r.value].isFinal
    ensures r.None? <==> forall q :: q in cur ==> !g[q].isFinal
  {
    var rest := cur;
    while rest != {}
      invariant rest <= cur
      invariant forall q :: q in cur - rest ==> !g[q].isFinal
      decreases rest
    {
      var q :| q in rest;
      if g[q].isFinal {
        return Some(q);
      }
      rest := rest - {q};
    }
    return None;
  }

  /** `ReconhecedorAFN`: recognition over a fixed automaton (an arena and a
      fragment in it), keeping the history of the last run. */
  class Recognizer {
    const arena: Arena
    const afn: Fragment
    var history: seq<StepRecord>

    constructor (arena: Arena, afn: Fragment)
      ensures this.arena == arena && this.afn == afn && history == []
    {
      this.arena := arena;
      this.afn := afn;
      history := [];
    }

    /** `reconhecer`: clears the history, records the closure of the start
        state, then one entry per symbol read, stopping at once when the set
        of current states becomes empty; accepts when some current state is
        final. The automaton is only read. */
    method Recognize(w: string) returns (v: Verdict)
      requires arena.Valid() && afn.start < |arena.states|
      modifies this
      ensures unchanged(arena)
      ensures history == Records(arena.states, Trace(arena.states, afn.start, w), w)
      ensures v == NoReachableState <==> LastSet(arena.states, afn.start, w) == {}
      ensures v.Accepted? ==> v.final in LastSet(arena.states, afn.start, w) && arena.states[v.final].isFinal
      ensures v == NoFinalState <==>
        LastSet(arena.states, afn.start, w) != {} &&
        forall q :: q in LastSet(arena.states, afn.start, w) ==> !arena.states[q].isFinal
    {
      var g := arena.states;
      history := [];
      var cur := EpsilonClosure(g, {afn.start});
      history := history + [StepRecord(None, SortById(cur, |g|))];
      TraceStart(g, afn.start, w);
      var i := 0;
      while i < |w|
        invariant 0 <= i <= |w|
        invariant |Trace(g, afn.start, w[..i])| == i + 1
        invariant cur == LastSet(g, afn.start, w[..i]) && cur != {}
        invariant forall q :: q in cur ==> q < |g|
        invariant history == Records(g, Trace(g, afn.start, w[..i]), w)
      {
        ghost var prev := Trace(g, afn.start, w[..i]);
        cur := StepOn(g, cur, w[i]);
        TraceExtend(g, afn.start, w, i);
        RecordsExtend(g, prev, cur, w);
        history := history + [StepRecord(Some(w[i]), SortById(cur, |g|))];
        i := i + 1;
        if cur == {} {
          TraceStops(g, afn.start, w, i);
          v := NoReachableState;
          return;
        }
      }
      assert w[..i] == w;
      var found := FindFinal(g, cur);
      if found.Some? {
        v := Accepted(found.value);
      } else {
        v := NoFinalState;
      }
    }
  }
}
