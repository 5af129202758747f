/** States, transition tables and automaton fragments of the epsilon-NFA (afn.py).

    Every state lives in one arena (a `Graph`, the sequence of all states of
    one compilation) and is referred to by its index, which is also its id.
    The allocator that the source keeps in the class-level counter
    `Estado.contador` is the length of the arena. */
module Afn {

  /** A transition label: the empty move, or one input character. */
  datatype Symbol = Epsilon | Char(c: char)

  /** One key of a state's transition table with its list of targets. */
  datatype Entry = Entry(sym: Symbol, targets: seq<nat>)

  /** A state: its transition table (a dictionary, kept as an association
      list in insertion order) and its final flag. */
  datatype State = State(trans: seq<Entry>, isFinal: bool)

  /** The arena of states; a state's id is its index. */
  type Graph = seq<State>

  /** An automaton fragment (class AFN): the ids of its start and final state. */
  datatype Fragment = Fragment(start: nat, final: nat)

  /** One line of the transition listing: source, label, target. */
  datatype Transition = Transition(src: nat, sym: Symbol, dst: nat)

  // ---------------------------------------------------------------------------
  // Transition tables
  // ---------------------------------------------------------------------------

  /** A dictionary never holds a key twice. */
  predicate DistinctKeys(t: seq<Entry>) {
    forall i, j :: 0 <= i < j < |t| ==> t[i].sym != t[j].sym
  }

  /** The list stored under `sym`, or the empty list when `sym` is not a key. */
  function Targets(t: seq<Entry>, sym: Symbol): seq<nat> {
    if t == [] then []
    else if t[0].sym == sym then t[0].targets
    else Targets(t[1..], sym)
  }

  /** A lookup finds the list of the entry holding the key, or nothing when no entry holds it. */
  lemma {:induction false} TargetsLookup(t: seq<Entry>, sym: Symbol)
    ensures (forall i :: 0 <= i < |t| ==> t[i].sym != sym) ==> Targets(t, sym) == []
    ensures Targets(t, sym) == [] || exists i :: 0 <= i < |t| && t[i].sym == sym && Targets(t, sym) == t[i].targets
    ensures DistinctKeys(t) ==> forall i :: 0 <= i < |t| && t[i].sym == sym ==> Targets(t, sym) == t[i].targets
  {
    if t != [] && t[0].sym != sym {
      TargetsLookup(t[1..], sym);
      assert forall i :: 1 <= i < |t| ==> t[1..][i - 1] == t[i];
      if DistinctKeys(t) {
        assert DistinctKeys(t[1..]);
      }
      if Targets(t, sym) != [] {
        var i :| 0 <= i < |t[1..]| && t[1..][i].sym == sym && Targets(t[1..], sym) == t[1..][i].targets;
        assert t[i + 1].sym == sym;
      }
    }
  }

  /** `adicionar_transicao` on one table: append `d` to the list of `sym`,
      creating that key (at the end of the table) when it is absent. */
  function AddEdge(t: seq<Entry>, sym: Symbol, d: nat): (r: seq<Entry>)
    ensures (exists i :: 0 <= i < |t| && t[i].sym == sym) ==> |r| == |t|
    ensures (forall i :: 0 <= i < |t| ==> t[i].sym != sym) ==> r == t + [Entry(sym, [d])]
    ensures forall i :: 0 <= i < |t| ==> r[i].sym == t[i].sym
  {
    if t == [] then [Entry(sym, [d])]
    else if t[0].sym == sym then [t[0].(targets := t[0].targets + [d])] + t[1..]
    else
      var rest := AddEdge(t[1..], sym, d);
      assert forall i :: 1 <= i < |t| ==> t[1..][i - 1] == t[i];
      [t[0]] + rest
  }

  /** After `AddEdge`, the list of `sym` has `d` appended and every other list is unchanged. */
  lemma {:induction false} AddEdgeTargets(t: seq<Entry>, sym: Symbol, d: nat, s: Symbol)
    ensures Targets(AddEdge(t, sym, d), s) == if s == sym then Targets(t, s) + [d] else Targets(t, s)
  {
    if t != [] && t[0].sym != sym {
      AddEdgeTargets(t[1..], sym, d, s);
      var r := AddEdge(t, sym, d);
      assert r[1..] == AddEdge(t[1..], sym, d);
    }
  }

  /** `AddEdge` keeps a dictionary a dictionary. */
  lemma {:induction false} AddEdgeDistinct(t: seq<Entry>, sym: Symbol, d: nat)
    requires DistinctKeys(t)
    ensures DistinctKeys(AddEdge(t, sym, d))
  {
    var r := AddEdge(t, sym, d);
    if t != [] && t[0].sym == sym {
      assert forall i :: 0 <= i < |r| ==> r[i].sym == t[i].sym;
    } else if t != [] {
      var rest := AddEdge(t[1..], sym, d);
      assert DistinctKeys(t[1..]);
      AddEdgeDistinct(t[1..], sym, d);
      forall k | 0 <= k < |rest|
        ensures rest[k].sym != t[0].sym
      {
        if k < |t| - 1 {
          assert t[1..][k] == t[k + 1];
        }
      }
      assert r == [t[0]] + rest;
    }
  }

  /** Every target of the table is an id below `n`. */
  ghost predicate TargetsBelow(t: seq<Entry>, n: nat) {
    forall s, d :: d in Targets(t, s) ==> d < n
  }

  /** The arena invariant: tables are dictionaries and every edge ends at a state of the arena. */
  ghost predicate WellFormed(g: Graph) {
    forall q :: 0 <= q < |g| ==> DistinctKeys(g[q].trans) && TargetsBelow(g[q].trans, |g|)
  }

  /** The arena after `g[q].adicionar_transicao(sym, d)`. */
  function WithEdge(g: Graph, q: nat, sym: Symbol, d: nat): (r: Graph)
    requires q < |g|
    ensures |r| == |g|
  {
    g[q := g[q].(trans := AddEdge(g[q].trans, sym, d))]
  }

  /** The arena after `g[q].eh_final = b`. */
  function WithFlag(g: Graph, q: nat, b: bool): (r: Graph)
    requires q < |g|
    ensures |r| == |g|
  {
    g[q := g[q].(isFinal := b)]
  }

  /** The arena after `Estado()`: one more state, with no transitions, not final. */
  function WithNewState(g: Graph): (r: Graph)
    ensures |r| == |g| + 1
  {
    g + [State([], false)]
  }

  /** Adding an edge to a state of the arena keeps the arena invariant. */
  lemma WithEdgeWellFormed(g: Graph, q: nat, sym: Symbol, d: nat)
    requires WellFormed(g) && q < |g| && d < |g|
    ensures WellFormed(WithEdge(g, q, sym, d))
  {
    var t := AddEdge(g[q].trans, sym, d);
    AddEdgeDistinct(g[q].trans, sym, d);
    forall s, x | x in Targets(t, s)
      ensures x < |g|
    {
      AddEdgeTargets(g[q].trans, sym, d, s);
    }
  }

  lemma WithFlagWellFormed(g: Graph, q: nat, b: bool)
    requires WellFormed(g) && q < |g|
    ensures WellFormed(WithFlag(g, q, b))
  {
  }

  lemma WithNewStateWellFormed(g: Graph)
    requires WellFormed(g)
    ensures WellFormed(WithNewState(g))
  {
  }

  // ---------------------------------------------------------------------------
  // The allocator and the in-place operations of Estado and AFN
  // ---------------------------------------------------------------------------

  /** The states of one compilation. `converter` resets the id counter to 0,
      which here is the creation of a fresh, empty arena. */
  class Arena {
    var states: Graph

    ghost predicate Valid()
      reads this
    {
      WellFormed(states)
    }

    constructor ()
      ensures Valid() && states == []
    {
      states := [];
    }

    /** `Estado()`: the new state takes the counter's value as its id, the
        counter grows by one, and the state starts non-final with no transitions. */
    method NewState() returns (q: nat)
      requires Valid()
      modifies this
      ensures Valid()
      ensures q == |old(states)| && states == WithNewState(old(states))
    {
      WithNewStateWellFormed(states);
      q := |states|;
      states := WithNewState(states);
    }

    /** `adicionar_transicao`: appends `d` to the list of `sym` on state `q`. */
    method AddTransition(q: nat, sym: Symbol, d: nat)
      requires Valid() && q < |states| && d < |states|
      modifies this
      ensures Valid()
      ensures states == WithEdge(old(states), q, sym, d)
    {
      WithEdgeWellFormed(states, q, sym, d);
      states := WithEdge(states, q, sym, d);
    }

    /** Assignment to `eh_final` of state `q`. */
    method SetFinal(q: nat, b: bool)
      requires Valid() && q < |states|
      modifies this
      ensures Valid()
      ensures states == WithFlag(old(states), q, b)
    {
      WithFlagWellFormed(states, q, b);
      states := WithFlag(states, q, b);
    }

    /** `AFN(estado_inicial, estado_final)`: marks the final state and nothing else. */
    method NewFragment(start: nat, final: nat) returns (f: Fragment)
      requires Valid() && start < |states| && final < |states|
      modifies this
      ensures Valid()
      ensures f == Fragment(start, final) && states == WithFlag(old(states), final, true)
    {
      SetFinal(final, true);
      f := Fragment(start, final);
    }
  }

  // ---------------------------------------------------------------------------
  // Paths and reachability
  // ---------------------------------------------------------------------------

  /** Which edges a path may follow: all of them, or only the epsilon edges. */
  datatype EdgeKind = AnyEdge | EpsilonEdge

  /** There is an edge of kind `k` from `a` to `b`. */
  ghost predicate Step(g: Graph, k: EdgeKind, a: nat, b: nat) {
    a < |g| &&
    match k
    case AnyEdge => exists s :: b in Targets(g[a].trans, s)
    case EpsilonEdge => b in Targets(g[a].trans, Epsilon)
  }

  ghost predicate IsPath(g: Graph, k: EdgeKind, p: seq<nat>) {
    |p| > 0 && forall i :: 0 <= i < |p| - 1 ==> Step(g, k, p[i], p[i + 1])
  }

  ghost predicate Reaches(g: Graph, k: EdgeKind, a: nat, b: nat) {
    exists p :: IsPath(g, k, p) && p[0] == a && p[|p| - 1] == b
  }

  /** The states reachable from `a`. */
  ghost function ReachSet(g: Graph, k: EdgeKind, a: nat): set<nat> {
    set q: nat | q < |g| && Reaches(g, k, a, q)
  }

  /** No edge of kind `k` leaves `s`. */
  ghost predicate ClosedUnder(g: Graph, k: EdgeKind, s: set<nat>) {
    forall a, b :: a in s && Step(g, k, a, b) ==> b in s
  }

  lemma ReachesRefl(g: Graph, k: EdgeKind, a: nat)
    ensures Reaches(g, k, a, a)
  {
    assert IsPath(g, k, [a]);
  }

  lemma ReachesStep(g: Graph, k: EdgeKind, a: nat, b: nat, c: nat)
    requires Reaches(g, k, a, b) && Step(g, k, b, c)
    ensures Reaches(g, k, a, c)
  {
    var p :| IsPath(g, k, p) && p[0] == a && p[|p| - 1] == b;
    var p' := p + [c];
    assert IsPath(g, k, p');
  }

  lemma ReachesTrans(g: Graph, k: EdgeKind, a: nat, b: nat, c: nat)
    requires Reaches(g, k, a, b) && Reaches(g, k, b, c)
    ensures Reaches(g, k, a, c)
  {
    var p :| IsPath(g, k, p) && p[0] == a && p[|p| - 1] == b;
    var q :| IsPath(g, k, q) && q[0] == b && q[|q| - 1] == c;
    var pq := p + q[1..];
    forall i | 0 <= i < |pq| - 1
      ensures Step(g, k, pq[i], pq[i + 1])
    {
      if i < |p| - 1 {
        assert pq[i] == p[i] && pq[i + 1] == p[i + 1];
      } else {
        assert pq[i] == q[i - |p| + 1] && pq[i + 1] == q[i - |p| + 2];
      }
    }
    assert IsPath(g, k, pq);
  }

  /** A set that contains `a` and that no edge leaves holds everything `a` reaches. */
  lemma {:induction false} ClosedContainsReach(g: Graph, k: EdgeKind, s: set<nat>, a: nat, b: nat)
    requires a in s && ClosedUnder(g, k, s) && Reaches(g, k, a, b)
    ensures b in s
  {
    var p :| IsPath(g, k, p) && p[0] == a && p[|p| - 1] == b;
    var i := 0;
    while i < |p| - 1
      invariant 0 <= i < |p| && p[i] in s
    {
      assert Step(g, k, p[i], p[i + 1]);
      i := i + 1;
    }
  }

  /** In a well-formed arena everything reachable from a state of the arena is in the arena. */
  lemma ReachesInGraph(g: Graph, k: EdgeKind, a: nat, b: nat)
    requires WellFormed(g) && a < |g| && Reaches(g, k, a, b)
    ensures b < |g|
  {
    var p :| IsPath(g, k, p) && p[0] == a && p[|p| - 1] == b;
    if |p| > 1 {
      var i := |p| - 2;
      assert Step(g, k, p[i], p[i + 1]);
      var s :| b in Targets(g[p[i]].trans, s);
    }
  }

  /** `g2` keeps every state and every edge of `g` (it may add more). */
  ghost predicate Grows(g: Graph, g2: Graph) {
    |g| <= |g2| &&
    forall a, s, d :: 0 <= a < |g| && d in Targets(g[a].trans, s) ==> d in Targets(g2[a].trans, s)
  }

  /** Adding states and edges never removes a path. */
  lemma ReachesGrows(g: Graph, g2: Graph, k: EdgeKind, a: nat, b: nat)
    requires Grows(g, g2) && Reaches(g, k, a, b)
    ensures Reaches(g2, k, a, b)
  {
    var p :| IsPath(g, k, p) && p[0] == a && p[|p| - 1] == b;
    forall i | 0 <= i < |p| - 1
      ensures Step(g2, k, p[i], p[i + 1])
    {
      assert Step(g, k, p[i], p[i + 1]);
      if k == AnyEdge {
        var s :| p[i + 1] in Targets(g[p[i]].trans, s);
        assert p[i + 1] in Targets(g2[p[i]].trans, s);
      }
    }
    assert IsPath(g2, k, p);
  }

  // ---------------------------------------------------------------------------
  // obter_todos_estados and obter_transicoes
  // ---------------------------------------------------------------------------

  predicate Increasing(r: seq<nat>) {
    forall i, j :: 0 <= i < j < |r| ==> r[i] < r[j]
  }

  /** `sorted(s, key=id)` for a set of ids below `n`. */
  function SortById(s: set<nat>, n: nat): (r: seq<nat>)
    ensures Increasing(r)
    ensures forall q :: q in r <==> q in s && q < n
    ensures forall i :: 0 <= i < |r| ==> r[i] < n
  {
    if n == 0 then []
    else
      var init := SortById(s, n - 1);
      var r := init + (if n - 1 in s then [n - 1] else []);
      assert Increasing(r) by {
        forall i, j | 0 <= i < j < |r| ensures r[i] < r[j] {
          if j >= |init| {
            assert r[i] == init[i] && r[i] in init;
          }
        }
      }
      r
  }

  /** `obter_todos_estados`: a depth-first search with an explicit stack from
      the start state over edges of every symbol; the visited states, sorted by id. */
  method ReachableStates(g: Graph, start: nat) returns (r: seq<nat>)
    requires WellFormed(g) && start < |g|
    ensures r == SortById(ReachSet(g, AnyEdge, start), |g|)
    ensures Increasing(r)
    ensures forall q :: q in r <==> Reaches(g, AnyEdge, start, q)
  {
    var visited: set<nat> := {};
    var stack: seq<nat> := [start];
    ReachesRefl(g, AnyEdge, start);
    while stack != []
      invariant DfsInv(g, start, visited, stack)
      decreases (set q: nat | q < |g| && q !in visited), |stack|
    {
      var q := stack[|stack| - 1];
      ghost var before, visited0 := stack, visited;
      stack := stack[..|stack| - 1];
      if q in visited {
        DfsPop(g, start, visited, before);
        continue;
      }
      ghost var unvisited := set p: nat | p < |g| && p !in visited;
      visited := visited + {q};
      assert q in unvisited && q !in (set p: nat | p < |g| && p !in visited);
      stack := PushUnvisited(g[q].trans, visited, stack);
      DfsVisit(g, start, visited0, before, stack);
    }
    forall q | q in ReachSet(g, AnyEdge, start)
      ensures q in visited
    {
      ClosedContainsReach(g, AnyEdge, visited, start, q);
    }
    assert visited == ReachSet(g, AnyEdge, start);
    r := SortById(visited, |g|);
    forall q | Reaches(g, AnyEdge, start, q)
      ensures q in r
    {
      ReachesInGraph(g, AnyEdge, start, q);
    }
  }

  /** The loop invariant of `obter_todos_estados`: everything visited or on
      the stack is reachable from the start, the start is visited or on the
      stack, and an edge leaving a visited state leads to a visited state or
      to one on the stack. */
  ghost predicate DfsInv(g: Graph, start: nat, visited: set<nat>, stack: seq<nat>) {
    && (forall q :: q in visited ==> q < |g| && Reaches(g, AnyEdge, start, q))
    && (forall i :: 0 <= i < |stack| ==> stack[i] < |g| && Reaches(g, AnyEdge, start, stack[i]))
    && (start in visited || start in stack)
    && (forall a, b :: a in visited && Step(g, AnyEdge, a, b) ==> b in visited || b in stack)
  }

  /** Popping a state that is already visited keeps the invariant. */
  lemma DfsPop(g: Graph, start: nat, visited: set<nat>, stack: seq<nat>)
    requires DfsInv(g, start, visited, stack) && stack != [] && stack[|stack| - 1] in visited
    ensures DfsInv(g, start, visited, stack[..|stack| - 1])
  {
    var rest := stack[..|stack| - 1];
    assert forall b :: b in stack ==> b in rest || b == stack[|stack| - 1];
  }

  /** Visiting the popped state and pushing its unvisited targets keeps the
      invariant. */
  lemma DfsVisit(g: Graph, start: nat, visited0: set<nat>, before: seq<nat>, stack: seq<nat>)
    requires WellFormed(g) && DfsInv(g, start, visited0, before) && before != []
    requires var q := before[|before| - 1];
      var popped := before[..|before| - 1];
      var t := g[q].trans;
      && |popped| <= |stack| && stack[..|popped|] == popped
      && (forall m :: |popped| <= m < |stack| ==> exists i :: 0 <= i < |t| && stack[m] in t[i].targets)
      && (forall i, b :: 0 <= i < |t| && b in t[i].targets ==> b in visited0 + {q} || b in stack)
    ensures DfsInv(g, start, visited0 + {before[|before| - 1]}, stack)
  {
    var q := before[|before| - 1];
    var popped := before[..|before| - 1];
    assert forall b :: b in before ==> b in popped || b == q;
    PushedReach(g, start, q, popped, stack);
    assert forall b :: b in popped ==> b in stack;
    PushedCovers(g, q, visited0 + {q}, stack);
  }

  /** Once every target of `q`'s table is visited or on the stack, so is
      every state one step from `q`. */
  lemma PushedCovers(g: Graph, q: nat, visited: set<nat>, stack: seq<nat>)
    requires q < |g|
    requires forall i, b :: 0 <= i < |g[q].trans| && b in g[q].trans[i].targets ==> b in visited || b in stack
    ensures forall b :: Step(g, AnyEdge, q, b) ==> b in visited || b in stack
  {
    var t := g[q].trans;
    forall b | Step(g, AnyEdge, q, b)
      ensures b in visited || b in stack
    {
      var s :| b in Targets(t, s);
      TargetsLookup(t, s);
      var m :| 0 <= m < |t| && t[m].sym == s && Targets(t, s) == t[m].targets;
    }
  }

  /** What the search pushes after visiting `q` is one step from `q`, so
      reachable from the start too. */
  lemma PushedReach(g: Graph, start: nat, q: nat, popped: seq<nat>, stack: seq<nat>)
    requires WellFormed(g) && q < |g| && Reaches(g, AnyEdge, start, q)
    requires |popped| <= |stack|
    requires forall m :: |popped| <= m < |stack| ==>
      exists i :: 0 <= i < |g[q].trans| && stack[m] in g[q].trans[i].targets
    ensures forall m :: |popped| <= m < |stack| ==> stack[m] < |g| && Reaches(g, AnyEdge, start, stack[m])
  {
    var t := g[q].trans;
    forall m | |popped| <= m < |stack|
      ensures stack[m] < |g| && Reaches(g, AnyEdge, start, stack[m])
    {
      var i :| 0 <= i < |t| && stack[m] in t[i].targets;
      TargetsLookup(t, t[i].sym);
      assert stack[m] in Targets(t, t[i].sym);
      assert Step(g, AnyEdge, q, stack[m]);
      ReachesStep(g, AnyEdge, start, q, stack[m]);
    }
  }

  /** The members of `ds` that are not in `visited`, in list order. */
  function Unvisited(ds: seq<nat>, visited: set<nat>): seq<nat> {
    if ds == [] then []
    else Unvisited(ds[..|ds| - 1], visited) + (if ds[|ds| - 1] in visited then [] else [ds[|ds| - 1]])
  }

  /** What the inner loops push for a table: key by key in insertion order,
      the unvisited targets of each key in list order. */
  function Pushed(t: seq<Entry>, visited: set<nat>): seq<nat> {
    if t == [] then []
    else Pushed(t[..|t| - 1], visited) + Unvisited(t[|t| - 1].targets, visited)
  }

  /** A target is kept exactly when it is in the list and not visited. */
  lemma {:induction false} UnvisitedMember(ds: seq<nat>, visited: set<nat>, x: nat)
    ensures x in Unvisited(ds, visited) <==> x in ds && x !in visited
  {
    if ds != [] {
      UnvisitedMember(ds[..|ds| - 1], visited, x);
      assert ds == ds[..|ds| - 1] + [ds[|ds| - 1]];
    }
  }

  /** A state is pushed exactly when it is a target of some key and not visited. */
  lemma {:induction false} PushedMember(t: seq<Entry>, visited: set<nat>, x: nat)
    ensures x in Pushed(t, visited) <==> x !in visited && exists i :: 0 <= i < |t| && x in t[i].targets
  {
    if t != [] {
      var init := t[..|t| - 1];
      PushedMember(init, visited, x);
      UnvisitedMember(t[|t| - 1].targets, visited, x);
      if x !in visited && exists i :: 0 <= i < |t| && x in t[i].targets {
        var i :| 0 <= i < |t| && x in t[i].targets;
        if i < |t| - 1 {
          assert init[i] == t[i];
        }
      }
      if x in Pushed(init, visited) {
        var i :| 0 <= i < |init| && x in init[i].targets;
        assert t[i] == init[i];
      }
    }
  }

  /** The inner loops of `obter_todos_estados`: every target of every key of
      the table that is not yet visited is pushed, in table order. */
  method PushUnvisited(t: seq<Entry>, visited: set<nat>, stack: seq<nat>) returns (stack2: seq<nat>)
    ensures stack2 == stack + Pushed(t, visited)
    ensures |stack| <= |stack2| && stack2[..|stack|] == stack
    ensures forall m :: |stack| <= m < |stack2| ==>
      stack2[m] !in visited && exists i :: 0 <= i < |t| && stack2[m] in t[i].targets
    ensures forall i, b :: 0 <= i < |t| && b in t[i].targets ==> b in visited || b in stack2
  {
    stack2 := stack;
    var i := 0;
    while i < |t|
      invariant 0 <= i <= |t|
      invariant stack2 == stack + Pushed(t[..i], visited)
    {
      stack2 := PushTargets(t[i].targets, visited, stack2);
      assert t[..i + 1][..i] == t[..i];
      i := i + 1;
    }
    assert t[..i] == t;
    PushedFacts(t, visited, stack, stack2);
  }

  /** The innermost loop of `obter_todos_estados`: the targets of one key
      that are not yet visited are pushed, in list order. */
  method PushTargets(dests: seq<nat>, visited: set<nat>, stack: seq<nat>) returns (stack2: seq<nat>)
    ensures stack2 == stack + Unvisited(dests, visited)
  {
    stack2 := stack;
    var j := 0;
    while j < |dests|
      invariant 0 <= j <= |dests|
      invariant stack2 == stack + Unvisited(dests[..j], visited)
    {
      assert dests[..j + 1][..j] == dests[..j];
      if dests[j] !in visited {
        stack2 := stack2 + [dests[j]];
      }
      j := j + 1;
    }
    assert dests[..j] == dests;
  }

  /** What a stack grown by `Pushed` holds: the old stack first, then
      unvisited targets of the table, and every target of the table is
      visited or on it. */
  lemma PushedFacts(t: seq<Entry>, visited: set<nat>, stack: seq<nat>, stack2: seq<nat>)
    requires stack2 == stack + Pushed(t, visited)
    ensures |stack| <= |stack2| && stack2[..|stack|] == stack
    ensures forall m :: |stack| <= m < |stack2| ==>
      stack2[m] !in visited && exists i :: 0 <= i < |t| && stack2[m] in t[i].targets
    ensures forall i, b :: 0 <= i < |t| && b in t[i].targets ==> b in visited || b in stack2
  {
    var p := Pushed(t, visited);
    forall m | |stack| <= m < |stack2|
      ensures stack2[m] !in visited && exists i :: 0 <= i < |t| && stack2[m] in t[i].targets
    {
      assert stack2[m] == p[m - |stack|];
      PushedMember(t, visited, stack2[m]);
    }
    forall i, b | 0 <= i < |t| && b in t[i].targets
      ensures b in visited || b in stack2
    {
      PushedMember(t, visited, b);
    }
  }

  /** The listing of one key's targets, in list order. */
  function EntryListing(q: nat, sym: Symbol, ds: seq<nat>): (r: seq<Transition>)
    ensures |r| == |ds|
    ensures forall i :: 0 <= i < |ds| ==> r[i] == Transition(q, sym, ds[i])
  {
    if ds == [] then []
    else EntryListing(q, sym, ds[..|ds| - 1]) + [Transition(q, sym, ds[|ds| - 1])]
  }

  /** The listing of one state's table, key by key in insertion order. */
  function StateListing(q: nat, t: seq<Entry>): (r: seq<Transition>)
    ensures forall x :: x in r ==> x.src == q
  {
    if t == [] then []
    else StateListing(q, t[..|t| - 1]) + EntryListing(q, t[|t| - 1].sym, t[|t| - 1].targets)
  }

  /** The listing of the given states, state by state. */
  function Listing(g: Graph, qs: seq<nat>): (r: seq<Transition>)
    requires forall i :: 0 <= i < |qs| ==> qs[i] < |g|
  {
    if qs == [] then []
    else Listing(g, qs[..|qs| - 1]) + StateListing(qs[|qs| - 1], g[qs[|qs| - 1]].trans)
  }

  /** `obter_transicoes`: one line per target of every key of every reachable state. */
  method Transitions(g: Graph, start: nat) returns (ts: seq<Transition>)
    requires WellFormed(g) && start < |g|
    ensures ts == Listing(g, SortById(ReachSet(g, AnyEdge, start), |g|))
  {
    var qs := ReachableStates(g, start);
    ts := [];
    var k := 0;
    while k < |qs|
      invariant 0 <= k <= |qs|
      invariant forall i :: 0 <= i < |qs| ==> qs[i] < |g|
      invariant ts == Listing(g, qs[..k])
    {
      ListingExtend(g, qs, k);
      ts := AppendStateListing(ts, qs[k], g[qs[k]].trans);
      k := k + 1;
    }
    assert qs[..k] == qs;
  }

  /** Listing one more state appends that state's lines. */
  lemma ListingExtend(g: Graph, qs: seq<nat>, k: nat)
    requires k < |qs| && forall i :: 0 <= i < |qs| ==> qs[i] < |g|
    ensures Listing(g, qs[..k + 1]) == Listing(g, qs[..k]) + StateListing(qs[k], g[qs[k]].trans)
  {
    assert qs[..k + 1][..k] == qs[..k];
  }

  /** The two inner loops of `obter_transicoes`: the lines of one state. */
  method AppendStateListing(ts: seq<Transition>, q: nat, t: seq<Entry>) returns (ts2: seq<Transition>)
    ensures ts2 == ts + StateListing(q, t)
  {
    ts2 := ts;
    var i := 0;
    while i < |t|
      invariant 0 <= i <= |t|
      invariant ts2 == ts + StateListing(q, t[..i])
    {
      ts2 := AppendEntryListing(ts2, q, t[i].sym, t[i].targets);
      assert t[..i + 1][..i] == t[..i];
      i := i + 1;
    }
    assert t[..i] == t;
  }

  /** The innermost loop of `obter_transicoes`: one line per target of one
      key, in list order. */
  method AppendEntryListing(ts: seq<Transition>, q: nat, sym: Symbol, ds: seq<nat>) returns (ts2: seq<Transition>)
    ensures ts2 == ts + EntryListing(q, sym, ds)
  {
    ts2 := ts;
    var j := 0;
    while j < |ds|
      invariant 0 <= j <= |ds|
      invariant ts2 == ts + EntryListing(q, sym, ds[..j])
    {
      ts2 := ts2 + [Transition(q, sym, ds[j])];
      assert ds[..j + 1][..j] == ds[..j];
      j := j + 1;
    }
    assert ds[..j] == ds;
  }

  /** A line is listed exactly when its source is one of the listed states
      and its target is in that state's list for its label. */
  lemma {:induction false} ListingMember(g: Graph, qs: seq<nat>, x: Transition)
    requires WellFormed(g) && forall i :: 0 <= i < |qs| ==> qs[i] < |g|
    ensures x in Listing(g, qs) <==> x.src in qs && x.dst in Targets(g[x.src].trans, x.sym)
  {
    if qs != [] {
      var init := qs[..|qs| - 1];
      var q := qs[|qs| - 1];
      ListingMember(g, init, x);
      assert x.src in qs <==> x.src in init || x.src == q;
      if x.src == q {
        StateListingMember(q, g[q].trans, x);
      } else {
        assert x !in StateListing(q, g[q].trans);
      }
    }
  }

  lemma {:induction false} StateListingMember(q: nat, t: seq<Entry>, x: Transition)
    requires DistinctKeys(t) && x.src == q
    ensures x in StateListing(q, t) <==> x.dst in Targets(t, x.sym)
  {
    if t != [] {
      var init := t[..|t| - 1];
      var e := t[|t| - 1];
      assert DistinctKeys(init);
      StateListingMember(q, init, x);
      if e.sym == x.sym {
        assert forall i :: 0 <= i < |init| ==> init[i].sym != x.sym;
        TargetsLookup(init, x.sym);
        TargetsLookup(t, x.sym);
        assert Targets(init, x.sym) == [];
        assert Targets(t, x.sym) == e.targets;
        assert x in EntryListing(q, e.sym, e.targets) <==> x.dst in e.targets by {
          if x.dst in e.targets {
            var i :| 0 <= i < |e.targets| && e.targets[i] == x.dst;
            assert EntryListing(q, e.sym, e.targets)[i] == x;
          }
        }
      } else {
        assert x !in EntryListing(q, e.sym, e.targets);
        TargetsOfPrefix(t, x.sym);
      }
    }
  }

  /** Dropping the last key of a table leaves the lists of other keys alone. */
  lemma {:induction false} TargetsOfPrefix(t: seq<Entry>, s: Symbol)
    requires t != [] && t[|t| - 1].sym != s
    ensures Targets(t[..|t| - 1], s) == Targets(t, s)
  {
    if t[0].sym != s && |t| > 1 {
      assert t[1..][..|t[1..]| - 1] == t[..|t| - 1][1..];
      TargetsOfPrefix(t[1..], s);
    }
  }

  /** The lines appear in non-decreasing order of their source state. */
  predicate GroupedBySource(ts: seq<Transition>) {
    forall i, j :: 0 <= i < j < |ts| ==> ts[i].src <= ts[j].src
  }

  /** Listing the states in increasing id order groups the lines by source in increasing order. */
  lemma {:induction false} ListingGrouped(g: Graph, qs: seq<nat>)
    requires forall i :: 0 <= i < |qs| ==> qs[i] < |g|
    requires Increasing(qs)
    ensures GroupedBySource(Listing(g, qs))
    ensures forall x :: x in Listing(g, qs) ==> x.src in qs
  {
    if qs != [] {
      var init := qs[..|qs| - 1];
      var q := qs[|qs| - 1];
      ListingGrouped(g, init);
      var a := Listing(g, init);
      var b := StateListing(q, g[q].trans);
      assert forall x :: x in a ==> x.src < q by {
        forall x | x in a ensures x.src < q {
          var m :| 0 <= m < |init| && init[m] == x.src;
          assert qs[m] < qs[|qs| - 1];
        }
      }
      var ts := a + b;
      assert ts == Listing(g, qs);
      assert GroupedBySource(a);
      forall i, j | 0 <= i < j < |ts| ensures ts[i].src <= ts[j].src {
        if j < |a| {
          assert ts[i] == a[i] && ts[j] == a[j];
        } else if i < |a| {
          assert ts[i] == a[i] && ts[j] == b[j - |a|];
          assert ts[i] in a && ts[j] in b;
        } else {
          assert ts[i] == b[i - |a|] && ts[j] == b[j - |a|];
          assert ts[i] in b && ts[j] in b;
        }
      }
    }
  }
}
