/** Regular expression to epsilon-NFA (conversor.py): a recursive-descent
    parser with one character of lookahead over a cursor, which builds
    Thompson fragments bottom-up in one shared arena of states.

    Grammar, as the parser reads it:
      expr   := term ('|' expr)?
      term   := factor term?      (while the next character is not '|', ')' or the end)
      factor := base '*'?
      base   := '(' expr <any character> | <any character> */
module Conversor {
  import opened Afn

  /** The parse tree the parser walks. `Group` records a parenthesised
      sub-expression so that the tree prints back to its input. */
  datatype Regex =
    | Literal(c: char)
    | Concat(left: Regex, right: Regex)
    | Union(left: Regex, right: Regex)
    | Star(body: Regex)
    | Group(body: Regex)

  /** Where the source would read past the end of the expression (and go on
      with `None`), the model stops with `UnexpectedEnd` at that position;
      input left over after the top-level expression is `TrailingInput`. */
  datatype ParseError = UnexpectedEnd(pos: nat) | TrailingInput(pos: nat)

  datatype Result<T> = Ok(value: T) | Err(error: ParseError)

  datatype Option<T> = None | Some(value: T)

  // ---------------------------------------------------------------------------
  // The parser, as functions of (expression, cursor)
  // ---------------------------------------------------------------------------

  /** `_expressao`: a term, then, on '|', the rest of the expression. */
  function ParseExpr(s: string, pos: nat): (r: Result<(Regex, nat)>)
    requires pos <= |s|
    ensures r.Ok? ==> pos < r.value.1 <= |s|
    ensures r.Err? ==> r.error == UnexpectedEnd(|s|)
    decreases |s| - pos, 3
  {
    match ParseTerm(s, pos)
    case Err(e) => Err(e)
    case Ok((t, p)) =>
      if p < |s| && s[p] == '|' then
        match ParseExpr(s, p + 1)
        case Err(e) => Err(e)
        case Ok((u, q)) => Ok((Union(t, u), q))
      else Ok((t, p))
  }

  /** `_termo`: a factor, then, unless the next character is '|', ')' or
      the end, the rest of the term. */
  function ParseTerm(s: string, pos: nat): (r: Result<(Regex, nat)>)
    requires pos <= |s|
    ensures r.Ok? ==> pos < r.value.1 <= |s|
    ensures r.Err? ==> r.error == UnexpectedEnd(|s|)
    decreases |s| - pos, 2
  {
    match ParseFactor(s, pos)
    case Err(e) => Err(e)
    case Ok((f, p)) =>
      if p < |s| && s[p] != '|' && s[p] != ')' then
        match ParseTerm(s, p)
        case Err(e) => Err(e)
        case Ok((u, q)) => Ok((Concat(f, u), q))
      else Ok((f, p))
  }

  /** `_fator`: a base, then an optional '*'. */
  function ParseFactor(s: string, pos: nat): (r: Result<(Regex, nat)>)
    requires pos <= |s|
    ensures r.Ok? ==> pos < r.value.1 <= |s|
    ensures r.Err? ==> r.error == UnexpectedEnd(|s|)
    decreases |s| - pos, 1
  {
    match ParseBase(s, pos)
    case Err(e) => Err(e)
    case Ok((b, p)) =>
      if p < |s| && s[p] == '*' then Ok((Star(b), p + 1)) else Ok((b, p))
  }

  /** `_base`: '(' opens a group whose closing character is consumed
      unchecked; any other character is a literal symbol. */
  function ParseBase(s: string, pos: nat): (r: Result<(Regex, nat)>)
    requires pos <= |s|
    ensures r.Ok? ==> pos < r.value.1 <= |s|
    ensures r.Err? ==> r.error == UnexpectedEnd(|s|)
    decreases |s| - pos, 0
  {
    if pos < |s| && s[pos] == '(' then
      match ParseExpr(s, pos + 1)
      case Err(e) => Err(e)
      case Ok((e, p)) => if p < |s| then Ok((Group(e), p + 1)) else Err(UnexpectedEnd(p))
    else if pos < |s| then Ok((Literal(s[pos]), pos + 1))
    else Err(UnexpectedEnd(pos))
  }

  /** `converter` from cursor `pos`: one expression, which must use up the input. */
  function ParseFrom(s: string, pos: nat): Result<Regex>
    requires pos <= |s|
  {
    match ParseExpr(s, pos)
    case Err(e) => Err(e)
    case Ok((re, p)) => if p == |s| then Ok(re) else Err(TrailingInput(p))
  }

  function Parse(s: string): Result<Regex> {
    ParseFrom(s, 0)
  }

  // ---------------------------------------------------------------------------
  // Printing a tree back, and what the parser's positions mean
  // ---------------------------------------------------------------------------

  function Print(re: Regex): string {
    match re
    case Literal(c) => [c]
    case Concat(l, r) => Print(l) + Print(r)
    case Union(l, r) => Print(l) + "|" + Print(r)
    case Star(b) => Print(b) + "*"
    case Group(b) => "(" + Print(b) + ")"
  }

  /** Symbols, '|' and '*' of the tree: the operations that allocate two states each. */
  function Ops(re: Regex): nat {
    match re
    case Literal(_) => 1
    case Concat(l, r) => Ops(l) + Ops(r)
    case Union(l, r) => 1 + Ops(l) + Ops(r)
    case Star(b) => 1 + Ops(b)
    case Group(b) => Ops(b)
  }

  /** Parenthesised groups of the tree. */
  function Groups(re: Regex): nat {
    match re
    case Literal(_) => 0
    case Concat(l, r) => Groups(l) + Groups(r)
    case Union(l, r) => Groups(l) + Groups(r)
    case Star(b) => Groups(b)
    case Group(b) => 1 + Groups(b)
  }

  /** Every character of the printed form is an operation or a parenthesis. */
  lemma {:induction false} PrintLength(re: Regex)
    ensures |Print(re)| == Ops(re) + 2 * Groups(re)
  {
    match re
    case Literal(_) =>
    case Concat(l, r) => PrintLength(l); PrintLength(r);
    case Union(l, r) => PrintLength(l); PrintLength(r);
    case Star(b) => PrintLength(b);
    case Group(b) => PrintLength(b);
  }

  /** What each parsing function consumes is exactly the printed form of
      the tree it returns: the parser loses and invents nothing. */
  lemma {:induction false} ExprPrints(s: string, pos: nat)
    requires pos <= |s| && ParseExpr(s, pos).Ok?
    ensures Print(ParseExpr(s, pos).value.0) == s[pos..ParseExpr(s, pos).value.1]
    decreases |s| - pos, 3
  {
    TermPrints(s, pos);
    var (t, p) := ParseTerm(s, pos).value;
    if p < |s| && s[p] == '|' {
      ExprPrints(s, p + 1);
      var (u, q) := ParseExpr(s, p + 1).value;
      assert s[pos..q] == s[pos..p] + [s[p]] + s[p + 1..q];
    }
  }

  lemma {:induction false} TermPrints(s: string, pos: nat)
    requires pos <= |s| && ParseTerm(s, pos).Ok?
    ensures Print(ParseTerm(s, pos).value.0) == s[pos..ParseTerm(s, pos).value.1]
    decreases |s| - pos, 2
  {
    FactorPrints(s, pos);
    var (f, p) := ParseFactor(s, pos).value;
    if p < |s| && s[p] != '|' && s[p] != ')' {
      TermPrints(s, p);
      var (u, q) := ParseTerm(s, p).value;
      assert s[pos..q] == s[pos..p] + s[p..q];
    }
  }

  lemma {:induction false} FactorPrints(s: string, pos: nat)
    requires pos <= |s| && ParseFactor(s, pos).Ok?
    ensures Print(ParseFactor(s, pos).value.0) == s[pos..ParseFactor(s, pos).value.1]
    decreases |s| - pos, 1
  {
    BasePrints(s, pos);
    var (b, p) := ParseBase(s, pos).value;
    if p < |s| && s[p] == '*' {
      assert s[pos..p + 1] == s[pos..p] + [s[p]];
    }
  }

  lemma {:induction false} BasePrints(s: string, pos: nat)
    requires pos <= |s| && ParseBase(s, pos).Ok?
    ensures Print(ParseBase(s, pos).value.0) == s[pos..ParseBase(s, pos).value.1]
    decreases |s| - pos, 0
  {
    if pos < |s| && s[pos] == '(' {
      ExprPrints(s, pos + 1);
      ExprStops(s, pos + 1);
      var (e, p) := ParseExpr(s, pos + 1).value;
      assert s[pos..p + 1] == [s[pos]] + s[pos + 1..p] + [s[p]];
    }
  }

  /** An expression ends at ')' or at the end of the input, so the
      character a group consumes unchecked is always its ')'. */
  lemma {:induction false} ExprStops(s: string, pos: nat)
    requires pos <= |s| && ParseExpr(s, pos).Ok?
    ensures var p := ParseExpr(s, pos).value.1; p == |s| || s[p] == ')'
    decreases |s| - pos
  {
    TermStops(s, pos);
    var p := ParseTerm(s, pos).value.1;
    if p < |s| && s[p] == '|' {
      ExprStops(s, p + 1);
    }
  }

  /** A term ends at '|', ')' or the end of the input. */
  lemma {:induction false} TermStops(s: string, pos: nat)
    requires pos <= |s| && ParseTerm(s, pos).Ok?
    ensures var p := ParseTerm(s, pos).value.1; p == |s| || s[p] == '|' || s[p] == ')'
    decreases |s| - pos
  {
    var p := ParseFactor(s, pos).value.1;
    if p < |s| && s[p] != '|' && s[p] != ')' {
      TermStops(s, p);
    }
  }

  /** A successful parse reproduces the whole input when printed back, and
      the construction allocates two states per symbol, '|' and '*' of it. */
  lemma ParsePrints(s: string, re: Regex)
    requires Parse(s) == Ok(re)
    ensures Print(re) == s
    ensures |s| == Ops(re) + 2 * Groups(re)
  {
    ExprPrints(s, 0);
    PrintLength(re);
  }

  /** The parser fails in exactly two ways: it runs into the end of the
      input, or the top-level expression stops at an unmatched ')'. */
  lemma ParseFails(s: string)
    requires Parse(s).Err?
    ensures Parse(s).error == UnexpectedEnd(|s|) ||
      (Parse(s).error.TrailingInput? && Parse(s).error.pos < |s| && s[Parse(s).error.pos] == ')')
  {
    if ParseExpr(s, 0).Ok? {
      ExprStops(s, 0);
    }
  }

  // ---------------------------------------------------------------------------
  // The Thompson combinators, as functions of the arena
  // ---------------------------------------------------------------------------

  /** One in-place step of a combinator: allocate a state, add an edge, or
      set a final flag. A step naming a state outside the arena does nothing. */
  datatype Op = Alloc | Link(src: nat, sym: Symbol, dst: nat) | Mark(q: nat, flag: bool)

  function Apply(g: Graph, op: Op): Graph {
    match op
    case Alloc => WithNewState(g)
    case Link(q, sym, d) => if q < |g| then WithEdge(g, q, sym, d) else g
    case Mark(q, b) => if q < |g| then WithFlag(g, q, b) else g
  }

  /** A straight-line program of steps. */
  datatype Prog = Done | Then(op: Op, rest: Prog)

  /** The arena after running a program. */
  function Run(g: Graph, p: Prog): Graph
    decreases p
  {
    match p
    case Done => g
    case Then(op, rest) => Run(Apply(g, op), rest)
  }

  /** `_simbolo`: two new states, one edge on the symbol between them, the second final. */
  function SymbolOps(n: nat, sym: Symbol): Prog {
    Then(Alloc, Then(Alloc, Then(Link(n, sym, n + 1), Then(Mark(n + 1, true), Done))))
  }

  /** `_concatenacao`: the first fragment's final state loses its flag and
      gets an epsilon edge to the second fragment's start. */
  function ConcatOps(f1: Fragment, f2: Fragment): Prog {
    Then(Mark(f1.final, false), Then(Link(f1.final, Epsilon, f2.start), Then(Mark(f2.final, true), Done)))
  }

  /** `_uniao`: a new start with epsilon edges to both starts, both old
      finals unflagged and joined by epsilon edges to a new final. */
  function UnionOps(n: nat, f1: Fragment, f2: Fragment): Prog {
    Then(Alloc, Then(Alloc,
    Then(Link(n, Epsilon, f1.start), Then(Link(n, Epsilon, f2.start),
    Then(Mark(f1.final, false), Then(Mark(f2.final, false),
    Then(Link(f1.final, Epsilon, n + 1), Then(Link(f2.final, Epsilon, n + 1),
    Then(Mark(n + 1, true), Done)))))))))
  }

  /** `_fechamento`: a new start with epsilon edges to the old start and to
      a new final; the old final unflagged, looping back to the old start
      and on to the new final. */
  function StarOps(n: nat, f: Fragment): Prog {
    Then(Alloc, Then(Alloc,
    Then(Link(n, Epsilon, f.start), Then(Link(n, Epsilon, n + 1),
    Then(Mark(f.final, false),
    Then(Link(f.final, Epsilon, f.start), Then(Link(f.final, Epsilon, n + 1),
    Then(Mark(n + 1, true), Done))))))))
  }

  /** Running a program is running its first step, then the rest, for each kind of step. */
  lemma RunAlloc(g: Graph, rest: Prog)
    ensures Run(g, Then(Alloc, rest)) == Run(WithNewState(g), rest)
  {
  }

  lemma RunLink(g: Graph, q: nat, sym: Symbol, d: nat, rest: Prog)
    requires q < |g|
    ensures Run(g, Then(Link(q, sym, d), rest)) == Run(WithEdge(g, q, sym, d), rest)
  {
  }

  lemma RunMark(g: Graph, q: nat, b: bool, rest: Prog)
    requires q < |g|
    ensures Run(g, Then(Mark(q, b), rest)) == Run(WithFlag(g, q, b), rest)
  {
  }

  // What a program does to one state, read off the program alone

  /** The number of states a program allocates. */
  function Allocs(p: Prog): nat {
    match p
    case Done => 0
    case Then(op, rest) => (if op.Alloc? then 1 else 0) + Allocs(rest)
  }

  /** The final flag of state `q` after running `p` on an arena of `len`
      states in which that flag is `b`. */
  function FlagAfter(p: Prog, len: nat, q: nat, b: bool): bool {
    match p
    case Done => b
    case Then(op, rest) =>
      FlagAfter(rest, NextLen(op, len), q, if op.Mark? && op.q == q && q < len then op.flag else b)
  }

  /** The targets that running `p` on an arena of `len` states appends to
      the list of `q` on `sym`, in order. */
  function LinksOf(p: Prog, len: nat, q: nat, sym: Symbol): seq<nat> {
    match p
    case Done => []
    case Then(op, rest) => StepLinks(op, len, q, sym) + LinksOf(rest, NextLen(op, len), q, sym)
  }

  /** The size of the arena after one step. */
  function NextLen(op: Op, len: nat): nat {
    if op.Alloc? then len + 1 else len
  }

  /** The target one step links to the list of `q` on `sym`, if any. */
  function StepLinks(op: Op, len: nat, q: nat, sym: Symbol): seq<nat> {
    if op.Link? && op.src == q && op.sym == sym && q < len then [op.dst] else []
  }

  /** A run adds one state per `Alloc`. */
  lemma {:induction false} RunLength(g: Graph, p: Prog)
    ensures |Run(g, p)| == |g| + Allocs(p)
    decreases p
  {
    if p.Then? {
      RunLength(Apply(g, p.op), p.rest);
    }
  }

  /** The final flag of `q`, false for a state not (yet) allocated. */
  function FlagOf(g: Graph, q: nat): bool {
    q < |g| && g[q].isFinal
  }

  /** A state's final flag after a run is the program's last word on it;
      new states start unflagged. */
  lemma {:induction false} RunFlag(g: Graph, p: Prog, q: nat)
    ensures FlagOf(Run(g, p), q) == FlagAfter(p, |g|, q, FlagOf(g, q))
    decreases p
  {
    match p
    case Done =>
    case Then(op, rest) =>
      assert |Apply(g, op)| == NextLen(op, |g|);
      RunFlag(Apply(g, op), rest, q);
  }

  /** The list of `q` on `sym`, empty for a state not (yet) allocated. */
  function ListOf(g: Graph, q: nat, sym: Symbol): seq<nat> {
    if q < |g| then Targets(g[q].trans, sym) else []
  }

  /** A state's list on `sym` after a run is its old list (empty for a new
      state) followed by the targets the program links to it, in order. */
  lemma {:induction false} RunTargets(g: Graph, p: Prog, q: nat, sym: Symbol)
    ensures ListOf(Run(g, p), q, sym) == ListOf(g, q, sym) + LinksOf(p, |g|, q, sym)
    decreases p
  {
    match p
    case Done =>
    case Then(op, rest) =>
      ApplyTargets(g, op, q, sym);
      RunTargets(Apply(g, op), rest, q, sym);
      AppendAssoc(ListOf(g, q, sym), StepLinks(op, |g|, q, sym), LinksOf(rest, NextLen(op, |g|), q, sym));
  }

  lemma AppendAssoc(x: seq<nat>, y: seq<nat>, z: seq<nat>)
    ensures (x + y) + z == x + (y + z)
  {
  }

  /** One step appends to the list of `q` on `sym` what `StepLinks` says. */
  lemma ApplyTargets(g: Graph, op: Op, q: nat, sym: Symbol)
    ensures |Apply(g, op)| == NextLen(op, |g|)
    ensures ListOf(Apply(g, op), q, sym) == ListOf(g, q, sym) + StepLinks(op, |g|, q, sym)
  {
    if op.Link? && op.src < |g| {
      AddEdgeTargets(g[op.src].trans, op.sym, op.dst, sym);
    }
  }

  // What each combinator does, per state

  /** `_simbolo`, `_uniao` and `_fechamento` allocate two states each;
      `_concatenacao` allocates none. */
  lemma Allocations(n: nat, sym: Symbol, f1: Fragment, f2: Fragment)
    ensures Allocs(SymbolOps(n, sym)) == 2 && Allocs(ConcatOps(f1, f2)) == 0
    ensures Allocs(UnionOps(n, f1, f2)) == 2 && Allocs(StarOps(n, f1)) == 2
  {
    var e := Epsilon;
    var m := Then(Mark(n + 1, true), Done);
    assert Allocs(m) == 0;
    var u := Then(Link(f2.final, e, n + 1), m);
    assert Allocs(u) == 0;
    var u2 := Then(Mark(f2.final, false), Then(Link(f1.final, e, n + 1), u));
    assert Allocs(u2) == 0;
    var u4 := Then(Link(n, e, f2.start), Then(Mark(f1.final, false), u2));
    assert Allocs(u4) == 0;
    assert Allocs(Then(Link(n, e, f1.start), u4)) == 0;
    var t := Then(Link(f1.final, e, n + 1), m);
    assert Allocs(t) == 0;
    var t2 := Then(Mark(f1.final, false), Then(Link(f1.final, e, f1.start), t));
    assert Allocs(t2) == 0;
    assert Allocs(Then(Link(n, e, f1.start), Then(Link(n, e, n + 1), t2))) == 0;
    assert Allocs(Then(Link(n, sym, n + 1), m)) == 0;
    assert Allocs(Then(Link(f1.final, e, f2.start), Then(Mark(f2.final, true), Done))) == 0;

  }

  /** `_simbolo` allocates two states and links the first to the second on
      the symbol; the second becomes final. */
  lemma SymbolShape(n: nat, sym: Symbol, q: nat, s: Symbol, b: bool)
    ensures FlagAfter(SymbolOps(n, sym), n, q, b) == (q == n + 1 || b)
    ensures LinksOf(SymbolOps(n, sym), n, q, s) == if q == n && s == sym then [n + 1] else []
  {
    var p3 := Then(Mark(n + 1, true), Done);
    var p2 := Then(Link(n, sym, n + 1), p3);
    assert LinksOf(p3, n + 2, q, s) == [] + LinksOf(Done, n + 2, q, s);
    assert FlagAfter(p3, n + 2, q, b) == (q == n + 1 || b) && LinksOf(p3, n + 2, q, s) == [];
    assert FlagAfter(p2, n + 2, q, b) == (q == n + 1 || b);
    assert LinksOf(p2, n + 2, q, s) == if q == n && s == sym then [n + 1] else [];
  }

  /** `_concatenacao` allocates nothing, unflags the first final state and
      links it to the second start; the second final stays final. */
  lemma ConcatShape(f1: Fragment, f2: Fragment, len: nat, q: nat, s: Symbol, b: bool)
    requires f1.final < len && f2.final < len
    ensures FlagAfter(ConcatOps(f1, f2), len, q, b) ==
      if q == f2.final then true else if q == f1.final then false else b
    ensures LinksOf(ConcatOps(f1, f2), len, q, s) ==
      if q == f1.final && s == Epsilon then [f2.start] else []
  {
    var p2 := Then(Mark(f2.final, true), Done);
    var p1 := Then(Link(f1.final, Epsilon, f2.start), p2);
    var b' := if q == f1.final then false else b;
    assert LinksOf(p2, len, q, s) == [] + LinksOf(Done, len, q, s);
    assert FlagAfter(p2, len, q, b') == (q == f2.final || b') && LinksOf(p2, len, q, s) == [];
    assert LinksOf(p1, len, q, s) == (if q == f1.final && s == Epsilon then [f2.start] else []) + LinksOf(p2, len, q, s);
    assert FlagAfter(ConcatOps(f1, f2), len, q, b) == FlagAfter(p1, len, q, b');
    assert LinksOf(ConcatOps(f1, f2), len, q, s) == [] + LinksOf(p1, len, q, s);
  }

  /** `_uniao` allocates two states; the first links to both starts, both
      old finals are unflagged and linked to the second, which is final. */
  lemma UnionFlags(n: nat, f1: Fragment, f2: Fragment, q: nat, b: bool)
    requires f1.final < n && f2.final < n
    ensures FlagAfter(UnionOps(n, f1, f2), n, q, b) ==
      if q == n + 1 then true else if q == f1.final || q == f2.final then false else b
  {
    var e := Epsilon;
    var p6 := Then(Link(f1.final, e, n + 1), Then(Link(f2.final, e, n + 1), Then(Mark(n + 1, true), Done)));
    var p4 := Then(Mark(f1.final, false), Then(Mark(f2.final, false), p6));
    var p2 := Then(Link(n, e, f1.start), Then(Link(n, e, f2.start), p4));
    var b2 := if q == f1.final || q == f2.final then false else b;
    assert FlagAfter(Then(Mark(n + 1, true), Done), n + 2, q, b2) == (q == n + 1 || b2);
    assert FlagAfter(p6, n + 2, q, b2) == (q == n + 1 || b2);
    assert FlagAfter(p4, n + 2, q, b) == FlagAfter(p6, n + 2, q, b2);
    assert FlagAfter(p2, n + 2, q, b) == FlagAfter(p4, n + 2, q, b);
  }

  lemma UnionLinks(n: nat, f1: Fragment, f2: Fragment, q: nat, s: Symbol)
    requires f1.final < n && f2.final < n
    ensures LinksOf(UnionOps(n, f1, f2), n, q, s) ==
      (if q == n && s == Epsilon then [f1.start, f2.start] else []) +
      (if q == f1.final && s == Epsilon then [n + 1] else []) +
      (if q == f2.final && s == Epsilon then [n + 1] else [])
  {
    var e := Epsilon;
    var p8 := Then(Mark(n + 1, true), Done);
    var p7 := Then(Link(f2.final, e, n + 1), p8);
    var p6 := Then(Link(f1.final, e, n + 1), p7);
    var p4 := Then(Mark(f1.final, false), Then(Mark(f2.final, false), p6));
    var p3 := Then(Link(n, e, f2.start), p4);
    var p2 := Then(Link(n, e, f1.start), p3);
    var x7 := if q == f2.final && s == e then [n + 1] else [];
    var x6 := if q == f1.final && s == e then [n + 1] else [];
    var x3 := if q == n && s == e then [f2.start] else [];
    var x2 := if q == n && s == e then [f1.start] else [];
    assert LinksOf(p8, n + 2, q, s) == [] + LinksOf(Done, n + 2, q, s) == [];
    assert LinksOf(p7, n + 2, q, s) == x7 + LinksOf(p8, n + 2, q, s) == x7;
    assert LinksOf(p6, n + 2, q, s) == x6 + LinksOf(p7, n + 2, q, s) == x6 + x7;
    assert LinksOf(p4, n + 2, q, s) == [] + ([] + LinksOf(p6, n + 2, q, s)) == x6 + x7;
    assert LinksOf(p3, n + 2, q, s) == x3 + LinksOf(p4, n + 2, q, s);
    assert LinksOf(p2, n + 2, q, s) == x2 + LinksOf(p3, n + 2, q, s);
    assert LinksOf(UnionOps(n, f1, f2), n, q, s) == [] + ([] + LinksOf(p2, n + 2, q, s));
    AppendAssoc(x2, x3, x6 + x7);
    AppendAssoc(x2 + x3, x6, x7);
  }

  /** `_fechamento` allocates two states; the first links to the old start
      and to the second; the old final is unflagged and links back to the
      old start and on to the second, which is final. */
  lemma StarFlags(n: nat, f: Fragment, q: nat, b: bool)
    requires f.final < n
    ensures FlagAfter(StarOps(n, f), n, q, b) ==
      if q == n + 1 then true else if q == f.final then false else b
  {
    var e := Epsilon;
    var p5 := Then(Link(f.final, e, f.start), Then(Link(f.final, e, n + 1), Then(Mark(n + 1, true), Done)));
    var p3 := Then(Link(n, e, n + 1), Then(Mark(f.final, false), p5));
    var b1 := if q == f.final then false else b;
    assert FlagAfter(Then(Mark(n + 1, true), Done), n + 2, q, b1) == (q == n + 1 || b1);
    assert FlagAfter(p5, n + 2, q, b1) == (q == n + 1 || b1);
    assert FlagAfter(p3, n + 2, q, b) == FlagAfter(p5, n + 2, q, b1);
    assert FlagAfter(Then(Link(n, e, f.start), p3), n + 2, q, b) == FlagAfter(p3, n + 2, q, b);
  }

  lemma StarLinks(n: nat, f: Fragment, q: nat, s: Symbol)
    requires f.final < n
    ensures LinksOf(StarOps(n, f), n, q, s) ==
      (if q == n && s == Epsilon then [f.start, n + 1] else []) +
      (if q == f.final && s == Epsilon then [f.start, n + 1] else [])
  {
    var e := Epsilon;
    var p7 := Then(Mark(n + 1, true), Done);
    var p6 := Then(Link(f.final, e, n + 1), p7);
    var p5 := Then(Link(f.final, e, f.start), p6);
    var p4 := Then(Mark(f.final, false), p5);
    var p3 := Then(Link(n, e, n + 1), p4);
    var p2 := Then(Link(n, e, f.start), p3);
    var x6 := if q == f.final && s == e then [n + 1] else [];
    var x5 := if q == f.final && s == e then [f.start] else [];
    var x3 := if q == n && s == e then [n + 1] else [];
    var x2 := if q == n && s == e then [f.start] else [];
    assert LinksOf(p7, n + 2, q, s) == [] + LinksOf(Done, n + 2, q, s) == [];
    assert LinksOf(p6, n + 2, q, s) == x6 + LinksOf(p7, n + 2, q, s) == x6;
    assert LinksOf(p5, n + 2, q, s) == x5 + LinksOf(p6, n + 2, q, s) == x5 + x6;
    assert LinksOf(p4, n + 2, q, s) == [] + LinksOf(p5, n + 2, q, s) == x5 + x6;
    assert LinksOf(p3, n + 2, q, s) == x3 + LinksOf(p4, n + 2, q, s);
    assert LinksOf(p2, n + 2, q, s) == x2 + LinksOf(p3, n + 2, q, s);
    assert LinksOf(StarOps(n, f), n, q, s) == [] + ([] + LinksOf(p2, n + 2, q, s));
    AppendAssoc(x2, x3, x5 + x6);
  }

  /** The arena and fragment the converter produces for a tree, building
      subtrees left to right as the parser meets them. */
  function Build(g: Graph, re: Regex): (r: (Graph, Fragment))
    ensures |r.0| == |g| + 2 * Ops(re)
    ensures |g| <= r.1.start < |r.0| && |g| <= r.1.final < |r.0|
    decreases re
  {
    match re
    case Literal(c) =>
      var p := SymbolOps(|g|, Char(c));
      RunLength(g, p);
      Allocations(|g|, Char(c), Fragment(0, 0), Fragment(0, 0));
      (Run(g, p), Fragment(|g|, |g| + 1))
    case Concat(a, b) =>
      var x := Build(g, a);
      var y := Build(x.0, b);
      var p := ConcatOps(x.1, y.1);
      RunLength(y.0, p);
      Allocations(0, Epsilon, x.1, y.1);
      (Run(y.0, p), Fragment(x.1.start, y.1.final))
    case Union(a, b) =>
      var x := Build(g, a);
      var y := Build(x.0, b);
      var p := UnionOps(|y.0|, x.1, y.1);
      RunLength(y.0, p);
      Allocations(|y.0|, Epsilon, x.1, y.1);
      (Run(y.0, p), Fragment(|y.0|, |y.0| + 1))
    case Star(b) =>
      var x := Build(g, b);
      var p := StarOps(|x.0|, x.1);
      RunLength(x.0, p);
      Allocations(|x.0|, Epsilon, x.1, x.1);
      (Run(x.0, p), Fragment(|x.0|, |x.0| + 1))
    case Group(b) => Build(g, b)
  }

  // ---------------------------------------------------------------------------
  // The wiring of a finished fragment
  // ---------------------------------------------------------------------------

  /** `g` leaves every state below `lo` of `g0` as it was: same final flag
      and same lists on every symbol. */
  ghost predicate Keeps(g0: Graph, g: Graph, lo: nat) {
    && lo <= |g0| <= |g|
    && (forall q: nat :: q < lo ==> FlagOf(g, q) == FlagOf(g0, q))
    && (forall q: nat, s :: q < lo ==> ListOf(g, q, s) == ListOf(g0, q, s))
  }

  /** The states from `lo` to the end of `g` hold one finished fragment `f`:
      its final state is the only final one among them and has no outgoing
      edge, and every one of them is reachable from its start. */
  ghost predicate Wired(g: Graph, lo: nat, f: Fragment) {
    && lo <= f.start < |g| && lo <= f.final < |g| && f.start != f.final
    && (forall q :: lo <= q < |g| ==> (FlagOf(g, q) <==> q == f.final))
    && (forall s :: ListOf(g, f.final, s) == [])
    && (forall q :: lo <= q < |g| ==> Reaches(g, AnyEdge, f.start, q))
  }

  lemma KeepsTrans(g0: Graph, g1: Graph, g2: Graph, lo: nat, mid: nat)
    requires Keeps(g0, g1, lo) && Keeps(g1, g2, mid) && lo <= mid
    ensures Keeps(g0, g2, lo)
  {
  }

  /** Keeping every state of `g0` keeps every edge of it. */
  lemma KeepsGrows(g0: Graph, g: Graph)
    requires Keeps(g0, g, |g0|)
    ensures Grows(g0, g)
  {
    forall a, s, d | 0 <= a < |g0| && d in Targets(g0[a].trans, s)
      ensures d in Targets(g[a].trans, s)
    {
      assert ListOf(g, a, s) == ListOf(g0, a, s);
    }
  }

  /** A program only appends to lists, so it keeps every edge. */
  lemma RunGrows(g: Graph, p: Prog)
    ensures Grows(g, Run(g, p))
  {
    RunLength(g, p);
    forall a, s, d | 0 <= a < |g| && d in Targets(g[a].trans, s)
      ensures d in Targets(Run(g, p)[a].trans, s)
    {
      RunTargets(g, p, a, s);
      assert ListOf(g, a, s) == Targets(g[a].trans, s);
    }
  }

  /** A path of `g` is a path of any arena that grows it. */
  lemma ReachesAfter(g: Graph, g2: Graph, a: nat, b: nat)
    requires Grows(g, g2) && Reaches(g, AnyEdge, a, b)
    ensures Reaches(g2, AnyEdge, a, b)
  {
    ReachesGrows(g, g2, AnyEdge, a, b);
  }

  /** An edge listed in `ListOf` is a step. */
  lemma ListedStep(g: Graph, a: nat, s: Symbol, b: nat)
    requires b in ListOf(g, a, s)
    ensures Step(g, AnyEdge, a, b)
    ensures s == Epsilon ==> Step(g, EpsilonEdge, a, b)
  {
  }

  /** A path extended by a listed edge is a path. */
  lemma ListedReach(g: Graph, a: nat, b: nat, s: Symbol, c: nat)
    requires Reaches(g, AnyEdge, a, b) && c in ListOf(g, b, s)
    ensures Reaches(g, AnyEdge, a, c)
  {
    ListedStep(g, b, s, c);
    ReachesStep(g, AnyEdge, a, b, c);
  }

  lemma WiredIntro(g: Graph, lo: nat, f: Fragment)
    requires lo <= f.start < |g| && lo <= f.final < |g| && f.start != f.final
    requires forall q :: lo <= q < |g| ==> (FlagOf(g, q) <==> q == f.final)
    requires forall s :: ListOf(g, f.final, s) == []
    requires forall q :: lo <= q < |g| ==> Reaches(g, AnyEdge, f.start, q)
    ensures Wired(g, lo, f)
  {
  }

  // Each combinator's effect on the arena, state by state

  /** After `_simbolo`: two new states, the second final, one edge on the
      symbol from the first to the second; nothing else changes. */
  lemma SymbolAfter(g: Graph, sym: Symbol, q: nat, s: Symbol)
    ensures |Run(g, SymbolOps(|g|, sym))| == |g| + 2
    ensures FlagOf(Run(g, SymbolOps(|g|, sym)), q) == (q == |g| + 1 || FlagOf(g, q))
    ensures ListOf(Run(g, SymbolOps(|g|, sym)), q, s) ==
      ListOf(g, q, s) + if q == |g| && s == sym then [|g| + 1] else []
  {
    var p := SymbolOps(|g|, sym);
    RunLength(g, p);
    Allocations(|g|, sym, Fragment(0, 0), Fragment(0, 0));
    RunFlag(g, p, q);
    RunTargets(g, p, q, s);
    SymbolShape(|g|, sym, q, s, FlagOf(g, q));
  }

  /** After `_concatenacao`: no new state; the first final state is
      unflagged and has one more epsilon edge, to the second start. */
  lemma ConcatAfter(g: Graph, f1: Fragment, f2: Fragment, q: nat, s: Symbol)
    requires f1.final < |g| && f2.final < |g|
    ensures |Run(g, ConcatOps(f1, f2))| == |g|
    ensures FlagOf(Run(g, ConcatOps(f1, f2)), q) ==
      if q == f2.final then true else if q == f1.final then false else FlagOf(g, q)
    ensures ListOf(Run(g, ConcatOps(f1, f2)), q, s) ==
      ListOf(g, q, s) + if q == f1.final && s == Epsilon then [f2.start] else []
  {
    var p := ConcatOps(f1, f2);
    RunLength(g, p);
    Allocations(0, Epsilon, f1, f2);
    RunFlag(g, p, q);
    RunTargets(g, p, q, s);
    ConcatShape(f1, f2, |g|, q, s, FlagOf(g, q));
  }

  /** After `_uniao`: two new states, the second the only one the step
      flags; both old finals unflagged. */
  lemma UnionAfter(g: Graph, f1: Fragment, f2: Fragment, q: nat, s: Symbol)
    requires f1.final < |g| && f2.final < |g|
    ensures |Run(g, UnionOps(|g|, f1, f2))| == |g| + 2
    ensures FlagOf(Run(g, UnionOps(|g|, f1, f2)), q) ==
      if q == |g| + 1 then true else if q == f1.final || q == f2.final then false else FlagOf(g, q)
    ensures ListOf(Run(g, UnionOps(|g|, f1, f2)), q, s) == ListOf(g, q, s) +
      ((if q == |g| && s == Epsilon then [f1.start, f2.start] else []) +
       (if q == f1.final && s == Epsilon then [|g| + 1] else []) +
       (if q == f2.final && s == Epsilon then [|g| + 1] else []))
  {
    var p := UnionOps(|g|, f1, f2);
    RunLength(g, p);
    Allocations(|g|, Epsilon, f1, f2);
    RunFlag(g, p, q);
    RunTargets(g, p, q, s);
    UnionFlags(|g|, f1, f2, q, FlagOf(g, q));
    UnionLinks(|g|, f1, f2, q, s);
  }

  /** After `_fechamento`: two new states, the second the only one the
      step flags; the old final unflagged. */
  lemma StarAfter(g: Graph, f: Fragment, q: nat, s: Symbol)
    requires f.final < |g|
    ensures |Run(g, StarOps(|g|, f))| == |g| + 2
    ensures FlagOf(Run(g, StarOps(|g|, f)), q) ==
      if q == |g| + 1 then true else if q == f.final then false else FlagOf(g, q)
    ensures ListOf(Run(g, StarOps(|g|, f)), q, s) == ListOf(g, q, s) +
      ((if q == |g| && s == Epsilon then [f.start, |g| + 1] else []) +
       (if q == f.final && s == Epsilon then [f.start, |g| + 1] else []))
  {
    var p := StarOps(|g|, f);
    RunLength(g, p);
    Allocations(|g|, Epsilon, f, f);
    RunFlag(g, p, q);
    RunTargets(g, p, q, s);
    StarFlags(|g|, f, q, FlagOf(g, q));
    StarLinks(|g|, f, q, s);
  }

  // Each combinator finishes a fragment

  /** `_simbolo` wires a two-state fragment above `g` and leaves `g` alone. */
  lemma SymbolWired(g: Graph, sym: Symbol)
    ensures var n := |g|; var r := Run(g, SymbolOps(n, sym));
      Wired(r, n, Fragment(n, n + 1)) && Keeps(g, r, n)
  {
    SymbolFinished(g, sym);
    SymbolKeeps(g, sym);
  }

  lemma SymbolFinished(g: Graph, sym: Symbol)
    ensures var n := |g|; Wired(Run(g, SymbolOps(n, sym)), n, Fragment(n, n + 1))
  {
    var n := |g|;
    var r := Run(g, SymbolOps(n, sym));
    SymbolAfter(g, sym, n, sym);
    forall q: nat | n <= q < |r|
      ensures FlagOf(r, q) <==> q == n + 1
    {
      SymbolAfter(g, sym, q, sym);
    }
    forall q: nat, s | q == n + 1
      ensures ListOf(r, q, s) == []
    {
      SymbolAfter(g, sym, q, s);
    }
    ListedStep(r, n, sym, n + 1);
    ReachesRefl(r, AnyEdge, n);
    ReachesStep(r, AnyEdge, n, n, n + 1);
    WiredIntro(r, n, Fragment(n, n + 1));
  }

  lemma SymbolKeeps(g: Graph, sym: Symbol)
    ensures Keeps(g, Run(g, SymbolOps(|g|, sym)), |g|)
  {
    var n := |g|;
    var r := Run(g, SymbolOps(n, sym));
    SymbolAfter(g, sym, n, sym);
    forall q: nat | q < n
      ensures FlagOf(r, q) == FlagOf(g, q)
    {
      SymbolAfter(g, sym, q, sym);
    }
    forall q: nat, s | q < n
      ensures ListOf(r, q, s) == ListOf(g, q, s)
    {
      SymbolAfter(g, sym, q, s);
    }
  }

  /** `_concatenacao` joins the fragment above `lo` and the one after it
      into one fragment, leaving the states below `lo` alone. */
  lemma ConcatWired(lo: nat, x: Graph, f1: Fragment, y: Graph, f2: Fragment)
    requires Wired(x, lo, f1) && Wired(y, |x|, f2) && Keeps(x, y, |x|)
    ensures var r := Run(y, ConcatOps(f1, f2));
      Wired(r, lo, Fragment(f1.start, f2.final)) && Keeps(y, r, lo)
  {
    var r := Run(y, ConcatOps(f1, f2));
    ConcatAfter(y, f1, f2, 0, Epsilon);
    forall q: nat
      ensures FlagOf(r, q) == if q == f2.final then true else if q == f1.final then false else FlagOf(y, q)
    {
      ConcatAfter(y, f1, f2, q, Epsilon);
    }
    forall q: nat, s
      ensures ListOf(r, q, s) == ListOf(y, q, s) + if q == f1.final && s == Epsilon then [f2.start] else []
    {
      ConcatAfter(y, f1, f2, q, s);
    }
    forall q | lo <= q < |r|
      ensures FlagOf(r, q) <==> q == f2.final
    {
      if q < |x| {
        assert FlagOf(y, q) == FlagOf(x, q);
      }
    }
    assert ListOf(r, f2.final, Epsilon) == ListOf(y, f2.final, Epsilon) + [];
    forall s
      ensures ListOf(r, f2.final, s) == []
    {
      assert ListOf(r, f2.final, s) == ListOf(y, f2.final, s) + [];
    }
    KeepsGrows(x, y);
    RunGrows(y, ConcatOps(f1, f2));
    ListedStep(r, f1.final, Epsilon, f2.start);
    ReachesAfter(x, y, f1.start, f1.final);
    ReachesAfter(y, r, f1.start, f1.final);
    ReachesStep(r, AnyEdge, f1.start, f1.final, f2.start);
    forall q | lo <= q < |r|
      ensures Reaches(r, AnyEdge, f1.start, q)
    {
      if q < |x| {
        ReachesAfter(x, y, f1.start, q);
        ReachesAfter(y, r, f1.start, q);
      } else {
        ReachesAfter(y, r, f2.start, q);
        ReachesTrans(r, AnyEdge, f1.start, f2.start, q);
      }
    }
    WiredIntro(r, lo, Fragment(f1.start, f2.final));
  }

  /** Every state the union's arena adds above `lo` is reachable from the
      union's new start. */
  lemma UnionReach(lo: nat, x: Graph, f1: Fragment, y: Graph, f2: Fragment)
    requires Wired(x, lo, f1) && Wired(y, |x|, f2) && Keeps(x, y, |x|)
    ensures var n := |y|; var r := Run(y, UnionOps(n, f1, f2));
      forall q | lo <= q < |r| :: Reaches(r, AnyEdge, n, q)
  {
    var n := |y|;
    var r := Run(y, UnionOps(n, f1, f2));
    UnionAfter(y, f1, f2, n, Epsilon);
    assert ListOf(r, n, Epsilon) == [f1.start, f2.start];
    UnionAfter(y, f1, f2, f1.final, Epsilon);
    assert n + 1 in ListOf(r, f1.final, Epsilon);
    KeepsGrows(x, y);
    RunGrows(y, UnionOps(n, f1, f2));
    ReachesRefl(r, AnyEdge, n);
    ListedReach(r, n, n, Epsilon, f1.start);
    ListedReach(r, n, n, Epsilon, f2.start);
    ReachesAfter(x, y, f1.start, f1.final);
    ReachesAfter(y, r, f1.start, f1.final);
    ReachesTrans(r, AnyEdge, n, f1.start, f1.final);
    ListedReach(r, n, f1.final, Epsilon, n + 1);
    ReachBelow(lo, x, f1, y, f2, r, n);
  }

  /** The old states of both operands are reachable from a state that
      reaches both of their starts, in any arena the operands grow into. */
  lemma ReachBelow(lo: nat, x: Graph, f1: Fragment, y: Graph, f2: Fragment, r: Graph, n: nat)
    requires Wired(x, lo, f1) && Wired(y, |x|, f2) && |y| == n
    requires Grows(x, y) && Grows(y, r)
    requires Reaches(r, AnyEdge, n, f1.start) && Reaches(r, AnyEdge, n, f2.start)
    ensures forall q | lo <= q < n :: Reaches(r, AnyEdge, n, q)
  {
    forall q | lo <= q < n
      ensures Reaches(r, AnyEdge, n, q)
    {
      if q < |x| {
        ReachesAfter(x, y, f1.start, q);
        ReachesAfter(y, r, f1.start, q);
        ReachesTrans(r, AnyEdge, n, f1.start, q);
      } else {
        ReachesAfter(y, r, f2.start, q);
        ReachesTrans(r, AnyEdge, n, f2.start, q);
      }
    }
  }

  lemma UnionWired(lo: nat, x: Graph, f1: Fragment, y: Graph, f2: Fragment)
    requires Wired(x, lo, f1) && Wired(y, |x|, f2) && Keeps(x, y, |x|)
    ensures var n := |y|; var r := Run(y, UnionOps(n, f1, f2));
      Wired(r, lo, Fragment(n, n + 1)) && Keeps(y, r, lo)
  {
    var n := |y|;
    var r := Run(y, UnionOps(n, f1, f2));
    UnionAfter(y, f1, f2, n, Epsilon);
    forall q: nat
      ensures FlagOf(r, q) ==
        if q == n + 1 then true else if q == f1.final || q == f2.final then false else FlagOf(y, q)
    {
      UnionAfter(y, f1, f2, q, Epsilon);
    }
    forall q: nat, s | q < lo || q == n + 1
      ensures ListOf(r, q, s) == ListOf(y, q, s)
    {
      UnionAfter(y, f1, f2, q, s);
      assert ListOf(r, q, s) == ListOf(y, q, s) + [];
    }
    forall q | lo <= q < |r|
      ensures FlagOf(r, q) <==> q == n + 1
    {
      if q < |x| {
        assert FlagOf(y, q) == FlagOf(x, q);
      }
    }
    UnionReach(lo, x, f1, y, f2);
    WiredIntro(r, lo, Fragment(n, n + 1));
  }

  /** Every state the closure's arena adds above `lo` is reachable from
      the closure's new start. */
  lemma StarReach(lo: nat, x: Graph, f: Fragment)
    requires Wired(x, lo, f)
    ensures var n := |x|; var r := Run(x, StarOps(n, f));
      forall q | lo <= q < |r| :: Reaches(r, AnyEdge, n, q)
  {
    var n := |x|;
    var r := Run(x, StarOps(n, f));
    StarAfter(x, f, n, Epsilon);
    assert ListOf(r, n, Epsilon) == [f.start, n + 1];
    RunGrows(x, StarOps(n, f));
    ReachesRefl(r, AnyEdge, n);
    ListedReach(r, n, n, Epsilon, f.start);
    ListedReach(r, n, n, Epsilon, n + 1);
    forall q | lo <= q < n
      ensures Reaches(r, AnyEdge, n, q)
    {
      ReachesAfter(x, r, f.start, q);
      ReachesTrans(r, AnyEdge, n, f.start, q);
    }
  }

  /** `_fechamento` puts the fragment above `lo` under a new start and a
      new final state, leaving the states below `lo` alone. */
  lemma StarWired(lo: nat, x: Graph, f: Fragment)
    requires Wired(x, lo, f)
    ensures var n := |x|; var r := Run(x, StarOps(n, f));
      Wired(r, lo, Fragment(n, n + 1)) && Keeps(x, r, lo)
  {
    StarFinished(lo, x, f);
    StarKeeps(lo, x, f);
  }

  /** The closure's new final state is the only final one above `lo`, has no
      outgoing edge, and everything above `lo` is reachable from the new start. */
  lemma StarFinished(lo: nat, x: Graph, f: Fragment)
    requires Wired(x, lo, f)
    ensures var n := |x|; Wired(Run(x, StarOps(n, f)), lo, Fragment(n, n + 1))
  {
    var n := |x|;
    var fin := n + 1;
    var r := Run(x, StarOps(n, f));
    StarOnlyFinal(lo, x, f);
    forall s
      ensures ListOf(r, fin, s) == []
    {
      StarAfter(x, f, fin, s);
    }
    StarReach(lo, x, f);
    WiredIntro(r, lo, Fragment(n, fin));
  }

  /** Above `lo`, the closure's new final state is the only final one: the
      old final loses its flag and no other state had one. */
  lemma StarOnlyFinal(lo: nat, x: Graph, f: Fragment)
    requires Wired(x, lo, f)
    ensures var n := |x|; var r := Run(x, StarOps(n, f));
      |r| == n + 2 && forall q | lo <= q < |r| :: FlagOf(r, q) <==> q == n + 1
  {
    var n := |x|;
    var r := Run(x, StarOps(n, f));
    StarAfter(x, f, n, Epsilon);
    forall q | lo <= q < |r|
      ensures FlagOf(r, q) <==> q == n + 1
    {
      StarAfter(x, f, q, Epsilon);
    }
  }

  /** The closure leaves the states below `lo` alone. */
  lemma StarKeeps(lo: nat, x: Graph, f: Fragment)
    requires Wired(x, lo, f)
    ensures Keeps(x, Run(x, StarOps(|x|, f)), lo)
  {
    var n := |x|;
    var r := Run(x, StarOps(n, f));
    StarAfter(x, f, n, Epsilon);
    forall q: nat | q < lo
      ensures FlagOf(r, q) == FlagOf(x, q)
    {
      StarAfter(x, f, q, Epsilon);
    }
    forall q: nat, s | q < lo
      ensures ListOf(r, q, s) == ListOf(x, q, s)
    {
      StarAfter(x, f, q, s);
      assert ListOf(r, q, s) == ListOf(x, q, s) + [];
    }
  }

  /** What `Build` promises for a tree: one finished fragment above the
      arena it starts from, and that arena's states left alone. */
  ghost predicate Builds(g: Graph, re: Regex) {
    Wired(Build(g, re).0, |g|, Build(g, re).1) && Keeps(g, Build(g, re).0, |g|)
  }

  lemma ConcatBuilds(g: Graph, a: Regex, b: Regex)
    requires Builds(g, a) && Builds(Build(g, a).0, b)
    ensures Builds(g, Concat(a, b))
  {
    var x := Build(g, a);
    var y := Build(x.0, b);
    var r := Run(y.0, ConcatOps(x.1, y.1));
    assert Build(g, Concat(a, b)) == (r, Fragment(x.1.start, y.1.final));
    ConcatWired(|g|, x.0, x.1, y.0, y.1);
    KeepsTrans(g, x.0, y.0, |g|, |x.0|);
    KeepsTrans(g, y.0, r, |g|, |g|);
  }

  lemma UnionBuilds(g: Graph, a: Regex, b: Regex)
    requires Builds(g, a) && Builds(Build(g, a).0, b)
    ensures Builds(g, Union(a, b))
  {
    var x := Build(g, a);
    var y := Build(x.0, b);
    var r := Run(y.0, UnionOps(|y.0|, x.1, y.1));
    assert Build(g, Union(a, b)) == (r, Fragment(|y.0|, |y.0| + 1));
    UnionWired(|g|, x.0, x.1, y.0, y.1);
    KeepsTrans(g, x.0, y.0, |g|, |x.0|);
    KeepsTrans(g, y.0, r, |g|, |g|);
  }

  lemma StarBuilds(g: Graph, b: Regex)
    requires Builds(g, b)
    ensures Builds(g, Star(b))
  {
    var x := Build(g, b);
    var r := Run(x.0, StarOps(|x.0|, x.1));
    assert Build(g, Star(b)) == (r, Fragment(|x.0|, |x.0| + 1));
    StarWired(|g|, x.0, x.1);
    KeepsTrans(g, x.0, r, |g|, |g|);
  }

  /** Every tree builds one finished fragment above the arena it starts
      from, and leaves that arena's states alone. */
  lemma {:induction false} BuildWired(g: Graph, re: Regex)
    ensures Builds(g, re)
    decreases re
  {
    match re
    case Literal(c) =>
      SymbolWired(g, Char(c));
    case Concat(a, b) =>
      BuildWired(g, a);
      BuildWired(Build(g, a).0, b);
      ConcatBuilds(g, a, b);
    case Union(a, b) =>
      BuildWired(g, a);
      BuildWired(Build(g, a).0, b);
      UnionBuilds(g, a, b);
    case Star(b) =>
      BuildWired(g, b);
      StarBuilds(g, b);
    case Group(b) =>
      BuildWired(g, b);
      assert Build(g, re) == Build(g, b);
  }

  /** The automaton `converter` returns for a tree, on a fresh arena: two
      states per symbol, '|' and '*'; every state reachable from the start;
      the final state the only accepting one, and without transitions. */
  lemma BuildShape(re: Regex)
    ensures var (g, f) := Build([], re);
      && |g| == 2 * Ops(re)
      && f.start != f.final
      && (forall q: nat :: q < |g| ==> Reaches(g, AnyEdge, f.start, q))
      && (forall q :: 0 <= q < |g| ==> (g[q].isFinal <==> q == f.final))
      && (forall s :: Targets(g[f.final].trans, s) == [])
  {
    BuildWired([], re);
    var (g, f) := Build([], re);
    assert Wired(g, 0, f);
    forall q | 0 <= q < |g|
      ensures g[q].isFinal <==> q == f.final
    {
      assert FlagOf(g, q) == g[q].isFinal;
    }
    forall s
      ensures Targets(g[f.final].trans, s) == []
    {
      assert ListOf(g, f.final, s) == [];
    }
  }

  /** What a parse of the text from `pos` amounts to on arena `g`. */
  ghost predicate Built(r: Result<(Regex, nat)>, g: Graph, res: Result<Fragment>, g': Graph, pos': nat) {
    && (r.Ok? ==> res == Ok(Build(g, r.value.0).1) && g' == Build(g, r.value.0).0 && pos' == r.value.1)
    && (r.Err? ==> res == Err(r.error))
  }

  // ---------------------------------------------------------------------------
  // ConversorERparaAFN
  // ---------------------------------------------------------------------------

  /** `ConversorERparaAFN`: the expression, the cursor, and the arena the
      states are allocated in. */
  class Converter {
    const er: string
    var pos: nat
    var arena: Arena

    constructor (er: string)
      ensures this.er == er && pos == 0 && fresh(arena) && arena.Valid()
    {
      this.er := er;
      pos := 0;
      arena := new Arena();
    }

    /** `_proximo_char`: the character under the cursor, none past the end. */
    function Peek(): Option<char>
      reads this
    {
      if pos < |er| then Some(er[pos]) else None
    }

    /** `_consumir_char`: returns the character under the cursor and moves
        the cursor on, past the end as well. */
    method Advance() returns (c: Option<char>)
      modifies this
      ensures c == old(Peek()) && pos == old(pos) + 1
      ensures arena == old(arena)
    {
      c := Peek();
      pos := pos + 1;
    }

    /** `converter`: a fresh arena (ids restart at 0), then one expression
        from the cursor, which must use up the input. */
    method Convert() returns (r: Result<Fragment>)
      requires pos <= |er|
      modifies this
      ensures fresh(arena) && arena.Valid()
      ensures match ParseFrom(er, old(pos))
        case Ok(re) => r == Ok(Build([], re).1) && arena.states == Build([], re).0
        case Err(e) => r == Err(e)
    {
      arena := new Arena();
      var e := Expression();
      if e.Ok? && pos < |er| {
        r := Err(TrailingInput(pos));
      } else {
        r := e;
      }
    }

    /** `_expressao`. */
    method Expression() returns (r: Result<Fragment>)
      requires arena.Valid() && pos <= |er|
      modifies this, arena
      ensures arena == old(arena) && arena.Valid()
      ensures Built(ParseExpr(er, old(pos)), old(arena.states), r, arena.states, pos)
      decreases |er| - pos, 3
    {
      var t := Term();
      if t.Err? {
        return t;
      }
      if Peek() == Some('|') {
        var _ := Advance();
        var u := Expression();
        if u.Err? {
          return u;
        }
        var f := Union(t.value, u.value);
        return Ok(f);
      }
      return t;
    }

    /** `_termo`. */
    method Term() returns (r: Result<Fragment>)
      requires arena.Valid() && pos <= |er|
      modifies this, arena
      ensures arena == old(arena) && arena.Valid()
      ensures Built(ParseTerm(er, old(pos)), old(arena.states), r, arena.states, pos)
      decreases |er| - pos, 2
    {
      var f := Factor();
      if f.Err? {
        return f;
      }
      var next := Peek();
      if next.Some? && next.value != '|' && next.value != ')' {
        var u := Term();
        if u.Err? {
          return u;
        }
        var c := Concatenation(f.value, u.value);
        return Ok(c);
      }
      return f;
    }

    /** `_fator`. */
    method Factor() returns (r: Result<Fragment>)
      requires arena.Valid() && pos <= |er|
      modifies this, arena
      ensures arena == old(arena) && arena.Valid()
      ensures Built(ParseFactor(er, old(pos)), old(arena.states), r, arena.states, pos)
      decreases |er| - pos, 1
    {
      var b := Base();
      if b.Err? {
        return b;
      }
      if Peek() == Some('*') {
        var _ := Advance();
        var s := Closure(b.value);
        return Ok(s);
      }
      return b;
    }

    /** `_base`. */
    method Base() returns (r: Result<Fragment>)
      requires arena.Valid() && pos <= |er|
      modifies this, arena
      ensures arena == old(arena) && arena.Valid()
      ensures Built(ParseBase(er, old(pos)), old(arena.states), r, arena.states, pos)
      decreases |er| - pos, 0
    {
      if Peek() == Some('(') {
        var _ := Advance();
        var e := Expression();
        if e.Err? {
          return e;
        }
        var close := Advance();
        if close.None? {
          return Err(UnexpectedEnd(pos - 1));
        }
        return e;
      }
      var c := Advance();
      if c.None? {
        return Err(UnexpectedEnd(pos - 1));
      }
      var f := SymbolFragment(Char(c.value));
      return Ok(f);
    }

    /** `_simbolo`. */
    method SymbolFragment(sym: Symbol) returns (f: Fragment)
      requires arena.Valid()
      modifies arena
      ensures arena.Valid()
      ensures arena.states == Run(old(arena.states), SymbolOps(|old(arena.states)|, sym))
      ensures f == Fragment(|old(arena.states)|, |old(arena.states)| + 1)
    {
      ghost var g := arena.states;
      ghost var n := |g|;
      ghost var p2 := Then(Mark(n + 1, true), Done);
      ghost var p1 := Then(Link(n, sym, n + 1), p2);
      var start := arena.NewState();
      RunAlloc(g, Then(Alloc, p1));
      var final := arena.NewState();
      RunAlloc(WithNewState(g), p1);
      ghost var g1 := arena.states;
      arena.AddTransition(start, sym, final);
      RunLink(g1, n, sym, n + 1, p2);
      ghost var g2 := arena.states;
      f := arena.NewFragment(start, final);
      RunMark(g2, n + 1, true, Done);
    }

    /** `_concatenacao`. */
    method Concatenation(f1: Fragment, f2: Fragment) returns (f: Fragment)
      requires arena.Valid() && f1.start < |arena.states| && f1.final < |arena.states|
      requires f2.start < |arena.states| && f2.final < |arena.states|
      modifies arena
      ensures arena.Valid()
      ensures arena.states == Run(old(arena.states), ConcatOps(f1, f2))
      ensures f == Fragment(f1.start, f2.final)
    {
      ghost var g := arena.states;
      ghost var p2 := Then(Mark(f2.final, true), Done);
      ghost var p1 := Then(Link(f1.final, Epsilon, f2.start), p2);
      arena.SetFinal(f1.final, false);
      RunMark(g, f1.final, false, p1);
      ghost var g1 := arena.states;
      arena.AddTransition(f1.final, Epsilon, f2.start);
      RunLink(g1, f1.final, Epsilon, f2.start, p2);
      ghost var g2 := arena.states;
      f := arena.NewFragment(f1.start, f2.final);
      RunMark(g2, f2.final, true, Done);
    }

    /** `_uniao`. */
    method Union(f1: Fragment, f2: Fragment) returns (f: Fragment)
      requires arena.Valid()
      requires f1.start < |arena.states| && f1.final < |arena.states|
      requires f2.start < |arena.states| && f2.final < |arena.states|
      modifies arena
      ensures arena.Valid()
      ensures arena.states == Run(old(arena.states), UnionOps(|old(arena.states)|, f1, f2))
      ensures f == Fragment(|old(arena.states)|, |old(arena.states)| + 1)
    {
      ghost var g := arena.states;
      ghost var n := |g|;
      ghost var p8 := Then(Mark(n + 1, true), Done);
      ghost var p7 := Then(Link(f2.final, Epsilon, n + 1), p8);
      ghost var p6 := Then(Link(f1.final, Epsilon, n + 1), p7);
      ghost var p5 := Then(Mark(f2.final, false), p6);
      ghost var p4 := Then(Mark(f1.final, false), p5);
      ghost var p3 := Then(Link(n, Epsilon, f2.start), p4);
      ghost var p2 := Then(Link(n, Epsilon, f1.start), p3);
      var start := arena.NewState();
      RunAlloc(g, Then(Alloc, p2));
      var final := arena.NewState();
      RunAlloc(WithNewState(g), p2);
      ghost var g2 := arena.states;
      arena.AddTransition(start, Epsilon, f1.start);
      RunLink(g2, n, Epsilon, f1.start, p3);
      ghost var g3 := arena.states;
      arena.AddTransition(start, Epsilon, f2.start);
      RunLink(g3, n, Epsilon, f2.start, p4);
      ghost var g4 := arena.states;
      arena.SetFinal(f1.final, false);
      RunMark(g4, f1.final, false, p5);
      ghost var g5 := arena.states;
      arena.SetFinal(f2.final, false);
      RunMark(g5, f2.final, false, p6);
      ghost var g6 := arena.states;
      arena.AddTransition(f1.final, Epsilon, final);
      RunLink(g6, f1.final, Epsilon, n + 1, p7);
      ghost var g7 := arena.states;
      arena.AddTransition(f2.final, Epsilon, final);
      RunLink(g7, f2.final, Epsilon, n + 1, p8);
      ghost var g8 := arena.states;
      f := arena.NewFragment(start, final);
      RunMark(g8, n + 1, true, Done);
    }

    /** `_fechamento`. */
    method Closure(f1: Fragment) returns (f: Fragment)
      requires arena.Valid() && f1.start < |arena.states| && f1.final < |arena.states|
      modifies arena
      ensures arena.Valid()
      ensures arena.states == Run(old(arena.states), StarOps(|old(arena.states)|, f1))
      ensures f == Fragment(|old(arena.states)|, |old(arena.states)| + 1)
    {
      ghost var g := arena.states;
      ghost var n := |g|;
      ghost var p7 := Then(Mark(n + 1, true), Done);
      ghost var p6 := Then(Link(f1.final, Epsilon, n + 1), p7);
      ghost var p5 := Then(Link(f1.final, Epsilon, f1.start), p6);
      ghost var p4 := Then(Mark(f1.final, false), p5);
      ghost var p3 := Then(Link(n, Epsilon, n + 1), p4);
      ghost var p2 := Then(Link(n, Epsilon, f1.start), p3);
      var start := arena.NewState();
      RunAlloc(g, Then(Alloc, p2));
      var final := arena.NewState();
      RunAlloc(WithNewState(g), p2);
      ghost var g2 := arena.states;
      arena.AddTransition(start, Epsilon, f1.start);
      RunLink(g2, n, Epsilon, f1.start, p3);
      ghost var g3 := arena.states;
      arena.AddTransition(start, Epsilon, final);
      RunLink(g3, n, Epsilon, n + 1, p4);
      ghost var g4 := arena.states;
      arena.SetFinal(f1.final, false);
      RunMark(g4, f1.final, false, p5);
      ghost var g5 := arena.states;
      arena.AddTransition(f1.final, Epsilon, f1.start);
      RunLink(g5, f1.final, Epsilon, f1.start, p6);
      ghost var g6 := arena.states;
      arena.AddTransition(f1.final, Epsilon, final);
      RunLink(g6, f1.final, Epsilon, n + 1, p7);
      ghost var g7 := arena.states;
      f := arena.NewFragment(start, final);
      RunMark(g7, n + 1, true, Done);
    }
  }
}
