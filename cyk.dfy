/** The CYK membership test (class CYKParser of main.py) over a grammar
    whose alternatives are single symbols or pairs of variables. */
module Cyk {
  import opened Grammar

  // ---------------------------------------------------------------------------
  // The table, as functions of the grammar and the word
  // ---------------------------------------------------------------------------

  /** Left sides with the alternative `[c]`: what the diagonal cell of `c` holds. */
  function Heads1(p: Productions, c: char): set<Sym> {
    set a | a in p && [[c]] in p[a]
  }

  /** Left sides with an alternative `B C` where `B` is in `x` and `C` in `y`. */
  function Heads2(p: Productions, x: set<Sym>, y: set<Sym>): set<Sym> {
    set a | a in p && exists r :: r in p[a] && |r| == 2 && r[0] in x && r[1] in y
  }

  /** Cell `[i, j]` of the table: the variables found for `w[i..j]`, both ends included. */
  function Cell(p: Productions, w: string, i: nat, j: nat): set<Sym>
    requires i <= j < |w|
    decreases j - i, 1, 0
  {
    if i == j then Heads1(p, w[i]) else Splits(p, w, i, j, j)
  }

  /** What the split points `i+1 .. k` contribute to cell `[i, j]`: a split
      at `m` pairs cell `[i, m-1]` with cell `[m, j]`. */
  function Splits(p: Productions, w: string, i: nat, j: nat, k: nat): set<Sym>
    requires i <= k <= j < |w|
    decreases j - i, 0, k - i
  {
    if k == i then {}
    else Splits(p, w, i, j, k - 1) + Heads2(p, Cell(p, w, i, k - 1), Cell(p, w, k, j))
  }

  /** What `parse` answers: for the empty word, whether some alternative
      anywhere is `['ε']`; otherwise whether the start symbol is in the
      top cell. */
  function Accepts(p: Productions, start: Option<Sym>, w: string): bool {
    if |w| == 0 then exists a :: a in p && [Eps] in p[a]
    else start.Some? && start.value in Cell(p, w, 0, |w| - 1)
  }

  // ---------------------------------------------------------------------------
  // The reference: derivations in a grammar of that shape
  // ---------------------------------------------------------------------------

  /** `a` derives the nonempty word `u`: by an alternative `[c]` when `u` is
      the single character `c`, otherwise by splitting `u` in two. */
  ghost predicate Derives(p: Productions, a: Sym, u: string)
    decreases |u|, 1
  {
    if |u| == 0 then false
    else if |u| == 1 then a in p && [[u[0]]] in p[a]
    else exists m :: 1 <= m < |u| && SplitsAs(p, a, u, m)
  }

  /** `a` derives `u` through an alternative `B C` with `B` deriving the
      first `m` characters and `C` the rest. */
  ghost predicate SplitsAs(p: Productions, a: Sym, u: string, m: nat)
    requires 1 <= m < |u|
    decreases |u|, 0
  {
    a in p && exists r :: r in p[a] && |r| == 2 && Derives(p, r[0], u[..m]) && Derives(p, r[1], u[m..])
  }

  /** The split of cell `[i, j]` at `m` yields `a`. */
  predicate SplitAt(p: Productions, w: string, i: nat, j: nat, m: nat, a: Sym)
    requires i < m <= j < |w|
  {
    a in Heads2(p, Cell(p, w, i, m - 1), Cell(p, w, m, j))
  }

  lemma {:induction false} SplitsMember(p: Productions, w: string, i: nat, j: nat, k: nat, a: Sym)
    requires i <= k <= j < |w|
    ensures a in Splits(p, w, i, j, k) <==> exists m :: i < m <= k && SplitAt(p, w, i, j, m, a)
    decreases k - i
  {
    if k > i {
      SplitsMember(p, w, i, j, k - 1, a);
      if SplitAt(p, w, i, j, k, a) {
        assert i < k <= k;
      } else if a !in Splits(p, w, i, j, k) {
        forall m | i < m <= k
          ensures !SplitAt(p, w, i, j, m, a)
        {
        }
      }
    }
  }

  /** Splitting the slice `w[i..j]` at `m`. */
  lemma SliceSplit(w: string, i: nat, m: nat, j: nat)
    requires i <= m <= j <= |w|
    ensures w[i..j][..m - i] == w[i..m] && w[i..j][m - i..] == w[m..j]
  {
  }

  /** A variable found in cell `[i, j]` derives `w[i..j]`. */
  lemma {:induction false} CellSound(p: Productions, w: string, i: nat, j: nat, a: Sym)
    requires i <= j < |w|
    requires a in Cell(p, w, i, j)
    ensures Derives(p, a, w[i..j + 1])
    decreases j - i
  {
    var u := w[i..j + 1];
    if i == j {
      assert u == [w[i]];
    } else {
      SplitsMember(p, w, i, j, j, a);
      var m :| i < m <= j && SplitAt(p, w, i, j, m, a);
      var r :| r in p[a] && |r| == 2 && r[0] in Cell(p, w, i, m - 1) && r[1] in Cell(p, w, m, j);
      CellSound(p, w, i, m - 1, r[0]);
      CellSound(p, w, m, j, r[1]);
      SliceSplit(w, i, m, j + 1);
      assert SplitsAs(p, a, u, m - i);
    }
  }

  /** An alternative `B C` of `a` with `B` in cell `[i, m-1]` and `C` in
      cell `[m, j]` puts `a` in cell `[i, j]`. */
  lemma PairInCell(p: Productions, w: string, i: nat, j: nat, m: nat, a: Sym, r: Rhs)
    requires i < m <= j < |w|
    requires a in p && r in p[a] && |r| == 2
    requires r[0] in Cell(p, w, i, m - 1) && r[1] in Cell(p, w, m, j)
    ensures a in Cell(p, w, i, j)
  {
    assert SplitAt(p, w, i, j, m, a);
    SplitsMember(p, w, i, j, j, a);
  }

  /** A variable that derives `w[i..j]` is found in cell `[i, j]`. */
  lemma {:induction false} CellComplete(p: Productions, w: string, i: nat, j: nat, a: Sym)
    requires i <= j < |w|
    requires Derives(p, a, w[i..j + 1])
    ensures a in Cell(p, w, i, j)
    decreases j - i
  {
    var u := w[i..j + 1];
    if i == j {
      assert u == [w[i]];
    } else {
      assert |u| == j + 1 - i >= 2;
      assert Derives(p, a, u);
      assert exists mm :: 1 <= mm < |u| && SplitsAs(p, a, u, mm);
      var mm :| 1 <= mm < |u| && SplitsAs(p, a, u, mm);
      var r :| r in p[a] && |r| == 2 && Derives(p, r[0], u[..mm]) && Derives(p, r[1], u[mm..]);
      var m := i + mm;
      SliceSplit(w, i, m, j + 1);
      CellComplete(p, w, i, m - 1, r[0]);
      CellComplete(p, w, m, j, r[1]);
      PairInCell(p, w, i, j, m, a, r);
    }
  }

  /** The table is right: a variable is in cell `[i, j]` exactly when it
      derives `w[i..j]`. */
  lemma CellDerives(p: Productions, w: string, i: nat, j: nat, a: Sym)
    requires i <= j < |w|
    ensures a in Cell(p, w, i, j) <==> Derives(p, a, w[i..j + 1])
  {
    if a in Cell(p, w, i, j) {
      CellSound(p, w, i, j, a);
    }
    if Derives(p, a, w[i..j + 1]) {
      CellComplete(p, w, i, j, a);
    }
  }

  /** A nonempty word is accepted exactly when the start symbol derives it. */
  lemma AcceptsDerives(p: Productions, start: Option<Sym>, w: string)
    requires |w| > 0
    ensures Accepts(p, start, w) <==> start.Some? && Derives(p, start.value, w)
  {
    if start.Some? {
      CellDerives(p, w, 0, |w| - 1, start.value);
      assert w[0..|w|] == w;
    }
  }

  // ---------------------------------------------------------------------------
  // The loops of `parse`
  // ---------------------------------------------------------------------------

  /** The diagonal loop for one character: every left side with an
      alternative that is that character alone. */
  method DiagonalHeads(p: Productions, c: char) returns (heads: set<Sym>)
    ensures heads == Heads1(p, c)
  {
    heads := {};
    var lefts := p.Keys;
    while lefts != {}
      invariant lefts <= p.Keys
      invariant heads == set a | a in p.Keys - lefts && [[c]] in p[a]
      decreases lefts
    {
      var left :| left in lefts;
      lefts := lefts - {left};
      var rights := p[left];
      var found := false;
      for t := 0 to |rights|
        invariant found <==> [[c]] in rights[..t]
      {
        var right := rights[t];
        assert rights[..t + 1] == rights[..t] + [right];
        if |right| == 1 && right[0] == [c] {
          assert right == [[c]];
          found := true;
        }
      }
      assert rights[..|rights|] == rights;
      if found {
        heads := heads + {left};
      }
    }
  }

  /** The loop over the alternatives `B C` for one split point. */
  method PairHeads(p: Productions, x: set<Sym>, y: set<Sym>) returns (heads: set<Sym>)
    ensures heads == Heads2(p, x, y)
  {
    heads := {};
    var lefts := p.Keys;
    while lefts != {}
      invariant lefts <= p.Keys
      invariant heads == set a | a in p.Keys - lefts && exists r :: r in p[a] && |r| == 2 && r[0] in x && r[1] in y
      decreases lefts
    {
      var left :| left in lefts;
      lefts := lefts - {left};
      var rights := p[left];
      var found := false;
      for t := 0 to |rights|
        invariant found <==> exists r :: r in rights[..t] && |r| == 2 && r[0] in x && r[1] in y
      {
        var right := rights[t];
        assert rights[..t + 1] == rights[..t] + [right];
        if |right| == 2 {
          var b, c := right[0], right[1];
          if b in x && c in y {
            found := true;
          }
        }
      }
      assert rights[..|rights|] == rights;
      if found {
        heads := heads + {left};
      }
    }
  }

  /** Cell `[a, b]` is filled once the loops have passed it: all shorter
      spans, and the spans of the current length that start before `i`. */
  predicate Filled(a: nat, b: nat, length: nat, i: nat) {
    b - a + 1 < length || (b - a + 1 == length && a < i)
  }

  /** The loop over the split points of one cell `[i, j]`, with every
      shorter span already filled. */
  method FillCell(p: Productions, w: string, table: array2<set<Sym>>, i: nat, j: nat)
    requires table.Length0 == |w| && table.Length1 == |w|
    requires i < j < |w|
    requires table[i, j] == {}
    requires forall a, b :: 0 <= a <= b < |w| && b - a < j - i ==> table[a, b] == Cell(p, w, a, b)
    modifies table
    ensures table[i, j] == Cell(p, w, i, j)
    ensures forall a, b :: 0 <= a < |w| && 0 <= b < |w| && (a != i || b != j) ==> table[a, b] == old(table[a, b])
  {
    for k := i to j
      invariant table[i, j] == Splits(p, w, i, j, k)
      invariant forall a, b :: 0 <= a < |w| && 0 <= b < |w| && (a != i || b != j) ==> table[a, b] == old(table[a, b])
    {
      var heads := PairHeads(p, table[i, k], table[k + 1, j]);
      table[i, j] := table[i, j] + heads;
    }
  }

  /** `CYKParser`: the CYK test against a grammar. */
  class CykParser {
    const grammar: GrammarCnf

    constructor (grammar: GrammarCnf)
      ensures this.grammar == grammar
    {
      this.grammar := grammar;
    }

    /** `parse`: fills the table diagonal first, then by increasing span
        length, and answers whether the start symbol is in the top cell. */
    method Parse(w: string) returns (accepted: bool)
      ensures accepted == Accepts(grammar.productions, grammar.startSymbol, w)
    {
      var p := grammar.productions;
      if |w| == 0 {
        return exists a :: a in p && [Eps] in p[a];
      }
      var n := |w|;
      var table := new set<Sym>[n, n]((_, _) => {});
      for i := 0 to n
        invariant forall a, b :: 0 <= a <= b < n ==> table[a, b] == if Filled(a, b, 1, i) then Cell(p, w, a, b) else {}
      {
        var heads := DiagonalHeads(p, w[i]);
        table[i, i] := table[i, i] + heads;
      }
      for length := 2 to n + 1
        invariant forall a, b :: 0 <= a <= b < n ==> table[a, b] == if Filled(a, b, length, 0) then Cell(p, w, a, b) else {}
      {
        for i := 0 to n - length + 1
          invariant forall a, b :: 0 <= a <= b < n ==> table[a, b] == if Filled(a, b, length, i) then Cell(p, w, a, b) else {}
        {
          FillCell(p, w, table, i, i + length - 1);
        }
      }
      accepted := grammar.startSymbol.Some? && grammar.startSymbol.value in table[0, n - 1];
    }
  }
}
