/** Context-free grammars and their conversion to Chomsky normal form
    (class GrammarCNF of main.py).

    A grammar symbol is a string; a right-hand side is a sequence of
    symbols; the productions map each left side to its alternatives in the
    order they were added. Upper-case symbols are variables, everything
    else except the marker "ε" is a terminal. */
module Grammar {

  type Sym = string
  type Rhs = seq<Sym>
  type Productions = map<Sym, seq<Rhs>>

  datatype Option<T> = None | Some(value: T)

  /** The marker the grammar uses for the empty right side `['ε']`. */
  const Eps: Sym := "ε"

  /** `productions.get(a, [])`. */
  function Alternatives(p: Productions, a: Sym): seq<Rhs> {
    if a in p then p[a] else []
  }

  predicate Distinct<T(==)>(s: seq<T>) {
    forall i, j :: 0 <= i < j < |s| ==> s[i] != s[j]
  }

  // ---------------------------------------------------------------------------
  // `str.isupper` and the names of new variables
  // ---------------------------------------------------------------------------

  predicate UpperChar(c: char) { 'A' <= c <= 'Z' }

  predicate LowerChar(c: char) { 'a' <= c <= 'z' }

  /** `str.isupper` over ASCII letters: some upper-case letter and no
      lower-case one (digits and other characters are uncased). */
  predicate IsUpper(s: Sym) {
    (exists i :: 0 <= i < |s| && UpperChar(s[i])) &&
    forall i :: 0 <= i < |s| ==> !LowerChar(s[i])
  }

  function Digit(d: nat): (c: char)
    requires d < 10
    ensures '0' <= c <= '9'
  {
    (d + 48) as char
  }

  /** The decimal numeral of `n`, as Python's `str` writes it. */
  function Decimal(n: nat): (r: string)
    ensures 1 <= |r|
    ensures |r| == 1 <==> n < 10
    ensures forall i :: 0 <= i < |r| ==> '0' <= r[i] <= '9'
    decreases n
  {
    if n < 10 then [Digit(n)] else Decimal(n / 10) + [Digit(n % 10)]
  }

  /** `f"X{k}"`. */
  function VarName(k: nat): Sym {
    "X" + Decimal(k)
  }

  /** Different numbers have different numerals. */
  lemma {:induction false} DecimalInjective(a: nat, b: nat)
    requires Decimal(a) == Decimal(b)
    ensures a == b
    decreases a
  {
    var da, db := Decimal(a), Decimal(b);
    if a < 10 {
      assert Digit(a) == da[0] == db[0] == Digit(b);
    } else {
      assert Digit(a % 10) == da[|da| - 1] == db[|db| - 1] == Digit(b % 10);
      assert Decimal(a / 10) == da[..|da| - 1] == db[..|db| - 1] == Decimal(b / 10);
      DecimalInjective(a / 10, b / 10);
    }
  }

  /** Every counter value names a different variable, and each name is a
      variable (upper case) by `isupper`. */
  lemma VarNames(a: nat, b: nat)
    ensures VarName(a) == VarName(b) ==> a == b
    ensures IsUpper(VarName(a))
  {
    if VarName(a) == VarName(b) {
      assert Decimal(a) == VarName(a)[1..] == VarName(b)[1..] == Decimal(b);
      DecimalInjective(a, b);
    }
    var s := VarName(a);
    assert UpperChar(s[0]);
    forall i | 0 <= i < |s|
      ensures !LowerChar(s[i])
    {
      if i > 0 {
        assert s[i] == Decimal(a)[i - 1];
      }
    }
  }

  /** The counter values from `k` on whose names are already taken in `names`. */
  ghost function Taken(names: set<Sym>, k: nat): set<Sym> {
    set x | x in names && exists j: nat :: k <= j && x == VarName(j)
  }

  // ---------------------------------------------------------------------------
  // Nullable variables: the least fixpoint of the rule in
  // `remove_epsilon_productions`
  // ---------------------------------------------------------------------------

  /** A right side that makes its left side nullable once the symbols in
      `n` are known to be: `['ε']`, or every symbol nullable (so also the
      empty right side). */
  predicate NullableRhs(r: Rhs, n: set<Sym>) {
    r == [Eps] || forall s :: s in r ==> s in n
  }

  /** `m` is closed under the nullable rule. */
  ghost predicate NullClosed(p: Productions, m: set<Sym>) {
    forall a, r :: a in p && r in p[a] && NullableRhs(r, m) ==> a in m
  }

  /** One round of the rule applied to every left side at once. */
  function NullStep(p: Productions, n: set<Sym>): set<Sym> {
    n + set a | a in p && exists r :: r in p[a] && NullableRhs(r, n)
  }

  /** Rounds of `NullStep` from `n` until nothing changes. */
  function NullableFrom(p: Productions, n: set<Sym>): set<Sym>
    requires n <= p.Keys
    decreases p.Keys - n
  {
    var n2 := NullStep(p, n);
    if n2 == n then n else NullableFrom(p, n2)
  }

  /** The nullable variables, as an independent reference: rounds from the
      empty set. */
  function NullableSet(p: Productions): set<Sym> {
    NullableFrom(p, {})
  }

  lemma {:induction false} NullableFromLeast(p: Productions, n: set<Sym>)
    requires n <= p.Keys
    requires forall m :: NullClosed(p, m) ==> n <= m
    ensures NullableFrom(p, n) <= p.Keys
    ensures NullClosed(p, NullableFrom(p, n))
    ensures forall m :: NullClosed(p, m) ==> NullableFrom(p, n) <= m
    decreases p.Keys - n
  {
    var n2 := NullStep(p, n);
    if n2 != n {
      forall m | NullClosed(p, m)
        ensures n2 <= m
      {
        forall a | a in n2
          ensures a in m
        {
          if a !in n {
            var r :| r in p[a] && NullableRhs(r, n);
            assert NullableRhs(r, m);
          }
        }
      }
      NullableFromLeast(p, n2);
    }
  }

  /** The nullable variables are the least set closed under the rule. */
  lemma NullableLeast(p: Productions)
    ensures NullableSet(p) <= p.Keys
    ensures NullClosed(p, NullableSet(p))
    ensures forall m :: NullClosed(p, m) ==> NullableSet(p) <= m
  {
    NullableFromLeast(p, {});
  }

  /** The loop in `remove_epsilon_productions` that finds the nullable
      variables: passes over the left sides not yet nullable, each adding
      the left side at its first right side that is nullable, until a pass
      adds nothing. */
  method FindNullable(p: Productions) returns (nullable: set<Sym>)
    ensures nullable == NullableSet(p)
  {
    nullable := {};
    var changed := true;
    while changed
      invariant nullable <= p.Keys
      invariant forall m :: NullClosed(p, m) ==> nullable <= m
      invariant !changed ==> NullClosed(p, nullable)
      decreases p.Keys - nullable, if changed then 1 else 0
    {
      changed := false;
      ghost var before := nullable;
      var todo := p.Keys;
      while todo != {}
        invariant todo <= p.Keys && before <= nullable <= p.Keys
        invariant forall m :: NullClosed(p, m) ==> nullable <= m
        invariant changed == (nullable != before)
        invariant !changed ==> forall a, r :: a in p.Keys - todo && r in p[a] && NullableRhs(r, nullable) ==> a in nullable
        decreases todo
      {
        var left :| left in todo;
        todo := todo - {left};
        if left !in nullable {
          var rights := p[left];
          var i := 0;
          var found := false;
          while i < |rights| && !found
            invariant 0 <= i <= |rights|
            invariant !found ==> forall t :: 0 <= t < i ==> !NullableRhs(rights[t], nullable)
            invariant found ==> 0 < i && NullableRhs(rights[i - 1], nullable)
            decreases |rights| - i, if found then 0 else 1
          {
            if rights[i] == [Eps] || forall s :: s in rights[i] ==> s in nullable {
              found := true;
            }
            i := i + 1;
          }
          if found {
            forall m | NullClosed(p, m)
              ensures left in m
            {
              assert NullableRhs(rights[i - 1], m);
            }
            nullable := nullable + {left};
            changed := true;
          }
        }
      }
    }
    NullableLeast(p);
  }

  // ---------------------------------------------------------------------------
  // `_generate_combinations`
  // ---------------------------------------------------------------------------

  /** `c` is `p` with some occurrences of symbols in `n` deleted. */
  ghost predicate IsDeletion(p: Rhs, n: set<Sym>, c: Rhs)
    decreases |p|
  {
    if p == [] then c == []
    else
      (|c| > 0 && c[0] == p[0] && IsDeletion(p[1..], n, c[1..])) ||
      (p[0] in n && IsDeletion(p[1..], n, c))
  }

  /** How many combinations a right side has: a factor 2 per nullable occurrence. */
  function CombinationCount(p: Rhs, n: set<Sym>): nat
    decreases |p|
  {
    if p == [] then 1 else (if p[0] in n then 2 else 1) * CombinationCount(p[1..], n)
  }

  /** The combinations of `first` followed by each of `rest`, in the order
      the loop appends them: with `first`, then (if nullable) without. */
  function Prefixed(first: Sym, rest: seq<Rhs>, n: set<Sym>): (r: seq<Rhs>)
    ensures |r| == |rest| * (if first in n then 2 else 1)
    decreases |rest|
  {
    if rest == [] then []
    else
      var c := rest[|rest| - 1];
      Prefixed(first, rest[..|rest| - 1], n) + (if first in n then [[first] + c, c] else [[first] + c])
  }

  /** What `_generate_combinations` returns. */
  function Combinations(p: Rhs, n: set<Sym>): seq<Rhs>
    decreases |p|
  {
    if p == [] then [[]] else Prefixed(p[0], Combinations(p[1..], n), n)
  }

  lemma {:induction false} PrefixedMember(first: Sym, rest: seq<Rhs>, n: set<Sym>, c: Rhs)
    ensures c in Prefixed(first, rest, n) <==>
      exists d :: d in rest && (c == [first] + d || (first in n && c == d))
    decreases |rest|
  {
    if rest != [] {
      var init := rest[..|rest| - 1];
      var last := rest[|rest| - 1];
      PrefixedMember(first, init, n, c);
      assert rest == init + [last];
      if c in Prefixed(first, rest, n) && c !in Prefixed(first, init, n) {
        assert c == [first] + last || (first in n && c == last);
      }
    }
  }

  /** The combinations are exactly the deletions of nullable occurrences. */
  lemma {:induction false} CombinationsMember(p: Rhs, n: set<Sym>, c: Rhs)
    ensures c in Combinations(p, n) <==> IsDeletion(p, n, c)
    decreases |p|
  {
    if p != [] {
      var rest := Combinations(p[1..], n);
      PrefixedMember(p[0], rest, n, c);
      if c in Combinations(p, n) {
        var d :| d in rest && (c == [p[0]] + d || (p[0] in n && c == d));
        CombinationsMember(p[1..], n, d);
        if c == [p[0]] + d {
          assert c[1..] == d;
        }
      }
      if IsDeletion(p, n, c) {
        if |c| > 0 && c[0] == p[0] && IsDeletion(p[1..], n, c[1..]) {
          CombinationsMember(p[1..], n, c[1..]);
          assert c == [p[0]] + c[1..];
        } else {
          CombinationsMember(p[1..], n, c);
        }
      }
    }
  }

  /** There are `CombinationCount` of them, and `p` itself is one. */
  lemma {:induction false} CombinationsCount(p: Rhs, n: set<Sym>)
    ensures |Combinations(p, n)| == CombinationCount(p, n)
    ensures p in Combinations(p, n)
    decreases |p|
  {
    if p != [] {
      CombinationsCount(p[1..], n);
      var rest := Combinations(p[1..], n);
      PrefixedMember(p[0], rest, n, p);
      assert p == [p[0]] + p[1..];
    }
  }

  /** `_generate_combinations`: the combinations of the tail, each with the
      head in front and, when the head is nullable, also without it. */
  method GenerateCombinations(production: Rhs, nullable: set<Sym>) returns (result: seq<Rhs>)
    ensures result == Combinations(production, nullable)
    decreases |production|
  {
    if production == [] {
      return [[]];
    }
    result := [];
    var first := production[0];
    var restCombinations := GenerateCombinations(production[1..], nullable);
    for i := 0 to |restCombinations|
      invariant result == Prefixed(first, restCombinations[..i], nullable)
    {
      var combo := restCombinations[i];
      assert restCombinations[..i + 1][..i] == restCombinations[..i];
      result := result + [[first] + combo];
      if first in nullable {
        result := result + [combo];
      }
    }
    assert restCombinations[..|restCombinations|] == restCombinations;
  }

  // ---------------------------------------------------------------------------
  // The alternatives `remove_epsilon_productions` keeps
  // ---------------------------------------------------------------------------

  /** `acc` followed by the nonempty members of `cs` not already there, in order. */
  function Gather(acc: seq<Rhs>, cs: seq<Rhs>): seq<Rhs>
    decreases |cs|
  {
    if cs == [] then acc
    else
      var a := Gather(acc, cs[..|cs| - 1]);
      var c := cs[|cs| - 1];
      if c != [] && c !in a then a + [c] else a
  }

  /** The new alternatives of one left side: the combinations of each old
      alternative other than `['ε']`, in order, without empty or repeated ones. */
  function EpsilonFree(rights: seq<Rhs>, n: set<Sym>): seq<Rhs>
    decreases |rights|
  {
    if rights == [] then []
    else
      var a := EpsilonFree(rights[..|rights| - 1], n);
      var r := rights[|rights| - 1];
      if r == [Eps] then a else Gather(a, Combinations(r, n))
  }

  lemma {:induction false} GatherMember(acc: seq<Rhs>, cs: seq<Rhs>, c: Rhs)
    ensures c in Gather(acc, cs) <==> c in acc || (c != [] && c in cs)
    decreases |cs|
  {
    if cs != [] {
      GatherMember(acc, cs[..|cs| - 1], c);
      assert cs == cs[..|cs| - 1] + [cs[|cs| - 1]];
    }
  }

  lemma {:induction false} GatherDistinct(acc: seq<Rhs>, cs: seq<Rhs>)
    requires Distinct(acc)
    ensures Distinct(Gather(acc, cs))
    decreases |cs|
  {
    if cs != [] {
      GatherDistinct(acc, cs[..|cs| - 1]);
    }
  }

  /** What one left side keeps: exactly the nonempty deletions of nullable
      occurrences from its alternatives other than `['ε']`, each once. */
  lemma {:induction false} EpsilonFreeMeaning(rights: seq<Rhs>, n: set<Sym>)
    ensures Distinct(EpsilonFree(rights, n))
    ensures forall c :: c in EpsilonFree(rights, n) <==>
      c != [] && exists r :: r in rights && r != [Eps] && IsDeletion(r, n, c)
    decreases |rights|
  {
    if rights != [] {
      var init := rights[..|rights| - 1];
      var r := rights[|rights| - 1];
      EpsilonFreeMeaning(init, n);
      assert rights == init + [r];
      assert forall x :: x in rights <==> x in init || x == r;
      if r != [Eps] {
        GatherDistinct(EpsilonFree(init, n), Combinations(r, n));
      }
      forall c
        ensures c in EpsilonFree(rights, n) <==>
          c != [] && exists r' :: r' in rights && r' != [Eps] && IsDeletion(r', n, c)
      {
        CombinationsMember(r, n, c);
        if r != [Eps] {
          GatherMember(EpsilonFree(init, n), Combinations(r, n), c);
        }
        if c != [] && exists r' :: r' in rights && r' != [Eps] && IsDeletion(r', n, c) {
          var r' :| r' in rights && r' != [Eps] && IsDeletion(r', n, c);
          if r' in init {
            assert c in EpsilonFree(init, n);
          }
        }
      }
    }
  }

  /** The per-left-side loop of `remove_epsilon_productions`. */
  method EpsilonFreeAlternatives(rights: seq<Rhs>, nullable: set<Sym>) returns (alts: seq<Rhs>)
    ensures alts == EpsilonFree(rights, nullable)
  {
    alts := [];
    for i := 0 to |rights|
      invariant alts == EpsilonFree(rights[..i], nullable)
    {
      var right := rights[i];
      assert rights[..i + 1][..i] == rights[..i];
      if right == [Eps] {
        continue;
      }
      var combinations := GenerateCombinations(right, nullable);
      ghost var start := alts;
      for j := 0 to |combinations|
        invariant alts == Gather(start, combinations[..j])
      {
        var combo := combinations[j];
        assert combinations[..j + 1][..j] == combinations[..j];
        if combo != [] && combo !in alts {
          alts := alts + [combo];
        }
      }
      assert combinations[..|combinations|] == combinations;
    }
    assert rights[..|rights|] == rights;
  }

  /** The productions without `['ε']`, before any new start symbol. */
  function EpsilonFreeAll(p: Productions, n: set<Sym>): (r: Productions)
    ensures r.Keys == p.Keys
  {
    map a | a in p :: EpsilonFree(p[a], n)
  }

  // ---------------------------------------------------------------------------
  // Unit pairs: which variables reach which through single-variable rules
  // ---------------------------------------------------------------------------

  /** A right side made of one variable: a unit rule. */
  predicate IsUnitRhs(r: Rhs, nts: set<Sym>) {
    |r| == 1 && r[0] in nts
  }

  /** `a -> b` is a unit rule. */
  ghost predicate UnitEdge(p: Productions, nts: set<Sym>, a: Sym, b: Sym) {
    a in p && [b] in p[a] && b in nts
  }

  ghost predicate UnitChain(p: Productions, nts: set<Sym>, c: seq<Sym>) {
    |c| >= 1 && forall i :: 0 <= i < |c| - 1 ==> UnitEdge(p, nts, c[i], c[i + 1])
  }

  /** `b` follows from `a` by zero or more unit rules: the reference
      definition of a unit pair. */
  ghost predicate UnitReach(p: Productions, nts: set<Sym>, a: Sym, b: Sym) {
    exists c :: UnitChain(p, nts, c) && c[0] == a && c[|c| - 1] == b
  }

  lemma UnitReachRefl(p: Productions, nts: set<Sym>, a: Sym)
    ensures UnitReach(p, nts, a, a)
  {
    assert UnitChain(p, nts, [a]);
  }

  lemma UnitReachPrepend(p: Productions, nts: set<Sym>, a: Sym, b: Sym, c: Sym)
    requires UnitEdge(p, nts, a, b) && UnitReach(p, nts, b, c)
    ensures UnitReach(p, nts, a, c)
  {
    var ch :| UnitChain(p, nts, ch) && ch[0] == b && ch[|ch| - 1] == c;
    var ch2 := [a] + ch;
    assert UnitChain(p, nts, ch2);
  }

  /** Every pair the table holds is a unit pair. */
  ghost predicate PairsSound(p: Productions, nts: set<Sym>, pairs: map<Sym, set<Sym>>) {
    forall a, c :: a in pairs && c in pairs[a] ==> UnitReach(p, nts, a, c)
  }

  /** A unit rule `a -> b` carries everything `b` reaches over to `a`. */
  ghost predicate PairsClosed(p: Productions, nts: set<Sym>, pairs: map<Sym, set<Sym>>) {
    forall a, b :: a in pairs && UnitEdge(p, nts, a, b) ==> b in pairs && pairs[b] <= pairs[a]
  }

  /** A closed table that holds each variable's pair with itself holds every unit pair. */
  lemma {:induction false} ClosedHasReach(p: Productions, nts: set<Sym>, pairs: map<Sym, set<Sym>>, c: seq<Sym>)
    requires pairs.Keys == nts && PairsClosed(p, nts, pairs)
    requires forall a :: a in nts ==> a in pairs[a]
    requires UnitChain(p, nts, c) && c[0] in nts
    ensures c[|c| - 1] in pairs[c[0]]
    decreases |c|
  {
    if |c| > 1 {
      var rest := c[1..];
      assert UnitEdge(p, nts, c[0], c[1]);
      assert UnitChain(p, nts, rest);
      ClosedHasReach(p, nts, pairs, rest);
    }
  }

  /** The (variable, variable) pairs a table does not hold yet. */
  ghost function Missing(nts: set<Sym>, pairs: map<Sym, set<Sym>>): set<(Sym, Sym)> {
    set a, c | a in nts && c in nts && !(a in pairs && c in pairs[a]) :: (a, c)
  }

  /** What the unit-pair table keeps throughout: one entry per variable,
      holding the variable itself and only unit pairs. */
  ghost predicate PairsInv(p: Productions, nts: set<Sym>, pairs: map<Sym, set<Sym>>) {
    && pairs.Keys == nts
    && (forall a :: a in nts ==> a in pairs[a] && pairs[a] <= nts)
    && PairsSound(p, nts, pairs)
  }

  /** `pairs` has only gained pairs since `before`, and some iff `changed`. */
  ghost predicate Progress(nts: set<Sym>, before: map<Sym, set<Sym>>, pairs: map<Sym, set<Sym>>, changed: bool) {
    && Missing(nts, pairs) <= Missing(nts, before)
    && (changed ==> Missing(nts, pairs) < Missing(nts, before))
    && (!changed ==> pairs == before)
  }

  /** Adding one pair `(left, c)` with `c` reached from `left` keeps the
      invariant and shrinks what is missing. */
  lemma AddPair(p: Productions, nts: set<Sym>, pairs: map<Sym, set<Sym>>, left: Sym, b: Sym, c: Sym)
    requires PairsInv(p, nts, pairs) && left in nts && UnitEdge(p, nts, left, b)
    requires c in pairs[b] && c !in pairs[left]
    ensures PairsInv(p, nts, pairs[left := pairs[left] + {c}])
    ensures Missing(nts, pairs[left := pairs[left] + {c}]) < Missing(nts, pairs)
  {
    UnitReachPrepend(p, nts, left, b, c);
    assert (left, c) in Missing(nts, pairs);
  }

  lemma ProgressTrans(nts: set<Sym>, p0: map<Sym, set<Sym>>, c0: bool, p1: map<Sym, set<Sym>>, c1: bool, p2: map<Sym, set<Sym>>)
    requires Progress(nts, p0, p1, c0) && Progress(nts, p1, p2, c1)
    ensures Progress(nts, p0, p2, c0 || c1)
  {
  }

  /** The innermost loop of the unit-pair pass, for one unit rule
      `left -> b`: every pair of `b` that `left` lacks is added. */
  method JoinPairs(p: Productions, nts: set<Sym>, pairs: map<Sym, set<Sym>>, left: Sym, b: Sym)
    returns (pairs2: map<Sym, set<Sym>>, changed: bool)
    requires PairsInv(p, nts, pairs) && left in nts && UnitEdge(p, nts, left, b)
    ensures PairsInv(p, nts, pairs2) && Progress(nts, pairs, pairs2, changed)
    ensures pairs2[b] <= pairs2[left]
  {
    pairs2 := pairs;
    changed := false;
    var cs := pairs[b];
    while cs != {}
      invariant PairsInv(p, nts, pairs2) && Progress(nts, pairs, pairs2, changed)
      invariant cs <= pairs[b] && pairs2[b] == pairs[b]
      invariant forall c :: c in pairs[b] - cs ==> c in pairs2[left]
      decreases cs
    {
      var c :| c in cs;
      cs := cs - {c};
      if c !in pairs2[left] {
        AddPair(p, nts, pairs2, left, b, c);
        pairs2 := pairs2[left := pairs2[left] + {c}];
        changed := true;
      }
    }
  }

  /** One left side's share of a pass: each of its unit rules in turn. */
  method LeftPairs(p: Productions, nts: set<Sym>, pairs: map<Sym, set<Sym>>, left: Sym)
    returns (pairs2: map<Sym, set<Sym>>, changed: bool)
    requires PairsInv(p, nts, pairs) && left in nts
    ensures PairsInv(p, nts, pairs2) && Progress(nts, pairs, pairs2, changed)
    ensures !changed ==> forall b :: UnitEdge(p, nts, left, b) ==> pairs[b] <= pairs[left]
  {
    pairs2 := pairs;
    changed := false;
    var rights := Alternatives(p, left);
    for i := 0 to |rights|
      invariant PairsInv(p, nts, pairs2) && Progress(nts, pairs, pairs2, changed)
      invariant !changed ==> forall t :: 0 <= t < i && IsUnitRhs(rights[t], nts) ==> pairs[rights[t][0]] <= pairs[left]
    {
      var right := rights[i];
      if |right| == 1 && right[0] in nts {
        var b := right[0];
        assert right == [b];
        var pairs3, c := JoinPairs(p, nts, pairs2, left, b);
        ProgressTrans(nts, pairs, changed, pairs2, c, pairs3);
        pairs2, changed := pairs3, changed || c;
      }
    }
    if !changed {
      forall b | UnitEdge(p, nts, left, b)
        ensures pairs[b] <= pairs[left]
      {
        var t :| 0 <= t < |rights| && rights[t] == [b];
        assert IsUnitRhs(rights[t], nts);
      }
    }
  }

  /** The unit-pair loop of `remove_unit_productions`: every variable starts
      with itself; passes over the unit rules `a -> b` add what `b` holds to
      `a` until a pass adds nothing. */
  method UnitPairs(p: Productions, nts: set<Sym>) returns (pairs: map<Sym, set<Sym>>)
    ensures pairs.Keys == nts
    ensures forall a, c :: a in nts ==> (c in pairs[a] <==> UnitReach(p, nts, a, c))
  {
    pairs := map a | a in nts :: {a};
    forall a | a in nts
      ensures UnitReach(p, nts, a, a)
    {
      UnitReachRefl(p, nts, a);
    }
    var changed := true;
    while changed
      invariant PairsInv(p, nts, pairs)
      invariant !changed ==> PairsClosed(p, nts, pairs)
      decreases Missing(nts, pairs), if changed then 1 else 0
    {
      changed := false;
      ghost var before := pairs;
      var lefts := nts;
      while lefts != {}
        invariant lefts <= nts
        invariant PairsInv(p, nts, pairs) && Progress(nts, before, pairs, changed)
        invariant !changed ==> forall a, b :: a in nts - lefts && UnitEdge(p, nts, a, b) ==> pairs[b] <= pairs[a]
        decreases lefts
      {
        var left :| left in lefts;
        lefts := lefts - {left};
        var pairs2, c := LeftPairs(p, nts, pairs, left);
        ProgressTrans(nts, before, changed, pairs, c, pairs2);
        pairs, changed := pairs2, changed || c;
      }
    }
    forall a, c | a in nts && UnitReach(p, nts, a, c)
      ensures c in pairs[a]
    {
      var ch :| UnitChain(p, nts, ch) && ch[0] == a && ch[|ch| - 1] == c;
      ClosedHasReach(p, nts, pairs, ch);
    }
  }

  /** `alts` followed by the alternatives in `rights` that are not unit
      rules and not already there. */
  method AppendNonUnit(alts: seq<Rhs>, rights: seq<Rhs>, nts: set<Sym>) returns (alts2: seq<Rhs>)
    requires Distinct(alts)
    ensures Distinct(alts2)
    ensures forall r :: r in alts2 <==> r in alts || (r in rights && !IsUnitRhs(r, nts))
  {
    alts2 := alts;
    for i := 0 to |rights|
      invariant Distinct(alts2)
      invariant forall r :: r in alts2 <==> r in alts || (r in rights[..i] && !IsUnitRhs(r, nts))
    {
      var right := rights[i];
      assert rights[..i + 1] == rights[..i] + [right];
      if !(|right| == 1 && right[0] in nts) {
        if right !in alts2 {
          alts2 := alts2 + [right];
        }
      }
    }
    assert rights[..|rights|] == rights;
  }

  /** The alternatives one left side gets in `remove_unit_productions`:
      those of every variable it reaches, except unit rules, each once. */
  method UnitFreeAlternatives(p: Productions, nts: set<Sym>, reached: set<Sym>) returns (alts: seq<Rhs>)
    ensures Distinct(alts)
    ensures forall r :: r in alts <==> !IsUnitRhs(r, nts) && exists b :: b in reached && r in Alternatives(p, b)
  {
    alts := [];
    var bs := reached;
    while bs != {}
      invariant bs <= reached && Distinct(alts)
      invariant forall r :: r in alts <==> !IsUnitRhs(r, nts) && exists b :: b in reached - bs && r in Alternatives(p, b)
      decreases bs
    {
      var b :| b in bs;
      bs := bs - {b};
      alts := AppendNonUnit(alts, Alternatives(p, b), nts);
    }
  }

  /** Removing unit rules keeps alternatives nonempty: each kept one is an
      alternative of the old grammar. */
  lemma UnitFreeNonEmpty(p: Productions, nts: set<Sym>, q: Productions)
    requires NoEmptyAlternatives(p)
    requires forall a, r :: a in q && r in q[a] ==> exists b :: UnitReach(p, nts, a, b) && r in Alternatives(p, b)
    ensures NoEmptyAlternatives(q)
  {
    forall a, r | a in q && r in q[a]
      ensures r != []
    {
      var b :| UnitReach(p, nts, a, b) && r in Alternatives(p, b);
    }
  }

  // ---------------------------------------------------------------------------
  // What `convert_to_cnf` promises
  // ---------------------------------------------------------------------------

  predicate NoEmptyAlternatives(p: Productions) {
    forall a, r :: a in p && r in p[a] ==> r != []
  }

  /** A right side of Chomsky normal form: one symbol, or two symbols neither
      of which is a terminal. */
  predicate CnfRhs(r: Rhs, ts: set<Sym>) {
    |r| == 1 || (|r| == 2 && r[0] !in ts && r[1] !in ts)
  }

  /** Every alternative of `p` is in Chomsky normal form. */
  predicate IsCnf(p: Productions, ts: set<Sym>) {
    forall a, r :: a in p && r in p[a] ==> CnfRhs(r, ts)
  }

  /** `q` extends `p`: it keeps every left side of `p` with its alternatives. */
  predicate Extends(p: Productions, q: Productions) {
    forall a :: a in p ==> a in q && q[a] == p[a]
  }

  /** Symbol `x` of the converted grammar stands for symbol `s` of the old
      one: the terminal's variable `tv[s]` for a terminal, `s` itself otherwise. */
  predicate StandsFor(tv: map<Sym, Sym>, ts: set<Sym>, x: Sym, s: Sym) {
    if s in ts then s in tv && x == tv[s] else x == s
  }

  /** `x` spells the nonempty sequence `u` through the binary rules of `q`:
      for one symbol, `x` stands for it; for more, `x`'s only rule is
      `y z` where `y` spells all but the last symbol and `z` stands for the last. */
  ghost predicate Spells(q: Productions, tv: map<Sym, Sym>, ts: set<Sym>, x: Sym, u: Rhs)
    decreases |u|
  {
    if |u| == 0 then false
    else if |u| == 1 then StandsFor(tv, ts, x, u[0])
    else
      && x in q && |q[x]| == 1 && |q[x][0]| == 2
      && Spells(q, tv, ts, q[x][0][0], u[..|u| - 1])
      && StandsFor(tv, ts, q[x][0][1], u[|u| - 1])
  }

  /** The converted alternative `r2` says what the old alternative `r` said:
      a single symbol is kept as it is; a longer one becomes `y z`, where
      `y` spells all of `r` but its last symbol and `z` stands for that last. */
  ghost predicate Converted(q: Productions, tv: map<Sym, Sym>, ts: set<Sym>, r: Rhs, r2: Rhs) {
    if |r| == 1 then r2 == r
    else
      && |r| >= 2 && |r2| == 2
      && Spells(q, tv, ts, r2[0], r[..|r| - 1])
      && StandsFor(tv, ts, r2[1], r[|r| - 1])
  }

  /** `tv` gives each terminal a variable whose only alternative is that terminal. */
  ghost predicate TerminalRules(q: Productions, tv: map<Sym, Sym>, ts: set<Sym>) {
    forall t :: t in ts ==> t in tv && tv[t] in q && q[tv[t]] == [[t]]
  }

  lemma {:induction false} SpellsExtends(q1: Productions, q2: Productions, tv: map<Sym, Sym>, ts: set<Sym>, x: Sym, u: Rhs)
    requires Extends(q1, q2) && Spells(q1, tv, ts, x, u)
    ensures Spells(q2, tv, ts, x, u)
    decreases |u|
  {
    if |u| > 1 {
      SpellsExtends(q1, q2, tv, ts, q1[x][0][0], u[..|u| - 1]);
    }
  }

  lemma ConvertedExtends(q1: Productions, q2: Productions, tv: map<Sym, Sym>, ts: set<Sym>, r: Rhs, r2: Rhs)
    requires Extends(q1, q2) && Converted(q1, tv, ts, r, r2)
    ensures Converted(q2, tv, ts, r, r2)
  {
    if |r| != 1 {
      SpellsExtends(q1, q2, tv, ts, r2[0], r[..|r| - 1]);
    }
  }

  /** The loops of `convert_to_cnf` that swap each terminal of a right
      side for its variable. */
  method ReplaceTerminals(right: Rhs, tv: map<Sym, Sym>, ts: set<Sym>) returns (r: Rhs)
    requires forall t :: t in ts ==> t in tv && tv[t] !in ts
    ensures |r| == |right|
    ensures forall k :: 0 <= k < |r| ==> StandsFor(tv, ts, r[k], right[k]) && r[k] !in ts
  {
    r := [];
    for k := 0 to |right|
      invariant |r| == k
      invariant forall m :: 0 <= m < k ==> StandsFor(tv, ts, r[m], right[m]) && r[m] !in ts
    {
      var symbol := right[k];
      if symbol in ts {
        r := r + [tv[symbol]];
      } else {
        r := r + [symbol];
      }
    }
  }

  /** What `remove_epsilon_productions` does to productions `p0`, start `s0`
      and variables `v0`, giving `p1`, `s1` and `v1`: every left side keeps
      its ε-free alternatives; a nullable start is replaced by a new
      variable with the alternatives `[old start]` and `['ε']`. */
  ghost predicate EpsilonRemoved(p0: Productions, s0: Option<Sym>, v0: set<Sym>,
                                 p1: Productions, s1: Option<Sym>, v1: set<Sym>)
  {
    var n := NullableSet(p0);
    var cleaned := EpsilonFreeAll(p0, n);
    if s0.Some? && s0.value in n then
      && s1.Some? && s1.value !in v0
      && v1 == v0 + {s1.value}
      && p1 == cleaned[s1.value := [[s0.value], [Eps]]]
    else
      s1 == s0 && v1 == v0 && p1 == cleaned
  }

  /** What `remove_unit_productions` does to productions `p1` over the
      variables `v`, giving `p2`: every variable gets, once each, exactly
      the alternatives that are not unit rules of the variables it reaches
      by unit rules. */
  ghost predicate UnitsRemoved(p1: Productions, v: set<Sym>, p2: Productions) {
    && p2.Keys == v
    && (forall a, r :: a in p2 && r in p2[a] ==> !IsUnitRhs(r, v))
    && (forall a, r :: a in p2 && r in p2[a] ==>
          exists b :: UnitReach(p1, v, a, b) && r in Alternatives(p1, b))
    && (forall a, b, r ::
          (a in p2 && UnitReach(p1, v, a, b) && r in Alternatives(p1, b) && !IsUnitRhs(r, v)) ==> r in p2[a])
    && (forall a :: a in p2 ==> Distinct(p2[a]))
  }

  /** A left side that `convert_to_cnf` adds: the variable of a terminal,
      or a chain variable with a single binary alternative. */
  ghost predicate AddedRule(p3: Productions, tv: map<Sym, Sym>, ts: set<Sym>, a: Sym)
    requires a in p3
  {
    (exists t :: t in ts && t in tv && tv[t] == a) || (|p3[a]| == 1 && |p3[a][0]| == 2)
  }

  /** What `convert_to_cnf` does to productions `p2` over the variables `v`
      and the terminals `ts`, giving `p3`: the result is in Chomsky normal
      form, each terminal has a variable deriving it, every old alternative
      is replaced, in place, by its conversion, and every other left side is
      a new variable (not in `v`) for a terminal or a chain link. */
  ghost predicate CnfConverted(p2: Productions, v: set<Sym>, ts: set<Sym>, p3: Productions) {
    && IsCnf(p3, ts)
    && p2.Keys <= p3.Keys
    && (forall a :: a in p3 && a !in p2 ==> a !in v)
    && exists tv ::
      && TerminalRules(p3, tv, ts)
      && (forall a :: a in p2 ==>
           && |p3[a]| == |p2[a]|
           && forall i :: 0 <= i < |p3[a]| ==> Converted(p3, tv, ts, p2[a][i], p3[a][i]))
      && (forall a :: a in p3 && a !in p2 ==> AddedRule(p3, tv, ts, a))
  }

  /** The end of `convert_to_cnf`: `src` is the grammar `p0` with the
      terminal variables added, and `q` holds the converted alternatives of
      every left side of `src` plus fresh chain links. */
  lemma CnfConvertedIntro(p0: Productions, v: set<Sym>, ts: set<Sym>, src: Productions, q: Productions, tv: map<Sym, Sym>)
    requires IsCnf(q, ts)
    requires p0.Keys <= src.Keys && forall a :: a in p0 ==> src[a] == p0[a]
    requires TerminalRules(src, tv, ts) && forall t :: t in ts ==> tv[t] !in v
    requires forall a :: a in src && a !in p0 ==> exists t :: t in ts && t in tv && tv[t] == a
    requires src.Keys <= q.Keys
    requires forall a :: a in src ==>
      && |q[a]| == |src[a]|
      && forall i :: 0 <= i < |src[a]| ==> Converted(q, tv, ts, src[a][i], q[a][i])
    requires forall a :: a in q && a !in src ==> a !in v && |q[a]| == 1 && |q[a][0]| == 2
    ensures CnfConverted(p0, v, ts, q)
  {
    forall t | t in ts
      ensures tv[t] in q && q[tv[t]] == [[t]]
    {
      assert src[tv[t]][0] == [t];
      assert Converted(q, tv, ts, src[tv[t]][0], q[tv[t]][0]);
    }
    forall a | a in q && a !in p0
      ensures a !in v && AddedRule(q, tv, ts, a)
    {
      if a in src {
        var t :| t in ts && t in tv && tv[t] == a;
      }
    }
    assert TerminalRules(q, tv, ts);
    assert forall a :: a in p0 ==>
      && |q[a]| == |p0[a]|
      && forall i :: 0 <= i < |q[a]| ==> Converted(q, tv, ts, p0[a][i], q[a][i]);
  }

  /** Converting to Chomsky normal form keeps the answer CYK gives for the
      empty word: some left side has the alternative `['ε']` afterwards iff
      one had it before. Neither the terminal variables nor the chain links
      can add it. */
  lemma CnfKeepsEmptyWord(p2: Productions, v: set<Sym>, ts: set<Sym>, p3: Productions)
    requires CnfConverted(p2, v, ts, p3) && Eps !in ts
    ensures (exists a :: a in p3 && [Eps] in p3[a]) <==> (exists a :: a in p2 && [Eps] in p2[a])
  {
    var tv :| && TerminalRules(p3, tv, ts)
      && (forall a :: a in p2 ==>
           && |p3[a]| == |p2[a]|
           && forall i :: 0 <= i < |p3[a]| ==> Converted(p3, tv, ts, p2[a][i], p3[a][i]))
      && (forall a :: a in p3 && a !in p2 ==> AddedRule(p3, tv, ts, a));
    if a :| a in p2 && [Eps] in p2[a] {
      var i :| 0 <= i < |p2[a]| && p2[a][i] == [Eps];
      assert Converted(p3, tv, ts, p2[a][i], p3[a][i]);
      assert [Eps] in p3[a];
    }
    if a :| a in p3 && [Eps] in p3[a] {
      var i :| 0 <= i < |p3[a]| && p3[a][i] == [Eps];
      if a in p2 {
        assert Converted(p3, tv, ts, p2[a][i], p3[a][i]);
        assert p2[a][i] == [Eps];
      } else {
        assert false;
      }
    }
  }

  /** `GrammarCNF`: variables, terminals, productions, start symbol and
      the counter behind new variable names. */
  class GrammarCnf {
    var nonTerminals: set<Sym>
    var terminals: set<Sym>
    var productions: Productions
    var startSymbol: Option<Sym>
    var newVarCounter: nat

    /** Every left side is a known variable, and no terminal is upper case. */
    ghost predicate Valid()
      reads this
    {
      && productions.Keys <= nonTerminals
      && (forall t :: t in terminals ==> !IsUpper(t))
    }

    constructor ()
      ensures Valid()
      ensures nonTerminals == {} && terminals == {} && productions == map[]
      ensures startSymbol == None && newVarCounter == 0
    {
      nonTerminals := {};
      terminals := {};
      productions := map[];
      startSymbol := None;
      newVarCounter := 0;
    }

    /** `set_start_symbol`. */
    method SetStartSymbol(s: Sym)
      modifies this
      ensures startSymbol == Some(s)
      ensures nonTerminals == old(nonTerminals) && terminals == old(terminals)
      ensures productions == old(productions) && newVarCounter == old(newVarCounter)
    {
      startSymbol := Some(s);
    }

    /** `add_production`: appends `right` to the alternatives of `left`,
        records `left` and the upper-case symbols of `right` as variables
        and its other symbols, except "ε", as terminals. */
    method AddProduction(left: Sym, right: Rhs)
      requires Valid()
      modifies this
      ensures Valid()
      ensures productions == old(productions)[left := Alternatives(old(productions), left) + [right]]
      ensures nonTerminals == old(nonTerminals) + {left} + (set s | s in right && IsUpper(s))
      ensures terminals == old(terminals) + (set s | s in right && !IsUpper(s) && s != Eps)
      ensures startSymbol == old(startSymbol) && newVarCounter == old(newVarCounter)
    {
      productions := productions[left := Alternatives(productions, left) + [right]];
      var nts := nonTerminals + {left};
      var ts := terminals;
      for i := 0 to |right|
        invariant nts == old(nonTerminals) + {left} + (set s | s in right[..i] && IsUpper(s))
        invariant ts == old(terminals) + (set s | s in right[..i] && !IsUpper(s) && s != Eps)
      {
        assert right[..i + 1] == right[..i] + [right[i]];
        if IsUpper(right[i]) {
          nts := nts + {right[i]};
        } else if right[i] != Eps {
          ts := ts + {right[i]};
        }
      }
      assert right[..|right|] == right;
      nonTerminals, terminals := nts, ts;
    }

    /** `generate_new_variable`: the first name `X<k>`, counting from the
        counter, that is not yet a variable; it becomes one. */
    method GenerateNewVariable() returns (v: Sym)
      requires Valid()
      modifies this
      ensures Valid()
      ensures v !in old(nonTerminals) && nonTerminals == old(nonTerminals) + {v}
      ensures IsUpper(v) && old(newVarCounter) < newVarCounter && v == VarName(newVarCounter - 1)
      ensures forall j :: old(newVarCounter) <= j < newVarCounter - 1 ==> VarName(j) in old(nonTerminals)
      ensures terminals == old(terminals) && productions == old(productions)
      ensures startSymbol == old(startSymbol)
    {
      while true
        invariant Valid()
        invariant nonTerminals == old(nonTerminals) && terminals == old(terminals)
        invariant productions == old(productions) && startSymbol == old(startSymbol)
        invariant old(newVarCounter) <= newVarCounter
        invariant forall j :: old(newVarCounter) <= j < newVarCounter ==> VarName(j) in old(nonTerminals)
        decreases Taken(nonTerminals, newVarCounter)
      {
        var k := newVarCounter;
        var name := VarName(k);
        newVarCounter := newVarCounter + 1;
        if name !in nonTerminals {
          nonTerminals := nonTerminals + {name};
          VarNames(k, k);
          return name;
        }
        assert name in Taken(nonTerminals, k);
        forall j: nat | k + 1 <= j
          ensures VarName(j) != name
        {
          VarNames(j, k);
        }
        assert name !in Taken(nonTerminals, k + 1);
      }
    }

    /** `remove_epsilon_productions`: every left side keeps the combinations
        of its alternatives without nullable symbols (see `EpsilonFree`);
        when the start symbol is nullable, a new variable becomes the start
        with the alternatives `[old start]` and `['ε']`. */
    method RemoveEpsilonProductions()
      requires Valid()
      modifies this
      ensures Valid()
      ensures EpsilonRemoved(old(productions), old(startSymbol), old(nonTerminals),
                             productions, startSymbol, nonTerminals)
      ensures if old(startSymbol).Some? && old(startSymbol).value in NullableSet(old(productions))
        then old(newVarCounter) < newVarCounter
        else newVarCounter == old(newVarCounter)
      ensures terminals == old(terminals)
    {
      var p := productions;
      var nullable := FindNullable(p);
      var newProductions: Productions := map[];
      var todo := p.Keys;
      while todo != {}
        invariant todo <= p.Keys
        invariant newProductions.Keys == p.Keys - todo
        invariant forall a :: a in newProductions ==> newProductions[a] == EpsilonFree(p[a], nullable)
        invariant unchanged(this)
        decreases todo
      {
        var left :| left in todo;
        todo := todo - {left};
        var alts := EpsilonFreeAlternatives(p[left], nullable);
        newProductions := newProductions[left := alts];
      }
      assert newProductions == EpsilonFreeAll(p, nullable);
      if startSymbol.Some? && startSymbol.value in nullable {
        var oldStart := startSymbol.value;
        var newStart := GenerateNewVariable();
        newProductions := newProductions[newStart := [[oldStart], [Eps]]];
        startSymbol := Some(newStart);
      }
      productions := newProductions;
    }

    /** `remove_unit_productions`: every variable gets, once each, the
        alternatives that are not unit rules of every variable it reaches
        by unit rules, itself included. */
    method RemoveUnitProductions()
      requires Valid()
      modifies this
      ensures Valid()
      ensures UnitsRemoved(old(productions), nonTerminals, productions)
      ensures nonTerminals == old(nonTerminals) && terminals == old(terminals)
      ensures startSymbol == old(startSymbol) && newVarCounter == old(newVarCounter)
    {
      var p := productions;
      var nts := nonTerminals;
      var pairs := UnitPairs(p, nts);
      var newProductions: Productions := map[];
      var lefts := nts;
      while lefts != {}
        invariant lefts <= nts && newProductions.Keys == nts - lefts
        invariant forall a :: a in newProductions ==> Distinct(newProductions[a])
        invariant forall a, r :: a in newProductions && r in newProductions[a] ==> !IsUnitRhs(r, nts)
        invariant forall a, r :: a in newProductions && r in newProductions[a] ==>
          exists b :: UnitReach(p, nts, a, b) && r in Alternatives(p, b)
        invariant forall a, b, r ::
          (a in newProductions && UnitReach(p, nts, a, b) &&
           r in Alternatives(p, b) && !IsUnitRhs(r, nts)) ==> r in newProductions[a]
        invariant unchanged(this)
        decreases lefts
      {
        var left :| left in lefts;
        lefts := lefts - {left};
        var alts := UnitFreeAlternatives(p, nts, pairs[left]);
        newProductions := newProductions[left := alts];
      }
      productions := newProductions;
    }

    /** The first loop of `convert_to_cnf`: a new variable per terminal,
        whose only alternative is that terminal. */
    method TerminalVariables() returns (tv: map<Sym, Sym>)
      requires Valid() && NoEmptyAlternatives(productions)
      modifies this
      ensures Valid() && NoEmptyAlternatives(productions)
      ensures Extends(old(productions), productions) && TerminalRules(productions, tv, terminals)
      ensures forall t :: t in terminals ==> tv[t] !in old(nonTerminals) && IsUpper(tv[t])
      ensures forall a :: a in productions && a !in old(productions) ==>
        exists t :: t in terminals && t in tv && tv[t] == a
      ensures old(nonTerminals) <= nonTerminals
      ensures terminals == old(terminals) && startSymbol == old(startSymbol)
    {
      tv := map[];
      var todo := terminals;
      while todo != {}
        invariant todo <= terminals
        invariant Valid() && NoEmptyAlternatives(productions)
        invariant Extends(old(productions), productions) && TerminalRules(productions, tv, terminals - todo)
        invariant forall t :: t in terminals - todo ==> tv[t] !in old(nonTerminals) && IsUpper(tv[t])
        invariant forall a :: a in productions && a !in old(productions) ==>
          exists t :: t in terminals - todo && t in tv && tv[t] == a
        invariant old(nonTerminals) <= nonTerminals
        invariant terminals == old(terminals) && startSymbol == old(startSymbol)
        decreases todo
      {
        var terminal :| terminal in todo;
        todo := todo - {terminal};
        var newVar := GenerateNewVariable();
        tv := tv[terminal := newVar];
        productions := productions[newVar := [[terminal]]];
      }
    }

    /** The inner loop of `convert_to_cnf` for a right side of three or more
        symbols (after `ReplaceTerminals`): a new variable for each prefix
        `current r[i]`, so that the returned symbol spells all of `right`
        but its last symbol. */
    method BinaryChain(q: Productions, rs: Rhs, ghost right: Rhs, tv: map<Sym, Sym>)
      returns (q2: Productions, current: Sym)
      requires Valid() && q.Keys <= nonTerminals && IsCnf(q, terminals)
      requires |rs| == |right| >= 2
      requires forall k :: 0 <= k < |rs| ==> StandsFor(tv, terminals, rs[k], right[k]) && rs[k] !in terminals
      modifies this
      ensures Valid() && q2.Keys <= nonTerminals && IsCnf(q2, terminals)
      ensures Extends(q, q2) && q2.Keys - q.Keys !! old(nonTerminals)
      ensures forall a :: a in q2 && a !in q ==> |q2[a]| == 1 && |q2[a][0]| == 2
      ensures Spells(q2, tv, terminals, current, right[..|right| - 1]) && current !in terminals
      ensures old(nonTerminals) <= nonTerminals
      ensures terminals == old(terminals) && startSymbol == old(startSymbol) && productions == old(productions)
    {
      q2 := q;
      current := rs[0];
      assert right[..1] == [right[0]];
      for i := 1 to |rs| - 1
        invariant Valid() && q2.Keys <= nonTerminals && IsCnf(q2, terminals)
        invariant Extends(q, q2) && q2.Keys - q.Keys !! old(nonTerminals)
        invariant forall a :: a in q2 && a !in q ==> |q2[a]| == 1 && |q2[a][0]| == 2
        invariant Spells(q2, tv, terminals, current, right[..i]) && current !in terminals
        invariant old(nonTerminals) <= nonTerminals
        invariant terminals == old(terminals) && startSymbol == old(startSymbol) && productions == old(productions)
      {
        var newVar := GenerateNewVariable();
        var q3 := q2[newVar := [[current, rs[i]]]];
        SpellsExtends(q2, q3, tv, terminals, current, right[..i]);
        assert right[..i + 1][..i] == right[..i];
        q2 := q3;
        current := newVar;
      }
    }

    /** The converted alternatives of one left side, in order, and the
        chain variables they needed. */
    method CnfAlternatives(q: Productions, rights: seq<Rhs>, tv: map<Sym, Sym>)
      returns (alts: seq<Rhs>, q2: Productions)
      requires Valid() && q.Keys <= nonTerminals && IsCnf(q, terminals)
      requires forall r :: r in rights ==> r != []
      requires forall t :: t in terminals ==> t in tv && tv[t] !in terminals
      modifies this
      ensures Valid() && q2.Keys <= nonTerminals && IsCnf(q2, terminals)
      ensures Extends(q, q2) && q2.Keys - q.Keys !! old(nonTerminals)
      ensures forall a :: a in q2 && a !in q ==> |q2[a]| == 1 && |q2[a][0]| == 2
      ensures |alts| == |rights|
      ensures forall i :: 0 <= i < |rights| ==> Converted(q2, tv, terminals, rights[i], alts[i]) && CnfRhs(alts[i], terminals)
      ensures old(nonTerminals) <= nonTerminals
      ensures terminals == old(terminals) && startSymbol == old(startSymbol) && productions == old(productions)
    {
      alts := [];
      q2 := q;
      for i := 0 to |rights|
        invariant Valid() && q2.Keys <= nonTerminals && IsCnf(q2, terminals)
        invariant Extends(q, q2) && q2.Keys - q.Keys !! old(nonTerminals)
        invariant forall a :: a in q2 && a !in q ==> |q2[a]| == 1 && |q2[a][0]| == 2
        invariant |alts| == i
        invariant forall j :: 0 <= j < i ==> Converted(q2, tv, terminals, rights[j], alts[j]) && CnfRhs(alts[j], terminals)
        invariant old(nonTerminals) <= nonTerminals
        invariant terminals == old(terminals) && startSymbol == old(startSymbol) && productions == old(productions)
      {
        var right := rights[i];
        assert right in rights;
        if |right| == 1 {
          alts := alts + [right];
        } else if |right| == 2 {
          var newRight := ReplaceTerminals(right, tv, terminals);
          assert newRight[..1] == [newRight[0]] && right[..1] == [right[0]];
          alts := alts + [newRight];
        } else {
          var newRight := ReplaceTerminals(right, tv, terminals);
          var q3, current := BinaryChain(q2, newRight, right, tv);
          forall j | 0 <= j < i
            ensures Converted(q3, tv, terminals, rights[j], alts[j])
          {
            ConvertedExtends(q2, q3, tv, terminals, rights[j], alts[j]);
          }
          q2 := q3;
          alts := alts + [[current, newRight[|newRight| - 1]]];
        }
      }
    }

    /** The second loop of `convert_to_cnf`: every left side of `src`
        gets its converted alternatives, in order, and the chain variables
        they need are added. */
    method ConvertLefts(src: Productions, tv: map<Sym, Sym>) returns (q: Productions)
      requires Valid() && productions == src && NoEmptyAlternatives(src)
      requires forall t :: t in terminals ==> t in tv && tv[t] !in terminals
      modifies this
      ensures Valid() && productions == src && IsCnf(q, terminals)
      ensures src.Keys <= q.Keys <= nonTerminals
      ensures forall a :: a in q && a !in src ==> a !in old(nonTerminals) && |q[a]| == 1 && |q[a][0]| == 2
      ensures forall a :: a in src ==>
        && |q[a]| == |src[a]|
        && forall i :: 0 <= i < |src[a]| ==> Converted(q, tv, terminals, src[a][i], q[a][i])
      ensures old(nonTerminals) <= nonTerminals
      ensures terminals == old(terminals) && startSymbol == old(startSymbol)
    {
      q := map[];
      var lefts := src.Keys;
      while lefts != {}
        invariant lefts <= src.Keys
        invariant Valid() && productions == src && q.Keys <= nonTerminals
        invariant q.Keys == (src.Keys - lefts) + (q.Keys - src.Keys)
        invariant IsCnf(q, terminals)
        invariant forall a :: a in q && a !in src ==> a !in old(nonTerminals) && |q[a]| == 1 && |q[a][0]| == 2
        invariant forall a :: a in src.Keys - lefts ==>
          && |q[a]| == |src[a]|
          && forall i :: 0 <= i < |src[a]| ==> Converted(q, tv, terminals, src[a][i], q[a][i])
        invariant old(nonTerminals) <= nonTerminals
        invariant terminals == old(terminals) && startSymbol == old(startSymbol)
        decreases lefts
      {
        var left :| left in lefts;
        lefts := lefts - {left};
        var alts, q2 := CnfAlternatives(q, src[left], tv);
        var q3 := q2[left := alts];
        assert Extends(q, q3);
        forall a, i | a in src.Keys - lefts && 0 <= i < |src[a]|
          ensures Converted(q3, tv, terminals, src[a][i], q3[a][i])
        {
          if a == left {
            ConvertedExtends(q2, q3, tv, terminals, src[a][i], alts[i]);
          } else {
            ConvertedExtends(q, q3, tv, terminals, src[a][i], q[a][i]);
          }
        }
        q := q3;
      }
    }

    /** `convert_to_cnf`: every terminal gets a variable; right sides of two
        symbols have their terminals swapped for those variables; longer ones
        become a chain of binary rules over new variables. Right sides of one
        symbol are kept. */
    method ConvertToCnf()
      requires Valid() && NoEmptyAlternatives(productions)
      modifies this
      ensures Valid() && CnfConverted(old(productions), old(nonTerminals), terminals, productions)
      ensures old(nonTerminals) <= nonTerminals
      ensures terminals == old(terminals) && startSymbol == old(startSymbol)
    {
      var tv := TerminalVariables();
      var src := productions;
      var q := ConvertLefts(src, tv);
      productions := q;
      CnfConvertedIntro(old(productions), old(nonTerminals), terminals, src, productions, tv);
    }

    /** `to_cnf`: the three steps in order. Neither of the first two leaves
        an empty alternative, so the grammar that comes out is in Chomsky
        normal form. */
    method ToCnf()
      requires Valid()
      modifies this
      ensures Valid() && IsCnf(productions, terminals)
      ensures exists p1, s1, v1, p2 ::
        && EpsilonRemoved(old(productions), old(startSymbol), old(nonTerminals), p1, s1, v1)
        && UnitsRemoved(p1, v1, p2)
        && CnfConverted(p2, v1, terminals, productions)
        && startSymbol == s1 && v1 <= nonTerminals
      ensures old(nonTerminals) <= nonTerminals && terminals == old(terminals)
    {
      ghost var p0 := productions;
      RemoveEpsilonProductions();
      forall a, r | a in productions && r in productions[a]
        ensures r != []
      {
        if a in p0 {
          EpsilonFreeMeaning(p0[a], NullableSet(p0));
        }
      }
      ghost var p1, s1, v1 := productions, startSymbol, nonTerminals;
      RemoveUnitProductions();
      UnitFreeNonEmpty(p1, nonTerminals, productions);
      ghost var p2 := productions;
      ConvertToCnf();
      assert EpsilonRemoved(p0, old(startSymbol), old(nonTerminals), p1, s1, v1);
      assert UnitsRemoved(p1, v1, p2) && CnfConverted(p2, v1, terminals, productions);
    }
  }
}
