/** The matching pairs of two sequences in left-major order: the reference for every join. */
module JoinPairs {

  /** The positions of the matching pairs from left element `i` and right element `j` on. */
  function Pairs<A, B>(left: seq<A>, right: seq<B>, on: (A, B) -> bool, i: nat, j: nat): seq<(nat, nat)>
    decreases |left| - i, |right| - j
  {
    if i >= |left| then []
    else if j >= |right| then Pairs(left, right, on, i + 1, 0)
    else if on(left[i], right[j]) then [(i, j)] + Pairs(left, right, on, i, j + 1)
    else Pairs(left, right, on, i, j + 1)
  }

  predicate Before(p: (nat, nat), q: (nat, nat)) {
    p.0 < q.0 || (p.0 == q.0 && p.1 < q.1)
  }

  /** Each pair comes before all later ones; so none is listed twice. */
  predicate InOrder(ps: seq<(nat, nat)>) {
    forall a, b | 0 <= a < b < |ps| :: Before(ps[a], ps[b])
  }

  predicate Matching<A, B>(left: seq<A>, right: seq<B>, on: (A, B) -> bool, p: (nat, nat)) {
    p.0 < |left| && p.1 < |right| && on(left[p.0], right[p.1])
  }

  /** The list holds exactly the matching pairs that are not before the start. */
  lemma {:induction false} PairsExact<A, B>(left: seq<A>, right: seq<B>, on: (A, B) -> bool, i: nat, j: nat, p: (nat, nat))
    ensures p in Pairs(left, right, on, i, j) <==> Matching(left, right, on, p) && !Before(p, (i, j))
    decreases |left| - i, |right| - j
  {
    if i < |left| {
      if j >= |right| {
        PairsExact(left, right, on, i + 1, 0, p);
      } else {
        PairsExact(left, right, on, i, j + 1, p);
      }
    }
  }

  /** The list is in left-major order. */
  lemma {:induction false} PairsSorted<A, B>(left: seq<A>, right: seq<B>, on: (A, B) -> bool, i: nat, j: nat)
    ensures InOrder(Pairs(left, right, on, i, j))
    decreases |left| - i, |right| - j
  {
    hide InOrder;
    NoPairs();
    if i < |left| {
      if j >= |right| {
        PairsSorted(left, right, on, i + 1, 0);
      } else {
        PairsSorted(left, right, on, i, j + 1);
        var rest := Pairs(left, right, on, i, j + 1);
        forall b | 0 <= b < |rest|
          ensures Before((i, j), rest[b])
        {
          PairsExact(left, right, on, i, j + 1, rest[b]);
        }
        SortedCons((i, j), rest);
      }
    }
  }

  lemma NoPairs()
    ensures InOrder([])
  {
  }

  lemma SortedCons(p: (nat, nat), rest: seq<(nat, nat)>)
    requires forall b | 0 <= b < |rest| :: Before(p, rest[b])
    requires InOrder(rest)
    ensures InOrder([p] + rest)
  {
    hide Before;
  }

  /** The list in full: exactly the matching pairs, each once, in left-major order. */
  lemma AllPairs<A, B>(left: seq<A>, right: seq<B>, on: (A, B) -> bool)
    ensures var ps := Pairs(left, right, on, 0, 0);
      && (forall p :: p in ps <==> Matching(left, right, on, p))
      && InOrder(ps)
  {
    hide Pairs, Matching, InOrder;
    PairsSorted(left, right, on, 0, 0);
    forall p
      ensures p in Pairs(left, right, on, 0, 0) <==> Matching(left, right, on, p)
    {
      PairsExact(left, right, on, 0, 0, p);
    }
  }
}
