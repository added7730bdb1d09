/** Reference shapes for the translator's rewrites, defined independently of how the
    translator builds its text: binary term trees with their rendering, left and right
    combs, and the list of unordered pairs that `distinct` expands to. */
module Terms {

  /** A binary term over already-rendered operands. */
  datatype Term = Atom(text: string) | Apply(op: string, left: Term, right: Term)

  /** Yices concrete syntax of a term: `(op left right)`. */
  function Render(t: Term): string {
    match t
    case Atom(s) => s
    case Apply(op, l, r) => "(" + op + " " + Render(l) + " " + Render(r) + ")"
  }

  /** The operands of a term, left to right. */
  function Frontier(t: Term): seq<string> {
    match t
    case Atom(s) => [s]
    case Apply(_, l, r) => Frontier(l) + Frontier(r)
  }

  /** The number of operator applications in a term. */
  function Applications(t: Term): nat {
    match t
    case Atom(_) => 0
    case Apply(_, l, r) => 1 + Applications(l) + Applications(r)
  }

  /** A left-nested term `(op (op (op a1 a2) a3) a4)`: every right operand is an atom. */
  predicate LeftComb(t: Term, op: string) {
    match t
    case Atom(_) => true
    case Apply(o, l, r) => o == op && r.Atom? && LeftComb(l, op)
  }

  /** A right-nested term `(op a1 (op a2 (op a3 a4)))`: every left operand is an atom. */
  predicate RightComb(t: Term, op: string) {
    match t
    case Atom(_) => true
    case Apply(o, l, r) => o == op && l.Atom? && RightComb(r, op)
  }

  /** A binary term with n operands has n - 1 applications. */
  lemma {:induction false} ApplicationsCount(t: Term)
    ensures |Frontier(t)| == Applications(t) + 1
  {
    match t
    case Atom(_) =>
    case Apply(_, l, r) =>
      ApplicationsCount(l);
      ApplicationsCount(r);
  }

  /** Every nonempty operand list has a left comb and a right comb over it. */
  function LeftNest(op: string, xs: seq<string>): (t: Term)
    requires |xs| >= 1
    ensures LeftComb(t, op) && Frontier(t) == xs
  {
    if |xs| == 1 then Atom(xs[0]) else Apply(op, LeftNest(op, xs[..|xs| - 1]), Atom(xs[|xs| - 1]))
  }

  function RightNest(op: string, xs: seq<string>): (t: Term)
    requires |xs| >= 1
    ensures RightComb(t, op) && Frontier(t) == xs
  {
    if |xs| == 1 then Atom(xs[0]) else Apply(op, Atom(xs[0]), RightNest(op, xs[1..]))
  }

  /** The pairs `(j, i)` for `i < k`. */
  function Row(j: nat, k: nat): (ps: seq<(nat, nat)>)
    ensures |ps| == k
    ensures forall i | 0 <= i < k :: ps[i] == (j, i)
  {
    seq(k, i requires 0 <= i < k => (j, i))
  }

  /** Every pair `(j, i)` of the list names a larger index j and a smaller index i, both
      below k. */
  predicate PairsBelow(ps: seq<(nat, nat)>, k: nat) {
    forall n | 0 <= n < |ps| :: ps[n].1 < ps[n].0 < k
  }

  /** The pairs `(j, i)` with `i < j < k`, grouped by `j` ascending and, within a group, by
      `i` ascending. */
  function DistinctPairs(k: nat): seq<(nat, nat)> {
    if k == 0 then [] else DistinctPairs(k - 1) + Row(k - 1, k - 1)
  }

  /** The pair list holds every unordered pair of indices below k exactly once, as
      `(larger, smaller)`, so it has k(k-1)/2 entries. */
  lemma {:induction false} DistinctPairsComplete(k: nat)
    ensures 2 * |DistinctPairs(k)| == k * (k - 1)
    ensures PairsBelow(DistinctPairs(k), k)
    ensures forall j, i | 0 <= i < j < k :: (j, i) in DistinctPairs(k)
    ensures forall m, n | 0 <= m < n < |DistinctPairs(k)| :: DistinctPairs(k)[m] != DistinctPairs(k)[n]
  {
    if k > 0 {
      DistinctPairsComplete(k - 1);
      var prev := DistinctPairs(k - 1);
      var group := Row(k - 1, k - 1);
      var ps := prev + group;
      assert DistinctPairs(k) == ps;
      assert 2 * |ps| == (k - 1) * (k - 2) + 2 * (k - 1);
      assert (k - 1) * (k - 2) + 2 * (k - 1) == k * (k - 1);
      forall j, i | 0 <= i < j < k
        ensures (j, i) in ps
      {
        if j < k - 1 {
          assert (j, i) in prev;
        } else {
          assert ps[|prev| + i] == (j, i);
        }
      }
      forall m, n | 0 <= m < n < |ps|
        ensures ps[m] != ps[n]
      {
        if n >= |prev| && m < |prev| {
          assert ps[m] == prev[m];
        }
      }
    }
  }

  /** The adjacent-pair terms `(op x1 x2) (op x2 x3) ...` that a chain of comparisons
      expands to: one fewer than the operands. */
  function ChainTerms(op: string, xs: seq<string>): (r: seq<string>)
    ensures |xs| >= 1 ==> |r| == |xs| - 1
  {
    if |xs| == 0 then []
    else seq(|xs| - 1, i requires 0 <= i < |xs| - 1 => Render(Apply(op, Atom(xs[i]), Atom(xs[i + 1]))))
  }

  /** The inequality terms ` (/= xj xi)` for a list of index pairs `(j, i)`. */
  function InequalityTerms(xs: seq<string>, ps: seq<(nat, nat)>): (r: seq<string>)
    requires forall n | 0 <= n < |ps| :: ps[n].0 < |xs| && ps[n].1 < |xs|
    ensures |r| == |ps|
  {
    seq(|ps|, n requires 0 <= n < |ps| => " " + Render(Apply("/=", Atom(xs[ps[n].0]), Atom(xs[ps[n].1]))))
  }

  /** The i-th chain term pairs the i-th operand with its right neighbour. */
  lemma ChainTermsElements(op: string, xs: seq<string>)
    requires |xs| >= 1
    ensures |ChainTerms(op, xs)| == |xs| - 1
    ensures forall i | 0 <= i < |xs| - 1 :: ChainTerms(op, xs)[i] == Render(Apply(op, Atom(xs[i]), Atom(xs[i + 1])))
  {
  }

  lemma ChainTermsStep(op: string, xs: seq<string>, k: nat)
    requires 2 <= k <= |xs|
    ensures ChainTerms(op, xs[..k]) == ChainTerms(op, xs[..k - 1]) + [Render(Apply(op, Atom(xs[k - 2]), Atom(xs[k - 1])))]
  {
    var a := ChainTerms(op, xs[..k]);
    var b := ChainTerms(op, xs[..k - 1]);
    assert |a| == |b| + 1;
    forall i | 0 <= i < |b|
      ensures a[i] == b[i]
    {
    }
  }

  lemma InequalityTermsAppend(xs: seq<string>, ps: seq<(nat, nat)>, qs: seq<(nat, nat)>)
    requires forall n | 0 <= n < |ps| :: ps[n].0 < |xs| && ps[n].1 < |xs|
    requires forall n | 0 <= n < |qs| :: qs[n].0 < |xs| && qs[n].1 < |xs|
    ensures InequalityTerms(xs, ps + qs) == InequalityTerms(xs, ps) + InequalityTerms(xs, qs)
  {
  }
}
