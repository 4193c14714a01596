/**
 * The downloader's `choose_best_candidate`: score every candidate, drop the
 * negative (excluded) ones, sort the rest by score, highest first and
 * stably, and accept the first only at a score of 90 or more.
 */
module Selection {
  import opened Wrappers
  import opened Catalog
  import opened Constraints
  import opened Scoring
  import opened Decimal
  import opened Text

  datatype Scored = Scored(score: int, candidate: CatalogCandidate)

  const Threshold: int := 90

  /**
   * `[(score_candidate(c, kb_id, constraints), c) for c in candidates]`: each
   * candidate, in order, paired with a score that is -10000 exactly when the
   * candidate is excluded and between 30 and 150 otherwise.
   */
  function ScoreAll(candidates: seq<CatalogCandidate>, kbId: string, c: BaselineConstraints): (r: seq<Scored>)
    ensures |r| == |candidates|
    ensures forall i :: 0 <= i < |r| ==> r[i].candidate == candidates[i]
    ensures forall i :: 0 <= i < |r| ==>
              (r[i].score == Excluded <==> IsExcluded(Lower(candidates[i].title), kbId, c))
              && (r[i].score == Excluded || 30 <= r[i].score <= 150)
    ensures forall i :: 0 <= i < |r| ==> r[i] == Scored(Score(candidates[i].title, kbId, c), candidates[i])
  {
    seq(|candidates|, i requires 0 <= i < |candidates| => Scored(Score(candidates[i].title, kbId, c), candidates[i]))
  }

  /** `[(s, c) for s, c in scored if s >= 0]`. */
  function NonNegative(xs: seq<Scored>): (r: seq<Scored>)
    ensures forall i :: 0 <= i < |r| ==> r[i].score >= 0
    ensures forall x :: x in r <==> x in xs && x.score >= 0
    ensures r == [] <==> forall i :: 0 <= i < |xs| ==> xs[i].score < 0
  {
    if xs == [] then []
    else if xs[0].score >= 0 then [xs[0]] + NonNegative(xs[1..])
    else NonNegative(xs[1..])
  }

  /** Places `x`, which came before everything in `ys`, ahead of the first entry it does not score below. */
  function Insert(x: Scored, ys: seq<Scored>): (r: seq<Scored>)
    ensures |r| == |ys| + 1
    ensures r[0] == if ys == [] || ys[0].score <= x.score then x else ys[0]
  {
    if ys == [] || ys[0].score <= x.score then [x] + ys else [ys[0]] + Insert(x, ys[1..])
  }

  /** `scored.sort(key=lambda x: x[0], reverse=True)`: a stable sort, highest score first. */
  function SortDesc(xs: seq<Scored>): (r: seq<Scored>)
    ensures |r| == |xs|
  {
    if xs == [] then [] else Insert(xs[0], SortDesc(xs[1..]))
  }

  predicate Descending(xs: seq<Scored>) {
    forall i, j :: 0 <= i < j < |xs| ==> xs[i].score >= xs[j].score
  }

  /** The entries with score `v`, in order. */
  function WithScore(xs: seq<Scored>, v: int): seq<Scored>
  {
    if xs == [] then [] else (if xs[0].score == v then [xs[0]] else []) + WithScore(xs[1..], v)
  }

  lemma {:induction false} InsertPerm(x: Scored, ys: seq<Scored>)
    ensures multiset(Insert(x, ys)) == multiset(ys) + multiset{x}
    decreases |ys|
  {
    if ys != [] && ys[0].score > x.score {
      InsertPerm(x, ys[1..]);
      assert ys == [ys[0]] + ys[1..];
    }
  }

  lemma {:induction false} InsertDescending(x: Scored, ys: seq<Scored>)
    requires Descending(ys)
    ensures Descending(Insert(x, ys))
    decreases |ys|
  {
    if ys != [] && ys[0].score > x.score {
      var rest := Insert(x, ys[1..]);
      InsertDescending(x, ys[1..]);
      InsertPerm(x, ys[1..]);
      forall z | z in rest
        ensures ys[0].score >= z.score
      {
        assert z in multiset(rest);
        assert z in ys[1..] || z == x;
      }
      ConsDescending(ys[0], rest);
    }
  }

  lemma ConsDescending(y: Scored, zs: seq<Scored>)
    requires Descending(zs) && forall z :: z in zs ==> y.score >= z.score
    ensures Descending([y] + zs)
  {
    var r := [y] + zs;
    forall i, j | 0 <= i < j < |r|
      ensures r[i].score >= r[j].score
    {
      assert r[j] == zs[j - 1];
      if i > 0 {
        assert r[i] == zs[i - 1];
      }
    }
  }

  lemma {:induction false} InsertWithScore(x: Scored, ys: seq<Scored>, v: int)
    ensures WithScore(Insert(x, ys), v) == (if x.score == v then [x] else []) + WithScore(ys, v)
    decreases |ys|
  {
    if ys != [] && ys[0].score > x.score {
      InsertWithScore(x, ys[1..], v);
      assert Insert(x, ys) == [ys[0]] + Insert(x, ys[1..]);
      assert WithScore(Insert(x, ys), v)
        == (if ys[0].score == v then [ys[0]] else []) + WithScore(Insert(x, ys[1..]), v);
    }
  }

  /**
   * The sort puts the scores in descending order, keeps every entry exactly
   * as often as it occurs, and is stable: the entries of any one score keep
   * their input order.
   */
  lemma {:induction false} SortDescSpec(xs: seq<Scored>)
    ensures Descending(SortDesc(xs))
    ensures multiset(SortDesc(xs)) == multiset(xs)
    ensures forall v :: WithScore(SortDesc(xs), v) == WithScore(xs, v)
    decreases |xs|
  {
    if xs != [] {
      SortDescSpec(xs[1..]);
      InsertDescending(xs[0], SortDesc(xs[1..]));
      InsertPerm(xs[0], SortDesc(xs[1..]));
      assert xs == [xs[0]] + xs[1..];
      forall v
        ensures WithScore(SortDesc(xs), v) == WithScore(xs, v)
      {
        InsertWithScore(xs[0], SortDesc(xs[1..]), v);
      }
    }
  }

  /** `k` is the first index of a maximal score. */
  predicate EarliestMax(xs: seq<Scored>, k: int) {
    0 <= k < |xs| && (forall i :: 0 <= i < |xs| ==> xs[i].score <= xs[k].score)
    && (forall i :: 0 <= i < k ==> xs[i].score < xs[k].score)
  }

  /** The first entry of maximal score. */
  function Best(xs: seq<Scored>): (b: Scored)
    requires xs != []
    ensures b in xs && forall i :: 0 <= i < |xs| ==> xs[i].score <= b.score
  {
    if |xs| == 1 then xs[0]
    else
      var b := Best(xs[1..]);
      assert forall i :: 1 <= i < |xs| ==> xs[i] == xs[1..][i - 1];
      if xs[0].score >= b.score then xs[0] else b
  }

  /** `Best` picks the entry at the first index of a maximal score. */
  lemma {:induction false} BestIsEarliestMax(xs: seq<Scored>, k: int)
    requires EarliestMax(xs, k)
    ensures Best(xs) == xs[k]
    decreases |xs|
  {
    if |xs| > 1 && k > 0 {
      var rest := xs[1..];
      assert EarliestMax(rest, k - 1);
      BestIsEarliestMax(rest, k - 1);
    }
  }

  /** Every non-empty sequence has a first maximal index. */
  lemma {:induction false} EarliestMaxExists(xs: seq<Scored>)
    requires xs != []
    ensures exists k :: EarliestMax(xs, k)
    decreases |xs|
  {
    if |xs| > 1 {
      EarliestMaxExists(xs[1..]);
      var k :| EarliestMax(xs[1..], k);
      if xs[0].score >= xs[1..][k].score {
        assert EarliestMax(xs, 0);
      } else {
        assert EarliestMax(xs, k + 1);
      }
    } else {
      assert EarliestMax(xs, 0);
    }
  }

  /** The head of the sorted list is the first entry of maximal score. */
  lemma {:induction false} SortDescHead(xs: seq<Scored>)
    requires xs != []
    ensures SortDesc(xs)[0] == Best(xs)
    decreases |xs|
  {
    if |xs| > 1 {
      SortDescHead(xs[1..]);
    }
  }

  /** Dropping the negative entries keeps the first maximal one when that one is not negative. */
  lemma {:induction false} NonNegativeBest(xs: seq<Scored>)
    requires xs != [] && Best(xs).score >= 0
    ensures NonNegative(xs) != [] && Best(NonNegative(xs)) == Best(xs)
    decreases |xs|
  {
    var x := xs[0];
    var rest := xs[1..];
    if rest == [] {
      assert NonNegative(xs) == [x];
    } else if Best(rest).score >= 0 {
      NonNegativeBest(rest);
      if x.score >= 0 {
        assert NonNegative(xs) == [x] + NonNegative(rest);
        assert NonNegative(xs)[1..] == NonNegative(rest);
      }
    } else {
      assert Best(xs) == x;
      assert NonNegative(rest) == [];
      assert NonNegative(xs) == [x];
    }
  }

  const NoMatchReason: string := "No candidate matched baseline constraints."

  /** The reason given for a best score `s` below the threshold. */
  function AmbiguousReason(s: nat): string {
    "Ambiguous match below confidence threshold (" + NatToString(s) + ")."
  }

  /** The `(best, reason)` pair `choose_best_candidate` returns. */
  datatype Choice = Choice(best: Option<CatalogCandidate>, reason: Option<string>)

  /** The choice made from the scored candidates. */
  function ChooseFrom(xs: seq<Scored>): (r: Choice)
    ensures r.best.Some? != r.reason.Some?
  {
    var scored := NonNegative(xs);
    if scored == [] then Choice(None, Some(NoMatchReason))
    else
      var best := SortDesc(scored)[0];
      assert best.score >= 0 by {
        SortDescHead(scored);
      }
      if best.score < Threshold then Choice(None, Some(AmbiguousReason(best.score)))
      else Choice(Some(best.candidate), None)
  }

  /** No entry scores 0 or more exactly when the reason is the no-match one. */
  lemma ChooseFromNoMatch(xs: seq<Scored>)
    ensures (forall i :: 0 <= i < |xs| ==> xs[i].score < 0) <==> ChooseFrom(xs).reason == Some(NoMatchReason)
  {
    if exists i :: 0 <= i < |xs| && xs[i].score >= 0 {
      var i :| 0 <= i < |xs| && xs[i].score >= 0;
      NonNegativeBest(xs);
      var best := SortDesc(NonNegative(xs))[0];
      SortDescHead(NonNegative(xs));
      ReasonsDiffer(best.score);
    }
  }

  lemma ReasonsDiffer(s: nat)
    ensures AmbiguousReason(s) != NoMatchReason
  {
    var head := "Ambiguous match below confidence threshold (";
    var r := AmbiguousReason(s);
    assert r == head + (NatToString(s) + ").");
    assert r[0] == head[0] == 'A';
    assert NoMatchReason[0] == 'N';
  }

  /** With the first maximal entry at `k` not negative, its score decides between ambiguity and its candidate. */
  lemma ChooseFromBest(xs: seq<Scored>, k: int)
    requires EarliestMax(xs, k) && xs[k].score >= 0
    ensures xs[k].score < Threshold ==> ChooseFrom(xs) == Choice(None, Some(AmbiguousReason(xs[k].score)))
    ensures xs[k].score >= Threshold ==> ChooseFrom(xs) == Choice(Some(xs[k].candidate), None)
  {
    BestIsEarliestMax(xs, k);
    NonNegativeBest(xs);
    SortDescHead(NonNegative(xs));
  }

  /** `choose_best_candidate(candidates, kb_id, constraints)`. */
  function ChooseBestCandidate(candidates: seq<CatalogCandidate>, kbId: string, c: BaselineConstraints): (r: Choice)
    ensures r.best.Some? != r.reason.Some?
  {
    ChooseFrom(ScoreAll(candidates, kbId, c))
  }

  /** The score `choose_best_candidate` gives the candidate at `i`. */
  function ScoreAt(candidates: seq<CatalogCandidate>, kbId: string, c: BaselineConstraints, i: int): int
    requires 0 <= i < |candidates|
  {
    Score(candidates[i].title, kbId, c)
  }

  /** No candidate scores 0 or more exactly when the reason is the no-match one. */
  lemma ChooseNoMatch(candidates: seq<CatalogCandidate>, kbId: string, c: BaselineConstraints)
    ensures (forall i :: 0 <= i < |candidates| ==> ScoreAt(candidates, kbId, c, i) < 0)
        <==> ChooseBestCandidate(candidates, kbId, c).reason == Some(NoMatchReason)
  {
    var xs := ScoreAll(candidates, kbId, c);
    ChooseFromNoMatch(xs);
    forall i | 0 <= i < |candidates|
      ensures xs[i].score == ScoreAt(candidates, kbId, c, i)
    {
    }
  }

  /**
   * When the first maximal score (at `k`) is not negative, a score below 90
   * gives the ambiguous reason carrying that score, and a score of 90 or
   * more picks the candidate at `k`: the highest scoring one, earliest in
   * input order among ties.
   */
  lemma ChooseBest(candidates: seq<CatalogCandidate>, kbId: string, c: BaselineConstraints, k: int)
    requires 0 <= k < |candidates| && ScoreAt(candidates, kbId, c, k) >= 0
    requires forall i :: 0 <= i < |candidates| ==> ScoreAt(candidates, kbId, c, i) <= ScoreAt(candidates, kbId, c, k)
    requires forall i :: 0 <= i < k ==> ScoreAt(candidates, kbId, c, i) < ScoreAt(candidates, kbId, c, k)
    ensures var r := ChooseBestCandidate(candidates, kbId, c); var s := ScoreAt(candidates, kbId, c, k);
      && (s < Threshold ==> r == Choice(None, Some(AmbiguousReason(s))))
      && (s >= Threshold ==> r == Choice(Some(candidates[k]), None))
  {
    var xs := ScoreAll(candidates, kbId, c);
    assert EarliestMax(xs, k) by {
      forall i | 0 <= i < |candidates|
        ensures xs[i].score == ScoreAt(candidates, kbId, c, i)
      {
      }
    }
    ChooseFromBest(xs, k);
  }
}
