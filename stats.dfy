/**
  The end-of-game summary. It is derived from the two counters alone: the
  score and the number of questions answered. The percentage bar has one
  block per answered question, the correct ones first.
 */
module Stats {

  /** One block of the percentage bar. */
  datatype Block = Correct | Wrong

  /** The number of true entries in a record of answer outcomes. */
  function CountTrue(outcomes: seq<bool>): (n: nat)
    ensures n <= |outcomes|
  {
    if outcomes == [] then 0
    else CountTrue(outcomes[..|outcomes| - 1]) + (if outcomes[|outcomes| - 1] then 1 else 0)
  }

  /** The count of true outcomes is the multiplicity of true among them, whatever their order. */
  lemma {:induction false} CountTrueIsMultiplicity(outcomes: seq<bool>)
    ensures CountTrue(outcomes) == multiset(outcomes)[true]
  {
    if outcomes != [] {
      var m := |outcomes| - 1;
      CountTrueIsMultiplicity(outcomes[..m]);
      assert outcomes == outcomes[..m] + [outcomes[m]];
    }
  }

  /** The bar as it is built: block by block, block i correct while i is below the score. */
  function PercentageBar(score: nat, answered: nat): seq<Block> {
    if answered == 0 then []
    else PercentageBar(score, answered - 1) + [if score > answered - 1 then Correct else Wrong]
  }

  /** The bar has one block per answered question, and block k is correct exactly when k < score. */
  lemma {:induction false} PercentageBarAt(score: nat, answered: nat, k: nat)
    requires k < answered
    ensures |PercentageBar(score, answered)| == answered
    ensures PercentageBar(score, answered)[k] == Correct <==> k < score
  {
    PercentageBarLength(score, answered - 1);
    if k < answered - 1 {
      PercentageBarAt(score, answered - 1, k);
    }
  }

  /** The bar has one block per answered question. */
  lemma {:induction false} PercentageBarLength(score: nat, answered: nat)
    ensures |PercentageBar(score, answered)| == answered
  {
    if answered > 0 {
      PercentageBarLength(score, answered - 1);
    }
  }

  /** The bar is a run of correct blocks followed by a run of wrong ones. */
  lemma PercentageBarSplits(score: nat, answered: nat)
    requires score <= answered
    ensures PercentageBar(score, answered) == seq(score, _ => Correct) + seq(answered - score, _ => Wrong)
  {
    var bar := PercentageBar(score, answered);
    var runs := seq(score, _ => Correct) + seq(answered - score, _ => Wrong);
    PercentageBarLength(score, answered);
    forall k | 0 <= k < answered
      ensures bar[k] == runs[k]
    {
      PercentageBarAt(score, answered, k);
    }
  }

  /** With score <= answered, the bar holds exactly score correct and answered - score wrong blocks. */
  lemma {:induction false} PercentageBarCounts(score: nat, answered: nat)
    requires score <= answered
    ensures multiset(PercentageBar(score, answered))[Correct] == score
    ensures multiset(PercentageBar(score, answered))[Wrong] == answered - score
  {
    if answered > 0 {
      var m := answered - 1;
      var last := if score > m then Correct else Wrong;
      if score == answered {
        PercentageBarCounts(m, m);
        PercentageBarPrefix(score, m);
      } else {
        PercentageBarCounts(score, m);
      }
      assert PercentageBar(score, answered) == PercentageBar(score, m) + [last];
      assert multiset(PercentageBar(score, answered)) == multiset(PercentageBar(score, m)) + multiset{last};
    }
  }

  /** Scores at or beyond the bar's length all draw the same bar. */
  lemma {:induction false} PercentageBarPrefix(score: nat, answered: nat)
    requires score >= answered
    ensures PercentageBar(score, answered) == PercentageBar(answered, answered)
    ensures PercentageBar(score, answered) == PercentageBar(score + 1, answered)
  {
    if answered > 0 {
      PercentageBarPrefix(score, answered - 1);
      PercentageBarPrefix(answered, answered - 1);
    }
  }

  /** The outcomes drawn in the order the questions were answered. */
  function Blocks(outcomes: seq<bool>): (r: seq<Block>)
    ensures |r| == |outcomes|
  {
    if outcomes == [] then []
    else Blocks(outcomes[..|outcomes| - 1]) + [if outcomes[|outcomes| - 1] then Correct else Wrong]
  }

  /** Drawn in answer order, the outcomes show as many correct blocks as there were true outcomes. */
  lemma {:induction false} BlocksCount(outcomes: seq<bool>)
    ensures multiset(Blocks(outcomes))[Correct] == CountTrue(outcomes)
    ensures multiset(Blocks(outcomes))[Wrong] == |outcomes| - CountTrue(outcomes)
  {
    if outcomes != [] {
      BlocksCount(outcomes[..|outcomes| - 1]);
    }
  }

  /** Two collections of blocks are the same when they agree on both counts. */
  lemma SameCountsSameBlocks(x: multiset<Block>, y: multiset<Block>)
    requires x[Correct] == y[Correct] && x[Wrong] == y[Wrong]
    ensures x == y
  {
    forall b: Block
      ensures x[b] == y[b]
    {
      assert b == Correct || b == Wrong;
    }
  }

  /**
    The bar drawn from the counters shows the same blocks as the answers
    actually gave, though not in the order they were given.
   */
  lemma {:induction false} BarMatchesOutcomes(outcomes: seq<bool>)
    ensures multiset(PercentageBar(CountTrue(outcomes), |outcomes|)) == multiset(Blocks(outcomes))
  {
    PercentageBarCounts(CountTrue(outcomes), |outcomes|);
    BlocksCount(outcomes);
    SameCountsSameBlocks(multiset(PercentageBar(CountTrue(outcomes), |outcomes|)), multiset(Blocks(outcomes)));
  }

  /** A correct answer given after a wrong one is still drawn in front of it. */
  lemma BarIsNotInAnswerOrder()
    ensures PercentageBar(CountTrue([false, true]), 2) == [Correct, Wrong]
    ensures Blocks([false, true]) == [Wrong, Correct]
    ensures PercentageBar(CountTrue([false, true]), 2) != Blocks([false, true])
  {
    assert [false, true][..1] == [false];
    assert [false][..0] == [];
    assert Blocks([false, true])[0] == Wrong;
    PercentageBarAt(1, 2, 0);
    PercentageBarAt(1, 2, 1);
  }
}
