/**
 * The integer answer counts of `generate_statistics`: for each question and
 * each answer index, how many students gave that answer (`n_s_qa`); for each
 * question, how many gave a valid answer (`n_s_q`, the row sums) and how many
 * did not (`n_na_q`).
 *
 * The answers `a` form a grid with one row per student and one column per
 * question, each entry a letter or `*`.
 */
module Statistics {
  import opened Letters
  import Scantron

  /** `N_a`: the number of answers a question can have. */
  const AnswerCount: nat := 5

  /** Every student has one answer per question. */
  predicate Grid(a: seq<seq<char>>, questionCount: nat) {
    forall s :: 0 <= s < |a| ==> |a[s]| == questionCount
  }

  /** Every answer index is below `answerCount`, so it names a column of the count table. */
  predicate IndicesBelow(a: seq<seq<char>>, questionCount: nat, answerCount: nat)
    requires Grid(a, questionCount)
  {
    forall s, q :: 0 <= s < |a| && 0 <= q < questionCount ==> Chr2Ind(a[s][q]) < answerCount
  }

  /**
   * The answers `read_scantrons` returns form a grid whose letters have
   * indices below 9 (`I`): the counts are defined for them with `N_a = 5`
   * exactly when no answer is beyond `E`.
   */
  lemma ScantronAnswersGrid(a: seq<seq<char>>, questionCount: nat)
    requires forall s :: 0 <= s < |a| ==> Scantron.ValidRow(a[s], questionCount)
    ensures Grid(a, questionCount) && IndicesBelow(a, questionCount, 9)
    ensures IndicesBelow(a, questionCount, AnswerCount) <==>
      forall s, q :: 0 <= s < |a| && 0 <= q < questionCount ==> a[s][q] == InvalidLetter || a[s][q] <= 'E'
  {
  }

  /** 1 when the answer has index `x`. */
  function Hit(answer: char, x: int): nat {
    if Chr2Ind(answer) == x then 1 else 0
  }

  /** The number of the first `k` students whose answer to question `q` has index `x`. */
  function CountUpTo(a: seq<seq<char>>, questionCount: nat, k: nat, q: nat, x: int): nat
    requires Grid(a, questionCount) && k <= |a| && q < questionCount
  {
    if k == 0 then 0 else CountUpTo(a, questionCount, k - 1, q, x) + Hit(a[k - 1][q], x)
  }

  /** The number of the first `k` students who gave question `q` a letter. */
  function AnsweredUpTo(a: seq<seq<char>>, questionCount: nat, k: nat, q: nat): nat
    requires Grid(a, questionCount) && k <= |a| && q < questionCount
  {
    if k == 0 then 0 else AnsweredUpTo(a, questionCount, k - 1, q) + (if Chr2Ind(a[k - 1][q]) >= 0 then 1 else 0)
  }

  /** The number of the first `k` students who gave question `q` no letter (`*`). */
  function UnansweredUpTo(a: seq<seq<char>>, questionCount: nat, k: nat, q: nat): nat
    requires Grid(a, questionCount) && k <= |a| && q < questionCount
  {
    if k == 0 then 0 else UnansweredUpTo(a, questionCount, k - 1, q) + (if Chr2Ind(a[k - 1][q]) < 0 then 1 else 0)
  }

  /** The counts of the answer indices below `m` for question `q` among the first `k` students, added up. */
  function SumCounts(a: seq<seq<char>>, questionCount: nat, k: nat, q: nat, m: nat): nat
    requires Grid(a, questionCount) && k <= |a| && q < questionCount
  {
    if m == 0 then 0 else SumCounts(a, questionCount, k, q, m - 1) + CountUpTo(a, questionCount, k, q, m - 1)
  }

  /** The hits of one answer over the indices below `m`: 1 exactly when its index is one of them. */
  function SumHits(answer: char, m: nat): nat {
    if m == 0 then 0 else SumHits(answer, m - 1) + Hit(answer, m - 1)
  }

  /** An answer is counted once among the indices below `m` when its index is below `m`, and not at all otherwise. */
  lemma {:induction false} SumHitsOnce(answer: char, m: nat)
    ensures SumHits(answer, m) == if 0 <= Chr2Ind(answer) < m then 1 else 0
  {
    if m > 0 {
      SumHitsOnce(answer, m - 1);
    }
  }

  /** Adding one more student adds that student's hits to the sum of the counts. */
  lemma {:induction false} SumCountsStep(a: seq<seq<char>>, questionCount: nat, k: nat, q: nat, m: nat)
    requires Grid(a, questionCount) && 0 < k <= |a| && q < questionCount
    ensures SumCounts(a, questionCount, k, q, m) == SumCounts(a, questionCount, k - 1, q, m) + SumHits(a[k - 1][q], m)
  {
    if m > 0 {
      SumCountsStep(a, questionCount, k, q, m - 1);
    }
  }

  /**
   * `n_s_q` is the row sum of `n_s_qa`: when every index is below
   * `answerCount`, the counts of a question add up to the number of students
   * who gave it a letter.
   */
  lemma {:induction false} RowSumIsAnswered(a: seq<seq<char>>, questionCount: nat, answerCount: nat, k: nat, q: nat)
    requires Grid(a, questionCount) && IndicesBelow(a, questionCount, answerCount)
    requires k <= |a| && q < questionCount
    ensures SumCounts(a, questionCount, k, q, answerCount) == AnsweredUpTo(a, questionCount, k, q)
  {
    if k > 0 {
      RowSumIsAnswered(a, questionCount, answerCount, k - 1, q);
      SumCountsStep(a, questionCount, k, q, answerCount);
      SumHitsOnce(a[k - 1][q], answerCount);
    } else {
      SumCountsZero(a, questionCount, q, answerCount);
    }
  }

  /** With no students every count is zero. */
  lemma {:induction false} SumCountsZero(a: seq<seq<char>>, questionCount: nat, q: nat, m: nat)
    requires Grid(a, questionCount) && q < questionCount
    ensures SumCounts(a, questionCount, 0, q, m) == 0
  {
    if m > 0 {
      SumCountsZero(a, questionCount, q, m - 1);
    }
  }

  /** Every student either gave a letter or did not: `n_s_q + n_na_q == N_s`. */
  lemma {:induction false} AnsweredPlusUnanswered(a: seq<seq<char>>, questionCount: nat, k: nat, q: nat)
    requires Grid(a, questionCount) && k <= |a| && q < questionCount
    ensures AnsweredUpTo(a, questionCount, k, q) + UnansweredUpTo(a, questionCount, k, q) == k
  {
    if k > 0 {
      AnsweredPlusUnanswered(a, questionCount, k - 1, q);
    }
  }

  /**
   * The counting loop of `generate_statistics`: for each student and each
   * question, the entry of the answer's index is incremented; `*` is not
   * counted.
   */
  method CountAnswers(a: seq<seq<char>>, questionCount: nat, answerCount: nat) returns (n: array2<int>)
    requires Grid(a, questionCount) && IndicesBelow(a, questionCount, answerCount)
    ensures fresh(n) && n.Length0 == questionCount && n.Length1 == answerCount
    ensures forall q, x :: 0 <= q < questionCount && 0 <= x < answerCount ==> n[q, x] == CountUpTo(a, questionCount, |a|, q, x)
  {
    n := new int[questionCount, answerCount]((q, x) => 0);
    var si := 0;
    while si < |a|
      invariant 0 <= si <= |a|
      invariant forall q, x :: 0 <= q < questionCount && 0 <= x < answerCount ==> n[q, x] == CountUpTo(a, questionCount, si, q, x)
    {
      var qi := 0;
      while qi < questionCount
        invariant 0 <= qi <= questionCount
        invariant forall q, x :: 0 <= q < questionCount && 0 <= x < answerCount ==>
          n[q, x] == CountUpTo(a, questionCount, si, q, x) + (if q < qi then Hit(a[si][q], x) else 0)
      {
        var ai := Chr2Ind(a[si][qi]);
        if ai >= 0 {
          n[qi, ai] := n[qi, ai] + 1;
        }
        qi := qi + 1;
      }
      si := si + 1;
    }
  }

  /** The sum of the entries of row `q` of `n` in the columns below `m`. */
  function SumRow(n: array2<int>, q: nat, m: nat): int
    requires q < n.Length0 && m <= n.Length1
    reads n
  {
    if m == 0 then 0 else SumRow(n, q, m - 1) + n[q, m - 1]
  }

  /** The row sums of the count table equal the sums of the counts they hold. */
  lemma {:induction false} SumRowCounts(n: array2<int>, a: seq<seq<char>>, questionCount: nat, q: nat, m: nat)
    requires Grid(a, questionCount) && q < questionCount == n.Length0 && m <= n.Length1
    requires forall x :: 0 <= x < n.Length1 ==> n[q, x] == CountUpTo(a, questionCount, |a|, q, x)
    ensures SumRow(n, q, m) == SumCounts(a, questionCount, |a|, q, m)
  {
    if m > 0 {
      SumRowCounts(n, a, questionCount, q, m - 1);
    }
  }

  /**
   * The counts of `generate_statistics`: `n_s_qa`, its row sums `n_s_q`,
   * and `n_na_q = N_s - n_s_q`. Each row sum is the number of students who
   * gave the question a letter, and `n_na_q` the number who did not.
   */
  method GenerateCounts(a: seq<seq<char>>, questionCount: nat, answerCount: nat)
    returns (nsqa: array2<int>, nsq: seq<int>, nnaq: seq<int>)
    requires Grid(a, questionCount) && IndicesBelow(a, questionCount, answerCount)
    ensures fresh(nsqa) && nsqa.Length0 == questionCount && nsqa.Length1 == answerCount
    ensures forall q, x :: 0 <= q < questionCount && 0 <= x < answerCount ==> nsqa[q, x] == CountUpTo(a, questionCount, |a|, q, x)
    ensures |nsq| == |nnaq| == questionCount
    ensures forall q :: 0 <= q < questionCount ==> nsq[q] == AnsweredUpTo(a, questionCount, |a|, q)
    ensures forall q :: 0 <= q < questionCount ==> nnaq[q] == UnansweredUpTo(a, questionCount, |a|, q)
    ensures forall q :: 0 <= q < questionCount ==> nsq[q] + nnaq[q] == |a|
  {
    nsqa := CountAnswers(a, questionCount, answerCount);
    nsq := seq(questionCount, q requires 0 <= q < questionCount reads nsqa => SumRow(nsqa, q, answerCount));
    nnaq := seq(questionCount, q requires 0 <= q < questionCount => |a| - nsq[q]);
    forall q | 0 <= q < questionCount
      ensures nsq[q] == AnsweredUpTo(a, questionCount, |a|, q)
      ensures nnaq[q] == UnansweredUpTo(a, questionCount, |a|, q)
    {
      SumRowCounts(nsqa, a, questionCount, q, answerCount);
      RowSumIsAnswered(a, questionCount, answerCount, |a|, q);
      AnsweredPlusUnanswered(a, questionCount, |a|, q);
    }
  }
}
