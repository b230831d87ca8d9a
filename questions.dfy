/**
 Question normalisation of the game page: each result returned by the trivia
 service becomes a display-ready question carrying an `options` list.
 Multiple-choice options are a shuffle of the incorrect answers followed by the
 correct one; every other question type gets the fixed pair True/False.

 The shuffle itself (`shuffleArray` in utils/arrayUtils) is not part of this
 model. Its outcome is taken as a parameter: an ordering of the indices of the
 list it is given. Nothing is assumed about which ordering it picks, only that
 it is a permutation.
 */
module Questions {

  /** One element of the service's `results` array. */
  datatype RawQuestion = RawQuestion(
    category: string,
    kind: string,          // the service's `type` field
    difficulty: string,
    question: string,
    correctAnswer: string,
    incorrectAnswers: seq<string>)

  /** A result with every field kept, plus the answer buttons to show. */
  datatype Question = Question(raw: RawQuestion, options: seq<string>)

  /** `order` lists every index below n exactly once: one possible outcome of a shuffle of n elements. */
  ghost predicate IsOrdering(order: seq<nat>, n: nat) {
    && |order| == n
    && (forall i :: 0 <= i < |order| ==> order[i] < n)
    && (forall v :: 0 <= v < n ==> multiset(order)[v] == 1)
  }

  /** The list `xs` rearranged so that position i holds `xs[order[i]]`. */
  function Permute<T>(xs: seq<T>, order: seq<nat>): seq<T>
    requires forall i :: 0 <= i < |order| ==> order[i] < |xs|
  {
    seq(|order|, i requires 0 <= i < |order| => xs[order[i]])
  }

  /** Taking the last index n - 1 out of an ordering of n leaves an ordering of n - 1. */
  lemma SplitOrdering(order: seq<nat>, n: nat) returns (j: nat)
    requires IsOrdering(order, n) && n > 0
    ensures j < |order| && order[j] == n - 1
    ensures IsOrdering(order[..j] + order[j + 1..], n - 1)
  {
    var last: nat := n - 1;
    assert multiset(order)[last] == 1;
    assert last in multiset(order);
    j :| 0 <= j < |order| && order[j] == last;
    var rest := order[..j] + order[j + 1..];
    assert order == order[..j] + [last] + order[j + 1..];
    assert multiset(order) == multiset(rest) + multiset{last};
    assert multiset(rest)[last] == 0;
    forall v | 0 <= v < last ensures multiset(rest)[v] == 1 {
      assert multiset(order)[v] == 1;
    }
    forall i | 0 <= i < |rest| ensures rest[i] < last {
      assert rest[i] == if i < j then order[i] else order[i + 1];
      assert rest[i] in multiset(rest);
    }
  }

  /** Rearranging by `order` places the last element where `order` names it, the rest as `order` without that entry says. */
  lemma PermuteSplice<T>(xs: seq<T>, order: seq<nat>, j: nat, rest: seq<nat>)
    requires |xs| > 0 && j < |order| && order[j] == |xs| - 1
    requires forall i :: 0 <= i < |order| ==> order[i] < |xs|
    requires rest == order[..j] + order[j + 1..]
    requires forall i :: 0 <= i < |rest| ==> rest[i] < |xs| - 1
    ensures var q := Permute(xs[..|xs| - 1], rest);
            Permute(xs, order) == q[..j] + [xs[|xs| - 1]] + q[j..]
  {
    var n := |xs|;
    var q := Permute(xs[..n - 1], rest);
    var p := Permute(xs, order);
    var s := q[..j] + [xs[n - 1]] + q[j..];
    assert |p| == |s|;
    forall i | 0 <= i < |p| ensures p[i] == s[i] {
      if i < j {
        assert rest[i] == order[i];
      } else if j < i {
        assert rest[i - 1] == order[i];
      }
    }
  }

  /** Rearranging by an ordering keeps every element, as often as it occurred, and nothing else. */
  lemma {:induction false} PermuteIsPermutation<T>(xs: seq<T>, order: seq<nat>)
    requires IsOrdering(order, |xs|)
    ensures |Permute(xs, order)| == |xs|
    ensures multiset(Permute(xs, order)) == multiset(xs)
    decreases |xs|
  {
    var n := |xs|;
    if n == 0 {
      return;
    }
    var j := SplitOrdering(order, n);
    var rest := order[..j] + order[j + 1..];
    var front := xs[..n - 1];
    var last := xs[n - 1];
    assert multiset(xs) == multiset(front) + multiset{last} by {
      assert xs == front + [last];
    }
    PermuteIsPermutation(front, rest);
    var q := Permute(front, rest);
    PermuteSplice(xs, order, j, rest);
    var p := Permute(xs, order);
    assert p == q[..j] + [last] + q[j..];
    assert multiset(p) == multiset(q[..j]) + multiset{last} + multiset(q[j..]);
    assert q == q[..j] + q[j..];
    assert multiset(q) == multiset(q[..j]) + multiset(q[j..]);
  }

  /** What the game page promises about the options of a question. */
  ghost predicate NormalisedOptions(q: RawQuestion, questionType: string, options: seq<string>) {
    if questionType == "multiple" then
      && |options| == |q.incorrectAnswers| + 1
      && multiset(options) == multiset(q.incorrectAnswers + [q.correctAnswer])
      && q.correctAnswer in options
    else
      options == ["True", "False"]
  }

  /** The shuffle outcome `order` fits question `q`: needed only when its options are shuffled. */
  ghost predicate ShuffleFits(q: RawQuestion, questionType: string, order: seq<nat>) {
    questionType == "multiple" ==> IsOrdering(order, |q.incorrectAnswers| + 1)
  }

  /** One shuffle outcome per result. */
  ghost predicate ShufflesFit(results: seq<RawQuestion>, questionType: string, orders: seq<seq<nat>>) {
    && |orders| == |results|
    && forall i :: 0 <= i < |results| ==> ShuffleFits(results[i], questionType, orders[i])
  }

  /** The number of answer buttons a result gets. */
  function OptionCount(q: RawQuestion, questionType: string): nat {
    if questionType == "multiple" then |q.incorrectAnswers| + 1 else 2
  }

  /** The body of the `map` callback in fetchQuestions. */
  function FormatQuestion(q: RawQuestion, questionType: string, order: seq<nat>): (r: Question)
    requires ShuffleFits(q, questionType, order)
    ensures r.raw == q
    ensures |r.options| == OptionCount(q, questionType)
    ensures NormalisedOptions(q, questionType, r.options)
  {
    if questionType == "multiple" then
      var pool := q.incorrectAnswers + [q.correctAnswer];
      PermuteIsPermutation(pool, order);
      var options := Permute(pool, order);
      assert q.correctAnswer in multiset(options);
      Question(q, options)
    else
      Question(q, ["True", "False"])
  }

  /** fetchQuestions' `results.map(...)`: one question per result, in the order received. */
  function FormatQuestions(results: seq<RawQuestion>, questionType: string, orders: seq<seq<nat>>): (r: seq<Question>)
    requires ShufflesFit(results, questionType, orders)
    ensures |r| == |results|
    ensures forall i :: 0 <= i < |r| ==> r[i].raw == results[i]
    ensures forall i :: 0 <= i < |r| ==> |r[i].options| == OptionCount(results[i], questionType)
    ensures forall i :: 0 <= i < |r| ==> NormalisedOptions(results[i], questionType, r[i].options)
  {
    seq(|results|, i requires 0 <= i < |results| => FormatQuestion(results[i], questionType, orders[i]))
  }
}
