/**
 * Vote bookkeeping of a poll, as pure values: the `{ text, votes }` options,
 * the one-entry-per-student answers map, and the results view that
 * `Poll.getResults` (backend/server.js) builds from them.
 */
module Tally {
  import opened Common

  /** One option as the server stores it: `{ text, votes }`. */
  datatype OptionTally = OptionTally(text: string, votes: nat)

  /** One option of a results view: the stored option plus its rounded percentage. */
  datatype OptionResult = OptionResult(text: string, votes: nat, percentage: nat)

  /**
   * The object `getResults` returns. The server sends it to clients and archives it
   * in `pollHistory`; the client store keeps it as its `Poll`.
   */
  datatype PollResults = PollResults(
    id: Uuid,
    question: string,
    options: seq<OptionResult>,
    totalVotes: nat,
    isActive: bool,
    timeRemaining: real)

  /**
   * `options.reduce((sum, option) => sum + option.votes, 0)`, folded from the left.
   * No option holds more votes than the total.
   */
  function Sum(opts: seq<OptionTally>): (r: nat)
    ensures forall i :: 0 <= i < |opts| ==> opts[i].votes <= r
  {
    if opts == [] then 0
    else
      var n := |opts| - 1;
      var s := Sum(opts[..n]);
      assert forall i :: 0 <= i < n ==> opts[..n][i] == opts[i];
      s + opts[n].votes
  }

  /** The options after `options[i].votes++`. */
  function Bump(opts: seq<OptionTally>, i: nat): seq<OptionTally>
    requires i < |opts|
  {
    opts[i := opts[i].(votes := opts[i].votes + 1)]
  }

  /** How many students' answers chose option `i`. */
  function Count(answers: map<ConnId, int>, i: int): nat
  {
    |set s | s in answers && answers[s] == i|
  }

  /**
   * The tally agrees with the answers: every answer names an existing option,
   * each option's count is the number of answers naming it, and the counts add
   * up to the number of students who answered.
   */
  ghost predicate Consistent(answers: map<ConnId, int>, opts: seq<OptionTally>)
  {
    && (forall s :: s in answers ==> 0 <= answers[s] < |opts|)
    && (forall i :: 0 <= i < |opts| ==> opts[i].votes == Count(answers, i))
    && Sum(opts) == |answers|
  }

  lemma {:induction false} SumOfFresh(opts: seq<OptionTally>)
    requires forall i :: 0 <= i < |opts| ==> opts[i].votes == 0
    ensures Sum(opts) == 0
  {
    if opts != [] {
      SumOfFresh(opts[..|opts| - 1]);
    }
  }

  /** Incrementing one option's count raises the total by exactly one. */
  lemma {:induction false} SumOfBump(opts: seq<OptionTally>, i: nat)
    requires i < |opts|
    ensures |Bump(opts, i)| == |opts|
    ensures Sum(Bump(opts, i)) == Sum(opts) + 1
  {
    var n := |opts| - 1;
    var b := Bump(opts, i);
    if i == n {
      assert b[..n] == opts[..n];
    } else {
      assert b[..n] == Bump(opts[..n], i);
      SumOfBump(opts[..n], i);
    }
  }

  lemma CountOfAdd(answers: map<ConnId, int>, s: ConnId, j: int, i: int)
    requires s !in answers
    ensures Count(answers[s := j], i) == Count(answers, i) + (if i == j then 1 else 0)
  {
    var m := answers[s := j];
    var before := set t | t in answers && answers[t] == i;
    var after := set t | t in m && m[t] == i;
    if i == j {
      assert after == before + {s};
    } else {
      assert after == before;
    }
  }

  lemma CountAtMostSize(answers: map<ConnId, int>, i: int)
    ensures Count(answers, i) <= |answers|
  {
    var chose := set s | s in answers && answers[s] == i;
    var rest := answers.Keys - chose;
    assert answers.Keys == chose + rest && chose * rest == {};
  }

  /** An empty answers map is consistent with options that all start at zero votes. */
  lemma FreshIsConsistent(opts: seq<OptionTally>)
    requires forall i :: 0 <= i < |opts| ==> opts[i].votes == 0
    ensures Consistent(map[], opts)
  {
    var none: map<ConnId, int> := map[];
    SumOfFresh(opts);
    forall i | 0 <= i < |opts|
      ensures opts[i].votes == Count(none, i)
    {
      CountAtMostSize(none, i);
    }
    assert |none| == 0;
  }

  /**
   * Accepting one new answer (a student without an entry, an index inside the
   * options) keeps the tally consistent: one more answer, one more vote, on
   * that option only.
   */
  lemma {:induction false} AcceptKeepsConsistent(answers: map<ConnId, int>, opts: seq<OptionTally>, s: ConnId, i: nat)
    requires Consistent(answers, opts)
    requires s !in answers && i < |opts|
    ensures Consistent(answers[s := i], Bump(opts, i))
  {
    SumOfBump(opts, i);
    forall k | 0 <= k < |opts|
      ensures Bump(opts, i)[k].votes == Count(answers[s := i], k)
    {
      CountOfAdd(answers, s, i, k);
    }
  }

  /**
   * `Math.round((votes / total) * 100)` when `total > 0`, else 0, with the rounding
   * done on integers: half a percentage point rounds up, as `Math.round` does for
   * non-negative numbers.
   */
  function Percentage(votes: nat, total: nat): (p: nat)
    ensures total == 0 ==> p == 0
    ensures total > 0 ==> -(total as int) <= 2 * (100 * votes - p * total) < total
    ensures votes <= total ==> p <= 100
  {
    if total > 0 then
      var p := (200 * votes + total) / (2 * total);
      assert 2 * total * p <= 200 * votes + total < 2 * total * p + 2 * total;
      assert votes <= total ==> 2 * total * p < 2 * total * 101 by {
        if votes <= total {
          assert 200 * votes + total <= 201 * total;
        }
      }
      p
    else 0
  }

  /**
   * The options of a results view: `options.map(o => ({ ...o, percentage }))`.
   * Order, texts and counts are kept; without votes every percentage is 0, and an
   * option holding at most the total gets at most 100.
   */
  function WithPercentages(opts: seq<OptionTally>, total: nat): (r: seq<OptionResult>)
    ensures |r| == |opts|
    ensures forall i :: 0 <= i < |opts| ==> r[i].text == opts[i].text && r[i].votes == opts[i].votes
    ensures total == 0 ==> forall i :: 0 <= i < |r| ==> r[i].percentage == 0
    ensures forall i :: 0 <= i < |opts| && opts[i].votes <= total ==> r[i].percentage <= 100
  {
    seq(|opts|, i requires 0 <= i < |opts| => OptionResult(opts[i].text, opts[i].votes, Percentage(opts[i].votes, total)))
  }

  /** The sum of the percentages of a results view, folded from the left. */
  function PercentSum(rs: seq<OptionResult>): int
  {
    if rs == [] then 0 else PercentSum(rs[..|rs| - 1]) + rs[|rs| - 1].percentage
  }

  /** Dividing the scaled bound by the (positive) total. */
  lemma Descale(e: int, ps: int, n: int, t: int)
    requires t > 0 && n >= 0
    requires e == t * ps - 100 * t
    requires -(n * t) <= 2 * e <= n * t
    ensures -n <= 2 * (ps - 100) <= n
  {
    var d := 2 * (ps - 100);
    assert 2 * e == d * t;
  }

  /** The rounding errors `percentage * total - 100 * votes` of the options, summed from the left. */
  function RoundingError(opts: seq<OptionTally>, total: nat): int
  {
    if opts == [] then 0
    else
      var v := opts[|opts| - 1].votes;
      RoundingError(opts[..|opts| - 1], total) + (Percentage(v, total) * total - 100 * v)
  }

  lemma MulSucc(n: int, t: int)
    ensures (n + 1) * t == n * t + t
  {
  }

  /** Each option is off by at most half a point, so `n` options by at most `n` halves. */
  lemma {:induction false} RoundingErrorBound(opts: seq<OptionTally>, total: nat)
    requires total > 0
    ensures -(|opts| * total) <= 2 * RoundingError(opts, total) <= |opts| * total
  {
    if opts != [] {
      var n := |opts| - 1;
      RoundingErrorBound(opts[..n], total);
      MulSucc(n, total);
    }
  }

  lemma Distribute(t: int, a: int, b: int)
    ensures t * (a + b) == t * a + b * t
  {
  }

  lemma WithPercentagesPrefix(opts: seq<OptionTally>, total: nat, n: nat)
    requires n <= |opts|
    ensures WithPercentages(opts, total)[..n] == WithPercentages(opts[..n], total)
  {
  }

  /** The summed error is the gap between the scaled percentage sum and 100 times the vote sum. */
  lemma {:induction false} RoundingErrorIsGap(opts: seq<OptionTally>, total: nat)
    ensures RoundingError(opts, total) == total * PercentSum(WithPercentages(opts, total)) - 100 * Sum(opts)
  {
    if opts != [] {
      var n := |opts| - 1;
      var rs := WithPercentages(opts, total);
      WithPercentagesPrefix(opts, total, n);
      RoundingErrorIsGap(opts[..n], total);
      Distribute(total, PercentSum(rs[..n]), rs[n].percentage);
    }
  }

  /**
   * With at least one vote, the rounded percentages add up to 100 up to the
   * rounding: at most half a point per option away.
   */
  lemma {:induction false} PercentagesNearHundred(opts: seq<OptionTally>)
    requires Sum(opts) > 0
    ensures -|opts| <= 2 * (PercentSum(WithPercentages(opts, Sum(opts))) - 100) <= |opts|
  {
    var t := Sum(opts);
    RoundingErrorBound(opts, t);
    RoundingErrorIsGap(opts, t);
    Descale(RoundingError(opts, t), PercentSum(WithPercentages(opts, t)), |opts|, t);
  }

  /** What `addAnswer` does to an options list and answers map. */
  datatype AddOutcome = Accepted | Rejected | Threw

  /**
   * `addAnswer` exactly as written: the answer is stored before the option is
   * indexed, so an index outside the options throws after the map has changed
   * and no vote is counted.
   */
  function AddAnswerAsWritten(isActive: bool, answers: map<ConnId, int>, opts: seq<OptionTally>, s: ConnId, optionIndex: int)
    : (r: (AddOutcome, map<ConnId, int>, seq<OptionTally>))
    ensures r.0 == Rejected <==> !isActive || s in answers
    ensures r.0 != Rejected ==> r.1 == answers[s := optionIndex]
    ensures r.0 == Threw <==> isActive && s !in answers && !(0 <= optionIndex < |opts|)
  {
    if !isActive || s in answers then (Rejected, answers, opts)
    else if 0 <= optionIndex < |opts| then (Accepted, answers[s := optionIndex], Bump(opts, optionIndex))
    else (Threw, answers[s := optionIndex], opts)
  }

  /**
   * The discrepancy: one out-of-range submission on a consistent tally leaves an
   * answer with no vote behind it. Should the process outlive the exception, the
   * poll it leaves behind refuses every later submission by the same student.
   */
  lemma AsWrittenOutOfRangeBreaksTally(answers: map<ConnId, int>, opts: seq<OptionTally>, s: ConnId, optionIndex: int, retry: int)
    requires Consistent(answers, opts)
    requires s !in answers && !(0 <= optionIndex < |opts|)
    ensures var r := AddAnswerAsWritten(true, answers, opts, s, optionIndex);
      && r.0 == Threw
      && Sum(r.2) + 1 == |r.1|
      && !Consistent(r.1, r.2)
      && AddAnswerAsWritten(true, r.1, r.2, s, retry).0 == Rejected
  {
  }

  /** A concrete case: two options, no answers yet, a student submits index 2. */
  lemma AsWrittenExample()
    ensures var opts := [OptionTally("X", 0), OptionTally("Y", 0)];
      var r := AddAnswerAsWritten(true, map[], opts, "a", 2);
      r.0 == Threw && |r.1| == 1 && Sum(r.2) == 0
  {
    var opts := [OptionTally("X", 0), OptionTally("Y", 0)];
    SumOfFresh(opts);
  }
}
