/**
 * The server's `Poll` class (backend/server.js): one timed single-choice
 * question with its options, a one-entry-per-student answers map and an
 * active flag. Clock readings are milliseconds supplied by the caller.
 */
module Polls {
  import opened Common
  import opened Tally

  class Poll {
    const id: Uuid
    const sessionId: Uuid
    const question: string
    /** Seconds the poll may stay open. */
    const timeLimit: int
    /** Clock reading, in milliseconds, when the poll was created. */
    const startTime: int
    var options: seq<OptionTally>
    var endTime: Option<int>
    var isActive: bool
    var answers: map<ConnId, int>

    /**
     * The tally agrees with the answers, and a poll is open exactly while it has
     * no end time. The constructor establishes it and every method keeps it.
     */
    ghost predicate Valid()
      reads this
    {
      && Consistent(answers, options)
      && (isActive <==> endTime.None?)
    }

    /** `new Poll(sessionId, question, options, timeLimit)` with `id` from the id source and `now` from the clock. */
    constructor (id: Uuid, sessionId: Uuid, question: string, texts: seq<string>, timeLimit: int, now: int)
      ensures Valid()
      ensures this.id == id && this.sessionId == sessionId && this.question == question
      ensures this.timeLimit == timeLimit && startTime == now
      ensures |options| == |texts| && forall i :: 0 <= i < |texts| ==> options[i] == OptionTally(texts[i], 0)
      ensures isActive && endTime == None && answers == map[]
    {
      this.id := id;
      this.sessionId := sessionId;
      this.question := question;
      this.timeLimit := timeLimit;
      startTime := now;
      options := seq(|texts|, i requires 0 <= i < |texts| => OptionTally(texts[i], 0));
      endTime := None;
      isActive := true;
      answers := map[];
      new;
      FreshIsConsistent(options);
    }

    /**
     * Records `studentId`'s choice. Refused, with nothing changed, when the poll
     * is closed, when the student already has an entry, or when the index names
     * no option; otherwise exactly one answer and one vote on that option are added.
     */
    method AddAnswer(studentId: ConnId, optionIndex: int) returns (accepted: bool)
      modifies this`answers, this`options
      ensures old(Valid()) ==> Valid()
      ensures accepted <==> old(isActive) && studentId !in old(answers) && 0 <= optionIndex < |old(options)|
      ensures accepted ==> answers == old(answers)[studentId := optionIndex]
      ensures accepted ==> options == Bump(old(options), optionIndex)
      ensures accepted ==> |answers| == |old(answers)| + 1 && Sum(options) == Sum(old(options)) + 1
      ensures !accepted ==> answers == old(answers) && options == old(options)
    {
      if !isActive || studentId in answers || !(0 <= optionIndex < |options|) {
        return false;
      }
      if Consistent(answers, options) {
        AcceptKeepsConsistent(answers, options, studentId, optionIndex);
      }
      SumOfBump(options, optionIndex);
      answers := answers[studentId := optionIndex];
      options := Bump(options, optionIndex);
      accepted := true;
    }

    /** Closes the poll and stamps its end time; the tally is left as it is. */
    method EndPoll(now: int)
      modifies this`isActive, this`endTime
      ensures old(Valid()) ==> Valid()
      ensures !isActive && endTime == Some(now)
    {
      isActive := false;
      endTime := Some(now);
    }

    /**
     * Seconds left: 0 once closed, otherwise the time limit minus the seconds
     * elapsed since the start, never below 0.
     */
    function TimeRemaining(now: int): (r: real)
      reads this
      ensures r >= 0.0
      ensures !isActive ==> r == 0.0
      ensures isActive && r > 0.0 ==> r == timeLimit as real - (now - startTime) as real / 1000.0
      ensures isActive ==> r >= timeLimit as real - (now - startTime) as real / 1000.0
      ensures isActive && now >= startTime ==> r <= if timeLimit > 0 then timeLimit as real else 0.0
    {
      if !isActive then 0.0
      else
        var left := timeLimit as real - (now - startTime) as real / 1000.0;
        if left > 0.0 then left else 0.0
    }

    /**
     * The results view. It keeps the options' order, texts and counts, its total is
     * the number of answers, every percentage is at most 100 (all 0 without votes),
     * and with votes the percentages add up to 100 within half a point per option.
     */
    function GetResults(now: int): (r: PollResults)
      reads this
      ensures r.id == id && r.question == question && r.isActive == isActive
      ensures r.timeRemaining == TimeRemaining(now)
      ensures r.totalVotes == Sum(options)
      ensures Valid() ==> r.totalVotes == |answers|
      ensures |r.options| == |options|
      ensures forall i :: 0 <= i < |options| ==>
        && r.options[i].text == options[i].text
        && r.options[i].votes == options[i].votes
        && r.options[i].percentage == Percentage(options[i].votes, r.totalVotes)
        && r.options[i].percentage <= 100
      ensures r.totalVotes == 0 ==> forall i :: 0 <= i < |r.options| ==> r.options[i].percentage == 0
      ensures r.totalVotes > 0 ==> -|options| <= 2 * (PercentSum(r.options) - 100) <= |options|
    {
      var total := Sum(options);
      assert total > 0 ==> -|options| <= 2 * (PercentSum(WithPercentages(options, total)) - 100) <= |options| by {
        if total > 0 { PercentagesNearHundred(options); }
      }
      PollResults(id, question, WithPercentages(options, total), total, isActive, TimeRemaining(now))
    }
  }
}
