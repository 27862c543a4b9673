/**
 * The client's poll store (src/store/pollSlice.ts): the poll on screen, the
 * results of earlier polls, and the student's own answer. Each reducer
 * assigns fields of the store's state, so the state is a class and each
 * reducer a method.
 */
module PollSlice {
  import opened Common
  import opened Tally

  /** No two entries of a history carry the same poll id. */
  predicate UniqueIds(history: seq<PollResults>)
  {
    forall i, j :: 0 <= i < j < |history| ==> history[i].id != history[j].id
  }

  /** Some entry of the history carries poll id `id`. */
  predicate Recorded(history: seq<PollResults>, id: Uuid)
  {
    exists i :: 0 <= i < |history| && history[i].id == id
  }

  /**
   * The history after results `p` arrive: `p` is appended unless an entry with
   * its id is already there, in which case the history stays as it is (the
   * earlier entry is kept, not refreshed).
   */
  function WithResults(history: seq<PollResults>, p: PollResults): (r: seq<PollResults>)
    ensures Recorded(history, p.id) ==> r == history
    ensures !Recorded(history, p.id) ==> r == history + [p]
    ensures Recorded(r, p.id)
    ensures |history| <= |r| <= |history| + 1 && r[..|history|] == history
    ensures UniqueIds(history) ==> UniqueIds(r)
  {
    match FindIndex(history, (q: PollResults) => q.id, p.id)
    case Some(i) => history
    case None =>
      assert (history + [p])[|history|] == p;
      history + [p]
  }

  /** Results that arrive twice are recorded once. */
  lemma WithResultsIdempotent(history: seq<PollResults>, p: PollResults)
    ensures WithResults(WithResults(history, p), p) == WithResults(history, p)
  {
  }

  /** The store's state: `PollState`. */
  class PollState {
    var currentPoll: Option<PollResults>
    var pollHistory: seq<PollResults>
    var isLoading: bool
    var hasAnswered: bool
    var selectedOption: Option<int>

    /** `initialState`: no poll, empty history, not loading, not answered, nothing selected. */
    constructor ()
      ensures currentPoll == None && pollHistory == [] && !isLoading && !hasAnswered && selectedOption == None
      ensures UniqueIds(pollHistory)
    {
      currentPoll := None;
      pollHistory := [];
      isLoading := false;
      hasAnswered := false;
      selectedOption := None;
    }

    /** `setPoll`: a new poll is shown and the student's answer is forgotten. */
    method SetPoll(p: PollResults)
      modifies this`currentPoll, this`hasAnswered, this`selectedOption
      ensures currentPoll == Some(p) && !hasAnswered && selectedOption == None
    {
      currentPoll := Some(p);
      hasAnswered := false;
      selectedOption := None;
    }

    /** `updatePoll`: fresh figures replace the shown poll, but only for that same poll. */
    method UpdatePoll(p: PollResults)
      modifies this`currentPoll
      ensures old(currentPoll).Some? && old(currentPoll).value.id == p.id ==> currentPoll == Some(p)
      ensures !(old(currentPoll).Some? && old(currentPoll).value.id == p.id) ==> currentPoll == old(currentPoll)
    {
      if currentPoll.Some? && currentPoll.value.id == p.id {
        currentPoll := Some(p);
      }
    }

    /**
     * `setPollResults`: final results are shown and recorded in the history once
     * per poll id, so a history without repeated ids keeps none.
     */
    method SetPollResults(p: PollResults)
      modifies this`currentPoll, this`pollHistory
      ensures currentPoll == Some(p)
      ensures pollHistory == WithResults(old(pollHistory), p)
      ensures UniqueIds(old(pollHistory)) ==> UniqueIds(pollHistory)
    {
      currentPoll := Some(p);
      if FindIndex(pollHistory, (q: PollResults) => q.id, p.id).None? {
        pollHistory := pollHistory + [p];
      }
    }

    /** `setHasAnswered`: the flag is set; the selection changes only when an option is given. */
    method SetHasAnswered(answered: bool, option: Option<int>)
      modifies this`hasAnswered, this`selectedOption
      ensures hasAnswered == answered
      ensures selectedOption == if option.Some? then option else old(selectedOption)
    {
      hasAnswered := answered;
      if option.Some? {
        selectedOption := option;
      }
    }

    /** `clearCurrentPoll`: no poll is shown and the student's answer is forgotten. */
    method ClearCurrentPoll()
      modifies this`currentPoll, this`hasAnswered, this`selectedOption
      ensures currentPoll == None && !hasAnswered && selectedOption == None
    {
      currentPoll := None;
      hasAnswered := false;
      selectedOption := None;
    }

    /** `setLoading`. */
    method SetLoading(loading: bool)
      modifies this`isLoading
      ensures isLoading == loading
    {
      isLoading := loading;
    }

    /** `setPollHistory`: the history is replaced as given; ids are not de-duplicated. */
    method SetPollHistory(history: seq<PollResults>)
      modifies this`pollHistory
      ensures pollHistory == history
    {
      pollHistory := history;
    }
  }
}
