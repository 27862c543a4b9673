/**
 * The socket handlers of backend/server.js over the module-level `sessions`,
 * `activePolls` and `timers` maps. Each handler is one sequential step; the
 * `setTimeout` callback of create-poll is the separate event `Expire`.
 */
module PollServer {
  import opened Common
  import opened Tally
  import opened Polls
  import opened Sessions

  /**
   * A pending `setTimeout` callback armed by create-poll: when it fires it
   * closes `poll` and files the results in `session`'s history.
   */
  datatype Timer = Timer(poll: Poll, session: PollSession)

  /** What a handler passes to the socket's acknowledgement callback. */
  datatype Reply =
    | Failed(error: string)
    | SessionCreated(sessionId: Uuid)
    | Joined(sessionId: Uuid, studentId: ConnId, students: map<ConnId, Student>)
    | PollCreated(pollId: Uuid)
    | Done
    | SessionInfo(id: Uuid, students: map<ConnId, Student>, currentPoll: Option<PollResults>, pollHistory: seq<PollResults>)

  /** A poll is open exactly while its timer is armed. */
  ghost predicate OpenWhileArmed(polls: map<Uuid, Poll>, timers: map<Uuid, Timer>)
    reads polls.Values`isActive
  {
    forall p :: p in polls.Values ==> (p.isActive <==> p.id in timers)
  }

  /**
   * Each timer belongs to a known poll, filed under the poll's id, and to the
   * session that poll was created in.
   */
  ghost predicate TimersKnown(timers: map<Uuid, Timer>, polls: map<Uuid, Poll>)
  {
    forall pid :: pid in timers ==>
      pid in polls && timers[pid].poll == polls[pid] && timers[pid].session.id == polls[pid].sessionId
  }

  /**
   * A poll has been closed exactly once if it is closed, never if it is still
   * open (its timer armed) or unknown.
   */
  ghost predicate ArchivedOnce(archived: multiset<Uuid>, polls: map<Uuid, Poll>, timers: map<Uuid, Timer>)
  {
    forall pid :: archived[pid] == if pid in polls && pid !in timers then 1 else 0
  }

  class Server {
    var sessions: map<Uuid, PollSession>
    /** Every poll ever created, open or closed; entries are never removed. */
    var activePolls: map<Uuid, Poll>
    var timers: map<Uuid, Timer>
    /** The id source standing in for `uuidv4()`. */
    var nextId: nat
    /**
     * One copy of a poll's id per closure. `ClosePoll` is the only method that adds
     * to it, and it appends the poll's results to a history in the same step.
     */
    ghost var archived: multiset<Uuid>

    /**
     * Ids are the keys they are filed under and were all drawn already; a poll is
     * open exactly while its timer is armed; a closed poll was closed exactly once
     * and an open poll never.
     */
    ghost predicate Valid()
      reads this, activePolls.Values`isActive
    {
      && (forall sid :: sid in sessions ==> sessions[sid].id == sid && sid < nextId)
      && (forall pid :: pid in activePolls ==> activePolls[pid].id == pid && pid < nextId)
      && OpenWhileArmed(activePolls, timers)
      && TimersKnown(timers, activePolls)
      && ArchivedOnce(archived, activePolls, timers)
    }

    /** `caller` is the teacher of an existing session `sessionId`. */
    predicate IsTeacherOf(sessionId: Uuid, caller: ConnId)
      reads this
    {
      sessionId in sessions && sessions[sessionId].teacherId == caller
    }

    /** The guard of create-poll: the current poll is open and someone has not answered it. */
    predicate PreviousPollRunning(sessionId: Uuid)
      requires sessionId in sessions
      reads this, sessions[sessionId]
      reads if sessions[sessionId].currentPoll != null then {sessions[sessionId].currentPoll} else {}
    {
      var s := sessions[sessionId];
      s.currentPoll != null && s.currentPoll.isActive && !s.AllStudentsAnswered()
    }

    /** Every check of submit-answer passes, including the poll's own `addAnswer`. */
    predicate Admits(caller: ConnId, pollId: Uuid, optionIndex: int, sessionId: Uuid)
      reads this, sessions.Values, activePolls.Values
    {
      && pollId in activePolls && sessionId in sessions
      && caller in sessions[sessionId].students
      && !sessions[sessionId].students[caller].hasAnswered
      && activePolls[pollId].isActive
      && caller !in activePolls[pollId].answers
      && 0 <= optionIndex < |activePolls[pollId].options|
    }

    /** The empty in-memory storage the server starts with. */
    constructor ()
      ensures Valid()
      ensures sessions == map[] && activePolls == map[] && timers == map[] && archived == multiset{}
    {
      sessions := map[];
      activePolls := map[];
      timers := map[];
      nextId := 0;
      archived := multiset{};
    }

    /** teacher:create-session: a new, empty session whose teacher is the caller. */
    method CreateSession(caller: ConnId, now: int) returns (reply: Reply)
      requires Valid()
      modifies this`sessions, this`nextId
      ensures Valid()
      ensures reply == SessionCreated(old(nextId))
      ensures old(nextId) !in old(sessions) && old(nextId) in sessions
      ensures sessions == old(sessions)[old(nextId) := sessions[old(nextId)]]
      ensures fresh(sessions[old(nextId)])
      ensures sessions[old(nextId)].teacherId == caller && sessions[old(nextId)].students == map[]
      ensures sessions[old(nextId)].currentPoll == null && sessions[old(nextId)].pollHistory == []
    {
      var session := new PollSession(nextId, caller, now);
      sessions := sessions[nextId := session];
      reply := SessionCreated(nextId);
      nextId := nextId + 1;
    }

    /**
     * student:join-session: files the caller as a student of the session (again,
     * if it was there already) and returns the students.
     */
    method JoinSession(caller: ConnId, sessionId: Uuid, studentName: string, now: int) returns (reply: Reply)
      requires Valid()
      modifies if sessionId in sessions then {sessions[sessionId]} else {}
      ensures Valid()
      ensures sessionId !in sessions ==> reply == Failed("Session not found")
      ensures sessionId in sessions ==>
        && sessions[sessionId].students == old(sessions[sessionId].students)[caller := Student(studentName, false, now)]
        && sessions[sessionId].currentPoll == old(sessions[sessionId].currentPoll)
        && sessions[sessionId].pollHistory == old(sessions[sessionId].pollHistory)
        && reply == Joined(sessionId, caller, sessions[sessionId].students)
    {
      if sessionId !in sessions {
        return Failed("Session not found");
      }
      var session := sessions[sessionId];
      session.AddStudent(caller, studentName, now);
      reply := Joined(sessionId, caller, session.students);
    }

    /**
     * teacher:create-poll. Refused, with nothing changed, unless the caller is the
     * session's teacher and no earlier poll is still waiting for answers. Otherwise a
     * new open poll with zero votes becomes the current poll, every student's answer
     * flag is cleared, and the poll's timer is armed.
     */
    method CreatePoll(caller: ConnId, sessionId: Uuid, question: string, options: seq<string>, timeLimit: Option<int>, now: int)
      returns (reply: Reply)
      requires Valid()
      modifies this`nextId, this`activePolls, this`timers
      modifies if sessionId in sessions then {sessions[sessionId]} else {}
      ensures Valid()
      ensures !old(IsTeacherOf(sessionId, caller)) ==> reply == Failed("Unauthorized or session not found")
      ensures old(IsTeacherOf(sessionId, caller)) && old(PreviousPollRunning(sessionId)) ==>
        reply == Failed("Previous poll is still active")
      ensures old(IsTeacherOf(sessionId, caller)) && !old(PreviousPollRunning(sessionId)) ==> !reply.Failed?
      ensures reply.Failed? ==>
        && nextId == old(nextId) && activePolls == old(activePolls) && timers == old(timers)
        && (sessionId in old(sessions) ==> unchanged(old(sessions[sessionId])))
      ensures !reply.Failed? ==>
        && old(IsTeacherOf(sessionId, caller)) && !old(PreviousPollRunning(sessionId))
        && reply == PollCreated(old(nextId)) && nextId == old(nextId) + 1
        && old(nextId) !in old(activePolls) && old(nextId) in activePolls
        && activePolls == old(activePolls)[old(nextId) := activePolls[old(nextId)]]
        && fresh(activePolls[old(nextId)])
        && sessions[sessionId].currentPoll == activePolls[old(nextId)]
        && timers == old(timers)[old(nextId) := Timer(activePolls[old(nextId)], sessions[sessionId])]
      ensures !reply.Failed? ==>
        var p := activePolls[old(nextId)];
        && p.isActive && p.answers == map[] && p.sessionId == sessionId && p.question == question
        && p.timeLimit == (if timeLimit.Some? then timeLimit.value else 60) && p.startTime == now
        && |p.options| == |options| && (forall i :: 0 <= i < |options| ==> p.options[i] == OptionTally(options[i], 0))
      ensures !reply.Failed? ==>
        && sessions[sessionId].students.Keys == old(sessions[sessionId].students).Keys
        && (forall k :: k in sessions[sessionId].students ==>
              sessions[sessionId].students[k] == old(sessions[sessionId].students)[k].(hasAnswered := false))
        && sessions[sessionId].pollHistory == old(sessions[sessionId].pollHistory)
    {
      if sessionId !in sessions || sessions[sessionId].teacherId != caller {
        return Failed("Unauthorized or session not found");
      }
      var session := sessions[sessionId];
      if session.currentPoll != null && session.currentPoll.isActive && !session.AllStudentsAnswered() {
        return Failed("Previous poll is still active");
      }
      var limit := if timeLimit.Some? then timeLimit.value else 60;
      var poll := new Poll(nextId, sessionId, question, options, limit, now);
      ArmPoll(poll, session);
      InstallPoll(poll, session);
      reply := PollCreated(poll.id);
    }

    /**
     * Files a new open poll under its id, the next id drawn, and arms its timer
     * for the session it was created in.
     */
    method ArmPoll(poll: Poll, session: PollSession)
      requires Valid()
      requires poll.id == nextId && poll.isActive && poll.sessionId == session.id
      modifies this`nextId, this`activePolls, this`timers
      ensures Valid()
      ensures nextId == old(nextId) + 1 && poll.id !in old(activePolls)
      ensures activePolls == old(activePolls)[poll.id := poll]
      ensures timers == old(timers)[poll.id := Timer(poll, session)]
    {
      nextId := nextId + 1;
      activePolls := activePolls[poll.id := poll];
      timers := timers[poll.id := Timer(poll, session)];
    }

    /** Makes a known poll the session's current poll and clears every student's answer flag. */
    method InstallPoll(poll: Poll, session: PollSession)
      requires Valid()
      requires poll.id in activePolls && activePolls[poll.id] == poll
      requires session.id in sessions && sessions[session.id] == session
      modifies session`currentPoll, session`students
      ensures Valid()
      ensures session.currentPoll == poll
      ensures session.students.Keys == old(session.students).Keys
      ensures forall k :: k in session.students ==> session.students[k] == old(session.students)[k].(hasAnswered := false)
    {
      session.currentPoll := poll;
      session.ResetAnswers();
    }

    /**
     * Closes the open poll `pollId`: it is ended, its results are appended to
     * `session`'s history, its id is counted in `archived`, and its timer is
     * dropped. Both the timer callback and submit-answer close a poll this way;
     * the order of these steps inside one handler cannot be observed.
     */
    method ClosePoll(pollId: Uuid, session: PollSession, now: int)
      requires Valid()
      requires pollId in timers
      modifies this`timers, this`archived
      modifies timers[pollId].poll`isActive, timers[pollId].poll`endTime
      modifies session`pollHistory
      ensures Valid()
      ensures pollId in activePolls && activePolls[pollId] == old(timers[pollId].poll)
      ensures old(activePolls[pollId].isActive)
      ensures timers == old(timers) - {pollId} && archived == old(archived) + multiset{pollId}
      ensures !activePolls[pollId].isActive && activePolls[pollId].endTime == Some(now)
      ensures session.pollHistory == old(session.pollHistory) + [activePolls[pollId].GetResults(now)]
    {
      var poll := timers[pollId].poll;
      poll.EndPoll(now);
      timers := timers - {pollId};
      archived := archived + multiset{pollId};
      assert OpenWhileArmed(activePolls, timers) by {
        forall p | p in activePolls.Values
          ensures p.isActive <==> p.id in timers
        {
          if p != poll {
            assert p.id != pollId;
          }
        }
      }
      session.pollHistory := session.pollHistory + [poll.GetResults(now)];
    }

    /**
     * The timer of poll `pollId` fires. A cancelled (or already fired) timer does
     * nothing. Otherwise the poll, which is still open, is closed and its results
     * are appended once to the history of the session that armed the timer.
     */
    method Expire(pollId: Uuid, now: int)
      requires Valid()
      modifies this`timers, this`archived
      modifies (if pollId in timers then {timers[pollId].poll} else {})`isActive
      modifies (if pollId in timers then {timers[pollId].poll} else {})`endTime
      modifies (if pollId in timers then {timers[pollId].session} else {})`pollHistory
      ensures Valid()
      ensures pollId !in old(timers) ==> timers == old(timers) && archived == old(archived)
      ensures pollId in old(timers) ==>
        var t := old(timers[pollId]);
        && old(t.poll.isActive) && !t.poll.isActive && t.poll.endTime == Some(now)
        && timers == old(timers) - {pollId}
        && archived == old(archived) + multiset{pollId}
        && t.session.pollHistory == old(t.session.pollHistory) + [t.poll.GetResults(now)]
    {
      if pollId !in timers {
        return;
      }
      var t := timers[pollId];
      ClosePoll(pollId, t.session, now);
    }

    /**
     * student:submit-answer. Refused, with nothing changed, for an unknown poll or
     * session, a caller who is not a student of the session, a student already
     * marked as answered, or an answer the poll refuses. An accepted answer marks
     * the student; if every student of the session has now answered, the timer is
     * cancelled, the poll is closed and its results are appended once to the
     * session's history. The poll id is not checked against the session's current poll.
     */
    method SubmitAnswer(caller: ConnId, pollId: Uuid, optionIndex: int, sessionId: Uuid, now: int) returns (reply: Reply)
      requires Valid()
      modifies this`timers, this`archived
      modifies if pollId in activePolls then {activePolls[pollId]} else {}
      modifies (if sessionId in sessions then {sessions[sessionId]} else {})`students
      modifies (if sessionId in sessions then {sessions[sessionId]} else {})`pollHistory
      ensures Valid()
      ensures reply == Done <==> old(Admits(caller, pollId, optionIndex, sessionId))
      ensures pollId !in activePolls || sessionId !in sessions ==> reply == Failed("Poll or session not found")
      ensures pollId in activePolls && sessionId in sessions && caller !in old(sessions[sessionId].students) ==>
        reply == Failed("Student not found in session")
      ensures pollId in activePolls && sessionId in sessions && caller in old(sessions[sessionId].students) ==>
        old(sessions[sessionId].students[caller].hasAnswered) ==> reply == Failed("Already answered this poll")
      ensures pollId in activePolls && sessionId in sessions && caller in old(sessions[sessionId].students) ==>
        !old(sessions[sessionId].students[caller].hasAnswered) && !old(Admits(caller, pollId, optionIndex, sessionId)) ==>
        reply == Failed("Failed to submit answer")
      ensures reply != Done ==>
        && timers == old(timers) && archived == old(archived)
        && (pollId in activePolls ==> unchanged(activePolls[pollId]))
        && (sessionId in sessions ==> unchanged(sessions[sessionId]))
      ensures reply == Done ==>
        && activePolls[pollId].answers == old(activePolls[pollId].answers)[caller := optionIndex]
        && activePolls[pollId].options == Bump(old(activePolls[pollId].options), optionIndex)
        && sessions[sessionId].students
           == old(sessions[sessionId].students)[caller := old(sessions[sessionId].students[caller]).(hasAnswered := true)]
      ensures reply == Done && sessions[sessionId].AllStudentsAnswered() ==>
        && !activePolls[pollId].isActive && activePolls[pollId].endTime == Some(now)
        && timers == old(timers) - {pollId}
        && sessions[sessionId].pollHistory == old(sessions[sessionId].pollHistory) + [activePolls[pollId].GetResults(now)]
        && archived == old(archived) + multiset{pollId}
      ensures reply == Done && !sessions[sessionId].AllStudentsAnswered() ==>
        && activePolls[pollId].isActive
        && activePolls[pollId].endTime == old(activePolls[pollId].endTime)
        && timers == old(timers)
        && sessions[sessionId].pollHistory == old(sessions[sessionId].pollHistory)
        && archived == old(archived)
    {
      if pollId !in activePolls || sessionId !in sessions {
        return Failed("Poll or session not found");
      }
      var poll := activePolls[pollId];
      var session := sessions[sessionId];
      if caller !in session.students {
        return Failed("Student not found in session");
      }
      var student := session.students[caller];
      if student.hasAnswered {
        return Failed("Already answered this poll");
      }
      var success := TakeAnswer(pollId, session, caller, optionIndex, now);
      reply := if success then Done else Failed("Failed to submit answer");
    }

    /**
     * The accepting half of submit-answer: records the answer and, once every
     * student of the session has answered, closes the poll.
     */
    method TakeAnswer(pollId: Uuid, session: PollSession, caller: ConnId, optionIndex: int, now: int) returns (success: bool)
      requires Valid()
      requires pollId in activePolls && session.id in sessions && sessions[session.id] == session
      requires caller in session.students
      modifies this`timers, this`archived, activePolls[pollId], session`students, session`pollHistory
      ensures Valid()
      ensures success <==>
        var p := activePolls[pollId];
        old(p.isActive) && caller !in old(p.answers) && 0 <= optionIndex < |old(p.options)|
      ensures !success ==>
        && timers == old(timers) && archived == old(archived)
        && unchanged(activePolls[pollId]) && unchanged(session)
      ensures success ==>
        var p := activePolls[pollId];
        && p.answers == old(p.answers)[caller := optionIndex]
        && p.options == Bump(old(p.options), optionIndex)
        && session.students == old(session.students)[caller := old(session.students[caller]).(hasAnswered := true)]
      ensures success && session.AllStudentsAnswered() ==>
        var p := activePolls[pollId];
        && !p.isActive && p.endTime == Some(now)
        && timers == old(timers) - {pollId}
        && session.pollHistory == old(session.pollHistory) + [p.GetResults(now)]
        && archived == old(archived) + multiset{pollId}
      ensures success && !session.AllStudentsAnswered() ==>
        && activePolls[pollId].isActive
        && activePolls[pollId].endTime == old(activePolls[pollId].endTime)
        && timers == old(timers) && archived == old(archived)
        && session.pollHistory == old(session.pollHistory)
    {
      var poll := activePolls[pollId];
      success := RecordAnswer(poll, session, caller, optionIndex);
      if success && session.AllStudentsAnswered() {
        ClosePoll(pollId, session, now);
      }
    }

    /**
     * Hands the answer to the poll and, when the poll accepts it, marks the
     * student as having answered.
     */
    method RecordAnswer(poll: Poll, session: PollSession, caller: ConnId, optionIndex: int) returns (success: bool)
      requires Valid()
      requires poll.id in activePolls && activePolls[poll.id] == poll
      requires session.id in sessions && sessions[session.id] == session
      requires caller in session.students
      modifies poll`answers, poll`options, session`students
      ensures Valid()
      ensures success <==> old(poll.isActive) && caller !in old(poll.answers) && 0 <= optionIndex < |old(poll.options)|
      ensures success ==>
        && poll.answers == old(poll.answers)[caller := optionIndex]
        && poll.options == Bump(old(poll.options), optionIndex)
        && session.students == old(session.students)[caller := old(session.students[caller]).(hasAnswered := true)]
      ensures !success ==> unchanged(poll) && unchanged(session)
    {
      success := poll.AddAnswer(caller, optionIndex);
      if success {
        session.students := session.students[caller := session.students[caller].(hasAnswered := true)];
      }
    }

    /** teacher:remove-student: the session's teacher drops one student; anyone else is refused. */
    method RemoveStudent(caller: ConnId, sessionId: Uuid, studentId: ConnId) returns (reply: Reply)
      requires Valid()
      modifies if sessionId in sessions then {sessions[sessionId]} else {}
      ensures Valid()
      ensures reply == if old(IsTeacherOf(sessionId, caller)) then Done else Failed("Unauthorized")
      ensures !old(IsTeacherOf(sessionId, caller)) && sessionId in sessions ==> unchanged(sessions[sessionId])
      ensures old(IsTeacherOf(sessionId, caller)) ==>
        && sessions[sessionId].students == old(sessions[sessionId].students) - {studentId}
        && sessions[sessionId].currentPoll == old(sessions[sessionId].currentPoll)
        && sessions[sessionId].pollHistory == old(sessions[sessionId].pollHistory)
    {
      if sessionId !in sessions || sessions[sessionId].teacherId != caller {
        return Failed("Unauthorized");
      }
      sessions[sessionId].RemoveStudent(studentId);
      reply := Done;
    }

    /**
     * get-session-info: a snapshot of the session, with the current poll's results
     * and the archived results.
     */
    method GetSessionInfo(sessionId: Uuid, now: int) returns (reply: Reply)
      requires Valid()
      ensures sessionId !in sessions ==> reply == Failed("Session not found")
      ensures sessionId in sessions ==>
        && reply.SessionInfo? && reply.id == sessionId
        && reply.students == sessions[sessionId].students
        && reply.pollHistory == sessions[sessionId].pollHistory
        && (reply.currentPoll.None? <==> sessions[sessionId].currentPoll == null)
      ensures sessionId in sessions && sessions[sessionId].currentPoll != null ==>
        reply.currentPoll == Some(sessions[sessionId].currentPoll.GetResults(now))
    {
      if sessionId !in sessions {
        return Failed("Session not found");
      }
      var session := sessions[sessionId];
      var current := if session.currentPoll != null then Some(session.currentPoll.GetResults(now)) else None;
      reply := SessionInfo(session.id, session.students, current, session.pollHistory);
    }

    /**
     * A socket disconnects: every session it is the teacher of is deleted, and it is
     * removed from the students of every other session. Polls and timers stay.
     */
    method Disconnect(conn: ConnId)
      requires Valid()
      modifies this`sessions, sessions.Values`students
      ensures Valid()
      ensures sessions == map sid | sid in old(sessions) && old(sessions)[sid].teacherId != conn :: old(sessions)[sid]
      ensures forall sid :: sid in sessions ==> sessions[sid].students == old(sessions[sid].students) - {conn}
    {
      ghost var before := sessions;
      var pending := sessions.Keys;
      ghost var gone: set<Uuid> := {};
      while pending != {}
        invariant pending <= before.Keys
        invariant forall sid :: sid in gone <==> sid in before && sid !in pending && before[sid].teacherId == conn
        invariant sessions == before - gone
        invariant forall sid :: sid in pending ==> before[sid].students == old(before[sid].students)
        invariant forall sid :: sid in sessions && sid !in pending ==> sessions[sid].students == old(sessions[sid].students) - {conn}
        invariant Valid()
        decreases pending
      {
        var sid :| sid in pending;
        if sessions[sid].teacherId == conn {
          gone := gone + {sid};
        }
        Depart(sid, conn);
        pending := pending - {sid};
      }
    }

    /**
     * One step of the disconnect loop: the session is deleted when `conn` is its
     * teacher; otherwise `conn` is dropped from its students, if it is one.
     */
    method Depart(sid: Uuid, conn: ConnId)
      requires Valid()
      requires sid in sessions
      modifies this`sessions, {sessions[sid]}`students
      ensures Valid()
      ensures old(sessions[sid].teacherId) == conn ==> sessions == old(sessions) - {sid}
      ensures old(sessions[sid].teacherId) != conn ==>
        sessions == old(sessions) && sessions[sid].students == old(sessions[sid].students) - {conn}
    {
      var session := sessions[sid];
      if session.teacherId == conn {
        sessions := sessions - {sid};
      } else if conn in session.students {
        session.RemoveStudent(conn);
      }
    }
  }
}
