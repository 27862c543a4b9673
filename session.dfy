/**
 * The server's `PollSession` class (backend/server.js): a teacher's session
 * with its students, its current poll and the results of its closed polls.
 */
module Sessions {
  import opened Common
  import opened Tally
  import Polls

  /**
   * A student entry of a session's `students` map. The entry's `id` is the
   * connection id it is filed under, so it is the map key and not stored twice.
   */
  datatype Student = Student(name: string, hasAnswered: bool, joinedAt: int)

  class PollSession {
    const id: Uuid
    const teacherId: ConnId
    const createdAt: int
    var students: map<ConnId, Student>
    var currentPoll: Polls.Poll?
    var pollHistory: seq<PollResults>

    constructor (id: Uuid, teacherId: ConnId, now: int)
      ensures this.id == id && this.teacherId == teacherId && createdAt == now
      ensures students == map[] && currentPoll == null && pollHistory == []
    {
      this.id := id;
      this.teacherId := teacherId;
      createdAt := now;
      students := map[];
      currentPoll := null;
      pollHistory := [];
    }

    /**
     * Files a fresh entry for `studentId`. An entry already there is overwritten,
     * so a student who joins again has `hasAnswered` reset.
     */
    method AddStudent(studentId: ConnId, studentName: string, now: int)
      modifies this`students
      ensures students == old(students)[studentId := Student(studentName, false, now)]
      ensures !AllStudentsAnswered()
    {
      students := students[studentId := Student(studentName, false, now)];
      assert !students[studentId].hasAnswered;
    }

    /** Drops `studentId`'s entry; nothing happens when there is none. */
    method RemoveStudent(studentId: ConnId)
      modifies this`students
      ensures students == old(students) - {studentId}
      ensures old(AllStudentsAnswered()) ==> AllStudentsAnswered()
    {
      students := students - {studentId};
    }

    /**
     * Clears every student's `hasAnswered` flag and keeps everything else of every
     * entry. Afterwards not all students have answered, unless there are none.
     */
    method ResetAnswers()
      modifies this`students
      ensures students.Keys == old(students).Keys
      ensures forall k :: k in students ==> students[k] == old(students)[k].(hasAnswered := false)
      ensures AllStudentsAnswered() <==> students == map[]
    {
      var pending := students.Keys;
      while pending != {}
        invariant pending <= students.Keys == old(students).Keys
        invariant forall k :: k in students ==>
          students[k] == if k in pending then old(students)[k] else old(students)[k].(hasAnswered := false)
        decreases pending
      {
        var k :| k in pending;
        students := students[k := students[k].(hasAnswered := false)];
        pending := pending - {k};
      }
      if students != map[] {
        var k :| k in students;
        assert !students[k].hasAnswered;
      }
    }

    /** Whether every student has answered; true when there are no students at all. */
    predicate AllStudentsAnswered()
      reads this`students
      ensures students == map[] ==> AllStudentsAnswered()
      ensures !AllStudentsAnswered() <==> exists k :: k in students && !students[k].hasAnswered
    {
      forall k :: k in students ==> students[k].hasAnswered
    }
  }
}
