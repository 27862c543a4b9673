/**
 * The client's session store (src/store/sessionSlice.ts): which session this
 * browser belongs to and as whom, the list of students shown to the teacher,
 * and the connection flags. Each reducer assigns fields of the store's state,
 * so the state is a class and each reducer a method.
 */
module SessionSlice {
  import opened Common

  /** A student as the client lists it; `joinedAt` is the server's timestamp, kept as text. */
  datatype Student = Student(id: ConnId, name: string, hasAnswered: bool, joinedAt: string)

  /** `'teacher' | 'student'`. */
  datatype UserType = TeacherUser | StudentUser

  /** No two entries of a student list carry the same id. */
  predicate UniqueIds(students: seq<Student>)
  {
    forall i, j :: 0 <= i < j < |students| ==> students[i].id != students[j].id
  }

  /** Some entry of the list carries id `id`. */
  predicate Listed(students: seq<Student>, id: ConnId)
  {
    exists i :: 0 <= i < |students| && students[i].id == id
  }

  /** `value || null` for an optional string: a missing or empty string becomes null. */
  function OrNull(value: Option<string>): (r: Option<string>)
    ensures r.Some? <==> value.Some? && value.value != ""
    ensures r.Some? ==> r == value
  {
    if value.Some? && value.value != "" then value else None
  }

  /**
   * The list after `s` is upserted: the first entry with `s.id` is replaced by `s`
   * in place, and `s` is appended when there is none.
   */
  function Upsert(students: seq<Student>, s: Student): (r: seq<Student>)
    ensures Listed(students, s.id) ==>
      exists k :: 0 <= k < |students| && students[k].id == s.id && r == students[k := s]
        && forall j :: 0 <= j < k ==> students[j].id != s.id
    ensures !Listed(students, s.id) ==> r == students + [s]
    ensures |r| == if Listed(students, s.id) then |students| else |students| + 1
    ensures exists k :: 0 <= k < |r| && r[k] == s
    ensures UniqueIds(students) ==> UniqueIds(r)
  {
    match FindIndex(students, (t: Student) => t.id, s.id)
    case Some(k) =>
      assert students[k := s][k] == s;
      students[k := s]
    case None =>
      assert (students + [s])[|students|] == s;
      students + [s]
  }

  /** `students.filter(s => s.id !== id)`: no entry with that id is left. */
  function Without(students: seq<Student>, id: ConnId): (r: seq<Student>)
    ensures !Listed(r, id)
    ensures |r| <= |students|
  {
    if students == [] then []
    else
      var rest := Without(students[1..], id);
      if students[0].id == id then rest else [students[0]] + rest
  }

  /** Filtering drops exactly the entries with the id: every other entry stays, as often as it was there. */
  lemma {:induction false} WithoutCounts(students: seq<Student>, id: ConnId)
    ensures forall x :: multiset(Without(students, id))[x] == if x.id == id then 0 else multiset(students)[x]
  {
    if students != [] {
      assert students == [students[0]] + students[1..];
      WithoutCounts(students[1..], id);
    }
  }

  /** Filtering a concatenation filters each part: the kept entries keep their order. */
  lemma {:induction false} WithoutAppend(a: seq<Student>, b: seq<Student>, id: ConnId)
    ensures Without(a + b, id) == Without(a, id) + Without(b, id)
  {
    if a == [] {
      assert a + b == b;
    } else {
      assert (a + b)[0] == a[0] && (a + b)[1..] == a[1..] + b;
      WithoutAppend(a[1..], b, id);
    }
  }

  /** A list without the id is left as it is. */
  lemma {:induction false} WithoutAbsent(students: seq<Student>, id: ConnId)
    requires !Listed(students, id)
    ensures Without(students, id) == students
  {
    if students != [] {
      assert !Listed(students[1..], id) by {
        forall i | 0 <= i < |students[1..]|
          ensures students[1..][i].id != id
        {
          assert students[1..][i] == students[i + 1];
        }
      }
      WithoutAbsent(students[1..], id);
    }
  }

  /** Removing the same student twice is removing it once. */
  lemma {:induction false} WithoutIdempotent(students: seq<Student>, id: ConnId)
    ensures Without(Without(students, id), id) == Without(students, id)
  {
    WithoutAbsent(Without(students, id), id);
  }

  /** Every entry left after filtering was an entry before. */
  lemma {:induction false} WithoutFrom(students: seq<Student>, id: ConnId, x: Student)
    requires x in Without(students, id)
    ensures x in students
  {
    if students != [] && x != students[0] {
      assert x in Without(students[1..], id);
      WithoutFrom(students[1..], id, x);
    }
  }

  /** Removing a student from a list without repeated ids leaves none. */
  lemma {:induction false} WithoutKeepsUnique(students: seq<Student>, id: ConnId)
    requires UniqueIds(students)
    ensures UniqueIds(Without(students, id))
  {
    if students != [] {
      var tail := students[1..];
      var rest := Without(tail, id);
      assert UniqueIds(tail) by {
        forall i, j | 0 <= i < j < |tail|
          ensures tail[i].id != tail[j].id
        {
          assert tail[i] == students[i + 1] && tail[j] == students[j + 1];
        }
      }
      WithoutKeepsUnique(tail, id);
      if students[0].id != id {
        var r := [students[0]] + rest;
        forall i, j | 0 <= i < j < |r|
          ensures r[i].id != r[j].id
        {
          assert r[j] == rest[j - 1];
          WithoutFrom(tail, id, rest[j - 1]);
          var k :| 0 <= k < |tail| && tail[k] == rest[j - 1];
          if i == 0 {
            assert tail[k] == students[k + 1];
          } else {
            assert r[i] == rest[i - 1];
          }
        }
        assert Without(students, id) == r;
      }
    }
  }

  /** The store's state: `SessionState`. */
  class SessionState {
    var sessionId: Option<string>
    var studentId: Option<ConnId>
    var studentName: Option<string>
    var userType: Option<UserType>
    var students: seq<Student>
    var isConnected: bool
    var connectionError: Option<string>

    /** The values of `initialState`: no session, nobody, no students, disconnected, no error. */
    ghost predicate Initial()
      reads this
    {
      && sessionId == None && studentId == None && studentName == None && userType == None
      && students == [] && !isConnected && connectionError == None
    }

    constructor ()
      ensures Initial()
    {
      sessionId := None;
      studentId := None;
      studentName := None;
      userType := None;
      students := [];
      isConnected := false;
      connectionError := None;
    }

    /** `setSession`: a teacher passes no student fields; a missing or empty one is stored as null. */
    method SetSession(session: string, student: Option<ConnId>, name: Option<string>, role: UserType)
      modifies this`sessionId, this`studentId, this`studentName, this`userType
      ensures sessionId == Some(session) && userType == Some(role)
      ensures studentId == OrNull(student) && studentName == OrNull(name)
    {
      sessionId := Some(session);
      studentId := OrNull(student);
      studentName := OrNull(name);
      userType := Some(role);
    }

    /** `setStudents`: the list is replaced as given. */
    method SetStudents(list: seq<Student>)
      modifies this`students
      ensures students == list
    {
      students := list;
    }

    /** `addStudent`: an entry with the same id is replaced where it stands, otherwise `s` is appended. */
    method AddStudent(s: Student)
      modifies this`students
      ensures students == Upsert(old(students), s)
      ensures UniqueIds(old(students)) ==> UniqueIds(students)
    {
      var existing := FindIndex(students, (t: Student) => t.id, s.id);
      if existing.Some? {
        students := students[existing.value := s];
      } else {
        students := students + [s];
      }
    }

    /** `removeStudent`: every entry with the id is dropped and the rest keep their order. */
    method RemoveStudent(id: ConnId)
      modifies this`students
      ensures students == Without(old(students), id)
      ensures UniqueIds(old(students)) ==> UniqueIds(students)
    {
      if UniqueIds(students) {
        WithoutKeepsUnique(students, id);
      }
      students := Without(students, id);
    }

    /** `setConnectionStatus`: connecting clears the error; disconnecting keeps it. */
    method SetConnectionStatus(connected: bool)
      modifies this`isConnected, this`connectionError
      ensures isConnected == connected
      ensures connectionError == if connected then None else old(connectionError)
    {
      isConnected := connected;
      if connected {
        connectionError := None;
      }
    }

    /** `setConnectionError`: the error is recorded and the store counts as disconnected. */
    method SetConnectionError(error: string)
      modifies this`isConnected, this`connectionError
      ensures connectionError == Some(error) && !isConnected
    {
      connectionError := Some(error);
      isConnected := false;
    }

    /** `clearSession`: every field is back at its initial value. */
    method ClearSession()
      modifies this
      ensures Initial()
    {
      sessionId := None;
      studentId := None;
      studentName := None;
      userType := None;
      students := [];
      isConnected := false;
      connectionError := None;
    }
  }
}
