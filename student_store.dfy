/** The mock student table of `lib/data.ts`: a module-level array of student records that is
    searched by id, overwritten in place by `updateStudent` and appended to by `addStudent`,
    which numbers new students one past the id of the last record. */
module StudentStore {
  import opened Seqs
  import opened Text

  datatype Status = Registered | Pending | OnHold

  datatype Student = Student(
    id: string,
    name: string,
    department: string,
    status: Status,
    credits: int,
    password: string)

  /** A record as `addStudent` receives it: every field but the id (`Omit<Student, 'id'>`). */
  datatype NewStudent = NewStudent(
    name: string,
    department: string,
    status: Status,
    credits: int,
    password: string)

  datatype AdminCredentials = AdminCredentials(username: string, password: string)

  function WithId(s: NewStudent, id: string): Student
  {
    Student(id, s.name, s.department, s.status, s.credits, s.password)
  }

  function HasId(id: string): Student -> bool
  {
    (s: Student) => s.id == id
  }

  /** The seven records the array starts with. */
  function Seed(): seq<Student>
  {
    [ Student("1001", "Abebe Kebede", "Computer Science", Registered, 18, "pass1001"),
      Student("1002", "Tigist Alemayehu", "Mechanical Engineering", Pending, 15, "pass1002"),
      Student("1003", "Samuel Desta", "Civil Engineering", OnHold, 0, "pass1003"),
      Student("1004", "Chaltu Merga", "Electrical Engineering", Registered, 17, "pass1004"),
      Student("1005", "Getu Fikadu", "Business Management", Pending, 12, "pass1005"),
      Student("1006", "hawi", "Undeclared", Pending, 0, "pass1006"),
      Student("1007", "sami", "Undeclared", Pending, 0, "pass1007") ]
  }

  /** The fixed administrator login of `getAdminCredentials`. Both fields are filled in, and the
      user name is no seed student's id. The login page does not read this module; were its two
      lists paired with the seed (a pairing the program does not make), the admin check, which
      runs first, would not shadow a seed student's login. */
  function GetAdminCredentials(): (c: AdminCredentials)
    ensures c.username != "" && c.password != ""
    ensures forall i :: 0 <= i < |Seed()| ==> Seed()[i].id != c.username
  {
    var c := AdminCredentials("admin", "admin123");
    assert forall i :: 0 <= i < |Seed()| ==> Seed()[i].id[0] == '1';
    c
  }

  /** The id `addStudent` gives the next record: `parseInt(lastId) + 1` printed in decimal, where
      `lastId` is the id of the last record, or "1000" for an empty array. An id that does not
      parse yields `NaN + 1`, which prints as "NaN". */
  function NextId(students: seq<Student>): (id: string)
    ensures var lastId := if |students| > 0 then Last(students).id else "1000";
      ParseInt(id) == if ParseInt(lastId).Some? then Some(ParseInt(lastId).value + 1) else None
    ensures var lastId := if |students| > 0 then Last(students).id else "1000";
      && (ParseInt(lastId).Some? ==> |id| > 0 && id[0] != '0')
      && (ParseInt(lastId).None? ==> id == "NaN")
  {
    var lastId := if |students| > 0 then Last(students).id else "1000";
    match ParseInt(lastId)
    case Some(n) => ParseIntOfDecimal(n + 1); NatToDecimal(n + 1)
    case None => assert !IsDigit("NaN"[0]); "NaN"
  }

  /** The numeric value of a record's id, for ids that parse. */
  function IdValue(s: Student): nat
    requires ParseInt(s.id).Some?
  {
    ParseInt(s.id).value
  }

  /** Every id is a decimal number and the numbers strictly increase along the array, as in the
      seed 1001..1007. */
  ghost predicate WellNumbered(students: seq<Student>)
  {
    && (forall i :: 0 <= i < |students| ==> ParseInt(students[i].id).Some?)
    && (forall i, j :: 0 <= i < j < |students| ==> IdValue(students[i]) < IdValue(students[j]))
  }

  /** In a well-numbered array no two records share an id. */
  lemma WellNumberedIdsUnique(students: seq<Student>, i: int, j: int)
    requires WellNumbered(students)
    requires 0 <= i < |students| && 0 <= j < |students| && i != j
    ensures students[i].id != students[j].id
  {
    if i < j {
      assert IdValue(students[i]) < IdValue(students[j]);
    } else {
      assert IdValue(students[j]) < IdValue(students[i]);
    }
  }

  lemma SeedDigits()
    ensures ParseInt("1000") == Some(1000)
    ensures NatToDecimal(1008) == "1008"
  {
    assert NatToDecimal(1) == "1";
    assert NatToDecimal(10) == "10";
    assert NatToDecimal(100) == "100";
    ParseIntOfDecimal(1000);
    assert NatToDecimal(1000) == "1000";
    assert NatToDecimal(100) == "100";
    assert NatToDecimal(1008) == "1008";
  }

  lemma SeedIdValue(n: nat)
    requires 1001 <= n <= 1007
    ensures NatToDecimal(n) == ['1', '0', '0', DigitChar(n - 1000)]
  {
    assert NatToDecimal(1) == "1";
    assert NatToDecimal(10) == "10";
    assert NatToDecimal(100) == "100";
  }

  /** The seed's ids are 1001..1007 in order. */
  lemma SeedIdsParse()
    ensures forall i :: 0 <= i < |Seed()| ==> ParseInt(Seed()[i].id) == Some(1001 + i)
  {
    var s := Seed();
    forall i | 0 <= i < |s|
      ensures ParseInt(s[i].id) == Some(1001 + i)
    {
      SeedIdValue(1001 + i);
      ParseIntOfDecimal(1001 + i);
    }
  }

  /** The seed is well numbered, and the first `addStudent` on it hands out "1008". */
  lemma SeedIsWellNumbered()
    ensures WellNumbered(Seed()) && NextId(Seed()) == "1008"
  {
    SeedIdsParse();
    SeedDigits();
    assert ParseInt(Last(Seed()).id) == Some(1007);
  }

  /** An empty store numbers its first record "1001". */
  lemma NextIdOfEmpty()
    ensures NextId([]) == "1001"
  {
    SeedDigits();
    SeedIdValue(1001);
  }

  /** In a well-numbered array the id handed out next parses to a number above every id so
      far. */
  lemma NextIdExceedsAll(students: seq<Student>)
    requires WellNumbered(students)
    ensures ParseInt(NextId(students)).Some?
    ensures forall i :: 0 <= i < |students| ==> IdValue(students[i]) < ParseInt(NextId(students)).value
  {
    var n := if |students| > 0 then IdValue(Last(students)) else 1000;
    if |students| == 0 {
      SeedDigits();
    }
    assert NextId(students) == NatToDecimal(n + 1);
    ParseIntOfDecimal(n + 1);
    forall i | 0 <= i < |students|
      ensures IdValue(students[i]) <= n
    {
      if i < |students| - 1 {
        assert IdValue(students[i]) < IdValue(students[|students| - 1]);
      }
    }
  }

  /** Appending with `NextId` keeps the array well numbered. */
  lemma AddKeepsWellNumbered(students: seq<Student>, s: NewStudent)
    requires WellNumbered(students)
    ensures WellNumbered(students + [WithId(s, NextId(students))])
  {
    var t := students + [WithId(s, NextId(students))];
    NextIdExceedsAll(students);
    assert forall i :: 0 <= i < |students| ==> t[i] == students[i];
  }

  /** Overwriting a record with one that keeps its id keeps the array well numbered. */
  lemma ReplaceKeepsWellNumbered(students: seq<Student>, k: int, s: Student)
    requires WellNumbered(students)
    requires 0 <= k < |students| && students[k].id == s.id
    ensures WellNumbered(students[k := s])
  {
    var t := students[k := s];
    assert forall i :: 0 <= i < |t| ==> t[i].id == students[i].id;
  }

  /** In a well-numbered array the id handed out next belongs to no record yet. */
  lemma NextIdIsFresh(students: seq<Student>)
    requires WellNumbered(students)
    ensures forall i :: 0 <= i < |students| ==> students[i].id != NextId(students)
  {
    NextIdExceedsAll(students);
  }

  /** The module-level `students` array and the functions that read and change it. */
  class Store {
    var students: seq<Student>

    constructor ()
      ensures students == Seed()
    {
      students := Seed();
    }

    /** `getStudentById`: the first record with the id, or nothing. */
    function GetStudentById(id: string): (r: Option<Student>)
      reads this
      ensures r.None? <==> forall j :: 0 <= j < |students| ==> students[j].id != id
      ensures r.Some? ==> exists i :: 0 <= i < |students| && students[i] == r.value && r.value.id == id
                                     && forall j :: 0 <= j < i ==> students[j].id != id
    {
      Find(students, HasId(id))
    }

    /** `updateStudent`: overwrite the first record with the same id, and report whether there
        was one. */
    method UpdateStudent(updated: Student) returns (ok: bool)
      modifies this
      ensures ok <==> exists i :: 0 <= i < |old(students)| && old(students)[i].id == updated.id
      ensures !ok ==> students == old(students)
      ensures ok ==> exists k :: 0 <= k < |old(students)| && old(students)[k].id == updated.id
                              && (forall j :: 0 <= j < k ==> old(students)[j].id != updated.id)
                              && students == old(students)[k := updated]
      ensures ok ==> GetStudentById(updated.id) == Some(updated)
      ensures WellNumbered(old(students)) ==> WellNumbered(students)
    {
      match FirstIndex(students, HasId(updated.id))
      case None =>
        ok := false;
      case Some(k) =>
        if WellNumbered(students) {
          ReplaceKeepsWellNumbered(students, k, updated);
        }
        students := students[k := updated];
        ok := true;
        assert students[k] == updated;
    }

    /** `addStudent`: append the record under the next id and return it. */
    method AddStudent(newStudent: NewStudent) returns (r: Student)
      modifies this
      ensures students == old(students) + [r]
      ensures r.id == NextId(old(students))
      ensures r.name == newStudent.name && r.department == newStudent.department
      ensures r.status == newStudent.status && r.credits == newStudent.credits
      ensures r.password == newStudent.password
      ensures WellNumbered(old(students)) ==> WellNumbered(students)
      ensures WellNumbered(old(students)) ==> GetStudentById(r.id) == Some(r)
    {
      r := WithId(newStudent, NextId(students));
      if WellNumbered(students) {
        AddKeepsWellNumbered(students, newStudent);
        NextIdIsFresh(students);
      }
      students := students + [r];
      assert students[|students| - 1] == r;
    }
  }
}
