/** The mock profile database of `frontend/lib/data-service.ts`: an array that only grows, whose
    last element is "the current student". The random draws and the clock of the source are
    parameters: `draw` is `Math.floor(Math.random() * 900000)`, `password` the random eight-letter
    string and `joinDate` the formatted current date. */
module ProfileStore {
  import opened Seqs
  import opened Text

  datatype StudentProfile = StudentProfile(
    id: string,
    password: string,
    name: string,
    email: string,
    program: string,
    joinDate: string,
    enrollmentStatus: string,
    major: string,
    advisor: string)

  /** What the admin form submits. */
  datatype ProfileInput = ProfileInput(name: string, email: string, program: string)

  /** The placeholder profile shown while the database is empty. */
  function GuestProfile(): StudentProfile
  {
    StudentProfile(
      "N/A", "N/A", "Guest Student (Please Add Profile via Admin Portal)", "guest@portal.edu",
      "Undefined", "2025-01-01", "Inactive", "General Studies", "N/A")
  }

  /** The generated student id: "S" and a six-digit number from 100000 to 999999. */
  function StudentIdFor(draw: nat): (id: string)
    requires draw < 900000
    ensures |id| == 7 && id[0] == 'S'
    ensures ParseInt(id[1..]).Some? && 100000 <= ParseInt(id[1..]).value <= 999999
    ensures ParseInt(id[1..]) == Some(draw + 100000)
  {
    var id := "S" + NatToDecimal(draw + 100000);
    assert id[1..] == NatToDecimal(draw + 100000);
    ParseIntOfDecimal(draw + 100000);
    assert Pow10(2) == 100 && Pow10(4) == 10000;
    assert Pow10(5) == 100000 && Pow10(6) == 1000000;
    DecimalLength(draw + 100000, 6);
    id
  }

  /** Distinct draws give distinct student ids. */
  lemma StudentIdInjective(d1: nat, d2: nat)
    requires d1 < 900000 && d2 < 900000
    requires StudentIdFor(d1) == StudentIdFor(d2)
    ensures d1 == d2
  {
    assert StudentIdFor(d1)[1..] == StudentIdFor(d2)[1..];
  }

  /** The profile `createStudentProfile` builds from the form data. */
  function NewProfile(data: ProfileInput, draw: nat, password: string, joinDate: string): StudentProfile
    requires draw < 900000
  {
    StudentProfile(
      StudentIdFor(draw), password, data.name, data.email, data.program, joinDate,
      "Active", data.program, "Dr. Placeholder")
  }

  /** A new profile is active, keeps the submitted name, e-mail and program, majors in its program
      and is told apart from the guest placeholder by its id and status. */
  lemma NewProfileShape(data: ProfileInput, draw: nat, password: string, joinDate: string)
    requires draw < 900000
    ensures var p := NewProfile(data, draw, password, joinDate);
      && p.name == data.name && p.email == data.email && p.program == data.program
      && p.major == data.program && p.enrollmentStatus == "Active"
      && p.advisor == "Dr. Placeholder" && p.password == password
      && p != GuestProfile() && p.id != GuestProfile().id
  {
    var p := NewProfile(data, draw, password, joinDate);
    assert p.id[0] == 'S' && GuestProfile().id[0] == 'N';
  }

  /** The module-level `studentDatabase` array. */
  class Database {
    var profiles: seq<StudentProfile>

    constructor ()
      ensures profiles == []
    {
      profiles := [];
    }

    /** `getStudentProfile`: the most recently created profile, or the guest placeholder. */
    function GetStudentProfile(): (p: StudentProfile)
      reads this
      ensures |profiles| == 0 ==> p == GuestProfile() && p.id == "N/A" && p.enrollmentStatus == "Inactive"
      ensures |profiles| > 0 ==> p == profiles[|profiles| - 1]
    {
      if |profiles| == 0 then GuestProfile() else profiles[|profiles| - 1]
    }

    /** `createStudentProfile`: build a profile and append it. */
    method CreateStudentProfile(data: ProfileInput, draw: nat, password: string, joinDate: string)
      returns (p: StudentProfile)
      requires draw < 900000
      modifies this
      ensures p == NewProfile(data, draw, password, joinDate)
      ensures profiles == old(profiles) + [p]
      ensures GetStudentProfile() == p
    {
      p := NewProfile(data, draw, password, joinDate);
      profiles := profiles + [p];
    }
  }
}
