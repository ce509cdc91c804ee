/** The admin registration-office page: a list of student records edited through a modal.
    Saving a record whose id carries the "NEW-" marker appends it under a fresh numeric id;
    saving any other record replaces the entries with its id; deleting removes them; a search
    term narrows the table. Deletion is modelled as already confirmed by the user. */
module RegistrationOffice {
  import opened Seqs
  import opened Text

  datatype Status = Registered | Pending | OnHold

  datatype Student = Student(id: string, name: string, department: string, status: Status, credits: int)

  /** The records the page starts with. */
  function InitialStudents(): seq<Student>
  {
    [ Student("1001", "Abebe Kebede", "Computer Science", Registered, 18),
      Student("1002", "Tigist Alemayehu", "Mechanical Engineering", Pending, 15),
      Student("1003", "Samuel Desta", "Civil Engineering", OnHold, 0),
      Student("1004", "Chaltu Merga", "Electrical Engineering", Registered, 17),
      Student("1005", "Getu Fikadu", "Business Management", Pending, 12) ]
  }

  const NewIdPrefix: string := "NEW-"

  /** A record the modal opened through "Add New Student". */
  predicate IsNewRecord(s: Student)
  {
    StartsWith(s.id, NewIdPrefix)
  }

  /** The blank record `handleAddNew` opens; `now` stands for `Date.now()`. */
  function NewTemplate(now: nat): (t: Student)
    ensures IsNewRecord(t)
    ensures t.name == "" && t.department == "" && t.status == Pending && t.credits == 0
  {
    Student(NewIdPrefix + NatToDecimal(now), "", "", Pending, 0)
  }

  /** The check of `handleFormSubmit`: name and department must be non-empty. */
  predicate FormComplete(form: Student)
  {
    form.name != "" && form.department != ""
  }

  /** A blank template cannot be saved until its name and department are filled in. */
  lemma TemplateNeedsFields(now: nat)
    ensures !FormComplete(NewTemplate(now))
  {
  }

  /** `Math.max(...ids.filter(id => !isNaN(id)), 1000)` over the parsed ids. */
  function MaxParsedId(students: seq<Student>): (m: nat)
    ensures m >= 1000
    ensures forall i :: 0 <= i < |students| && ParseInt(students[i].id).Some? ==> ParseInt(students[i].id).value <= m
    ensures m == 1000 || exists i :: 0 <= i < |students| && ParseInt(students[i].id) == Some(m)
    decreases |students|
  {
    if students == [] then 1000
    else
      var m := MaxParsedId(Init(students));
      InitLast(students);
      match ParseInt(Last(students).id)
      case Some(v) => if v > m then v else m
      case None => m
  }

  /** The id a new record receives: it parses to one more than the largest parsed id (so to at
      least 1001) and has no leading zero, which together fix its spelling, and no record has it
      yet. */
  function AssignedId(students: seq<Student>): (id: string)
    ensures ParseInt(id) == Some(MaxParsedId(students) + 1)
    ensures |id| > 0 && id[0] != '0'
    ensures forall i :: 0 <= i < |students| ==> students[i].id != id
  {
    ParseIntOfDecimal(MaxParsedId(students) + 1);
    NatToDecimal(MaxParsedId(students) + 1)
  }

  function HasId(id: string): Student -> bool
  {
    (s: Student) => s.id == id
  }

  function LacksId(id: string): Student -> bool
  {
    (s: Student) => s.id != id
  }

  /** `students.map(s => s.id === data.id ? data : s)`. */
  function ReplaceById(students: seq<Student>, data: Student): (r: seq<Student>)
    ensures |r| == |students|
    ensures forall i :: 0 <= i < |r| ==> r[i] == if students[i].id == data.id then data else students[i]
  {
    seq(|students|, i requires 0 <= i < |students| => if students[i].id == data.id then data else students[i])
  }

  /** The ids present in a list. */
  function IdsOf(students: seq<Student>): set<string>
  {
    set i | 0 <= i < |students| :: students[i].id
  }

  /** The list `handleSave` leaves behind: one entry longer for a new record, as long for any
      other; every entry whose id differs from the saved record's keeps its place and value; a
      new record's entry carries an id no old entry has. */
  function Saved(students: seq<Student>, data: Student): (r: seq<Student>)
    ensures |r| == |students| + (if IsNewRecord(data) then 1 else 0)
    ensures forall i :: 0 <= i < |students| && students[i].id != data.id ==> r[i] == students[i]
    ensures IsNewRecord(data) ==> r[|students|].id !in IdsOf(students)
  {
    if IsNewRecord(data) then students + [data.(id := AssignedId(students))]
    else ReplaceById(students, data)
  }

  /** The list `handleDelete` leaves behind: the entries with another id, and no entry with
      this one. */
  function Deleted(students: seq<Student>, id: string): (r: seq<Student>)
    ensures forall s :: s in r <==> s in students && s.id != id
    ensures forall i :: 0 <= i < |r| ==> r[i].id != id
    ensures |r| <= |students|
  {
    var r := Filter(students, LacksId(id));
    assert forall i :: 0 <= i < |r| ==> r[i] in r;
    r
  }

  /** Saving a new record appends exactly one entry, under a fresh id above every parsed id,
      with every other field as entered; a lookup of that id then finds it. */
  lemma SaveNewAppends(students: seq<Student>, data: Student)
    requires IsNewRecord(data)
    ensures var r := Saved(students, data);
      && |r| == |students| + 1 && r[..|students|] == students
      && r[|students|] == data.(id := AssignedId(students))
      && Find(r, HasId(AssignedId(students))) == Some(r[|students|])
  {
    var r := Saved(students, data);
    assert r[..|students|] == students;
    assert forall j :: 0 <= j < |students| ==> !HasId(AssignedId(students))(r[j]);
    assert HasId(AssignedId(students))(r[|students|]);
  }

  /** Saving an existing record keeps the length and every entry with another id, and puts the
      saved record in place of every entry with its id. */
  lemma SaveExistingReplaces(students: seq<Student>, data: Student)
    requires !IsNewRecord(data)
    ensures var r := Saved(students, data);
      && |r| == |students|
      && (forall i :: 0 <= i < |r| && students[i].id != data.id ==> r[i] == students[i])
      && (forall i :: 0 <= i < |r| && students[i].id == data.id ==> r[i] == data)
  {
  }

  /** After saving an existing record, a lookup of its id returns it if some entry had that id,
      and nothing otherwise: saving never inserts a record that is not new. */
  lemma SaveExistingFinds(students: seq<Student>, data: Student)
    requires !IsNewRecord(data)
    ensures Find(Saved(students, data), HasId(data.id))
            == if data.id in IdsOf(students) then Some(data) else None
  {
    var r := Saved(students, data);
    assert r == ReplaceById(students, data);
    if data.id in IdsOf(students) {
      var k :| 0 <= k < |students| && students[k].id == data.id;
      assert HasId(data.id)(r[k]);
      var f := Find(r, HasId(data.id));
      var i :| 0 <= i < |r| && r[i] == f.value;
      assert r[i].id == data.id;
    } else {
      assert forall j :: 0 <= j < |r| ==> r[j] == students[j] && students[j].id in IdsOf(students);
    }
  }

  /** Deleting removes exactly the entries with the id and keeps the rest in order; a lookup of
      the id then finds nothing. */
  lemma DeleteRemoves(students: seq<Student>, id: string)
    ensures var r := Deleted(students, id);
      && (forall s :: s in r <==> s in students && s.id != id)
      && (forall s :: multiset(r)[s] == if s.id != id then multiset(students)[s] else 0)
      && Sublist(r, students)
      && Find(r, HasId(id)) == None
  {
    var r := Deleted(students, id);
    FilterCounts(students, LacksId(id));
    FilterIsSublist(students, LacksId(id));
    assert forall j :: 0 <= j < |r| ==> r[j] in r;
  }

  /** The table's search: case-insensitive on name and department, case-sensitive on the id. */
  predicate MatchesSearch(s: Student, term: string)
  {
    || Contains(Lower(s.name), Lower(term))
    || Contains(s.id, term)
    || Contains(Lower(s.department), Lower(term))
  }

  function SearchBy(term: string): Student -> bool
  {
    (s: Student) => MatchesSearch(s, term)
  }

  /** The empty search term matches every record. */
  lemma EmptyTermKeepsAll(students: seq<Student>)
    ensures Filter(students, SearchBy("")) == students
  {
    forall i | 0 <= i < |students|
      ensures SearchBy("")(students[i])
    {
      EmptyIsEverywhere(students[i].id);
    }
    FilterKeepsAll(students, SearchBy(""));
  }

  /** `filteredStudents`: the matching records in table order; an empty term keeps them all. */
  function FilteredStudents(students: seq<Student>, term: string): (r: seq<Student>)
    ensures forall s :: s in r <==> s in students && MatchesSearch(s, term)
    ensures forall s :: multiset(r)[s] == if MatchesSearch(s, term) then multiset(students)[s] else 0
    ensures Sublist(r, students)
    ensures term == "" ==> r == students
  {
    FilterCounts(students, SearchBy(term));
    FilterIsSublist(students, SearchBy(term));
    if term == "" then EmptyTermKeepsAll(students); Filter(students, SearchBy(term))
    else Filter(students, SearchBy(term))
  }

  /** The page's state: the list, the search box and the record open in the modal. */
  class Office {
    var students: seq<Student>
    var searchTerm: string
    var editing: Option<Student>

    constructor ()
      ensures students == InitialStudents() && searchTerm == "" && editing == None
    {
      students := InitialStudents();
      searchTerm := "";
      editing := None;
    }

    /** The rows the table shows. */
    function Visible(): seq<Student>
      reads this
    {
      FilteredStudents(students, searchTerm)
    }

    /** Whether the open modal is for a new record. */
    function IsEditingNew(): bool
      reads this
    {
      editing.Some? && IsNewRecord(editing.value)
    }

    method SetSearchTerm(term: string)
      modifies this
      ensures searchTerm == term && students == old(students) && editing == old(editing)
      ensures term == "" ==> Visible() == students
    {
      searchTerm := term;
    }

    /** `handleDelete`, after the user confirmed. */
    method HandleDelete(id: string)
      modifies this
      ensures students == Deleted(old(students), id)
      ensures searchTerm == old(searchTerm) && editing == old(editing)
      ensures forall i :: 0 <= i < |Visible()| ==> Visible()[i].id != id
    {
      students := Deleted(students, id);
    }

    /** `handleEdit`: open the modal on a record. */
    method HandleEdit(s: Student)
      modifies this
      ensures editing == Some(s) && !IsEditingNew() == !IsNewRecord(s)
      ensures students == old(students) && searchTerm == old(searchTerm)
    {
      editing := Some(s);
    }

    /** `handleAddNew`: open the modal on a blank record. */
    method HandleAddNew(now: nat)
      modifies this
      ensures editing == Some(NewTemplate(now)) && IsEditingNew()
      ensures students == old(students) && searchTerm == old(searchTerm)
    {
      editing := Some(NewTemplate(now));
    }

    /** `handleClose`. */
    method HandleClose()
      modifies this
      ensures editing == None && students == old(students) && searchTerm == old(searchTerm)
    {
      editing := None;
    }

    /** `handleSave`: add or replace, then close the modal. */
    method HandleSave(data: Student)
      modifies this
      ensures students == Saved(old(students), data)
      ensures editing == None && searchTerm == old(searchTerm)
    {
      if IsNewRecord(data) {
        var finalId := AssignedId(students);
        students := students + [data.(id := finalId)];
      } else {
        students := ReplaceById(students, data);
      }
      editing := None;
    }

    /** The modal's `handleFormSubmit`: save only a record with a name and a department. */
    method SubmitForm(form: Student) returns (saved: bool)
      modifies this
      ensures saved <==> FormComplete(form)
      ensures saved ==> students == Saved(old(students), form) && editing == None
      ensures !saved ==> students == old(students) && editing == old(editing)
      ensures searchTerm == old(searchTerm)
    {
      if !FormComplete(form) {
        return false;
      }
      HandleSave(form);
      saved := true;
    }
  }
}
