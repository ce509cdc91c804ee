/** The course-registration page: the student picks courses from a fixed catalogue into a
    schedule, guarded by a prerequisite check, while a running credit total follows the schedule. */
module CourseRegistration {
  import opened Seqs
  import opened Text

  datatype Course = Course(
    code: string,
    title: string,
    credits: int,
    availableSeats: int,
    time: string,
    prerequisites: seq<string>)

  /** The catalogue the page offers. */
  function AvailableCourses(): seq<Course>
  {
    [ Course("CS 320", "Database Systems", 3, 15, "MW 10:00 AM", ["CS 210"]),
      Course("MATH 305", "Linear Algebra", 4, 5, "TR 1:00 PM", ["MATH 102"]),
      Course("CS 401", "Operating Systems", 3, 25, "F 9:00 AM", ["CS 102", "CS 205"]),
      Course("HIST 350", "Modern American History", 3, 40, "TR 11:30 AM", []),
      Course("LANG 201", "Spanish II", 3, 0, "MW 2:00 PM", ["LANG 101"]) ]
  }

  /** The courses the student has already passed. */
  function StudentCompletedCourses(): seq<string>
  {
    ["CS 101", "CS 102", "MATH 101", "MATH 102", "CS 205", "LANG 101"]
  }

  function CreditsOf(c: Course): int
  {
    c.credits
  }

  function HasCode(code: string): Course -> bool
  {
    (c: Course) => c.code == code
  }

  function LacksCode(code: string): Course -> bool
  {
    (c: Course) => c.code != code
  }

  function NotIn(completed: seq<string>): string -> bool
  {
    (p: string) => p !in completed
  }

  /** `checkPrerequisites`: the prerequisites not yet completed, in the course's order. */
  function CheckPrerequisites(course: Course, completed: seq<string>): (missing: seq<string>)
    ensures forall p :: p in missing <==> p in course.prerequisites && p !in completed
    ensures forall p :: multiset(missing)[p]
                        == if p !in completed then multiset(course.prerequisites)[p] else 0
    ensures Sublist(missing, course.prerequisites)
    ensures |missing| == 0 <==> forall p :: p in course.prerequisites ==> p in completed
  {
    var missing := Filter(course.prerequisites, NotIn(completed));
    FilterCounts(course.prerequisites, NotIn(completed));
    FilterIsSublist(course.prerequisites, NotIn(completed));
    assert |missing| > 0 ==> missing[0] in missing;
    missing
  }

  /** `currentSchedule.some(c => c.code === code)`: some scheduled course has the code. */
  function IsScheduled(schedule: seq<Course>, code: string): (scheduled: bool)
    ensures scheduled <==> exists i :: 0 <= i < |schedule| && schedule[i].code == code
  {
    Any(schedule, HasCode(code))
  }

  /** `canRegister` of a catalogue row: the course is not on the schedule, every prerequisite is
      completed and a seat is left. */
  function CanRegister(course: Course, isScheduled: bool, completed: seq<string>): (ok: bool)
    ensures ok <==> !isScheduled && (forall p :: p in course.prerequisites ==> p in completed)
                    && course.availableSeats > 0
  {
    var isFull := course.availableSeats <= 0;
    !isScheduled && |CheckPrerequisites(course, completed)| == 0 && !isFull
  }

  /** The add button of a row is disabled by `!canRegister || isFull`, which is just
      `!canRegister`. */
  function AddDisabled(course: Course, isScheduled: bool, completed: seq<string>): (disabled: bool)
    ensures disabled <==> !CanRegister(course, isScheduled, completed)
  {
    !CanRegister(course, isScheduled, completed) || course.availableSeats <= 0
  }

  predicate MatchesSearch(c: Course, term: string)
  {
    Contains(Lower(c.title), Lower(term)) || Contains(Lower(c.code), Lower(term))
  }

  function SearchBy(term: string): Course -> bool
  {
    (c: Course) => MatchesSearch(c, term)
  }

  /** The empty search term matches every course. */
  lemma EmptyTermKeepsAll(courses: seq<Course>)
    ensures Filter(courses, SearchBy("")) == courses
  {
    forall i | 0 <= i < |courses|
      ensures SearchBy("")(courses[i])
    {
      EmptyIsEverywhere(courses[i].title);
    }
    FilterKeepsAll(courses, SearchBy(""));
  }

  /** `filteredCourses`: the courses whose title or code contains the term, ignoring case. */
  function FilteredCourses(courses: seq<Course>, term: string): (r: seq<Course>)
    ensures forall c :: c in r <==> c in courses && MatchesSearch(c, term)
    ensures forall c :: multiset(r)[c] == if MatchesSearch(c, term) then multiset(courses)[c] else 0
    ensures Sublist(r, courses)
    ensures term == "" ==> r == courses
  {
    FilterCounts(courses, SearchBy(term));
    FilterIsSublist(courses, SearchBy(term));
    if term == "" then EmptyTermKeepsAll(courses); Filter(courses, SearchBy(term))
    else Filter(courses, SearchBy(term))
  }

  /** No two scheduled courses share a code. */
  ghost predicate DistinctCodes(s: seq<Course>)
  {
    forall i, j :: 0 <= i < j < |s| ==> s[i].code != s[j].code
  }

  /** Appending a course whose code is new keeps the codes distinct. */
  lemma AppendKeepsDistinctCodes(s: seq<Course>, c: Course)
    requires DistinctCodes(s)
    requires forall j :: 0 <= j < |s| ==> s[j].code != c.code
    ensures DistinctCodes(s + [c])
  {
    var t := s + [c];
    assert forall j :: 0 <= j < |s| ==> t[j] == s[j];
  }

  /** A code is scheduled exactly when `find` returns a course for it. */
  lemma ScheduledIffFound(s: seq<Course>, code: string)
    ensures IsScheduled(s, code) <==> Find(s, HasCode(code)).Some?
  {
  }

  /** A course appended to a schedule is scheduled afterwards. */
  lemma AppendSchedules(s: seq<Course>, c: Course)
    ensures IsScheduled(s + [c], c.code)
  {
    assert (s + [c])[|s|] == c;
  }

  /** The courses kept from the front of a distinct-code schedule differ in code from its last
      course. */
  lemma FilteredInitLacksLastCode(s: seq<Course>, p: Course -> bool)
    requires DistinctCodes(s) && |s| > 0
    ensures forall j :: 0 <= j < |Filter(Init(s), p)| ==> Filter(Init(s), p)[j].code != Last(s).code
  {
    var init, r := Init(s), Filter(Init(s), p);
    forall j | 0 <= j < |r|
      ensures r[j].code != Last(s).code
    {
      assert r[j] in init;
      var m :| 0 <= m < |init| && init[m] == r[j];
      assert s[m] == init[m];
    }
  }

  /** Filtering a schedule keeps its codes distinct. */
  lemma {:induction false} FilterKeepsDistinctCodes(s: seq<Course>, p: Course -> bool)
    requires DistinctCodes(s)
    ensures DistinctCodes(Filter(s, p))
    decreases |s|
  {
    if s != [] {
      var init, last := Init(s), Last(s);
      assert DistinctCodes(init) by {
        assert forall j :: 0 <= j < |init| ==> init[j] == s[j];
      }
      FilterKeepsDistinctCodes(init, p);
      if p(last) {
        FilteredInitLacksLastCode(s, p);
        AppendKeepsDistinctCodes(Filter(init, p), last);
      }
    }
  }

  /** Dropping a scheduled course from a schedule with distinct codes removes exactly one
      course and takes exactly its credits off the sum. */
  lemma {:induction false} DropOne(s: seq<Course>, k: int)
    requires DistinctCodes(s) && 0 <= k < |s|
    ensures var r := Filter(s, LacksCode(s[k].code));
      |r| == |s| - 1 && SumOf(r, CreditsOf) == SumOf(s, CreditsOf) - s[k].credits
    decreases |s|
  {
    var p := LacksCode(s[k].code);
    InitLast(s);
    var init, last := Init(s), Last(s);
    assert forall j :: 0 <= j < |init| ==> init[j] == s[j];
    if k == |s| - 1 {
      assert forall j :: 0 <= j < |init| ==> p(init[j]);
      FilterKeepsAll(init, p);
      assert Filter(s, p) == Filter(init, p);
    } else {
      assert DistinctCodes(init);
      DropOne(init, k);
      assert p(last);
      var r := Filter(init, p);
      assert Filter(s, p) == r + [last];
      InitOfSnoc(r, last);
    }
  }

  /** Dropping a scheduled code removes exactly the course `find` returns for it, and its
      credits, and leaves the codes distinct. */
  lemma DropScheduled(s: seq<Course>, code: string)
    requires DistinctCodes(s) && IsScheduled(s, code)
    ensures Find(s, HasCode(code)).Some?
    ensures var r := Filter(s, LacksCode(code));
      && DistinctCodes(r) && |r| == |s| - 1 && !IsScheduled(r, code)
      && SumOf(r, CreditsOf) == SumOf(s, CreditsOf) - Find(s, HasCode(code)).value.credits
  {
    var c := Find(s, HasCode(code));
    var k :| 0 <= k < |s| && s[k] == c.value;
    DropOne(s, k);
    FilterKeepsDistinctCodes(s, LacksCode(code));
    var r := Filter(s, LacksCode(code));
    assert forall j :: 0 <= j < |r| ==> r[j] in r;
  }

  /** Dropping a code that is not scheduled changes nothing. */
  lemma DropAbsent(s: seq<Course>, code: string)
    requires !IsScheduled(s, code)
    ensures Filter(s, LacksCode(code)) == s
  {
    FilterKeepsAll(s, LacksCode(code));
  }

  /** The page's state. `prereqStatus` is the missing-prerequisite list of the course last
      opened in the modal. */
  class Registration {
    const completed: seq<string>
    var searchTerm: string
    var schedule: seq<Course>
    var modalOpen: bool
    var selected: Option<Course>
    var prereqStatus: seq<string>
    var totalCredits: int

    /** The schedule has distinct codes, the total is the sum of its credits, and the status
        list shown in the modal belongs to the selected course. */
    ghost predicate Valid()
      reads this
    {
      && DistinctCodes(schedule)
      && totalCredits == SumOf(schedule, CreditsOf)
      && (selected.Some? ==> prereqStatus == CheckPrerequisites(selected.value, completed))
    }

    constructor ()
      ensures Valid()
      ensures completed == StudentCompletedCourses() && searchTerm == ""
      ensures schedule == [] && totalCredits == 0
      ensures !modalOpen && selected == None && prereqStatus == []
    {
      completed := StudentCompletedCourses();
      searchTerm := "";
      schedule := [];
      modalOpen := false;
      selected := None;
      prereqStatus := [];
      totalCredits := 0;
    }

    /** The catalogue rows the page lists. */
    function Visible(): seq<Course>
      reads this
    {
      FilteredCourses(AvailableCourses(), searchTerm)
    }

    /** Whether the add button of a catalogue row is enabled. */
    function RowCanRegister(course: Course): bool
      reads this
    {
      CanRegister(course, IsScheduled(schedule, course.code), completed)
    }

    method SetSearchTerm(term: string)
      requires Valid()
      modifies this
      ensures Valid() && searchTerm == term
      ensures schedule == old(schedule) && totalCredits == old(totalCredits)
      ensures modalOpen == old(modalOpen) && selected == old(selected)
      ensures prereqStatus == old(prereqStatus)
      ensures term == "" ==> Visible() == AvailableCourses()
    {
      searchTerm := term;
    }

    /** The modal's close buttons: close it and keep the selection and its status list. */
    method CloseModal()
      requires Valid()
      modifies this
      ensures Valid() && !modalOpen
      ensures selected == old(selected) && prereqStatus == old(prereqStatus)
      ensures schedule == old(schedule) && totalCredits == old(totalCredits)
      ensures searchTerm == old(searchTerm)
    {
      modalOpen := false;
    }

    /** `handleAddCourse`: open the modal on a course with its missing prerequisites. */
    method HandleAddCourse(course: Course)
      requires Valid()
      modifies this
      ensures Valid()
      ensures selected == Some(course) && modalOpen
      ensures prereqStatus == CheckPrerequisites(course, completed)
      ensures schedule == old(schedule) && totalCredits == old(totalCredits)
      ensures searchTerm == old(searchTerm)
    {
      selected := Some(course);
      prereqStatus := CheckPrerequisites(course, completed);
      modalOpen := true;
    }

    /** `confirmAdd`: append the selected course when nothing is missing and its code is not
        scheduled yet; close the modal either way. */
    method ConfirmAdd()
      requires Valid()
      modifies this
      ensures Valid()
      ensures !modalOpen && selected == None
      ensures var add := old(selected).Some? && |old(prereqStatus)| == 0
                         && !IsScheduled(old(schedule), old(selected).value.code);
        && (add ==> schedule == old(schedule) + [old(selected).value]
                    && totalCredits == old(totalCredits) + old(selected).value.credits
                    && forall p :: p in old(selected).value.prerequisites ==> p in completed)
        && (!add ==> schedule == old(schedule) && totalCredits == old(totalCredits))
        && (add ==> !RowCanRegister(old(selected).value))
      ensures prereqStatus == old(prereqStatus) && searchTerm == old(searchTerm)
    {
      if selected.Some? && |prereqStatus| == 0 && !IsScheduled(schedule, selected.value.code) {
        var course := selected.value;
        InitOfSnoc(schedule, course);
        assert forall j :: 0 <= j < |schedule| ==> (schedule + [course])[j] == schedule[j];
        AppendSchedules(schedule, course);
        schedule := schedule + [course];
        totalCredits := totalCredits + course.credits;
      }
      modalOpen := false;
      selected := None;
    }

    /** `handleDropCourse`: remove the scheduled course with the code, and its credits. */
    method HandleDropCourse(code: string)
      requires Valid()
      modifies this
      ensures Valid()
      ensures !IsScheduled(old(schedule), code)
              ==> schedule == old(schedule) && totalCredits == old(totalCredits)
      ensures IsScheduled(old(schedule), code)
              ==> && schedule == Filter(old(schedule), LacksCode(code))
                  && |schedule| == |old(schedule)| - 1
                  && !IsScheduled(schedule, code)
                  && totalCredits == old(totalCredits) - Find(old(schedule), HasCode(code)).value.credits
      ensures modalOpen == old(modalOpen) && selected == old(selected)
      ensures prereqStatus == old(prereqStatus) && searchTerm == old(searchTerm)
    {
      var courseToDrop := Find(schedule, HasCode(code));
      ScheduledIffFound(schedule, code);
      if courseToDrop.Some? {
        DropScheduled(schedule, code);
        schedule := Filter(schedule, LacksCode(code));
        totalCredits := totalCredits - courseToDrop.value.credits;
        assert DistinctCodes(schedule) && totalCredits == SumOf(schedule, CreditsOf);
      } else {
        DropAbsent(schedule, code);
      }
    }
  }
}
