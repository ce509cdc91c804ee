/** The late add/drop request page: a tabbed form that looks a course up by code, flags a full
    course, offers only registered courses for dropping, and guards submission by two non-empty
    checks. The simulated two-second delay is split into the submission itself and the callback
    that ends it. */
module AddDrop {
  import opened Seqs

  datatype OfferedCourse = OfferedCourse(
    code: string,
    title: string,
    credits: int,
    prereqs: seq<string>,
    currentEnrollment: int,
    capacity: int)

  datatype ScheduledCourse = ScheduledCourse(code: string, title: string, credits: int, status: string)

  /** What `getCourseDetails` may find: a course of the catalogue or one of the schedule. */
  datatype CourseDetails = Offered(offered: OfferedCourse) | OnSchedule(scheduled: ScheduledCourse)

  datatype Tab = AddTab | DropTab

  /** The courses open for a late add. */
  function AvailableCourses(): seq<OfferedCourse>
  {
    [ OfferedCourse("CS 410", "Machine Learning", 3, ["CS 301"], 90, 100),
      OfferedCourse("HUMN 350", "Philosophy of Mind", 3, [], 15, 25),
      OfferedCourse("FIN 201", "Financial Accounting", 4, ["MATH 101"], 105, 100) ]
  }

  /** The student's current schedule. */
  function CurrentSchedule(): seq<ScheduledCourse>
  {
    [ ScheduledCourse("MATH 305", "Linear Algebra", 4, "Registered"),
      ScheduledCourse("CS 320", "Database Systems", 3, "Registered"),
      ScheduledCourse("ENG 101", "Academic Writing", 3, "Completed") ]
  }

  function OfferedWithCode(code: string): OfferedCourse -> bool
  {
    (c: OfferedCourse) => c.code == code
  }

  function ScheduledWithCode(code: string): ScheduledCourse -> bool
  {
    (c: ScheduledCourse) => c.code == code
  }

  /** `getCourseDetails`: the first catalogue course with the code, failing that the first
      scheduled course with it, failing both nothing. */
  function GetCourseDetails(available: seq<OfferedCourse>, schedule: seq<ScheduledCourse>, code: string)
    : (d: Option<CourseDetails>)
    ensures (d.Some? && d.value.Offered?) <==> exists i :: 0 <= i < |available| && available[i].code == code
    ensures d.Some? && d.value.Offered? ==>
      exists i :: 0 <= i < |available| && available[i] == d.value.offered && available[i].code == code
                  && forall j :: 0 <= j < i ==> available[j].code != code
    ensures d.Some? && d.value.OnSchedule? ==>
      exists i :: 0 <= i < |schedule| && schedule[i] == d.value.scheduled && schedule[i].code == code
                  && forall j :: 0 <= j < i ==> schedule[j].code != code
    ensures d.None? <==> (forall i :: 0 <= i < |available| ==> available[i].code != code)
                         && (forall i :: 0 <= i < |schedule| ==> schedule[i].code != code)
  {
    match Find(available, OfferedWithCode(code))
    case Some(c) => Some(Offered(c))
    case None =>
      match Find(schedule, ScheduledWithCode(code))
      case Some(c) => Some(OnSchedule(c))
      case None => None
  }

  /** The comparison of `isFull` on what `getCourseDetails` found. The details are read as a
      catalogue course; a course found only on the schedule has no enrolment or capacity, so the
      comparison is false for it. */
  predicate AtCapacity(details: Option<CourseDetails>)
  {
    details.Some? && details.value.Offered?
    && details.value.offered.currentEnrollment >= details.value.offered.capacity
  }

  /** `isFull` of the add form: a code in the catalogue is full exactly when its first catalogue
      entry is at or over capacity; any other code never is. */
  function IsFull(available: seq<OfferedCourse>, schedule: seq<ScheduledCourse>, code: string): (full: bool)
    ensures full <==> exists i :: 0 <= i < |available| && available[i].code == code
                                && (forall j :: 0 <= j < i ==> available[j].code != code)
                                && available[i].currentEnrollment >= available[i].capacity
  {
    IsFullExactly(available, schedule, code);
    AtCapacity(GetCourseDetails(available, schedule, code))
  }

  /** The comparison holds on the details exactly when the first catalogue entry with the code is
      at or over capacity. */
  lemma IsFullExactly(available: seq<OfferedCourse>, schedule: seq<ScheduledCourse>, code: string)
    ensures AtCapacity(GetCourseDetails(available, schedule, code))
        <==> exists i :: 0 <= i < |available| && available[i].code == code
                         && (forall j :: 0 <= j < i ==> available[j].code != code)
                         && available[i].currentEnrollment >= available[i].capacity
  {
    var d := GetCourseDetails(available, schedule, code);
    if d.Some? && d.value.Offered? {
      var i :| 0 <= i < |available| && available[i] == d.value.offered && available[i].code == code
               && forall j :: 0 <= j < i ==> available[j].code != code;
      forall k | 0 <= k < |available| && available[k].code == code
                 && (forall j :: 0 <= j < k ==> available[j].code != code)
        ensures k == i
      {
      }
    }
  }

  /** In the page's own catalogue "FIN 201" (105 of 100) is full. */
  lemma SampleFull()
    ensures IsFull(AvailableCourses(), CurrentSchedule(), "FIN 201")
  {
    var a := AvailableCourses();
    assert a[0].code != "FIN 201" by { assert a[0].code[0] == 'C'; }
    assert a[1].code != "FIN 201" by { assert a[1].code[0] == 'H'; }
  }

  /** The other two catalogue courses have seats left. */
  lemma SampleOpen()
    ensures !IsFull(AvailableCourses(), CurrentSchedule(), "CS 410")
    ensures !IsFull(AvailableCourses(), CurrentSchedule(), "HUMN 350")
  {
    var a := AvailableCourses();
    assert a[0].code != "HUMN 350" by { assert a[0].code[0] == 'C'; }
  }

  /** A course found only on the schedule is never full. */
  lemma SampleScheduledNotFull()
    ensures !IsFull(AvailableCourses(), CurrentSchedule(), "MATH 305")
  {
    var a := AvailableCourses();
    assert a[1].code != "MATH 305" && a[0].code != "MATH 305" && a[2].code != "MATH 305";
  }

  function IsRegistered(c: ScheduledCourse): bool
  {
    c.status == "Registered"
  }

  /** The options of the drop form: the scheduled courses whose status is "Registered", in
      schedule order. */
  function DropOptions(schedule: seq<ScheduledCourse>): (r: seq<ScheduledCourse>)
    ensures forall c :: c in r <==> c in schedule && c.status == "Registered"
    ensures forall c :: multiset(r)[c] == if c.status == "Registered" then multiset(schedule)[c] else 0
    ensures Sublist(r, schedule)
  {
    FilterCounts(schedule, IsRegistered);
    FilterIsSublist(schedule, IsRegistered);
    Filter(schedule, IsRegistered)
  }

  /** On the page's schedule the drop form offers the two registered courses, not the completed
      one. */
  lemma SampleDropOptions()
    ensures DropOptions(CurrentSchedule()) == CurrentSchedule()[..2]
  {
    var s := CurrentSchedule();
    assert s[..2] + [s[2]] == s;
    FilterAppend(s[..2], [s[2]], IsRegistered);
    FilterKeepsAll(s[..2], IsRegistered);
    assert !IsRegistered(s[2]) by { assert s[2].status[0] == 'C'; }
    assert Filter([s[2]], IsRegistered) == [] by {
      assert Init([s[2]]) == [];
    }
  }

  /** The form's state. */
  class RequestForm {
    var activeTab: Tab
    var selectedCourse: string
    var reason: string
    var isSubmitting: bool

    constructor ()
      ensures activeTab == AddTab && selectedCourse == "" && reason == "" && !isSubmitting
    {
      activeTab := AddTab;
      selectedCourse := "";
      reason := "";
      isSubmitting := false;
    }

    /** The check `handleRequestSubmit` makes before anything changes. */
    predicate ReadyToSubmit()
      reads this
    {
      selectedCourse != "" && reason != ""
    }

    /** Whether the submit button is disabled: on the add tab while submitting or for a full
        course, on the drop tab only while submitting. */
    function SubmitDisabled(): (disabled: bool)
      reads this
      ensures disabled <==> isSubmitting
                            || (activeTab == AddTab
                                && exists i :: 0 <= i < |AvailableCourses()|
                                                && AvailableCourses()[i].code == selectedCourse
                                                && (forall j :: 0 <= j < i ==> AvailableCourses()[j].code != selectedCourse)
                                                && AvailableCourses()[i].currentEnrollment >= AvailableCourses()[i].capacity)
    {
      if activeTab == AddTab then
        isSubmitting || IsFull(AvailableCourses(), CurrentSchedule(), selectedCourse)
      else isSubmitting
    }

    /** Either tab button: switch tab and clear the selection and the reason. */
    method SelectTab(tab: Tab)
      modifies this
      ensures activeTab == tab && selectedCourse == "" && reason == ""
      ensures isSubmitting == old(isSubmitting)
      ensures !ReadyToSubmit()
    {
      activeTab := tab;
      selectedCourse := "";
      reason := "";
    }

    method SelectCourse(code: string)
      modifies this
      ensures selectedCourse == code
      ensures activeTab == old(activeTab) && reason == old(reason) && isSubmitting == old(isSubmitting)
    {
      selectedCourse := code;
    }

    method SetReason(text: string)
      modifies this
      ensures reason == text
      ensures activeTab == old(activeTab) && selectedCourse == old(selectedCourse)
      ensures isSubmitting == old(isSubmitting)
    {
      reason := text;
    }

    /** `handleRequestSubmit`: reject an incomplete request without touching the state,
        otherwise start submitting. */
    method HandleRequestSubmit() returns (accepted: bool)
      modifies this
      ensures accepted <==> old(selectedCourse) != "" && old(reason) != ""
      ensures !accepted ==> isSubmitting == old(isSubmitting)
      ensures accepted ==> isSubmitting
      ensures activeTab == old(activeTab) && selectedCourse == old(selectedCourse) && reason == old(reason)
    {
      if selectedCourse == "" || reason == "" {
        return false;
      }
      isSubmitting := true;
      accepted := true;
    }

    /** The timer callback that ends a submission: clear the flag, the selection and the
        reason, so the same request cannot be sent again without re-entering it. */
    method FinishSubmission()
      modifies this
      ensures !isSubmitting && selectedCourse == "" && reason == ""
      ensures activeTab == old(activeTab)
      ensures !ReadyToSubmit()
    {
      isSubmitting := false;
      selectedCourse := "";
      reason := "";
    }
  }
}
