/** The enrollment record page: summary figures over the student's course records, the list of
    semesters for the filter drop-down, and the table narrowed by a search term and a semester.
    The page ships with an empty record list. */
module Enrollment {
  import opened Seqs
  import opened Text

  datatype CourseStatus = Completed | InProgress | Planned

  datatype EnrollmentRecord = EnrollmentRecord(
    semester: string,
    courseCode: string,
    courseTitle: string,
    credits: int,
    grade: string,
    status: CourseStatus)

  /** The records the page shows: none. */
  function EnrollmentData(): seq<EnrollmentRecord>
  {
    []
  }

  /** The drop-down entry that selects every semester. */
  const AllSemesters: string := "All Semesters"

  function CreditsOf(c: EnrollmentRecord): int
  {
    c.credits
  }

  /** `totalAttemptedCredits`, computed with `reduce` from 0: the sum of the credits of all
      records. */
  function TotalAttemptedCredits(records: seq<EnrollmentRecord>): (total: int)
    ensures total == SumOf(records, CreditsOf)
  {
    FoldSumIsSum(0, records, CreditsOf);
    FoldSum(0, records, CreditsOf)
  }

  /** The total adds up over a split of the records. */
  lemma TotalIsSumOfCredits(a: seq<EnrollmentRecord>, b: seq<EnrollmentRecord>)
    ensures TotalAttemptedCredits(a + b) == TotalAttemptedCredits(a) + TotalAttemptedCredits(b)
  {
    SumOfAppend(a, b, CreditsOf);
  }

  function IsCompleted(c: EnrollmentRecord): bool
  {
    c.status == Completed
  }

  function IsInProgress(c: EnrollmentRecord): bool
  {
    c.status == InProgress
  }

  /** `completedCount`: none exactly when no record is completed, all exactly when every one is. */
  function CompletedCount(records: seq<EnrollmentRecord>): (n: nat)
    ensures n <= |records|
    ensures n == 0 <==> forall i :: 0 <= i < |records| ==> records[i].status != Completed
    ensures n == |records| <==> forall i :: 0 <= i < |records| ==> records[i].status == Completed
  {
    CountExtremes(records, IsCompleted);
    |Filter(records, IsCompleted)|
  }

  /** `inProgressCount`: none exactly when no record is in progress, all exactly when every one
      is. */
  function InProgressCount(records: seq<EnrollmentRecord>): (n: nat)
    ensures n <= |records|
    ensures n == 0 <==> forall i :: 0 <= i < |records| ==> records[i].status != InProgress
    ensures n == |records| <==> forall i :: 0 <= i < |records| ==> records[i].status == InProgress
  {
    CountExtremes(records, IsInProgress);
    |Filter(records, IsInProgress)|
  }

  /** A filter keeps nothing exactly when no record passes, and everything exactly when every
      record does. */
  lemma CountExtremes(records: seq<EnrollmentRecord>, p: EnrollmentRecord -> bool)
    ensures |Filter(records, p)| == 0 <==> forall i :: 0 <= i < |records| ==> !p(records[i])
    ensures |Filter(records, p)| == |records| <==> forall i :: 0 <= i < |records| ==> p(records[i])
  {
    var r := Filter(records, p);
    if |r| > 0 {
      assert r[0] in r;
    }
    if exists i :: 0 <= i < |records| && p(records[i]) {
      var i :| 0 <= i < |records| && p(records[i]);
      assert records[i] in r;
    }
    if |r| == |records| {
      FullFilterKeepsAll(records, p);
    }
    if forall i :: 0 <= i < |records| ==> p(records[i]) {
      FilterKeepsAll(records, p);
    }
  }

  /** No record is counted both as completed and as in progress. */
  lemma CountsBounded(records: seq<EnrollmentRecord>)
    ensures CompletedCount(records) + InProgressCount(records) <= |records|
  {
    FilterDisjointCounts(records, IsCompleted, IsInProgress);
  }

  /** `records.map(course => course.semester)`. */
  function Semesters(records: seq<EnrollmentRecord>): (r: seq<string>)
    ensures |r| == |records| && forall i :: 0 <= i < |r| ==> r[i] == records[i].semester
  {
    seq(|records|, i requires 0 <= i < |records| => records[i].semester)
  }

  /** `uniqueSemesters`: "All Semesters", then every semester of the records once. */
  function UniqueSemesters(records: seq<EnrollmentRecord>): (r: seq<string>)
    ensures |r| >= 1 && r[0] == AllSemesters
    ensures forall x :: x in r[1..] <==> exists i :: 0 <= i < |records| && records[i].semester == x
    ensures NoDuplicates(r[1..])
    ensures Sublist(r[1..], Semesters(records))
  {
    var r := [AllSemesters] + Dedup(Semesters(records));
    assert r[1..] == Dedup(Semesters(records));
    DedupIsSublist(Semesters(records));
    r
  }

  /** Semesters already listed keep their places when more records follow, so the list is in
      order of first occurrence. */
  lemma UniqueSemestersFirstOccurrence(a: seq<EnrollmentRecord>, b: seq<EnrollmentRecord>)
    ensures UniqueSemesters(a) <= UniqueSemesters(a + b)
  {
    SemestersOfAppend(a, b);
    DedupPrefix(Semesters(a), Semesters(b));
  }

  lemma SemestersOfAppend(a: seq<EnrollmentRecord>, b: seq<EnrollmentRecord>)
    ensures Semesters(a + b) == Semesters(a) + Semesters(b)
  {
  }

  predicate MatchesSearch(c: EnrollmentRecord, term: string)
  {
    Contains(Lower(c.courseTitle), Lower(term)) || Contains(Lower(c.courseCode), Lower(term))
  }

  predicate MatchesSemester(c: EnrollmentRecord, selected: string)
  {
    selected == AllSemesters || c.semester == selected
  }

  function Shown(term: string, selected: string): EnrollmentRecord -> bool
  {
    (c: EnrollmentRecord) => MatchesSearch(c, term) && MatchesSemester(c, selected)
  }

  /** With no search term and every semester selected, every record is shown. */
  lemma ShowAllKeepsAll(records: seq<EnrollmentRecord>)
    ensures Filter(records, Shown("", AllSemesters)) == records
  {
    forall i | 0 <= i < |records|
      ensures Shown("", AllSemesters)(records[i])
    {
      EmptyIsEverywhere(records[i].courseTitle);
    }
    FilterKeepsAll(records, Shown("", AllSemesters));
  }

  /** `filteredCourses`: the records matching both the search term (title or code, ignoring
      case) and the selected semester, in order. */
  function FilteredCourses(records: seq<EnrollmentRecord>, term: string, selected: string)
    : (r: seq<EnrollmentRecord>)
    ensures forall c :: c in r <==> c in records && MatchesSearch(c, term) && MatchesSemester(c, selected)
    ensures forall c :: multiset(r)[c]
                        == if MatchesSearch(c, term) && MatchesSemester(c, selected) then multiset(records)[c] else 0
    ensures Sublist(r, records)
    ensures term == "" && selected == AllSemesters ==> r == records
    ensures selected != AllSemesters ==> forall i :: 0 <= i < |r| ==> r[i].semester == selected
  {
    var r := Filter(records, Shown(term, selected));
    FilterCounts(records, Shown(term, selected));
    FilterIsSublist(records, Shown(term, selected));
    if term == "" && selected == AllSemesters then ShowAllKeepsAll(records); r
    else
      assert forall i :: 0 <= i < |r| ==> r[i] in r;
      r
  }

  /** The page as shipped: no credits, no counts, only the "All Semesters" entry and an empty
      table, whatever is searched. */
  lemma ShippedPageIsEmpty(term: string, selected: string)
    ensures TotalAttemptedCredits(EnrollmentData()) == 0
    ensures CompletedCount(EnrollmentData()) == 0 && InProgressCount(EnrollmentData()) == 0
    ensures UniqueSemesters(EnrollmentData()) == [AllSemesters]
    ensures FilteredCourses(EnrollmentData(), term, selected) == []
  {
  }
}
