/** The campus events page: a fixed event list narrowed by a search term and then grouped by
    month for display. The grouping object is a map from month to events together with the
    order in which its keys were created, which is the order `Object.keys` lists them in for
    month names such as "OCT". */
module Events {
  import opened Seqs
  import opened Text

  datatype Event = Event(month: string, day: int, category: string, title: string, location: string)

  /** The events the page lists. */
  function EventsData(): seq<Event>
  {
    [ Event("OCT", 25, "ACADEMICS", "Fall Semester Registration", "Online Portal | 11:59 PM"),
      Event("OCT", 28, "CAREER", "University Career Fair", "Main Gymnasium | 10:00 AM"),
      Event("NOV", 5, "SOCIAL", "Homecoming Bonfire", "Central Quad | 7:00 PM"),
      Event("NOV", 12, "ACADEMICS", "Mid-Term Examination Week", "Various Locations"),
      Event("DEC", 1, "SPORTS", "Basketball Tryouts", "Main Court | 6:00 PM"),
      Event("DEC", 15, "SOCIAL", "Winter Gala Dinner", "Grand Ballroom | 7:30 PM") ]
  }

  /** `events.map(event => event.month)`. */
  function Months(events: seq<Event>): (r: seq<string>)
    ensures |r| == |events| && forall i :: 0 <= i < |r| ==> r[i] == events[i].month
  {
    seq(|events|, i requires 0 <= i < |events| => events[i].month)
  }

  function InMonth(month: string): Event -> bool
  {
    (e: Event) => e.month == month
  }

  /** The number of events of a month. */
  function GroupSize(events: seq<Event>): string -> int
  {
    (month: string) => |Filter(events, InMonth(month))|
  }

  lemma MonthsOfSnoc(events: seq<Event>, e: Event)
    ensures Months(events + [e]) == Months(events) + [e.month]
  {
  }

  /** A month that no event has selects no event. */
  lemma AbsentMonthSelectsNothing(events: seq<Event>, month: string)
    requires month !in Months(events)
    ensures Filter(events, InMonth(month)) == []
  {
    assert forall i :: 0 <= i < |events| ==> Months(events)[i] == events[i].month;
    FilterKeepsNone(events, InMonth(month));
  }

  /** A month that some event has selects at least that event. */
  lemma PresentMonthSelectsSome(events: seq<Event>, month: string)
    requires month in Months(events)
    ensures |Filter(events, InMonth(month))| > 0
  {
    var i :| 0 <= i < |events| && Months(events)[i] == month;
    assert events[i] in Filter(events, InMonth(month));
  }

  /** One more event adds itself to the group of its own month and to no other. */
  lemma FilterOfSnoc(events: seq<Event>, e: Event, month: string)
    ensures Filter(events + [e], InMonth(month))
            == Filter(events, InMonth(month)) + (if e.month == month then [e] else [])
  {
    InitOfSnoc(events, e);
  }

  /** The grouping of a prefix of the events: keys in first-occurrence order, and under each
      key the events of that month. */
  ghost predicate GroupsOf(events: seq<Event>, keys: seq<string>, groups: map<string, seq<Event>>)
  {
    && keys == Dedup(Months(events))
    && (forall m :: m in groups <==> m in keys)
    && (forall m :: m in groups ==> groups[m] == Filter(events, InMonth(m)))
  }

  /** Listing one more month keeps the distinct months already listed and adds the new one
      at the end, if it is new. */
  lemma DedupMonthsStep(events: seq<Event>, event: Event)
    ensures Dedup(Months(events + [event]))
            == if event.month in Months(events) then Dedup(Months(events))
               else Dedup(Months(events)) + [event.month]
  {
    MonthsOfSnoc(events, event);
    InitOfSnoc(Months(events), event.month);
  }

  /** One more event changes the group of its own month only. */
  lemma FilterStepAll(events: seq<Event>, event: Event)
    ensures forall m :: Filter(events + [event], InMonth(m))
                        == Filter(events, InMonth(m)) + (if event.month == m then [event] else [])
  {
    forall m
      ensures Filter(events + [event], InMonth(m))
              == Filter(events, InMonth(m)) + (if event.month == m then [event] else [])
    {
      FilterOfSnoc(events, event, m);
    }
  }

  /** An event of a month not seen before adds its month as the last key. */
  lemma NewMonthAddsKey(events: seq<Event>, event: Event, keys: seq<string>, groups: map<string, seq<Event>>)
    requires GroupsOf(events, keys, groups) && event.month !in groups
    ensures event.month !in Months(events)
    ensures keys + [event.month] == Dedup(Months(events + [event]))
  {
    DedupMonthsStep(events, event);
  }

  /** Creating an empty group for a month no event had yet and pushing the event onto it keeps
      every group equal to the events of its month. */
  lemma StartGroup(events: seq<Event>, event: Event, groups: map<string, seq<Event>>)
    requires forall m :: m in groups ==> groups[m] == Filter(events, InMonth(m))
    requires event.month !in Months(events)
    ensures var g := groups[event.month := []];
      var g' := g[event.month := g[event.month] + [event]];
      forall m :: m in g' ==> g'[m] == Filter(events + [event], InMonth(m))
  {
    var month := event.month;
    var g := groups[month := []];
    var g' := g[month := g[month] + [event]];
    AbsentMonthSelectsNothing(events, month);
    FilterStepAll(events, event);
    forall m | m in g'
      ensures g'[m] == Filter(events + [event], InMonth(m))
    {
      if m != month {
        assert g'[m] == groups[m];
      }
    }
  }

  /** The callback on an event of a month not seen before: a new key, and a new empty group
      onto which the event is pushed. */
  lemma NewMonthStep(events: seq<Event>, event: Event, keys: seq<string>, groups: map<string, seq<Event>>)
    requires GroupsOf(events, keys, groups) && event.month !in groups
    ensures var g := groups[event.month := []];
      GroupsOf(events + [event], keys + [event.month], g[event.month := g[event.month] + [event]])
  {
    NewMonthAddsKey(events, event, keys, groups);
    StartGroup(events, event, groups);
  }

  /** An event of a month already seen adds no key. */
  lemma KnownMonthKeepsKeys(events: seq<Event>, event: Event, keys: seq<string>, groups: map<string, seq<Event>>)
    requires GroupsOf(events, keys, groups) && event.month in groups
    ensures keys == Dedup(Months(events + [event]))
  {
    DedupMonthsStep(events, event);
  }

  /** Pushing onto an existing group keeps the map's keys. */
  lemma KnownMonthKeepsDomain(keys: seq<string>, groups: map<string, seq<Event>>, event: Event)
    requires (forall m :: m in groups <==> m in keys) && event.month in groups
    ensures var groups' := groups[event.month := groups[event.month] + [event]];
      forall m :: m in groups' <==> m in keys
  {
  }

  /** Appending an event to the group of its month keeps every group equal to the events of
      its month. */
  lemma AppendToGroup(events: seq<Event>, event: Event, groups: map<string, seq<Event>>)
    requires forall m :: m in groups ==> groups[m] == Filter(events, InMonth(m))
    requires event.month in groups
    ensures var groups' := groups[event.month := groups[event.month] + [event]];
      forall m :: m in groups' ==> groups'[m] == Filter(events + [event], InMonth(m))
  {
    var month := event.month;
    var groups' := groups[month := groups[month] + [event]];
    FilterStepAll(events, event);
    forall m | m in groups'
      ensures groups'[m] == Filter(events + [event], InMonth(m))
    {
      if m != month {
        assert groups'[m] == groups[m];
      }
    }
  }

  /** The callback on an event of a month already seen: the event joins the end of its group. */
  lemma KnownMonthStep(events: seq<Event>, event: Event, keys: seq<string>, groups: map<string, seq<Event>>)
    requires GroupsOf(events, keys, groups) && event.month in groups
    ensures GroupsOf(events + [event], keys, groups[event.month := groups[event.month] + [event]])
  {
    KnownMonthKeepsKeys(events, event, keys, groups);
    KnownMonthKeepsDomain(keys, groups, event);
    AppendToGroup(events, event, groups);
  }

  /** No group of a grouping is empty. */
  lemma GroupsAreNonEmpty(events: seq<Event>, keys: seq<string>, groups: map<string, seq<Event>>)
    requires GroupsOf(events, keys, groups)
    ensures forall m :: m in groups ==> |groups[m]| > 0
  {
    forall m | m in groups
      ensures |groups[m]| > 0
    {
      PresentMonthSelectsSome(events, m);
    }
  }

  /** `groupEventsByMonth`: one pass over the events that creates a month's group the first
      time the month is seen and appends each event to the group of its month. */
  method GroupEventsByMonth(events: seq<Event>) returns (keys: seq<string>, groups: map<string, seq<Event>>)
    ensures keys == Dedup(Months(events))
    ensures forall m :: m in groups <==> m in keys
    ensures forall m :: m in groups ==> groups[m] == Filter(events, InMonth(m))
    ensures forall m :: m in groups ==> |groups[m]| > 0
  {
    keys := [];
    groups := map[];
    var i := 0;
    while i < |events|
      invariant 0 <= i <= |events|
      invariant GroupsOf(events[..i], keys, groups)
    {
      var event := events[i];
      var monthKey := event.month;
      PrefixSnoc(events, i);
      if monthKey !in groups {
        NewMonthStep(events[..i], event, keys, groups);
        groups := groups[monthKey := []];
        keys := keys + [monthKey];
      } else {
        KnownMonthStep(events[..i], event, keys, groups);
      }
      groups := groups[monthKey := groups[monthKey] + [event]];
      i := i + 1;
    }
    assert events[..i] == events;
    GroupsAreNonEmpty(events, keys, groups);
  }

  /** One more event makes the group of its own month one larger and leaves the others. */
  lemma GroupSizeStep(events: seq<Event>, e: Event)
    ensures forall k :: GroupSize(events + [e])(k) == GroupSize(events)(k) + (if k == e.month then 1 else 0)
  {
    forall k
      ensures GroupSize(events + [e])(k) == GroupSize(events)(k) + (if k == e.month then 1 else 0)
    {
      FilterOfSnoc(events, e, k);
    }
  }

  /** An event of a month already listed adds one to that month's group size. */
  lemma KnownMonthSizeStep(events: seq<Event>, e: Event)
    requires e.month in Months(events)
    ensures SumOf(Dedup(Months(events)), GroupSize(events + [e]))
            == SumOf(Dedup(Months(events)), GroupSize(events)) + 1
  {
    GroupSizeStep(events, e);
    SumOfBump(Dedup(Months(events)), GroupSize(events), GroupSize(events + [e]), e.month);
  }

  /** An event of a new month adds a group of size one and leaves the other sizes. */
  lemma NewMonthSizeStep(events: seq<Event>, e: Event)
    requires e.month !in Months(events)
    ensures SumOf(Dedup(Months(events)) + [e.month], GroupSize(events + [e]))
            == SumOf(Dedup(Months(events)), GroupSize(events)) + 1
  {
    var keys := Dedup(Months(events));
    GroupSizeStep(events, e);
    SumOfCongruent(keys, GroupSize(events), GroupSize(events + [e]));
    AbsentMonthSelectsNothing(events, e.month);
    InitOfSnoc(keys, e.month);
  }

  /** Every event lands in exactly one group: the group sizes, taken over the distinct months,
      add up to the number of events. */
  lemma {:induction false} GroupSizesSum(events: seq<Event>)
    ensures SumOf(Dedup(Months(events)), GroupSize(events)) == |events|
    decreases |events|
  {
    if events != [] {
      var init, e := Init(events), Last(events);
      InitLast(events);
      GroupSizesSum(init);
      DedupMonthsStep(init, e);
      if e.month in Months(init) {
        KnownMonthSizeStep(init, e);
      } else {
        NewMonthSizeStep(init, e);
      }
    }
  }

  /** Each group holds only events of its month, each taken from the input, in input order. */
  lemma GroupsAreFaithful(events: seq<Event>, month: string)
    ensures forall e :: e in Filter(events, InMonth(month)) ==> e.month == month && e in events
    ensures Sublist(Filter(events, InMonth(month)), events)
  {
    FilterIsSublist(events, InMonth(month));
  }

  predicate MatchesSearch(e: Event, term: string)
  {
    || Contains(Lower(e.title), Lower(term))
    || Contains(Lower(e.category), Lower(term))
    || Contains(Lower(e.location), Lower(term))
  }

  function SearchBy(term: string): Event -> bool
  {
    (e: Event) => MatchesSearch(e, term)
  }

  /** The empty search term matches every event. */
  lemma EmptyTermKeepsAll(events: seq<Event>)
    ensures Filter(events, SearchBy("")) == events
  {
    forall i | 0 <= i < |events|
      ensures SearchBy("")(events[i])
    {
      EmptyIsEverywhere(events[i].title);
    }
    FilterKeepsAll(events, SearchBy(""));
  }

  /** `filteredEvents`: the events whose title, category or location contains the term,
      ignoring case, in order. */
  function FilteredEvents(events: seq<Event>, term: string): (r: seq<Event>)
    ensures forall e :: e in r <==> e in events && MatchesSearch(e, term)
    ensures forall e :: multiset(r)[e] == if MatchesSearch(e, term) then multiset(events)[e] else 0
    ensures Sublist(r, events)
    ensures term == "" ==> r == events
  {
    FilterCounts(events, SearchBy(term));
    FilterIsSublist(events, SearchBy(term));
    if term == "" then EmptyTermKeepsAll(events); Filter(events, SearchBy(term))
    else Filter(events, SearchBy(term))
  }
}
