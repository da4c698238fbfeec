/** The queries and inserts of the module's database service, over the two
    tables held as sequences. The current date (`today`, in `Y-m-d` form) and
    the request time (`now`) are parameters. */
module DatabaseService {
  import opened Basics
  import opened StringOrder
  import opened Tables
  import opened Sorting

  // ---- event_configuration: catalog queries ----

  /** The registration window contains `today`, both ends included. */
  predicate IsOpen(c: EventConfig, today: string) {
    LessEq(c.registrationStartDate, today) && LessEq(today, c.registrationEndDate)
  }

  /** Open configurations in a category: the rows behind the date options. */
  predicate OffersDate(c: EventConfig, category: string, today: string) {
    c.eventCategory == category && IsOpen(c, today)
  }

  /** Open configurations in a category on a date: the rows behind the name options. */
  predicate OffersEvent(c: EventConfig, category: string, date: string, today: string) {
    c.eventCategory == category && c.eventDate == date && IsOpen(c, today)
  }

  /** The event dates of some rows, in row order, duplicates kept. */
  function DatesOf(cs: seq<EventConfig>): (r: seq<string>)
    ensures forall d :: d in r <==> exists c :: c in cs && c.eventDate == d
  {
    if |cs| == 0 then []
    else
      assert cs == [cs[0]] + cs[1..];
      [cs[0].eventDate] + DatesOf(cs[1..])
  }

  /** The `(id, event_name)` entries of some rows, in row order. */
  function OptionsOf(cs: seq<EventConfig>): (r: seq<EventOption>)
    ensures |r| == |cs|
    ensures forall o :: o in r <==> exists c :: c in cs && o == OptionOf(c)
  {
    if |cs| == 0 then []
    else
      assert cs == [cs[0]] + cs[1..];
      [OptionOf(cs[0])] + OptionsOf(cs[1..])
  }

  /** `getEventCategories`: the categories having at least one open event. */
  function GetEventCategories(configs: seq<EventConfig>, today: string): (r: set<string>)
    ensures forall cat :: cat in r <==>
      exists c :: c in configs && IsOpen(c, today) && c.eventCategory == cat
    ensures r == {} <==> forall c :: c in configs ==> !IsOpen(c, today)
  {
    if |configs| == 0 then {}
    else
      assert configs == [configs[0]] + configs[1..];
      (if IsOpen(configs[0], today) then {configs[0].eventCategory} else {})
        + GetEventCategories(configs[1..], today)
  }

  /** `getEventDatesByCategory`: distinct dates of the open events of a
      category, strictly ascending. */
  function GetEventDatesByCategory(configs: seq<EventConfig>, category: string, today: string): (r: seq<string>)
    ensures StrictlyAscending(r)
    ensures forall d :: d in r <==>
      exists c :: c in configs && OffersDate(c, category, today) && c.eventDate == d
  {
    SortedDistinct(DatesOf(Filter(configs, c => OffersDate(c, category, today))))
  }

  /** The Hackathon example: one event on 2025-03-01 whose registration
      runs from 2025-01-01 to 2025-02-28. */
  const Hackathon: seq<EventConfig> :=
    [EventConfig(1, "Build-A-Thon", "Hackathon", "2025-03-01", "2025-01-01", "2025-02-28", 0)]

  /** A table of one open configuration offers exactly its date. */
  lemma OneOpenEventDates(c: EventConfig, today: string)
    requires IsOpen(c, today)
    ensures GetEventDatesByCategory([c], c.eventCategory, today) == [c.eventDate]
  {
    var r := GetEventDatesByCategory([c], c.eventCategory, today);
    assert OffersDate(c, c.eventCategory, today);
    assert forall d :: d in r <==> d in [c.eventDate];
    StrictlyAscendingUnique(r, [c.eventDate]);
  }

  /** A table of one closed configuration offers no date. */
  lemma OneClosedEventDates(c: EventConfig, today: string)
    requires !IsOpen(c, today)
    ensures GetEventDatesByCategory([c], c.eventCategory, today) == []
  {
    var r := GetEventDatesByCategory([c], c.eventCategory, today);
    assert forall d :: d in r <==> d in [];
    StrictlyAscendingUnique(r, []);
  }

  /** The window has opened by 2025-02-15. */
  lemma HackathonStarted()
    ensures Less("2025-01-01", "2025-02-15")
  {
    LessAtFirstDifference("2025-01-01", "2025-02-15", 6);
  }

  /** The window is still open on 2025-02-15. */
  lemma HackathonNotEnded()
    ensures Less("2025-02-15", "2025-02-28")
  {
    LessAtFirstDifference("2025-02-15", "2025-02-28", 8);
  }

  /** The window has closed by 2025-03-10. */
  lemma HackathonEnded()
    ensures Less("2025-02-28", "2025-03-10")
  {
    LessAtFirstDifference("2025-02-28", "2025-03-10", 6);
  }

  /** Inside the window its date is the one date offered. */
  lemma HackathonOpen()
    ensures GetEventDatesByCategory(Hackathon, "Hackathon", "2025-02-15") == ["2025-03-01"]
  {
    HackathonStarted();
    HackathonNotEnded();
    OneOpenEventDates(Hackathon[0], "2025-02-15");
  }

  /** After the window closes the date is no longer offered. */
  lemma HackathonClosed()
    ensures GetEventDatesByCategory(Hackathon, "Hackathon", "2025-03-10") == []
  {
    HackathonEnded();
    LessAsymmetric("2025-02-28", "2025-03-10");
    OneClosedEventDates(Hackathon[0], "2025-03-10");
  }

  /** The rows `getEventNamesByCategoryAndDate` selects, in table order. */
  function EventsOffered(configs: seq<EventConfig>, category: string, date: string, today: string)
    : seq<EventConfig>
  {
    Filter(configs, c => OffersEvent(c, category, date, today))
  }

  /** `getEventNamesByCategoryAndDate`: the open events of a category on a
      date, as `(id, name)` entries ordered by name, one per matching row. */
  function GetEventNamesByCategoryAndDate(configs: seq<EventConfig>, category: string, date: string, today: string)
    : (r: seq<EventOption>)
    ensures SortedByName(r)
    ensures forall o :: o in r <==>
      exists c :: c in configs && OffersEvent(c, category, date, today) && o == OptionOf(c)
    ensures |r| == |EventsOffered(configs, category, date, today)|
    ensures multiset(r) == multiset(OptionsOf(EventsOffered(configs, category, date, today)))
  {
    var opts := OptionsOf(EventsOffered(configs, category, date, today));
    var r := SortByName(opts);
    assert forall o :: o in r <==> o in opts by {
      forall o
        ensures o in r <==> o in opts
      {
        assert o in r <==> o in multiset(r);
      }
    }
    r
  }

  /** `getEventById`: the row with that id, if any. */
  function GetEventById(configs: seq<EventConfig>, id: nat): (r: Option<EventConfig>)
    ensures r.Some? ==> r.value in configs && r.value.id == id
    ensures r.None? <==> forall c :: c in configs ==> c.id != id
  {
    if |configs| == 0 then None
    else if configs[0].id == id then Some(configs[0])
    else
      assert configs == [configs[0]] + configs[1..];
      GetEventById(configs[1..], id)
  }

  /** With auto-increment ids, a lookup hits exactly the ids 1..|configs|. */
  lemma GetEventByIdDense(configs: seq<EventConfig>, id: nat)
    requires ConfigIdsDense(configs)
    ensures GetEventById(configs, id) == if 1 <= id <= |configs| then Some(configs[id - 1]) else None
  {
    var r := GetEventById(configs, id);
    if r.Some? {
      var k :| 0 <= k < |configs| && configs[k] == r.value;
      assert configs[k].id == k + 1;
    } else if 1 <= id <= |configs| {
      // row id - 1 carries this id, so the lookup cannot miss
      IndexIsMember(configs, id - 1);
      assert false;
    }
  }

  /** `getAllEventDates`: every distinct event date, newest first, with no
      window filter. */
  function GetAllEventDates(configs: seq<EventConfig>): (r: seq<string>)
    ensures StrictlyDescending(r)
    ensures forall d :: d in r <==> exists c :: c in configs && c.eventDate == d
  {
    Reverse(SortedDistinct(DatesOf(configs)))
  }

  /** The rows `getEventNamesByDate` selects, in table order. */
  function EventsOn(configs: seq<EventConfig>, date: string): seq<EventConfig> {
    Filter(configs, (c: EventConfig) => c.eventDate == date)
  }

  /** `getEventNamesByDate`: every event on a date, ordered by name, one entry
      per row, with no window filter. */
  function GetEventNamesByDate(configs: seq<EventConfig>, date: string): (r: seq<EventOption>)
    ensures SortedByName(r)
    ensures forall o :: o in r <==> exists c :: c in configs && c.eventDate == date && o == OptionOf(c)
    ensures |r| == |EventsOn(configs, date)|
    ensures multiset(r) == multiset(OptionsOf(EventsOn(configs, date)))
  {
    var opts := OptionsOf(EventsOn(configs, date));
    var r := SortByName(opts);
    assert forall o :: o in r <==> o in opts by {
      forall o
        ensures o in r <==> o in opts
      {
        assert o in r <==> o in multiset(r);
      }
    }
    r
  }

  // ---- each event is listed once ----

  /** Ids increase along the table, as auto-increment ids do. */
  predicate IdsAscending(cs: seq<EventConfig>) {
    forall i, j :: 0 <= i < j < |cs| ==> cs[i].id < cs[j].id
  }

  /** Dropping rows keeps the remaining ids increasing. */
  lemma {:induction false} FilterKeepsIdsAscending(cs: seq<EventConfig>, p: EventConfig -> bool)
    requires IdsAscending(cs)
    ensures IdsAscending(Filter(cs, p))
  {
    if |cs| > 0 {
      var tail := cs[1..];
      TailIdsAscending(cs);
      FilterKeepsIdsAscending(tail, p);
      var rest := Filter(tail, p);
      assert cs == [cs[0]] + tail;
      if p(cs[0]) {
        assert forall k :: 0 <= k < |rest| ==> rest[k] in tail;
        IdsAscendingCons(cs[0], rest);
      }
    }
  }

  /** Below the first row ids still increase, and all exceed the first id. */
  lemma TailIdsAscending(cs: seq<EventConfig>)
    requires IdsAscending(cs) && |cs| > 0
    ensures IdsAscending(cs[1..])
    ensures forall x :: x in cs[1..] ==> cs[0].id < x.id
  {
    var tail := cs[1..];
    forall i, j | 0 <= i < j < |tail|
      ensures tail[i].id < tail[j].id
    {
      assert tail[i] == cs[i + 1] && tail[j] == cs[j + 1];
    }
    forall x | x in tail
      ensures cs[0].id < x.id
    {
      var k :| 0 <= k < |tail| && tail[k] == x;
      assert tail[k] == cs[k + 1];
    }
  }

  /** A row placed before rows of larger ids keeps the ids increasing. */
  lemma IdsAscendingCons(c: EventConfig, rest: seq<EventConfig>)
    requires IdsAscending(rest)
    requires forall k :: 0 <= k < |rest| ==> c.id < rest[k].id
    ensures IdsAscending([c] + rest)
  {
    var r := [c] + rest;
    forall i, j | 0 <= i < j < |r|
      ensures r[i].id < r[j].id
    {
      assert r[j] == rest[j - 1];
      if i > 0 {
        assert r[i] == rest[i - 1];
      }
    }
  }

  /** Entry `i` of the options is the option of row `i`. */
  lemma {:induction false} OptionsOfAt(cs: seq<EventConfig>)
    ensures forall i :: 0 <= i < |cs| ==> OptionsOf(cs)[i] == OptionOf(cs[i])
  {
    if |cs| > 0 {
      OptionsOfAt(cs[1..]);
      assert OptionsOf(cs) == [OptionOf(cs[0])] + OptionsOf(cs[1..]);
    }
  }

  /** Rows with increasing ids give pairwise different options. */
  lemma DistinctOptions(cs: seq<EventConfig>)
    requires IdsAscending(cs)
    ensures Distinct(OptionsOf(cs))
  {
    OptionsOfAt(cs);
  }

  /** With auto-increment ids, `getEventNamesByCategoryAndDate` lists each
      event once. */
  lemma EventNamesListedOnce(configs: seq<EventConfig>, category: string, date: string, today: string)
    requires ConfigIdsDense(configs)
    ensures Distinct(GetEventNamesByCategoryAndDate(configs, category, date, today))
  {
    var rows := EventsOffered(configs, category, date, today);
    FilterKeepsIdsAscending(configs, c => OffersEvent(c, category, date, today));
    DistinctOptions(rows);
    PermutationKeepsDistinct(OptionsOf(rows), GetEventNamesByCategoryAndDate(configs, category, date, today));
  }

  /** With auto-increment ids, `getEventNamesByDate` lists each event once. */
  lemma AdminEventNamesListedOnce(configs: seq<EventConfig>, date: string)
    requires ConfigIdsDense(configs)
    ensures Distinct(GetEventNamesByDate(configs, date))
  {
    var rows := EventsOn(configs, date);
    FilterKeepsIdsAscending(configs, (c: EventConfig) => c.eventDate == date);
    DistinctOptions(rows);
    PermutationKeepsDistinct(OptionsOf(rows), GetEventNamesByDate(configs, date));
  }

  /** `saveEventConfiguration`: appends one row carrying the five supplied
      values, the next id and the request time. */
  method SaveEventConfiguration(configs: seq<EventConfig>, data: EventData, now: int)
    returns (configs': seq<EventConfig>, id: nat)
    ensures id == |configs| + 1
    ensures |configs'| == |configs| + 1 && configs'[..|configs|] == configs
    ensures configs'[|configs|] == EventConfig(id, data.eventName, data.eventCategory, data.eventDate,
                                               data.registrationStartDate, data.registrationEndDate, now)
    ensures ConfigIdsDense(configs) ==> ConfigIdsDense(configs')
    ensures GetEventById(configs', id).Some?
    ensures ConfigIdsDense(configs) ==> GetEventById(configs', id) == Some(configs'[|configs|])
  {
    id := |configs| + 1;
    var row := EventConfig(id, data.eventName, data.eventCategory, data.eventDate,
                           data.registrationStartDate, data.registrationEndDate, now);
    configs' := configs + [row];
    assert row in configs';
    if ConfigIdsDense(configs) {
      GetEventByIdDense(configs', id);
    }
  }

  // ---- event_registration ----

  /** `registrationExists`: some row has exactly this email and event date. */
  function RegistrationExists(regs: seq<Registration>, email: string, eventDate: string): (b: bool)
    ensures b <==> exists x :: x in regs && x.email == email && x.eventDate == eventDate
  {
    if |regs| == 0 then false
    else
      assert regs == [regs[0]] + regs[1..];
      (regs[0].email == email && regs[0].eventDate == eventDate)
        || RegistrationExists(regs[1..], email, eventDate)
  }

  /** `saveRegistration`: appends one row with no duplicate check. */
  method SaveRegistration(regs: seq<Registration>, data: RegistrationData, now: int)
    returns (regs': seq<Registration>, id: nat)
    ensures id == |regs| + 1
    ensures |regs'| == |regs| + 1 && regs'[..|regs|] == regs
    ensures regs'[|regs|] == Registration(id, data.fullName, data.email, data.collegeName, data.department,
                                          data.eventCategory, data.eventDate, data.eventId, now)
    ensures RegistrationExists(regs', data.email, data.eventDate)
    ensures RegistrationIdsDense(regs) ==> RegistrationIdsDense(regs')
  {
    id := |regs| + 1;
    var row := Registration(id, data.fullName, data.email, data.collegeName, data.department,
                            data.eventCategory, data.eventDate, data.eventId, now);
    regs' := regs + [row];
    assert row in regs';
  }

  /** The admin filter: each filter that is present and truthy must match. */
  predicate MatchesFilter(x: Registration, dateFilter: Option<string>, idFilter: Option<nat>) {
    && (OptTruthy(dateFilter) ==> x.eventDate == dateFilter.value)
    && (IdTruthy(idFilter) ==> x.eventId == idFilter.value)
  }

  /** The rows matching the admin filter, in table order. */
  function Matching(regs: seq<Registration>, dateFilter: Option<string>, idFilter: Option<nat>)
    : seq<Registration>
  {
    Filter(regs, x => MatchesFilter(x, dateFilter, idFilter))
  }

  /** `getRegistrations`: the matching rows, newest first. */
  function GetRegistrations(regs: seq<Registration>, dateFilter: Option<string>, idFilter: Option<nat>)
    : (r: seq<Registration>)
    ensures NewestFirst(r)
    ensures forall x :: multiset(r)[x] == (if MatchesFilter(x, dateFilter, idFilter) then multiset(regs)[x] else 0)
  {
    SortNewestFirst(Matching(regs, dateFilter, idFilter))
  }

  /** `getParticipantCount`: a count of the matching rows, one by one. */
  function GetParticipantCount(regs: seq<Registration>, dateFilter: Option<string>, idFilter: Option<nat>)
    : (n: nat)
    ensures n == |Matching(regs, dateFilter, idFilter)|
    ensures n == 0 <==> forall x :: x in regs ==> !MatchesFilter(x, dateFilter, idFilter)
  {
    if |regs| == 0 then 0
    else
      assert regs == [regs[0]] + regs[1..];
      (if MatchesFilter(regs[0], dateFilter, idFilter) then 1 else 0)
        + GetParticipantCount(regs[1..], dateFilter, idFilter)
  }

  /** The count agrees with the listing for every filter combination. */
  lemma ParticipantCountIsListingLength(regs: seq<Registration>, dateFilter: Option<string>, idFilter: Option<nat>)
    ensures GetParticipantCount(regs, dateFilter, idFilter) == |GetRegistrations(regs, dateFilter, idFilter)|
  {
    var m := Matching(regs, dateFilter, idFilter);
    assert multiset(SortNewestFirst(m)) == multiset(m);
    assert |multiset(SortNewestFirst(m))| == |SortNewestFirst(m)|;
  }
}
