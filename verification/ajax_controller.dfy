/** The JSON endpoints behind the cascading selects and the administrator's
    listing. Each reads its query parameters (absent is `None`), answers 400
    with an error message when a required one is falsy, and otherwise
    answers 200 with the service's result. */
module AjaxController {
  import opened Basics
  import opened StringOrder
  import opened Tables
  import opened Sorting
  import opened DatabaseService

  datatype Json =
    | ErrorBody(error: string)
    | DateList(dates: seq<string>)
    | EventList(events: seq<EventOption>)
    | RegistrationList(registrations: seq<Registration>, totalCount: nat)

  datatype JsonResponse = JsonResponse(status: nat, body: Json)

  /** `getEventDates`: needs `category`. */
  function GetEventDates(configs: seq<EventConfig>, today: string, category: Option<string>): (r: JsonResponse)
    ensures r.status == 400 <==> !OptTruthy(category)
    ensures r.status == 400 ==> r.body == ErrorBody("Category is required")
    ensures r.status != 400 ==> r.status == 200 && r.body.DateList?
    ensures r.body.DateList? ==> StrictlyAscending(r.body.dates)
    ensures r.body.DateList? ==> forall d :: d in r.body.dates <==>
      exists c :: c in configs && OffersDate(c, category.value, today) && c.eventDate == d
  {
    if !OptTruthy(category) then JsonResponse(400, ErrorBody("Category is required"))
    else JsonResponse(200, DateList(GetEventDatesByCategory(configs, category.value, today)))
  }

  /** `getEventNames`: needs both `category` and `date`. */
  function GetEventNames(configs: seq<EventConfig>, today: string, category: Option<string>, date: Option<string>)
    : (r: JsonResponse)
    ensures r.status == 400 <==> !OptTruthy(category) || !OptTruthy(date)
    ensures r.status == 400 ==> r.body == ErrorBody("Category and date are required")
    ensures r.status != 400 ==> r.status == 200 && r.body.EventList?
    ensures r.body.EventList? ==> SortedByName(r.body.events)
    ensures r.body.EventList? ==> forall o :: o in r.body.events <==>
      exists c :: c in configs && OffersEvent(c, category.value, date.value, today) && o == OptionOf(c)
    ensures r.body.EventList? ==>
      multiset(r.body.events) == multiset(OptionsOf(EventsOffered(configs, category.value, date.value, today)))
  {
    if !OptTruthy(category) || !OptTruthy(date) then
      JsonResponse(400, ErrorBody("Category and date are required"))
    else JsonResponse(200, EventList(GetEventNamesByCategoryAndDate(configs, category.value, date.value, today)))
  }

  /** `getAdminEventNames`: needs `date`; no window filter. */
  function GetAdminEventNames(configs: seq<EventConfig>, date: Option<string>): (r: JsonResponse)
    ensures r.status == 400 <==> !OptTruthy(date)
    ensures r.status == 400 ==> r.body == ErrorBody("Date is required")
    ensures r.status != 400 ==> r.status == 200 && r.body.EventList?
    ensures r.body.EventList? ==> SortedByName(r.body.events)
    ensures r.body.EventList? ==> forall o :: o in r.body.events <==>
      exists c :: c in configs && c.eventDate == date.value && o == OptionOf(c)
    ensures r.body.EventList? ==> multiset(r.body.events) == multiset(OptionsOf(EventsOn(configs, date.value)))
  {
    if !OptTruthy(date) then JsonResponse(400, ErrorBody("Date is required"))
    else JsonResponse(200, EventList(GetEventNamesByDate(configs, date.value)))
  }

  /** `getRegistrations`: no guard; the listing and its count for the same
      filters, which always agree. */
  function GetRegistrationsResponse(regs: seq<Registration>, eventDate: Option<string>, eventId: Option<nat>)
    : (r: JsonResponse)
    ensures r.status == 200 && r.body.RegistrationList?
    ensures r.body.totalCount == |r.body.registrations|
    ensures NewestFirst(r.body.registrations)
    ensures forall x :: (multiset(r.body.registrations)[x] == if MatchesFilter(x, eventDate, eventId) then multiset(regs)[x] else 0)
  {
    ParticipantCountIsListingLength(regs, eventDate, eventId);
    JsonResponse(200, RegistrationList(GetRegistrations(regs, eventDate, eventId),
                                       GetParticipantCount(regs, eventDate, eventId)))
  }
}
