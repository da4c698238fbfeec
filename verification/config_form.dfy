/** The administrator's event form: the two ordering checks of
    `validateForm` and the data mapping of `submitForm`. */
module ConfigForm {
  import opened Basics
  import opened StringOrder
  import opened Tables
  import DatabaseService

  /** The values of a submitted event form. */
  datatype ConfigValues = ConfigValues(
    eventName: string,
    eventCategory: string,
    eventDate: string,
    registrationStartDate: string,
    registrationEndDate: string)

  /** The two errors `validateForm` can raise. */
  datatype ConfigError = EndBeforeStart | EventBeforeEnd

  const EndBeforeStartMessage := "Registration end date must be after the start date."
  const EventBeforeEndMessage := "Event date must be after the registration end date."

  /** The form element an error is attached to. */
  function ErrorField(e: ConfigError): string {
    match e
    case EndBeforeStart => "registration_end_date"
    case EventBeforeEnd => "event_date"
  }

  function ErrorMessage(e: ConfigError): string {
    match e
    case EndBeforeStart => EndBeforeStartMessage
    case EventBeforeEnd => EventBeforeEndMessage
  }

  /** Each error is attached to the element whose date is out of order, with
      the message `validateForm` sets for it. */
  lemma ConfigErrorTexts()
    ensures ErrorField(EndBeforeStart) == "registration_end_date"
      && ErrorMessage(EndBeforeStart) == "Registration end date must be after the start date."
    ensures ErrorField(EventBeforeEnd) == "event_date"
      && ErrorMessage(EventBeforeEnd) == "Event date must be after the registration end date."
  {
  }

  /** `validateForm`: two independent checks, each raising its error only on
      a strict inversion, in this order. */
  function ValidateConfigForm(v: ConfigValues): (errors: seq<ConfigError>)
    ensures EndBeforeStart in errors <==> Less(v.registrationEndDate, v.registrationStartDate)
    ensures EventBeforeEnd in errors <==> Less(v.eventDate, v.registrationEndDate)
    ensures |errors| <= 2
    ensures EndBeforeStart in errors ==> errors[0] == EndBeforeStart
    ensures Distinct(errors)
    ensures errors == [] <==>
      LessEq(v.registrationStartDate, v.registrationEndDate) && LessEq(v.registrationEndDate, v.eventDate)
  {
    NotLessIsLessEq(v.registrationStartDate, v.registrationEndDate);
    NotLessIsLessEq(v.registrationEndDate, v.eventDate);
    (if Less(v.registrationEndDate, v.registrationStartDate) then [EndBeforeStart] else [])
      + (if Less(v.eventDate, v.registrationEndDate) then [EventBeforeEnd] else [])
  }

  /** Equal dates pass both checks: a one-day window closing on the event day is accepted. */
  lemma EqualDatesAccepted(name: string, category: string, date: string)
    ensures ValidateConfigForm(ConfigValues(name, category, date, date, date)) == []
  {
    LessIrreflexive(date);
  }

  /** The checks are independent: one submission can fail both. */
  lemma BothErrorsTogether()
    ensures ValidateConfigForm(ConfigValues("Demo", "Hackathon", "2026-01-01", "2026-03-01", "2026-02-01"))
      == [EndBeforeStart, EventBeforeEnd]
  {
    FebruaryBeforeMarch();
    JanuaryBeforeFebruary();
  }

  lemma FebruaryBeforeMarch()
    ensures Less("2026-02-01", "2026-03-01")
  {
    LessAtFirstDifference("2026-02-01", "2026-03-01", 6);
  }

  lemma JanuaryBeforeFebruary()
    ensures Less("2026-01-01", "2026-02-01")
  {
    LessAtFirstDifference("2026-01-01", "2026-02-01", 6);
  }

  /** Start, end and event date in order: the shape every accepted
      configuration has. */
  predicate WindowOrdered(c: EventConfig) {
    LessEq(c.registrationStartDate, c.registrationEndDate) && LessEq(c.registrationEndDate, c.eventDate)
  }

  /** The array `submitForm` hands to the store: the five values unchanged. */
  function EventDataOf(v: ConfigValues): (data: EventData)
    ensures data.eventName == v.eventName && data.eventCategory == v.eventCategory
    ensures data.eventDate == v.eventDate
    ensures data.registrationStartDate == v.registrationStartDate
    ensures data.registrationEndDate == v.registrationEndDate
  {
    EventData(v.eventName, v.eventCategory, v.eventDate, v.registrationStartDate, v.registrationEndDate)
  }

  /** `submitForm`: one new configuration row carrying the submitted values. */
  method SubmitConfigForm(configs: seq<EventConfig>, v: ConfigValues, now: int)
    returns (configs': seq<EventConfig>)
    ensures |configs'| == |configs| + 1 && configs'[..|configs|] == configs
    ensures configs'[|configs|] == EventConfig(|configs| + 1, v.eventName, v.eventCategory, v.eventDate,
                                               v.registrationStartDate, v.registrationEndDate, now)
  {
    var id;
    configs', id := DatabaseService.SaveEventConfiguration(configs, EventDataOf(v), now);
  }

  /** A form post: validate, then submit only when no error was raised.
      Accepted posts keep every stored window in order. */
  method ProcessConfigForm(configs: seq<EventConfig>, v: ConfigValues, now: int)
    returns (configs': seq<EventConfig>, errors: seq<ConfigError>)
    ensures errors == ValidateConfigForm(v)
    ensures errors != [] ==> configs' == configs
    ensures errors == [] ==> |configs'| == |configs| + 1 && configs'[..|configs|] == configs
    ensures errors == [] ==> configs'[|configs|] == EventConfig(|configs| + 1, v.eventName, v.eventCategory,
                                                              v.eventDate, v.registrationStartDate,
                                                              v.registrationEndDate, now)
    ensures errors == [] ==> WindowOrdered(configs'[|configs|])
    ensures (forall c :: c in configs ==> WindowOrdered(c)) ==> forall c :: c in configs' ==> WindowOrdered(c)
  {
    errors := ValidateConfigForm(v);
    if errors != [] {
      configs' := configs;
    } else {
      configs' := SubmitConfigForm(configs, v, now);
      assert configs' == configs + [configs'[|configs|]];
    }
  }
}
