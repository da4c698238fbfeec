/** The two tables of the module, `event_configuration` and
    `event_registration`, as sequences of immutable rows in insertion order. */
module Tables {

  /** One row of `event_configuration`. Dates are `Y-m-d` strings;
      `created` is the request time of the insert. */
  datatype EventConfig = EventConfig(
    id: nat,
    eventName: string,
    eventCategory: string,
    eventDate: string,
    registrationStartDate: string,
    registrationEndDate: string,
    created: int)

  /** One row of `event_registration`. `eventId` refers to a configuration
      id but nothing enforces that such a configuration exists. */
  datatype Registration = Registration(
    id: nat,
    fullName: string,
    email: string,
    collegeName: string,
    department: string,
    eventCategory: string,
    eventDate: string,
    eventId: nat,
    created: int)

  /** The five values an administrator supplies for a new event. */
  datatype EventData = EventData(
    eventName: string,
    eventCategory: string,
    eventDate: string,
    registrationStartDate: string,
    registrationEndDate: string)

  /** The seven values the registration form stores for a registrant. */
  datatype RegistrationData = RegistrationData(
    fullName: string,
    email: string,
    collegeName: string,
    department: string,
    eventCategory: string,
    eventDate: string,
    eventId: nat)

  /** An `(id, event_name)` entry of an event-name option list. */
  datatype EventOption = EventOption(id: nat, name: string)

  function OptionOf(c: EventConfig): EventOption {
    EventOption(c.id, c.eventName)
  }

  /** Auto-increment ids: row `i` carries id `i + 1` (rows are never deleted). */
  predicate ConfigIdsDense(t: seq<EventConfig>) {
    forall i :: 0 <= i < |t| ==> t[i].id == i + 1
  }

  predicate RegistrationIdsDense(t: seq<Registration>) {
    forall i :: 0 <= i < |t| ==> t[i].id == i + 1
  }
}
