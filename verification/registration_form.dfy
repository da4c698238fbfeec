/** The public registration form: the cascading category -> date -> event
    option lists of `buildForm`, the error list of `validateForm`, and the
    insert-then-notify sequence of `submitForm`. */
module RegistrationForm {
  import opened Basics
  import opened Tables
  import opened DatabaseService
  import opened ValidationService
  import opened EmailService

  // ---- building the form ----

  /** A select element: disabled with only a placeholder, or enabled with
      options (the leading `- Select -` entry is implied). */
  datatype Select<T> = Disabled(placeholder: string) | Choices(options: seq<T>)

  datatype FormView =
    | NoEvents(message: string)
    | Fields(categories: set<string>, dates: Select<string>, names: Select<EventOption>)

  const NoEventsMessage := "There are no events available for registration at this time."

  /** `buildForm`, given the current selections as form state holds them
      (an unset value is ""). */
  function BuildForm(configs: seq<EventConfig>, today: string, selectedCategory: string, selectedDate: string)
    : (f: FormView)
    ensures f.NoEvents? <==> forall c :: c in configs ==> !IsOpen(c, today)
    ensures f.NoEvents? ==> f.message == NoEventsMessage
    ensures f.Fields? ==> forall cat :: cat in f.categories <==>
      exists c :: c in configs && IsOpen(c, today) && c.eventCategory == cat
    ensures f.Fields? ==> (f.dates.Choices? <==> Truthy(selectedCategory))
    ensures f.Fields? && !Truthy(selectedCategory) ==> f.dates == Disabled("- Select Category First -")
    ensures f.Fields? && f.dates.Choices? ==>
      f.dates.options == GetEventDatesByCategory(configs, selectedCategory, today)
    ensures f.Fields? ==> (f.names.Choices? <==> Truthy(selectedCategory) && Truthy(selectedDate))
    ensures f.Fields? && f.names.Disabled? ==> f.names.placeholder == "- Select Date First -"
    ensures f.Fields? && f.names.Choices? ==>
      f.names.options == GetEventNamesByCategoryAndDate(configs, selectedCategory, selectedDate, today)
  {
    var categories := GetEventCategories(configs, today);
    if categories == {} then
      NoEvents(NoEventsMessage)
    else
      var dates :=
        if Truthy(selectedCategory) then Choices(GetEventDatesByCategory(configs, selectedCategory, today))
        else Disabled("- Select Category First -");
      var names :=
        if Truthy(selectedCategory) && Truthy(selectedDate) then
          Choices(GetEventNamesByCategoryAndDate(configs, selectedCategory, selectedDate, today))
        else Disabled("- Select Date First -");
      Fields(categories, dates, names)
  }

  /** Whatever the selections, every offered date and event belongs to an
      open event of the selected category (and date): a stale selection can
      narrow the lists but never bring a closed event back. */
  lemma OffersOnlyOpenEvents(configs: seq<EventConfig>, today: string, selectedCategory: string, selectedDate: string)
    ensures var f := BuildForm(configs, today, selectedCategory, selectedDate);
      f.Fields? && f.dates.Choices? ==>
        forall d :: d in f.dates.options ==>
          exists c :: c in configs && c.eventCategory == selectedCategory && IsOpen(c, today) && c.eventDate == d
    ensures var f := BuildForm(configs, today, selectedCategory, selectedDate);
      f.Fields? && f.names.Choices? ==>
        forall o :: o in f.names.options ==>
          exists c :: c in configs && c.eventCategory == selectedCategory && c.eventDate == selectedDate
                       && IsOpen(c, today) && o == OptionOf(c)
  {
  }

  // ---- field labels ----

  /** `str_replace(from, to, s)` for single characters. */
  function ReplaceChar(s: string, from: char, to: char): string {
    seq(|s|, i requires 0 <= i < |s| => if s[i] == from then to else s[i])
  }

  /** `ucwords`' default word delimiters: space, tab, CR, LF, FF and VT. */
  predicate IsWordDelimiter(ch: char) {
    ch == ' ' || ch == '\t' || ch == '\r' || ch == '\n' || ch == '\U{0C}' || ch == '\U{0B}'
  }

  /** ASCII upper-casing, as PHP 8 does it. */
  function ToUpper(ch: char): char {
    if 'a' <= ch <= 'z' then (ch as int - 32) as char else ch
  }

  /** `ucwords`: upper-cases the first character and every character that
      follows a delimiter. */
  function UcWords(s: string): string {
    seq(|s|, i requires 0 <= i < |s| => if i == 0 || IsWordDelimiter(s[i - 1]) then ToUpper(s[i]) else s[i])
  }

  /** `ucwords(str_replace('_', ' ', $field))`. */
  function FieldLabel(field: string): string {
    UcWords(ReplaceChar(field, '_', ' '))
  }

  lemma FullNameLabel()
    ensures FieldLabel("full_name") == "Full Name"
  {
    assert ReplaceChar("full_name", '_', ' ') == "full name";
  }

  lemma CollegeNameLabel()
    ensures FieldLabel("college_name") == "College Name"
  {
    assert ReplaceChar("college_name", '_', ' ') == "college name";
  }

  lemma DepartmentLabel()
    ensures FieldLabel("department") == "Department"
  {
    assert ReplaceChar("department", '_', ' ') == "department";
  }

  // ---- validating ----

  /** The values of a submitted registration form. `eventName` is the
      selected event option's key, a configuration id. */
  datatype FormValues = FormValues(
    fullName: string,
    email: string,
    collegeName: string,
    department: string,
    eventCategory: string,
    eventDate: string,
    eventName: nat)

  const InvalidEmailMessage := "Please enter a valid email address."
  const DuplicateMessage :=
    "You have already registered for an event on this date. Duplicate registrations are not allowed."

  /** The three free-text fields `validateForm` checks, in its order. */
  datatype TextField = FullName | CollegeName | Department

  /** The form key of a text field. */
  function Key(f: TextField): string {
    match f
    case FullName => "full_name"
    case CollegeName => "college_name"
    case Department => "department"
  }

  function ValueOf(v: FormValues, f: TextField): string {
    match f
    case FullName => v.fullName
    case CollegeName => v.collegeName
    case Department => v.department
  }

  /** The errors `validateForm` can raise. */
  datatype FormError = InvalidEmail | InvalidText(textField: TextField) | Duplicate

  /** The form element an error is attached to. */
  function ErrorField(e: FormError): string {
    match e
    case InvalidEmail => "email"
    case InvalidText(f) => Key(f)
    case Duplicate => "email"
  }

  /** The message shown for an error; a text field's label is derived from its key. */
  function ErrorMessage(e: FormError): string {
    match e
    case InvalidEmail => InvalidEmailMessage
    case InvalidText(f) => GetTextFieldErrorMessage(FieldLabel(Key(f)))
    case Duplicate => DuplicateMessage
  }

  /** The element and message each error carries: both e-mail errors go to
      `email`, each text error to its own field with its label in the message. */
  lemma ErrorTexts()
    ensures ErrorField(InvalidEmail) == "email" && ErrorMessage(InvalidEmail) == InvalidEmailMessage
    ensures ErrorField(Duplicate) == "email" && ErrorMessage(Duplicate) == DuplicateMessage
    ensures ErrorField(InvalidText(FullName)) == "full_name"
      && ErrorMessage(InvalidText(FullName)) == GetTextFieldErrorMessage("Full Name")
    ensures ErrorField(InvalidText(CollegeName)) == "college_name"
      && ErrorMessage(InvalidText(CollegeName)) == GetTextFieldErrorMessage("College Name")
    ensures ErrorField(InvalidText(Department)) == "department"
      && ErrorMessage(InvalidText(Department)) == GetTextFieldErrorMessage("Department")
  {
    FullNameLabel();
    CollegeNameLabel();
    DepartmentLabel();
  }

  /** One step of the loop over the text fields. */
  function CheckTextField(v: FormValues, f: TextField): (errors: seq<FormError>)
    ensures errors == [] <==> ValidateTextField(ValueOf(v, f))
    ensures errors != [] ==> errors == [InvalidText(f)]
  {
    if !ValidateTextField(ValueOf(v, f)) then [InvalidText(f)] else []
  }

  /** The loop over the three text fields reports exactly the invalid ones. */
  lemma TextErrorsIff(v: FormValues)
    ensures var textErrors := CheckTextField(v, FullName) + CheckTextField(v, CollegeName) + CheckTextField(v, Department);
      && (forall f :: InvalidText(f) in textErrors <==> !ValidateTextField(ValueOf(v, f)))
      && (textErrors == [] <==> forall f :: ValidateTextField(ValueOf(v, f)))
      && |textErrors| <= 3
      && InvalidEmail !in textErrors && Duplicate !in textErrors
  {
    TextPieces(CheckTextField(v, FullName), CheckTextField(v, CollegeName), CheckTextField(v, Department));
    var a, b, c := ValueOf(v, FullName), ValueOf(v, CollegeName), ValueOf(v, Department);
    assert (forall f :: ValidateTextField(ValueOf(v, f))) <==>
      ValidateTextField(a) && ValidateTextField(b) && ValidateTextField(c);
  }

  /** The three one-or-zero pieces of the text-field loop, joined. */
  lemma TextPieces(e1: seq<FormError>, e2: seq<FormError>, e3: seq<FormError>)
    requires e1 == [] || e1 == [InvalidText(FullName)]
    requires e2 == [] || e2 == [InvalidText(CollegeName)]
    requires e3 == [] || e3 == [InvalidText(Department)]
    ensures InvalidText(FullName) in e1 + e2 + e3 <==> e1 != []
    ensures InvalidText(CollegeName) in e1 + e2 + e3 <==> e2 != []
    ensures InvalidText(Department) in e1 + e2 + e3 <==> e3 != []
    ensures e1 + e2 + e3 == [] <==> e1 == [] && e2 == [] && e3 == []
    ensures |e1 + e2 + e3| <= 3
    ensures InvalidEmail !in e1 + e2 + e3 && Duplicate !in e1 + e2 + e3
  {
  }

  /** The position of each check in `validateForm`. */
  function Rank(e: FormError): nat {
    match e
    case InvalidEmail => 0
    case InvalidText(FullName) => 1
    case InvalidText(CollegeName) => 2
    case InvalidText(Department) => 3
    case Duplicate => 4
  }

  /** Errors strictly in the order of the checks, hence each at most once. */
  predicate InCheckOrder(errors: seq<FormError>) {
    forall i, j :: 0 <= i < j < |errors| ==> Rank(errors[i]) < Rank(errors[j])
  }

  /** One more check's error, ranked after every earlier one, keeps the order. */
  lemma InCheckOrderAppend(a: seq<FormError>, b: seq<FormError>, k: nat)
    requires InCheckOrder(a) && |b| <= 1
    requires forall x :: x in a ==> Rank(x) < k
    requires forall x :: x in b ==> Rank(x) == k
    ensures InCheckOrder(a + b)
    ensures forall x :: x in a + b ==> Rank(x) <= k
  {
    var r := a + b;
    forall i, j | 0 <= i < j < |r|
      ensures Rank(r[i]) < Rank(r[j])
    {
      assert r[i] == a[i];
      if j >= |a| {
        assert r[j] == b[j - |a|];
      } else {
        assert r[j] == a[j];
      }
    }
  }

  /** The five checks, run in turn, report their errors in check order. */
  lemma ChecksInOrder(e0: seq<FormError>, e1: seq<FormError>, e2: seq<FormError>, e3: seq<FormError>,
                      e4: seq<FormError>)
    requires e0 == [] || e0 == [InvalidEmail]
    requires e1 == [] || e1 == [InvalidText(FullName)]
    requires e2 == [] || e2 == [InvalidText(CollegeName)]
    requires e3 == [] || e3 == [InvalidText(Department)]
    requires e4 == [] || e4 == [Duplicate]
    ensures InCheckOrder(e0 + (e1 + e2 + e3) + e4)
  {
    InCheckOrderAppend(e0, e1, 1);
    InCheckOrderAppend(e0 + e1, e2, 2);
    InCheckOrderAppend(e0 + e1 + e2, e3, 3);
    InCheckOrderAppend(e0 + e1 + e2 + e3, e4, 4);
    assert e0 + (e1 + e2 + e3) + e4 == e0 + e1 + e2 + e3 + e4;
  }

  /** `validateForm`: every error raised, in the order raised: the e-mail
      syntax, the three text fields, then the duplicate test. `validEmail`
      stands for PHP's e-mail syntax filter. */
  function ValidateForm(regs: seq<Registration>, v: FormValues, validEmail: string -> bool)
    : (errors: seq<FormError>)
    ensures InvalidEmail in errors <==> !validEmail(v.email)
    ensures forall f :: InvalidText(f) in errors <==> !ValidateTextField(ValueOf(v, f))
    ensures Duplicate in errors
      <==> Truthy(v.eventDate) && exists x :: x in regs && x.email == v.email && x.eventDate == v.eventDate
    ensures errors == [] <==>
      && validEmail(v.email)
      && (forall f :: ValidateTextField(ValueOf(v, f)))
      && !(Truthy(v.eventDate) && RegistrationExists(regs, v.email, v.eventDate))
    ensures |errors| <= 5
    ensures InvalidEmail in errors ==> errors[0] == InvalidEmail
    ensures Duplicate in errors ==> errors[|errors| - 1] == Duplicate
    ensures InCheckOrder(errors)
  {
    var emailErrors := if !validEmail(v.email) then [InvalidEmail] else [];
    var textErrors := CheckTextField(v, FullName) + CheckTextField(v, CollegeName) + CheckTextField(v, Department);
    var duplicateErrors :=
      if Truthy(v.eventDate) && CheckDuplicateRegistration(regs, v.email, v.eventDate) then [Duplicate] else [];
    TextErrorsIff(v);
    assert InvalidEmail !in textErrors + duplicateErrors && Duplicate !in emailErrors + textErrors;
    ChecksInOrder(emailErrors, CheckTextField(v, FullName), CheckTextField(v, CollegeName),
                  CheckTextField(v, Department), duplicateErrors);
    var errors := emailErrors + textErrors + duplicateErrors;
    assert errors == [] <==> emailErrors == [] && textErrors == [] && duplicateErrors == [];
    errors
  }

  /** Every invalid text field is reported, not just the first: a full name
      with a `#` and an empty department give two errors in one pass. */
  lemma AllInvalidFieldsReported(regs: seq<Registration>, v: FormValues, validEmail: string -> bool)
    requires v.fullName == "Anne-Marie O.#1" && v.department == ""
    ensures var errors := ValidateForm(regs, v, validEmail);
      InvalidText(FullName) in errors && InvalidText(Department) in errors
  {
    HashInNameRejected();
    EmptyTextRejected();
  }

  // ---- submitting ----

  /** The event name used in the confirmation: the configuration's name, or
      the literal "Event" when the id resolves to nothing. */
  function ResolveEventName(configs: seq<EventConfig>, id: nat): (name: string)
    ensures (forall c :: c in configs ==> c.id != id) ==> name == "Event"
    ensures (exists c :: c in configs && c.id == id) ==>
      exists c :: c in configs && c.id == id && c.eventName == name
  {
    match GetEventById(configs, id)
    case Some(event) => event.eventName
    case None => "Event"
  }

  /** The data array `submitForm` stores: the selected event option becomes
      `event_id`, the other six values are copied. */
  function RegistrationDataOf(v: FormValues): (data: RegistrationData)
    ensures data.eventId == v.eventName
    ensures data.fullName == v.fullName && data.email == v.email && data.collegeName == v.collegeName
    ensures data.department == v.department && data.eventCategory == v.eventCategory && data.eventDate == v.eventDate
  {
    RegistrationData(v.fullName, v.email, v.collegeName, v.department, v.eventCategory, v.eventDate, v.eventName)
  }

  /** `submitForm`: insert the registration, resolve the event name, send
      the confirmation. */
  method SubmitForm(regs: seq<Registration>, configs: seq<EventConfig>, outbox: seq<Mail>,
                    v: FormValues, now: int, settings: Settings)
    returns (regs': seq<Registration>, outbox': seq<Mail>)
    ensures |regs'| == |regs| + 1 && regs'[..|regs|] == regs
    ensures regs'[|regs|] == Registration(|regs| + 1, v.fullName, v.email, v.collegeName, v.department,
                                          v.eventCategory, v.eventDate, v.eventName, now)
    ensures RegistrationExists(regs', v.email, v.eventDate)
    ensures outbox' == SendConfirmationEmail(outbox, RegistrationDataOf(v), ResolveEventName(configs, v.eventName), settings)
    ensures |outbox'| > |outbox| && outbox'[|outbox|].to == v.email
  {
    var data := RegistrationDataOf(v);
    var id;
    regs', id := SaveRegistration(regs, data, now);
    var eventName := ResolveEventName(configs, v.eventName);
    outbox' := SendConfirmationEmail(outbox, data, eventName, settings);
  }

  datatype Outcome = Registered | Rejected(errors: seq<FormError>)

  /** No two rows share an email and a truthy event date: what the duplicate
      test guards. */
  predicate PairsUnique(regs: seq<Registration>) {
    forall i, j :: 0 <= i < j < |regs| && Truthy(regs[j].eventDate) ==>
      !(regs[i].email == regs[j].email && regs[i].eventDate == regs[j].eventDate)
  }

  /** Appending a row whose truthy pair is not yet stored keeps pairs unique. */
  lemma AppendKeepsPairsUnique(regs: seq<Registration>, x: Registration)
    requires PairsUnique(regs)
    requires Truthy(x.eventDate) ==> !RegistrationExists(regs, x.email, x.eventDate)
    ensures PairsUnique(regs + [x])
  {
    var r := regs + [x];
    forall i, j | 0 <= i < j < |r| && Truthy(r[j].eventDate)
      ensures !(r[i].email == r[j].email && r[i].eventDate == r[j].eventDate)
    {
      assert r[i] == regs[i];
      if j == |regs| {
        assert r[i] in regs;
      } else {
        assert r[j] == regs[j];
      }
    }
  }

  /** A form post as Drupal runs it: `validateForm`, then `submitForm` only
      when no error was raised. The two steps run one after the other; there
      is no concurrent request in this model. */
  method ProcessRegistration(regs: seq<Registration>, configs: seq<EventConfig>, outbox: seq<Mail>,
                             v: FormValues, now: int, settings: Settings, validEmail: string -> bool)
    returns (regs': seq<Registration>, outbox': seq<Mail>, outcome: Outcome)
    ensures outcome.Rejected? <==> ValidateForm(regs, v, validEmail) != []
    ensures outcome.Rejected? ==> outcome.errors == ValidateForm(regs, v, validEmail)
    ensures outcome.Rejected? ==> regs' == regs && outbox' == outbox
    ensures outcome.Registered? ==> |regs'| == |regs| + 1 && regs'[..|regs|] == regs
    ensures outcome.Registered? ==> RegistrationExists(regs', v.email, v.eventDate)
    ensures outcome.Registered? ==> |outbox'| > |outbox| && outbox'[|outbox|].to == v.email
    ensures outcome.Registered? ==>
      regs'[|regs|] == Registration(|regs| + 1, v.fullName, v.email, v.collegeName, v.department,
                                    v.eventCategory, v.eventDate, v.eventName, now)
    ensures outcome.Registered? ==>
      outbox' == SendConfirmationEmail(outbox, RegistrationDataOf(v), ResolveEventName(configs, v.eventName), settings)
    // posts through the form never store two rows with the same email and truthy date
    ensures PairsUnique(regs) ==> PairsUnique(regs')
    // the duplicate guard: a second registration for the same email and date is refused
    ensures Truthy(v.eventDate) && RegistrationExists(regs, v.email, v.eventDate) ==>
      outcome.Rejected? && Duplicate in outcome.errors
      && regs' == regs && outbox' == outbox
  {
    var errors := ValidateForm(regs, v, validEmail);
    if errors != [] {
      regs', outbox', outcome := regs, outbox, Rejected(errors);
    } else {
      regs', outbox' := SubmitForm(regs, configs, outbox, v, now, settings);
      outcome := Registered;
      if PairsUnique(regs) {
        assert regs' == regs + [regs'[|regs|]];
        AppendKeepsPairsUnique(regs, regs'[|regs|]);
      }
    }
  }

  /** Registering twice with the same email and event date: when the
      first post is accepted, the second fails on the duplicate test and
      neither stores a row nor sends a mail. */
  method RegisterTwice(regs: seq<Registration>, configs: seq<EventConfig>, outbox: seq<Mail>,
                       v: FormValues, now: int, settings: Settings, validEmail: string -> bool)
    returns (first: Outcome, second: Outcome, regs1: seq<Registration>, outbox1: seq<Mail>,
             regs2: seq<Registration>, outbox2: seq<Mail>)
    requires Truthy(v.eventDate)
    ensures first.Registered? ==> |regs1| == |regs| + 1
    ensures first.Registered? ==> second.Rejected? && Duplicate in second.errors
    ensures first.Registered? ==> regs2 == regs1 && outbox2 == outbox1
  {
    regs1, outbox1, first := ProcessRegistration(regs, configs, outbox, v, now, settings, validEmail);
    regs2, outbox2, second := ProcessRegistration(regs1, configs, outbox1, v, now, settings, validEmail);
  }
}
