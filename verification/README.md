# Event registration, modelled in Dafny

A model of the Drupal `event_registration` module. Administrators configure
events, each with a name, a category, an event date and a registration
window. Visitors register through a form whose category, date and event
selects narrow one another. Every registration is stored and confirmed by
e-mail, and administrators list, count and export the registrations as CSV.

The two database tables, `event_configuration` and `event_registration`, are
sequences of immutable rows in insertion order. Ids are auto-increment: row
`i` carries id `i + 1`. The current date (`today`, a `Y-m-d` string) and the
request time (`now`) are parameters. Dates and names are strings compared
byte-wise (`StringOrder.Less`), and text columns are matched by exact
equality. For fixed-width `Y-m-d` dates byte order is chronological order,
which is also PHP's `<` between two such strings. For names, categories and
e-mail addresses, byte order and exact equality stand in for the database's
column collation: a case-insensitive collation sorts `apple` before `Banana`
and matches e-mails regardless of case, and that is left out (see below).
The three sorts of the queries are insertion sorts. Their contracts claim
only what SQL promises. The date lists (`DISTINCT ... ORDER BY`) are exactly
the distinct matching values, each once, in order. The name lists and the
registration listing are in order and are a permutation of the matching
rows (for the name lists, of the matching rows' `(id, name)` entries).

PHP truthiness is explicit. A request or form string is truthy unless it is
`""` or `"0"`, and a missing parameter is `None`.

| file | module | models |
|---|---|---|
| basics.dfy | `Basics` | `Option`, truthiness, an order-preserving filter |
| string_order.dfy | `StringOrder` | byte-wise string order, a strict total order |
| tables.dfy | `Tables` | the rows of the two tables, the insert arrays |
| sorting.dfy | `Sorting` | `DISTINCT ... ASC`, `ORDER BY event_name ASC`, `ORDER BY created DESC` |
| database_service.dfy | `DatabaseService` | `EventRegistrationDatabaseService` |
| validation_service.dfy | `ValidationService` | `EventRegistrationValidationService` |
| email_service.dfy | `EmailService` | `EventRegistrationEmailService`, with sends appended to an outbox |
| registration_form.dfy | `RegistrationForm` | `EventRegistrationForm` |
| config_form.dfy | `ConfigForm` | `EventConfigForm` |
| csv.dfy | `Csv` | the export's CSV encoding and a reader for it |
| listing_controller.dfy | `ListingController` | `RegistrationListingController::exportCsv` |
| ajax_controller.dfy | `AjaxController` | `AjaxController` |

## Model

| member | source | states |
|---|---|---|
| Sorting.SortedDistinct | event_registration/src/Service/EventRegistrationDatabaseService.php:79-84 | `DISTINCT ... ORDER BY ASC`: the result is strictly ascending and holds exactly the values of the input |
| Sorting.SortByName | event_registration/src/Service/EventRegistrationDatabaseService.php:108 | `ORDER BY event_name ASC`: non-decreasing by name, and a permutation of the input |
| Sorting.SortNewestFirst | event_registration/src/Service/EventRegistrationDatabaseService.php:192 | `ORDER BY created DESC`: non-increasing by creation time, and a permutation of the input |
| DatabaseService.GetEventCategories | event_registration/src/Service/EventRegistrationDatabaseService.php:57-66 | a category is returned iff some configuration of it has `start <= today <= end`, both ends inclusive; the result is empty iff no window is open |
| DatabaseService.GetEventDatesByCategory | event_registration/src/Service/EventRegistrationDatabaseService.php:77-88 | strictly ascending, with no duplicates; a date is listed iff an open configuration of the category has that date |
| DatabaseService.OneOpenEventDates | event_registration/src/Service/EventRegistrationDatabaseService.php:77-88 | a table holding one configuration whose window contains today offers exactly that configuration's date in its category |
| DatabaseService.OneClosedEventDates | event_registration/src/Service/EventRegistrationDatabaseService.php:77-88 | a table holding one configuration whose window does not contain today offers no date |
| DatabaseService.HackathonOpen | event_registration/src/Service/EventRegistrationDatabaseService.php:77-88 | a Hackathon event on 2025-03-01 with window 2025-01-01..2025-02-28 is offered, as the only date, on 2025-02-15 |
| DatabaseService.HackathonClosed | event_registration/src/Service/EventRegistrationDatabaseService.php:77-88 | the same event is no longer offered on 2025-03-10, once its window has closed |
| DatabaseService.GetEventNamesByCategoryAndDate | event_registration/src/Service/EventRegistrationDatabaseService.php:101-112 | ordered by name; an `(id, name)` entry is listed iff an open configuration with that category and date has it, so a closed event never appears; the result is a permutation of the matching rows' entries, one per row, as `fetchAllKeyed` returns them |
| DatabaseService.EventNamesListedOnce | event_registration/src/Service/EventRegistrationDatabaseService.php:101-112 | with auto-increment ids no entry of the list is repeated |
| DatabaseService.GetEventById | event_registration/src/Service/EventRegistrationDatabaseService.php:206-212 | a hit is a stored row with the requested id; the lookup misses iff no row has that id |
| DatabaseService.GetEventByIdDense | event_registration/src/Service/EventRegistrationDatabaseService.php:206-212 | with auto-increment ids, the lookup finds row `id - 1` for ids `1..n` and misses every other id |
| DatabaseService.GetAllEventDates | event_registration/src/Service/EventRegistrationDatabaseService.php:220-228 | strictly descending, with no duplicates; every stored event date is listed and no window filter applies |
| DatabaseService.GetEventNamesByDate | event_registration/src/Service/EventRegistrationDatabaseService.php:239-246 | ordered by name; every configuration on the date is listed, whatever its window; the result is a permutation of the entries of the rows on that date, one per row |
| DatabaseService.AdminEventNamesListedOnce | event_registration/src/Service/EventRegistrationDatabaseService.php:239-246 | with auto-increment ids no entry of the list is repeated |
| DatabaseService.SaveEventConfiguration | event_registration/src/Service/EventRegistrationDatabaseService.php:38-48 | appends one row with the five values, the next id and the request time; earlier rows are unchanged; the lookup of the new id finds something, and with auto-increment ids it returns exactly the new row |
| DatabaseService.RegistrationExists | event_registration/src/Service/EventRegistrationDatabaseService.php:149-157 | true iff some row has exactly this email and this event date, with no normalisation |
| DatabaseService.SaveRegistration | event_registration/src/Service/EventRegistrationDatabaseService.php:123-136 | appends one row with no duplicate check and leaves earlier rows unchanged; afterwards `RegistrationExists(email, event_date)` holds |
| DatabaseService.GetRegistrations | event_registration/src/Service/EventRegistrationDatabaseService.php:170-195 | a permutation of the rows that pass each truthy filter, where an absent or falsy filter is ignored; sorted newest first |
| DatabaseService.GetParticipantCount | event_registration/src/Service/EventRegistrationDatabaseService.php:259-272 | the count is the number of rows passing the truthy filters, and it is zero iff no stored row passes them |
| DatabaseService.ParticipantCountIsListingLength | event_registration/src/Service/EventRegistrationDatabaseService.php:259-272 | for every filter combination, the count equals the length of the listing |
| ValidationService.ValidateTextField | event_registration/src/Service/EventRegistrationValidationService.php:51-54 | an accepted text is non-empty and made only of class characters (the converse is `ValidateTextFieldIff`) |
| ValidationService.ValidateTextFieldIff | event_registration/src/Service/EventRegistrationValidationService.php:51-54 | a text passes iff it is non-empty and every character is an ASCII letter, an ASCII digit, PCRE whitespace, `.` or `-` |
| ValidationService.EmptyTextRejected | event_registration/src/Service/EventRegistrationValidationService.php:53 | the empty text is rejected, because of the `+` quantifier |
| ValidationService.ForbiddenCharRejected | event_registration/src/Service/EventRegistrationValidationService.php:53 | one character outside the class, anywhere in the text, rejects the whole text |
| ValidationService.PunctuationNotAllowed | event_registration/src/Service/EventRegistrationValidationService.php:52-53 | comma, `#`, apostrophe and every non-ASCII character are outside the class, although the comment at line 52 names the comma |
| ValidationService.ValidTextConcat | event_registration/src/Service/EventRegistrationValidationService.php:53 | two valid texts concatenated give a valid text |
| ValidationService.HashInNameRejected | event_registration/src/Service/EventRegistrationValidationService.php:53 | `Anne-Marie O.#1` is rejected |
| ValidationService.GetTextFieldErrorMessage | event_registration/src/Service/EventRegistrationValidationService.php:80-82 | the message starts with `The ` followed by the field name |
| ValidationService.TextFieldErrorMessageNamesField | event_registration/src/Service/EventRegistrationValidationService.php:80-82 | the message is `The ` + name + ` field contains invalid characters. ...`, and different names give different messages |
| ValidationService.CheckDuplicateRegistration | event_registration/src/Service/EventRegistrationValidationService.php:67-69 | true iff a registration with this exact email and date exists, as the store's test says |
| EmailService.BuildEmailBody | event_registration/src/Service/EventRegistrationEmailService.php:87-101 | the body always closes with the signature `Event Management Team`, whatever the values; its full line structure is `EmailBodyLines` |
| EmailService.SendEmail | event_registration/src/Service/EventRegistrationEmailService.php:113-130 | one message with the given recipient, subject and body is handed over, after all earlier ones |
| EmailService.SendConfirmationEmail | event_registration/src/Service/EventRegistrationEmailService.php:48-74 | one or two mails are appended and earlier ones kept; the first goes to the registrant with subject `Event Registration Confirmation - ` + name; a second is sent iff the flag is set and true and the admin address is truthy; it has subject `New Event Registration - ` + name and the same body |
| EmailService.EmailBodyLines | event_registration/src/Service/EventRegistrationEmailService.php:87-101 | when no value holds a line feed, the body splits into the greeting, a blank line, the intro, a blank line, the Name, Event Name, Event Date, Category, College and Department lines in that order, a blank line, the closing, a blank line and the two signature lines |
| RegistrationForm.BuildForm | event_registration/src/Form/EventRegistrationForm.php:81-197 | there is only the no-events message iff no window is open; the category options are the open categories; dates are fetched iff a category is selected, otherwise the select is disabled with `- Select Category First -`; names are fetched iff both a category and a date are selected, otherwise the select is disabled with `- Select Date First -` |
| RegistrationForm.OffersOnlyOpenEvents | event_registration/src/Form/EventRegistrationForm.php:140-190 | whatever the selections, every offered date and event comes from an open event of the selected category and date |
| RegistrationForm.FullNameLabel | event_registration/src/Form/EventRegistrationForm.php:236 | `ucwords(str_replace('_', ' ', 'full_name'))` is `Full Name` |
| RegistrationForm.CollegeNameLabel | event_registration/src/Form/EventRegistrationForm.php:236 | the label of `college_name` is `College Name` |
| RegistrationForm.DepartmentLabel | event_registration/src/Form/EventRegistrationForm.php:236 | the label of `department` is `Department` |
| RegistrationForm.ErrorTexts | event_registration/src/Form/EventRegistrationForm.php:226-246 | both e-mail errors are attached to `email`; each text error is attached to its own field, and its message carries that field's label |
| RegistrationForm.ValidateForm | event_registration/src/Form/EventRegistrationForm.php:222-247 | an invalid e-mail gives an e-mail error; each invalid text field gives its own error; a duplicate error is raised iff the date is truthy and a row with this email and date exists; there are no errors iff all these checks pass; the errors are strictly in the order of the checks (e-mail, full name, college name, department, duplicate), so each appears at most once |
| RegistrationForm.AllInvalidFieldsReported | event_registration/src/Form/EventRegistrationForm.php:232-238 | a full name with `#` and an empty department are both reported in the same validation |
| RegistrationForm.ResolveEventName | event_registration/src/Form/EventRegistrationForm.php:269-270 | the name of the configuration with the selected id, or the literal `Event` when the lookup misses |
| RegistrationForm.RegistrationDataOf | event_registration/src/Form/EventRegistrationForm.php:255-263 | the selected `event_name` option becomes `event_id`; the other six values are copied unchanged |
| RegistrationForm.SubmitForm | event_registration/src/Form/EventRegistrationForm.php:252-274 | the registration is inserted with the next id and the request time, and the registrant's confirmation follows, using the resolved event name |
| RegistrationForm.ProcessRegistration | event_registration/src/Form/EventRegistrationForm.php:222-274 | a post with any error changes neither the store nor the outbox; an accepted post appends exactly the submitted row (next id, request time) and the outbox becomes exactly the confirmation send for the resolved event name, so the admin copy goes out only when enabled; a post whose email and truthy date are already registered is always rejected with the duplicate error; posts never create two rows with the same email and truthy date |
| RegistrationForm.RegisterTwice | event_registration/src/Form/EventRegistrationForm.php:241-246 | after an accepted registration, the same email and date again are rejected with the duplicate error, with no insert and no mail |
| ConfigForm.ValidateConfigForm | event_registration/src/Form/EventConfigForm.php:101-117 | the end-date error is raised iff `end < start`; the event-date error is raised iff `event_date < end`; there are no errors iff `start <= end <= event_date`; each error appears at most once, the end-date error first |
| ConfigForm.ConfigErrorTexts | event_registration/src/Form/EventConfigForm.php:107-116 | the end-date error is attached to `registration_end_date` and the event-date error to `event_date`, each with its exact message |
| ConfigForm.EqualDatesAccepted | event_registration/src/Form/EventConfigForm.php:107-116 | `start == end == event_date` passes both checks |
| ConfigForm.BothErrorsTogether | event_registration/src/Form/EventConfigForm.php:107-116 | the checks are independent: one submission can raise both errors, in order |
| ConfigForm.EventDataOf | event_registration/src/Form/EventConfigForm.php:125-131 | the five values are passed on unchanged |
| ConfigForm.SubmitConfigForm | event_registration/src/Form/EventConfigForm.php:122-136 | one configuration row is appended, carrying the submitted values |
| ConfigForm.ProcessConfigForm | event_registration/src/Form/EventConfigForm.php:101-136 | a rejected post changes nothing; an accepted one appends exactly one row carrying the submitted values, the next id and the request time, and its window is ordered, so a store of ordered windows stays ordered |
| Csv.ParseDocumentEncode | event_registration/src/Controller/RegistrationListingController.php:138-143 | reading the encoded text with RFC 4180 quoting gives back exactly the records, whatever the fields contain |
| Csv.UnquoteQuoteField | event_registration/src/Controller/RegistrationListingController.php:141 | stripping the outer quotes and collapsing `""` to `"` recovers the original field |
| Csv.ParseRecordEncode | event_registration/src/Controller/RegistrationListingController.php:140-142 | a record is its quoted fields joined by commas and ended by a line feed, and it reads back as those fields |
| Csv.QuoteField | event_registration/src/Controller/RegistrationListingController.php:140-142 | a quoted field is the text between an opening and a closing double quote, at least two characters longer than the field |
| Csv.EncodeDocument | event_registration/src/Controller/RegistrationListingController.php:138-143 | the file is empty iff there are no records, and otherwise ends with the last record's line feed |
| Csv.QuoteTwoInnerQuotes | event_registration/src/Controller/RegistrationListingController.php:141 | a field such as `Jane "J" O'Brien` is written `"Jane ""J"" O'Brien"` |
| ListingController.NatToString | event_registration/src/Controller/RegistrationListingController.php:126 | the id column holds decimal digits with no leading zero; `0` is written as `0` |
| ListingController.DecimalRoundTrip | event_registration/src/Controller/RegistrationListingController.php:126 | the written id reads back as the id |
| ListingController.ExportCsv | event_registration/src/Controller/RegistrationListingController.php:102-151 | the file reads back as the header followed by one record per listed registration, in listing order |
| ListingController.CsvRows | event_registration/src/Controller/RegistrationListingController.php:121-135 | one record per registration, in listing order, record `i` built from registration `i` |
| ListingController.CsvRowsMatchRegistrations | event_registration/src/Controller/RegistrationListingController.php:110-135 | every record has the eight header columns; each column holds the registration's matching value, with column six the category and the last column the formatted submission time |
| ListingController.ExportReadsBack | event_registration/src/Controller/RegistrationListingController.php:106-143 | the header is `ID, Full Name, Email, College Name, Department, Event Category, Event Date, Submission Date`; it is followed by as many records as the participant count for the same filters |
| ListingController.ExportEmptyListing | event_registration/src/Controller/RegistrationListingController.php:109-143 | with no matching registration, the file is exactly the header record and its line feed |
| AjaxController.GetEventDates | event_registration/src/Controller/AjaxController.php:51-61 | a 400 with `Category is required` iff `category` is missing or falsy; otherwise a 200 with the category's open dates, ascending |
| AjaxController.GetEventNames | event_registration/src/Controller/AjaxController.php:72-83 | a 400 with `Category and date are required` unless both are truthy; otherwise a 200 with the open events, by name, a permutation of the matching rows' entries |
| AjaxController.GetAdminEventNames | event_registration/src/Controller/AjaxController.php:94-104 | a 400 with `Date is required` iff `date` is missing or falsy; otherwise a 200 with every event on the date, by name, a permutation of those rows' entries |
| AjaxController.GetRegistrationsResponse | event_registration/src/Controller/AjaxController.php:115-126 | always a 200; `total_count` equals the number of registrations returned, which are the filtered rows, newest first |

## Left out

- E-mail syntax: PHP's `filter_var(..., FILTER_VALIDATE_EMAIL)` is a built-in. Callers pass it as the predicate `validEmail`.
- The clock: `date('Y-m-d')` and the request time are the parameters `today` and `now`.
- Timestamp formatting: `date('Y-m-d H:i:s', created)` in the export is the parameter `formatTime`, so the time zone is not modelled.
- The export file name: it is an HTTP header that carries the current time.
- The database layer:
  - The Drupal database API, PDO and `countQuery`: each query is modelled by the rows it returns and their order.
  - Where SQL leaves the order of ties open, the model picks one order and claims only the order and the permutation.
  - Column collation is not modelled. Comparisons and `ORDER BY` use exact, case-sensitive byte order, so a case-insensitive collation's order of names and its case-blind e-mail match in `registrationExists` are not captured.
- Non-numeric strings and numeric strings:
  - A non-numeric `event_id` string from a request is not modelled; ids are `Option<nat>`.
  - PHP compares two numeric strings numerically. `Y-m-d` dates are never numeric strings, so byte-wise order is used throughout.
- DatabaseService.GetRegistrations: the `event_id` filter is an `Option<nat>` whose truthiness is `Basics.IdTruthy`, so id 0 is falsy and drops the filter. A request string such as `00`, `0.0` or ` 0` is truthy in PHP, so the source adds `event_id = '00'`, which SQL compares numerically with 0 and which matches no row; the model, reading that string as id 0, returns every row instead. The same holds for `GetParticipantCount`, `ListingController.ExportCsv` and `AjaxController.GetRegistrationsResponse`, which pass the filter on.
- Auto-increment gaps: ids are dense because the model never deletes rows.
- The race between `validateForm` and `submitForm`: a post's two steps run one after the other, with no other request in between.
- Drupal's form machinery:
  - Element-level validation (`#required`, select options, the date element) is not modelled.
  - `setErrorByName` keeps only the first error per element. The model returns every error raised, in order, so an invalid e-mail that is also a duplicate shows both errors here.
  - Render arrays, the AJAX `ReplaceCommand` callbacks, the messenger and `t()` translation are not modelled.
- The mail manager and the language lookup: each send is appended to an outbox.
- `RegistrationListingController::listRegistrations`, `admin_listing.js` and `EventRegistrationConfigForm` are not part of this model. They build markup and client-side DOM, and hold a widget default.
- The event name that `exportCsv` looks up for each registration is never written to the file, so the export does not compute it.
- Unset admin notification flag: `EventRegistrationEmailService.php:63` tests the stored `enable_admin_notifications` value as it is, so an unset (`NULL`) flag is falsy and sends no admin mail. The model follows this, with an unset flag as `None`. The `?? TRUE` at `EventRegistrationConfigForm.php:45` only pre-fills the settings form's checkbox and does not change the stored value.
- EmailService.EmailBodyLines: stated only for values without line feeds. A value that contains one splits into more lines.
- Csv.ParseDocumentEncode: stated for records with at least one field, which every row of the export has. An empty record would encode as a bare line feed.
