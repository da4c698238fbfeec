/** The e-mail service: the confirmation body, the two subjects and the
    recipient decision. Handing a message to the mail manager is modelled as
    appending it to an outbox. */
module EmailService {
  import opened Basics
  import opened Tables

  datatype Mail = Mail(to: string, subject: string, body: string)

  /** The two `event_registration.settings` values the service reads; an
      unset value is `None`. */
  datatype Settings = Settings(
    enableAdminNotifications: Option<bool>,
    adminNotificationEmail: Option<string>)

  /** The admin copy goes out only when the flag is truthy and the address is
      a truthy string; an unset flag counts as off. */
  predicate SendsAdminCopy(settings: Settings) {
    settings.enableAdminNotifications == Some(true) && OptTruthy(settings.adminNotificationEmail)
  }

  /** The fixed lines of the template (the first is long, so it is written in two halves). */
  const Intro := "Thank you for registering for the event. " + "Below are your registration details:"
  const Closing := "We look forward to seeing you at the event!"
  const Regards := "Best regards,"
  const Team := "Event Management Team"

  /** `buildEmailBody`: the fixed template, line by line. */
  function BuildEmailBody(data: RegistrationData, eventName: string): (body: string)
    ensures |body| >= |Team| && body[|body| - |Team|..] == Team
  {
    var greeting := "Dear " + data.fullName + ",";
    var name := "Name: " + data.fullName;
    var event := "Event Name: " + eventName;
    var date := "Event Date: " + data.eventDate;
    var category := "Category: " + data.eventCategory;
    var college := "College: " + data.collegeName;
    var department := "Department: " + data.department;
    greeting + "\n\n" + Intro + "\n\n" + name + "\n" + event + "\n" + date + "\n" + category
      + "\n" + college + "\n" + department + "\n\n" + Closing + "\n\n" + Regards + "\n" + Team
  }

  /** `sendEmail`: one message handed over. */
  function SendEmail(outbox: seq<Mail>, to: string, subject: string, body: string): (outbox': seq<Mail>)
    ensures |outbox'| == |outbox| + 1 && outbox'[..|outbox|] == outbox
    ensures outbox'[|outbox|] == Mail(to, subject, body)
  {
    outbox + [Mail(to, subject, body)]
  }

  /** `sendConfirmationEmail`: always one message to the registrant, and a
      second one, with the same body, to the administrator when enabled. */
  function SendConfirmationEmail(outbox: seq<Mail>, data: RegistrationData, eventName: string, settings: Settings)
    : (outbox': seq<Mail>)
    ensures |outbox| + 1 <= |outbox'| <= |outbox| + 2
    ensures outbox'[..|outbox|] == outbox
    ensures outbox'[|outbox|] ==
      Mail(data.email, "Event Registration Confirmation - " + eventName, BuildEmailBody(data, eventName))
    ensures |outbox'| == |outbox| + 2 <==> SendsAdminCopy(settings)
    ensures |outbox'| == |outbox| + 2 ==>
      outbox'[|outbox| + 1] ==
        Mail(settings.adminNotificationEmail.value, "New Event Registration - " + eventName, outbox'[|outbox|].body)
  {
    var body := BuildEmailBody(data, eventName);
    var sent := SendEmail(outbox, data.email, "Event Registration Confirmation - " + eventName, body);
    if settings.enableAdminNotifications == Some(true) then
      var adminEmail := settings.adminNotificationEmail;
      if OptTruthy(adminEmail) then
        SendEmail(sent, adminEmail.value, "New Event Registration - " + eventName, body)
      else sent
    else sent
  }

  // ---- reading the body back as lines ----

  /** PHP's `explode("\n", s)`: the pieces between line feeds. */
  function SplitLines(s: string): (r: seq<string>)
    ensures |r| >= 1
    decreases |s|
  {
    if |s| == 0 then [""]
    else
      var rest := SplitLines(s[1..]);
      if s[0] == '\n' then [""] + rest
      else [[s[0]] + rest[0]] + rest[1..]
  }

  lemma {:induction false} SplitSingleLine(l: string)
    requires '\n' !in l
    ensures SplitLines(l) == [l]
    decreases |l|
  {
    if |l| > 0 {
      SplitSingleLine(l[1..]);
      assert l == [l[0]] + l[1..];
    }
  }

  /** Splitting distributes over a line feed. */
  lemma {:induction false} SplitAppend(a: string, b: string)
    ensures SplitLines(a + "\n" + b) == SplitLines(a) + SplitLines(b)
    decreases |a|
  {
    var s := a + "\n" + b;
    if |a| == 0 {
      assert s == "\n" + b;
      assert s[1..] == b;
    } else {
      assert s[0] == a[0];
      assert s[1..] == a[1..] + "\n" + b;
      SplitAppend(a[1..], b);
    }
  }

  lemma SplitAppendBlank(a: string, b: string)
    ensures SplitLines(a + "\n\n" + b) == SplitLines(a) + [""] + SplitLines(b)
  {
    assert a + "\n\n" + b == a + "\n" + ("\n" + b);
    SplitAppend(a, "\n" + b);
    SplitAppend("", b);
  }

  /** Fifteen lines joined the way the template joins them split back into
      those lines. */
  lemma SplitTemplate(l0: string, l2: string, l4: string, l5: string, l6: string, l7: string, l8: string,
                      l9: string, l11: string, l13: string, l14: string)
    requires '\n' !in l0 && '\n' !in l2 && '\n' !in l4 && '\n' !in l5 && '\n' !in l6 && '\n' !in l7
    requires '\n' !in l8 && '\n' !in l9 && '\n' !in l11 && '\n' !in l13 && '\n' !in l14
    ensures SplitLines(l0 + "\n\n" + l2 + "\n\n" + l4 + "\n" + l5 + "\n" + l6 + "\n" + l7
                       + "\n" + l8 + "\n" + l9 + "\n\n" + l11 + "\n\n" + l13 + "\n" + l14)
      == [l0, "", l2, "", l4, l5, l6, l7, l8, l9, "", l11, "", l13, l14]
  {
    SplitSingleLine(l0); SplitSingleLine(l2); SplitSingleLine(l4); SplitSingleLine(l5);
    SplitSingleLine(l6); SplitSingleLine(l7); SplitSingleLine(l8); SplitSingleLine(l9);
    SplitSingleLine(l11); SplitSingleLine(l13); SplitSingleLine(l14);
    var p2 := l0 + "\n\n" + l2;
    SplitAppendBlank(l0, l2);
    var p4 := p2 + "\n\n" + l4;
    SplitAppendBlank(p2, l4);
    assert SplitLines(p4) == [l0, "", l2, "", l4];
    var p5 := p4 + "\n" + l5;
    SplitAppend(p4, l5);
    var p6 := p5 + "\n" + l6;
    SplitAppend(p5, l6);
    var p7 := p6 + "\n" + l7;
    SplitAppend(p6, l7);
    assert SplitLines(p7) == [l0, "", l2, "", l4, l5, l6, l7];
    var p8 := p7 + "\n" + l8;
    SplitAppend(p7, l8);
    var p9 := p8 + "\n" + l9;
    SplitAppend(p8, l9);
    assert SplitLines(p9) == [l0, "", l2, "", l4, l5, l6, l7, l8, l9];
    var p11 := p9 + "\n\n" + l11;
    SplitAppendBlank(p9, l11);
    var p13 := p11 + "\n\n" + l13;
    SplitAppendBlank(p11, l13);
    assert SplitLines(p13) == [l0, "", l2, "", l4, l5, l6, l7, l8, l9, "", l11, "", l13];
    SplitAppend(p13, l14);
  }

  lemma IntroHasNoLineFeed()
    ensures '\n' !in Intro
  {
  }

  lemma ClosingHasNoLineFeed()
    ensures '\n' !in Closing && '\n' !in Regards && '\n' !in Team
  {
  }

  /** When no field holds a line feed, the body reads back as exactly these
      fifteen lines, in this order. */
  lemma EmailBodyLines(data: RegistrationData, eventName: string)
    requires '\n' !in data.fullName && '\n' !in eventName && '\n' !in data.eventDate
    requires '\n' !in data.eventCategory && '\n' !in data.collegeName && '\n' !in data.department
    ensures SplitLines(BuildEmailBody(data, eventName)) == [
      "Dear " + data.fullName + ",",
      "",
      Intro,
      "",
      "Name: " + data.fullName,
      "Event Name: " + eventName,
      "Event Date: " + data.eventDate,
      "Category: " + data.eventCategory,
      "College: " + data.collegeName,
      "Department: " + data.department,
      "",
      Closing,
      "",
      Regards,
      Team]
  {
    IntroHasNoLineFeed();
    ClosingHasNoLineFeed();
    SplitTemplate("Dear " + data.fullName + ",", Intro,
                  "Name: " + data.fullName, "Event Name: " + eventName, "Event Date: " + data.eventDate,
                  "Category: " + data.eventCategory, "College: " + data.collegeName,
                  "Department: " + data.department, Closing, Regards, Team);
  }
}
