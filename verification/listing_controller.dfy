/** The export of the administrator's listing: one header record and one
    record per listed registration, written with the CSV encoding. The
    timestamp formatter (PHP's `date('Y-m-d H:i:s', ...)`) is a parameter. */
module ListingController {
  import opened Basics
  import opened Tables
  import opened DatabaseService
  import opened Csv

  // ---- integers as text ----

  function DigitChar(d: nat): char
    requires d < 10
  {
    ('0' as int + d) as char
  }

  predicate IsDigit(ch: char) {
    '0' <= ch <= '9'
  }

  /** PHP's string conversion of a non-negative integer: decimal digits,
      no sign and no leading zero. */
  function NatToString(n: nat): (s: string)
    ensures |s| >= 1
    ensures forall i :: 0 <= i < |s| ==> IsDigit(s[i])
    ensures n == 0 <==> s == "0"
    ensures |s| > 1 ==> s[0] != '0'
    decreases n
  {
    if n < 10 then [DigitChar(n)]
    else
      var s := NatToString(n / 10) + [DigitChar(n % 10)];
      assert s[0] == NatToString(n / 10)[0];
      s
  }

  /** The value of a string of decimal digits. */
  function DecimalValue(s: string): nat
    requires forall i :: 0 <= i < |s| ==> IsDigit(s[i])
  {
    if |s| == 0 then 0
    else
      assert IsDigit(s[|s| - 1]);
      DecimalValue(s[..|s| - 1]) * 10 + (s[|s| - 1] as int - '0' as int)
  }

  /** The written id reads back as the id. */
  lemma {:induction false} DecimalRoundTrip(n: nat)
    ensures DecimalValue(NatToString(n)) == n
    decreases n
  {
    var s := NatToString(n);
    if n >= 10 {
      DecimalRoundTrip(n / 10);
      assert s[..|s| - 1] == NatToString(n / 10);
    }
  }

  // ---- the export ----

  /** The header record. */
  const Header: seq<string> := ["ID", "Full Name", "Email", "College Name", "Department",
                                "Event Category", "Event Date", "Submission Date"]

  /** The record of one registration, column for column under the header. */
  function CsvRow(x: Registration, formatTime: int -> string): seq<string> {
    [NatToString(x.id), x.fullName, x.email, x.collegeName, x.department,
     x.eventCategory, x.eventDate, formatTime(x.created)]
  }

  function CsvRows(regs: seq<Registration>, formatTime: int -> string): (rows: seq<seq<string>>)
    ensures |rows| == |regs|
    ensures forall i :: 0 <= i < |regs| ==> rows[i] == CsvRow(regs[i], formatTime)
  {
    if |regs| == 0 then [] else [CsvRow(regs[0], formatTime)] + CsvRows(regs[1..], formatTime)
  }

  /** `exportCsv`: the listing for the filters, newest first, under the
      header. The event name the loop looks up is not written anywhere, so
      it is not part of this function. */
  function ExportCsv(regs: seq<Registration>, dateFilter: Option<string>, idFilter: Option<nat>,
                     formatTime: int -> string): (csv: string)
    ensures ParseDocument(csv) ==
      Some([Header] + CsvRows(GetRegistrations(regs, dateFilter, idFilter), formatTime))
  {
    var body := CsvRows(GetRegistrations(regs, dateFilter, idFilter), formatTime);
    var rows := [Header] + body;
    assert forall i :: 0 <= i < |rows| ==> |rows[i]| == 8 by {
      forall i | 0 <= i < |rows|
        ensures |rows[i]| == 8
      {
        if i > 0 {
          assert rows[i] == body[i - 1];
        }
      }
    }
    ParseDocumentEncode(rows);
    EncodeDocument(rows)
  }

  /** Each record holds its registration's values under the right header:
      the id in decimal, column six the category, the last column the
      formatted submission time. */
  lemma CsvRowsMatchRegistrations(listing: seq<Registration>, formatTime: int -> string)
    ensures var rows := CsvRows(listing, formatTime);
      forall i :: 0 <= i < |listing| ==>
        && |rows[i]| == |Header| == 8
        && DecimalValue(rows[i][0]) == listing[i].id
        && rows[i][1] == listing[i].fullName && rows[i][2] == listing[i].email
        && rows[i][3] == listing[i].collegeName && rows[i][4] == listing[i].department
        && rows[i][5] == listing[i].eventCategory && rows[i][6] == listing[i].eventDate
        && rows[i][7] == formatTime(listing[i].created)
  {
    var rows := CsvRows(listing, formatTime);
    forall i | 0 <= i < |listing|
      ensures DecimalValue(rows[i][0]) == listing[i].id
    {
      DecimalRoundTrip(listing[i].id);
    }
  }

  /** Read back, the export is the header followed by one record per
      registration the listing returns for the same filters, in listing
      order: as many records as the participant count. */
  lemma ExportReadsBack(regs: seq<Registration>, dateFilter: Option<string>, idFilter: Option<nat>,
                        formatTime: int -> string)
    ensures var parsed := ParseDocument(ExportCsv(regs, dateFilter, idFilter, formatTime));
      && parsed.Some?
      && |parsed.value| == GetParticipantCount(regs, dateFilter, idFilter) + 1
      && parsed.value[0] == Header
      && parsed.value[1..] == CsvRows(GetRegistrations(regs, dateFilter, idFilter), formatTime)
  {
    ParticipantCountIsListingLength(regs, dateFilter, idFilter);
    var rows := CsvRows(GetRegistrations(regs, dateFilter, idFilter), formatTime);
    assert ([Header] + rows)[1..] == rows;
  }

  /** With no matching registration the file is the header record alone. */
  lemma ExportEmptyListing(regs: seq<Registration>, dateFilter: Option<string>, idFilter: Option<nat>,
                           formatTime: int -> string)
    requires GetParticipantCount(regs, dateFilter, idFilter) == 0
    ensures ExportCsv(regs, dateFilter, idFilter, formatTime) == EncodeRow(Header)
  {
    ParticipantCountIsListingLength(regs, dateFilter, idFilter);
    var listing := GetRegistrations(regs, dateFilter, idFilter);
    assert CsvRows(listing, formatTime) == [];
    var rows := [Header] + CsvRows(listing, formatTime);
    assert rows == [Header] && rows[1..] == [];
    assert EncodeDocument(rows) == EncodeRow(Header) + EncodeDocument([]);
  }
}
