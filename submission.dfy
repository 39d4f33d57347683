/** The record that both submission handlers build from a form payload,
    and the table of required fields per form type that both consult.
    In both handlers the record has the same eighteen keys in the same
    order, and the required-field table has the same five entries. */
module Submission {

  import opened Wrappers

  /** One stored submission. Keys in storage order: submitted_at,
      form_type, name, email, phone, subject, message, destination, from,
      to, departure_date, return_date, passengers, cabin_class, trip_type,
      page_url, ip, user_agent. */
  datatype Fields = Fields(
    submittedAt: string,
    formType: string,
    name: string,
    email: string,
    phone: string,
    subject: string,
    message: string,
    destination: string,
    fromPlace: string,
    toPlace: string,
    departureDate: string,
    returnDate: string,
    passengers: string,
    cabinClass: string,
    tripType: string,
    pageUrl: string,
    ip: string,
    userAgent: string)

  /** A handler's JSON reply: `{ ok: true }` or `{ error }`, with its HTTP
      status. */
  datatype ReplyBody = Ok | Error(message: string)
  datatype Reply = Reply(status: nat, body: ReplyBody)

  /** The stored keys, in storage order. */
  const FieldKeys: seq<string> := [
    "submitted_at", "form_type", "name", "email", "phone", "subject", "message",
    "destination", "from", "to", "departure_date", "return_date", "passengers",
    "cabin_class", "trip_type", "page_url", "ip", "user_agent"]

  /** No key holds a line break, so the header is one line. */
  lemma KeysHaveNoLineBreaks()
    ensures forall k :: 0 <= k < |FieldKeys| ==> '\n' !in FieldKeys[k] && '\r' !in FieldKeys[k]
  {
  }

  /** No key holds a quote or a comma, so the unquoted header is valid CSV. */
  lemma KeysHaveNoQuotesOrCommas()
    ensures forall k :: 0 <= k < |FieldKeys| ==> '"' !in FieldKeys[k] && ',' !in FieldKeys[k]
  {
  }

  /** The stored values, in the order of `FieldKeys`. */
  function Values(f: Fields): (r: seq<string>)
    ensures |r| == |FieldKeys| == 18
    ensures r[0] == f.submittedAt && r[1] == f.formType && r[3] == f.email
  {
    [f.submittedAt, f.formType, f.name, f.email, f.phone, f.subject, f.message,
     f.destination, f.fromPlace, f.toPlace, f.departureDate, f.returnDate, f.passengers,
     f.cabinClass, f.tripType, f.pageUrl, f.ip, f.userAgent]
  }

  /** The required-field table. */
  const RequiredTable: map<string, seq<string>> := map[
    "contact" := ["name", "email", "subject", "message"],
    "home_contact" := ["name", "email", "message"],
    "sidebar_contact" := ["name", "email", "message"],
    "hero_flight_search" := ["name", "email", "from", "to", "departure_date"],
    "sidebar_flight_search" := ["name", "email", "from", "to", "departure_date"]]

  /** The required fields of a form type; a type without an entry requires
      only `email`. */
  function RequiredByType(formType: string): (r: seq<string>)
    ensures formType !in RequiredTable ==> r == ["email"]
    ensures formType in RequiredTable ==> r == RequiredTable[formType]
    ensures r != [] && "email" in r
  {
    if formType in RequiredTable then RequiredTable[formType] else ["email"]
  }

  /** The value that a required-field name is checked against (the cases
      of the `switch`); names that have no case are never reported. */
  function CheckedValue(f: Fields, field: string): (r: Option<string>)
    ensures field == "departure_date" ==> r == Some(f.departureDate)
    ensures field == "email" ==> r == Some(f.email)
  {
    match field
    case "name" => Some(f.name)
    case "email" => Some(f.email)
    case "subject" => Some(f.subject)
    case "message" => Some(f.message)
    case "from" => Some(f.fromPlace)
    case "to" => Some(f.toPlace)
    case "departure_date" => Some(f.departureDate)
    case _ => None
  }

  /** The name a missing field is reported under. */
  function ReportName(field: string): string
  {
    if field == "departure_date" then "departureDate" else field
  }

  /** A required field whose checked value is empty. */
  predicate IsMissing(f: Fields, field: string)
  {
    CheckedValue(f, field) == Some("")
  }

  /** The report of missing fields: the required fields whose value is
      empty, in the order in which they are required. */
  function MissingOf(required: seq<string>, f: Fields): (r: seq<string>)
    ensures |r| <= |required|
  {
    if required == [] then []
    else (if IsMissing(f, required[0]) then [ReportName(required[0])] else [])
         + MissingOf(required[1..], f)
  }

  /** The report is taken field by field in table order: the report of a
      concatenation is the concatenation of the reports. */
  lemma {:induction false} MissingOfAppend(a: seq<string>, b: seq<string>, f: Fields)
    ensures MissingOf(a + b, f) == MissingOf(a, f) + MissingOf(b, f)
  {
    if a == [] {
      assert a + b == b;
    } else {
      assert (a + b)[1..] == a[1..] + b;
      MissingOfAppend(a[1..], b, f);
    }
  }

  /** A name is reported exactly when some required field with that report
      name is empty. */
  lemma {:induction false} MissingOfMembers(required: seq<string>, f: Fields, x: string)
    ensures x in MissingOf(required, f)
        <==> exists k :: 0 <= k < |required| && IsMissing(f, required[k]) && ReportName(required[k]) == x
  {
    if required != [] {
      MissingOfMembers(required[1..], f, x);
      if exists k :: 0 <= k < |required| && IsMissing(f, required[k]) && ReportName(required[k]) == x {
        var k :| 0 <= k < |required| && IsMissing(f, required[k]) && ReportName(required[k]) == x;
        if k > 0 {
          assert required[1..][k - 1] == required[k];
        }
      }
      if x in MissingOf(required[1..], f) {
        var k :| 0 <= k < |required[1..]| && IsMissing(f, required[1..][k]) && ReportName(required[1..][k]) == x;
        assert required[k + 1] == required[1..][k];
      }
    }
  }

  /** The report is empty exactly when every required field has a
      non-empty value. */
  lemma {:induction false} MissingOfEmptyIff(required: seq<string>, f: Fields)
    ensures MissingOf(required, f) == [] <==> forall k :: 0 <= k < |required| ==> !IsMissing(f, required[k])
  {
    if required != [] {
      MissingOfEmptyIff(required[1..], f);
      assert forall k :: 1 <= k < |required| ==> required[k] == required[1..][k - 1];
    }
  }

  /** Every name in the table has a case in the `switch`, so for a form
      type's required list "not missing" means "has a non-empty value". */
  lemma TableFieldsAreChecked(formType: string, f: Fields)
    ensures forall x :: x in RequiredByType(formType) ==> CheckedValue(f, x).Some?
  {
  }

  /** A form type outside the table is checked for `email` only. */
  lemma UnknownTypeRequiresEmail(formType: string, f: Fields)
    requires formType !in RequiredTable
    ensures MissingOf(RequiredByType(formType), f) == (if f.email == "" then ["email"] else [])
  {
    assert RequiredByType(formType)[1..] == [];
  }

  /** A contact form lacking name and message reports both, in declared
      order rather than alphabetically. */
  lemma ContactReportsInDeclaredOrder(f: Fields)
    requires f.name == "" && f.message == "" && f.email != "" && f.subject != ""
    ensures MissingOf(RequiredByType("contact"), f) == ["name", "message"]
  {
    ContactRequires();
    assert IsMissing(f, "name") && !IsMissing(f, "email") && !IsMissing(f, "subject") && IsMissing(f, "message");
    MissingOfCons("message", [], f);
    MissingOfCons("subject", ["message"], f);
    MissingOfCons("email", ["subject", "message"], f);
    MissingOfCons("name", ["email", "subject", "message"], f);
  }

  lemma ContactRequires()
    ensures RequiredByType("contact") == ["name", "email", "subject", "message"]
  {
  }

  /** The first required field's report, then the rest's. */
  lemma MissingOfCons(field: string, rest: seq<string>, f: Fields)
    ensures MissingOf([field] + rest, f) == (if IsMissing(f, field) then [ReportName(field)] else []) + MissingOf(rest, f)
  {
    assert ([field] + rest)[1..] == rest;
  }

  /** A flight search without a departure date reports it as
      `departureDate`. */
  lemma FlightSearchReportsDepartureDate(formType: string, f: Fields)
    requires formType == "hero_flight_search" || formType == "sidebar_flight_search"
    requires f.name != "" && f.email != "" && f.fromPlace != "" && f.toPlace != "" && f.departureDate == ""
    ensures MissingOf(RequiredByType(formType), f) == ["departureDate"]
  {
    var req := RequiredByType(formType);
    assert req == ["name", "email", "from", "to", "departure_date"];
    assert req[1..] == ["email", "from", "to", "departure_date"];
    assert req[1..][1..] == ["from", "to", "departure_date"];
    assert req[1..][1..][1..] == ["to", "departure_date"];
    assert req[1..][1..][1..][1..] == ["departure_date"];
    assert req[1..][1..][1..][1..][1..] == [];
    assert MissingOf(req[1..][1..][1..][1..], f) == ["departureDate"];
    assert MissingOf(req[1..][1..][1..], f) == ["departureDate"];
    assert MissingOf(req[1..][1..], f) == ["departureDate"];
    assert MissingOf(req[1..], f) == ["departureDate"];
  }

  /** The loop over the required fields with its `switch` (the cases are
      `CheckedValue` and `ReportName`). */
  method CollectMissing(required: seq<string>, f: Fields) returns (missing: seq<string>)
    ensures missing == MissingOf(required, f)
  {
    missing := [];
    var i := 0;
    while i < |required|
      invariant 0 <= i <= |required|
      invariant missing + MissingOf(required[i..], f) == MissingOf(required, f)
    {
      assert required[i..][1..] == required[i + 1..];
      var field := required[i];
      if CheckedValue(f, field) == Some("") {
        missing := missing + [ReportName(field)];
      }
      i := i + 1;
    }
  }

  // ---------------------------------------------------------------------
  // The notification text

  /** One `label: value` line per field whose value is not empty, in field
      order. The two handlers differ only in how a key is labelled. */
  function LabelLines(labelOf: string -> string, keys: seq<string>, values: seq<string>): (r: seq<string>)
    requires |keys| == |values|
    ensures |r| <= |values|
  {
    if keys == [] then []
    else (if values[0] == "" then [] else [labelOf(keys[0]) + ": " + values[0]]) + LabelLines(labelOf, keys[1..], values[1..])
  }

  /** A line is in the text exactly when some field with a non-empty value
      produces it. */
  lemma {:induction false} LabelLinesMembers(labelOf: string -> string, keys: seq<string>, values: seq<string>, line: string)
    requires |keys| == |values|
    ensures line in LabelLines(labelOf, keys, values)
        <==> exists k :: 0 <= k < |keys| && values[k] != "" && line == labelOf(keys[k]) + ": " + values[k]
  {
    if keys != [] {
      LabelLinesMembers(labelOf, keys[1..], values[1..], line);
      if exists k :: 0 <= k < |keys| && values[k] != "" && line == labelOf(keys[k]) + ": " + values[k] {
        var k :| 0 <= k < |keys| && values[k] != "" && line == labelOf(keys[k]) + ": " + values[k];
        if k > 0 {
          assert keys[1..][k - 1] == keys[k] && values[1..][k - 1] == values[k];
        }
      }
      if line in LabelLines(labelOf, keys[1..], values[1..]) {
        var k :| 0 <= k < |keys| - 1 && values[1..][k] != "" && line == labelOf(keys[1..][k]) + ": " + values[1..][k];
        assert keys[k + 1] == keys[1..][k] && values[k + 1] == values[1..][k];
      }
    }
  }

  /** The text has one line per non-empty value. */
  lemma {:induction false} LabelLinesCount(labelOf: string -> string, keys: seq<string>, values: seq<string>)
    requires |keys| == |values|
    ensures |LabelLines(labelOf, keys, values)| == |values| - CountEmpty(values)
  {
    if keys != [] {
      LabelLinesCount(labelOf, keys[1..], values[1..]);
    }
  }

  function CountEmpty(values: seq<string>): (n: nat)
    ensures n <= |values|
  {
    if values == [] then 0 else (if values[0] == "" then 1 else 0) + CountEmpty(values[1..])
  }

  /** The lines from field `i` on: that field's line, if any, then the
      lines of the fields after it. */
  lemma LabelLinesStep(labelOf: string -> string, keys: seq<string>, values: seq<string>, i: nat)
    requires |keys| == |values| && i < |keys|
    ensures LabelLines(labelOf, keys[i..], values[i..])
         == (if values[i] == "" then [] else [labelOf(keys[i]) + ": " + values[i]]) + LabelLines(labelOf, keys[i + 1..], values[i + 1..])
  {
    assert keys[i..][1..] == keys[i + 1..] && values[i..][1..] == values[i + 1..];
  }
}
