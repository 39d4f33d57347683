/** The submission handler of the Node server (server.js): sanitising and
    picking payload fields, validating them against the required-field
    table, appending a quoted CSV row to the submission log, regenerating
    the HTML "XLS" export from the log with a hand-written CSV line parser,
    and composing the notification e-mail.

    A `char` here is a character; where JavaScript counts UTF-16 code
    units (the 4000-unit `slice`), the model counts them with `UnitLength`
    and cuts with `SliceUnits`. */
module ServerJs {

  import opened Wrappers
  import opened Text
  import opened Submission
  import ServerLog
  import XlsTable

  // ---------------------------------------------------------------------
  // Payload values

  /** A value of the parsed JSON request body. `Num` carries the text that
      `String(n)` gives for the number; `Obj` (an object or an array)
      carries the text of `JSON.stringify`, or `None` when that throws. */
  datatype JsValue =
    | Undefined
    | Null
    | Bool(b: bool)
    | Num(text: string)
    | Str(s: string)
    | Obj(json: Option<string>)

  type Payload = map<string, JsValue>

  /** JavaScript truthiness. The numbers 0, -0 and NaN are the falsy ones;
      their `String` texts are "0" and "NaN". */
  predicate Truthy(v: JsValue)
  {
    match v
    case Undefined => false
    case Null => false
    case Bool(b) => b
    case Num(t) => t != "0" && t != "NaN"
    case Str(s) => s != ""
    case Obj(_) => true
  }

  /** `String(value)` of a scalar. */
  function ScalarText(v: JsValue): string
    requires !v.Obj? && !v.Null? && !v.Undefined?
  {
    match v
    case Bool(b) => if b then "true" else "false"
    case Num(t) => t
    case Str(s) => s
  }

  // ---------------------------------------------------------------------
  // cleanValue and pickValue

  const MaxLength: nat := 4000

  /** A string with no control character. */
  predicate NoControls(s: string)
  {
    NoneOf(s, Control)
  }

  /** A string that `CleanString` leaves as it is. */
  predicate IsClean(s: string)
  {
    UnitLength(s) <= MaxLength && NoControls(s)
    && (s == [] || (!IsJsSpace(s[0]) && !IsJsSpace(s[|s| - 1])))
  }

  /** The string branch of `cleanValue`: control characters become spaces,
      then the text is trimmed, then cut to 4000 code units. */
  function CleanString(s: string): (r: string)
    ensures UnitLength(r) <= MaxLength
  {
    SliceUnits(TrimJs(MapWhere(s, Control, ' ')), MaxLength)
  }

  /** No control character survives the replacement, and trimming and
      cutting keep a string free of them. */
  lemma CleanStringHasNoControls(s: string)
    ensures NoControls(CleanString(s))
  {
    var m := MapWhere(s, Control, ' ');
    MapWhereClears(s, Control, ' ');
    TrimKeepsNoneOf(m, JsSpace, Control);
    SliceUnitsKeepsNoneOf(TrimJs(m), MaxLength, Control);
  }

  /** The result starts with no space, and ends with none unless it was
      cut. */
  lemma CleanStringIsTrimmed(s: string)
    ensures var r := CleanString(s);
      (r == [] || !IsJsSpace(r[0])) && (UnitLength(r) < MaxLength ==> r == [] || !IsJsSpace(r[|r| - 1]))
  {
    SliceUnitsKeepsEnds(TrimJs(MapWhere(s, Control, ' ')), MaxLength, JsSpace);
  }

  /** Clean text is left as it is. */
  lemma CleanStringKeepsCleanText(s: string)
    requires IsClean(s)
    ensures CleanString(s) == s
  {
    assert MapWhere(s, Control, ' ') == s;
    TrimOfTrimmed(s, JsSpace);
    SliceUnitsLength(s, MaxLength);
  }

  /** Text with neither control characters nor spaces is only cut. */
  lemma CleanStringOfPlainText(s: string)
    requires NoControls(s) && NoneOf(s, JsSpace)
    ensures CleanString(s) == SliceUnits(s, MaxLength)
  {
    assert MapWhere(s, Control, ' ') == s;
    TrimOfTrimmed(s, JsSpace);
  }

  /** A cleaned string is clean, or is cut at 4000 units. */
  lemma CleanStringIsClean(s: string)
    ensures IsClean(CleanString(s)) || UnitLength(CleanString(s)) == MaxLength
  {
    CleanStringHasNoControls(s);
    CleanStringIsTrimmed(s);
  }

  /** `cleanValue`: `null` and `undefined` give "", objects give their JSON
      text uncut and unsanitised, scalars go through `CleanString`. */
  function CleanValue(v: JsValue): (r: string)
    ensures v.Null? || v.Undefined? ==> r == ""
    ensures v.Obj? ==> r == v.json.GetOr("")
    ensures !v.Obj? ==> UnitLength(r) <= MaxLength
  {
    match v
    case Undefined => ""
    case Null => ""
    case Obj(json) => json.GetOr("")
    case _ => CleanString(ScalarText(v))
  }

  /** A cleaned scalar is clean or cut at 4000 units. */
  lemma CleanValueOfScalar(v: JsValue)
    requires !v.Obj?
    ensures IsClean(CleanValue(v)) || UnitLength(CleanValue(v)) == MaxLength
  {
    if !v.Null? && !v.Undefined? {
      CleanStringIsClean(ScalarText(v));
    }
  }

  /** A raw value that `pickValue` accepts: present, and not the empty
      string (any other value, `null` included, is accepted). */
  predicate Accepts(data: Payload, key: string)
  {
    key in data && data[key] != Str("")
  }

  /** `pickValue`: the cleaned value of the first accepted alias. */
  function PickValue(data: Payload, keys: seq<string>): (r: string)
    ensures (forall k :: 0 <= k < |keys| ==> !Accepts(data, keys[k])) ==> r == ""
  {
    if keys == [] then ""
    else if Accepts(data, keys[0]) then CleanValue(data[keys[0]])
    else PickValue(data, keys[1..])
  }

  /** The first accepted alias decides, even when its value cleans to "";
      later aliases are not consulted. */
  lemma {:induction false} PickValueFirstAccepted(data: Payload, keys: seq<string>, k: nat)
    requires k < |keys| && Accepts(data, keys[k])
    requires forall j :: 0 <= j < k ==> !Accepts(data, keys[j])
    ensures PickValue(data, keys) == CleanValue(data[keys[k]])
  {
    if k > 0 {
      assert !Accepts(data, keys[0]);
      assert forall j :: 0 <= j < k - 1 ==> keys[1..][j] == keys[j + 1];
      PickValueFirstAccepted(data, keys[1..], k - 1);
    }
  }

  // ---------------------------------------------------------------------
  // formatTimestamp

  /** The UTC components read from the clock; `month` is zero-based, as
      `getUTCMonth` gives it. */
  datatype UtcTime = UtcTime(year: nat, month: nat, day: nat, hour: nat, minute: nat, second: nat)

  predicate ValidTime(t: UtcTime)
  {
    1000 <= t.year <= 9999 && t.month < 12 && 1 <= t.day <= 31 && t.hour < 24 && t.minute < 60 && t.second < 60
  }

  /** `String(n).padStart(2, "0")`. */
  function Pad2(n: nat): (r: string)
    ensures n < 100 ==> |r| == 2 && (forall c :: c in r ==> IsAsciiDigit(c)) && DigitsValue(r) == n
  {
    var s := NatToString(n);
    DigitsValueOfNatToString(n);
    if |s| < 2 then
      assert DigitsValue("0" + s) == DigitsValue(s) by {
        assert ("0" + s)[..1] == "0";
      }
      "0" + s
    else s
  }

  /** `YYYY-MM-DD HH:MM:SS` in UTC. For a valid time the text is 19
      characters long and each field reads back as the component it
      came from. */
  function FormatTimestamp(t: UtcTime): (r: string)
    ensures ValidTime(t) ==> |r| == 19 && r[4] == '-' && r[7] == '-' && r[10] == ' ' && r[13] == ':' && r[16] == ':'
    ensures ValidTime(t) ==> (forall c :: c in r[..4] ==> IsAsciiDigit(c)) && DigitsValue(r[..4]) == t.year
    ensures ValidTime(t) ==> (forall c :: c in r[5..7] ==> IsAsciiDigit(c)) && DigitsValue(r[5..7]) == t.month + 1
    ensures ValidTime(t) ==> (forall c :: c in r[8..10] ==> IsAsciiDigit(c)) && DigitsValue(r[8..10]) == t.day
    ensures ValidTime(t) ==> (forall c :: c in r[11..13] ==> IsAsciiDigit(c)) && DigitsValue(r[11..13]) == t.hour
    ensures ValidTime(t) ==> (forall c :: c in r[14..16] ==> IsAsciiDigit(c)) && DigitsValue(r[14..16]) == t.minute
    ensures ValidTime(t) ==> (forall c :: c in r[17..] ==> IsAsciiDigit(c)) && DigitsValue(r[17..]) == t.second
  {
    var y := NatToString(t.year);
    var mo := Pad2(t.month + 1);
    var d := Pad2(t.day);
    var h := Pad2(t.hour);
    var mi := Pad2(t.minute);
    var s := Pad2(t.second);
    var r := y + "-" + mo + "-" + d + " " + h + ":" + mi + ":" + s;
    if ValidTime(t) then
      DigitsValueOfNatToString(t.year);
      YearDigits(t.year);
      TimestampLayout(y, mo, d, h, mi, s);
      r
    else r
  }

  /** Where the six fields sit in a timestamp made of a four-character
      year and two-character components. */
  lemma TimestampLayout(y: string, mo: string, d: string, h: string, mi: string, s: string)
    requires |y| == 4 && |mo| == 2 && |d| == 2 && |h| == 2 && |mi| == 2 && |s| == 2
    ensures var r := y + "-" + mo + "-" + d + " " + h + ":" + mi + ":" + s;
      |r| == 19 && r[4] == '-' && r[7] == '-' && r[10] == ' ' && r[13] == ':' && r[16] == ':'
      && r[..4] == y && r[5..7] == mo && r[8..10] == d && r[11..13] == h && r[14..16] == mi && r[17..] == s
  {
    var r := y + "-" + mo + "-" + d + " " + h + ":" + mi + ":" + s;
    assert r == y + ("-" + mo) + ("-" + d) + (" " + h) + (":" + mi) + (":" + s);
    assert r[..4] == y;
    assert r[5..7] == mo;
    assert r[8..10] == d;
    assert r[11..13] == h;
    assert r[14..16] == mi;
    assert r[17..] == s;
  }

  lemma YearDigits(y: nat)
    ensures 1000 <= y <= 9999 ==> |NatToString(y)| == 4
  {
    if 1000 <= y <= 9999 {
      assert NatToString(y) == NatToString(y / 10) + [DigitChar(y % 10)];
      assert NatToString(y / 10) == NatToString(y / 100) + [DigitChar((y / 10) % 10)];
      assert NatToString(y / 100) == NatToString(y / 1000) + [DigitChar((y / 100) % 10)];
      assert y / 1000 < 10;
    }
  }

  // ---------------------------------------------------------------------
  // buildFields

  /** What the request contributes besides the body: `req.ip`, the
      `x-forwarded-for` header and the `user-agent` header. */
  datatype RequestMeta = RequestMeta(ip: Option<string>, forwardedFor: Option<string>, userAgent: Option<string>)

  /** `a || b` on optional strings. */
  function OrElse(a: Option<string>, b: string): (r: string)
    ensures a.Some? && a.value != "" ==> r == a.value
    ensures !(a.Some? && a.value != "") ==> r == b
  {
    if a.Some? && a.value != "" then a.value else b
  }

  /** `buildFields`: the eighteen stored fields. */
  function BuildFields(data: Payload, meta: RequestMeta, now: UtcTime): (f: Fields)
    ensures UnitLength(f.ip) <= MaxLength && UnitLength(f.userAgent) <= MaxLength
    ensures meta.ip.None? && meta.forwardedFor.None? ==> f.ip == ""
  {
    Fields(
      submittedAt := FormatTimestamp(now),
      formType := PickValue(data, ["formType", "form_type"]),
      name := PickValue(data, ["name", "fullName", "full_name"]),
      email := PickValue(data, ["email"]),
      phone := PickValue(data, ["phone"]),
      subject := PickValue(data, ["subject"]),
      message := PickValue(data, ["message"]),
      destination := PickValue(data, ["destination"]),
      fromPlace := PickValue(data, ["from"]),
      toPlace := PickValue(data, ["to"]),
      departureDate := PickValue(data, ["departureDate", "departure_date"]),
      returnDate := PickValue(data, ["returnDate", "return_date"]),
      passengers := PickValue(data, ["passengers"]),
      cabinClass := PickValue(data, ["cabinClass", "cabin_class"]),
      tripType := PickValue(data, ["tripType", "trip_type"]),
      pageUrl := PickValue(data, ["pageUrl", "page_url"]),
      ip := CleanString(OrElse(meta.ip, OrElse(meta.forwardedFor, ""))),
      userAgent := CleanString(OrElse(meta.userAgent, "")))
  }

  /** The form type comes from `formType`, else `form_type`, else is
      empty. */
  lemma FormTypeLookup(data: Payload)
    ensures var r := PickValue(data, ["formType", "form_type"]);
      && ("formType" !in data && "form_type" !in data ==> r == "")
      && ("formType" in data && data["formType"] != Str("") ==> r == CleanValue(data["formType"]))
      && (!Accepts(data, "formType") && Accepts(data, "form_type") ==> r == CleanValue(data["form_type"]))
  {
  }

  /** The stored form type is the one `FormTypeLookup` describes. */
  lemma BuildFieldsFormType(data: Payload, meta: RequestMeta, now: UtcTime)
    ensures BuildFields(data, meta, now).formType == PickValue(data, ["formType", "form_type"])
  {
  }

  /** The stamp of a valid time is 19 characters long. */
  lemma BuildFieldsTimestamp(data: Payload, meta: RequestMeta, now: UtcTime)
    requires ValidTime(now)
    ensures |BuildFields(data, meta, now).submittedAt| == 19
  {
  }

  /** The client address and agent are clean, or cut at 4000 units. */
  lemma BuildFieldsClientFields(data: Payload, meta: RequestMeta, now: UtcTime)
    ensures var f := BuildFields(data, meta, now);
      (IsClean(f.ip) || UnitLength(f.ip) == MaxLength) && (IsClean(f.userAgent) || UnitLength(f.userAgent) == MaxLength)
  {
    CleanStringIsClean(OrElse(meta.ip, OrElse(meta.forwardedFor, "")));
    CleanStringIsClean(OrElse(meta.userAgent, ""));
  }

  // ---------------------------------------------------------------------
  // validateFields

  /** The names that every plain object inherits from `Object.prototype`.
      Looking one of them up in the table object yields a function (or,
      for `__proto__`, the prototype object), which is truthy and not
      iterable. */
  const InheritedNames: set<string> := {
    "constructor", "hasOwnProperty", "isPrototypeOf", "propertyIsEnumerable",
    "toLocaleString", "toString", "valueOf", "__proto__", "__defineGetter__",
    "__defineSetter__", "__lookupGetter__", "__lookupSetter__"}

  /** `requiredByType[formType] || ["email"]` as written: `None` stands for
      the inherited member that the following `for ... of` cannot iterate,
      which throws a TypeError inside the async handler. */
  function RequiredLookupAsWritten(formType: string): (r: Option<seq<string>>)
    ensures formType in RequiredTable ==> r == Some(RequiredTable[formType])
    ensures formType !in RequiredTable && formType in InheritedNames ==> r == None
    ensures formType !in RequiredTable && formType !in InheritedNames ==> r == Some(["email"])
  {
    if formType in RequiredTable then Some(RequiredTable[formType])
    else if formType in InheritedNames then None
    else Some(["email"])
  }

  /** A form type named after an inherited member makes the as-written
      lookup fail, where an own-property lookup requires only `email`. */
  lemma InheritedNameBreaksLookup()
    ensures RequiredLookupAsWritten("toString") == None
    ensures RequiredLookupAsWritten("constructor") == None
    ensures RequiredByType("toString") == ["email"]
  {
  }

  // ---------------------------------------------------------------------
  // createTransporter and sendNotificationEmail

  /** The process environment as far as the mailer reads it; `None` for an
      unset variable. */
  datatype Env = Env(
    smtpHost: Option<string>,
    smtpPort: Option<string>,
    smtpUser: Option<string>,
    smtpPass: Option<string>,
    smtpSecure: Option<string>,
    mailTo: Option<string>,
    mailFrom: Option<string>)

  const DefaultAddress: string := "info@vukatravels.co.uk"

  /** A set variable with a non-empty value (JavaScript truthiness). */
  predicate IsSet(v: Option<string>)
  {
    v.Some? && v.value != ""
  }

  /** `Number(text)` for the port; only plain decimal text is modelled,
      anything else gives `None` (NaN). */
  function PortNumber(text: string): (r: Option<nat>)
    ensures r.Some? <==> text != [] && (forall c :: c in text ==> IsAsciiDigit(c))
  {
    if text != [] && (forall c :: c in text ==> IsAsciiDigit(c)) then Some(DigitsValue(text)) else None
  }

  /** The outcome of `createTransporter`. */
  datatype Transport =
    | MissingConfig
    | Transport(host: string, port: Option<nat>, secure: bool, user: string, pass: string)

  const MissingConfigMessage: string := "SMTP configuration is missing"

  function TransportFor(env: Env): (t: Transport)
    ensures t.MissingConfig? <==> !IsSet(env.smtpHost) || !IsSet(env.smtpUser) || !IsSet(env.smtpPass)
    ensures t.Transport? && !IsSet(env.smtpPort) ==> t.port == Some(465)
    ensures t.Transport? && IsSet(env.smtpSecure) ==> (t.secure <==> env.smtpSecure.value == "true")
    ensures t.Transport? && !IsSet(env.smtpSecure) ==> (t.secure <==> t.port == Some(465))
  {
    if !IsSet(env.smtpHost) || !IsSet(env.smtpUser) || !IsSet(env.smtpPass) then MissingConfig
    else
      var port := if IsSet(env.smtpPort) then PortNumber(env.smtpPort.value) else Some(465);
      var secure := if IsSet(env.smtpSecure) then env.smtpSecure.value == "true" else port == Some(465);
      Transport(env.smtpHost.value, port, secure, env.smtpUser.value, env.smtpPass.value)
  }

  /** The notification message. */
  datatype Email = Email(to: string, from: string, replyTo: string, subject: string, text: string)

  /** A key as it is shown in the message: underscores become spaces. */
  function Label(key: string): (r: string)
    ensures '_' !in r && |r| == |key|
  {
    LabelLength(key);
    ReplaceChar(key, '_', " ")
  }

  lemma LabelLength(key: string)
    ensures |ReplaceChar(key, '_', " ")| == |key|
  {
    if key != [] {
      LabelLength(key[1..]);
    }
  }

  const SubjectPrefix: string := "[Website] "
  const SubjectSuffix: string := " submission"

  /** The subject: the form type (or "Form") with underscores as spaces,
      between a fixed prefix and suffix. The fallback "Form" has no
      underscore, so it is used as it is. */
  function Subject(formType: string): (r: string)
    ensures |r| >= 21 && r[..10] == SubjectPrefix && r[|r| - 11..] == SubjectSuffix
    ensures '_' !in r[10..|r| - 11]
    ensures formType != "" ==> r[10..|r| - 11] == Label(formType)
    ensures formType == "" ==> r == "[Website] Form submission"
  {
    var shown := if formType != "" then Label(formType) else "Form";
    var r := SubjectPrefix + shown + SubjectSuffix;
    assert r[10..|r| - 11] == shown;
    r
  }

  /** `sendNotificationEmail`'s message for the stored fields. */
  function ComposeEmail(fields: Fields, env: Env): (m: Email)
    ensures m.to == (if IsSet(env.mailTo) then env.mailTo.value else DefaultAddress)
    ensures m.from == (if IsSet(env.mailFrom) then env.mailFrom.value else if IsSet(env.smtpUser) then env.smtpUser.value else DefaultAddress)
    ensures fields.email != "" ==> m.replyTo == fields.email
    ensures fields.email == "" ==> m.replyTo == m.from
    ensures m.subject == Subject(fields.formType)
    ensures m.text == Join("\n", LabelLines(Label, FieldKeys, Values(fields)))
  {
    var to := OrElse(env.mailTo, DefaultAddress);
    var from := OrElse(env.mailFrom, OrElse(env.smtpUser, DefaultAddress));
    Email(to, from, OrElse(Some(fields.email), from), Subject(fields.formType),
          Join("\n", LabelLines(Label, FieldKeys, Values(fields))))
  }

  // ---------------------------------------------------------------------
  // handleSubmission

  /** What the request checks decide before anything is stored. */
  datatype Gate =
    | Honeypot
    | NoFormType
    | Incomplete(missing: seq<string>)
    | Accepted(fields: Fields)

  /** The parsed body; an absent body is an empty object. */
  function BodyData(body: Option<Payload>): Payload
  {
    if body.Some? then body.value else map[]
  }

  /** A truthy `website` field marks a bot. */
  predicate IsBot(data: Payload)
  {
    "website" in data && Truthy(data["website"])
  }

  /** The checks of `handleSubmission`, in the order it makes them. */
  function Screen(body: Option<Payload>, meta: RequestMeta, now: UtcTime): (g: Gate)
    ensures g.Honeypot? <==> IsBot(BodyData(body))
    ensures g.NoFormType? <==> !IsBot(BodyData(body)) && PickValue(BodyData(body), ["formType", "form_type"]) == ""
    ensures g.Incomplete? ==>
              g.missing != []
              && g.missing == MissingOf(RequiredByType(PickValue(BodyData(body), ["formType", "form_type"])),
                                        BuildFields(BodyData(body), meta, now))
    ensures g.Accepted? ==>
              g.fields == BuildFields(BodyData(body), meta, now) && g.fields.formType != ""
              && forall x :: x in RequiredByType(g.fields.formType) ==> !IsMissing(g.fields, x)
  {
    var data := BodyData(body);
    if IsBot(data) then Honeypot
    else
      var fields := BuildFields(data, meta, now);
      if fields.formType == "" then NoFormType
      else
        var missing := MissingOf(RequiredByType(fields.formType), fields);
        if missing != [] then Incomplete(missing)
        else
          MissingOfEmptyIff(RequiredByType(fields.formType), fields);
          Accepted(fields)
  }

  /** How `sendMail` ended: delivered, or rejected with the message of the
      thrown `Error` (`None` when the thrown value is not an `Error`). */
  datatype Delivery = Delivered | Rejected(errorMessage: Option<string>)

  /** The reply once the submission is stored. */
  function ReplyAfterStoring(t: Transport, delivery: Delivery): (r: Reply)
    ensures r.status == 200 <==> t.Transport? && delivery.Delivered?
    ensures r.status != 200 ==> r.status == 500 && r.body.Error?
    ensures t.MissingConfig? ==> r.body == Error(MissingConfigMessage)
  {
    if t.MissingConfig? then Reply(500, Error(MissingConfigMessage))
    else match delivery
      case Delivered => Reply(200, Ok)
      case Rejected(m) => Reply(500, Error(if m.Some? then m.value else "Email failed"))
  }

  /** How the file operations in the `try` end: `appendCsv`'s write and
      `writeXlsFromCsv`'s read and write either succeed or throw an
      `Error` with the given message. A failed write leaves its file as it
      was. */
  datatype FileOutcome = FileOutcome(appendFailure: Option<string>, exportFailure: Option<string>)

  /** The reply of the `try` block: a storage error is caught and replied
      with its message before any mail is attempted; otherwise the reply
      follows the mail. */
  function StoredReply(files: FileOutcome, t: Transport, delivery: Delivery): (r: Reply)
    ensures r.status == 200 <==>
              files.appendFailure.None? && files.exportFailure.None? && t.Transport? && delivery.Delivered?
    ensures files.appendFailure.Some? ==> r == Reply(500, Error(files.appendFailure.value))
    ensures files.appendFailure.None? && files.exportFailure.Some? ==> r == Reply(500, Error(files.exportFailure.value))
    ensures r.status != 200 ==> r.status == 500 && r.body.Error?
  {
    if files.appendFailure.Some? then Reply(500, Error(files.appendFailure.value))
    else if files.exportFailure.Some? then Reply(500, Error(files.exportFailure.value))
    else ReplyAfterStoring(t, delivery)
  }

  /** The part of `handleSubmission` after the checks: the submission is
      appended to the log and the export regenerated before the e-mail is
      attempted, so a mail failure, or a failed export, still leaves it
      stored. `mail` is the message handed to `sendMail`, if it got that
      far. */
  method StoreAndNotify(store: ServerLog.Storage, fields: Fields, env: Env, files: FileOutcome, delivery: Delivery)
    returns (reply: Reply, mail: Option<Email>)
    modifies store
    ensures files.appendFailure.Some? ==> store.csv == old(store.csv)
    ensures files.appendFailure.None? ==>
              store.csv == Some(ServerLog.AppendedCsv(old(store.csv), FieldKeys, Values(fields)))
    ensures files.appendFailure.None? && files.exportFailure.None? ==>
              store.xls == Some(ServerLog.ExportOf(store.csv.value))
    ensures files.appendFailure.Some? || files.exportFailure.Some? ==> store.xls == old(store.xls) && mail == None
    ensures reply == StoredReply(files, TransportFor(env), delivery)
    ensures files.appendFailure.None? && files.exportFailure.None? ==>
              mail == (if TransportFor(env).Transport? then Some(ComposeEmail(fields, env)) else None)
  {
    mail := None;
    if files.appendFailure.Some? {
      reply := Reply(500, Error(files.appendFailure.value));
      return;
    }
    store.AppendCsv(fields);
    if files.exportFailure.Some? {
      reply := Reply(500, Error(files.exportFailure.value));
      return;
    }
    store.WriteXlsFromCsv();
    var transport := TransportFor(env);
    if transport.MissingConfig? {
      reply := Reply(500, Error(MissingConfigMessage));
      return;
    }
    mail := Some(ComposeEmail(fields, env));
    match delivery {
      case Delivered => reply := Reply(200, Ok);
      case Rejected(m) => reply := Reply(500, Error(if m.Some? then m.value else "Email failed"));
    }
  }

  /** `handleSubmission`: the checks of `Screen`, then, for an accepted
      submission, `StoreAndNotify`; nothing is stored otherwise. */
  method HandleSubmission(store: ServerLog.Storage, body: Option<Payload>, meta: RequestMeta, now: UtcTime,
                          env: Env, files: FileOutcome, delivery: Delivery)
    returns (reply: Reply, mail: Option<Email>)
    modifies store
    ensures var g := Screen(body, meta, now);
      && (!g.Accepted? ==> store.csv == old(store.csv) && store.xls == old(store.xls) && mail == None)
      && (g.Honeypot? ==> reply == Reply(200, Ok))
      && (g.NoFormType? ==> reply == Reply(400, Error("Missing form type")))
      && (g.Incomplete? ==> reply == Reply(400, Error("Missing required fields: " + Join(", ", g.missing))))
      && (g.Accepted? && files.appendFailure.Some? ==> store.csv == old(store.csv))
      && (g.Accepted? && files.appendFailure.None? ==>
            store.csv == Some(ServerLog.AppendedCsv(old(store.csv), FieldKeys, Values(g.fields))))
      && (g.Accepted? && files.appendFailure.None? && files.exportFailure.None? ==>
            store.xls == Some(ServerLog.ExportOf(store.csv.value))
            && mail == (if TransportFor(env).Transport? then Some(ComposeEmail(g.fields, env)) else None))
      && (g.Accepted? && (files.appendFailure.Some? || files.exportFailure.Some?) ==>
            store.xls == old(store.xls) && mail == None)
      && (g.Accepted? ==> reply == StoredReply(files, TransportFor(env), delivery))
  {
    mail := None;
    var data := BodyData(body);
    if "website" in data && Truthy(data["website"]) {
      reply := Reply(200, Ok);
      return;
    }
    var fields := BuildFields(data, meta, now);
    if fields.formType == "" {
      reply := Reply(400, Error("Missing form type"));
      return;
    }
    var missing := CollectMissing(RequiredByType(fields.formType), fields);
    if |missing| > 0 {
      reply := Reply(400, Error("Missing required fields: " + Join(", ", missing)));
      return;
    }
    reply, mail := StoreAndNotify(store, fields, env, files, delivery);
  }

  // ---------------------------------------------------------------------
  // Stored values stay on one line

  /** Text that cannot end a CSV line early. */
  predicate OneLine(s: string)
  {
    '\n' !in s && '\r' !in s
  }

  /** `JSON.stringify` without an indent writes a line break inside a
      string as an escape and puts none between members, so the JSON text
      of a structured value holds no raw line break. The model takes that
      text as given, so this fact is a condition on the payload. */
  predicate JsonOnOneLine(data: Payload)
  {
    forall key :: key in data && data[key].Obj? && data[key].json.Some? ==> OneLine(data[key].json.value)
  }

  /** Cleaning turns `\n` and `\r` into spaces with the other controls. */
  lemma CleanStringOneLine(s: string)
    ensures OneLine(CleanString(s))
  {
    CleanStringHasNoControls(s);
  }

  lemma CleanValueOneLine(v: JsValue)
    requires v.Obj? && v.json.Some? ==> OneLine(v.json.value)
    ensures OneLine(CleanValue(v))
  {
    if !v.Obj? && !v.Null? && !v.Undefined? {
      CleanStringOneLine(ScalarText(v));
    }
  }

  /** Every picked value of a payload whose JSON texts are on one line is
      on one line. */
  lemma {:induction false} PickValueOneLine(data: Payload, keys: seq<string>)
    requires JsonOnOneLine(data)
    ensures OneLine(PickValue(data, keys))
    decreases |keys|
  {
    if keys != [] {
      if Accepts(data, keys[0]) {
        CleanValueOneLine(data[keys[0]]);
      } else {
        PickValueOneLine(data, keys[1..]);
      }
    }
  }

  lemma Pad2Digits(n: nat)
    ensures OneLine(Pad2(n))
  {
  }

  /** The stamp is digits and the separators `-`, ` ` and `:`, for any
      clock reading. */
  lemma TimestampOneLine(t: UtcTime)
    ensures OneLine(FormatTimestamp(t))
  {
    Pad2Digits(t.month + 1);
    Pad2Digits(t.day);
    Pad2Digits(t.hour);
    Pad2Digits(t.minute);
    Pad2Digits(t.second);
    StampOneLine(NatToString(t.year), Pad2(t.month + 1), Pad2(t.day), Pad2(t.hour), Pad2(t.minute), Pad2(t.second));
  }

  lemma StampOneLine(y: string, mo: string, d: string, h: string, mi: string, s: string)
    requires OneLine(y) && OneLine(mo) && OneLine(d) && OneLine(h) && OneLine(mi) && OneLine(s)
    ensures OneLine(y + "-" + mo + "-" + d + " " + h + ":" + mi + ":" + s)
  {
  }

  /** Each of the eighteen fields is on one line. */
  predicate FieldsOnOneLine(f: Fields)
  {
    && OneLine(f.submittedAt) && OneLine(f.formType) && OneLine(f.name) && OneLine(f.email)
    && OneLine(f.phone) && OneLine(f.subject) && OneLine(f.message) && OneLine(f.destination)
    && OneLine(f.fromPlace) && OneLine(f.toPlace) && OneLine(f.departureDate) && OneLine(f.returnDate)
    && OneLine(f.passengers) && OneLine(f.cabinClass) && OneLine(f.tripType) && OneLine(f.pageUrl)
    && OneLine(f.ip) && OneLine(f.userAgent)
  }

  lemma ValuesOnOneLine(f: Fields)
    requires FieldsOnOneLine(f)
    ensures ServerLog.SingleLine(Values(f))
  {
  }

  /** Every field `buildFields` produces is on one line. */
  lemma BuildFieldsOnOneLine(data: Payload, meta: RequestMeta, now: UtcTime)
    requires JsonOnOneLine(data)
    ensures FieldsOnOneLine(BuildFields(data, meta, now))
  {
    PickValueOneLine(data, ["formType", "form_type"]);
    PickValueOneLine(data, ["name", "fullName", "full_name"]);
    PickValueOneLine(data, ["email"]);
    PickValueOneLine(data, ["phone"]);
    PickValueOneLine(data, ["subject"]);
    PickValueOneLine(data, ["message"]);
    PickValueOneLine(data, ["destination"]);
    PickValueOneLine(data, ["from"]);
    PickValueOneLine(data, ["to"]);
    PickValueOneLine(data, ["departureDate", "departure_date"]);
    PickValueOneLine(data, ["returnDate", "return_date"]);
    PickValueOneLine(data, ["passengers"]);
    PickValueOneLine(data, ["cabinClass", "cabin_class"]);
    PickValueOneLine(data, ["tripType", "trip_type"]);
    PickValueOneLine(data, ["pageUrl", "page_url"]);
    TimestampOneLine(now);
    CleanStringOneLine(OrElse(meta.ip, OrElse(meta.forwardedFor, "")));
    CleanStringOneLine(OrElse(meta.userAgent, ""));
  }

  /** The stored values of a submission are on one line, so each
      submission adds exactly one line to the log. */
  lemma BuildFieldsSingleLine(data: Payload, meta: RequestMeta, now: UtcTime)
    requires JsonOnOneLine(data)
    ensures ServerLog.SingleLine(Values(BuildFields(data, meta, now)))
  {
    BuildFieldsOnOneLine(data, meta, now);
    ValuesOnOneLine(BuildFields(data, meta, now));
  }

  /** The inputs of one accepted submission. */
  datatype Arrival = Arrival(body: Option<Payload>, meta: RequestMeta, now: UtcTime)

  /** The records that accepted submissions store, as `Screen` builds them. */
  function StoredFields(arrivals: seq<Arrival>): (r: seq<Fields>)
    ensures |r| == |arrivals|
    ensures forall i :: 0 <= i < |r| ==> r[i] == BuildFields(BodyData(arrivals[i].body), arrivals[i].meta, arrivals[i].now)
  {
    seq(|arrivals|, i requires 0 <= i < |arrivals| => BuildFields(BodyData(arrivals[i].body), arrivals[i].meta, arrivals[i].now))
  }

  lemma StoredFieldsSingleLine(arrivals: seq<Arrival>)
    requires forall i :: 0 <= i < |arrivals| ==> JsonOnOneLine(BodyData(arrivals[i].body))
    ensures forall i :: 0 <= i < |arrivals| ==> ServerLog.SingleLine(Values(StoredFields(arrivals)[i]))
  {
    var fields := StoredFields(arrivals);
    forall i | 0 <= i < |arrivals| ensures ServerLog.SingleLine(Values(fields[i])) {
      BuildFieldsSingleLine(BodyData(arrivals[i].body), arrivals[i].meta, arrivals[i].now);
    }
  }

  /** Starting from no file, N accepted submissions leave a log of N+1
      lines, the header then one line per submission, and an export whose
      rows decode to the keys and to every stored value exactly. */
  lemma HandlerLogRoundTrip(arrivals: seq<Arrival>)
    requires arrivals != []
    requires forall i :: 0 <= i < |arrivals| ==> JsonOnOneLine(BodyData(arrivals[i].body))
    ensures var records := ServerLog.ValuesOf(StoredFields(arrivals));
      var log := ServerLog.CsvAfter(None, FieldKeys, records).value;
      && ServerLog.LogLines(log) == [ServerLog.HeaderLine(FieldKeys)] + ServerLog.RowLines(records)
      && ServerLog.ExportRows(log) == [FieldKeys] + records
      && XlsTable.DecodeTable(ServerLog.ExportOf(log), ServerLog.Unescape) == Some(XlsTable.TaggedRows([FieldKeys] + records))
  {
    var fields := StoredFields(arrivals);
    StoredFieldsSingleLine(arrivals);
    KeysHaveNoLineBreaks();
    KeysHaveNoQuotesOrCommas();
    ServerLog.FreshLogLineCount(FieldKeys, ServerLog.ValuesOf(fields));
    ServerLog.FreshLogExportRows(FieldKeys, ServerLog.ValuesOf(fields));
    ServerLog.FreshLogExportRoundTrip(fields);
  }
}
