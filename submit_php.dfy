/** The PHP form handler (`public/api/submit.php`): method and payload
    checks, the honeypot, value cleaning and picking, the required-field
    check, the CSV log with its header row, the XLS export and the e-mail
    notice. PHP strings are byte strings: each character of a `string`
    here stands for one byte. */
module SubmitPhp {

  import opened Wrappers
  import opened Text
  import opened Submission
  import opened Utf8
  import XlsTable
  import PhpHtml

  /** A decoded request value: JSON decoded into arrays (so no objects), or
      a `$_POST` entry. A number carries the text of its `(string)` cast and
      whether it is zero; an array carries its size and the result of
      `json_encode` on it (`None` when encoding fails). */
  datatype PhpValue =
    | PNull
    | PBool(b: bool)
    | PNumber(text: string, isZero: bool)
    | PStr(s: string)
    | PArray(size: nat, encoded: Option<string>)

  /** A PHP array with string keys. */
  type PhpArray = map<string, PhpValue>

  /** PHP `empty()`: null, false, zero, "", "0" and the empty array. */
  predicate IsEmpty(v: PhpValue)
  {
    match v
    case PNull => true
    case PBool(b) => !b
    case PNumber(_, zero) => zero
    case PStr(s) => s == "" || s == "0"
    case PArray(n, _) => n == 0
  }

  /** The string `clean_value` works on: arrays become their JSON text
      (a failed encoding is `false`, whose cast is ""), other values their
      `(string)` cast. */
  function StringCast(v: PhpValue): (r: string)
    ensures v.PStr? ==> r == v.s
    ensures v.PNull? || v == PBool(false) ==> r == ""
  {
    match v
    case PNull => ""
    case PBool(b) => if b then "1" else ""
    case PNumber(text, _) => text
    case PStr(s) => s
    case PArray(_, encoded) => encoded.GetOr("")
  }

  /** The bytes `trim` removes by default. */
  predicate IsTrimByte(c: char)
  {
    c == ' ' || c == '\t' || c == '\n' || c == '\r' || c == '\0' || c == '\U{B}'
  }

  /** `ltrim`: the bytes `trim` removes, dropped from the start. */
  function TrimStart(s: string): (r: string)
    ensures |r| <= |s| && r == s[|s| - |r|..]
    ensures r == [] || !IsTrimByte(r[0])
  {
    if s == [] || !IsTrimByte(s[0]) then s else TrimStart(s[1..])
  }

  /** `rtrim`: the bytes `trim` removes, dropped from the end. */
  function TrimEnd(s: string): (r: string)
    ensures |r| <= |s| && r == s[..|r|]
    ensures r == [] || !IsTrimByte(r[|r| - 1])
  {
    if s == [] || !IsTrimByte(s[|s| - 1]) then s else TrimEnd(s[..|s| - 1])
  }

  /** `trim` with its default byte set. */
  function Trim(s: string): (r: string)
    ensures r == [] || (!IsTrimByte(r[0]) && !IsTrimByte(r[|r| - 1]))
    ensures |r| <= |s|
  {
    TrimEnd(TrimStart(s))
  }

  /** `ltrim` drops only trim bytes. */
  lemma {:induction false} TrimStartDrops(s: string)
    ensures forall k :: 0 <= k < |s| - |TrimStart(s)| ==> IsTrimByte(s[k])
  {
    if s != [] && IsTrimByte(s[0]) {
      TrimStartDrops(s[1..]);
      assert forall k :: 1 <= k < |s| ==> s[k] == s[1..][k - 1];
    }
  }

  /** `rtrim` drops only trim bytes. */
  lemma {:induction false} TrimEndDrops(s: string)
    ensures forall k :: |TrimEnd(s)| <= k < |s| ==> IsTrimByte(s[k])
  {
    if s != [] && IsTrimByte(s[|s| - 1]) {
      TrimEndDrops(s[..|s| - 1]);
      assert forall k :: 0 <= k < |s| - 1 ==> s[k] == s[..|s| - 1][k];
    }
  }

  const MaxBytes: nat := 4000

  /** A value `clean_value` leaves as it is. */
  predicate IsClean(s: string)
  {
    |s| <= MaxBytes && IsUtf8(s) && (forall i :: 0 <= i < |s| ==> !IsControl(s[i]))
    && (s == [] || (!IsTrimByte(s[0]) && !IsTrimByte(s[|s| - 1])))
  }

  /** The replacement `preg_replace('/[\x00-\x1F\x7F]/u', ' ', ...)`
      makes on well-formed text: every control byte becomes a space. */
  function Sanitised(s: string): (r: string)
    ensures |r| == |s|
    ensures forall i :: 0 <= i < |s| ==> r[i] == if IsControl(s[i]) then ' ' else s[i]
  {
    if s == [] then [] else [if IsControl(s[0]) then ' ' else s[0]] + Sanitised(s[1..])
  }

  /** The replacement leaves text without control bytes as it is. */
  lemma SanitisedPlain(s: string)
    requires forall i :: 0 <= i < |s| ==> !IsControl(s[i])
    ensures Sanitised(s) == s
  {
  }

  /** `clean_value`: trim first, then replace control bytes by spaces (a
      replacement over ill-formed UTF-8 fails and gives ""), then cut to
      4000 bytes. */
  function CleanValue(v: PhpValue): (r: string)
    ensures |r| <= MaxBytes
  {
    var trimmed := Trim(StringCast(v));
    var replaced := if IsUtf8(trimmed) then Sanitised(trimmed) else "";
    Take(replaced, MaxBytes)
  }

  /** A cleaned value holds no control byte. */
  lemma CleanValueHasNoControls(v: PhpValue)
    ensures forall i :: 0 <= i < |CleanValue(v)| ==> !IsControl(CleanValue(v)[i])
  {
    var trimmed := Trim(StringCast(v));
    if IsUtf8(trimmed) {
      CutKeepsNoControls(Sanitised(trimmed));
    }
  }

  lemma CutKeepsNoControls(s: string)
    requires forall i :: 0 <= i < |s| ==> !IsControl(s[i])
    ensures forall i :: 0 <= i < |Take(s, MaxBytes)| ==> !IsControl(Take(s, MaxBytes)[i])
  {
  }

  /** Text that is not well-formed UTF-8 once trimmed is dropped. */
  lemma IllFormedValueIsDropped(v: PhpValue)
    requires !IsUtf8(Trim(StringCast(v)))
    ensures CleanValue(v) == ""
  {
  }

  /** Well-formed text that `trim` leaves as it is and that fits in
      4000 bytes. */
  predicate KeptByTrim(t: string)
  {
    IsUtf8(t) && Trim(t) == t && |t| <= MaxBytes
  }

  /** Well-formed text that `trim` leaves as it is is sanitised and cut. */
  lemma CleanValueOfTrimmedText(t: string)
    requires IsUtf8(t) && Trim(t) == t
    ensures CleanValue(PStr(t)) == Take(Sanitised(t), MaxBytes)
  {
  }

  /** Such text is only sanitised. */
  lemma CleanValueOfPlainText(t: string)
    requires KeptByTrim(t)
    ensures CleanValue(PStr(t)) == Sanitised(t)
  {
  }

  lemma CleanValueOfSanitised(t: string, expected: string)
    requires KeptByTrim(t) && Sanitised(t) == expected
    ensures CleanValue(PStr(t)) == expected
  {
    CleanValueOfPlainText(t);
  }

  /** A clean string is left as it is. */
  lemma CleanValueKeepsCleanText(s: string)
    requires IsClean(s)
    ensures CleanValue(PStr(s)) == s
  {
    TrimOfTrimmed(s);
    SanitisedPlain(s);
    CleanValueOfSanitised(s, s);
  }

  lemma TrimOfTrimmed(s: string)
    requires s == [] || (!IsTrimByte(s[0]) && !IsTrimByte(s[|s| - 1]))
    ensures Trim(s) == s
  {
  }

  /** Well-formed text without control bytes, shorter than 4000 bytes and
      not starting with a trim byte, followed by a control byte that `trim`
      keeps (any but tab, line feed, carriage return, NUL and vertical
      tab). */
  predicate EndsInKeptControl(s: string, c: char)
  {
    IsUtf8(s) && s != [] && !IsTrimByte(s[0]) && |s| < MaxBytes
    && (forall i :: 0 <= i < |s| ==> !IsControl(s[i]))
    && IsControl(c) && !IsTrimByte(c)
  }

  /** Trimming comes before the replacement, so such a control byte at the
      end becomes a trailing space. */
  lemma TrailingControlBecomesSpace(s: string, c: char)
    requires EndsInKeptControl(s, c)
    ensures CleanValue(PStr(s + [c])) == s + " "
  {
    AppendedControl(s, c);
    CleanValueOfSanitised(s + [c], s + " ");
  }

  lemma AppendedControl(s: string, c: char)
    requires EndsInKeptControl(s, c)
    ensures KeptByTrim(s + [c]) && Sanitised(s + [c]) == s + " "
  {
    AppendedControlIsKeptByTrim(s, c);
    AppendedControlIsUtf8(s, c);
    AppendedControlIsReplaced(s, c);
    AppendedControlFits(s, c);
  }

  lemma AppendedControlFits(s: string, c: char)
    requires EndsInKeptControl(s, c)
    ensures |s + [c]| <= MaxBytes
  {
  }

  lemma AppendedControlIsKeptByTrim(s: string, c: char)
    requires EndsInKeptControl(s, c)
    ensures Trim(s + [c]) == s + [c]
  {
    var t := s + [c];
    assert t[0] == s[0] && t[|t| - 1] == c;
    TrimOfTrimmed(t);
  }

  lemma AppendedControlIsUtf8(s: string, c: char)
    requires EndsInKeptControl(s, c)
    ensures IsUtf8(s + [c])
  {
    assert [c][1..] == [];
    OneSequence([c]);
    Utf8Append(s, [c]);
  }

  lemma AppendedControlIsReplaced(s: string, c: char)
    requires EndsInKeptControl(s, c)
    ensures Sanitised(s + [c]) == s + " "
  {
    var t := s + [c];
    forall i | 0 <= i < |s| ensures !IsControl(t[i]) {
      assert t[i] == s[i];
    }
  }

  /** Printable ASCII other than the space: no control byte, no trim
      byte. */
  predicate Printable(a: string)
  {
    forall i :: 0 <= i < |a| ==> 0x21 <= a[i] as int <= 0x7E
  }

  /** "é" in UTF-8. */
  const EAcute: string := "\U{C3}\U{A9}"

  /** The cut at 4000 bytes can fall inside a multi-byte character, so a
      clean value need not be well-formed UTF-8: 3999 printable bytes and
      an "é" are cut after the lead byte of the "é". */
  lemma CutCanSplitCharacter(a: string)
    requires |a| == MaxBytes - 1 && Printable(a)
    ensures IsUtf8(a + EAcute) && !IsUtf8(CleanValue(PStr(a + EAcute)))
  {
    LongTextIsUtf8(a);
    LongTextIsCut(a);
    PrintableIsUtf8(a);
    EndsInLeadByte(a, '\U{C3}');
  }

  lemma PrintableIsUtf8(a: string)
    requires Printable(a)
    ensures IsUtf8(a)
  {
    AsciiIsUtf8(a);
  }

  lemma LongTextIsUtf8(a: string)
    requires Printable(a)
    ensures IsUtf8(a + EAcute)
  {
    PrintableIsUtf8(a);
    OneSequence(EAcute);
    Utf8Append(a, EAcute);
  }

  lemma LongTextIsTrimmed(a: string)
    requires a != [] && Printable(a)
    ensures Trim(a + EAcute) == a + EAcute
  {
    var s := a + EAcute;
    assert s[0] == a[0] && s[|s| - 1] == '\U{A9}';
    TrimOfTrimmed(s);
  }

  lemma LongTextIsPlain(a: string)
    requires Printable(a)
    ensures Sanitised(a + EAcute) == a + EAcute
  {
    var s := a + EAcute;
    forall i | 0 <= i < |s| ensures !IsControl(s[i]) {
      if i < |a| {
        assert s[i] == a[i];
      }
    }
    SanitisedPlain(s);
  }

  lemma LongTextTake(a: string)
    requires |a| == MaxBytes - 1
    ensures Take(a + EAcute, MaxBytes) == a + ['\U{C3}']
  {
  }

  lemma LongTextIsCut(a: string)
    requires |a| == MaxBytes - 1 && Printable(a)
    ensures CleanValue(PStr(a + EAcute)) == a + ['\U{C3}']
  {
    LongTextIsUtf8(a);
    LongTextIsTrimmed(a);
    LongTextIsPlain(a);
    CleanValueOfTrimmedText(a + EAcute);
    LongTextTake(a);
  }

  /** A raw value that `pick_value` accepts: present, and not the empty
      string (other empty values, such as null, are accepted). */
  predicate Accepts(data: PhpArray, key: string)
  {
    key in data && data[key] != PStr("")
  }

  /** `pick_value`: the cleaned value of the first accepted key, else "". */
  function PickValue(data: PhpArray, keys: seq<string>): (r: string)
    ensures (forall k :: 0 <= k < |keys| ==> !Accepts(data, keys[k])) ==> r == ""
    ensures |r| <= MaxBytes
  {
    if keys == [] then ""
    else if Accepts(data, keys[0]) then CleanValue(data[keys[0]])
    else PickValue(data, keys[1..])
  }

  /** The first accepted key decides, whatever follows it. */
  lemma {:induction false} PickValueFirstAccepted(data: PhpArray, keys: seq<string>, k: nat)
    requires k < |keys| && Accepts(data, keys[k])
    requires forall j :: 0 <= j < k ==> !Accepts(data, keys[j])
    ensures PickValue(data, keys) == CleanValue(data[keys[k]])
  {
    if k > 0 {
      assert !Accepts(data, keys[0]);
      assert forall j :: 0 <= j < k - 1 ==> keys[1..][j] == keys[j + 1];
      PickValueFirstAccepted(data, keys[1..], k - 1);
    }
  }

  /** A request as the script sees it. `json` is the decoded body when it
      decodes to an array; `post` is `$_POST`, always an array. */
  datatype Request = Request(
    requestMethod: Option<string>,
    json: Option<PhpArray>,
    post: PhpArray,
    remoteAddr: Option<string>,
    userAgent: Option<string>)

  /** The payload: the decoded body, or `$_POST` when the body is not a
      JSON array. Since `$_POST` is always an array, the "Invalid payload"
      reply can never be sent. */
  function RequestData(req: Request): PhpArray
  {
    if req.json.Some? then req.json.value else req.post
  }

  /** A non-empty `website` field marks a bot. */
  predicate IsBot(data: PhpArray)
  {
    "website" in data && !IsEmpty(data["website"])
  }

  /** The stored record; `submittedAt` is the `gmdate` text. */
  function BuildFields(data: PhpArray, submittedAt: string, req: Request): (f: Fields)
    ensures f.submittedAt == submittedAt
    ensures |f.ip| <= MaxBytes && |f.userAgent| <= MaxBytes
    ensures req.remoteAddr.None? ==> f.ip == ""
  {
    Fields(
      submittedAt := submittedAt,
      formType := PickValue(data, ["formType", "form_type"]),
      name := PickValue(data, ["name", "fullName", "full_name"]),
      email := PickValue(data, ["email"]),
      phone := PickValue(data, ["phone"]),
      subject := PickValue(data, ["subject"]),
      message := PickValue(data, ["message"]),
      destination := PickValue(data, ["destination"]),
      fromPlace := PickValue(data, ["from"]),
      toPlace := PickValue(data, ["to"]),
      departureDate := PickValue(data, ["departureDate", "departure_date"]),
      returnDate := PickValue(data, ["returnDate", "return_date"]),
      passengers := PickValue(data, ["passengers"]),
      cabinClass := PickValue(data, ["cabinClass", "cabin_class"]),
      tripType := PickValue(data, ["tripType", "trip_type"]),
      pageUrl := PickValue(data, ["pageUrl", "page_url"]),
      ip := CleanValue(PStr(req.remoteAddr.GetOr(""))),
      userAgent := CleanValue(PStr(req.userAgent.GetOr(""))))
  }

  /** The form type is taken from `formType` when that is present and not
      "", else from `form_type`; with neither present it is empty. */
  lemma FormTypeAliases(data: PhpArray, submittedAt: string, req: Request)
    ensures "formType" in data && data["formType"] != PStr("") ==>
              BuildFields(data, submittedAt, req).formType == CleanValue(data["formType"])
    ensures !Accepts(data, "formType") && Accepts(data, "form_type") ==>
              BuildFields(data, submittedAt, req).formType == CleanValue(data["form_type"])
    ensures "formType" !in data && "form_type" !in data ==> BuildFields(data, submittedAt, req).formType == ""
  {
    var keys := ["formType", "form_type"];
    if Accepts(data, "formType") {
      PickValueFirstAccepted(data, keys, 0);
    } else if Accepts(data, "form_type") {
      PickValueFirstAccepted(data, keys, 1);
    }
  }

  /** What the request checks decide before anything is stored. */
  datatype Gate =
    | NotPost
    | Honeypot
    | NoFormType
    | Incomplete(missing: seq<string>)
    | Accepted(fields: Fields)

  /** The checks of the script, in the order it makes them. */
  function Screen(req: Request, submittedAt: string): (g: Gate)
    ensures g.NotPost? <==> req.requestMethod != Some("POST")
    ensures g.Honeypot? <==> req.requestMethod == Some("POST") && IsBot(RequestData(req))
    ensures g.NoFormType? <==>
              req.requestMethod == Some("POST") && !IsBot(RequestData(req))
              && PickValue(RequestData(req), ["formType", "form_type"]) == ""
    ensures g.Incomplete? ==>
              g.missing != []
              && g.missing == MissingOf(RequiredByType(PickValue(RequestData(req), ["formType", "form_type"])),
                                        BuildFields(RequestData(req), submittedAt, req))
    ensures g.Accepted? ==>
              g.fields == BuildFields(RequestData(req), submittedAt, req) && g.fields.formType != ""
              && forall x :: x in RequiredByType(g.fields.formType) ==> !IsMissing(g.fields, x)
  {
    if req.requestMethod != Some("POST") then NotPost
    else
      var data := RequestData(req);
      if IsBot(data) then Honeypot
      else
        var fields := BuildFields(data, submittedAt, req);
        if fields.formType == "" then NoFormType
        else
          var missing := MissingOf(RequiredByType(fields.formType), fields);
          if missing != [] then Incomplete(missing)
          else
            MissingOfEmptyIff(RequiredByType(fields.formType), fields);
            Accepted(fields)
  }

  // ---------------------------------------------------------------------
  // Storage: the CSV log, the XLS export and the mail error log

  /** The log after one append: the header row first when the log is
      empty, then the record. */
  function LogAfter(records: seq<seq<string>>, header: seq<string>, row: seq<string>): (r: seq<seq<string>>)
    ensures r != [] && r[|r| - 1] == row
    ensures records == [] ==> r == [header, row]
    ensures records != [] ==> r == records + [row]
  {
    (if records == [] then [header] else []) + records + [row]
  }

  /** A log whose first row is the header and whose every row has as many
      cells as the header. */
  predicate WellFormedLog(records: seq<seq<string>>, header: seq<string>)
  {
    records != [] && records[0] == header && forall i :: 0 <= i < |records| ==> |records[i]| == |header|
  }

  /** Appends keep the log well-formed, from an empty file on. */
  lemma LogAfterKeepsShape(records: seq<seq<string>>, header: seq<string>, row: seq<string>)
    requires records == [] || WellFormedLog(records, header)
    requires |row| == |header|
    ensures WellFormedLog(LogAfter(records, header, row), header)
  {
  }

  /** The log a sequence of appends leaves behind. */
  function LogOf(records: seq<seq<string>>, header: seq<string>, rows: seq<seq<string>>): seq<seq<string>>
    decreases |rows|
  {
    if rows == [] then records
    else LogOf(LogAfter(records, header, rows[0]), header, rows[1..])
  }

  /** Starting from a non-empty log, each append adds exactly its own
      row. */
  lemma {:induction false} LogOfNonEmpty(records: seq<seq<string>>, header: seq<string>, rows: seq<seq<string>>)
    requires records != []
    ensures LogOf(records, header, rows) == records + rows
    decreases |rows|
  {
    if rows != [] {
      LogOfNonEmpty(records + [rows[0]], header, rows[1..]);
      assert records + [rows[0]] + rows[1..] == records + rows;
    }
  }

  /** A fresh log holds one header and then one row per append. */
  lemma FreshLog(header: seq<string>, rows: seq<seq<string>>)
    requires rows != []
    ensures LogOf([], header, rows) == [header] + rows
  {
    LogOfNonEmpty([header, rows[0]], header, rows[1..]);
    assert [header, rows[0]] + rows[1..] == [header] + rows;
  }

  /** The export of the log: row 0 in `th` cells, the rest in `td`, every
      cell escaped. */
  function ExportOf(records: seq<seq<string>>): string
  {
    XlsTable.TableHtml(records, PhpHtml.Escape)
  }

  /** Well-formed cells read back from the export, row by row and tag by
      tag. */
  lemma ExportRoundTrip(records: seq<seq<string>>)
    requires forall i, j :: 0 <= i < |records| && 0 <= j < |records[i]| ==> IsUtf8(records[i][j])
    ensures XlsTable.DecodeTable(ExportOf(records), PhpHtml.Unescape) == Some(XlsTable.TaggedRows(records))
  {
    PhpHtml.CellsRecoverable(records);
    XlsTable.TableRoundTrip(records, PhpHtml.Escape, PhpHtml.Unescape);
  }

  /** The files under `storage/`: the CSV log as the records `fgetcsv`
      reads back, the XLS export, and the mail error log. */
  class Storage {
    var records: seq<seq<string>>
    var xls: Option<string>
    var mailErrors: string

    constructor ()
      ensures records == [] && xls == None && mailErrors == []
    {
      records := [];
      xls := None;
      mailErrors := [];
    }

    /** The locked append: the header when the file is empty, then the
        record. */
    method Append(fields: Fields)
      modifies this
      ensures records == LogAfter(old(records), FieldKeys, Values(fields))
      ensures xls == old(xls) && mailErrors == old(mailErrors)
    {
      if records == [] {
        records := records + [FieldKeys];
      }
      records := records + [Values(fields)];
    }

    /** Regenerates the export from the whole log. */
    method WriteXls()
      modifies this
      ensures xls == Some(ExportOf(records))
      ensures records == old(records) && mailErrors == old(mailErrors)
    {
      var html := XlsTable.RenderTable(records, PhpHtml.Escape);
      xls := Some(html);
    }

    method LogMailError(line: string)
      modifies this
      ensures mailErrors == old(mailErrors) + line
      ensures records == old(records) && xls == old(xls)
    {
      mailErrors := mailErrors + line;
    }
  }

  // ---------------------------------------------------------------------
  // The e-mail notice

  /** The bytes `ucwords` treats as word delimiters by default. */
  predicate IsWordDelimiter(c: char)
  {
    c == ' ' || c == '\t' || c == '\r' || c == '\n' || c == '\U{C}' || c == '\U{B}'
  }

  /** `ucwords`: the first byte of the text and every byte after a
      delimiter in upper case (ASCII only). */
  function UcWords(s: string): (r: string)
    ensures |r| == |s|
  {
    seq(|s|, i requires 0 <= i < |s| => if i == 0 || IsWordDelimiter(s[i - 1]) then ToAsciiUpper(s[i]) else s[i])
  }

  /** For example, the form type `hero_flight_search`, once its
      underscores are spaces, gets a capital at the start of each word. */
  lemma UcWordsExample()
    ensures UcWords("hero flight search") == "Hero Flight Search"
  {
  }

  /** Applying `ucwords` twice gives what applying it once does: the
      delimiters stay where they are, and upper case stays upper case. */
  lemma UcWordsIdempotent(s: string)
    ensures UcWords(UcWords(s)) == UcWords(s)
  {
    var r := UcWords(s);
    forall i | 0 <= i < |s| ensures UcWords(r)[i] == r[i] {
      UcWordsSameAt(s, r, i);
    }
  }

  lemma UcWordsSameAt(s: string, r: string, i: nat)
    requires r == UcWords(s) && i < |s|
    ensures UcWords(r)[i] == r[i]
  {
    var starts := i == 0 || IsWordDelimiter(s[i - 1]);
    UcWordsAt(s, i);
    assert r[i] == if starts then ToAsciiUpper(s[i]) else s[i];
    StartsAgree(s, r, i);
    UcWordsAt(r, i);
    assert UcWords(r)[i] == if starts then ToAsciiUpper(r[i]) else r[i];
    UpperTwice(s[i]);
  }

  /** A word starts at the same places before and after `ucwords`. */
  lemma StartsAgree(s: string, r: string, i: nat)
    requires r == UcWords(s) && i < |s|
    ensures (i == 0 || IsWordDelimiter(r[i - 1])) == (i == 0 || IsWordDelimiter(s[i - 1]))
  {
    if i > 0 {
      UcWordsAt(s, i - 1);
      UpperKeepsDelimiter(s[i - 1]);
    }
  }

  /** The character `ucwords` writes at one position. */
  lemma UcWordsAt(s: string, i: nat)
    requires i < |s|
    ensures UcWords(s)[i] == if i == 0 || IsWordDelimiter(s[i - 1]) then ToAsciiUpper(s[i]) else s[i]
  {
  }

  lemma UpperTwice(c: char)
    ensures ToAsciiUpper(ToAsciiUpper(c)) == ToAsciiUpper(c)
  {
  }

  /** Upper-casing never makes or unmakes a delimiter. */
  lemma UpperKeepsDelimiter(c: char)
    ensures IsWordDelimiter(ToAsciiUpper(c)) == IsWordDelimiter(c)
  {
  }

  /** `ucwords` changes only letter case. */
  lemma UcWordsKeepsLetters(s: string)
    ensures EqIgnoreCase(UcWords(s), s)
  {
    var r := UcWords(s);
    forall i | 0 <= i < |s| ensures CharEqIgnoreCase(r[i], s[i]) {
    }
  }

  /** A key as it is shown: underscores as spaces, words capitalised. */
  function Label(key: string): string
  {
    UcWords(ReplaceChar(key, '_', " "))
  }

  const Address: string := "info@vukatravels.co.uk"

  /** The mail handed to `mail()`. */
  datatype Mail = Mail(to: string, subject: string, body: string, headers: string, params: string)

  /** The `foreach` that collects the body lines, over the record's keys
      and values. */
  method ComposeBody(keys: seq<string>, values: seq<string>) returns (body: string)
    requires |keys| == |values|
    ensures body == Join("\n", LabelLines(Label, keys, values))
  {
    var lines: seq<string> := [];
    var i := 0;
    while i < |keys|
      invariant 0 <= i <= |keys|
      invariant lines + LabelLines(Label, keys[i..], values[i..]) == LabelLines(Label, keys, values)
    {
      ghost var rest := LabelLines(Label, keys[i + 1..], values[i + 1..]);
      LabelLinesStep(Label, keys, values, i);
      if values[i] != "" {
        var line := Label(keys[i]) + ": " + values[i];
        assert lines + ([line] + rest) == (lines + [line]) + rest;
        lines := lines + [line];
      } else {
        assert [] + rest == rest;
      }
      i := i + 1;
    }
    assert keys[i..] == [] && values[i..] == [];
    assert LabelLines(Label, keys[i..], values[i..]) == [];
    assert lines + [] == lines;
    body := Join("\n", lines);
  }

  /** The mail for the stored record. */
  function MailFor(fields: Fields, body: string): (m: Mail)
    ensures fields.email != "" ==> Contains(m.headers, "Reply-To: " + fields.email)
    ensures fields.email == "" ==> Contains(m.headers, "Reply-To: " + Address)
    ensures m.to == Address && m.params == "-f" + Address
  {
    var replyTo := if fields.email != "" then fields.email else Address;
    var headers := "From: " + Address + "\r\n" + "Reply-To: " + replyTo + "\r\n"
                   + "Content-Type: text/plain; charset=UTF-8";
    assert OccursAt(headers, "Reply-To: " + replyTo, |"From: " + Address + "\r\n"|);
    Mail(Address, "[Website] " + Label(fields.formType) + " submission", body, headers, "-f" + Address)
  }

  // ---------------------------------------------------------------------
  // The script

  /** What the script's environment decides: whether the log opens for
      appending and for reading, whether `mail()` succeeds, and the message
      of the last PHP error. */
  datatype Outcomes = Outcomes(canAppend: bool, canRead: bool, mailOk: bool, lastError: Option<string>)

  /** The line appended to the mail error log: the submission time in
      brackets, then the last PHP error message or "mail() failed". */
  function MailErrorLine(submittedAt: string, lastError: Option<string>): (line: string)
    ensures |line| >= 4 && line[0] == '[' && line[|line| - 1] == '\n'
    ensures lastError.None? ==> line == "[" + submittedAt + "] mail() failed\n"
  {
    "[" + submittedAt + "] " + lastError.GetOr("mail() failed") + "\n"
  }

  const MailFailedReply: string := "Submission saved, but email notification failed."

  /** The part of the script after the checks. */
  method StoreAndNotify(store: Storage, fields: Fields, env: Outcomes) returns (reply: Reply, mail: Option<Mail>)
    modifies store
    ensures !env.canAppend ==>
              reply == Reply(500, Error("Unable to write submissions log")) && mail == None
              && store.records == old(store.records) && store.xls == old(store.xls)
              && store.mailErrors == old(store.mailErrors)
    ensures env.canAppend ==> store.records == LogAfter(old(store.records), FieldKeys, Values(fields))
    ensures env.canAppend ==> store.xls == if env.canRead then Some(ExportOf(store.records)) else old(store.xls)
    ensures env.canAppend ==> mail == Some(MailFor(fields, Join("\n", LabelLines(Label, FieldKeys, Values(fields)))))
    ensures env.canAppend && env.mailOk ==> reply == Reply(200, Ok) && store.mailErrors == old(store.mailErrors)
    ensures env.canAppend && !env.mailOk ==>
              reply == Reply(500, Error(MailFailedReply))
              && store.mailErrors == old(store.mailErrors) + MailErrorLine(fields.submittedAt, env.lastError)
  {
    mail := None;
    if !env.canAppend {
      reply := Reply(500, Error("Unable to write submissions log"));
      return;
    }
    store.Append(fields);
    if env.canRead {
      store.WriteXls();
    }
    var body := ComposeBody(FieldKeys, Values(fields));
    mail := Some(MailFor(fields, body));
    if !env.mailOk {
      store.LogMailError(MailErrorLine(fields.submittedAt, env.lastError));
      reply := Reply(500, Error(MailFailedReply));
      return;
    }
    reply := Reply(200, Ok);
  }

  /** The checks at the top of the script, each ending it early, as
      statements. */
  method Checks(req: Request, submittedAt: string) returns (g: Gate)
    ensures g == Screen(req, submittedAt)
  {
    if req.requestMethod != Some("POST") {
      return NotPost;
    }
    var data := RequestData(req);
    if "website" in data && !IsEmpty(data["website"]) {
      return Honeypot;
    }
    var fields := BuildFields(data, submittedAt, req);
    if fields.formType == "" {
      return NoFormType;
    }
    var missing := CollectMissing(RequiredByType(fields.formType), fields);
    if |missing| > 0 {
      return Incomplete(missing);
    }
    g := Accepted(fields);
  }

  /** The whole script: the checks of `Screen`, then, for an accepted
      submission, `StoreAndNotify`; nothing is stored otherwise. */
  method HandleRequest(store: Storage, req: Request, submittedAt: string, env: Outcomes)
    returns (reply: Reply, mail: Option<Mail>)
    modifies store
    ensures var g := Screen(req, submittedAt);
      && (!g.Accepted? ==>
            store.records == old(store.records) && store.xls == old(store.xls)
            && store.mailErrors == old(store.mailErrors) && mail == None)
      && (g.NotPost? ==> reply == Reply(405, Error("Method not allowed")))
      && (g.Honeypot? ==> reply == Reply(200, Ok))
      && (g.NoFormType? ==> reply == Reply(400, Error("Missing form type")))
      && (g.Incomplete? ==> reply == Reply(400, Error("Missing required fields: " + Join(", ", g.missing))))
    ensures var g := Screen(req, submittedAt);
      g.Accepted? && !env.canAppend ==>
        reply == Reply(500, Error("Unable to write submissions log")) && mail == None
        && store.records == old(store.records) && store.xls == old(store.xls)
        && store.mailErrors == old(store.mailErrors)
    ensures var g := Screen(req, submittedAt);
      g.Accepted? && env.canAppend ==>
        store.records == LogAfter(old(store.records), FieldKeys, Values(g.fields))
        && store.xls == (if env.canRead then Some(ExportOf(store.records)) else old(store.xls))
        && mail == Some(MailFor(g.fields, Join("\n", LabelLines(Label, FieldKeys, Values(g.fields)))))
    ensures var g := Screen(req, submittedAt);
      g.Accepted? && env.canAppend && env.mailOk ==> reply == Reply(200, Ok) && store.mailErrors == old(store.mailErrors)
    ensures var g := Screen(req, submittedAt);
      g.Accepted? && env.canAppend && !env.mailOk ==>
        reply == Reply(500, Error(MailFailedReply))
        && store.mailErrors == old(store.mailErrors) + MailErrorLine(g.fields.submittedAt, env.lastError)
  {
    mail := None;
    var g := Checks(req, submittedAt);
    match g {
      case NotPost => reply := Reply(405, Error("Method not allowed"));
      case Honeypot => reply := Reply(200, Ok);
      case NoFormType => reply := Reply(400, Error("Missing form type"));
      case Incomplete(missing) => reply := Reply(400, Error("Missing required fields: " + Join(", ", missing)));
      case Accepted(fields) => reply, mail := StoreAndNotify(store, fields, env);
    }
  }
}
