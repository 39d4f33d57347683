/** The fare helpers of the landing pages (public/landing-pages.js): text
    normalisation, the airline lookup, the fare-line parser, the WhatsApp
    link, the support phone number, and the fare that the booking dialog
    shows. A `char` is a character of a JavaScript string; the one place
    where the script looks at a code unit rather than a character,
    `part[0]`, is modelled in `Initial`. The document is reduced to the
    texts the script reads from it. */
module LandingPages {

  import opened Wrappers
  import opened Text

  // ---------------------------------------------------------------------
  // cleanText

  /** `replace(/\s+/g, ' ')`: every maximal run of whitespace becomes one
      space. */
  function Collapse(s: string): string
    decreases |s|
  {
    if s == [] then []
    else if IsJsSpace(s[0]) then " " + Collapse(DropWhile(s[1..], JsSpace))
    else [s[0]] + Collapse(s[1..])
  }

  /** Every whitespace character is a plain space, and no two are
      adjacent. */
  predicate Collapsed(s: string)
  {
    forall i :: 0 <= i < |s| && IsJsSpace(s[i]) ==> s[i] == ' ' && (i + 1 == |s| || !IsJsSpace(s[i + 1]))
  }

  /** `cleanText` on a string: whitespace runs collapsed, then trimmed. */
  function CleanText(s: string): (r: string)
    ensures r == [] || (!IsJsSpace(r[0]) && !IsJsSpace(r[|r| - 1]))
  {
    TrimJs(Collapse(s))
  }

  /** `cleanText(value)` for a value that may be `null` (a missing form
      field or attribute): `null` gives "". */
  function CleanNullable(value: Option<string>): (r: string)
    ensures value.None? ==> r == ""
    ensures value.Some? ==> r == CleanText(value.value)
  {
    CleanText(value.GetOr(""))
  }

  lemma ConsCollapsed(c: char, s: string)
    requires Collapsed(s)
    requires IsJsSpace(c) ==> c == ' ' && (s == [] || !IsJsSpace(s[0]))
    ensures Collapsed([c] + s)
  {
    assert forall i :: 1 <= i < |s| + 1 ==> ([c] + s)[i] == s[i - 1];
  }

  lemma TailCollapsed(s: string)
    requires s != [] && Collapsed(s)
    ensures Collapsed(s[1..])
  {
    assert forall i :: 0 <= i < |s| - 1 ==> s[1..][i] == s[i + 1];
  }

  lemma InitCollapsed(s: string)
    requires s != [] && Collapsed(s)
    ensures Collapsed(s[..|s| - 1])
  {
    assert forall i :: 0 <= i < |s| - 1 ==> s[..|s| - 1][i] == s[i];
  }

  /** A collapsed string starts with the first character of the input
      when that is not whitespace. */
  lemma CollapseHead(s: string)
    requires s != [] && !IsJsSpace(s[0])
    ensures Collapse(s) != [] && Collapse(s)[0] == s[0]
  {
  }

  lemma {:induction false} CollapseIsCollapsed(s: string)
    ensures Collapsed(Collapse(s))
    decreases |s|
  {
    if s != [] {
      if IsJsSpace(s[0]) {
        var d := DropWhile(s[1..], JsSpace);
        CollapseIsCollapsed(d);
        if d != [] {
          CollapseHead(d);
        }
        ConsCollapsed(' ', Collapse(d));
      } else {
        CollapseIsCollapsed(s[1..]);
        ConsCollapsed(s[0], Collapse(s[1..]));
      }
    }
  }

  /** Collapsing changes nothing in a collapsed string. */
  lemma {:induction false} CollapseOfCollapsed(s: string)
    requires Collapsed(s)
    ensures Collapse(s) == s
    decreases |s|
  {
    if s != [] {
      TailCollapsed(s);
      CollapseOfCollapsed(s[1..]);
      if IsJsSpace(s[0]) {
        assert DropWhile(s[1..], JsSpace) == s[1..];
      }
    }
  }

  lemma {:induction false} DropWhileKeepsCollapsed(s: string)
    requires Collapsed(s)
    ensures Collapsed(DropWhile(s, JsSpace))
    decreases |s|
  {
    if s != [] && IsJsSpace(s[0]) {
      TailCollapsed(s);
      DropWhileKeepsCollapsed(s[1..]);
    }
  }

  lemma {:induction false} DropWhileEndKeepsCollapsed(s: string)
    requires Collapsed(s)
    ensures Collapsed(DropWhileEnd(s, JsSpace))
    decreases |s|
  {
    if s != [] && IsJsSpace(s[|s| - 1]) {
      InitCollapsed(s);
      DropWhileEndKeepsCollapsed(s[..|s| - 1]);
    }
  }

  /** The output of `cleanText` has every whitespace character a plain
      space and no two of them adjacent. */
  lemma CleanTextIsCollapsed(s: string)
    ensures Collapsed(CleanText(s))
  {
    CollapseIsCollapsed(s);
    DropWhileKeepsCollapsed(Collapse(s));
    DropWhileEndKeepsCollapsed(DropWhile(Collapse(s), JsSpace));
  }

  /** `cleanText` is idempotent. */
  lemma CleanTextIdempotent(s: string)
    ensures CleanText(CleanText(s)) == CleanText(s)
  {
    var t := CleanText(s);
    CleanTextIsCollapsed(s);
    CollapseOfCollapsed(t);
    TrimOfTrimmed(t, JsSpace);
  }

  /** The characters that are not whitespace, in order. */
  function NonSpace(s: string): (r: string)
    ensures |r| <= |s|
  {
    if s == [] then [] else (if IsJsSpace(s[0]) then [] else [s[0]]) + NonSpace(s[1..])
  }

  lemma {:induction false} NonSpaceAppend(a: string, b: string)
    ensures NonSpace(a + b) == NonSpace(a) + NonSpace(b)
    decreases |a|
  {
    if a == [] {
      assert a + b == b;
    } else {
      assert (a + b)[1..] == a[1..] + b;
      NonSpaceAppend(a[1..], b);
    }
  }

  lemma {:induction false} NonSpaceOfDropWhile(s: string)
    ensures NonSpace(DropWhile(s, JsSpace)) == NonSpace(s)
    decreases |s|
  {
    if s != [] && IsJsSpace(s[0]) {
      NonSpaceOfDropWhile(s[1..]);
    }
  }

  lemma {:induction false} NonSpaceOfDropWhileEnd(s: string)
    ensures NonSpace(DropWhileEnd(s, JsSpace)) == NonSpace(s)
    decreases |s|
  {
    if s != [] && IsJsSpace(s[|s| - 1]) {
      var s' := s[..|s| - 1];
      assert s == s' + [s[|s| - 1]];
      NonSpaceAppend(s', [s[|s| - 1]]);
      NonSpaceOfDropWhileEnd(s');
    }
  }

  lemma {:induction false} NonSpaceOfCollapse(s: string)
    ensures NonSpace(Collapse(s)) == NonSpace(s)
    decreases |s|
  {
    if s != [] {
      if IsJsSpace(s[0]) {
        var d := DropWhile(s[1..], JsSpace);
        NonSpaceOfCollapse(d);
        NonSpaceOfDropWhile(s[1..]);
        NonSpaceAppend(" ", Collapse(d));
      } else {
        NonSpaceOfCollapse(s[1..]);
        NonSpaceAppend([s[0]], Collapse(s[1..]));
      }
    }
  }

  /** `cleanText` changes whitespace only: the other characters are kept,
      in order. */
  lemma CleanTextKeepsText(s: string)
    ensures NonSpace(CleanText(s)) == NonSpace(s)
  {
    NonSpaceOfCollapse(s);
    NonSpaceOfDropWhile(Collapse(s));
    NonSpaceOfDropWhileEnd(DropWhile(Collapse(s), JsSpace));
  }

  // ---------------------------------------------------------------------
  // cleanText around a character that is not whitespace

  /** Whitespace runs do not cross a character that is not whitespace. */
  lemma {:induction false} CollapseAroundStop(a: string, c: char, b: string)
    requires !IsJsSpace(c)
    ensures Collapse(a + [c] + b) == Collapse(a) + [c] + Collapse(b)
    decreases |a|
  {
    if a == [] {
      assert a + [c] + b == [c] + b;
      assert ([c] + b)[1..] == b;
    } else if IsJsSpace(a[0]) {
      assert (a + [c] + b)[1..] == a[1..] + [c] + b;
      DropWhileBeforeStop(a[1..], c, b, JsSpace);
      CollapseAroundStop(DropWhile(a[1..], JsSpace), c, b);
    } else {
      assert (a + [c] + b)[1..] == a[1..] + [c] + b;
      CollapseAroundStop(a[1..], c, b);
    }
  }

  lemma {:induction false} CollapseAvoids(s: string, d: char)
    requires d != ' ' && d !in s
    ensures d !in Collapse(s)
    decreases |s|
  {
    if s != [] {
      if IsJsSpace(s[0]) {
        DropWhileAvoids(s[1..], JsSpace, d);
        CollapseAvoids(DropWhile(s[1..], JsSpace), d);
      } else {
        CollapseAvoids(s[1..], d);
      }
    }
  }

  /** The end trim of a collapsed text leaves nothing more for `cleanText`
      to do than to trim the front. */
  lemma CleanTextOfEndTrimmed(s: string)
    ensures CleanText(DropWhileEnd(Collapse(s), JsSpace)) == CleanText(s)
  {
    var c := Collapse(s);
    var e := DropWhileEnd(c, JsSpace);
    CollapseIsCollapsed(s);
    DropWhileEndKeepsCollapsed(c);
    CollapseOfCollapsed(e);
    TrimsCommute(c, JsSpace);
    var m := DropWhile(c, JsSpace);
    assert DropWhileEnd(DropWhileEnd(m, JsSpace), JsSpace) == DropWhileEnd(m, JsSpace);
  }

  // ---------------------------------------------------------------------
  // parseLineParts

  datatype LineParts = LineParts(route: string, date: string, stops: string)

  /** `routePart.split('|').map(cleanText).filter(Boolean)`. */
  function Segments(routePart: string): (r: seq<string>)
    ensures forall k :: 0 <= k < |r| ==> r[k] != ""
  {
    var pieces := Split(routePart, '|');
    NonEmpty(seq(|pieces|, k requires 0 <= k < |pieces| => CleanText(pieces[k])))
  }

  /** The word `w` at position `i`, ignoring case, with a word boundary
      (`\b`) on each side. */
  predicate WordAt(s: string, w: string, i: int)
  {
    OccursAtIgnoreCase(s, w, i)
    && (i == 0 || !IsWordChar(s[i - 1]))
    && (i + |w| == |s| || !IsWordChar(s[i + |w|]))
  }

  /** `/\bw\b/i.test(s)` for a word `w` of letters. */
  predicate HasWord(s: string, w: string)
  {
    exists i | 0 <= i <= |s| :: WordAt(s, w, i)
  }

  /** The stops text used when there is no third segment. */
  function StopsFallback(routePart: string): (r: string)
    ensures r == "1 Stop" <==> HasWord(routePart, "via")
    ensures r == "Direct" <==> !HasWord(routePart, "via") && HasWord(routePart, "direct")
    ensures r == "" <==> !HasWord(routePart, "via") && !HasWord(routePart, "direct")
  {
    if HasWord(routePart, "via") then "1 Stop"
    else if HasWord(routePart, "direct") then "Direct"
    else ""
  }

  /** The end of the whitespace run that starts at `i`. */
  function RunEnd(s: string, i: nat): (e: nat)
    requires i <= |s|
    ensures i <= e <= |s|
    ensures forall j :: i <= j < e ==> IsJsSpace(s[j])
    ensures e == |s| || !IsJsSpace(s[e])
    decreases |s| - i
  {
    if i < |s| && IsJsSpace(s[i]) then RunEnd(s, i + 1) else i
  }

  /** `/\s+to\s+/i` matches at position `i`. The first run of whitespace
      can only end where the run ends, since `t` is not whitespace. */
  predicate ToAt(s: string, i: nat)
  {
    i < |s| && IsJsSpace(s[i])
    && var j := RunEnd(s, i);
    OccursAtIgnoreCase(s, "to", j) && j + 2 < |s| && IsJsSpace(s[j + 2])
  }

  /** Where a match at `i` ends: after `to` and the whitespace run that
      follows it. */
  function MatchEnd(s: string, i: nat): (e: nat)
    requires ToAt(s, i)
    ensures i < e <= |s|
  {
    RunEnd(s, RunEnd(s, i) + 2)
  }

  /** The leftmost match at or after `from`. */
  function FindTo(s: string, from: nat): (r: Option<nat>)
    ensures r.Some? ==> from <= r.value < |s| && ToAt(s, r.value)
    ensures r.Some? ==> forall j :: from <= j < r.value ==> !ToAt(s, j)
    ensures r.None? ==> forall j :: from <= j < |s| ==> !ToAt(s, j)
    decreases |s| - from
  {
    if from >= |s| then None
    else if ToAt(s, from) then Some(from)
    else FindTo(s, from + 1)
  }

  /** `route.replace(/\s+to\s+/i, ' -> ')`: the leftmost match, and only
      that one, with both its whitespace runs, becomes " -> "; a route
      without a match is returned as it is (ReplaceToFirst). */
  function ReplaceTo(s: string): (r: string)
    ensures (forall j :: 0 <= j < |s| ==> !ToAt(s, j)) ==> r == s
  {
    match FindTo(s, 0)
    case None => s
    case Some(i) => s[..i] + " -> " + s[MatchEnd(s, i)..]
  }

  /** The search stops at the leftmost match. */
  lemma {:induction false} FindToFinds(s: string, from: nat, i: nat)
    requires from <= i < |s| && ToAt(s, i)
    requires forall j :: from <= j < i ==> !ToAt(s, j)
    ensures FindTo(s, from) == Some(i)
    decreases i - from
  {
    if from < i {
      FindToFinds(s, from + 1, i);
    }
  }

  /** Only the leftmost match is replaced. */
  lemma ReplaceToFirst(s: string, i: nat)
    requires i < |s| && ToAt(s, i)
    requires forall j :: 0 <= j < i ==> !ToAt(s, j)
    ensures ReplaceTo(s) == s[..i] + " -> " + s[MatchEnd(s, i)..]
  {
    FindToFinds(s, 0, i);
  }

  /** Route, date and stops from the part of the line after the label. */
  function PartsOfRoute(routePart: string): (p: LineParts)
    ensures var segs := Segments(routePart);
      && p.route == (if |segs| > 0 then ReplaceTo(segs[0]) else "")
      && p.date == (if |segs| > 1 then segs[1] else "")
      && p.stops == (if |segs| > 2 then segs[2] else StopsFallback(routePart))
  {
    var segs := Segments(routePart);
    var route := if |segs| > 0 then segs[0] else "";
    var date := if |segs| > 1 then segs[1] else "";
    // The fourth segment is never used: a third one, when present, is
    // never empty.
    var stops := if |segs| > 2 then segs[2] else StopsFallback(routePart);
    LineParts(ReplaceTo(route), date, stops)
  }

  /** The text the segments are taken from: the cleaned text after the
      first `:` of the cleaned line, or the whole cleaned line. */
  function RoutePart(line: string): string
  {
    var k := IndexOf(line, ':');
    if k < |line| then CleanText(line[k + 1..]) else line
  }

  /** `parseLineParts`. */
  function ParseLineParts(lineText: string): (p: LineParts)
    ensures CleanText(lineText) == "" ==> p == LineParts("", "", "")
  {
    var line := CleanText(lineText);
    if line == "" then LineParts("", "", "") else PartsOfRoute(RoutePart(line))
  }

  /** The clean text of a line with a `:` in it: the two sides are
      trimmed on their outer ends only. */
  lemma CleanTextAroundColon(prefix: string, rest: string)
    ensures CleanText(prefix + [':'] + rest)
            == DropWhile(Collapse(prefix), JsSpace) + [':'] + DropWhileEnd(Collapse(rest), JsSpace)
  {
    var a := Collapse(prefix);
    var b := Collapse(rest);
    CollapseAroundStop(prefix, ':', rest);
    DropWhileBeforeStop(a, ':', b, JsSpace);
    DropWhileEndAfterStop(DropWhile(a, JsSpace), ':', b, JsSpace);
  }

  /** The text after the first `:` of `front + ":" + back`. */
  lemma RoutePartAfterColon(front: string, back: string)
    requires ':' !in front
    ensures RoutePart(front + [':'] + back) == CleanText(back)
  {
    var line := front + [':'] + back;
    assert line == front + ([':'] + back);
    IndexOfPrefix(front, [':'] + back, ':');
    assert line[|front| + 1..] == back;
  }

  /** Everything up to the first `:` is ignored: the parts come from the
      text after it alone. */
  lemma LabelIsIgnored(prefix: string, rest: string)
    requires ':' !in prefix
    ensures ParseLineParts(prefix + ":" + rest) == PartsOfRoute(CleanText(rest))
  {
    assert prefix + ":" + rest == prefix + [':'] + rest;
    var front := DropWhile(Collapse(prefix), JsSpace);
    var back := DropWhileEnd(Collapse(rest), JsSpace);
    CleanTextAroundColon(prefix, rest);
    CollapseAvoids(prefix, ':');
    DropWhileAvoids(Collapse(prefix), JsSpace, ':');
    RoutePartAfterColon(front, back);
    CleanTextOfEndTrimmed(rest);
  }

  /** A line without a `:` is used whole. */
  lemma UnlabelledLine(lineText: string)
    requires ':' !in lineText && CleanText(lineText) != ""
    ensures ParseLineParts(lineText) == PartsOfRoute(CleanText(lineText))
  {
    CollapseAvoids(lineText, ':');
    DropWhileAvoids(Collapse(lineText), JsSpace, ':');
    DropWhileEndAvoids(DropWhile(Collapse(lineText), JsSpace), JsSpace, ':');
    IndexOfAbsent(CleanText(lineText), ':');
  }

  /** With fewer than three segments, "via" wins over "direct". */
  lemma ViaBeforeDirect(routePart: string)
    requires |Segments(routePart)| <= 2 && HasWord(routePart, "via")
    ensures PartsOfRoute(routePart).stops == "1 Stop"
  {
  }

  // ---------------------------------------------------------------------
  // inferAirlineInfo

  datatype Airline = Airline(code: string, name: string, logo: string)

  /** A rule: a case-insensitive pattern made of literal alternatives,
      and the airline it stands for. */
  datatype Rule = Rule(words: seq<string>, airline: Airline)

  predicate Matches(rule: Rule, title: string)
  {
    exists j | 0 <= j < |rule.words| :: ContainsIgnoreCase(title, rule.words[j])
  }

  const FallbackLogo: string := "/favicon.jpeg"

  /** The rules, in the order they are tried. */
  const AirlineRules: seq<Rule> := [
    Rule(["emirates"], Airline("EK", "Emirates", "/airline-logos/emirates.svg")),
    Rule(["british airways"], Airline("BA", "British Airways", "/airline-logos/britishairways.svg")),
    Rule(["etihad"], Airline("EY", "Etihad Airways", "/airline-logos/etihadairways.svg")),
    Rule(["qatar"], Airline("QR", "Qatar Airways", "/airline-logos/qatarairways.svg")),
    Rule(["pegasus"], Airline("PC", "Pegasus Airlines", "/airline-logos/pegasusairlines.svg")),
    Rule(["kenya airways"], Airline("KQ", "Kenya Airways", "/airline-logos/kenyaairways.svg")),
    Rule(["ethiopian"], Airline("ET", "Ethiopian Airlines", "/airline-logos/ethiopianairlines.svg")),
    Rule(["turkish"], Airline("TK", "Turkish Airlines", "/airline-logos/turkishairlines.svg")),
    Rule(["honeymoon", "holiday", "zanzibar", "escape", "package", "safari"],
         Airline("HG", "Holiday Package", FallbackLogo))]

  /** The index of the first rule that matches. */
  function FirstMatch(rules: seq<Rule>, title: string): (r: Option<nat>)
    ensures r.Some? ==> r.value < |rules| && Matches(rules[r.value], title)
    ensures r.Some? ==> forall j :: 0 <= j < r.value ==> !Matches(rules[j], title)
    ensures r.None? ==> forall j :: 0 <= j < |rules| ==> !Matches(rules[j], title)
  {
    if rules == [] then None
    else if Matches(rules[0], title) then Some(0)
    else match FirstMatch(rules[1..], title)
      case None => None
      case Some(i) => Some(i + 1)
  }

  /** `part[0] ? part[0].toUpperCase() : ''`. `upper` is JavaScript's
      `toUpperCase` of one character, whose full Unicode case mapping may
      give several characters ("ß" gives "SS"). `part[0]` is the first code
      unit, so a word that starts outside the Basic Multilingual Plane
      contributes only the lone high half of its first character, which
      `toUpperCase` leaves as it is. The model writes that half as
      `LoneSurrogate` (U+FFFD), the character it becomes when the page
      shows it. */
  function Initial(word: string, upper: char -> string): string
  {
    if word == [] then ""
    else if Units(word[0]) == 2 then [LoneSurrogate]
    else upper(word[0])
  }

  /** At most the first two elements. */
  function FirstTwo(xs: seq<string>): (r: seq<string>)
    ensures |r| <= 2 && |r| <= |xs| && r == xs[..|r|]
    ensures |xs| >= 2 ==> |r| == 2
    ensures |xs| < 2 ==> r == xs
  {
    if |xs| <= 2 then xs else xs[..2]
  }

  /** The airline made up for a title that no rule matches. */
  function Fallback(title: string, upper: char -> string): (a: Airline)
    ensures a.logo == FallbackLogo
  {
    var t := CleanText(title);
    var code := Initials(t, upper);
    var name := ShortName(t);
    Airline(if code != "" then code else "VF", if name != "" then name else "VUKA Fare", FallbackLogo)
  }

  /** The upper-cased initials of the first two words. */
  function Initials(t: string, upper: char -> string): string
  {
    var words := FirstTwo(NonEmpty(Split(t, ' ')));
    Join("", seq(|words|, k requires 0 <= k < |words| => Initial(words[k], upper)))
  }

  /** The first two pieces between single spaces, joined back. */
  function ShortName(t: string): string
  {
    Join(" ", FirstTwo(Split(t, ' ')))
  }

  /** `inferAirlineInfo`: the airline of the first matching rule, or the
      made-up one. */
  function AirlineFor(title: string, upper: char -> string): (a: Airline)
    ensures forall i :: (0 <= i < |AirlineRules| && Matches(AirlineRules[i], title)
              && (forall j :: 0 <= j < i ==> !Matches(AirlineRules[j], title))) ==> a == AirlineRules[i].airline
    ensures (forall i :: 0 <= i < |AirlineRules| ==> !Matches(AirlineRules[i], title)) ==> a == Fallback(title, upper)
  {
    match FirstMatch(AirlineRules, title)
    case Some(i) => AirlineRules[i].airline
    case None => Fallback(title, upper)
  }

  /** The loop of `inferAirlineInfo`, which stops at the first match. */
  method InferAirlineInfo(title: string, upper: char -> string) returns (info: Airline)
    ensures info == AirlineFor(title, upper)
  {
    var rule: Option<Rule> := None;
    var i := 0;
    while i < |AirlineRules|
      invariant 0 <= i <= |AirlineRules|
      invariant forall j :: 0 <= j < i ==> !Matches(AirlineRules[j], title)
    {
      if Matches(AirlineRules[i], title) {
        rule := Some(AirlineRules[i]);
        break;
      }
      i := i + 1;
    }
    if rule.Some? {
      return rule.value.airline;
    }
    info := Fallback(title, upper);
  }

  /** Emirates is the first rule, so it wins over any later one, the
      holiday keywords included. */
  lemma EmiratesComesFirst(title: string, upper: char -> string)
    requires ContainsIgnoreCase(title, "emirates")
    ensures AirlineFor(title, upper).code == "EK"
  {
    assert ContainsIgnoreCase(title, AirlineRules[0].words[0]);
  }

  /** A blank title gives the default code and name. */
  lemma FallbackOfBlankTitle(title: string, upper: char -> string)
    requires CleanText(title) == ""
    ensures Fallback(title, upper) == Airline("VF", "VUKA Fare", FallbackLogo)
  {
    assert Split("", ' ') == [""];
    assert NonEmpty([""]) == [];
  }

  /** Otherwise the code starts with the upper-cased first character of
      the title, and is exactly that for a one-word title; a second word
      adds its own upper-cased first character. */
  lemma FallbackCode(title: string, upper: char -> string)
    requires CleanText(title) != ""
    ensures var t := CleanText(title);
      var first := Initial(t, upper);
      var code := Fallback(title, upper).code;
      && (first != "" ==> |first| <= |code| && code[..|first|] == first)
      && (' ' !in t && first != "" ==> code == first)
  {
    var t := CleanText(title);
    var words := Split(t, ' ');
    var k := IndexOf(t, ' ');
    assert k > 0;
    assert words[0] == t[..k];
    assert words == [words[0]] + words[1..];
    NonEmptyAppend([words[0]], words[1..]);
    var kept := NonEmpty(words);
    assert kept[0] == t[..k];
    if ' ' !in t {
      IndexOfAbsent(t, ' ');
      assert words == [t];
      assert kept == [t];
    }
    var initials := FirstTwo(kept);
    var letters := seq(|initials|, j requires 0 <= j < |initials| => Initial(initials[j], upper));
    assert letters[0] == Initial(t, upper);
    JoinOfInitials(letters);
    assert Initials(t, upper) == Join("", letters);
  }

  /** Joining one or two initials without separator. */
  lemma JoinOfInitials(letters: seq<string>)
    requires 1 <= |letters| <= 2
    ensures Join("", letters) == letters[0] + (if |letters| == 2 then letters[1] else "")
  {
    if |letters| == 2 {
      assert letters[1..] == [letters[1]];
      assert Join("", letters) == letters[0] + "" + letters[1];
      assert letters[0] + "" == letters[0];
    }
  }

  /** Full case mapping can make the code longer than two characters:
      "ßa bc" gives "SSB". */
  lemma InitialsCanExceedTwo(upper: char -> string)
    requires upper('\U{DF}') == "SS" && upper('b') == "B"
    ensures Initials("\U{DF}a bc", upper) == "SSB"
  {
    var words := ["\U{DF}a", "bc"];
    ExampleWords();
    NonEmptyAppend([words[0]], [words[1]]);
    assert [words[0]] + [words[1]] == words;
    assert FirstTwo(NonEmpty(words)) == words;
    var letters := seq(2, j requires 0 <= j < 2 => Initial(words[j], upper));
    assert letters[0] == "SS" && letters[1] == "B";
    JoinOfInitials(letters);
  }

  /** The two words of the example title. */
  lemma ExampleWords()
    ensures Split("\U{DF}a bc", ' ') == ["\U{DF}a", "bc"]
  {
    assert "\U{DF}a bc" == "\U{DF}a" + " bc";
    SplitTwoWords("\U{DF}a", "bc");
  }

  /** Two words without spaces, joined by one space, split back. */
  lemma SplitTwoWords(a: string, b: string)
    requires ' ' !in a && ' ' !in b
    ensures Split(a + " " + b, ' ') == [a, b]
  {
    var t := a + " " + b;
    assert t == a + (" " + b);
    IndexOfPrefix(a, " " + b, ' ');
    assert t[..|a|] == a && t[|a| + 1..] == b;
    IndexOfAbsent(b, ' ');
    SplitAtFirst(t, ' ');
  }

  /** The made-up name is the start of the title, at most its first two
      words, and the whole title when that is a single word. */
  lemma FallbackName(title: string, upper: char -> string)
    requires CleanText(title) != ""
    ensures var t := CleanText(title);
      var name := Fallback(title, upper).name;
      |name| <= |t| && name == t[..|name|] && (' ' !in t ==> name == t)
  {
    var t := CleanText(title);
    ShortNameIsPrefix(t);
  }

  /** The short name of a text that does not start with a space is a
      non-empty prefix of it, and the whole text when it has no space. */
  lemma ShortNameIsPrefix(t: string)
    requires t != [] && t[0] != ' '
    ensures var name := ShortName(t);
      name != "" && |name| <= |t| && name == t[..|name|] && (' ' !in t ==> name == t)
  {
    if ' ' in t {
      FirstTwoWords(t);
    } else {
      IndexOfAbsent(t, ' ');
      assert Split(t, ' ') == [t];
    }
  }

  /** The first piece of a split. */
  lemma SplitHead(s: string, c: char)
    ensures Split(s, c)[0] == s[..IndexOf(s, c)]
  {
  }

  /** The pieces of a split at its first separator. */
  lemma SplitAtFirst(s: string, c: char)
    requires IndexOf(s, c) < |s|
    ensures Split(s, c) == [s[..IndexOf(s, c)]] + Split(s[IndexOf(s, c) + 1..], c)
  {
  }

  lemma FirstTwoCons(x: string, ys: seq<string>)
    requires ys != []
    ensures FirstTwo([x] + ys) == [x] + [ys[0]]
  {
  }

  /** The first two words of a text with a space in it, joined back. */
  lemma FirstTwoWords(t: string)
    requires ' ' in t
    ensures var k := IndexOf(t, ' ');
      var k2 := IndexOf(t[k + 1..], ' ');
      Join(" ", FirstTwo(Split(t, ' '))) == t[..k + 1 + k2]
  {
    var k := IndexOf(t, ' ');
    var rest := t[k + 1..];
    var k2 := IndexOf(rest, ' ');
    var tail := Split(rest, ' ');
    SplitAtFirst(t, ' ');
    FirstTwoCons(t[..k], tail);
    SplitHead(rest, ' ');
    JoinPair(" ", t[..k], rest[..k2]);
    SliceAround(t, k, k2);
    assert [t[k]] == " ";
  }

  /** Two pieces joined. */
  lemma JoinPair(sep: string, a: string, b: string)
    ensures Join(sep, [a] + [b]) == a + sep + b
  {
    JoinCons(sep, a, [b]);
  }

  /** A prefix that runs past position `k`, cut at `k`. */
  lemma SliceAround(t: string, k: nat, m: nat)
    requires k < |t| && k + 1 + m <= |t|
    ensures t[..k + 1 + m] == t[..k] + [t[k]] + t[k + 1..][..m]
  {
    var lhs := t[..k + 1 + m];
    var rhs := t[..k] + [t[k]] + t[k + 1..][..m];
    assert |lhs| == |rhs|;
    forall i | 0 <= i < |lhs|
      ensures lhs[i] == rhs[i]
    {
      if i > k {
        assert rhs[i] == t[k + 1..][..m][i - k - 1];
      }
    }
  }

  // ---------------------------------------------------------------------
  // The support phone number

  const DefaultPhone: string := "+442038768217"
  const DefaultWhatsapp: string := "442038768217"

  /** `href.replace(/^tel:/i, '')`. */
  function StripTel(href: string): (r: string)
  {
    if |href| >= 4 && EqIgnoreCase(href[..4], "tel:") then href[4..] else href
  }

  /** `getSupportPhoneFromPage`: `href` is the `href` of the first `tel:`
      link, `None` when the page has none. Only digits and `+` are kept;
      with none left, or no link, the default number is used. */
  function SupportPhone(href: Option<string>): (r: string)
    ensures r != ""
    ensures forall i :: 0 <= i < |r| ==> IsAsciiDigit(r[i]) || r[i] == '+'
  {
    if href.None? then DefaultPhone
    else
      var kept := Filter(StripTel(href.value), DigitOrPlus);
      if kept != "" then kept else DefaultPhone
  }

  /** The WhatsApp number: the digits of the phone number, or the default
      one. */
  function WhatsappNumber(phone: string): (r: string)
    ensures r != ""
    ensures forall i :: 0 <= i < |r| ==> IsAsciiDigit(r[i])
  {
    var digits := Filter(phone, Digit);
    if digits != "" then digits else DefaultWhatsapp
  }

  /** Removing the `tel:` prefix makes no difference to the number, since
      its letters and colon are dropped anyway. */
  lemma PrefixStripIsRedundant(href: string)
    ensures Filter(StripTel(href), DigitOrPlus) == Filter(href, DigitOrPlus)
  {
    if |href| >= 4 && EqIgnoreCase(href[..4], "tel:") {
      var p := href[..4];
      assert href == p + href[4..];
      FilterAppend(p, href[4..], DigitOrPlus);
      assert forall i :: 0 <= i < 4 ==> CharEqIgnoreCase(p[i], "tel:"[i]);
      assert NoneOf(p, DigitOrPlus);
      FilterNoneOf(p, DigitOrPlus);
    }
  }

  /** A link whose number has digits or `+` gives exactly those. */
  lemma SupportPhoneOfLink(href: string)
    requires Filter(href, DigitOrPlus) != ""
    ensures SupportPhone(Some(href)) == Filter(href, DigitOrPlus)
  {
    PrefixStripIsRedundant(href);
  }

  /** A number written as `+` and digits gives those digits. */
  lemma WhatsappOfInternational(digits: string)
    requires digits != "" && forall i :: 0 <= i < |digits| ==> IsAsciiDigit(digits[i])
    ensures WhatsappNumber("+" + digits) == digits
  {
    FilterAppend("+", digits, Digit);
    assert Filter("+", Digit) == "";
    FilterAllOf(digits, Digit);
  }

  /** Both defaults name the same number. */
  lemma DefaultNumbersAgree()
    ensures WhatsappNumber(SupportPhone(None)) == DefaultWhatsapp
  {
    assert DefaultPhone == "+" + DefaultWhatsapp;
    WhatsappOfInternational(DefaultWhatsapp);
  }

  // ---------------------------------------------------------------------
  // `.filter(Boolean)` on short literal lists

  /** The one-element list of a non-empty string, the empty list otherwise. */
  function Kept(p: string): (r: seq<string>)
    ensures |r| <= 1
  {
    if p == "" then [] else [p]
  }

  lemma KeptLabelled(caption: string, value: string)
    requires caption != ""
    ensures Kept(Labelled(caption, value)) == if value != "" then [caption + value] else []
  {
  }

  lemma NonEmptyOfOne(p: string)
    ensures NonEmpty([p]) == Kept(p)
  {
    assert [p][1..] == [];
  }

  lemma NonEmptyOfThree(a: string, b: string, c: string)
    ensures NonEmpty([a, b, c]) == Kept(a) + Kept(b) + Kept(c)
  {
    assert [a, b, c] == [a] + ([b] + [c]);
    NonEmptyAppend([a], [b] + [c]);
    NonEmptyAppend([b], [c]);
    NonEmptyOfOne(a);
    NonEmptyOfOne(b);
    NonEmptyOfOne(c);
  }

  lemma NonEmptyOfFive(a: string, b: string, c: string, d: string, e: string)
    ensures NonEmpty([a, b, c, d, e]) == Kept(a) + Kept(b) + Kept(c) + Kept(d) + Kept(e)
  {
    assert [a, b, c, d, e] == [a, b, c] + [d] + [e];
    NonEmptyAppend([a, b, c] + [d], [e]);
    NonEmptyAppend([a, b, c], [d]);
    NonEmptyOfThree(a, b, c);
    NonEmptyOfOne(d);
    NonEmptyOfOne(e);
  }

  // ---------------------------------------------------------------------
  // buildWhatsappHref

  /** The fare a booking refers to. */
  datatype Fare = Fare(name: string, price: string, tag: string, details: string)

  const Greeting: string := "Hi VUKA Travels, I want this fare."
  const Closing: string := "Please share live availability."

  /** A labelled piece, or "" when its value is empty. */
  function Labelled(caption: string, value: string): string
  {
    if value != "" then caption + value else ""
  }

  /** The message: the greeting, the non-empty pieces, the closing line,
      joined by " | ". */
  function WhatsappMessage(fare: Fare): string
  {
    Join(" | ", NonEmpty([Greeting, Labelled("Option: ", fare.name), Labelled("Price: ", fare.price),
                          Labelled("Details: ", fare.details), Closing]))
  }

  /** The pieces present in the message, in order. */
  function Present(fare: Fare): seq<string>
  {
    (if fare.name != "" then ["Option: " + fare.name] else [])
    + (if fare.price != "" then ["Price: " + fare.price] else [])
    + (if fare.details != "" then ["Details: " + fare.details] else [])
  }

  /** The message is the greeting, then Option, Price and Details for the
      non-empty fields in that order, then the closing line. */
  lemma WhatsappMessagePieces(fare: Fare)
    ensures WhatsappMessage(fare) == Join(" | ", [Greeting] + Present(fare) + [Closing])
  {
    NonEmptyOfFive(Greeting, Labelled("Option: ", fare.name), Labelled("Price: ", fare.price),
                   Labelled("Details: ", fare.details), Closing);
    KeptLabelled("Option: ", fare.name);
    KeptLabelled("Price: ", fare.price);
    KeptLabelled("Details: ", fare.details);
    assert Kept(Greeting) == [Greeting] && Kept(Closing) == [Closing];
    var a := Kept(Labelled("Option: ", fare.name));
    var b := Kept(Labelled("Price: ", fare.price));
    var c := Kept(Labelled("Details: ", fare.details));
    assert Present(fare) == a + b + c;
    assert [Greeting] + a + b + c + [Closing] == [Greeting] + (a + b + c) + [Closing];
  }

  /** The message always starts with the greeting and ends with the
      closing line. */
  lemma WhatsappMessageFrame(fare: Fare)
    ensures var m := WhatsappMessage(fare);
      |m| >= |Greeting| + |Closing| && m[..|Greeting|] == Greeting && m[|m| - |Closing|..] == Closing
  {
    WhatsappMessagePieces(fare);
    var middle := Present(fare) + [Closing];
    assert [Greeting] + Present(fare) + [Closing] == [Greeting] + middle;
    JoinCons(" | ", Greeting, middle);
    if Present(fare) == [] {
      assert Join(" | ", middle) == Closing;
    } else {
      JoinSnoc(" | ", Present(fare), Closing);
    }
  }

  /** The link: the WhatsApp number and the message, URI-encoded by
      `encode` (`encodeURIComponent`). */
  function WhatsappHref(number: string, fare: Fare, encode: string -> string): (r: string)
    ensures var head := "https://wa.me/" + number + "?text=";
      |head| <= |r| && r[..|head|] == head
  {
    "https://wa.me/" + number + "?text=" + encode(WhatsappMessage(fare))
  }

  // ---------------------------------------------------------------------
  // collectFareFromRow and the booking dialog

  /** The texts of a fare card: the `.fare-line` texts, and for each other
      element the script reads, its text or `None` when it is absent. */
  datatype Card = Card(
    lines: seq<string>,
    airlineName: Option<string>,
    route: Option<string>,
    title: Option<string>,
    price: Option<string>,
    tag: Option<string>)

  /** `textContent(node, selector)`: the cleaned text, or "" for a missing
      element. */
  function TextOf(element: Option<string>): string
  {
    if element.Some? then CleanText(element.value) else ""
  }

  const GeneralEnquiry: Fare := Fare("General fare enquiry", "", "", "Please send live fare options.")

  /** The non-empty cleaned fare lines, joined by " | ". */
  function LinesText(lines: seq<string>): string
  {
    Join(" | ", NonEmpty(seq(|lines|, k requires 0 <= k < |lines| => CleanText(lines[k]))))
  }

  /** The fare of a card: the details join the airline name, the route
      and the lines, leaving out the empty ones. */
  function FareOfCard(card: Card): (f: Fare)
    ensures f.name != ""
  {
    var title := TextOf(card.title);
    Fare(if title != "" then title else "Selected fare",
         TextOf(card.price),
         TextOf(card.tag),
         Join(" | ", NonEmpty([TextOf(card.airlineName), TextOf(card.route), LinesText(card.lines)])))
  }

  /** `collectFareFromRow`: `card` is the enclosing fare card, `None` when
      the button is outside one. */
  method CollectFareFromRow(card: Option<Card>) returns (fare: Fare)
    ensures card.None? ==> fare == GeneralEnquiry
    ensures card.Some? ==> fare == FareOfCard(card.value)
  {
    if card.None? {
      return GeneralEnquiry;
    }
    var c := card.value;
    var lines := LinesText(c.lines);
    var airlineName := TextOf(c.airlineName);
    var route := TextOf(c.route);
    var detailParts: seq<string> := [];
    if airlineName != "" {
      detailParts := detailParts + [airlineName];
    }
    assert detailParts == Kept(airlineName);
    if route != "" {
      detailParts := detailParts + [route];
    }
    assert detailParts == Kept(airlineName) + Kept(route);
    if lines != "" {
      detailParts := detailParts + [lines];
    }
    assert detailParts == Kept(airlineName) + Kept(route) + Kept(lines);
    NonEmptyOfThree(airlineName, route, lines);
    var title := TextOf(c.title);
    fare := Fare(if title != "" then title else "Selected fare", TextOf(c.price), TextOf(c.tag),
                 Join(" | ", detailParts));
  }

  /** The dialog's summary line: price, type and details, leaving out the
      empty ones. */
  function MetaText(fare: Fare): string
  {
    Join(" | ", NonEmpty([Labelled("Price: ", fare.price), Labelled("Type: ", fare.tag), fare.details]))
  }

  /** A fare without price or tag shows its details alone. */
  lemma MetaTextOfDetailsOnly(fare: Fare)
    requires fare.price == "" && fare.tag == ""
    ensures MetaText(fare) == fare.details
  {
    NonEmptyOfThree("", "", fare.details);
  }

  /** The booking dialog: the selected fare, the texts it shows, and
      whether it is open (which also sets `aria-hidden` and locks the
      page's scrolling). */
  class FareModal {
    var selected: Fare
    var pickedName: string
    var pickedMeta: string
    var isOpen: bool
    var ariaHidden: string
    var bodyLocked: bool
    var status: string

    /** `aria-hidden` and the scroll lock follow the open state. */
    predicate Consistent()
      reads this
    {
      ariaHidden == (if isOpen then "false" else "true") && bodyLocked == isOpen
    }

    /** The dialog as the template inserts it. */
    constructor ()
      ensures Consistent() && !isOpen
      ensures selected == GeneralEnquiry && pickedName == "Selected fare" && pickedMeta == "" && status == ""
    {
      selected := GeneralEnquiry;
      pickedName := "Selected fare";
      pickedMeta := "";
      isOpen := false;
      ariaHidden := "true";
      bodyLocked := false;
      status := "";
    }

    /** `openModal`. */
    method OpenModal(fare: Fare)
      modifies this
      ensures Consistent() && isOpen
      ensures selected == fare
      ensures pickedName == (if fare.name != "" then fare.name else "Selected fare")
      ensures pickedMeta == MetaText(fare)
      ensures status == ""
    {
      selected := fare;
      pickedName := if fare.name != "" then fare.name else "Selected fare";
      var metaParts: seq<string> := [];
      if fare.price != "" {
        metaParts := metaParts + ["Price: " + fare.price];
      }
      KeptLabelled("Price: ", fare.price);
      assert metaParts == Kept(Labelled("Price: ", fare.price));
      if fare.tag != "" {
        metaParts := metaParts + ["Type: " + fare.tag];
      }
      KeptLabelled("Type: ", fare.tag);
      assert metaParts == Kept(Labelled("Price: ", fare.price)) + Kept(Labelled("Type: ", fare.tag));
      if fare.details != "" {
        metaParts := metaParts + [fare.details];
      }
      NonEmptyOfThree(Labelled("Price: ", fare.price), Labelled("Type: ", fare.tag), fare.details);
      pickedMeta := Join(" | ", metaParts);
      status := "";
      isOpen := true;
      ariaHidden := "false";
      bodyLocked := true;
    }

    /** `closeModal`: the dialog closes and keeps what it shows. */
    method CloseModal()
      modifies this
      ensures Consistent() && !isOpen
      ensures selected == old(selected) && pickedName == old(pickedName)
      ensures pickedMeta == old(pickedMeta) && status == old(status)
    {
      isOpen := false;
      ariaHidden := "true";
      bodyLocked := false;
    }
  }
}
