/** The one-off migration that adds machine-readable `data-*` attributes
    to the fare cards of a landing page
    (scripts/migrate_fare_data_attrs.py). Strings are Python `str`
    values, one `char` per code point. Each regular expression of the
    script is written out as the predicate "the pattern matches at this
    position", with the leftmost position chosen by a search function, as
    `re.search` and `re.sub` do. */
module MigrateFare {

  import opened Wrappers
  import opened Text

  // ---------------------------------------------------------------------
  // Searching

  /** The first position at or after `from` where `w` occurs. */
  function FindFrom(s: string, w: string, from: nat): (r: Option<nat>)
    ensures r.Some? ==> from <= r.value && r.value + |w| <= |s|
    decreases |s| - from
  {
    if from + |w| > |s| then None
    else if OccursAt(s, w, from) then Some(from)
    else FindFrom(s, w, from + 1)
  }

  /** What is found is an occurrence, and nothing is skipped: no
      occurrence before the one found, none at all when nothing is found. */
  lemma {:induction false} FindFromFirst(s: string, w: string, from: nat)
    ensures FindFrom(s, w, from).Some? ==> OccursAt(s, w, FindFrom(s, w, from).value)
    ensures FindFrom(s, w, from).Some? ==> forall j :: from <= j < FindFrom(s, w, from).value ==> !OccursAt(s, w, j)
    ensures FindFrom(s, w, from).None? ==> forall j :: from <= j <= |s| ==> !OccursAt(s, w, j)
    decreases |s| - from
  {
    if from + |w| <= |s| && !OccursAt(s, w, from) {
      FindFromFirst(s, w, from + 1);
    }
  }

  /** The end of the run of class-`k` characters that starts at `i` (the
      greedy `\s*`, `[0-9,]+`). */
  function SpanEnd(s: string, i: nat, k: CharClass): (e: nat)
    requires i <= |s|
    ensures i <= e <= |s|
    ensures e == |s| || !InClass(k, s[e])
    decreases |s| - i
  {
    if i < |s| && InClass(k, s[i]) then SpanEnd(s, i + 1, k) else i
  }

  /** Everything the run covers is of class `k`. */
  lemma {:induction false} SpanEndCovers(s: string, i: nat, k: CharClass)
    requires i <= |s|
    ensures forall j :: i <= j < SpanEnd(s, i, k) ==> InClass(k, s[j])
    decreases |s| - i
  {
    if i < |s| && InClass(k, s[i]) {
      SpanEndCovers(s, i + 1, k);
    }
  }

  /** The first position at or after `from` holding `c`, or `|s|` (where
      a `[^c]*` stops). */
  function CharFrom(s: string, from: nat, c: char): (k: nat)
    requires from <= |s|
    ensures from <= k <= |s|
    ensures k < |s| ==> s[k] == c
    decreases |s| - from
  {
    if from == |s| || s[from] == c then from else CharFrom(s, from + 1, c)
  }

  /** `c` does not occur before the position found. */
  lemma {:induction false} CharFromSkips(s: string, from: nat, c: char)
    requires from <= |s|
    ensures forall j :: from <= j < CharFrom(s, from, c) ==> s[j] != c
    decreases |s| - from
  {
    if from < |s| && s[from] != c {
      CharFromSkips(s, from + 1, c);
    }
  }

  // ---------------------------------------------------------------------
  // _extract_iata

  /** An origin and destination airport code. */
  datatype Route = Route(origin: string, dest: string)

  const OutboundMarker: string := "Outbound:</span>"

  /** `[A-Z]{3}` at `j`. */
  predicate CodeAt(s: string, j: int)
  {
    0 <= j && j + 3 <= |s| && IsAsciiUpper(s[j]) && IsAsciiUpper(s[j + 1]) && IsAsciiUpper(s[j + 2])
  }

  /** Where the word `to` starts after the first code at `j`. */
  function ToStart(s: string, j: nat): nat
    requires j + 3 <= |s|
  {
    SpanEnd(s, j + 3, PySpace)
  }

  /** `([A-Z]{3})\s+to\s+([A-Z]{3})\b` at `j`. As `t` and the letters
      are not whitespace, each `\s+` takes its whole run. */
  predicate PairAt(s: string, j: int)
  {
    CodeAt(s, j) && j + 3 < |s| && IsPySpace(s[j + 3])
    && var e := ToStart(s, j);
    OccursAt(s, "to", e) && e + 2 < |s| && IsPySpace(s[e + 2])
    && var f := SpanEnd(s, e + 2, PySpace);
    CodeAt(s, f) && (f + 3 == |s| || !IsWordChar(s[f + 3]))
  }

  /** The two codes of a pair. */
  function PairOf(s: string, j: nat): (r: Route)
    requires PairAt(s, j)
    ensures |r.origin| == 3 && |r.dest| == 3
    ensures forall i :: 0 <= i < 3 ==> IsAsciiUpper(r.origin[i]) && IsAsciiUpper(r.dest[i])
  {
    var f := SpanEnd(s, ToStart(s, j) + 2, PySpace);
    Route(s[j..j + 3], s[f..f + 3])
  }

  /** The two patterns, in the order they are tried. */
  datatype IataPattern = Outbound | Bare

  /** `Outbound:</span>\s*PAIR` or `\bPAIR` at `i`. */
  predicate MatchAt(p: IataPattern, s: string, i: int)
  {
    match p
    case Outbound => OccursAt(s, OutboundMarker, i) && PairAt(s, SpanEnd(s, i + |OutboundMarker|, PySpace))
    case Bare => 0 <= i < |s| && (i == 0 || !IsWordChar(s[i - 1])) && PairAt(s, i)
  }

  function CodesAt(p: IataPattern, s: string, i: nat): Route
    requires MatchAt(p, s, i)
  {
    match p
    case Outbound => PairOf(s, SpanEnd(s, i + |OutboundMarker|, PySpace))
    case Bare => PairOf(s, i)
  }

  /** `re.search`: the leftmost match at or after `from`. */
  function Search(p: IataPattern, s: string, from: nat): (r: Option<nat>)
    ensures r.Some? ==> from <= r.value < |s| && MatchAt(p, s, r.value)
    ensures r.Some? ==> forall j :: from <= j < r.value ==> !MatchAt(p, s, j)
    ensures r.None? ==> forall j :: from <= j <= |s| ==> !MatchAt(p, s, j)
    decreases |s| - from
  {
    if from >= |s| then None
    else if MatchAt(p, s, from) then Some(from)
    else Search(p, s, from + 1)
  }

  /** `_extract_iata`: the codes of the first `Outbound:` pair, else of
      the first bare pair; `None` stands for `(None, None)`. */
  function ExtractIata(article: string): (r: Option<Route>)
    ensures r.Some? ==> |r.value.origin| == 3 && |r.value.dest| == 3
  {
    match Search(Outbound, article, 0)
    case Some(i) => Some(CodesAt(Outbound, article, i))
    case None =>
      match Search(Bare, article, 0)
      case Some(i) => Some(CodesAt(Bare, article, i))
      case None => None
  }

  /** The first `Outbound:` pair wins, wherever the bare pairs are. */
  lemma OutboundWins(article: string, i: nat)
    requires MatchAt(Outbound, article, i)
    requires forall j :: 0 <= j < i ==> !MatchAt(Outbound, article, j)
    ensures ExtractIata(article) == Some(CodesAt(Outbound, article, i))
  {
    SearchFindsFirst(Outbound, article, i);
  }

  /** Without an `Outbound:` pair the first bare pair is taken. */
  lemma FirstBarePair(article: string, i: nat)
    requires forall j :: 0 <= j <= |article| ==> !MatchAt(Outbound, article, j)
    requires MatchAt(Bare, article, i)
    requires forall j :: 0 <= j < i ==> !MatchAt(Bare, article, j)
    ensures ExtractIata(article) == Some(CodesAt(Bare, article, i))
  {
    SearchFindsFirst(Bare, article, i);
  }

  /** No route is found exactly when neither pattern matches anywhere. */
  lemma NoRoute(article: string)
    ensures ExtractIata(article).None? <==>
      forall j :: 0 <= j <= |article| ==> !MatchAt(Outbound, article, j) && !MatchAt(Bare, article, j)
  {
  }

  /** The search stops at the first match. */
  lemma SearchFindsFirst(p: IataPattern, s: string, i: nat)
    requires MatchAt(p, s, i)
    requires forall j :: 0 <= j < i ==> !MatchAt(p, s, j)
    ensures Search(p, s, 0) == Some(i)
  {
    var r := Search(p, s, 0);
    assert r.Some?;
    assert r.value == i;
  }

  /** Every `Outbound:` pair is also a bare pair: the preference decides
      only which pair is taken when the page has several. */
  lemma OutboundPairIsBare(s: string, i: nat)
    requires MatchAt(Outbound, s, i)
    ensures var j := SpanEnd(s, i + |OutboundMarker|, PySpace);
      MatchAt(Bare, s, j) && CodesAt(Bare, s, j) == CodesAt(Outbound, s, i)
  {
    var m := i + |OutboundMarker|;
    var j := SpanEnd(s, m, PySpace);
    SpanEndCovers(s, m, PySpace);
    if j == m {
      assert s[i..m][|OutboundMarker| - 1] == s[j - 1];
    }
  }

  // ---------------------------------------------------------------------
  // _extract_price_gbp

  const FarePriceBlock: string := "<div class=\"fare-price\">"

  /** Where the text after the `>` of the `<strong` tag at `j` starts. */
  function AfterStrong(s: string, j: nat): nat
    requires j + 7 <= |s|
  {
    CharFrom(s, j + 7, '>') + 1
  }

  /** `<strong([^>]*)>\s*GBP\s*([0-9,]+)` at `j`: `[^>]*` stops at the
      first `>`, and each `\s*` takes its whole run. */
  predicate StrongPriceAt(s: string, j: int)
  {
    OccursAt(s, "<strong", j) && CharFrom(s, j + 7, '>') < |s|
    && var m := SpanEnd(s, AfterStrong(s, j), PySpace);
    OccursAt(s, "GBP", m)
    && var n := SpanEnd(s, m + 3, PySpace);
    n < |s| && InClass(DigitOrComma, s[n])
  }

  /** The text matched by `([0-9,]+)`. */
  function PriceGroup(s: string, j: nat): (g: string)
    requires StrongPriceAt(s, j)
    ensures g != [] && forall i :: 0 <= i < |g| ==> InClass(DigitOrComma, g[i])
  {
    var n := SpanEnd(s, SpanEnd(s, AfterStrong(s, j), PySpace) + 3, PySpace);
    SpanEndCovers(s, n, DigitOrComma);
    s[n..SpanEnd(s, n, DigitOrComma)]
  }

  /** The leftmost price tag at or after `from`. */
  function FindStrongPrice(s: string, from: nat): (r: Option<nat>)
    ensures r.Some? ==> from <= r.value < |s| && StrongPriceAt(s, r.value)
    ensures r.Some? ==> forall j :: from <= j < r.value ==> !StrongPriceAt(s, j)
    ensures r.None? ==> forall j :: from <= j <= |s| ==> !StrongPriceAt(s, j)
    decreases |s| - from
  {
    if from >= |s| then None
    else if StrongPriceAt(s, from) then Some(from)
    else FindStrongPrice(s, from + 1)
  }

  /** The price tag the script reads: with the lazy `[\s\S]*?`, the first
      one after the first fare-price block, when there is one; otherwise
      the first one of the card. (A later block cannot succeed where the
      first failed: its candidates are a subset of the first's.) */
  function PriceTag(s: string): (r: Option<nat>)
    ensures r.Some? ==> StrongPriceAt(s, r.value)
    ensures r.None? ==> forall j :: 0 <= j <= |s| ==> !StrongPriceAt(s, j)
    ensures forall d :: 0 <= d <= |s| && OccursAt(s, FarePriceBlock, d)
              && (forall e :: 0 <= e < d ==> !OccursAt(s, FarePriceBlock, e))
              && FindStrongPrice(s, d + |FarePriceBlock|).Some?
              ==> r == FindStrongPrice(s, d + |FarePriceBlock|)
  {
    FindFromFirst(s, FarePriceBlock, 0);
    var block := FindFrom(s, FarePriceBlock, 0);
    if block.Some? && FindStrongPrice(s, block.value + |FarePriceBlock|).Some? then
      FindStrongPrice(s, block.value + |FarePriceBlock|)
    else FindStrongPrice(s, 0)
  }

  /** `int(re.sub(r"[^0-9]", "", group))`, `None` when no digit is left
      and `int` raises. */
  function PriceOfGroup(g: string): Option<nat>
  {
    var digits := Filter(g, Digit);
    if digits == "" then None else Some(DigitsValue(digits))
  }

  /** `_extract_price_gbp`. */
  function ExtractPriceGbp(article: string): (r: Option<nat>)
    ensures PriceTag(article).None? ==> r.None?
    ensures PriceTag(article).Some? ==> r == PriceOfGroup(PriceGroup(article, PriceTag(article).value))
  {
    match PriceTag(article)
    case None => None
    case Some(j) => PriceOfGroup(PriceGroup(article, j))
  }

  /** A decimal numeral is read back as its number. */
  lemma PriceOfNumeral(n: nat)
    ensures PriceOfGroup(NatToString(n)) == Some(n)
  {
    var w := NatToString(n);
    FilterAllOf(w, Digit);
    DigitsValueOfNatToString(n);
  }

  /** Thousands separators are ignored. */
  lemma CommaIgnored(a: string, b: string)
    ensures PriceOfGroup(a + "," + b) == PriceOfGroup(a + b)
  {
    var comma := [','];
    assert a + "," + b == (a + comma) + b;
    FilterAppend(a + comma, b, Digit);
    FilterAppend(a, comma, Digit);
    FilterAppend(a, b, Digit);
    FilterNoneOf(comma, Digit);
    assert Filter(a + comma, Digit) == Filter(a, Digit);
    assert Filter(a + "," + b, Digit) == Filter(a + b, Digit);
  }

  /** A group of commas alone has no price. */
  lemma CommasOnly(g: string)
    requires NoneOf(g, Digit)
    ensures PriceOfGroup(g) == None
  {
    FilterNoneOf(g, Digit);
  }

  // ---------------------------------------------------------------------
  // _ensure_data_price_on_strong

  /** `<strong(\s[^>]*)?>` at `i`: either `>` straight after `<strong`, or
      whitespace and then everything up to the next `>`. */
  predicate StrongTagAt(s: string, i: int)
  {
    OccursAt(s, "<strong", i) && i + 7 < |s|
    && (s[i + 7] == '>' || (IsPySpace(s[i + 7]) && CharFrom(s, i + 8, '>') < |s|))
  }

  /** The group `(\s[^>]*)`, "" when it did not take part. */
  function TagAttrs(s: string, i: nat): (a: string)
    requires StrongTagAt(s, i)
    ensures '>' !in a
  {
    CharFromSkips(s, i + 8, '>');
    if s[i + 7] == '>' then "" else s[i + 7..CharFrom(s, i + 8, '>')]
  }

  /** Where the matched tag ends. */
  function TagEnd(s: string, i: nat): (e: nat)
    requires StrongTagAt(s, i)
    ensures i + 8 <= e <= |s| && s[e - 1] == '>'
  {
    if s[i + 7] == '>' then i + 8 else CharFrom(s, i + 8, '>') + 1
  }

  function FindStrongTag(s: string, from: nat): (r: Option<nat>)
    ensures r.Some? ==> from <= r.value < |s| && StrongTagAt(s, r.value)
    ensures r.Some? ==> forall j :: from <= j < r.value ==> !StrongTagAt(s, j)
    ensures r.None? ==> forall j :: from <= j <= |s| ==> !StrongTagAt(s, j)
    decreases |s| - from
  {
    if from >= |s| then None
    else if StrongTagAt(s, from) then Some(from)
    else FindStrongTag(s, from + 1)
  }

  const MarkedStrong: string := "<strong data-price"

  /** `_ensure_data_price_on_strong`: the first `<strong>` tag gets the
      `data-price` marker unless its attributes already mention it;
      without such a tag nothing changes. */
  function EnsureDataPrice(s: string): (r: string)
    ensures FindStrongTag(s, 0).None? ==> r == s
    ensures FindStrongTag(s, 0).Some? ==>
              var i := FindStrongTag(s, 0).value;
              r == if Contains(TagAttrs(s, i), "data-price") then s
                   else Marked(s, i)
  {
    match FindStrongTag(s, 0)
    case None => s
    case Some(i) =>
      var attrs := TagAttrs(s, i);
      if Contains(attrs, "data-price") then s
      else Marked(s, i)
  }

  /** The page with the first `<strong>` tag marked. */
  function Marked(s: string, i: nat): string
    requires StrongTagAt(s, i)
  {
    s[..i] + MarkedTail(s, i)
  }

  /** The marked tag and the text after it. */
  function MarkedTail(s: string, i: nat): (y: string)
    requires StrongTagAt(s, i)
    ensures y != [] && y[0] == '<'
  {
    MarkedStrong + TagAttrs(s, i) + ">" + s[TagEnd(s, i)..]
  }

  /** `CharFrom` finds a `c` preceded by none. */
  lemma {:induction false} CharFromAt(s: string, from: nat, c: char, k: nat)
    requires from <= k < |s| && s[k] == c
    requires forall j :: from <= j < k ==> s[j] != c
    ensures CharFrom(s, from, c) == k
    decreases k - from
  {
    if from < k {
      CharFromAt(s, from + 1, c, k);
    }
  }

  /** A `c` at or after `from` is found. */
  lemma CharFromFinds(s: string, from: nat, c: char, k: nat)
    requires from <= k < |s| && s[k] == c
    ensures CharFrom(s, from, c) < |s|
  {
    CharFromSkips(s, from, c);
  }

  /** The three parts of a concatenation. */
  lemma Parts(a: string, b: string, c: string)
    ensures (a + b + c)[..|a|] == a
    ensures (a + b + c)[|a|..|a| + |b|] == b
    ensures (a + b + c)[|a| + |b|..] == c
  {
  }

  /** In the marked page the tag at `i` is matched again, and its
      attributes now start with ` data-price`. */
  lemma MarkedTag(s: string, i: nat)
    requires StrongTagAt(s, i)
    ensures StrongTagAt(Marked(s, i), i)
    ensures TagAttrs(Marked(s, i), i) == " data-price" + TagAttrs(s, i)
  {
    MarkedTagOf(s[..i], TagAttrs(s, i), s[TagEnd(s, i)..]);
  }

  /** The same, for any text in front and behind. */
  lemma MarkedTagOf(front: string, attrs: string, back: string)
    requires '>' !in attrs
    ensures var t := front + (MarkedStrong + attrs + ">" + back);
      StrongTagAt(t, |front|) && TagAttrs(t, |front|) == " data-price" + attrs
  {
    var b := MarkedStrong + attrs;
    var t := front + b + (">" + back);
    var i := |front|;
    var close := i + |b|;
    assert t == front + (MarkedStrong + attrs + ">" + back);
    Parts(front, b, ">" + back);
    assert b[..7] == "<strong" && b[7] == ' ';
    assert b[7..] == " data-price" + attrs;
    SpacedTagAt(t, i, close, b);
  }

  /** A `<strong` followed by a space, text without `>` and a `>` is a
      tag whose attributes are everything after `<strong`. */
  lemma SpacedTagAt(t: string, i: nat, close: nat, b: string)
    requires i + 8 <= close < |t| && t[i..close] == b && t[close] == '>'
    requires b[..7] == "<strong" && b[7] == ' ' && '>' !in b[8..]
    ensures StrongTagAt(t, i) && TagAttrs(t, i) == b[7..]
  {
    assert t[i..i + 7] == b[..7];
    assert t[i + 7] == b[7];
    assert t[i + 8..close] == b[8..];
    NoCloseIn(t, i + 8, close, b[8..]);
    CharFromAt(t, i + 8, '>', close);
    assert t[i + 7..close] == b[7..];
  }

  lemma NoCloseIn(t: string, from: nat, to: nat, w: string)
    requires from <= to <= |t| && t[from..to] == w && '>' !in w
    ensures forall j :: from <= j < to ==> t[j] != '>'
  {
    assert forall j :: from <= j < to ==> t[j] == w[j - from];
  }

  /** The marked page has no `<strong>` tag before `i` either: the
      unchanged prefix had none, and the inserted text starts with `<`. */
  lemma NoTagBeforeMarked(s: string, i: nat, p: nat)
    requires StrongTagAt(s, i) && p < i
    requires !StrongTagAt(s, p)
    ensures !StrongTagAt(Marked(s, i), p)
  {
    var x := s[i..];
    assert s == s[..i] + x;
    assert s[i..i + 7][0] == s[i] == x[0];
    NoTagBeforeInsert(s[..i], x, MarkedTail(s, i), p, TagEnd(s, i) - 1);
  }

  /** Replacing text that starts with `<` by other text that starts with
      `<` creates no `<strong>` tag before it, while a `>` follows. */
  lemma NoTagBeforeInsert(front: string, x: string, y: string, p: nat, q: nat)
    requires p < |front| && x != [] && y != [] && x[0] == '<' && y[0] == '<'
    requires |front| + 7 <= q < |front + x| && (front + x)[q] == '>'
    requires !StrongTagAt(front + x, p)
    ensures !StrongTagAt(front + y, p)
  {
    var s := front + x;
    var t := front + y;
    var i := |front|;
    if p + 7 > i {
      if p + 7 <= |t| {
        assert t[p..p + 7][i - p] == t[i] == '<';
      }
    } else if OccursAt(t, "<strong", p) {
      assert t[p..p + 7] == front[p..p + 7] == s[p..p + 7];
      CharFromFinds(s, p + 8, '>', q);
      assert t[p + 7] == s[p + 7];
    }
  }

  /** The first-tag search finds `i`. */
  lemma FindStrongTagFirst(s: string, i: nat)
    requires StrongTagAt(s, i)
    requires forall j :: 0 <= j < i ==> !StrongTagAt(s, j)
    ensures FindStrongTag(s, 0) == Some(i)
  {
    var r := FindStrongTag(s, 0);
    assert r.Some?;
    assert r.value == i;
  }

  /** Marking is idempotent: a second pass changes nothing. */
  lemma EnsureDataPriceIdempotent(s: string)
    ensures EnsureDataPrice(EnsureDataPrice(s)) == EnsureDataPrice(s)
  {
    match FindStrongTag(s, 0)
    case None =>
    case Some(i) =>
      if !Contains(TagAttrs(s, i), "data-price") {
        var t := Marked(s, i);
        MarkedTag(s, i);
        forall p | 0 <= p < i
          ensures !StrongTagAt(t, p)
        {
          assert !StrongTagAt(s, p);
          NoTagBeforeMarked(s, i, p);
        }
        FindStrongTagFirst(t, i);
        var attrs := " data-price" + TagAttrs(s, i);
        assert OccursAt(attrs, "data-price", 1);
      }
  }

  /** The marked tag is longer than the one it replaces. */
  lemma MarkedIsLonger(s: string, i: nat)
    requires StrongTagAt(s, i)
    ensures |MarkedStrong + TagAttrs(s, i) + ">"| > TagEnd(s, i) - i
  {
  }

  /** Only the first tag is touched: the text before it and after it is
      kept. */
  lemma EnsureDataPriceKeepsRest(s: string)
    requires FindStrongTag(s, 0).Some?
    ensures var i := FindStrongTag(s, 0).value;
      var r := EnsureDataPrice(s);
      var e := TagEnd(s, i);
      |r| >= |s| && r[..i] == s[..i] && r[|r| - (|s| - e)..] == s[e..]
  {
    var i := FindStrongTag(s, 0).value;
    var e := TagEnd(s, i);
    var r := EnsureDataPrice(s);
    if !Contains(TagAttrs(s, i), "data-price") {
      var m := MarkedStrong + TagAttrs(s, i) + ">";
      Parts(s[..i], m, s[e..]);
      assert r == s[..i] + m + s[e..];
      MarkedIsLonger(s, i);
      assert |r| - (|s| - e) == i + |m|;
    } else {
      assert r == s;
      assert s[e..] == s[|s| - (|s| - e)..];
    }
  }

  // ---------------------------------------------------------------------
  // migrate_file

  const FareItemClass: string := "class=\"fare-item\""
  const ArticleOpen: string := "<article class=\"fare-item\""
  const ArticleClose: string := "</article>"

  /** The page cut at the matches of
      `<article class="fare-item"[\s\S]*?</article>`: text, and the
      articles between. */
  datatype Piece = Plain(text: string) | Article(html: string)

  function SourceOf(p: Piece): string
  {
    match p
    case Plain(t) => t
    case Article(h) => h
  }

  function Concat(xs: seq<string>): string
  {
    if xs == [] then "" else xs[0] + Concat(xs[1..])
  }

  function Sources(ps: seq<Piece>): (r: seq<string>)
    ensures |r| == |ps| && forall j :: 0 <= j < |ps| ==> r[j] == SourceOf(ps[j])
  {
    seq(|ps|, j requires 0 <= j < |ps| => SourceOf(ps[j]))
  }

  /** Where the next match of `open[\s\S]*?close` at or after `from`
      starts and ends: the first `open`, then the first `close` after it. */
  function NextMatch(s: string, from: nat, open: string, close: string): (r: Option<(nat, nat)>)
    ensures r.Some? ==> from <= r.value.0 && r.value.0 + |open| + |close| <= r.value.1 <= |s|
  {
    match FindFrom(s, open, from)
    case None => None
    case Some(i) =>
      match FindFrom(s, close, i + |open|)
      case None => None
      case Some(c) => Some((i, c + |close|))
  }

  /** The match is the shortest one from the first opening: it starts and
      ends as the pattern says, no opening comes before it and no closing
      inside it. */
  lemma NextMatchIsFirst(s: string, from: nat, open: string, close: string)
    requires NextMatch(s, from, open, close).Some?
    ensures var (i, e) := NextMatch(s, from, open, close).value;
      OccursAt(s, open, i) && OccursAt(s, close, e - |close|)
      && (forall j :: from <= j < i ==> !OccursAt(s, open, j))
      && (forall j :: i + |open| <= j < e - |close| ==> !OccursAt(s, close, j))
  {
    var i := FindFrom(s, open, from).value;
    FindFromFirst(s, open, from);
    FindFromFirst(s, close, i + |open|);
  }

  /** The `re.sub` scan from `from`: text, then a match, and so on. When
      an opening has no closing, no later opening has one either, and the
      rest is text. */
  function Cut(s: string, from: nat, open: string, close: string): (r: seq<Piece>)
    requires from <= |s| && open != []
    ensures r != []
    decreases |s| - from
  {
    match NextMatch(s, from, open, close)
    case None => [Plain(s[from..])]
    case Some((i, e)) => [Plain(s[from..i])] + ([Article(s[i..e])] + Cut(s, e, open, close))
  }

  /** The page cut at its fare articles. */
  function Pieces(html: string): seq<Piece>
  {
    Cut(html, 0, ArticleOpen, ArticleClose)
  }

  lemma SourcesCons(p: Piece, ps: seq<Piece>)
    ensures Sources([p] + ps) == [SourceOf(p)] + Sources(ps)
  {
  }

  lemma ConcatCons(x: string, xs: seq<string>)
    ensures Concat([x] + xs) == x + Concat(xs)
  {
    assert ([x] + xs)[1..] == xs;
  }

  /** One step of reassembly: a text and an article, then the rest. */
  lemma ReassembleStep(a: string, b: string, rest: seq<Piece>)
    ensures Concat(Sources([Plain(a)] + ([Article(b)] + rest))) == a + b + Concat(Sources(rest))
  {
    SourcesCons(Article(b), rest);
    SourcesCons(Plain(a), [Article(b)] + rest);
    ConcatCons(b, Sources(rest));
    ConcatCons(a, [b] + Sources(rest));
  }

  lemma SliceThree(s: string, from: nat, i: nat, e: nat)
    requires from <= i <= e <= |s|
    ensures s[from..] == s[from..i] + s[i..e] + s[e..]
  {
  }

  /** A scan that finds a match: the text before it, the match, and the
      scan after it. */
  lemma CutStep(s: string, from: nat, open: string, close: string, i: nat, e: nat)
    requires from <= |s| && open != [] && NextMatch(s, from, open, close) == Some((i, e))
    ensures from <= i <= e <= |s|
    ensures Cut(s, from, open, close) == [Plain(s[from..i])] + ([Article(s[i..e])] + Cut(s, e, open, close))
  {
  }

  /** A text, an article and pieces that reassemble to the rest of `s`
      reassemble to `s` from `from`. */
  lemma ReassembleFrom(s: string, from: nat, i: nat, e: nat, rest: seq<Piece>)
    requires from <= i <= e <= |s|
    requires Concat(Sources(rest)) == s[e..]
    ensures Concat(Sources([Plain(s[from..i])] + ([Article(s[i..e])] + rest))) == s[from..]
  {
    ReassembleStep(s[from..i], s[i..e], rest);
    SliceThree(s, from, i, e);
  }

  /** A scan that finds no complete match is one text. */
  lemma CutText(s: string, from: nat, open: string, close: string)
    requires from <= |s| && open != [] && NextMatch(s, from, open, close).None?
    ensures Concat(Sources(Cut(s, from, open, close))) == s[from..]
  {
    assert Cut(s, from, open, close) == [Plain(s[from..])];
    assert Sources([Plain(s[from..])]) == [s[from..]];
    ConcatCons(s[from..], []);
  }

  /** The pieces put back together are the page. */
  lemma {:induction false} CutReassembles(s: string, from: nat, open: string, close: string)
    requires from <= |s| && open != []
    ensures Concat(Sources(Cut(s, from, open, close))) == s[from..]
    decreases |s| - from
  {
    match NextMatch(s, from, open, close)
    case None =>
      CutText(s, from, open, close);
    case Some((i, e)) =>
      CutStep(s, from, open, close, i, e);
      CutReassembles(s, e, open, close);
      ReassembleFrom(s, from, i, e, Cut(s, e, open, close));
  }

  /** The fare articles and the text between them make up the page. */
  lemma PiecesReassemble(html: string)
    ensures Concat(Sources(Pieces(html))) == html
  {
    CutReassembles(html, 0, ArticleOpen, ArticleClose);
  }

  /** An article that already has both attributes is skipped. */
  predicate AlreadyMigrated(article: string)
  {
    Contains(article, "data-origin=") && Contains(article, "data-dest=")
  }

  /** An article that gets placeholdered: not migrated yet, and with a
      route. */
  predicate Candidate(p: Piece)
  {
    p.Article? && !AlreadyMigrated(p.html) && ExtractIata(p.html).Some?
  }

  /** How many candidates there are among `ps`. */
  function CandidatesIn(ps: seq<Piece>): (n: nat)
    ensures n <= |ps|
  {
    if ps == [] then 0
    else CandidatesIn(ps[..|ps| - 1]) + (if Candidate(ps[|ps| - 1]) then 1 else 0)
  }

  const Tiers: seq<string> := ["low", "mid", "high", "other"]

  /** The tier of the `k`-th candidate, counting from 0. */
  function Tier(k: nat): string
  {
    if k < 3 then Tiers[k] else Tiers[3]
  }

  lemma TierOrder(k: nat)
    ensures k == 0 ==> Tier(k) == "low"
    ensures k == 1 ==> Tier(k) == "mid"
    ensures k == 2 ==> Tier(k) == "high"
    ensures k >= 3 ==> Tier(k) == "other"
  {
  }

  function Quoted(name: string, value: string): string
  {
    name + "=\"" + value + "\""
  }

  /** The attributes, in their fixed order; the price one only when a
      price was read. */
  function FareAttrs(route: Route, price: Option<nat>, tier: string): (r: seq<string>)
    ensures |r| == (if price.Some? then 6 else 5)
    ensures r[..5] == [Quoted("data-origin", route.origin), Quoted("data-dest", route.dest),
                       "data-currency=\"GBP\"", Quoted("data-route-key", route.origin + "-" + route.dest),
                       Quoted("data-fare-tier", tier)]
    ensures price.Some? ==> r[5] == Quoted("data-price-gbp", NatToString(price.value))
  {
    var fixed := [Quoted("data-origin", route.origin), Quoted("data-dest", route.dest),
                  "data-currency=\"GBP\"", Quoted("data-route-key", route.origin + "-" + route.dest),
                  Quoted("data-fare-tier", tier)];
    if price.Some? then fixed + [Quoted("data-price-gbp", NatToString(price.value))] else fixed
  }

  /** `<article class="fare-item"\s*>` at `i`. */
  predicate OpenTagAt(s: string, i: int)
  {
    OccursAt(s, ArticleOpen, i)
    && var e := SpanEnd(s, i + |ArticleOpen|, PySpace);
    e < |s| && s[e] == '>'
  }

  function FindOpenTag(s: string, from: nat): (r: Option<nat>)
    ensures r.Some? ==> from <= r.value < |s| && OpenTagAt(s, r.value)
    ensures r.Some? ==> forall j :: from <= j < r.value ==> !OpenTagAt(s, j)
    ensures r.None? ==> forall j :: from <= j <= |s| ==> !OpenTagAt(s, j)
    decreases |s| - from
  {
    if from >= |s| then None
    else if OpenTagAt(s, from) then Some(from)
    else FindOpenTag(s, from + 1)
  }

  /** The article with `attrs` injected into its first exact opening
      tag; an article whose opening tag has other attributes is
      unchanged. */
  function InjectAttrs(article: string, attrs: seq<string>): (r: string)
    ensures FindOpenTag(article, 0).None? ==> r == article
    ensures FindOpenTag(article, 0).Some? ==>
              var i := FindOpenTag(article, 0).value;
              var e := SpanEnd(article, i + |ArticleOpen|, PySpace) + 1;
              r == article[..i] + (ArticleOpen + " " + Join(" ", attrs) + ">") + article[e..]
  {
    match FindOpenTag(article, 0)
    case None => article
    case Some(i) =>
      var e := SpanEnd(article, i + |ArticleOpen|, PySpace) + 1;
      article[..i] + (ArticleOpen + " " + Join(" ", attrs) + ">") + article[e..]
  }

  /** What happens to a candidate that is the `k`-th one. */
  function Rewrite(article: string, k: nat): string
    requires ExtractIata(article).Some?
  {
    var attrs := FareAttrs(ExtractIata(article).value, ExtractPriceGbp(article), Tier(k));
    EnsureDataPrice(InjectAttrs(article, attrs))
  }

  /** The output for one piece, given how many candidates came before. */
  function Output(p: Piece, k: nat): string
  {
    if Candidate(p) then Rewrite(p.html, k) else SourceOf(p)
  }

  /** The reference: each piece rewritten with its own tier. */
  function Outputs(ps: seq<Piece>): (r: seq<string>)
    ensures |r| == |ps|
  {
    if ps == [] then []
    else Outputs(ps[..|ps| - 1]) + [Output(ps[|ps| - 1], CandidatesIn(ps[..|ps| - 1]))]
  }

  lemma OutputsSnoc(ps: seq<Piece>, j: nat)
    requires j < |ps|
    ensures Outputs(ps[..j + 1]) == Outputs(ps[..j]) + [Output(ps[j], CandidatesIn(ps[..j]))]
  {
    assert ps[..j + 1][..j] == ps[..j];
  }

  /** Some piece came out different. */
  predicate Changed(ps: seq<Piece>)
  {
    Outputs(ps) != Sources(ps)
  }

  lemma SourcesSnoc(ps: seq<Piece>, j: nat)
    requires j < |ps|
    ensures Sources(ps[..j + 1]) == Sources(ps[..j]) + [SourceOf(ps[j])]
  {
  }

  /** Two equally long sequences grown by one element each differ when
      they differed before or the new elements differ. */
  lemma DiffersSnoc<T>(a: seq<T>, b: seq<T>, x: T, y: T)
    requires |a| == |b|
    ensures a + [x] != b + [y] <==> a != b || x != y
  {
    if a + [x] == b + [y] {
      assert (a + [x])[..|a|] == a && (b + [y])[..|b|] == b;
      assert (a + [x])[|a|] == x && (b + [y])[|b|] == y;
    }
  }

  /** The page with its candidates rewritten. */
  function MigratedText(html: string): string
  {
    Concat(Outputs(Pieces(html)))
  }

  lemma CandidatesSnoc(ps: seq<Piece>, j: nat)
    requires j < |ps|
    ensures CandidatesIn(ps[..j + 1]) == CandidatesIn(ps[..j]) + (if Candidate(ps[j]) then 1 else 0)
  {
    assert ps[..j + 1][..j] == ps[..j];
  }

  /** Pieces other than candidates, already migrated articles among them,
      are copied as they are. */
  lemma OthersKept(ps: seq<Piece>, j: nat)
    requires j < |ps| && !Candidate(ps[j])
    ensures Outputs(ps[..j + 1]) == Outputs(ps[..j]) + [SourceOf(ps[j])]
  {
    OutputsSnoc(ps, j);
  }

  /** Pages without candidates come out as they are. */
  lemma {:induction false} NoCandidateOutputs(ps: seq<Piece>)
    requires forall j :: 0 <= j < |ps| ==> !Candidate(ps[j])
    ensures Outputs(ps) == Sources(ps)
    decreases |ps|
  {
    if ps != [] {
      var n := |ps| - 1;
      NoCandidateOutputs(ps[..n]);
      OthersKept(ps, n);
      SourcesSnoc(ps, n);
      assert ps[..n + 1] == ps;
    }
  }

  lemma MigratedArticleKept(article: string, k: nat)
    requires AlreadyMigrated(article)
    ensures Output(Article(article), k) == article
  {
  }

  /** Without a candidate the output is the page itself. */
  lemma NoCandidateNoChange(html: string)
    requires forall j :: 0 <= j < |Pieces(html)| ==> !Candidate(Pieces(html)[j])
    ensures MigratedText(html) == html && !Changed(Pieces(html))
  {
    NoCandidateOutputs(Pieces(html));
    PiecesReassemble(html);
  }

  /** What one more piece adds to the outputs, the candidate count and
      the change flag. */
  lemma PiecesStep(ps: seq<Piece>, j: nat)
    requires j < |ps|
    ensures Outputs(ps[..j + 1]) == Outputs(ps[..j]) + [Output(ps[j], CandidatesIn(ps[..j]))]
    ensures CandidatesIn(ps[..j + 1]) == CandidatesIn(ps[..j]) + (if Candidate(ps[j]) then 1 else 0)
    ensures Changed(ps[..j + 1])
            <==> Changed(ps[..j]) || Output(ps[j], CandidatesIn(ps[..j])) != SourceOf(ps[j])
  {
    OutputsSnoc(ps, j);
    SourcesSnoc(ps, j);
    DiffersSnoc(Outputs(ps[..j]), Sources(ps[..j]), Output(ps[j], CandidatesIn(ps[..j])), SourceOf(ps[j]));
    CandidatesSnoc(ps, j);
  }

  /** The loop body of `migrate_file` for the `occ`-th candidate: the
      attributes injected, then the price marker. */
  method RewriteArticle(article: string, occ: nat, tiers: seq<string>) returns (article2: string)
    requires ExtractIata(article).Some? && tiers == Tiers
    ensures article2 == Rewrite(article, occ)
  {
    var route := ExtractIata(article).value;
    var price := ExtractPriceGbp(article);
    var tier := if occ < 3 then tiers[occ] else tiers[|tiers| - 1];
    assert tier == Tier(occ);
    var attrs := FareAttrs(route, price, tier);
    article2 := InjectAttrs(article, attrs);
    article2 := EnsureDataPrice(article2);
  }

  /** One piece of the second pass: a candidate rewritten with the tier
      of place `occ`, any other piece copied, and whether it changed. */
  method RewritePiece(p: Piece, occ: nat) returns (piece: string, differs: bool)
    ensures piece == Output(p, occ)
    ensures differs <==> piece != SourceOf(p)
  {
    piece := SourceOf(p);
    differs := false;
    if Candidate(p) {
      var article2 := RewriteArticle(p.html, occ, Tiers);
      if article2 != p.html {
        differs := true;
      }
      piece := article2;
    }
  }

  /** The second pass of `migrate_file`: every candidate rewritten with
      the tier of its place among the candidates, every other piece kept,
      and whether some candidate came out different. */
  method RewritePieces(pieces: seq<Piece>) returns (out: seq<string>, changed: bool)
    ensures out == Outputs(pieces)
    ensures changed <==> Changed(pieces)
  {
    out := [];
    var occ := 0;
    changed := false;
    var j := 0;
    while j < |pieces|
      invariant 0 <= j <= |pieces|
      invariant out == Outputs(pieces[..j])
      invariant occ == CandidatesIn(pieces[..j])
      invariant changed <==> Changed(pieces[..j])
    {
      var piece, differs := RewritePiece(pieces[j], occ);
      PiecesStep(pieces, j);
      if differs {
        changed := true;
      }
      if Candidate(pieces[j]) {
        occ := occ + 1;
      }
      out := out + [piece];
      j := j + 1;
    }
    assert pieces[..j] == pieces;
  }

  /** `migrate_file` on the text of one page: whether the page is
      written, and its new content. */
  method MigrateFile(html: string) returns (written: bool, content: string)
    ensures written <==> Contains(html, FareItemClass) && Changed(Pieces(html)) && MigratedText(html) != html
    ensures content == if written then MigratedText(html) else html
  {
    if !Contains(html, FareItemClass) {
      return false, html;
    }
    var pieces := Pieces(html);
    if forall j :: 0 <= j < |pieces| ==> !Candidate(pieces[j]) {
      NoCandidateNoChange(html);
      return false, html;
    }
    var out, changed := RewritePieces(pieces);
    var html2 := Concat(out);
    written := changed && html2 != html;
    content := if written then html2 else html;
  }
}
