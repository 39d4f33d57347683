/** Character classes and string routines shared by the models of the
    JavaScript, PHP and Python code. Strings are `seq<char>`; the meaning of
    one `char` is fixed by the module that uses it: a character (a Unicode
    scalar value) for JavaScript and Python, whose code-unit counts are
    `UnitLength` and `SliceUnits`, and one byte for PHP. */
module Text {

  // ---------------------------------------------------------------------
  // Character classes

  /** ECMAScript WhiteSpace and LineTerminator: the set matched by `\s`
      and removed by `String.prototype.trim`. */
  predicate IsJsSpace(c: char)
  {
    c == '\t' || c == '\n' || c == '\U{B}' || c == '\U{C}' || c == '\r' || c == ' '
    || c == '\U{A0}' || c == '\U{1680}' || ('\U{2000}' <= c <= '\U{200A}')
    || c == '\U{2028}' || c == '\U{2029}' || c == '\U{202F}' || c == '\U{205F}'
    || c == '\U{3000}' || c == '\U{FEFF}'
  }

  /** Python's `\s` on `str` patterns (the characters for which
      `str.isspace()` holds). */
  predicate IsPySpace(c: char)
  {
    c == '\t' || c == '\n' || c == '\U{B}' || c == '\U{C}' || c == '\r' || c == ' '
    || ('\U{1C}' <= c <= '\U{1F}') || c == '\U{85}' || c == '\U{A0}' || c == '\U{1680}'
    || ('\U{2000}' <= c <= '\U{200A}') || c == '\U{2028}' || c == '\U{2029}'
    || c == '\U{202F}' || c == '\U{205F}' || c == '\U{3000}'
  }

  /** The characters matched by the regular-expression class `[\x00-\x1F\x7F]`. */
  predicate IsControl(c: char)
  {
    c as int <= 0x1F || c as int == 0x7F
  }

  /** The classes that the trimming and replacing routines below are
      applied to. */
  datatype CharClass = JsSpace | PySpace | Control | Digit | DigitOrPlus | DigitOrComma

  predicate InClass(k: CharClass, c: char)
  {
    match k
    case JsSpace => IsJsSpace(c)
    case PySpace => IsPySpace(c)
    case Control => IsControl(c)
    case Digit => IsAsciiDigit(c)
    case DigitOrPlus => IsAsciiDigit(c) || c == '+'
    case DigitOrComma => IsAsciiDigit(c) || c == ','
  }

  predicate IsAsciiDigit(c: char) { '0' <= c <= '9' }

  predicate IsAsciiUpper(c: char) { 'A' <= c <= 'Z' }

  predicate IsAsciiLower(c: char) { 'a' <= c <= 'z' }

  /** ASCII word characters: `[A-Za-z0-9_]`, the `\w` of a JavaScript
      regular expression without the `u` flag. */
  predicate IsWordChar(c: char)
  {
    IsAsciiUpper(c) || IsAsciiLower(c) || IsAsciiDigit(c) || c == '_'
  }

  function ToAsciiUpper(c: char): (r: char)
    ensures IsAsciiLower(c) ==> IsAsciiUpper(r) && r as int == c as int - 32
    ensures !IsAsciiLower(c) ==> r == c
  {
    if IsAsciiLower(c) then (c as int - 32) as char else c
  }

  function ToAsciiLower(c: char): (r: char)
    ensures IsAsciiUpper(c) ==> IsAsciiLower(r) && r as int == c as int + 32
    ensures !IsAsciiUpper(c) ==> r == c
  {
    if IsAsciiUpper(c) then (c as int + 32) as char else c
  }

  /** Case-insensitive equality of two characters, ASCII letters only. */
  predicate CharEqIgnoreCase(a: char, b: char)
  {
    ToAsciiLower(a) == ToAsciiLower(b)
  }

  /** Case-insensitive equality of two strings of the same length. */
  predicate EqIgnoreCase(a: string, b: string)
  {
    |a| == |b| && forall i :: 0 <= i < |a| ==> CharEqIgnoreCase(a[i], b[i])
  }

  // ---------------------------------------------------------------------
  // Searching

  /** `w` occurs in `s` at position `i`. */
  predicate OccursAt(s: string, w: string, i: int)
  {
    0 <= i && i + |w| <= |s| && s[i..i + |w|] == w
  }

  /** `w` occurs in `s` at position `i`, ignoring ASCII case. */
  predicate OccursAtIgnoreCase(s: string, w: string, i: int)
  {
    0 <= i && i + |w| <= |s| && EqIgnoreCase(s[i..i + |w|], w)
  }

  /** JavaScript's `s.includes(w)` / Python's `w in s`. */
  predicate Contains(s: string, w: string)
  {
    exists i | 0 <= i <= |s| :: OccursAt(s, w, i)
  }

  /** A case-insensitive regular expression made of one literal `w`
      (`/w/i.test(s)`). */
  predicate ContainsIgnoreCase(s: string, w: string)
  {
    exists i | 0 <= i <= |s| :: OccursAtIgnoreCase(s, w, i)
  }

  /** `s.indexOf(c)`, or `|s|` when `c` does not occur. */
  function IndexOf(s: string, c: char): (k: nat)
    ensures k <= |s|
    ensures k < |s| ==> s[k] == c
    ensures forall j :: 0 <= j < k ==> s[j] != c
  {
    if s == [] then 0
    else if s[0] == c then 0
    else 1 + IndexOf(s[1..], c)
  }

  // ---------------------------------------------------------------------
  // Trimming and character replacement

  /** `s` with the longest prefix of characters of class `k` removed. */
  function DropWhile(s: string, k: CharClass): (r: string)
    ensures |r| <= |s|
    ensures r == [] || !InClass(k, r[0])
  {
    if s == [] || !InClass(k, s[0]) then s else DropWhile(s[1..], k)
  }

  /** What is left is a suffix. */
  lemma {:induction false} DropWhileIsSuffix(s: string, k: CharClass)
    ensures DropWhile(s, k) == s[|s| - |DropWhile(s, k)|..]
    decreases |s|
  {
    if s != [] && InClass(k, s[0]) {
      DropWhileIsSuffix(s[1..], k);
    }
  }

  /** `s` with the longest suffix of characters of class `k` removed. */
  function DropWhileEnd(s: string, k: CharClass): (r: string)
    ensures |r| <= |s|
    ensures r == [] || !InClass(k, r[|r| - 1])
  {
    if s == [] || !InClass(k, s[|s| - 1]) then s else DropWhileEnd(s[..|s| - 1], k)
  }

  /** What is left is a prefix. */
  lemma {:induction false} DropWhileEndIsPrefix(s: string, k: CharClass)
    ensures DropWhileEnd(s, k) == s[..|DropWhileEnd(s, k)|]
    decreases |s|
  {
    if s != [] && InClass(k, s[|s| - 1]) {
      DropWhileEndIsPrefix(s[..|s| - 1], k);
    }
  }

  /** Removes the characters of class `k` from both ends. */
  function TrimBy(s: string, k: CharClass): (r: string)
    ensures r == [] || (!InClass(k, r[0]) && !InClass(k, r[|r| - 1]))
    ensures |r| <= |s|
  {
    DropWhileEndIsPrefix(DropWhile(s, k), k);
    DropWhileEnd(DropWhile(s, k), k)
  }

  /** No character of `s` is of class `k`. */
  predicate NoneOf(s: string, k: CharClass)
  {
    forall i :: 0 <= i < |s| ==> !InClass(k, s[i])
  }

  lemma NoneOfTail(s: string, k: CharClass)
    requires s != [] && NoneOf(s, k)
    ensures NoneOf(s[1..], k)
  {
    assert forall i :: 0 <= i < |s| - 1 ==> s[1..][i] == s[i + 1];
  }

  lemma NoneOfInit(s: string, k: CharClass)
    requires s != [] && NoneOf(s, k)
    ensures NoneOf(s[..|s| - 1], k)
  {
    assert forall i :: 0 <= i < |s| - 1 ==> s[..|s| - 1][i] == s[i];
  }

  /** Trimming keeps a string free of a class. */
  lemma {:induction false} DropWhileKeepsNoneOf(s: string, k: CharClass, other: CharClass)
    requires NoneOf(s, other)
    ensures NoneOf(DropWhile(s, k), other)
    decreases |s|
  {
    if s != [] && InClass(k, s[0]) {
      NoneOfTail(s, other);
      DropWhileKeepsNoneOf(s[1..], k, other);
    }
  }

  lemma {:induction false} DropWhileEndKeepsNoneOf(s: string, k: CharClass, other: CharClass)
    requires NoneOf(s, other)
    ensures NoneOf(DropWhileEnd(s, k), other)
    decreases |s|
  {
    if s != [] && InClass(k, s[|s| - 1]) {
      NoneOfInit(s, other);
      DropWhileEndKeepsNoneOf(s[..|s| - 1], k, other);
    }
  }

  lemma TrimKeepsNoneOf(s: string, k: CharClass, other: CharClass)
    requires NoneOf(s, other)
    ensures NoneOf(TrimBy(s, k), other)
  {
    DropWhileKeepsNoneOf(s, k, other);
    DropWhileEndKeepsNoneOf(DropWhile(s, k), k, other);
  }

  /** After the replacement no character of the class is left, provided
      the substitute is not of it. */
  lemma MapWhereClears(s: string, k: CharClass, sub: char)
    requires !InClass(k, sub)
    ensures NoneOf(MapWhere(s, k, sub), k)
  {
  }

  /** Trimming a string whose ends are already clean changes nothing. */
  lemma TrimOfTrimmed(s: string, k: CharClass)
    requires s == [] || (!InClass(k, s[0]) && !InClass(k, s[|s| - 1]))
    ensures TrimBy(s, k) == s
  {
  }

  /** A trailing character of the class is dropped from the front only
      together with everything before it. */
  lemma {:induction false} DropWhileSnoc(s: string, k: CharClass, c: char)
    requires InClass(k, c)
    ensures DropWhile(s + [c], k) == if DropWhile(s, k) == [] then [] else DropWhile(s, k) + [c]
    decreases |s|
  {
    if s == [] {
      assert DropWhile([c], k) == DropWhile([], k);
    } else if InClass(k, s[0]) {
      var t := s[1..];
      assert (s + [c])[1..] == t + [c];
      assert DropWhile(s + [c], k) == DropWhile(t + [c], k);
      assert DropWhile(s, k) == DropWhile(t, k);
      DropWhileSnoc(t, k, c);
    } else {
      assert DropWhile(s, k) == s;
      assert DropWhile(s + [c], k) == s + [c];
    }
  }

  lemma DropWhileEndSnoc(s: string, k: CharClass, c: char)
    requires InClass(k, c)
    ensures DropWhileEnd(s + [c], k) == DropWhileEnd(s, k)
  {
    assert (s + [c])[..|s|] == s;
  }

  /** Trimming ignores one more character of the class at the end. */
  lemma TrimSnoc(s: string, k: CharClass, c: char)
    requires InClass(k, c)
    ensures TrimBy(s + [c], k) == TrimBy(s, k)
  {
    DropWhileSnoc(s, k, c);
    if DropWhile(s, k) != [] {
      DropWhileEndSnoc(DropWhile(s, k), k, c);
    }
  }

  /** A character outside the class stops the front trim: what follows
      it is kept. */
  lemma {:induction false} DropWhileBeforeStop(a: string, c: char, b: string, k: CharClass)
    requires !InClass(k, c)
    ensures DropWhile(a + [c] + b, k) == DropWhile(a, k) + [c] + b
    decreases |a|
  {
    if a == [] {
      assert a + [c] + b == [c] + b;
    } else if InClass(k, a[0]) {
      assert (a + [c] + b)[1..] == a[1..] + [c] + b;
      DropWhileBeforeStop(a[1..], c, b, k);
    } else {
      assert (a + [c] + b)[0] == a[0];
    }
  }

  /** Likewise for the end trim: what precedes it is kept. */
  lemma {:induction false} DropWhileEndAfterStop(a: string, c: char, b: string, k: CharClass)
    requires !InClass(k, c)
    ensures DropWhileEnd(a + [c] + b, k) == a + [c] + DropWhileEnd(b, k)
    decreases |b|
  {
    if b == [] {
      assert a + [c] + b == a + [c];
    } else if InClass(k, b[|b| - 1]) {
      var b' := b[..|b| - 1];
      assert (a + [c] + b)[..|a + [c] + b| - 1] == a + [c] + b';
      DropWhileEndAfterStop(a, c, b', k);
    } else {
      assert (a + [c] + b)[|a + [c] + b| - 1] == b[|b| - 1];
    }
  }

  /** The end trim of a string with one more character in front. */
  lemma {:induction false} DropWhileEndCons(c: char, s: string, k: CharClass)
    ensures DropWhileEnd([c] + s, k) == if DropWhileEnd(s, k) == [] && InClass(k, c) then [] else [c] + DropWhileEnd(s, k)
    decreases |s|
  {
    if s == [] {
      assert [c] + s == [c];
      assert [c][..0] == [];
    } else if InClass(k, s[|s| - 1]) {
      var s' := s[..|s| - 1];
      assert ([c] + s)[..|s|] == [c] + s';
      DropWhileEndCons(c, s', k);
    } else {
      assert ([c] + s)[|s|] == s[|s| - 1];
    }
  }

  /** The two trims commute. */
  lemma {:induction false} TrimsCommute(s: string, k: CharClass)
    ensures DropWhile(DropWhileEnd(s, k), k) == DropWhileEnd(DropWhile(s, k), k)
    decreases |s|
  {
    if s != [] {
      if InClass(k, s[0]) {
        TrimsCommute(s[1..], k);
        assert s == [s[0]] + s[1..];
        DropWhileEndCons(s[0], s[1..], k);
      } else {
        DropWhileEndKeepsHead(s, k);
      }
    }
  }

  /** The end trim keeps a first character outside the class. */
  lemma {:induction false} DropWhileEndKeepsHead(s: string, k: CharClass)
    requires s != [] && !InClass(k, s[0])
    ensures DropWhileEnd(s, k) != [] && DropWhileEnd(s, k)[0] == s[0]
    decreases |s|
  {
    if InClass(k, s[|s| - 1]) {
      DropWhileEndKeepsHead(s[..|s| - 1], k);
    }
  }

  /** A character absent from a string is absent from its trims. */
  lemma {:induction false} DropWhileAvoids(s: string, k: CharClass, d: char)
    requires d !in s
    ensures d !in DropWhile(s, k)
    decreases |s|
  {
    if s != [] && InClass(k, s[0]) {
      DropWhileAvoids(s[1..], k, d);
    }
  }

  lemma {:induction false} DropWhileEndAvoids(s: string, k: CharClass, d: char)
    requires d !in s
    ensures d !in DropWhileEnd(s, k)
    decreases |s|
  {
    if s != [] && InClass(k, s[|s| - 1]) {
      DropWhileEndAvoids(s[..|s| - 1], k, d);
    }
  }

  /** `String.prototype.trim`. */
  function TrimJs(s: string): (r: string)
    ensures r == [] || (!IsJsSpace(r[0]) && !IsJsSpace(r[|r| - 1]))
  {
    TrimBy(s, JsSpace)
  }

  /** Replaces every character of class `k` by `sub`. */
  function MapWhere(s: string, k: CharClass, sub: char): (r: string)
    ensures |r| == |s|
    ensures forall i :: 0 <= i < |s| ==> r[i] == if InClass(k, s[i]) then sub else s[i]
  {
    if s == [] then [] else [if InClass(k, s[0]) then sub else s[0]] + MapWhere(s[1..], k, sub)
  }

  /** Keeps only the characters of class `k`, in order. */
  function Filter(s: string, k: CharClass): (r: string)
    ensures |r| <= |s|
    ensures forall i :: 0 <= i < |r| ==> InClass(k, r[i])
  {
    if s == [] then [] else (if InClass(k, s[0]) then [s[0]] else []) + Filter(s[1..], k)
  }

  lemma {:induction false} FilterAppend(a: string, b: string, k: CharClass)
    ensures Filter(a + b, k) == Filter(a, k) + Filter(b, k)
    decreases |a|
  {
    if a == [] {
      assert a + b == b;
    } else {
      assert (a + b)[1..] == a[1..] + b;
      FilterAppend(a[1..], b, k);
    }
  }

  /** Nothing is kept from text outside the class. */
  lemma {:induction false} FilterNoneOf(s: string, k: CharClass)
    requires NoneOf(s, k)
    ensures Filter(s, k) == []
    decreases |s|
  {
    if s != [] {
      NoneOfTail(s, k);
      FilterNoneOf(s[1..], k);
    }
  }

  /** Text inside the class is kept whole. */
  lemma {:induction false} FilterAllOf(s: string, k: CharClass)
    requires forall i :: 0 <= i < |s| ==> InClass(k, s[i])
    ensures Filter(s, k) == s
    decreases |s|
  {
    if s != [] {
      assert forall i :: 0 <= i < |s| - 1 ==> s[1..][i] == s[i + 1];
      FilterAllOf(s[1..], k);
    }
  }

  /** `substr(s, 0, n)`: the first `n` characters (bytes, for PHP). */
  function Take(s: string, n: nat): (r: string)
    ensures |r| == if |s| <= n then |s| else n
    ensures r == s[..|r|]
  {
    if |s| <= n then s else s[..n]
  }

  /** The UTF-16 code units JavaScript spends on a character: two for a
      character outside the Basic Multilingual Plane (a surrogate pair),
      one for any other. */
  function Units(c: char): (u: nat)
    ensures 1 <= u <= 2
  {
    if c as int < 0x10000 then 1 else 2
  }

  /** A JavaScript string's `length`, in code units. */
  function UnitLength(s: string): nat
  {
    if s == [] then 0 else Units(s[0]) + UnitLength(s[1..])
  }

  /** What stands in this model for a high surrogate left alone by a cut:
      U+FFFD, the character that Node's UTF-8 encoding writes for a lone
      surrogate. */
  const LoneSurrogate: char := '\U{FFFD}'

  /** `s.slice(0, n)` on a JavaScript string, counted in code units. A cut
      through a surrogate pair keeps only its high half, written
      `LoneSurrogate`. */
  function SliceUnits(s: string, n: nat): (r: string)
    ensures UnitLength(r) <= n
  {
    if s == [] || n == 0 then []
    else if Units(s[0]) <= n then
      var rest := SliceUnits(s[1..], n - Units(s[0]));
      assert ([s[0]] + rest)[1..] == rest;
      [s[0]] + rest
    else [LoneSurrogate]
  }

  /** The slice is `n` units long, or the whole string when that is
      shorter. */
  lemma {:induction false} SliceUnitsLength(s: string, n: nat)
    ensures UnitLength(SliceUnits(s, n)) == if UnitLength(s) <= n then UnitLength(s) else n
    ensures UnitLength(s) <= n ==> SliceUnits(s, n) == s
    decreases |s|
  {
    if s != [] && n != 0 {
      if Units(s[0]) <= n {
        var rest := SliceUnits(s[1..], n - Units(s[0]));
        SliceUnitsLength(s[1..], n - Units(s[0]));
        assert ([s[0]] + rest)[1..] == rest;
        if UnitLength(s) <= n {
          assert [s[0]] + s[1..] == s;
        }
      }
    }
  }

  /** The slice copies the start of the string, except that its last
      character may be the lone half of a pair the cut went through. */
  lemma {:induction false} SliceUnitsPrefix(s: string, n: nat)
    ensures var r := SliceUnits(s, n);
      && |r| <= |s|
      && (r == s[..|r|] || (r == s[..|r| - 1] + [LoneSurrogate] && Units(s[|r| - 1]) == 2))
    decreases |s|
  {
    if s != [] && n != 0 && Units(s[0]) <= n {
      var rest := SliceUnits(s[1..], n - Units(s[0]));
      SliceUnitsPrefix(s[1..], n - Units(s[0]));
      var m := |rest|;
      ConsPrefix(s, m);
      if rest != s[1..][..m] {
        ConsPrefix(s, m - 1);
        assert [s[0]] + rest == ([s[0]] + s[1..][..m - 1]) + [LoneSurrogate];
      }
    }
  }

  lemma ConsPrefix(s: string, m: nat)
    requires m < |s|
    ensures [s[0]] + s[1..][..m] == s[..m + 1]
  {
  }

  /** A slice of text free of a class that does not contain U+FFFD is free
      of it too. */
  lemma SliceUnitsKeepsNoneOf(s: string, n: nat, k: CharClass)
    requires NoneOf(s, k) && !InClass(k, LoneSurrogate)
    ensures NoneOf(SliceUnits(s, n), k)
  {
    SliceUnitsPrefix(s, n);
    var r := SliceUnits(s, n);
    if r != s[..|r|] {
      assert forall i :: 0 <= i < |r| - 1 ==> r[i] == s[i];
    }
  }

  /** A cut keeps a string's clean first character, and its clean last
      character whenever the whole string fits. */
  lemma SliceUnitsKeepsEnds(t: string, n: nat, k: CharClass)
    requires t == [] || (!InClass(k, t[0]) && !InClass(k, t[|t| - 1]))
    requires !InClass(k, LoneSurrogate)
    ensures var r := SliceUnits(t, n);
      (r == [] || !InClass(k, r[0])) && (UnitLength(r) < n ==> r == [] || !InClass(k, r[|r| - 1]))
  {
    SliceUnitsPrefix(t, n);
    SliceUnitsLength(t, n);
    var r := SliceUnits(t, n);
    if r != [] && r != t[..|r|] && |r| > 1 {
      assert r[0] == t[0];
    }
  }

  /** A cut through a surrogate pair: of two emoji, three code units keep
      the first and the high half of the second. */
  lemma SliceUnitsSplitsPair()
    ensures SliceUnits("\U{1F600}\U{1F600}", 3) == "\U{1F600}" + [LoneSurrogate]
    ensures UnitLength("\U{1F600}\U{1F600}") == 4
  {
    var s := "\U{1F600}\U{1F600}";
    assert s[1..] == "\U{1F600}" && s[1..][1..] == [];
    assert SliceUnits(s[1..], 1) == [LoneSurrogate];
  }

  lemma TakeKeepsNoneOf(s: string, n: nat, k: CharClass)
    requires NoneOf(s, k)
    ensures NoneOf(Take(s, n), k)
  {
  }

  /** Replaces every occurrence of the character `c` by the string `sub`
      (`s.replace(/c/g, sub)`, `str_replace(c, sub, s)`). */
  function ReplaceChar(s: string, c: char, sub: string): (r: string)
    ensures c !in sub ==> c !in r
    ensures c !in s ==> r == s
    ensures |r| >= |s| - (if sub == [] then |s| else 0)
  {
    if s == [] then []
    else (if s[0] == c then sub else [s[0]]) + ReplaceChar(s[1..], c, sub)
  }

  lemma ReplaceCharAppend(a: string, b: string, c: char, sub: string)
    ensures ReplaceChar(a + b, c, sub) == ReplaceChar(a, c, sub) + ReplaceChar(b, c, sub)
  {
    if a == [] {
      assert a + b == b;
    } else {
      assert (a + b)[1..] == a[1..] + b;
      ReplaceCharAppend(a[1..], b, c, sub);
    }
  }

  /** A character other than the replaced one, absent from the input and
      from the replacement, is absent from the result. */
  lemma {:induction false} ReplaceCharAvoids(s: string, c: char, sub: string, d: char)
    requires d != c && d !in s && d !in sub
    ensures d !in ReplaceChar(s, c, sub)
  {
    if s != [] {
      ReplaceCharAvoids(s[1..], c, sub, d);
    }
  }

  // ---------------------------------------------------------------------
  // Joining and splitting

  /** `parts.join(sep)` / `implode(sep, parts)`. */
  function Join(sep: string, parts: seq<string>): (r: string)
    ensures parts == [] ==> r == []
    ensures |parts| == 1 ==> r == parts[0]
  {
    if parts == [] then []
    else if |parts| == 1 then parts[0]
    else parts[0] + sep + Join(sep, parts[1..])
  }

  lemma JoinCons(sep: string, p: string, ps: seq<string>)
    requires ps != []
    ensures Join(sep, [p] + ps) == p + sep + Join(sep, ps)
  {
    assert ([p] + ps)[1..] == ps;
  }

  lemma JoinSnoc(sep: string, ps: seq<string>, p: string)
    requires ps != []
    ensures Join(sep, ps + [p]) == Join(sep, ps) + sep + p
  {
    if |ps| == 1 {
      assert ps + [p] == [ps[0], p];
    } else {
      assert (ps + [p])[1..] == ps[1..] + [p];
      JoinSnoc(sep, ps[1..], p);
    }
  }

  /** A character absent from the separator and from every part is absent
      from their join. */
  lemma {:induction false} JoinAvoids(sep: string, parts: seq<string>, d: char)
    requires d !in sep
    requires forall k :: 0 <= k < |parts| ==> d !in parts[k]
    ensures d !in Join(sep, parts)
    decreases |parts|
  {
    if |parts| > 1 {
      JoinAvoids(sep, parts[1..], d);
    }
  }

  /** `.filter(Boolean)` on strings. */
  function NonEmpty(parts: seq<string>): (r: seq<string>)
    ensures forall k :: 0 <= k < |r| ==> r[k] != ""
    ensures (forall k :: 0 <= k < |parts| ==> parts[k] != "") ==> r == parts
  {
    if parts == [] then []
    else (if parts[0] == "" then [] else [parts[0]]) + NonEmpty(parts[1..])
  }

  lemma {:induction false} NonEmptyAppend(a: seq<string>, b: seq<string>)
    ensures NonEmpty(a + b) == NonEmpty(a) + NonEmpty(b)
  {
    if a == [] {
      assert a + b == b;
    } else {
      assert (a + b)[1..] == a[1..] + b;
      NonEmptyAppend(a[1..], b);
    }
  }

  /** `s.split(c)` with a one-character separator: the pieces between the
      occurrences of `c`; always at least one piece. */
  function Split(s: string, c: char): (r: seq<string>)
    ensures |r| >= 1
    ensures forall k :: 0 <= k < |r| ==> c !in r[k]
    decreases |s|
  {
    var k := IndexOf(s, c);
    if k == |s| then [s] else [s[..k]] + Split(s[k + 1..], c)
  }

  /** Splitting and re-joining with the same separator gives back the string. */
  lemma {:induction false} JoinSplit(s: string, c: char)
    ensures Join([c], Split(s, c)) == s
    decreases |s|
  {
    var k := IndexOf(s, c);
    if k < |s| {
      var rest := Split(s[k + 1..], c);
      assert Split(s, c) == [s[..k]] + rest;
      JoinSplit(s[k + 1..], c);
      JoinCons([c], s[..k], rest);
      calc {
        Join([c], Split(s, c));
        s[..k] + [c] + Join([c], rest);
        s[..k] + [c] + s[k + 1..];
        { assert s == s[..k] + [c] + s[k + 1..]; }
        s;
      }
    }
  }

  /** Pieces without the separator are recovered by splitting their join. */
  lemma {:induction false} SplitJoin(parts: seq<string>, c: char)
    requires parts != []
    requires forall k :: 0 <= k < |parts| ==> c !in parts[k]
    ensures Split(Join([c], parts), c) == parts
    decreases |parts|
  {
    if |parts| > 1 {
      assert parts == [parts[0]] + parts[1..];
      JoinCons([c], parts[0], parts[1..]);
      SplitCons(parts[0], Join([c], parts[1..]), c);
      SplitJoin(parts[1..], c);
    } else {
      IndexOfAbsent(parts[0], c);
    }
  }

  /** A piece without the separator, then the separator, splits off first. */
  lemma SplitCons(a: string, rest: string, c: char)
    requires c !in a
    ensures Split(a + [c] + rest, c) == [a] + Split(rest, c)
  {
    var s := a + [c] + rest;
    assert s == a + ([c] + rest);
    IndexOfPrefix(a, [c] + rest, c);
    assert s[..|a|] == a;
    assert s[|a| + 1..] == rest;
  }

  lemma IndexOfAbsent(s: string, c: char)
    requires c !in s
    ensures IndexOf(s, c) == |s|
  {
  }

  lemma {:induction false} IndexOfPrefix(a: string, b: string, c: char)
    requires c !in a && b != [] && b[0] == c
    ensures IndexOf(a + b, c) == |a|
  {
    if a != [] {
      assert (a + b)[1..] == a[1..] + b;
      IndexOfPrefix(a[1..], b, c);
    }
  }

  // ---------------------------------------------------------------------
  // Decimal numbers

  function DigitChar(d: nat): (c: char)
    requires d < 10
    ensures IsAsciiDigit(c) && c as int - '0' as int == d
  {
    ('0' as int + d) as char
  }

  /** The decimal notation of `n`, without leading zeros. */
  function NatToString(n: nat): (r: string)
    ensures |r| >= 1
    ensures forall c :: c in r ==> IsAsciiDigit(c)
    ensures n < 10 ==> |r| == 1
    ensures n >= 10 ==> |r| >= 2
    ensures r[0] != '0' || n == 0
    decreases n
  {
    if n < 10 then [DigitChar(n)] else NatToString(n / 10) + [DigitChar(n % 10)]
  }

  /** The value of a string of ASCII digits (leading zeros allowed). */
  function DigitsValue(s: string): (v: nat)
    requires forall c :: c in s ==> IsAsciiDigit(c)
    decreases |s|
  {
    if s == [] then 0
    else
      var d := s[|s| - 1];
      assert d in s && IsAsciiDigit(d);
      assert '0' as int <= d as int;
      DigitsValue(s[..|s| - 1]) * 10 + (d as int - '0' as int)
  }

  /** Reading back the decimal notation gives the number. */
  lemma {:induction false} DigitsValueOfNatToString(n: nat)
    ensures DigitsValue(NatToString(n)) == n
    decreases n
  {
    var s := NatToString(n);
    if n >= 10 {
      assert s[..|s| - 1] == NatToString(n / 10);
      DigitsValueOfNatToString(n / 10);
    }
  }
}
