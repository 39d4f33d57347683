/** `htmlspecialchars($text, ENT_QUOTES | ENT_SUBSTITUTE, 'UTF-8')`, the
    escaping the PHP handler applies to every cell of its XLS export, and
    a decoder that undoes it on its own output. */
module PhpHtml {

  import opened Utf8
  import XlsTable

  /** The text with every ill-formed byte replaced by U+FFFD: a byte that
      does not start a well-formed sequence is replaced on its own and the
      scan goes on at the next byte. */
  function Substituted(s: string): string
    decreases |s|
  {
    if s == [] then []
    else
      var n := SeqLength(s);
      if n == 0 then Replacement + Substituted(s[1..])
      else s[..n] + Substituted(s[n..])
  }

  /** Substitution always yields well-formed text. */
  lemma {:induction false} SubstitutedIsUtf8(s: string)
    ensures IsUtf8(Substituted(s))
    decreases |s|
  {
    if s != [] {
      var n := SeqLength(s);
      if n == 0 {
        SubstitutedIsUtf8(s[1..]);
        ReplacementIsUtf8();
        Utf8Append(Replacement, Substituted(s[1..]));
      } else {
        SubstitutedIsUtf8(s[n..]);
        SeqLengthOfPrefix(s, s[..n]);
        OneSequence(s[..n]);
        Utf8Append(s[..n], Substituted(s[n..]));
      }
    }
  }

  /** Well-formed text is left as it is. */
  lemma {:induction false} SubstitutedOfUtf8(s: string)
    requires IsUtf8(s)
    ensures Substituted(s) == s
    decreases |s|
  {
    if s != [] {
      var n := SeqLength(s);
      SubstitutedOfUtf8(s[n..]);
      assert s == s[..n] + s[n..];
    }
  }

  /** The entity of one ASCII character under ENT_QUOTES. */
  function Entity(c: char): (e: string)
    ensures '<' !in e && |e| >= 1
  {
    if c == '&' then "&amp;"
    else if c == '"' then "&quot;"
    else if c == '\'' then "&#039;"
    else if c == '<' then "&lt;"
    else if c == '>' then "&gt;"
    else [c]
  }

  /** `htmlspecialchars` with ENT_QUOTES | ENT_SUBSTITUTE. */
  function SpecialChars(s: string): string
    decreases |s|
  {
    if s == [] then []
    else
      var n := SeqLength(s);
      if n == 0 then Replacement + SpecialChars(s[1..])
      else if n == 1 then Entity(s[0]) + SpecialChars(s[1..])
      else s[..n] + SpecialChars(s[n..])
  }

  /** Decodes the five entities `SpecialChars` writes (`&amp;`, `&quot;`,
      `&#039;`, `&lt;`, `&gt;`) and copies everything else. It is the
      inverse of `SpecialChars` on that function's output only: PHP's
      `htmlspecialchars_decode` with ENT_QUOTES also decodes other
      spellings such as `&#39;` and `&#x27;`, which this leaves as they
      are. */
  function DecodeSpecialChars(s: string): string
    decreases |s|
  {
    if s == [] then []
    else if |s| >= 5 && s[..5] == "&amp;" then "&" + DecodeSpecialChars(s[5..])
    else if |s| >= 6 && s[..6] == "&quot;" then "\"" + DecodeSpecialChars(s[6..])
    else if |s| >= 6 && s[..6] == "&#039;" then "'" + DecodeSpecialChars(s[6..])
    else if |s| >= 4 && s[..4] == "&lt;" then "<" + DecodeSpecialChars(s[4..])
    else if |s| >= 4 && s[..4] == "&gt;" then ">" + DecodeSpecialChars(s[4..])
    else [s[0]] + DecodeSpecialChars(s[1..])
  }

  /** A character other than `&` is copied. */
  lemma DecodeCopies(s: string)
    requires s != [] && s[0] != '&'
    ensures DecodeSpecialChars(s) == [s[0]] + DecodeSpecialChars(s[1..])
  {
    assert forall k :: 1 <= k <= |s| ==> s[..k][0] == s[0];
  }

  /** Text without `&` decodes to itself. */
  lemma {:induction false} DecodePlain(p: string, rest: string)
    requires '&' !in p
    ensures DecodeSpecialChars(p + rest) == p + DecodeSpecialChars(rest)
    decreases |p|
  {
    if p != [] {
      var s := p + rest;
      assert s[0] == p[0] && p[0] in p;
      assert s[1..] == p[1..] + rest;
      DecodeCopies(s);
      DecodePlain(p[1..], rest);
      calc {
        DecodeSpecialChars(s);
        [p[0]] + DecodeSpecialChars(p[1..] + rest);
        [p[0]] + (p[1..] + DecodeSpecialChars(rest));
        { assert p == [p[0]] + p[1..]; }
        p + DecodeSpecialChars(rest);
      }
    } else {
      assert p + rest == rest;
    }
  }

  lemma DecodeAmp(rest: string)
    ensures DecodeSpecialChars("&amp;" + rest) == "&" + DecodeSpecialChars(rest)
  {
    assert ("&amp;" + rest)[..5] == "&amp;";
    assert ("&amp;" + rest)[5..] == rest;
  }

  lemma DecodeQuot(rest: string)
    ensures DecodeSpecialChars("&quot;" + rest) == "\"" + DecodeSpecialChars(rest)
  {
    var s := "&quot;" + rest;
    assert s[..6] == "&quot;";
    assert s[..5] != "&amp;" by {
      assert s[1] == 'q';
    }
    assert s[6..] == rest;
  }

  lemma DecodeApos(rest: string)
    ensures DecodeSpecialChars("&#039;" + rest) == "'" + DecodeSpecialChars(rest)
  {
    var s := "&#039;" + rest;
    assert s[..6] == "&#039;";
    assert s[..5] != "&amp;" && s[..6] != "&quot;" by {
      assert s[1] == '#';
    }
    assert s[6..] == rest;
  }

  lemma DecodeLt(rest: string)
    ensures DecodeSpecialChars("&lt;" + rest) == "<" + DecodeSpecialChars(rest)
  {
    var s := "&lt;" + rest;
    assert s[..4] == "&lt;";
    assert s[1] == 'l';
    assert |s| >= 5 ==> s[..5] != "&amp;";
    assert |s| >= 6 ==> s[..6] != "&quot;" && s[..6] != "&#039;";
    assert s[4..] == rest;
  }

  lemma DecodeGt(rest: string)
    ensures DecodeSpecialChars("&gt;" + rest) == ">" + DecodeSpecialChars(rest)
  {
    var s := "&gt;" + rest;
    assert s[..4] == "&gt;";
    assert s[1] == 'g';
    assert |s| >= 5 ==> s[..5] != "&amp;";
    assert |s| >= 6 ==> s[..6] != "&quot;" && s[..6] != "&#039;";
    assert s[..4] != "&lt;";
    assert s[4..] == rest;
  }

  /** Decoding an entity gives back its character. */
  lemma DecodeEntity(c: char, rest: string)
    ensures DecodeSpecialChars(Entity(c) + rest) == [c] + DecodeSpecialChars(rest)
  {
    if c == '&' {
      DecodeAmp(rest);
    } else if c == '"' {
      DecodeQuot(rest);
    } else if c == '\'' {
      DecodeApos(rest);
    } else if c == '<' {
      DecodeLt(rest);
    } else if c == '>' {
      DecodeGt(rest);
    } else {
      DecodePlain([c], rest);
    }
  }

  /** Escaped text holds no markup, and decoding it gives the text with
      ill-formed bytes substituted. */
  lemma {:induction false} SpecialCharsDecode(s: string)
    ensures '<' !in SpecialChars(s)
    ensures DecodeSpecialChars(SpecialChars(s)) == Substituted(s)
    decreases |s|
  {
    if s != [] {
      var n := SeqLength(s);
      if n == 0 {
        SpecialCharsDecode(s[1..]);
        DecodePlain(Replacement, SpecialChars(s[1..]));
      } else if n == 1 {
        SpecialCharsDecode(s[1..]);
        DecodeEntity(s[0], SpecialChars(s[1..]));
        assert s[..1] == [s[0]];
      } else {
        SpecialCharsDecode(s[n..]);
        SeqLengthHighBytes(s);
        assert forall i :: 0 <= i < n ==> s[..n][i] as int >= 0x80;
        DecodePlain(s[..n], SpecialChars(s[n..]));
      }
    }
  }

  /** A cell reads back from the export exactly when it is well-formed
      UTF-8. */
  lemma SpecialCharsRoundTrip(s: string)
    ensures '<' !in SpecialChars(s)
    ensures DecodeSpecialChars(SpecialChars(s)) == s <==> IsUtf8(s)
  {
    SpecialCharsDecode(s);
    SubstitutedIsUtf8(s);
    if IsUtf8(s) {
      SubstitutedOfUtf8(s);
    }
  }

  const Escape: string -> string := s => SpecialChars(s)
  const Unescape: string -> string := s => DecodeSpecialChars(s)

  /** Every well-formed cell can be recovered from the export. */
  lemma CellsRecoverable(rows: seq<seq<string>>)
    requires forall i, j :: 0 <= i < |rows| && 0 <= j < |rows[i]| ==> IsUtf8(rows[i][j])
    ensures forall i, j :: 0 <= i < |rows| && 0 <= j < |rows[i]| ==> XlsTable.Recoverable(rows[i][j], Escape, Unescape)
  {
    forall i, j | 0 <= i < |rows| && 0 <= j < |rows[i]|
      ensures XlsTable.Recoverable(rows[i][j], Escape, Unescape)
    {
      SpecialCharsRoundTrip(rows[i][j]);
    }
  }
}
