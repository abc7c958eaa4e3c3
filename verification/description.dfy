/**
 `parseDescription`: the first `[IMAGE]…[/IMAGE]` span of a post's description
 becomes the picture URL, and the rest of the description, with that one span
 cut out and trimmed, becomes the text.

 The pattern `\[IMAGE\](.*?)\[\/IMAGE\]` is matched the way a backtracking
 regular-expression engine matches it without the global flag: start
 positions are tried from the left; at a start that holds `[IMAGE]` the lazy
 `.*?` grows one character at a time and stops at the first `[/IMAGE]`, and it
 gives up at a line terminator, because `.` does not match one.
 */
module Description {
  import opened Optional
  import opened Text

  const Open: string := "[IMAGE]"
  const Close: string := "[/IMAGE]"

  predicate OpenAt(s: string, i: int) {
    0 <= i && i + |Open| <= |s| && s[i..i + |Open|] == Open
  }

  predicate CloseAt(s: string, j: int) {
    0 <= j && j + |Close| <= |s| && s[j..j + |Close|] == Close
  }

  /** `[/IMAGE]` occurs somewhere in `t`. */
  ghost predicate ContainsClose(t: string) {
    exists m :: CloseAt(t, m)
  }

  /** From `p` the lazy `.*?` can reach a `[/IMAGE]` at `j`. */
  ghost predicate Reaches(s: string, p: int, j: int) {
    0 <= p <= j && CloseAt(s, j) && NoLineTerminator(s[p..j])
  }

  /** `j` is the `[/IMAGE]` the lazy `.*?` stops at when it starts from `p`. */
  ghost predicate Nearest(s: string, p: int, j: int) {
    Reaches(s, p, j) && forall m :: p <= m < j ==> !CloseAt(s, m)
  }

  /** The pattern matches at start `i`, with its closing delimiter at `j`. */
  ghost predicate SpanAt(s: string, i: int, j: int) {
    OpenAt(s, i) && Nearest(s, i + |Open|, j)
  }

  /** The match the engine reports: the leftmost start at which the pattern matches. */
  ghost predicate FirstSpan(s: string, i: int, j: int) {
    SpanAt(s, i, j) && forall i', j' :: i' < i ==> !SpanAt(s, i', j')
  }

  ghost predicate NoSpan(s: string) {
    forall i, j :: !SpanAt(s, i, j)
  }

  /** What the group `(.*?)` can capture whole: one line holding no `[/IMAGE]`. */
  ghost predicate Capturable(u: string) {
    NoLineTerminator(u) && !ContainsClose(u)
  }

  predicate NoOpenBracket(t: string) {
    forall k :: 0 <= k < |t| ==> t[k] != '['
  }

  /** The lazy `.*?` followed by `\[\/IMAGE\]`, started at position `p`. */
  function FindClose(s: string, p: nat): (r: Option<nat>)
    requires p <= |s|
    ensures r.Some? ==> Nearest(s, p, r.value)
    ensures r.None? ==> forall j :: !Reaches(s, p, j)
    decreases |s| - p
  {
    if CloseAt(s, p) then
      assert s[p..p] == [];
      Some(p)
    else if p == |s| then
      None
    else if IsLineTerminator(s[p]) then
      assert forall j :: p < j <= |s| ==> s[p..j][0] == s[p];
      None
    else
      var r := FindClose(s, p + 1);
      assert forall j :: Reaches(s, p, j) ==> Reaches(s, p + 1, j) by {
        forall j | Reaches(s, p, j) ensures Reaches(s, p + 1, j) {
          assert s[p + 1..j] == s[p..j][1..];
        }
      }
      if r.Some? then
        assert s[p..r.value] == [s[p]] + s[p + 1..r.value];
        r
      else
        r
  }

  /** Start and closing-delimiter positions of a matched span. */
  datatype Span = Span(start: nat, close: nat)

  /** Tries every start position from `i` on, leftmost first. */
  function FindSpan(s: string, i: nat): (r: Option<Span>)
    requires i <= |s|
    ensures r.Some? ==> i <= r.value.start && SpanAt(s, r.value.start, r.value.close)
    ensures r.Some? ==> forall i', j :: i <= i' < r.value.start ==> !SpanAt(s, i', j)
    ensures r.None? ==> forall i', j :: i <= i' ==> !SpanAt(s, i', j)
    decreases |s| - i
  {
    var c := if OpenAt(s, i) then FindClose(s, i + |Open|) else None;
    if c.Some? then
      Some(Span(i, c.value))
    else if i == |s| then
      None
    else
      FindSpan(s, i + 1)
  }

  /** What `parseDescription` returns: the trimmed text and the optional image URL. */
  datatype Parsed = Parsed(text: string, image: Option<string>)

  function ParseDescription(desc: string): (r: Parsed)
    ensures Trimmed(r.text)
  {
    CutOut(desc, FindSpan(desc, 0))
  }

  /**
   The image is absent exactly when the pattern matches nowhere, and then the
   text is the whole description, trimmed.
   */
  lemma ParseWithoutSpan(desc: string)
    ensures ParseDescription(desc).image.None? <==> NoSpan(desc)
    ensures ParseDescription(desc).image.None? ==> ParseDescription(desc).text == Trim(desc)
  {
  }

  /** A captured URL holds neither a line terminator nor `[/IMAGE]`. */
  lemma ParseCapture(desc: string)
    ensures var r := ParseDescription(desc);
      r.image.Some? ==> Capturable(r.image.value)
  {
    var found := FindSpan(desc, 0);
    if found.Some? {
      CaptureFacts(desc, found.value.start, found.value.close);
    }
  }

  /** The text and image for the span the scanner found, if any. */
  function CutOut(desc: string, found: Option<Span>): Parsed
    requires found.Some? ==> found.value.start + |Open| <= found.value.close
    requires found.Some? ==> found.value.close + |Close| <= |desc|
  {
    match found
    case None => Parsed(Trim(desc), None)
    case Some(span) =>
      Parsed(Trim(desc[..span.start] + desc[span.close + |Close|..]),
             Some(desc[span.start + |Open|..span.close]))
  }

  /** The captured URL holds neither a line terminator nor `[/IMAGE]`. */
  lemma CaptureFacts(s: string, i: int, j: int)
    requires SpanAt(s, i, j)
    ensures NoLineTerminator(s[i + |Open|..j]) && !ContainsClose(s[i + |Open|..j])
  {
    var t := s[i + |Open|..j];
    if ContainsClose(t) {
      var m :| CloseAt(t, m);
      var q := i + |Open| + m;
      assert q + |Close| <= j;
      forall k | 0 <= k < |Close| ensures s[q + k] == Close[k] {
        assert s[q + k] == t[m + k] == t[m..m + |Close|][k];
      }
      assert s[q..q + |Close|] == Close;
      assert CloseAt(s, i + |Open| + m);
      assert false;
    }
  }

  /** At one start the closing delimiter is determined. */
  lemma NearestUnique(s: string, p: int, j: int, j': int)
    requires Nearest(s, p, j) && Nearest(s, p, j')
    ensures j == j'
  {
  }

  /** The leftmost span is unique. */
  lemma FirstSpanUnique(s: string, i: int, j: int, i': int, j': int)
    requires FirstSpan(s, i, j) && FirstSpan(s, i', j')
    ensures i == i' && j == j'
  {
    NearestUnique(s, i + |Open|, j, j');
  }

  /**
   The parse agrees with the regular expression: whenever the leftmost match
   spans `[i, j + |Close|)`, the image is the text between the delimiters and
   the text is what is left of the description around that one span, trimmed.
   */
  lemma ParseFollowsFirstSpan(desc: string, i: nat, j: nat)
    requires FirstSpan(desc, i, j)
    ensures ParseDescription(desc).image == Some(desc[i + |Open|..j])
    ensures ParseDescription(desc).text == Trim(desc[..i] + desc[j + |Close|..])
  {
    ScannerFindsFirstSpan(desc, i, j);
    ParseOfFound(desc, Span(i, j));
    CutOutSpan(desc, i, j);
  }

  lemma ParseOfFound(desc: string, span: Span)
    requires FindSpan(desc, 0) == Some(span)
    ensures ParseDescription(desc) == CutOut(desc, Some(span))
  {
  }

  lemma CutOutSpan(desc: string, i: nat, j: nat)
    requires i + |Open| <= j && j + |Close| <= |desc|
    ensures CutOut(desc, Some(Span(i, j)))
         == Parsed(Trim(desc[..i] + desc[j + |Close|..]), Some(desc[i + |Open|..j]))
  {
  }

  /** The scanner reports exactly the leftmost match. */
  lemma ScannerFindsFirstSpan(s: string, i: nat, j: nat)
    requires FirstSpan(s, i, j)
    ensures FindSpan(s, 0) == Some(Span(i, j))
  {
    var r := FindSpan(s, 0);
    assert r.Some? by {
      assert SpanAt(s, i, j);
    }
    assert FirstSpan(s, r.value.start, r.value.close);
    FirstSpanUnique(s, i, j, r.value.start, r.value.close);
  }

  /**
   Re-parsing the text gives the same text and no image exactly when the text
   holds no span; the first parse does not guarantee that.
   */
  lemma ReparseStableIffNoSpan(desc: string)
    ensures var t := ParseDescription(desc).text;
      ParseDescription(t) == Parsed(t, None) <==> NoSpan(t)
  {
    var t := ParseDescription(desc).text;
    TrimOfTrimmed(t);
  }

  /**
   A description that starts with `[IMAGE]`, a capturable URL and `[/IMAGE]`
   is matched right there, whatever follows.
   */
  lemma LeadingSpan(url: string, rest: string)
    requires Capturable(url)
    ensures var d := Open + url + Close + rest;
      FirstSpan(d, 0, |Open| + |url|)
  {
    var d := Open + url + Close + rest;
    var j := |Open| + |url|;
    assert d[0..|Open|] == Open;
    assert d[j..j + |Close|] == Close;
    assert d[|Open|..j] == url;
    NoCloseBefore(d, |Open|, url);
  }

  /**
   A capturable URL followed by `[/IMAGE]` holds no earlier `[/IMAGE]`, not
   even one running into the final delimiter: `[` opens `[/IMAGE]` and occurs
   nowhere else in it.
   */
  lemma NoCloseBefore(d: string, p: nat, url: string)
    requires Capturable(url)
    requires p + |url| + |Close| <= |d|
    requires d[p..p + |url|] == url && d[p + |url|..p + |url| + |Close|] == Close
    ensures forall m :: p <= m < p + |url| ==> !CloseAt(d, m)
  {
    var j := p + |url|;
    forall m | p <= m < j ensures !CloseAt(d, m) {
      if m + |Close| <= j {
        var here, there := d[m..m + |Close|], url[m - p..m - p + |Close|];
        forall k | 0 <= k < |Close| ensures here[k] == there[k] {
          assert d[p..p + |url|][m - p + k] == d[m + k];
        }
        assert here == there;
        assert !CloseAt(url, m - p);
      } else {
        assert d[j] == d[p + |url|..p + |url| + |Close|][0] == '[';
        assert d[m..m + |Close|][j - m] == d[j];
        assert Close[j - m] != '[';
      }
    }
  }

  /** Parsing a description that starts with a span, with nothing around it but `rest`. */
  lemma ParseLeadingSpan(url: string, rest: string)
    requires Capturable(url)
    ensures ParseDescription(Open + url + Close + rest) == Parsed(Trim(rest), Some(url))
  {
    var d := Open + url + Close + rest;
    var j := |Open| + |url|;
    LeadingSpan(url, rest);
    LeadingSpanPieces(url, rest);
    ScannerFindsFirstSpan(d, 0, j);
    ParseOfFound(d, Span(0, j));
    CutOutSpan(d, 0, j);
    TrimAfterEmptyPrefix(d, j + |Close|);
  }

  lemma LeadingSpanPieces(url: string, rest: string)
    ensures var d := Open + url + Close + rest;
      && d[|Open|..|Open| + |url|] == url
      && d[|Open| + |url| + |Close|..] == rest
  {
  }

  /**
   A description that is one span and nothing else has an empty text and the
   URL as its image, for every URL the group can capture (so `[` inside the
   URL, as in `http://[::1]/a.png`, is fine); for `[IMAGE][/IMAGE]` the image
   is the empty URL, which the page does not show.
   */
  lemma LoneSpan(url: string)
    requires Capturable(url)
    ensures ParseDescription(Open + url + Close) == Parsed("", Some(url))
  {
    ParseLeadingSpan(url, "");
    assert Open + url + Close + "" == Open + url + Close;
    TrimOfTrimmed("");
  }

  /**
   Only the first span is removed: of two spans separated by a blank, the
   second survives into the text (and `LoneSpan` finds it when that text is
   parsed again, so parsing is not idempotent).
   */
  lemma SecondSpanSurvives(a: string, b: string)
    requires Capturable(a)
    ensures ParseDescription(Open + a + Close + (" " + (Open + b + Close)))
         == Parsed(Open + b + Close, Some(a))
  {
    var second := Open + b + Close;
    assert second[0] == '[' && second[|second| - 1] == ']';
    TrimSingleLeadingSpace(second);
    ParseLeadingSpan(a, " " + second);
  }

  /** Parsing is not idempotent: re-parsing the text of a two-span description yields another image. */
  lemma NotIdempotent(a: string, b: string)
    requires Capturable(a) && Capturable(b)
    ensures var t := ParseDescription(Open + a + Close + (" " + (Open + b + Close))).text;
      ParseDescription(t).image == Some(b)
  {
    SecondSpanSurvives(a, b);
    LoneSpan(b);
  }

  /**
   Removing the first span can join the text around it into a new span:
   `[IMA` + `[IMAGE]x[/IMAGE]` + `GE]y[/IMAGE]` leaves the text
   `[IMAGE]y[/IMAGE]`, and when `y` is capturable the next parse matches it
   and yields `y` as the image.
   */
  lemma SpanFormedByRemoval(x: string, y: string)
    requires Capturable(x)
    ensures ParseDescription("[IMA" + (Open + x + Close + ("GE]" + y + Close))).text == Open + y + Close
    ensures Capturable(y) ==>
      ParseDescription(ParseDescription("[IMA" + (Open + x + Close + ("GE]" + y + Close))).text).image == Some(y)
  {
    var d := "[IMA" + (Open + x + Close + ("GE]" + y + Close));
    var j := 4 + |Open| + |x|;
    RemovalFirstSpan(x, y);
    ParseFollowsFirstSpan(d, 4, j);
    RemovalPieces(x, y);
    var t := Open + y + Close;
    assert t[0] == '[' && t[|t| - 1] == ']';
    TrimOfTrimmed(t);
    if Capturable(y) {
      LoneSpan(y);
    }
  }

  lemma RemovalFirstSpan(x: string, y: string)
    requires Capturable(x)
    ensures FirstSpan("[IMA" + (Open + x + Close + ("GE]" + y + Close)), 4, 4 + |Open| + |x|)
  {
    var d := "[IMA" + (Open + x + Close + ("GE]" + y + Close));
    SpanAfterPrefix("[IMA", x, "GE]" + y + Close);
    forall i', j' | i' < 4 ensures !SpanAt(d, i', j') {
      if 0 <= i' && i' + |Open| <= |d| {
        assert d[i'..i' + |Open|][4 - i'] == d[4] == '[';
      }
    }
  }

  lemma RemovalPieces(x: string, y: string)
    ensures var d := "[IMA" + (Open + x + Close + ("GE]" + y + Close));
      d[..4] + d[4 + |Open| + |x| + |Close|..] == Open + y + Close
  {
    var d := "[IMA" + (Open + x + Close + ("GE]" + y + Close));
    assert d[..4] == "[IMA";
    assert d[4 + |Open| + |x| + |Close|..] == "GE]" + y + Close;
  }

  /** A span right after `pre`, with a capturable URL, matches there. */
  lemma SpanAfterPrefix(pre: string, url: string, rest: string)
    requires Capturable(url)
    ensures var d := pre + (Open + url + Close + rest);
      SpanAt(d, |pre|, |pre| + |Open| + |url|)
  {
    var d := pre + (Open + url + Close + rest);
    var i := |pre|;
    var j := i + |Open| + |url|;
    assert d[i..i + |Open|] == Open;
    assert d[j..j + |Close|] == Close;
    assert d[i + |Open|..j] == url;
    NoCloseBefore(d, i + |Open|, url);
  }

  /**
   A line break inside the delimiters stops the lazy `.*?`: the description
   has no span, so there is no image and the text is the whole description,
   trimmed.
   */
  lemma LineBreakBlocksSpan(a: string, b: string)
    requires NoOpenBracket(a) && NoOpenBracket(b)
    ensures var d := Open + a + "\n" + b + Close;
      ParseDescription(d) == Parsed(Trim(d), None)
  {
    var d := Open + a + "\n" + b + Close;
    BracketsOf(a, b);
    forall i, j | SpanAt(d, i, j) ensures false {
      SpanShape(d, i, j);
    }
  }

  /** The two `[` of `[IMAGE]a\nb[/IMAGE]`, and the line break between them. */
  lemma BracketsOf(a: string, b: string)
    requires NoOpenBracket(a) && NoOpenBracket(b)
    ensures var d := Open + a + "\n" + b + Close;
      var c := |Open| + |a| + 1 + |b|;
      && (forall k :: 0 <= k < |d| && d[k] == '[' ==> k == 0 || k == c)
      && d[c + 1] == '/'
      && d[|Open| + |a|] == '\n'
  {
  }

  /** What a span at `[i, j + |Close|)` says about single characters. */
  lemma SpanShape(d: string, i: int, j: int)
    requires SpanAt(d, i, j)
    ensures d[i] == '[' && d[i + 1] == 'I' && d[j] == '['
    ensures forall k :: i + |Open| <= k < j ==> !IsLineTerminator(d[k])
  {
    assert d[i..i + |Open|][0] == d[i] && d[i..i + |Open|][1] == d[i + 1];
    assert d[j..j + |Close|][0] == d[j];
    forall k | i + |Open| <= k < j ensures !IsLineTerminator(d[k]) {
      assert d[i + |Open|..j][k - i - |Open|] == d[k];
    }
  }

}
