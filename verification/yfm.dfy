/**
 * Extraction of YAML front matter: the text is cut at most twice on the default boundary marker,
 * a whole line of three or more `-` (the pattern `^-{3,}$` under `re.MULTILINE`), and the front
 * matter is handed to a YAML loader.
 */
module Yfm {
  import opened Wrappers
  import opened Values
  import Text

  /** `^` under `re.MULTILINE`: the start of the text or just after a newline. */
  predicate AtLineStart(s: string, i: nat)
  {
    i <= |s| && (i == 0 || s[i - 1] == '\n')
  }

  /** `$` under `re.MULTILINE`: the end of the text or just before a newline. */
  predicate AtLineEnd(s: string, j: nat)
  {
    j == |s| || (j < |s| && s[j] == '\n')
  }

  /** `s[i..j]` is a match of the boundary marker: a whole line of three or more `-`. */
  predicate IsMarker(s: string, i: nat, j: nat)
  {
    && i + 3 <= j <= |s|
    && AtLineStart(s, i)
    && AtLineEnd(s, j)
    && forall k :: i <= k < j ==> s[k] == '-'
  }

  /** The text holds at least one marker line. */
  ghost predicate HasMarker(s: string)
  {
    exists i: nat, j: nat :: IsMarker(s, i, j)
  }

  /** The text holds exactly one marker line. */
  ghost predicate HasSingleMarker(s: string)
  {
    exists i: nat, j: nat :: IsMarker(s, i, j) && forall i': nat, j': nat :: IsMarker(s, i', j') ==> i' == i && j' == j
  }

  /** The text holds two or more marker lines. */
  ghost predicate HasTwoMarkers(s: string)
  {
    exists i1: nat, j1: nat, i2: nat, j2: nat :: IsMarker(s, i1, j1) && IsMarker(s, i2, j2) && i1 < i2
  }

  /** The end of the run of `-` that starts at `i`. */
  function DashRun(s: string, i: nat): (j: nat)
    requires i <= |s|
    ensures i <= j <= |s|
    ensures j == |s| || s[j] != '-'
    decreases |s| - i
  {
    if i < |s| && s[i] == '-' then DashRun(s, i + 1) else i
  }

  /** The run of `-` from `i` holds only dashes. */
  lemma {:induction false} DashRunDashes(s: string, i: nat)
    requires i <= |s|
    ensures forall k :: i <= k < DashRun(s, i) ==> s[k] == '-'
    decreases |s| - i
  {
    if i < |s| && s[i] == '-' {
      DashRunDashes(s, i + 1);
    }
  }

  /** A marker that starts at `i` ends where the run of dashes does. */
  lemma MarkerEndsAtDashRun(s: string, i: nat, j: nat)
    requires IsMarker(s, i, j)
    ensures j == DashRun(s, i)
  {
    DashRunDashes(s, i);
  }

  /** The end of the marker line that starts at `i`, if a marker starts there. */
  function MarkerAt(s: string, i: nat): Option<nat>
    requires i <= |s|
  {
    var j := DashRun(s, i);
    if AtLineStart(s, i) && i + 3 <= j && AtLineEnd(s, j) then Some(j) else None
  }

  /** MarkerAt finds the marker that starts at `i`, and finds none when there is none. */
  lemma MarkerAtFinds(s: string, i: nat)
    requires i <= |s|
    ensures MarkerAt(s, i).Some? ==> IsMarker(s, i, MarkerAt(s, i).value)
    ensures MarkerAt(s, i).None? ==> forall j: nat :: !IsMarker(s, i, j)
  {
    DashRunDashes(s, i);
    forall j: nat | IsMarker(s, i, j) ensures j == DashRun(s, i) {
      MarkerEndsAtDashRun(s, i, j);
    }
  }

  /** One match of the marker: the slice `s[start..end]`. */
  datatype Match = Match(start: nat, end: nat)

  /** `pattern.search(s, from)`: the leftmost marker that starts at or after `from`. */
  function Search(s: string, from: nat): (r: Option<Match>)
    requires from <= |s|
    ensures r.Some? ==> from <= r.value.start <= r.value.end <= |s|
    decreases |s| - from
  {
    match MarkerAt(s, from)
    case Some(j) => Some(Match(from, j))
    case None => if from == |s| then None else Search(s, from + 1)
  }

  /** Search finds a marker, and none starts before it; when it finds nothing there is none. */
  lemma {:induction false} SearchFinds(s: string, from: nat)
    requires from <= |s|
    ensures var r := Search(s, from);
      && (r.Some? ==> IsMarker(s, r.value.start, r.value.end))
      && (r.Some? ==> forall i: nat, j: nat :: from <= i < r.value.start ==> !IsMarker(s, i, j))
      && (r.None? ==> forall i: nat, j: nat :: from <= i ==> !IsMarker(s, i, j))
    decreases |s| - from
  {
    MarkerAtFinds(s, from);
    if MarkerAt(s, from).None? && from < |s| {
      SearchFinds(s, from + 1);
    }
  }

  /** No marker starts inside another one or right at its end (the character before would be `-`). */
  lemma NoMarkerInside(s: string, m: Match, i: nat, j: nat)
    requires IsMarker(s, m.start, m.end) && m.start < i <= m.end
    ensures !IsMarker(s, i, j)
  {
    assert s[i - 1] == '-';
  }

  /** The matches `re.split(pattern, s, 2)` cuts at: the first marker, then the first one after it. */
  function SplitMatches(s: string): (ms: seq<Match>)
    ensures |ms| <= 2
    ensures forall k :: 0 <= k < |ms| ==> ms[k].start <= ms[k].end <= |s|
    ensures |ms| == 2 ==> ms[0].end <= ms[1].start
  {
    match Search(s, 0)
    case None => []
    case Some(m1) =>
      match Search(s, m1.end)
      case None => [m1]
      case Some(m2) => [m1, m2]
  }

  /** The matches are marker lines, and the second starts after the end of the first. */
  lemma SplitMatchesAreMarkers(s: string)
    ensures var ms := SplitMatches(s);
      && (forall k :: 0 <= k < |ms| ==> IsMarker(s, ms[k].start, ms[k].end))
      && (|ms| == 2 ==> ms[0].end < ms[1].start)
  {
    SearchFinds(s, 0);
    match Search(s, 0)
    case None =>
    case Some(m1) =>
      SearchFinds(s, m1.end);
      match Search(s, m1.end)
      case None =>
      case Some(m2) =>
        NoMarkerInside(s, m1, m1.end, m2.end);
  }

  /**
   * `re.split(pattern, s, 2)`: the texts around the (at most two) cuts. The newline that ends a
   * marker line is not part of the match, so it stays at the head of the following piece.
   */
  function RegexSplit(s: string): (pieces: seq<string>)
    ensures |pieces| == |SplitMatches(s)| + 1
  {
    var ms := SplitMatches(s);
    if |ms| == 0 then [s]
    else if |ms| == 1 then [s[..ms[0].start], s[ms[0].end..]]
    else [s[..ms[0].start], s[ms[0].end..ms[1].start], s[ms[1].end..]]
  }

  /** `pieces[0] + seps[0] + pieces[1] + ...`: the text the split came from. */
  function Interleave(pieces: seq<string>, seps: seq<string>): string
    requires |pieces| == |seps| + 1
    decreases |seps|
  {
    if |seps| == 0 then pieces[0]
    else Interleave(pieces[..|pieces| - 1], seps[..|seps| - 1]) + seps[|seps| - 1] + pieces[|pieces| - 1]
  }

  /** The texts the split matched, in order. */
  function MatchedTexts(s: string): (texts: seq<string>)
    ensures |texts| == |SplitMatches(s)|
  {
    var ms := SplitMatches(s);
    seq(|ms|, k requires 0 <= k < |ms| => s[ms[k].start..ms[k].end])
  }

  /** Each matched text is a line of three or more `-`. */
  lemma MatchedTextsAreDashes(s: string)
    ensures var texts := MatchedTexts(s);
      forall k :: 0 <= k < |texts| ==> |texts[k]| >= 3 && forall c :: c in texts[k] ==> c == '-'
  {
    SplitMatchesAreMarkers(s);
    var ms := SplitMatches(s);
    forall k | 0 <= k < |ms| ensures forall c :: c in MatchedTexts(s)[k] ==> c == '-' {
      var t := s[ms[k].start..ms[k].end];
      assert forall l :: 0 <= l < |t| ==> t[l] == s[ms[k].start + l];
    }
  }

  /** Cutting out one slice and interleaving it back gives the text. */
  lemma InterleaveOneCut(s: string, a: nat, b: nat)
    requires a <= b <= |s|
    ensures Interleave([s[..a], s[b..]], [s[a..b]]) == s
  {
    assert [s[..a], s[b..]][..1] == [s[..a]] && [s[a..b]][..0] == [];
    assert s == s[..a] + s[a..b] + s[b..];
  }

  /** Cutting out two slices and interleaving them back gives the text. */
  lemma InterleaveTwoCuts(s: string, a: nat, b: nat, c: nat, d: nat)
    requires a <= b <= c <= d <= |s|
    ensures Interleave([s[..a], s[b..c], s[d..]], [s[a..b], s[c..d]]) == s
  {
    var t := s[..c];
    InterleaveOneCut(t, a, b);
    assert t[..a] == s[..a] && t[b..] == s[b..c] && t[a..b] == s[a..b];
    assert [s[..a], s[b..c], s[d..]][..2] == [t[..a], t[b..]];
    assert [s[a..b], s[c..d]][..1] == [t[a..b]];
    assert s == t + s[c..d] + s[d..];
  }

  /**
   * The split is lossless: the pieces interleaved with the matched marker lines give back the text,
   * and there are at most three pieces.
   */
  lemma RegexSplitReassembles(s: string)
    ensures |RegexSplit(s)| <= 3
    ensures Interleave(RegexSplit(s), MatchedTexts(s)) == s
  {
    var ms := SplitMatches(s);
    if |ms| == 1 {
      InterleaveOneCut(s, ms[0].start, ms[0].end);
      assert MatchedTexts(s) == [s[ms[0].start..ms[0].end]];
    } else if |ms| == 2 {
      InterleaveTwoCuts(s, ms[0].start, ms[0].end, ms[1].start, ms[1].end);
      assert MatchedTexts(s) == [s[ms[0].start..ms[0].end], s[ms[1].start..ms[1].end]];
    }
  }

  /** The number of pieces says how many marker lines the text holds: none, exactly one, or two or more. */
  lemma RegexSplitCount(s: string)
    ensures |RegexSplit(s)| == 1 <==> !HasMarker(s)
    ensures |RegexSplit(s)| == 2 <==> HasSingleMarker(s)
    ensures |RegexSplit(s)| == 3 <==> HasTwoMarkers(s)
  {
    var ms := SplitMatches(s);
    SplitMatchesAreMarkers(s);
    SearchFinds(s, 0);
    if |ms| == 1 {
      var m := ms[0];
      assert Search(s, 0) == Some(m) && Search(s, m.end).None?;
      SearchFinds(s, m.end);
      forall i': nat, j': nat | IsMarker(s, i', j') ensures i' == m.start && j' == m.end {
        if m.start < i' <= m.end { NoMarkerInside(s, m, i', j'); }
        MarkerEndsAtDashRun(s, i', j');
        MarkerEndsAtDashRun(s, m.start, m.end);
      }
      assert HasSingleMarker(s);
      assert !HasTwoMarkers(s);
    } else if |ms| == 2 {
      assert IsMarker(s, ms[0].start, ms[0].end) && IsMarker(s, ms[1].start, ms[1].end);
      assert !HasSingleMarker(s);
    }
  }

  /** The failures of the boundary split and of the YAML load. */
  datatype YfmError =
    | NoBoundaryMarker                // ValueError: no marker line at all
    | SingleBoundaryMarker            // ValueError: only one marker line
    | BlankTextBeforeMarker(pre: string)  // AssertionError: raised when the text before the first marker is blank
    | YamlSyntaxError(detail: string) // yaml.error.YAMLError from the loader

  /**
   * `split_yfm` with the default marker: (front matter, body) or the error it raises. Only the
   * `'warn'` policy for a single marker prints a warning.
   */
  function SplitYfm(raw: string, requireLeadingMarker: Value, requireEmptyPre: bool)
    : (r: Diagnosed<Result<(string, string), YfmError>>)
    ensures r.warned <==> |RegexSplit(raw)| == 2 && requireLeadingMarker == Str("warn")
  {
    var pieces := RegexSplit(raw);
    if |pieces| == 1 then
      Diagnosed(Err(NoBoundaryMarker), false)
    else if |pieces| == 2 then
      if Truthy(requireLeadingMarker) && requireLeadingMarker != Str("warn") then
        Diagnosed(Err(SingleBoundaryMarker), false)
      else
        Diagnosed(Ok((pieces[0], pieces[1])), requireLeadingMarker == Str("warn"))
    else
      var pre := pieces[0];
      if requireEmptyPre && Text.Strip(pre, Text.IsWhitespace) == [] then
        Diagnosed(Err(BlankTextBeforeMarker(pre)), false)
      else
        Diagnosed(Ok((pieces[1], pieces[2])), false)
  }

  /** A text without any marker line is refused whatever the flags. */
  lemma SplitYfmNoMarker(raw: string, requireLeadingMarker: Value, requireEmptyPre: bool)
    requires !HasMarker(raw)
    ensures SplitYfm(raw, requireLeadingMarker, requireEmptyPre) == Diagnosed(Err(NoBoundaryMarker), false)
  {
    RegexSplitCount(raw);
  }

  /**
   * With exactly one marker line, at `raw[i..j]`: a truthy flag other than `'warn'` refuses the text;
   * otherwise the text before the marker is taken as front matter and the rest as body.
   */
  lemma SplitYfmSingleMarker(raw: string, requireLeadingMarker: Value, requireEmptyPre: bool, i: nat, j: nat)
    requires IsMarker(raw, i, j)
    requires forall i': nat, j': nat :: IsMarker(raw, i', j') ==> i' == i
    ensures var r := SplitYfm(raw, requireLeadingMarker, requireEmptyPre);
      && (Truthy(requireLeadingMarker) && requireLeadingMarker != Str("warn") ==> r == Diagnosed(Err(SingleBoundaryMarker), false))
      && (!Truthy(requireLeadingMarker) || requireLeadingMarker == Str("warn") ==> r.value == Ok((raw[..i], raw[j..])))
      && (r.warned <==> requireLeadingMarker == Str("warn"))
  {
    var ms := SplitMatches(raw);
    SearchFinds(raw, 0);
    SplitMatchesAreMarkers(raw);
    assert Search(raw, 0).Some?;
    SearchFinds(raw, ms[0].end);
    MarkerEndsAtDashRun(raw, i, j);
    MarkerEndsAtDashRun(raw, ms[0].start, ms[0].end);
  }

  /** With two or more marker lines, the split cuts at the first two of them. */
  lemma TwoMarkerMatches(raw: string, i1: nat, j1: nat, i2: nat, j2: nat)
    requires IsMarker(raw, i1, j1) && IsMarker(raw, i2, j2) && i1 < i2
    requires forall i: nat, j: nat :: IsMarker(raw, i, j) ==> i >= i1
    requires forall i: nat, j: nat :: IsMarker(raw, i, j) && i1 < i ==> i >= i2
    ensures SplitMatches(raw) == [Match(i1, j1), Match(i2, j2)]
  {
    var m1 := Search(raw, 0);
    SearchFinds(raw, 0);
    assert m1.Some? && m1.value.start == i1;
    MarkerEndsAtDashRun(raw, i1, j1);
    MarkerEndsAtDashRun(raw, i1, m1.value.end);
    NoMarkerInside(raw, Match(i1, j1), j1, j2);
    var m2 := Search(raw, j1);
    SearchFinds(raw, j1);
    assert m2.Some? && m2.value.start == i2;
    MarkerEndsAtDashRun(raw, i2, j2);
    MarkerEndsAtDashRun(raw, i2, m2.value.end);
  }

  /**
   * With two or more marker lines, the first at `raw[i1..j1]` and the next at `raw[i2..j2]`: the
   * front matter is the text between them and the body everything after the second, later marker
   * lines included. The text before the first marker is dropped, and when `requireEmptyPre` is set
   * the split is refused exactly when that text is blank.
   */
  lemma SplitYfmTwoMarkers(raw: string, requireLeadingMarker: Value, requireEmptyPre: bool,
                           i1: nat, j1: nat, i2: nat, j2: nat)
    requires IsMarker(raw, i1, j1) && IsMarker(raw, i2, j2) && i1 < i2
    requires forall i: nat, j: nat :: IsMarker(raw, i, j) ==> i >= i1
    requires forall i: nat, j: nat :: IsMarker(raw, i, j) && i1 < i ==> i >= i2
    ensures var r := SplitYfm(raw, requireLeadingMarker, requireEmptyPre);
      && !r.warned
      && (r.value.Err? <==> requireEmptyPre && forall k :: 0 <= k < i1 ==> Text.IsWhitespace(raw[k]))
      && (r.value.Err? ==> r.value.error == BlankTextBeforeMarker(raw[..i1]))
      && (r.value.Ok? ==> r.value.value == (raw[j1..i2], raw[j2..]))
  {
    TwoMarkerMatches(raw, i1, j1, i2, j2);
    var pre := raw[..i1];
    assert (forall k :: 0 <= k < |pre| ==> Text.IsWhitespace(pre[k])) <==> (forall k :: 0 <= k < i1 ==> Text.IsWhitespace(raw[k]));
  }

  /** With `requireEmptyPre` unset, a text with two or more marker lines is never refused. */
  lemma SplitYfmTwoMarkersLenient(raw: string, requireLeadingMarker: Value)
    requires HasTwoMarkers(raw)
    ensures SplitYfm(raw, requireLeadingMarker, false).value.Ok?
  {
    RegexSplitCount(raw);
  }

  /**
   * `parse_yfm`: the split under the same flags, then the YAML load of the front matter. Split
   * errors come back unchanged; once the split succeeds, the result is the loaded front matter with
   * the body exactly as the split gave it, or the loader's error as a YamlSyntaxError.
   */
  function ParseYfm(raw: string, requireLeadingMarker: Value, requireEmptyPre: bool, load: string -> Result<Value, string>)
    : (r: Diagnosed<Result<(Value, string), YfmError>>)
    ensures r.warned == SplitYfm(raw, requireLeadingMarker, requireEmptyPre).warned
    ensures SplitYfm(raw, requireLeadingMarker, requireEmptyPre).value.Err? ==>
              r.value == Err(SplitYfm(raw, requireLeadingMarker, requireEmptyPre).value.error)
    ensures r.value.Ok? ==>
              && SplitYfm(raw, requireLeadingMarker, requireEmptyPre).value.Ok?
              && load(SplitYfm(raw, requireLeadingMarker, requireEmptyPre).value.value.0) == Ok(r.value.value.0)
    ensures var split := SplitYfm(raw, requireLeadingMarker, requireEmptyPre).value;
      split.Ok? && load(split.value.0).Ok? ==> r.value == Ok((load(split.value.0).value, split.value.1))
    ensures var split := SplitYfm(raw, requireLeadingMarker, requireEmptyPre).value;
      split.Ok? && load(split.value.0).Err? ==> r.value == Err(YamlSyntaxError(load(split.value.0).error))
  {
    var split := SplitYfm(raw, requireLeadingMarker, requireEmptyPre);
    match split.value
    case Err(e) => Diagnosed(Err(e), split.warned)
    case Ok((front, body)) =>
      match load(front)
      case Ok(v) => Diagnosed(Ok((v, body)), split.warned)
      case Err(detail) => Diagnosed(Err(YamlSyntaxError(detail)), split.warned)
  }

  /** On success the body is returned verbatim (not stripped): it is exactly the text after a marker line. */
  lemma ParseYfmBodyFollowsMarker(raw: string, requireLeadingMarker: Value, requireEmptyPre: bool,
                                  load: string -> Result<Value, string>)
    ensures var r := ParseYfm(raw, requireLeadingMarker, requireEmptyPre, load);
      r.value.Ok? ==> exists i: nat, j: nat :: IsMarker(raw, i, j) && r.value.value.1 == raw[j..]
  {
    var r := ParseYfm(raw, requireLeadingMarker, requireEmptyPre, load);
    if r.value.Ok? {
      SplitMatchesAreMarkers(raw);
      var ms := SplitMatches(raw);
      var m := ms[|ms| - 1];
      assert IsMarker(raw, m.start, m.end) && r.value.value.1 == raw[m.end..];
    }
  }

  /** The conventional document: front matter between two marker lines, then a body. */
  const ConventionalDocument: string := "---\nkey: value\n---\nbody"

  /** In the conventional document, no marker line starts between its two marker lines. */
  lemma ConventionalDocumentInnerLines(i: nat, j: nat)
    ensures 0 < i < 15 ==> !IsMarker(ConventionalDocument, i, j)
  {
    var raw := ConventionalDocument;
    if 0 < i < 15 {
      assert i == 1 || i == 2 || i == 3 || i == 4 || i == 5 || i == 6 || i == 7 || i == 8
          || i == 9 || i == 10 || i == 11 || i == 12 || i == 13 || i == 14;
      assert raw[i - 1] != '\n' || raw[i] != '-';
    }
  }

  /**
   * The code as written refuses the conventional document under the default flags: the text before
   * the first marker is empty, and an empty text is what raises.
   */
  lemma ConventionalDocumentRefused()
    ensures SplitYfm(ConventionalDocument, Str("raise"), true).value == Err(BlankTextBeforeMarker(""))
  {
    var raw := ConventionalDocument;
    assert IsMarker(raw, 0, 3);
    assert IsMarker(raw, 15, 18);
    forall i: nat, j: nat | IsMarker(raw, i, j) && 0 < i ensures i >= 15 {
      ConventionalDocumentInnerLines(i, j);
    }
    SplitYfmTwoMarkers(raw, Str("raise"), true, 0, 3, 15, 18);
  }

  /** A document with a line of text before its front matter, as the code as written accepts it. */
  const NotedDocument: string := "note\n---\nk: v\n---\nbody"

  /** The noted document has exactly two marker lines, at its fifth and fourteenth character. */
  lemma NotedDocumentMarkers(i: nat, j: nat)
    ensures IsMarker(NotedDocument, i, j) ==> (i == 5 && j == 8) || (i == 14 && j == 17)
  {
    var raw := NotedDocument;
    if IsMarker(raw, i, j) {
      assert raw[i] == '-';
      assert i == 5 || i == 6 || i == 7 || i == 14 || i == 15 || i == 16;
      assert i != 6 && i != 7 && i != 15 && i != 16;
      MarkerEndsAtDashRun(raw, i, j);
      assert DashRun(raw, 8) == 8 && DashRun(raw, 17) == 17;
    }
  }

  /** The text between the marker lines of the noted document, and the text after them. */
  lemma NotedDocumentParts()
    ensures NotedDocument[8..14] == "\nk: v\n" && NotedDocument[17..] == "\nbody"
  {
  }

  /**
   * The noted document parses under the default flags: the metadata is what the loader makes of
   * the text between the marker lines, and the body is everything after the second one.
   */
  lemma ParseYfmNotedDocument(load: string -> Result<Value, string>, meta: Value)
    requires load("\nk: v\n") == Ok(meta)
    ensures ParseYfm(NotedDocument, Str("raise"), true, load) == Diagnosed(Ok((meta, "\nbody")), false)
  {
    var raw := NotedDocument;
    assert IsMarker(raw, 5, 8);
    assert IsMarker(raw, 14, 17);
    forall i: nat, j: nat | IsMarker(raw, i, j) ensures i >= 5 && (5 < i ==> i >= 14) {
      NotedDocumentMarkers(i, j);
    }
    assert !Text.IsWhitespace(raw[0]);
    SplitYfmTwoMarkers(raw, Str("raise"), true, 5, 8, 14, 17);
    NotedDocumentParts();
  }
}
