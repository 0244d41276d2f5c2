/**
 * The Python `str` operations the core relies on, over `string` (a sequence of code points):
 * substring test, `strip`, `split`, `join` and `replace`.
 */
module Text {

  /** `needle` occurs in `hay` starting at index `i`. */
  predicate OccursAt(hay: string, needle: string, i: nat)
  {
    i + |needle| <= |hay| && hay[i..i + |needle|] == needle
  }

  /** Occurrences in `hay[1..]` are the occurrences in `hay` shifted by one. */
  lemma OccursAtShift(hay: string, needle: string)
    requires |hay| > 0
    ensures forall i: nat :: OccursAt(hay[1..], needle, i) <==> OccursAt(hay, needle, i + 1)
    ensures forall i: nat :: 1 <= i ==> (OccursAt(hay, needle, i) <==> OccursAt(hay[1..], needle, i - 1))
  {
    forall i: nat ensures OccursAt(hay[1..], needle, i) <==> OccursAt(hay, needle, i + 1) {
      if i + 1 + |needle| <= |hay| {
        assert hay[1..][i..i + |needle|] == hay[i + 1..i + 1 + |needle|];
      }
    }
  }

  /** Python's `needle in hay` on two strings: a substring test. */
  function Contains(hay: string, needle: string): (r: bool)
    ensures r <==> exists i: nat :: OccursAt(hay, needle, i)
    decreases |hay|
  {
    if OccursAt(hay, needle, 0) then true
    else if |hay| <= |needle| then false
    else
      OccursAtShift(hay, needle);
      Contains(hay[1..], needle)
  }

  /** Python's `str.isspace` for one character: the characters `str.strip()` removes. */
  predicate IsWhitespace(c: char)
  {
    || c == ' '
    || ('\U{9}' <= c <= '\U{d}')
    || ('\U{1c}' <= c <= '\U{1f}')
    || c == '\U{85}' || c == '\U{a0}' || c == '\U{1680}'
    || ('\U{2000}' <= c <= '\U{200a}')
    || c == '\U{2028}' || c == '\U{2029}' || c == '\U{202f}' || c == '\U{205f}' || c == '\U{3000}'
  }

  /** Python's `s.lstrip(chars)`: the suffix left once the leading `drop` characters are cut. */
  function LStrip(s: string, drop: char -> bool): (r: string)
    ensures |r| <= |s| && r == s[|s| - |r|..]
    ensures forall i :: 0 <= i < |s| - |r| ==> drop(s[i])
    ensures r == [] || !drop(r[0])
    decreases |s|
  {
    if s != [] && drop(s[0]) then LStrip(s[1..], drop) else s
  }

  /** Python's `s.rstrip(chars)`: the prefix left once the trailing `drop` characters are cut. */
  function RStrip(s: string, drop: char -> bool): (r: string)
    ensures |r| <= |s| && r == s[..|r|]
    ensures forall i :: |r| <= i < |s| ==> drop(s[i])
    ensures r == [] || !drop(r[|r| - 1])
    decreases |s|
  {
    if s != [] && drop(s[|s| - 1]) then RStrip(s[..|s| - 1], drop) else s
  }

  /** Python's `s.strip(chars)`: a slice of `s` that neither starts nor ends with a `drop` character. */
  function Strip(s: string, drop: char -> bool): (r: string)
    ensures r == [] <==> forall i :: 0 <= i < |s| ==> drop(s[i])
    ensures r != [] ==> !drop(r[0]) && !drop(r[|r| - 1])
    ensures exists i: nat :: OccursAt(s, r, i)
  {
    var l := LStrip(s, drop);
    var r := RStrip(l, drop);
    assert OccursAt(s, r, |s| - |l|) by {
      assert s[|s| - |l|..][..|r|] == s[|s| - |l|..|s| - |l| + |r|];
    }
    r
  }

  /** LStrip cuts exactly the leading run of dropped characters. */
  lemma {:induction false} LStripAt(s: string, drop: char -> bool, a: nat)
    requires a < |s| && !drop(s[a])
    requires forall i :: 0 <= i < a ==> drop(s[i])
    ensures LStrip(s, drop) == s[a..]
    decreases a
  {
    if a > 0 {
      var t := s[1..];
      assert forall i :: 0 <= i < a - 1 ==> t[i] == s[i + 1];
      assert t[a - 1] == s[a];
      LStripAt(t, drop, a - 1);
      assert t[a - 1..] == s[a..];
    }
  }

  /** RStrip cuts exactly the trailing run of dropped characters. */
  lemma {:induction false} RStripAt(s: string, drop: char -> bool, b: nat)
    requires 0 < b <= |s| && !drop(s[b - 1])
    requires forall i :: b <= i < |s| ==> drop(s[i])
    ensures RStrip(s, drop) == s[..b]
    decreases |s| - b
  {
    if b < |s| {
      var t := s[..|s| - 1];
      assert forall i :: b <= i < |t| ==> t[i] == s[i];
      RStripAt(t, drop, b);
      assert t[..b] == s[..b];
    }
  }

  /** On the suffix from `a`, RStrip keeps the slice up to the last kept character `b - 1`. */
  lemma RStripSuffixAt(s: string, drop: char -> bool, a: nat, b: nat)
    requires a < b <= |s| && !drop(s[b - 1])
    requires forall i :: b <= i < |s| ==> drop(s[i])
    ensures RStrip(s[a..], drop) == s[a..b]
  {
    var l := s[a..];
    forall i | b - a <= i < |l| ensures drop(l[i]) {
      assert l[i] == s[a + i];
    }
    RStripAt(l, drop, b - a);
    assert l[..b - a] == s[a..b];
  }

  /** Strip keeps exactly the slice from the first to the last character it does not drop. */
  lemma StripSlice(s: string, drop: char -> bool, a: nat, b: nat)
    requires a < b <= |s| && !drop(s[a]) && !drop(s[b - 1])
    requires forall i :: 0 <= i < a ==> drop(s[i])
    requires forall i :: b <= i < |s| ==> drop(s[i])
    ensures Strip(s, drop) == s[a..b]
  {
    LStripAt(s, drop, a);
    RStripSuffixAt(s, drop, a, b);
  }

  /** Python's `sep.join(pieces)`. */
  function Join(pieces: seq<string>, sep: string): string
  {
    if |pieces| == 0 then ""
    else if |pieces| == 1 then pieces[0]
    else pieces[0] + sep + Join(pieces[1..], sep)
  }

  /** Putting a character in front of the first piece puts it in front of the joined string. */
  lemma JoinConsFirst(c: char, x: string, rest: seq<string>, sep: string)
    ensures Join([[c] + x] + rest, sep) == [c] + Join([x] + rest, sep)
  {
    if rest != [] {
      assert ([[c] + x] + rest)[1..] == rest;
      assert ([x] + rest)[1..] == rest;
    }
  }

  /**
   * Python's `s.split(sep)` for a non-empty separator: cut at every occurrence, left to right,
   * never overlapping. The first piece is the text before the leftmost occurrence.
   */
  function SplitOn(s: string, sep: string): (pieces: seq<string>)
    requires |sep| > 0
    ensures |pieces| >= 1
    decreases |s|
  {
    if OccursAt(s, sep, 0) then [""] + SplitOn(s[|sep|..], sep)
    else if s == [] then [""]
    else
      var rest := SplitOn(s[1..], sep);
      [[s[0]] + rest[0]] + rest[1..]
  }

  /** The first piece of a split is the text before the leftmost occurrence of the separator. */
  lemma {:induction false} SplitOnFirstPiece(s: string, sep: string)
    requires |sep| > 0
    ensures var first := SplitOn(s, sep)[0];
      && |first| <= |s| && first == s[..|first|]
      && forall i: nat :: i < |first| ==> !OccursAt(s, sep, i)
    decreases |s|
  {
    if !OccursAt(s, sep, 0) && s != [] {
      var rest := SplitOn(s[1..], sep);
      SplitOnFirstPiece(s[1..], sep);
      OccursAtShift(s, sep);
      var first := [s[0]] + rest[0];
      assert SplitOn(s, sep)[0] == first;
      assert first == s[..|first|];
    }
  }

  /** The step of SplitOnJoin at an occurrence of the separator. */
  lemma SplitOnJoinAtSep(s: string, sep: string)
    requires |sep| > 0 && OccursAt(s, sep, 0)
    requires Join(SplitOn(s[|sep|..], sep), sep) == s[|sep|..]
    ensures Join(SplitOn(s, sep), sep) == s
  {
    var tail := s[|sep|..];
    var rest := SplitOn(tail, sep);
    var pieces := [""] + rest;
    assert SplitOn(s, sep) == pieces;
    assert Join(pieces, sep) == sep + tail by {
      assert pieces[1..] == rest;
      assert Join(pieces, sep) == "" + sep + Join(rest, sep);
    }
    assert s == sep + tail by {
      assert s == s[..|sep|] + tail;
    }
  }

  /** The step of SplitOnJoin at a character that starts no occurrence. */
  lemma SplitOnJoinAtChar(s: string, sep: string)
    requires |sep| > 0 && s != [] && !OccursAt(s, sep, 0)
    requires Join(SplitOn(s[1..], sep), sep) == s[1..]
    ensures Join(SplitOn(s, sep), sep) == s
  {
    var rest := SplitOn(s[1..], sep);
    assert SplitOn(s, sep) == [[s[0]] + rest[0]] + rest[1..];
    JoinConsFirst(s[0], rest[0], rest[1..], sep);
    assert [rest[0]] + rest[1..] == rest;
    assert s == [s[0]] + s[1..];
  }

  /** Splitting and joining back with the same separator gives the text back. */
  lemma {:induction false} SplitOnJoin(s: string, sep: string)
    requires |sep| > 0
    ensures Join(SplitOn(s, sep), sep) == s
    decreases |s|
  {
    if OccursAt(s, sep, 0) {
      SplitOnJoin(s[|sep|..], sep);
      SplitOnJoinAtSep(s, sep);
    } else if s != [] {
      SplitOnJoin(s[1..], sep);
      SplitOnJoinAtChar(s, sep);
    }
  }

  /** A prefix of a text in which nothing occurs before its end does not contain the separator. */
  lemma PrefixAvoids(s: string, sep: string, m: nat)
    requires |sep| > 0 && m <= |s|
    requires forall i: nat :: i < m ==> !OccursAt(s, sep, i)
    ensures !Contains(s[..m], sep)
  {
    forall i: nat ensures !OccursAt(s[..m], sep, i) {
      if i + |sep| <= m {
        assert s[..m][i..i + |sep|] == s[i..i + |sep|];
        assert OccursAt(s[..m], sep, i) ==> OccursAt(s, sep, i);
      }
    }
  }

  /** No piece of a split holds the separator. */
  lemma {:induction false} SplitOnPiecesAvoid(s: string, sep: string)
    requires |sep| > 0
    ensures forall k :: 0 <= k < |SplitOn(s, sep)| ==> !Contains(SplitOn(s, sep)[k], sep)
    decreases |s|
  {
    var pieces := SplitOn(s, sep);
    SplitOnFirstPiece(s, sep);
    PrefixAvoids(s, sep, |pieces[0]|);
    if OccursAt(s, sep, 0) {
      var tail := s[|sep|..];
      SplitOnPiecesAvoid(tail, sep);
      assert pieces[1..] == SplitOn(tail, sep);
      forall k | 1 <= k < |pieces| ensures !Contains(pieces[k], sep) {
        assert pieces[k] == SplitOn(tail, sep)[k - 1];
      }
    } else if s != [] {
      var rest := SplitOn(s[1..], sep);
      SplitOnPiecesAvoid(s[1..], sep);
      forall k | 1 <= k < |pieces| ensures !Contains(pieces[k], sep) {
        assert pieces[k] == rest[k];
      }
    }
  }

  /** Text without the separator is not cut at all. */
  lemma {:induction false} SplitOnAbsent(s: string, sep: string)
    requires |sep| > 0 && !Contains(s, sep)
    ensures SplitOn(s, sep) == [s]
    decreases |s|
  {
    if s != [] {
      assert !OccursAt(s, sep, 0);
      OccursAtShift(s, sep);
      SplitOnAbsent(s[1..], sep);
      assert [s[0]] + s[1..] == s;
    }
  }

  /** Cutting at a one-character separator: the text before its first occurrence, then the rest cut. */
  lemma {:induction false} SplitOnFirst(a: string, c: char, b: string)
    requires c !in a
    ensures SplitOn(a + [c] + b, [c]) == [a] + SplitOn(b, [c])
    decreases |a|
  {
    var s := a + [c] + b;
    if a == [] {
      assert OccursAt(s, [c], 0);
      assert s[1..] == b;
    } else {
      assert a[0] in a && s[0] == a[0];
      assert !OccursAt(s, [c], 0);
      assert s[1..] == a[1..] + [c] + b;
      SplitOnFirst(a[1..], c, b);
      assert [a[0]] + a[1..] == a;
    }
  }

  /**
   * Python's `s.replace(target, replacement)`: every occurrence of `target`, left to right and never
   * overlapping, is replaced; an empty `target` matches between every two characters and at both ends.
   */
  function Replace(s: string, target: string, replacement: string): string
    decreases |s|
  {
    if |target| == 0 then
      if s == [] then replacement else replacement + [s[0]] + Replace(s[1..], target, replacement)
    else if OccursAt(s, target, 0) then replacement + Replace(s[|target|..], target, replacement)
    else if s == [] then ""
    else [s[0]] + Replace(s[1..], target, replacement)
  }

  /**
   * Replacing is splitting at the occurrences and joining with the replacement: the text between
   * the occurrences is kept and each occurrence becomes the replacement.
   */
  lemma {:induction false} ReplaceIsSplitJoin(s: string, target: string, replacement: string)
    requires |target| > 0
    ensures Replace(s, target, replacement) == Join(SplitOn(s, target), replacement)
    decreases |s|
  {
    if OccursAt(s, target, 0) {
      var tail := s[|target|..];
      ReplaceIsSplitJoin(tail, target, replacement);
      assert SplitOn(s, target) == [""] + SplitOn(tail, target);
      assert SplitOn(s, target)[1..] == SplitOn(tail, target);
    } else if s == [] {
    } else {
      var rest := SplitOn(s[1..], target);
      ReplaceIsSplitJoin(s[1..], target, replacement);
      JoinConsFirst(s[0], rest[0], rest[1..], replacement);
      assert [rest[0]] + rest[1..] == rest;
    }
  }

  /** Replacing a string by itself changes nothing. */
  lemma ReplaceSelf(s: string, target: string)
    requires |target| > 0
    ensures Replace(s, target, target) == s
  {
    ReplaceIsSplitJoin(s, target, target);
    SplitOnJoin(s, target);
  }

  /** A text in which `target` does not occur is returned unchanged. */
  lemma {:induction false} ReplaceAbsent(s: string, target: string, replacement: string)
    requires |target| > 0 && !Contains(s, target)
    ensures Replace(s, target, replacement) == s
    decreases |s|
  {
    if s != [] {
      OccursAtShift(s, target);
      ReplaceAbsent(s[1..], target, replacement);
      assert s == [s[0]] + s[1..];
    }
  }
}
