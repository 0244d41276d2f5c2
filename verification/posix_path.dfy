/**
 * The two POSIX path functions the document loader derives its file information from:
 * `os.path.split` and `os.path.splitext`, on path strings with `/` as separator.
 */
module PosixPath {
  import Text

  /** The index of the last `c` among the first `n` characters of `s`, or -1 when there is none. */
  function RFindBefore(s: string, c: char, n: nat): (r: int)
    requires n <= |s|
    ensures -1 <= r < n
    ensures r >= 0 ==> s[r] == c
    decreases n
  {
    if n == 0 then -1
    else if s[n - 1] == c then n - 1
    else RFindBefore(s, c, n - 1)
  }

  /** Python's `s.rfind(c)` for one character: the index of the last `c`, or -1 when there is none. */
  function RFind(s: string, c: char): (r: int)
    ensures -1 <= r < |s|
    ensures r >= 0 ==> s[r] == c
  {
    RFindBefore(s, c, |s|)
  }

  /** No `c` comes after the one RFindBefore finds. */
  lemma {:induction false} RFindBeforeIsLast(s: string, c: char, n: nat)
    requires n <= |s|
    ensures forall k :: RFindBefore(s, c, n) < k < n ==> s[k] != c
    decreases n
  {
    if n > 0 && s[n - 1] != c {
      RFindBeforeIsLast(s, c, n - 1);
    }
  }

  /** No `c` comes after the one RFind finds. */
  lemma RFindIsLast(s: string, c: char)
    ensures forall k :: RFind(s, c) < k < |s| ==> s[k] != c
  {
    RFindBeforeIsLast(s, c, |s|);
  }

  /** The last `c` of a suffix `s[i..]` is the last `c` of `s`, moved by `i`, if it lies in that suffix. */
  lemma RFindSuffix(s: string, i: nat, c: char)
    requires i <= |s|
    ensures RFind(s[i..], c) == if RFind(s, c) >= i then RFind(s, c) - i else -1
  {
    var a, b := RFind(s, c), RFind(s[i..], c);
    RFindIsLast(s, c);
    RFindIsLast(s[i..], c);
    if b >= 0 {
      assert s[i + b] == c;
    }
    if a >= i {
      assert s[i..][a - i] == c;
    }
  }

  predicate IsSlash(c: char) { c == '/' }

  /**
   * `os.path.split`: the last path component (`tail`) and the directory before it (`head`), with
   * the slashes between them left out; SplitTail and SplitHead say what each part holds.
   */
  function Split(p: string): (r: (string, string))
    ensures |r.0| + |r.1| <= |p| && p == r.0 + p[|r.0|..|p| - |r.1|] + r.1
    ensures r.1 == p[RFind(p, '/') + 1..]
  {
    var i := RFind(p, '/') + 1;
    var head, tail := p[..i], p[i..];
    if head != [] && exists k :: 0 <= k < |head| && head[k] != '/' then
      var stripped := Text.RStrip(head, IsSlash);
      assert p == stripped + p[|stripped|..i] + tail;
      (stripped, tail)
    else
      assert p == head + tail;
      (head, tail)
  }

  /** The tail of a split holds no slash. */
  lemma SplitTail(p: string)
    ensures '/' !in Split(p).1
  {
    var i := RFind(p, '/') + 1;
    RFindIsLast(p, '/');
    var tail := p[i..];
    assert forall k :: 0 <= k < |tail| ==> tail[k] == p[i + k];
  }

  /**
   * Only slashes lie between the head and the tail of a split, and the head ends with a slash only
   * when it consists of slashes.
   */
  lemma SplitHead(p: string)
    ensures var (head, tail) := Split(p);
      && (forall k :: |head| <= k < |p| - |tail| ==> p[k] == '/')
      && (head == [] || head[|head| - 1] != '/' || forall k :: 0 <= k < |head| ==> head[k] == '/')
  {
    var i := RFind(p, '/') + 1;
    var head := p[..i];
    if head != [] && exists k :: 0 <= k < |head| && head[k] != '/' {
      var stripped := Text.RStrip(head, IsSlash);
      assert Split(p) == (stripped, p[i..]);
      assert forall k :: |stripped| <= k < i ==> p[k] == head[k];
    } else {
      assert Split(p) == (head, p[i..]);
    }
  }

  /** Some character of `p[from..to]` is not a dot. */
  predicate HasNonDot(p: string, from: int, to: int)
  {
    exists k :: 0 <= from <= k < to <= |p| && p[k] != '.'
  }

  /**
   * `os.path.splitext`: `root + ext == p`, where `ext` runs from the last dot of the last component,
   * provided some character other than a dot precedes that dot within the component.
   */
  function SplitExt(p: string): (r: (string, string))
    ensures r.0 + r.1 == p
  {
    var sepIndex := RFind(p, '/');
    var dotIndex := RFind(p, '.');
    if dotIndex > sepIndex && HasNonDot(p, sepIndex + 1, dotIndex) then
      assert p[..dotIndex] + p[dotIndex..] == p;
      (p[..dotIndex], p[dotIndex..])
    else
      (p, "")
  }

  /** An extension is empty or a dot followed by neither a slash nor another dot. */
  lemma SplitExtShape(p: string)
    ensures var ext := SplitExt(p).1;
      ext == [] || (ext[0] == '.' && '/' !in ext && '.' !in ext[1..])
  {
    var sepIndex := RFind(p, '/');
    var dotIndex := RFind(p, '.');
    RFindIsLast(p, '/');
    RFindIsLast(p, '.');
    if dotIndex > sepIndex && HasNonDot(p, sepIndex + 1, dotIndex) {
      var ext := p[dotIndex..];
      assert forall k :: 0 <= k < |ext| ==> ext[k] == p[dotIndex + k];
      assert forall k :: 0 <= k < |ext[1..]| ==> ext[1..][k] == p[dotIndex + 1 + k];
    }
  }

  /**
   * The extension of a path is the extension of its last component, and the root of the path is
   * the directory part followed by the root of the last component.
   */
  lemma SplitExtOfTail(p: string)
    ensures var tail := Split(p).1;
      && |tail| <= |p|
      && SplitExt(tail).1 == SplitExt(p).1
      && SplitExt(p).0 == p[..|p| - |tail|] + SplitExt(tail).0
  {
    var i := RFind(p, '/') + 1;
    assert Split(p).1 == p[i..];
    SplitExtAfterLastSlash(p, i);
  }

  /** Whether a stretch holds a character other than a dot does not depend on where the text starts. */
  lemma HasNonDotSuffix(p: string, i: nat, d: nat)
    requires i <= d <= |p|
    ensures HasNonDot(p, i, d) <==> HasNonDot(p[i..], 0, d - i)
  {
    var tail := p[i..];
    if HasNonDot(p, i, d) {
      var k :| i <= k < d && p[k] != '.';
      assert tail[k - i] == p[k];
    }
    if HasNonDot(tail, 0, d - i) {
      var k :| 0 <= k < d - i && tail[k] != '.';
      assert p[k + i] == tail[k];
    }
  }

  /** The shape of SplitExt once the last slash and the last dot are known. */
  lemma SplitExtAt(p: string, sep: int, dot: int)
    requires sep == RFind(p, '/') && dot == RFind(p, '.')
    ensures SplitExt(p) == if dot > sep && HasNonDot(p, sep + 1, dot) then (p[..dot], p[dot..]) else (p, "")
  {
  }

  /** SplitExt of the text after the last slash cuts where SplitExt of the whole path does. */
  lemma SplitExtOfSuffix(p: string, i: nat)
    requires i == RFind(p, '/') + 1
    ensures var dp := RFind(p, '.');
      SplitExt(p[i..]) == if dp >= i && HasNonDot(p, i, dp) then (p[i..dp], p[dp..]) else (p[i..], "")
  {
    var tail := p[i..];
    var dp := RFind(p, '.');
    RFindSuffix(p, i, '/');
    RFindSuffix(p, i, '.');
    if dp >= i {
      HasNonDotSuffix(p, i, dp);
      SplitExtAt(tail, -1, dp - i);
      assert tail[..dp - i] == p[i..dp] && tail[dp - i..] == p[dp..];
    } else {
      SplitExtAt(tail, -1, -1);
    }
  }

  /**
   * Splitting the extension off the text after the last slash gives the extension of the whole
   * path, and the rest of the path in front of the root.
   */
  lemma SplitExtAfterLastSlash(p: string, i: nat)
    requires i == RFind(p, '/') + 1
    ensures SplitExt(p[i..]).1 == SplitExt(p).1
    ensures SplitExt(p).0 == p[..i] + SplitExt(p[i..]).0
  {
    var dp := RFind(p, '.');
    SplitExtAt(p, i - 1, dp);
    SplitExtOfSuffix(p, i);
    if dp >= i && HasNonDot(p, i, dp) {
      assert p[..dp] == p[..i] + p[i..dp];
    } else {
      assert p == p[..i] + p[i..];
    }
  }
}
