/**
 * Pico-style `%variable%` substitution: finding the placeholders in a text, resolving a dotted
 * variable name against nested dicts, and replacing each placeholder by its value under an error
 * policy, for a plain text and for a loaded document.
 */
module Pico {
  import opened Wrappers
  import opened Values
  import Text
  import DocumentIo

  // ---------------------------------------------------------------------------------------------
  // Finding placeholders: the pattern %[\w.]+%
  // ---------------------------------------------------------------------------------------------

  /** A character of `\w`, read as ASCII: a letter, a digit or the underscore. */
  predicate IsWordChar(c: char)
  {
    ('a' <= c <= 'z') || ('A' <= c <= 'Z') || ('0' <= c <= '9') || c == '_'
  }

  /** A character the pattern allows between the two percent signs. */
  predicate IsVarChar(c: char)
  {
    IsWordChar(c) || c == '.'
  }

  /** The pattern matches `s[i..j]`: a percent sign, one or more variable characters, a percent sign. */
  predicate PlaceholderAt(s: string, i: nat, j: nat)
  {
    && i + 3 <= j <= |s|
    && s[i] == '%'
    && s[j - 1] == '%'
    && forall k :: i < k < j - 1 ==> IsVarChar(s[k])
  }

  /** A whole string the pattern matches. */
  predicate IsPlaceholder(p: string)
  {
    PlaceholderAt(p, 0, |p|)
  }

  /** The pattern matches somewhere in `s`. */
  ghost predicate HasPlaceholder(s: string)
  {
    exists i: nat, j: nat :: PlaceholderAt(s, i, j)
  }

  /** The length of the run of variable characters that starts at `i`. */
  function VarRun(s: string, i: nat): (n: nat)
    requires i <= |s|
    ensures i + n <= |s|
    ensures forall k :: i <= k < i + n ==> IsVarChar(s[k])
    ensures i + n == |s| || !IsVarChar(s[i + n])
    decreases |s| - i
  {
    if i < |s| && IsVarChar(s[i]) then 1 + VarRun(s, i + 1) else 0
  }

  /**
   * Where the match that starts at `i` ends, if the pattern matches there. Since a percent sign is
   * not a variable character, a match that starts at `i` is unique.
   */
  function MatchAt(s: string, i: nat): (r: Option<nat>)
    requires i <= |s|
    ensures r.Some? ==> PlaceholderAt(s, i, r.value)
  {
    if i < |s| && s[i] == '%' then
      var n := VarRun(s, i + 1);
      if n > 0 && i + 1 + n < |s| && s[i + 1 + n] == '%' then Some(i + n + 2) else None
    else None
  }

  /** A match that starts at `i` is the one MatchAt reports. */
  lemma MatchAtUnique(s: string, i: nat, j: nat)
    requires PlaceholderAt(s, i, j)
    ensures MatchAt(s, i) == Some(j)
  {
    var n := VarRun(s, i + 1);
    assert !IsVarChar('%');
    assert s[j - 1] == '%';
  }

  /** Where a match lies in the scanned text. */
  datatype Span = Span(start: nat, end: nat)

  /**
   * `findall` from position `from`: the match at the first position where the pattern matches,
   * then the scan goes on after its end, so that the matches never overlap.
   */
  function Scan(s: string, from: nat): (ms: seq<Span>)
    requires from <= |s|
    ensures forall k :: 0 <= k < |ms| ==> from <= ms[k].start && PlaceholderAt(s, ms[k].start, ms[k].end)
    ensures forall k :: 0 <= k < |ms| - 1 ==> ms[k].end <= ms[k + 1].start
    decreases |s| - from
  {
    if from == |s| then []
    else
      match MatchAt(s, from)
      case Some(j) => [Span(from, j)] + Scan(s, j)
      case None => Scan(s, from + 1)
  }

  /** Position `i` lies inside one of the spans. */
  ghost predicate Covered(ms: seq<Span>, i: nat)
  {
    exists k :: 0 <= k < |ms| && ms[k].start <= i < ms[k].end
  }

  /**
   * The scan misses no match except one that overlaps a match it took: every position where the
   * pattern matches, at or after `from`, lies inside a reported match.
   */
  lemma {:induction false} ScanCovers(s: string, from: nat, i: nat, j: nat)
    requires from <= i && PlaceholderAt(s, i, j)
    ensures Covered(Scan(s, from), i)
    decreases |s| - from
  {
    var ms := Scan(s, from);
    match MatchAt(s, from) {
      case Some(e) =>
        var rest := Scan(s, e);
        assert ms == [Span(from, e)] + rest;
        if e <= i {
          ScanCovers(s, e, i, j);
          var k :| 0 <= k < |rest| && rest[k].start <= i < rest[k].end;
          assert ms[k + 1] == rest[k];
        } else {
          assert ms[0].start <= i < ms[0].end;
        }
      case None =>
        if from == i {
          MatchAtUnique(s, i, j);
          assert false;
        }
        ScanCovers(s, from + 1, i, j);
    }
  }

  /** The text a span of the scan covers is a placeholder that occurs in the text at the span's start. */
  lemma ScanText(s: string, k: nat)
    requires k < |Scan(s, 0)|
    ensures var m := Scan(s, 0)[k];
      IsPlaceholder(s[m.start..m.end]) && Text.OccursAt(s, s[m.start..m.end], m.start)
  {
    var m := Scan(s, 0)[k];
    var p := s[m.start..m.end];
    assert forall i :: 0 < i < |p| - 1 ==> p[i] == s[m.start + i];
  }

  /** The scan is empty exactly when the pattern matches nowhere. */
  lemma ScanEmpty(s: string)
    ensures Scan(s, 0) == [] <==> !HasPlaceholder(s)
  {
    var ms := Scan(s, 0);
    if ms != [] {
      assert PlaceholderAt(s, ms[0].start, ms[0].end);
    }
    if HasPlaceholder(s) {
      var i: nat, j: nat :| PlaceholderAt(s, i, j);
      ScanCovers(s, 0, i, j);
    }
  }

  /** The texts the spans cover, in order. */
  function Texts(s: string, ms: seq<Span>): (ts: seq<string>)
    requires forall k :: 0 <= k < |ms| ==> ms[k].start <= ms[k].end <= |s|
    ensures |ts| == |ms|
    ensures forall k :: 0 <= k < |ms| ==> ts[k] == s[ms[k].start..ms[k].end]
    decreases |ms|
  {
    if ms == [] then [] else [s[ms[0].start..ms[0].end]] + Texts(s, ms[1..])
  }

  /**
   * `findall` of the placeholder pattern: the texts of the matches in order; there are none
   * exactly when the pattern matches nowhere.
   */
  function FindAll(content: string): (found: seq<string>)
    ensures found == [] <==> !HasPlaceholder(content)
  {
    ScanEmpty(content);
    Texts(content, Scan(content, 0))
  }

  /**
   * `pico_find_variable_placeholders`: the distinct texts `findall` returns; there are none
   * exactly when the pattern matches nowhere.
   */
  function PicoFindVariablePlaceholders(content: string): (r: set<string>)
    ensures r == {} <==> !HasPlaceholder(content)
  {
    var found := FindAll(content);
    var r := Distinct(found);
    assert found != [] ==> found[0] in r;
    r
  }

  /**
   * The placeholders found are exactly the texts `findall` returns, and each is a placeholder
   * that occurs in the content.
   */
  lemma PlaceholdersFound(content: string)
    ensures forall p :: p in PicoFindVariablePlaceholders(content) <==> p in FindAll(content)
    ensures forall p :: p in PicoFindVariablePlaceholders(content) ==> IsPlaceholder(p) && Text.Contains(content, p)
  {
    var ms := Scan(content, 0);
    var found := FindAll(content);
    forall p | p in PicoFindVariablePlaceholders(content)
      ensures IsPlaceholder(p) && Text.Contains(content, p)
    {
      var k :| 0 <= k < |found| && found[k] == p;
      ScanText(content, k);
      assert Text.OccursAt(content, p, ms[k].start);
    }
  }

  /** The set of the elements of a list. */
  function Distinct(xs: seq<string>): (r: set<string>)
    ensures forall x :: x in r <==> x in xs
    decreases |xs|
  {
    if xs == [] then {} else {xs[0]} + Distinct(xs[1..])
  }

  // ---------------------------------------------------------------------------------------------
  // Resolving a dotted variable name
  // ---------------------------------------------------------------------------------------------

  /** The exceptions variable substitution lets out. */
  datatype PicoError =
      /** A dict on the path has no such key and there is no default. */
    | KeyError(key: string)
      /** A value on the path is not a dict, so the attribute lookup fails. */
    | AttributeError(name: string)
      /** A missing key under an `errors` value that is not recognized (a ValueError). */
    | UnrecognizedErrors(errors: string)

  /**
   * `get_attrs_string_value` on a list of keys: look the first key up, then the rest in its value.
   * A missing key gives the default when there is one and a KeyError otherwise; a value that is not
   * a dict gives an AttributeError, default or not.
   */
  function GetAttrs(v: Value, attrs: seq<string>, default: Option<Value>): Result<Value, PicoError>
    requires |attrs| > 0
    decreases |attrs|
  {
    var key := attrs[0];
    match v
    case Mapping(entries) =>
      if key in entries then
        if |attrs| == 1 then Ok(entries[key]) else GetAttrs(entries[key], attrs[1..], default)
      else if default.Some? then Ok(default.value)
      else Err(KeyError(key))
    case _ => Err(AttributeError(key))
  }

  /**
   * The lookup fails only with a KeyError or an AttributeError naming one of the keys of the
   * path, and never with a KeyError when there is a default.
   */
  lemma {:induction false} GetAttrsErrors(v: Value, attrs: seq<string>, default: Option<Value>)
    requires |attrs| > 0
    ensures var r := GetAttrs(v, attrs, default);
      && (r.Err? ==> !r.error.UnrecognizedErrors?)
      && (r.Err? && r.error.KeyError? ==> default.None? && r.error.key in attrs)
      && (r.Err? && r.error.AttributeError? ==> r.error.name in attrs)
    decreases |attrs|
  {
    if v.Mapping? && attrs[0] in v.entries && |attrs| > 1 {
      GetAttrsErrors(v.entries[attrs[0]], attrs[1..], default);
      assert forall x :: x in attrs[1..] ==> x in attrs;
    }
  }

  /** `get_attrs_string_value` on a dotted name: the name is cut at every dot. */
  function GetAttrsStringValue(v: Value, attrs: string, default: Option<Value>): Result<Value, PicoError>
  {
    GetAttrs(v, Text.SplitOn(attrs, "."), default)
  }

  /** A default changes only a KeyError, which it replaces; every other outcome is the same without it. */
  lemma {:induction false} GetAttrsDefault(v: Value, attrs: seq<string>, d: Value)
    requires |attrs| > 0
    ensures var plain := GetAttrs(v, attrs, None);
      GetAttrs(v, attrs, Some(d)) == if plain.Err? && plain.error.KeyError? then Ok(d) else plain
    decreases |attrs|
  {
    if v.Mapping? && attrs[0] in v.entries && |attrs| > 1 {
      GetAttrsDefault(v.entries[attrs[0]], attrs[1..], d);
    }
  }

  /** Resolving a path in two parts: once the first part resolves, the rest is resolved in its value. */
  lemma {:induction false} GetAttrsConcat(v: Value, p: seq<string>, q: seq<string>, default: Option<Value>)
    requires |p| > 0 && |q| > 0
    requires GetAttrs(v, p, None).Ok?
    ensures GetAttrs(v, p + q, default) == GetAttrs(GetAttrs(v, p, None).value, q, default)
    decreases |p|
  {
    assert (p + q)[0] == p[0];
    if |p| > 1 {
      assert (p + q)[1..] == p[1..] + q;
      GetAttrsConcat(v.entries[p[0]], p[1..], q, default);
    } else {
      assert (p + q)[1..] == q;
    }
  }

  /** A name without a dot is a single key looked up in a dict. */
  lemma GetAttrsStringValueKey(v: Value, key: string, default: Option<Value>)
    requires '.' !in key
    ensures GetAttrsStringValue(v, key, default)
            == match v
               case Mapping(entries) =>
                 if key in entries then Ok(entries[key])
                 else if default.Some? then Ok(default.value) else Err(KeyError(key))
               case _ => Err(AttributeError(key))
  {
    assert !Text.Contains(key, ".") by {
      forall i: nat ensures !Text.OccursAt(key, ".", i) {
        if i < |key| { assert key[i] in key; }
      }
    }
    Text.SplitOnAbsent(key, ".");
  }

  /** A dotted name looks its first key up in a dict and resolves the rest of the name in that value. */
  lemma GetAttrsStringValueDotted(v: Value, key: string, rest: string, default: Option<Value>)
    requires '.' !in key
    requires v.Mapping? && key in v.entries
    ensures GetAttrsStringValue(v, key + "." + rest, default)
            == GetAttrsStringValue(v.entries[key], rest, default)
  {
    Text.SplitOnFirst(key, '.', rest);
  }

  /** The documented example: `'h.e.j'` in `{'h': {'e': {'j': 'word'}}}` is `'word'`. */
  lemma GetAttrsStringValueExample()
    ensures GetAttrsStringValue(
              Mapping(map["h" := Mapping(map["e" := Mapping(map["j" := Str("word")])])]), "h.e.j", None)
            == Ok(Str("word"))
  {
    var inner := Mapping(map["j" := Str("word")]);
    var middle := Mapping(map["e" := inner]);
    var outer := Mapping(map["h" := middle]);
    GetAttrsStringValueKey(inner, "j", None);
    assert "e" + "." + "j" == "e.j";
    GetAttrsStringValueDotted(middle, "e", "j", None);
    assert "h" + "." + "e.j" == "h.e.j";
    GetAttrsStringValueDotted(outer, "h", "e.j", None);
  }

  // ---------------------------------------------------------------------------------------------
  // Substitution
  // ---------------------------------------------------------------------------------------------

  /** The percent sign, the character `strip('%')` removes. */
  predicate IsPercent(c: char)
  {
    c == '%'
  }

  /** The variable name of a placeholder: `placeholder.strip('%')`. */
  function VarName(placeholder: string): string
  {
    Text.Strip(placeholder, IsPercent)
  }

  /** The variable name of a placeholder is the text between its two percent signs. */
  lemma VarNameOfPlaceholder(p: string)
    requires IsPlaceholder(p)
    ensures VarName(p) == p[1..|p| - 1]
  {
    Text.StripSlice(p, IsPercent, 1, |p| - 1);
  }

  /**
   * How the loop looks a placeholder up in the template variables: the variable name of the
   * placeholder resolved without a default.
   */
  function Resolver(vars: Value): string -> Result<Value, PicoError>
  {
    placeholder => GetAttrsStringValue(vars, VarName(placeholder), None)
  }

  /** Looking a placeholder up fails only with a KeyError or an AttributeError. */
  lemma ResolverErrors(vars: Value, placeholder: string)
    ensures var r := Resolver(vars)(placeholder);
      r.Err? ==> r.error.KeyError? || r.error.AttributeError?
  {
    GetAttrsErrors(vars, Text.SplitOn(VarName(placeholder), "."), None);
  }

  /**
   * The lookup of the placeholder fails with an error the `errors` policy lets out: anything but a
   * KeyError, or a KeyError under a policy other than `"print"` and `"pass"`.
   */
  predicate Escapes(resolve: string -> Result<Value, PicoError>, placeholder: string, errors: string)
  {
    var r := resolve(placeholder);
    r.Err? && (!r.error.KeyError? || (errors != "print" && errors != "pass"))
  }

  /** The exception that escapes for a placeholder: the KeyError itself under `"raise"`, a ValueError under an unrecognized policy. */
  function EscapedError(resolve: string -> Result<Value, PicoError>, placeholder: string, errors: string): PicoError
    requires Escapes(resolve, placeholder, errors)
  {
    var e := resolve(placeholder).error;
    if e.KeyError? && errors != "raise" then UnrecognizedErrors(errors) else e
  }

  /**
   * One turn of the substitution loop: look the placeholder up; on success replace every
   * occurrence of the placeholder by the formatted value; on a KeyError follow the `errors` policy.
   */
  function Step(content: string, placeholder: string, resolve: string -> Result<Value, PicoError>,
                errors: string, format: (string, Value) -> string): (r: Result<string, PicoError>)
    ensures r.Err? <==> Escapes(resolve, placeholder, errors)
    ensures r.Err? ==> r.error == EscapedError(resolve, placeholder, errors)
    ensures resolve(placeholder).Err? && r.Ok? ==> r.value == content
  {
    match resolve(placeholder)
    case Ok(sub) => Ok(Text.Replace(content, placeholder, format(VarName(placeholder), sub)))
    case Err(KeyError(key)) =>
      if errors == "raise" then Err(KeyError(key))
      else if errors == "print" then Ok(content)
      else if errors == "pass" then Ok(content)
      else Err(UnrecognizedErrors(errors))
    case Err(e) => Err(e)
  }

  /** The substitution loop run over the placeholders in the order given. */
  function SubstituteOrdered(content: string, order: seq<string>, resolve: string -> Result<Value, PicoError>,
                             errors: string, format: (string, Value) -> string): Result<string, PicoError>
    decreases |order|
  {
    if order == [] then Ok(content)
    else
      match SubstituteOrdered(content, order[..|order| - 1], resolve, errors, format)
      case Err(e) => Err(e)
      case Ok(c) => Step(c, order[|order| - 1], resolve, errors, format)
  }

  /** A turn whose lookup succeeds replaces the placeholder by its formatted value, under any policy. */
  lemma StepResolved(content: string, placeholder: string, resolve: string -> Result<Value, PicoError>,
                     errors: string, format: (string, Value) -> string)
    requires resolve(placeholder).Ok?
    ensures Step(content, placeholder, resolve, errors, format)
            == Ok(Text.Replace(content, placeholder, format(VarName(placeholder), resolve(placeholder).value)))
  {
  }

  /**
   * A placeholder that resolves is replaced at every occurrence: the content is cut at each
   * occurrence, no piece holds the placeholder any more, and the pieces are joined with the
   * formatted value where the placeholder stood.
   */
  lemma StepReplacesEveryOccurrence(content: string, placeholder: string, resolve: string -> Result<Value, PicoError>,
                                    errors: string, format: (string, Value) -> string)
    requires |placeholder| > 0 && resolve(placeholder).Ok?
    ensures var pieces := Text.SplitOn(content, placeholder);
      && Text.Join(pieces, placeholder) == content
      && (forall k :: 0 <= k < |pieces| ==> !Text.Contains(pieces[k], placeholder))
      && Step(content, placeholder, resolve, errors, format)
         == Ok(Text.Join(pieces, format(VarName(placeholder), resolve(placeholder).value)))
  {
    StepResolved(content, placeholder, resolve, errors, format);
    Text.SplitOnJoin(content, placeholder);
    Text.SplitOnPiecesAvoid(content, placeholder);
    Text.ReplaceIsSplitJoin(content, placeholder, format(VarName(placeholder), resolve(placeholder).value));
  }

  /** Every placeholder of `order` resolves. */
  predicate AllResolve(order: seq<string>, resolve: string -> Result<Value, PicoError>)
  {
    forall k :: 0 <= k < |order| ==> resolve(order[k]).Ok?
  }

  /**
   * The placeholders of `order` replaced one after the other, first to last, each by its
   * formatted value.
   */
  function ReplaceChain(content: string, order: seq<string>, resolve: string -> Result<Value, PicoError>,
                        format: (string, Value) -> string): string
    requires AllResolve(order, resolve)
    decreases |order|
  {
    if order == [] then content
    else
      var p := order[0];
      ReplaceChain(Text.Replace(content, p, format(VarName(p), resolve(p).value)), order[1..], resolve, format)
  }

  /** The chain over one more placeholder is one more replacement at its end. */
  lemma {:induction false} ReplaceChainSnoc(content: string, order: seq<string>, p: string,
                                            resolve: string -> Result<Value, PicoError>,
                                            format: (string, Value) -> string)
    requires AllResolve(order, resolve) && resolve(p).Ok?
    ensures AllResolve(order + [p], resolve)
    ensures ReplaceChain(content, order + [p], resolve, format)
            == Text.Replace(ReplaceChain(content, order, resolve, format), p, format(VarName(p), resolve(p).value))
    decreases |order|
  {
    if order != [] {
      var q := order[0];
      assert (order + [p])[0] == q && (order + [p])[1..] == order[1..] + [p];
      ReplaceChainSnoc(Text.Replace(content, q, format(VarName(q), resolve(q).value)), order[1..], p, resolve, format);
    } else {
      assert [] + [p] == [p];
    }
  }

  /**
   * When every placeholder of the order resolves, the loop never fails and its result is the
   * content with each placeholder in turn replaced by its formatted value.
   */
  lemma {:induction false} SubstituteResolvedReplaces(content: string, order: seq<string>,
                                                      resolve: string -> Result<Value, PicoError>,
                                                      errors: string, format: (string, Value) -> string)
    requires AllResolve(order, resolve)
    ensures SubstituteOrdered(content, order, resolve, errors, format) == Ok(ReplaceChain(content, order, resolve, format))
    decreases |order|
  {
    if order != [] {
      var front, p := order[..|order| - 1], order[|order| - 1];
      assert order == front + [p];
      ReplaceChainSnoc(content, front, p, resolve, format);
      SubstituteResolvedReplaces(content, front, resolve, errors, format);
      StepResolved(ReplaceChain(content, front, resolve, format), p, resolve, errors, format);
    }
  }

  /** Once a prefix of the order has failed, the whole loop fails with the same error. */
  lemma {:induction false} SubstituteErrorPersists(content: string, order: seq<string>, n: nat,
                                                   resolve: string -> Result<Value, PicoError>,
                                                   errors: string, format: (string, Value) -> string)
    requires n <= |order|
    requires SubstituteOrdered(content, order[..n], resolve, errors, format).Err?
    ensures SubstituteOrdered(content, order, resolve, errors, format)
            == SubstituteOrdered(content, order[..n], resolve, errors, format)
    decreases |order| - n
  {
    if n < |order| {
      assert order[..n + 1][..n] == order[..n];
      SubstituteErrorPersists(content, order, n + 1, resolve, errors, format);
    } else {
      assert order[..n] == order;
    }
  }

  /** The position of the first placeholder in `order` whose lookup escapes, or `|order|` when none does. */
  function FirstEscape(order: seq<string>, resolve: string -> Result<Value, PicoError>, errors: string): (k: nat)
    ensures k <= |order|
    ensures forall l :: 0 <= l < k ==> !Escapes(resolve, order[l], errors)
    ensures k < |order| ==> Escapes(resolve, order[k], errors)
    decreases |order|
  {
    if order == [] then 0
    else
      var front := order[..|order| - 1];
      var k := FirstEscape(front, resolve, errors);
      assert forall l :: 0 <= l < |front| ==> front[l] == order[l];
      if k < |front| then k
      else if Escapes(resolve, order[|order| - 1], errors) then |order| - 1
      else |order|
  }

  /**
   * Whatever the order, the loop fails exactly when some placeholder's lookup escapes, and then
   * with the error of the first one that does.
   */
  lemma {:induction false} SubstituteFails(content: string, order: seq<string>,
                                           resolve: string -> Result<Value, PicoError>,
                                           errors: string, format: (string, Value) -> string)
    ensures var r, k := SubstituteOrdered(content, order, resolve, errors, format), FirstEscape(order, resolve, errors);
      && (r.Err? <==> k < |order|)
      && (r.Err? ==> r.error == EscapedError(resolve, order[k], errors))
    decreases |order|
  {
    if order != [] {
      var front := order[..|order| - 1];
      SubstituteFails(content, front, resolve, errors, format);
      var k := FirstEscape(front, resolve, errors);
      if k < |front| {
        assert order[k] == front[k];
      }
    }
  }

  /** When no placeholder resolves and the policy tolerates missing keys, the content is left as it was. */
  lemma {:induction false} SubstituteUnresolvedKeepsContent(content: string, order: seq<string>,
                                                            resolve: string -> Result<Value, PicoError>,
                                                            errors: string, format: (string, Value) -> string)
    requires forall k :: 0 <= k < |order| ==> resolve(order[k]).Err? && !Escapes(resolve, order[k], errors)
    ensures SubstituteOrdered(content, order, resolve, errors, format) == Ok(content)
    decreases |order|
  {
    if order != [] {
      SubstituteUnresolvedKeepsContent(content, order[..|order| - 1], resolve, errors, format);
    }
  }

  /** Under `"print"` and `"pass"` only an AttributeError can escape the loop. */
  lemma SubstituteTolerantFailsOnlyOnAttribute(content: string, order: seq<string>, vars: Value,
                                               errors: string, format: (string, Value) -> string)
    requires errors == "print" || errors == "pass"
    ensures var r := SubstituteOrdered(content, order, Resolver(vars), errors, format);
      r.Err? ==> r.error.AttributeError?
  {
    SubstituteFails(content, order, Resolver(vars), errors, format);
    var k := FirstEscape(order, Resolver(vars), errors);
    if k < |order| {
      ResolverErrors(vars, order[k]);
    }
  }

  /** `order` lists every element of `s` exactly once. */
  ghost predicate Enumerates(order: seq<string>, s: set<string>)
  {
    && (forall k :: 0 <= k < |order| ==> order[k] in s)
    && (forall p :: p in s ==> p in order)
    && (forall k, l :: 0 <= k < l < |order| ==> order[k] != order[l])
  }

  /** Some order in which a set can be iterated. */
  ghost function Enumeration(s: set<string>): (order: seq<string>)
    ensures Enumerates(order, s)
    decreases |s|
  {
    if s == {} then []
    else
      var p :| p in s;
      var rest := Enumeration(s - {p});
      EnumeratesConcat([p], {p}, rest, s - {p});
      [p] + rest
  }

  /** Two enumerations of disjoint sets, one after the other, enumerate their union. */
  lemma EnumeratesConcat(a: seq<string>, sa: set<string>, b: seq<string>, sb: set<string>)
    requires Enumerates(a, sa) && Enumerates(b, sb) && sa !! sb
    ensures Enumerates(a + b, sa + sb)
  {
    forall p | p in sa + sb ensures p in a + b {
      if p in sa {
        var k :| 0 <= k < |a| && a[k] == p;
        assert (a + b)[k] == p;
      } else {
        var k :| 0 <= k < |b| && b[k] == p;
        assert (a + b)[|a| + k] == p;
      }
    }
  }

  /** Handling one more placeholder extends the order by it and the result by one step. */
  lemma SubstituteExtend(content: string, order: seq<string>, done: set<string>, p: string, current: string,
                         resolve: string -> Result<Value, PicoError>, errors: string,
                         format: (string, Value) -> string)
    requires Enumerates(order, done) && p !in done
    requires SubstituteOrdered(content, order, resolve, errors, format) == Ok(current)
    ensures Enumerates(order + [p], done + {p})
    ensures SubstituteOrdered(content, order + [p], resolve, errors, format) == Step(current, p, resolve, errors, format)
  {
    EnumeratesConcat(order, done, [p], {p});
    assert (order + [p])[..|order|] == order;
  }

  /**
   * When the step for `p` fails, the loop fails the same way whatever order the placeholders
   * still to come are taken in.
   */
  lemma SubstituteAbort(content: string, order: seq<string>, done: set<string>, p: string, rest: set<string>,
                        current: string, resolve: string -> Result<Value, PicoError>, errors: string,
                        format: (string, Value) -> string)
    returns (full: seq<string>)
    requires Enumerates(order, done) && p !in done && p !in rest && done !! rest
    requires SubstituteOrdered(content, order, resolve, errors, format) == Ok(current)
    requires Step(current, p, resolve, errors, format).Err?
    ensures Enumerates(full, done + {p} + rest)
    ensures SubstituteOrdered(content, full, resolve, errors, format) == Step(current, p, resolve, errors, format)
  {
    SubstituteExtend(content, order, done, p, current, resolve, errors, format);
    var tail := Enumeration(rest);
    EnumeratesConcat(order + [p], done + {p}, tail, rest);
    full := order + [p] + tail;
    assert full[..|order| + 1] == order + [p];
    SubstituteErrorPersists(content, full, |order| + 1, resolve, errors, format);
  }

  /**
   * Over any enumeration of a set of placeholders, the loop fails exactly when some placeholder
   * of the set escapes, and then with the error of one that does.
   */
  lemma SubstituteFailsOnSet(content: string, order: seq<string>, placeholders: set<string>,
                             resolve: string -> Result<Value, PicoError>, errors: string,
                             format: (string, Value) -> string)
    requires Enumerates(order, placeholders)
    ensures var r := SubstituteOrdered(content, order, resolve, errors, format);
      && (r.Err? <==> exists p :: p in placeholders && Escapes(resolve, p, errors))
      && (r.Err? ==> exists p :: p in placeholders && Escapes(resolve, p, errors)
                                && r.error == EscapedError(resolve, p, errors))
  {
    SubstituteFails(content, order, resolve, errors, format);
    var k := FirstEscape(order, resolve, errors);
    if k < |order| {
      assert order[k] in placeholders;
    }
  }

  /**
   * The `for` loop of `substitute_pico_variables` over a set of placeholders: each is handled
   * once, in the iteration order of the set, which is not specified; `order` is the order taken,
   * and the result is the loop's result for it.
   */
  method SubstituteEach(content: string, placeholders: set<string>, resolve: string -> Result<Value, PicoError>,
                        errors: string, format: (string, Value) -> string)
    returns (r: Result<string, PicoError>, ghost order: seq<string>)
    ensures Enumerates(order, placeholders)
    ensures r == SubstituteOrdered(content, order, resolve, errors, format)
    ensures placeholders == {} ==> order == [] && r == Ok(content)
    ensures r.Err? <==> exists p :: p in placeholders && Escapes(resolve, p, errors)
    ensures r.Err? ==> exists p :: p in placeholders && Escapes(resolve, p, errors)
                                   && r.error == EscapedError(resolve, p, errors)
  {
    var remaining := placeholders;
    var current := content;
    order := [];
    ghost var done: set<string> := {};
    while remaining != {}
      invariant done !! remaining && done + remaining == placeholders
      invariant Enumerates(order, done)
      invariant SubstituteOrdered(content, order, resolve, errors, format) == Ok(current)
      decreases |remaining|
    {
      var placeholder :| placeholder in remaining;
      var step := Step(current, placeholder, resolve, errors, format);
      if step.Err? {
        order := SubstituteAbort(content, order, done, placeholder, remaining - {placeholder},
                                 current, resolve, errors, format);
        assert done + {placeholder} + (remaining - {placeholder}) == placeholders;
        SubstituteFailsOnSet(content, order, placeholders, resolve, errors, format);
        return step, order;
      }
      SubstituteExtend(content, order, done, placeholder, current, resolve, errors, format);
      current := step.value;
      order := order + [placeholder];
      done := done + {placeholder};
      remaining := remaining - {placeholder};
    }
    SubstituteFailsOnSet(content, order, placeholders, resolve, errors, format);
    r := Ok(current);
  }

  /**
   * `substitute_pico_variables`: the loop over the placeholders found in the content, each looked
   * up in `vars`, in some iteration order of the set; content without placeholders comes back
   * unchanged. By SubstituteFailsOnSet it fails exactly when some placeholder's lookup escapes the
   * `errors` policy, with that placeholder's error, whatever the order.
   */
  method SubstitutePicoVariables(content: string, vars: Value, errors: string, format: (string, Value) -> string)
    returns (r: Result<string, PicoError>, ghost order: seq<string>)
    ensures Enumerates(order, PicoFindVariablePlaceholders(content))
    ensures r == SubstituteOrdered(content, order, Resolver(vars), errors, format)
    ensures !HasPlaceholder(content) ==> order == [] && r == Ok(content)
    ensures r.Err? <==> exists p :: p in PicoFindVariablePlaceholders(content) && Escapes(Resolver(vars), p, errors)
  {
    var placeholders := PicoFindVariablePlaceholders(content);
    r, order := SubstituteEach(content, placeholders, Resolver(vars), errors, format);
  }

  // ---------------------------------------------------------------------------------------------
  // Documents
  // ---------------------------------------------------------------------------------------------

  /** `str(v)` for a value: a string is itself; other values are rendered by `repr`. */
  function StrOf(v: Value, repr: Value -> string): string
  {
    if v.Str? then v.s else repr(v)
  }

  /** The default format `"{sub}"` for every variable: the value as `str` renders it. */
  function DefaultFormat(repr: Value -> string): (string, Value) -> string
  {
    (name: string, v: Value) => StrOf(v, repr)
  }

  /**
   * The variables a document offers: its own keys, then the keys of its file information, which
   * win on a clash.
   */
  function PicoVars(doc: DocumentIo.Document): map<string, Value>
  {
    DocumentIo.DocumentDict(doc) + DocumentIo.FileInfoDict(doc.fileinfo)
  }

  /** Every key of the document and of its file information is a variable; the file information wins a clash. */
  lemma PicoVarsMerge(doc: DocumentIo.Document)
    ensures var vars, d, f := PicoVars(doc), DocumentIo.DocumentDict(doc), DocumentIo.FileInfoDict(doc.fileinfo);
      && vars.Keys == d.Keys + f.Keys
      && (forall k :: k in f ==> vars[k] == f[k])
      && (forall k :: k in d && k !in f ==> vars[k] == d[k])
  {
  }

  /** The document's metadata is offered under `meta`: the file information has no such key. */
  lemma PicoVarsMetaEntry(doc: DocumentIo.Document)
    ensures "meta" in PicoVars(doc) && PicoVars(doc)["meta"] == doc.meta
  {
    assert "meta" !in DocumentIo.FileInfoDict(doc.fileinfo);
  }

  /** `%meta.<key>%` in a document resolves to that key of its metadata. */
  lemma PicoVarsMeta(doc: DocumentIo.Document, key: string)
    requires '.' !in key
    requires doc.meta.Mapping? && key in doc.meta.entries
    ensures GetAttrsStringValue(Mapping(PicoVars(doc)), "meta." + key, None) == Ok(doc.meta.entries[key])
  {
    var vars := Mapping(PicoVars(doc));
    PicoVarsMetaEntry(doc);
    assert "meta." + key == "meta" + "." + key;
    GetAttrsStringValueDotted(vars, "meta", key, None);
    GetAttrsStringValueKey(doc.meta, key, None);
  }

  /** The document with its content replaced by a substitution's result, or the substitution's error. */
  function WithContent(doc: DocumentIo.Document, substituted: Result<string, PicoError>): (r: Result<DocumentIo.Document, PicoError>)
    ensures r.Ok? <==> substituted.Ok?
    ensures r.Ok? ==> r.value == doc.(content := substituted.value)
    ensures r.Err? ==> r.error == substituted.error
  {
    match substituted
    case Ok(c) => Ok(doc.(content := c))
    case Err(e) => Err(e)
  }

  /**
   * What `document_substitute_pico_vars` computes when the placeholders are taken in `order`: the
   * loop under `"print"` with the variables `vars`, its result put back into the document.
   */
  function DocumentSubstitution(doc: DocumentIo.Document, order: seq<string>, vars: Value,
                                format: (string, Value) -> string): Result<DocumentIo.Document, PicoError>
  {
    WithContent(doc, SubstituteOrdered(doc.content, order, Resolver(vars), "print", format))
  }

  /** Substituting into a document only ever lets an AttributeError out. */
  lemma DocumentSubstitutionFailsOnlyOnAttribute(doc: DocumentIo.Document, order: seq<string>, vars: Value,
                                                 format: (string, Value) -> string)
    ensures var r := DocumentSubstitution(doc, order, vars, format);
      r.Err? ==> r.error.AttributeError?
  {
    var substituted := SubstituteOrdered(doc.content, order, Resolver(vars), "print", format);
    SubstituteTolerantFailsOnlyOnAttribute(doc.content, order, vars, "print", format);
  }

  /** A document without placeholders, where the loop has nothing to iterate over, comes back as it was. */
  lemma DocumentSubstitutionWithoutPlaceholders(doc: DocumentIo.Document, vars: Value, format: (string, Value) -> string)
    ensures DocumentSubstitution(doc, [], vars, format) == Ok(doc)
  {
  }

  /**
   * Substitution into the content of a document under `"print"`, stated for any variables `vars`
   * so that what it promises does not depend on how the document's own variables are built;
   * DocumentSubstitutePicoVars calls it with those.
   */
  method SubstituteIntoDocument(doc: DocumentIo.Document, vars: Value, format: (string, Value) -> string)
    returns (r: Result<DocumentIo.Document, PicoError>, ghost order: seq<string>)
    ensures Enumerates(order, PicoFindVariablePlaceholders(doc.content))
    ensures !HasPlaceholder(doc.content) ==> order == []
    ensures r == DocumentSubstitution(doc, order, vars, format)
  {
    var substituted;
    substituted, order := SubstitutePicoVariables(doc.content, vars, "print", format);
    r := WithContent(doc, substituted);
  }

  /**
   * `document_substitute_pico_vars`: substitution under `"print"` with the document's variables
   * and the default format, over the placeholders in the iteration order `order`. By WithContent
   * only the content changes, by DocumentSubstitutionFailsOnlyOnAttribute only an AttributeError
   * escapes, and by DocumentSubstitutionWithoutPlaceholders a document without placeholders comes
   * back unchanged; PicoVarsMeta says what the variables hold.
   */
  method DocumentSubstitutePicoVars(doc: DocumentIo.Document, repr: Value -> string)
    returns (r: Result<DocumentIo.Document, PicoError>, ghost order: seq<string>)
    ensures Enumerates(order, PicoFindVariablePlaceholders(doc.content))
    ensures !HasPlaceholder(doc.content) ==> order == []
    ensures r == DocumentSubstitution(doc, order, Mapping(PicoVars(doc)), DefaultFormat(repr))
  {
    r, order := SubstituteIntoDocument(doc, Mapping(PicoVars(doc)), DefaultFormat(repr));
  }
}
