/**
 * The front-matter header of a page: splitting the raw text into lines,
 * choosing the attribute lines and the body lines, splitting one attribute
 * line into name and value, classifying the name, and applying the lines
 * one after the other to the page's fields.
 */
module Header {

  import opened Wrappers
  import opened Text
  import opened Trees

  const Separator: string := "---"
  const EndOfLine: seq<string> := ["\r", "\n", "\r\n"]
  /** The attribute separator array `{":"}`: its one entry is a single character. */
  const AttributeSeparator: char := ':'

  const TitleAttribute: seq<string> := ["Title"]
  const UrlAttribute: seq<string> := ["Url"]
  const TemplateTypeAttribute: seq<string> := ["TemplateType"]
  const TemplateIdAttribute: seq<string> := ["TemplateId", "Template", "LayoutId", "Layout"]
  /** The path separator array `{"."}`: its one entry is a single character. */
  const PrefixSeparator: char := '.'

  const CustomPrefix: seq<string> := ["Custom"]
  const ModelPrefix: seq<string> := ["Model"]

  // ---------------------------------------------------------------- lines

  /** `ContentRaw.Split(END_OF_LINE, None)`. */
  function SplitLines(raw: string): seq<string> {
    SplitOnStrings(raw, EndOfLine)
  }

  /**
   * With "\r" listed before "\r\n", the two-character terminator never wins:
   * the lines are the split on the single characters '\r' and '\n', so a
   * CRLF pair ends one line and leaves an empty one behind it.
   */
  lemma {:induction false} SplitLinesOnChars(raw: string)
    ensures SplitLines(raw) == Split(raw, {'\r', '\n'})
    decreases |raw|
  {
    if raw != [] {
      assert FirstMatch(raw, EndOfLine) == if raw[0] in {'\r', '\n'} then Some(1) else None;
      SplitLinesOnChars(raw[1..]);
    }
  }

  /** A split on the one-character array `[[c]]` is the split on `c`. */
  lemma {:induction false} SplitOnOneChar(s: string, c: char)
    ensures SplitOnStrings(s, [[c]]) == Split(s, {c})
    decreases |s|
  {
    if s != [] {
      assert FirstMatch(s, [[c]]) == if s[0] == c then Some(1) else None;
      SplitOnOneChar(s[1..], c);
    }
  }

  /** `lines.Select(x => x.Trim())`. */
  function TrimAll(lines: seq<string>): (r: seq<string>) {
    seq(|lines|, i requires 0 <= i < |lines| => Trim(lines[i]))
  }

  /** `TakeWhile(x => !stop.Equals(x))`. */
  function TakeWhileNot<T(==)>(s: seq<T>, stop: T): seq<T> {
    if s == [] || s[0] == stop then [] else [s[0]] + TakeWhileNot(s[1..], stop)
  }

  /** `SkipWhile(x => !stop.Equals(x))`. */
  function SkipWhileNot<T(==)>(s: seq<T>, stop: T): seq<T> {
    if s == [] || s[0] == stop then s else SkipWhileNot(s[1..], stop)
  }

  /** The index of the first element equal to `x`, or |s| when there is none. */
  function IndexOf<T(==)>(s: seq<T>, x: T): (i: nat)
    ensures i <= |s| && (i < |s| ==> s[i] == x)
    ensures forall k :: 0 <= k < i ==> s[k] != x
  {
    if s == [] || s[0] == x then 0 else 1 + IndexOf(s[1..], x)
  }

  lemma {:induction false} TakeWhileNotIsPrefix<T>(s: seq<T>, stop: T)
    ensures TakeWhileNot(s, stop) == s[..IndexOf(s, stop)]
  {
    if s != [] && s[0] != stop {
      TakeWhileNotIsPrefix(s[1..], stop);
    }
  }

  lemma {:induction false} SkipWhileNotIsSuffix<T>(s: seq<T>, stop: T)
    ensures SkipWhileNot(s, stop) == s[IndexOf(s, stop)..]
  {
    if s != [] && s[0] != stop {
      SkipWhileNotIsSuffix(s[1..], stop);
    }
  }

  /** The attribute lines: trimmed, up to the first trimmed separator, blank ones dropped. */
  function HeaderLines(lines: seq<string>): seq<string> {
    RemoveEmpty(TakeWhileNot(TrimAll(lines), Separator))
  }

  /** The body lines: `lines.SkipWhile(x => !SEPARATOR.Equals(x)).Skip(1)`, untrimmed. */
  function BodyLines(lines: seq<string>): seq<string> {
    var rest := SkipWhileNot(lines, Separator);
    if rest == [] then [] else rest[1..]
  }

  /** The index of the line that ends the header: the first whose trimmed form is the separator. */
  function HeaderEnd(lines: seq<string>): nat {
    IndexOf(TrimAll(lines), Separator)
  }

  /**
   * The attribute lines are exactly the trimmed, non-empty lines before the
   * header's end, in order; nothing from that line on is looked at.
   */
  lemma {:induction false} HeaderLinesBeforeSeparator(lines: seq<string>)
    ensures var k := HeaderEnd(lines);
            && k <= |lines|
            && (forall i :: 0 <= i < k ==> Trim(lines[i]) != Separator)
            && (k < |lines| ==> Trim(lines[k]) == Separator)
            && HeaderLines(lines) == RemoveEmpty(TrimAll(lines[..k]))
            && (forall x :: x in HeaderLines(lines) <==> exists i :: 0 <= i < k && Trim(lines[i]) == x && x != "")
  {
    var t := TrimAll(lines);
    var k := HeaderEnd(lines);
    forall i | 0 <= i < k ensures Trim(lines[i]) != Separator { assert t[i] == Trim(lines[i]); }
    if k < |lines| { assert t[k] == Trim(lines[k]); }
    TakeWhileNotIsPrefix(t, Separator);
    forall i | 0 <= i < k ensures t[..k][i] == TrimAll(lines[..k])[i] { assert lines[..k][i] == lines[i]; }
    assert t[..k] == TrimAll(lines[..k]);
    NonEmptyTrimmed(lines, k);
  }

  lemma {:induction false} NonEmptyTrimmed(lines: seq<string>, k: nat)
    requires k <= |lines|
    ensures forall x :: x in RemoveEmpty(TrimAll(lines[..k])) <==> exists i :: 0 <= i < k && Trim(lines[i]) == x && x != ""
  {
    var t := TrimAll(lines[..k]);
    forall x ensures x in t <==> exists i :: 0 <= i < k && Trim(lines[i]) == x {
      TrimmedMember(lines, k, x);
    }
  }

  lemma {:induction false} TrimmedMember(lines: seq<string>, k: nat, x: string)
    requires k <= |lines|
    ensures x in TrimAll(lines[..k]) <==> exists i :: 0 <= i < k && Trim(lines[i]) == x
  {
    var t := TrimAll(lines[..k]);
    if x in t {
      var i :| 0 <= i < k && t[i] == x;
      assert lines[..k][i] == lines[i];
    }
    if exists i :: 0 <= i < k && Trim(lines[i]) == x {
      var i :| 0 <= i < k && Trim(lines[i]) == x;
      assert lines[..k][i] == lines[i];
      assert t[i] == x;
    }
  }

  /** Whatever follows the line that ends the header does not change the attribute lines. */
  lemma {:induction false} HeaderIgnoresTail(lines: seq<string>, tail: seq<string>)
    requires HeaderEnd(lines) < |lines|
    ensures HeaderLines(lines[..HeaderEnd(lines) + 1] + tail) == HeaderLines(lines)
  {
    var k := HeaderEnd(lines);
    var m := lines[..k + 1] + tail;
    assert m[..k + 1] == lines[..k + 1];
    SamePrefixSameHeader(m, lines, k);
  }

  /** Line lists that agree up to and including the header's end have the same attribute lines. */
  lemma SamePrefixSameHeader(a: seq<string>, b: seq<string>, k: nat)
    requires k < |a| && k < |b| && a[..k + 1] == b[..k + 1] && HeaderEnd(b) == k
    ensures HeaderLines(a) == HeaderLines(b)
  {
    var ta, tb := TrimAll(a), TrimAll(b);
    TrimAllSamePrefix(a, b, k + 1);
    TakeWhileNotSamePrefix(ta, tb, k, Separator);
  }

  /** Lines that agree on a prefix agree on it once trimmed. */
  lemma TrimAllSamePrefix(a: seq<string>, b: seq<string>, n: nat)
    requires n <= |a| && n <= |b| && a[..n] == b[..n]
    ensures TrimAll(a)[..n] == TrimAll(b)[..n]
  {
    forall i | 0 <= i < n ensures TrimAll(a)[i] == TrimAll(b)[i] {
      assert a[i] == a[..n][i] && b[i] == b[..n][i];
    }
  }

  /** Two sequences that agree up to and including the first `x` of one also agree on what comes before it. */
  lemma {:induction false} TakeWhileNotSamePrefix<T>(s: seq<T>, t: seq<T>, k: nat, x: T)
    requires k < |s| && k < |t| && s[..k + 1] == t[..k + 1] && IndexOf(t, x) == k
    ensures IndexOf(s, x) == k && TakeWhileNot(s, x) == TakeWhileNot(t, x)
  {
    assert s[k] == t[k];
    forall i | 0 <= i < k ensures s[i] != x { assert s[i] == t[..k + 1][i]; }
    TakeWhileNotIsPrefix(s, x);
    TakeWhileNotIsPrefix(t, x);
    assert s[..k] == t[..k];
  }

  /**
   * The body is what follows the first line that is exactly the separator,
   * untrimmed; with no such line there is no body.
   */
  lemma {:induction false} BodyLinesAfterSeparator(lines: seq<string>)
    ensures var j := IndexOf(lines, Separator);
            BodyLines(lines) == if j < |lines| then lines[j + 1..] else []
  {
    SkipWhileNotIsSuffix(lines, Separator);
  }

  /**
   * A line that is exactly the separator is also one once trimmed, so the
   * header never ends after the body begins; a padded separator line ends
   * the header without starting the body.
   */
  lemma {:induction false} HeaderEndsNoLaterThanBody(lines: seq<string>)
    ensures HeaderEnd(lines) <= IndexOf(lines, Separator)
  {
    var j := IndexOf(lines, Separator);
    if j < |lines| {
      TrimUnpadded(Separator);
      assert TrimAll(lines)[j] == Separator;
    }
  }

  /**
   * A padded separator line (one that is the separator only once trimmed)
   * ends the header but does not start the body.
   */
  lemma PaddedSeparator(line: string, after: seq<string>)
    requires Trim(line) == Separator && line != Separator
    ensures HeaderLines([line] + after) == []
    ensures BodyLines([line] + after) == BodyLines(after)
  {
    assert TrimAll([line] + after)[0] == Separator;
    assert ([line] + after)[1..] == after;
  }

  // ------------------------------------------------------- attribute line

  /**
   * `line.Split(ATTRIBUTE_SEPARATORS)`, trimmed pieces 0 and 1: a line with
   * no ':' has no piece 1 and fails.
   */
  function SplitAttribute(line: string): Result<(string, string), Error> {
    var attribute := Split(line, {AttributeSeparator});
    if |attribute| < 2 then Failure(MalformedLine(line))
    else Success((Trim(attribute[0]), Trim(attribute[1])))
  }

  /**
   * The name is the trimmed text before the first ':' and the value the
   * trimmed text between the first and the second ':' (or the end); a line
   * without ':' is malformed.
   */
  lemma {:induction false} AttributeNameAndValue(line: string)
    ensures var i := FirstIndex(line, {':'});
            && (SplitAttribute(line).Failure? <==> i == |line|)
            && (SplitAttribute(line).Failure? ==> SplitAttribute(line).error == MalformedLine(line))
            && (i < |line| ==>
                  var rest := line[i + 1..];
                  SplitAttribute(line) == Success((Trim(line[..i]), Trim(rest[..FirstIndex(rest, {':'})]))))
  {
    var i := FirstIndex(line, {':'});
    SplitOnOneChar(line, ':');
    SplitHead(line, {':'});
    SplitTail(line, {':'});
    if i < |line| {
      var rest := line[i + 1..];
      SplitHead(rest, {':'});
      assert Split(line, {':'})[1] == Split(line, {':'})[1..][0];
    }
  }

  /**
   * Whatever follows a second ':' is dropped: a value holding a URL such as
   * `http://example.com` keeps only `http`.
   */
  lemma {:induction false} ValueEndsAtSecondColon(name: string, v: string, rest: string)
    requires FreeOf(name, {':'}) && FreeOf(v, {':'})
    ensures SplitAttribute(name + [':'] + v + [':'] + rest) == Success((Trim(name), Trim(v)))
  {
    var tail := v + [':'] + rest;
    var line := name + [':'] + v + [':'] + rest;
    assert line == name + [':'] + tail;
    SplitAfterSegment(name, ':', tail);
    SplitAfterSegment(v, ':', rest);
    var parts := Split(line, {AttributeSeparator});
    assert parts == [name] + ([v] + Split(rest, {':'}));
    assert parts[0] == name && parts[1] == v;
  }

  /** What a trimmed attribute name addresses, in the order the source tests. */
  datatype AttributeKind =
    | TitleKind
    | UrlKind
    | TemplateTypeKind
    | TemplateIdKind
    | CustomPath(path: seq<string>)
    | ModelPath(path: seq<string>)
    | BadNamespace
    | Unknown

  /** The path segments of a dotted name: the split on '.' without empty segments. */
  function Segments(name: string): seq<string> {
    RemoveEmpty(Split(name, {PrefixSeparator}))
  }

  function Classify(name: string): (k: AttributeKind)
    ensures k.CustomPath? || k.ModelPath? ==> k.path != []
  {
    if AnyEqualsIgnoreCase(TitleAttribute, name) then TitleKind
    else if AnyEqualsIgnoreCase(UrlAttribute, name) then UrlKind
    else if AnyEqualsIgnoreCase(TemplateTypeAttribute, name) then TemplateTypeKind
    else if AnyEqualsIgnoreCase(TemplateIdAttribute, name) then TemplateIdKind
    else if PrefixSeparator in name then
      var segs := Segments(name);
      if |segs| >= 2 && AnyEqualsIgnoreCase(CustomPrefix, segs[0]) then CustomPath(segs[1..])
      else if |segs| >= 2 && AnyEqualsIgnoreCase(ModelPrefix, segs[0]) then ModelPath(segs[1..])
      else BadNamespace
    else Unknown
  }

  lemma {:induction false} EqualsIgnoreCaseLength(a: string, b: string)
    requires EqualsIgnoreCase(a, b)
    ensures |a| == |b|
  {
    EqualsIgnoreCaseIff(a, b);
  }

  /**
   * The fixed names: `Title`, `Url`, `TemplateType` and the four template id
   * aliases, each recognised in any letter case; the aliases all select the
   * template id.
   */
  lemma {:induction false} FixedNames(name: string)
    ensures Classify(name) == TitleKind <==> EqualsIgnoreCase("Title", name)
    ensures Classify(name) == UrlKind <==> EqualsIgnoreCase("Url", name)
    ensures Classify(name) == TemplateTypeKind <==> EqualsIgnoreCase("TemplateType", name)
    ensures Classify(name) == TemplateIdKind <==>
              EqualsIgnoreCase("TemplateId", name) || EqualsIgnoreCase("Template", name)
              || EqualsIgnoreCase("LayoutId", name) || EqualsIgnoreCase("Layout", name)
  {
    assert AnyEqualsIgnoreCase(TitleAttribute, name) <==> EqualsIgnoreCase("Title", name) by {
      AnyEqualsIgnoreCaseIff(TitleAttribute, name);
      assert TitleAttribute[0] == "Title";
    }
    assert AnyEqualsIgnoreCase(UrlAttribute, name) <==> EqualsIgnoreCase("Url", name) by {
      AnyEqualsIgnoreCaseIff(UrlAttribute, name);
      assert UrlAttribute[0] == "Url";
    }
    assert AnyEqualsIgnoreCase(TemplateTypeAttribute, name) <==> EqualsIgnoreCase("TemplateType", name) by {
      AnyEqualsIgnoreCaseIff(TemplateTypeAttribute, name);
      assert TemplateTypeAttribute[0] == "TemplateType";
    }
    assert AnyEqualsIgnoreCase(TemplateIdAttribute, name) <==>
             EqualsIgnoreCase("TemplateId", name) || EqualsIgnoreCase("Template", name)
             || EqualsIgnoreCase("LayoutId", name) || EqualsIgnoreCase("Layout", name) by {
      AnyEqualsIgnoreCaseIff(TemplateIdAttribute, name);
      assert TemplateIdAttribute == ["TemplateId", "Template", "LayoutId", "Layout"];
      if EqualsIgnoreCase("TemplateId", name) { assert EqualsIgnoreCase(TemplateIdAttribute[0], name); }
      if EqualsIgnoreCase("Template", name) { assert EqualsIgnoreCase(TemplateIdAttribute[1], name); }
      if EqualsIgnoreCase("LayoutId", name) { assert EqualsIgnoreCase(TemplateIdAttribute[2], name); }
      if EqualsIgnoreCase("Layout", name) { assert EqualsIgnoreCase(TemplateIdAttribute[3], name); }
    }
    // the fixed names have pairwise different lengths or spellings, so no name is two of them
    if EqualsIgnoreCase("Title", name) { EqualsIgnoreCaseLength("Title", name); }
    if EqualsIgnoreCase("Url", name) { EqualsIgnoreCaseLength("Url", name); }
    if EqualsIgnoreCase("TemplateType", name) { EqualsIgnoreCaseLength("TemplateType", name); }
    if EqualsIgnoreCase("TemplateId", name) { EqualsIgnoreCaseLength("TemplateId", name); }
    if EqualsIgnoreCase("Template", name) { EqualsIgnoreCaseLength("Template", name); }
    if EqualsIgnoreCase("LayoutId", name) { EqualsIgnoreCaseLength("LayoutId", name); }
    if EqualsIgnoreCase("Layout", name) { EqualsIgnoreCaseLength("Layout", name); }
  }

  /**
   * The dotted names: the name has to contain a '.', and its non-empty
   * segments, at least two of them, have to start with `Custom` or `Model` in
   * any letter case; the rest of the segments is the path. Any other dotted
   * name is an unknown namespace, an undotted name matching no fixed name an
   * unknown attribute.
   */
  lemma {:induction false} DottedNames(name: string)
    ensures Classify(name).CustomPath? || Classify(name).ModelPath? ==>
              && '.' in name
              && |Classify(name).path| >= 1
              && Classify(name).path == Segments(name)[1..]
              && (forall i :: 0 <= i < |Classify(name).path| ==> Classify(name).path[i] != "" && FreeOf(Classify(name).path[i], {'.'}))
    ensures Classify(name).CustomPath? ==> EqualsIgnoreCase("Custom", Segments(name)[0])
    ensures Classify(name).ModelPath? ==> EqualsIgnoreCase("Model", Segments(name)[0])
                                          && !EqualsIgnoreCase("Custom", Segments(name)[0])
    ensures Classify(name) == BadNamespace ==>
              '.' in name && (|Segments(name)| < 2 || !(EqualsIgnoreCase("Custom", Segments(name)[0]) || EqualsIgnoreCase("Model", Segments(name)[0])))
    ensures Classify(name) == Unknown <==>
              '.' !in name && !EqualsIgnoreCase("Title", name) && !EqualsIgnoreCase("Url", name)
              && !EqualsIgnoreCase("TemplateType", name) && !AnyEqualsIgnoreCase(TemplateIdAttribute, name)
  {
    FixedNames(name);
    var segs := Segments(name);
    if |segs| >= 1 {
      AnyEqualsIgnoreCaseIff(CustomPrefix, segs[0]);
      AnyEqualsIgnoreCaseIff(ModelPrefix, segs[0]);
    }
    assert CustomPrefix[0] == "Custom" && ModelPrefix[0] == "Model";
    SplitPartsFree(name, {'.'});
    forall i | 0 <= i < |segs| ensures segs[i] != "" && FreeOf(segs[i], {'.'}) {
      assert segs[i] in Split(name, {'.'});
    }
    if |segs| >= 1 && EqualsIgnoreCase("Model", segs[0]) { EqualsIgnoreCaseLength("Model", segs[0]); }
    assert TemplateIdAttribute == ["TemplateId", "Template", "LayoutId", "Layout"];
  }

  /** Fixed names are matched ignoring case: names that differ only in case select the same field. */
  lemma {:induction false} FixedNamesIgnoreCase(name: string, other: string)
    requires EqualsIgnoreCase(name, other)
    requires Classify(name) in {TitleKind, UrlKind, TemplateTypeKind, TemplateIdKind}
    ensures Classify(other) == Classify(name)
  {
    FixedNames(name);
    FixedNames(other);
    SameUpToCase("Title", name, other);
    SameUpToCase("Url", name, other);
    SameUpToCase("TemplateType", name, other);
    SameUpToCase("TemplateId", name, other);
    SameUpToCase("Template", name, other);
    SameUpToCase("LayoutId", name, other);
    SameUpToCase("Layout", name, other);
  }

  lemma {:induction false} SameUpToCase(c: string, a: string, b: string)
    requires EqualsIgnoreCase(a, b)
    ensures EqualsIgnoreCase(c, a) <==> EqualsIgnoreCase(c, b)
  {
    EqualsIgnoreCaseIff(a, b);
    EqualsIgnoreCaseIff(c, a);
    EqualsIgnoreCaseIff(c, b);
  }

  /**
   * `Enum.TryParse(value, true, out type)` against the member names of the
   * TemplateType enumeration: the first member equal to `value` ignoring case.
   */
  function ParseTemplateType(value: string, members: seq<string>): (r: Option<string>)
    ensures r.Some? ==> r.value in members && EqualsIgnoreCase(r.value, value)
    ensures r.None? <==> forall i :: 0 <= i < |members| ==> !EqualsIgnoreCase(members[i], value)
  {
    if members == [] then None
    else if EqualsIgnoreCase(members[0], value) then Some(members[0])
    else
      var r := ParseTemplateType(value, members[1..]);
      assert forall i :: 1 <= i < |members| ==> members[i] == members[1..][i - 1];
      r
  }

  // ------------------------------------------------------------- header fold

  /** The page fields the header lines set. */
  datatype Fields = Fields(
    title: Option<string>,
    url: Option<string>,
    templateType: Option<string>,
    templateId: Option<string>,
    custom: seq<Entry>,
    model: seq<Entry>)

  /** One attribute line applied to the fields; a failing line changes nothing. */
  function ApplyLine(f: Fields, line: string, members: seq<string>): Result<Fields, Error> {
    match SplitAttribute(line)
    case Failure(e) => Failure(e)
    case Success((name, value)) => ApplyAttribute(f, Classify(name), name, value, members)
  }

  /** The attribute `name`, classified as `kind`, set to `value`. */
  function ApplyAttribute(f: Fields, kind: AttributeKind, name: string, value: string, members: seq<string>): Result<Fields, Error>
    requires kind.CustomPath? || kind.ModelPath? ==> kind.path != []
  {
    match kind
    case TitleKind => Success(f.(title := Some(value)))
    case UrlKind => Success(f.(url := Some(value)))
    case TemplateTypeKind =>
      (match ParseTemplateType(value, members)
       case Some(t) => Success(f.(templateType := Some(t)))
       case None => Failure(InvalidTemplateType(value)))
    case TemplateIdKind => Success(f.(templateId := Some(value)))
    case CustomPath(path) =>
      (match Insert(f.custom, path, value)
       case Success(c) => Success(f.(custom := c))
       case Failure(e) => Failure(e))
    case ModelPath(path) =>
      (match Insert(f.model, path, value)
       case Success(m) => Success(f.(model := m))
       case Failure(e) => Failure(e))
    case BadNamespace => Failure(UnknownNamespace(name))
    case Unknown => Failure(UnknownAttribute(name))
  }

  /** A line that splits into `name` and `value` is applied by what `name` addresses. */
  lemma ApplyLineSplit(f: Fields, line: string, members: seq<string>, name: string, value: string)
    requires SplitAttribute(line) == Success((name, value))
    ensures ApplyLine(f, line, members) == ApplyAttribute(f, Classify(name), name, value, members)
  {
  }

  // ApplyAttribute on the kind of `name`, one lemma per branch of the name
  // test, in the order the branches are tried.

  lemma ApplyTitleBranch(f: Fields, name: string, value: string, members: seq<string>)
    requires AnyEqualsIgnoreCase(TitleAttribute, name)
    ensures ApplyAttribute(f, Classify(name), name, value, members) == Success(f.(title := Some(value)))
  {
  }

  lemma ApplyUrlBranch(f: Fields, name: string, value: string, members: seq<string>)
    requires !AnyEqualsIgnoreCase(TitleAttribute, name) && AnyEqualsIgnoreCase(UrlAttribute, name)
    ensures ApplyAttribute(f, Classify(name), name, value, members) == Success(f.(url := Some(value)))
  {
  }

  lemma ApplyTemplateTypeBranch(f: Fields, name: string, value: string, members: seq<string>)
    requires !AnyEqualsIgnoreCase(TitleAttribute, name) && !AnyEqualsIgnoreCase(UrlAttribute, name)
    requires AnyEqualsIgnoreCase(TemplateTypeAttribute, name)
    ensures ApplyAttribute(f, Classify(name), name, value, members) ==
              match ParseTemplateType(value, members)
              case Some(t) => Success(f.(templateType := Some(t)))
              case None => Failure(InvalidTemplateType(value))
  {
  }

  lemma ApplyTemplateIdBranch(f: Fields, name: string, value: string, members: seq<string>)
    requires !AnyEqualsIgnoreCase(TitleAttribute, name) && !AnyEqualsIgnoreCase(UrlAttribute, name)
    requires !AnyEqualsIgnoreCase(TemplateTypeAttribute, name) && AnyEqualsIgnoreCase(TemplateIdAttribute, name)
    ensures ApplyAttribute(f, Classify(name), name, value, members) == Success(f.(templateId := Some(value)))
  {
  }

  /** None of the fixed names. */
  predicate NotFixed(name: string) {
    && !AnyEqualsIgnoreCase(TitleAttribute, name) && !AnyEqualsIgnoreCase(UrlAttribute, name)
    && !AnyEqualsIgnoreCase(TemplateTypeAttribute, name) && !AnyEqualsIgnoreCase(TemplateIdAttribute, name)
  }

  lemma ApplyCustomBranch(f: Fields, name: string, value: string, members: seq<string>)
    requires NotFixed(name) && PrefixSeparator in name
    requires |Segments(name)| >= 2 && AnyEqualsIgnoreCase(CustomPrefix, Segments(name)[0])
    ensures ApplyAttribute(f, Classify(name), name, value, members) ==
              match Insert(f.custom, Segments(name)[1..], value)
              case Success(c) => Success(f.(custom := c))
              case Failure(e) => Failure(e)
  {
  }

  lemma ApplyModelBranch(f: Fields, name: string, value: string, members: seq<string>)
    requires NotFixed(name) && PrefixSeparator in name
    requires !(|Segments(name)| >= 2 && AnyEqualsIgnoreCase(CustomPrefix, Segments(name)[0]))
    requires |Segments(name)| >= 2 && AnyEqualsIgnoreCase(ModelPrefix, Segments(name)[0])
    ensures ApplyAttribute(f, Classify(name), name, value, members) ==
              match Insert(f.model, Segments(name)[1..], value)
              case Success(m) => Success(f.(model := m))
              case Failure(e) => Failure(e)
  {
  }

  lemma ApplyBadNamespaceBranch(f: Fields, name: string, value: string, members: seq<string>)
    requires NotFixed(name) && PrefixSeparator in name
    requires !(|Segments(name)| >= 2 && AnyEqualsIgnoreCase(CustomPrefix, Segments(name)[0]))
    requires !(|Segments(name)| >= 2 && AnyEqualsIgnoreCase(ModelPrefix, Segments(name)[0]))
    ensures ApplyAttribute(f, Classify(name), name, value, members) == Failure(UnknownNamespace(name))
  {
  }

  lemma ApplyUnknownBranch(f: Fields, name: string, value: string, members: seq<string>)
    requires NotFixed(name) && PrefixSeparator !in name
    ensures ApplyAttribute(f, Classify(name), name, value, members) == Failure(UnknownAttribute(name))
  {
  }

  /**
   * A TemplateType line fails exactly when its value names no member of the
   * enumeration, ignoring case; otherwise it sets the template type to that
   * member and nothing else.
   */
  lemma TemplateTypeLine(f: Fields, line: string, members: seq<string>, name: string, value: string)
    requires SplitAttribute(line) == Success((name, value)) && Classify(name) == TemplateTypeKind
    ensures ApplyLine(f, line, members).Failure? <==>
              forall i :: 0 <= i < |members| ==> !EqualsIgnoreCase(members[i], value)
    ensures ApplyLine(f, line, members).Failure? ==> ApplyLine(f, line, members).error == InvalidTemplateType(value)
    ensures ApplyLine(f, line, members).Success? ==>
              var t := ApplyLine(f, line, members).value.templateType;
              && t.Some? && t.value in members && EqualsIgnoreCase(t.value, value)
              && ApplyLine(f, line, members).value == f.(templateType := t)
  {
    var r := ApplyLine(f, line, members);
    ApplyLineSplit(f, line, members, name, value);
    assert r == ApplyAttribute(f, TemplateTypeKind, name, value, members);
    TemplateTypeValue(f, name, value, members);
  }

  lemma TemplateTypeValue(f: Fields, name: string, value: string, members: seq<string>)
    ensures var r := ApplyAttribute(f, TemplateTypeKind, name, value, members);
            && (r.Failure? <==> forall i :: 0 <= i < |members| ==> !EqualsIgnoreCase(members[i], value))
            && (r.Failure? ==> r.error == InvalidTemplateType(value))
            && (r.Success? ==>
                  var t := r.value.templateType;
                  && t.Some? && t.value in members && EqualsIgnoreCase(t.value, value)
                  && r.value == f.(templateType := t))
  {
  }

  /**
   * The attribute lines applied in order; the first failing line stops the
   * scan, and what the earlier lines set stays set.
   */
  function ApplyLines(f: Fields, lines: seq<string>, members: seq<string>): (Fields, Option<Error>)
    decreases lines
  {
    if lines == [] then (f, None)
    else
      match ApplyLine(f, lines[0], members)
      case Failure(e) => (f, Some(e))
      case Success(f') => ApplyLines(f', lines[1..], members)
  }

  /** Applying the lines from index `i` on: line `i`, then, unless it failed, the ones after it. */
  lemma ApplyLinesFrom(f: Fields, lines: seq<string>, i: nat, members: seq<string>)
    requires i < |lines|
    ensures ApplyLines(f, lines[i..], members) ==
              match ApplyLine(f, lines[i], members)
              case Failure(e) => (f, Some(e))
              case Success(g) => ApplyLines(g, lines[i + 1..], members)
  {
    assert lines[i..][0] == lines[i] && lines[i..][1..] == lines[i + 1..];
  }

  /** Applying `a + b` is applying `a`, then, unless it failed, `b`. */
  lemma {:induction false} ApplyLinesAppend(f: Fields, a: seq<string>, b: seq<string>, members: seq<string>)
    ensures ApplyLines(f, a + b, members) ==
              var (f', e) := ApplyLines(f, a, members);
              if e.Some? then (f', e) else ApplyLines(f', b, members)
    decreases a
  {
    if a == [] {
      assert a + b == b;
    } else {
      assert (a + b)[0] == a[0] && (a + b)[1..] == a[1..] + b;
      match ApplyLine(f, a[0], members) {
        case Failure(e) =>
        case Success(f') => ApplyLinesAppend(f', a[1..], b, members);
      }
    }
  }

  /** The line sets the title to `v`. */
  predicate SetsTitle(line: string, v: string) {
    IsTitleLine(line) && SplitAttribute(line).value.1 == v
  }

  /** The line addresses the title. */
  predicate IsTitleLine(line: string) {
    SplitAttribute(line).Success? && Classify(SplitAttribute(line).value.0) == TitleKind
  }

  /** A title line sets the title and nothing else. */
  lemma {:induction false} ApplyTitleLine(f: Fields, line: string, v: string, members: seq<string>)
    requires SetsTitle(line, v)
    ensures ApplyLine(f, line, members) == Success(f.(title := Some(v)))
  {
  }

  /** Any other accepted line leaves the title as it was. */
  lemma {:induction false} ApplyOtherLine(f: Fields, line: string, members: seq<string>)
    requires !IsTitleLine(line) && ApplyLine(f, line, members).Success?
    ensures ApplyLine(f, line, members).value.title == f.title
  {
  }

  /** None of the lines addresses the title. */
  predicate NoTitleLine(lines: seq<string>) {
    lines == [] || (!IsTitleLine(lines[0]) && NoTitleLine(lines[1..]))
  }

  /** Lines that do not name the title leave it as it was (the parser never resets it). */
  lemma {:induction false} TitleUntouched(f: Fields, lines: seq<string>, members: seq<string>)
    requires NoTitleLine(lines)
    ensures ApplyLines(f, lines, members).0.title == f.title
    decreases lines
  {
    if lines != [] && ApplyLine(f, lines[0], members).Success? {
      ApplyOtherLine(f, lines[0], members);
      TitleUntouched(ApplyLine(f, lines[0], members).value, lines[1..], members);
    }
  }

  /**
   * A repeated title: once the lines before the last title line are
   * accepted, that line decides the title, whether or not a later line fails.
   */
  lemma {:induction false} LastTitleWins(f: Fields, before: seq<string>, line: string, after: seq<string>, members: seq<string>, v: string)
    requires SetsTitle(line, v) && NoTitleLine(after)
    requires ApplyLines(f, before, members).1.None?
    ensures ApplyLines(f, before + ([line] + after), members).0.title == Some(v)
  {
    ApplyLinesAppend(f, before, [line] + after, members);
    var f1 := ApplyLines(f, before, members).0;
    ApplyTitleLine(f1, line, v, members);
    assert ([line] + after)[0] == line && ([line] + after)[1..] == after;
    TitleUntouched(f1.(title := Some(v)), after, members);
  }

  /** Every node of both trees keeps unique keys through an accepted attribute. */
  lemma ApplyAttributeWellFormed(f: Fields, name: string, value: string, members: seq<string>)
    requires WellFormed(Node(f.custom)) && WellFormed(Node(f.model))
    requires ApplyAttribute(f, Classify(name), name, value, members).Success?
    ensures WellFormed(Node(ApplyAttribute(f, Classify(name), name, value, members).value.custom))
    ensures WellFormed(Node(ApplyAttribute(f, Classify(name), name, value, members).value.model))
  {
    var k := Classify(name);
    if k.CustomPath? {
      InsertWellFormed(f.custom, k.path, value);
    } else if k.ModelPath? {
      InsertWellFormed(f.model, k.path, value);
    }
  }

  /** Every node of both trees keeps unique keys through an accepted line. */
  lemma ApplyLineWellFormed(f: Fields, line: string, members: seq<string>)
    requires WellFormed(Node(f.custom)) && WellFormed(Node(f.model))
    requires ApplyLine(f, line, members).Success?
    ensures WellFormed(Node(ApplyLine(f, line, members).value.custom))
    ensures WellFormed(Node(ApplyLine(f, line, members).value.model))
  {
    var (name, value) := SplitAttribute(line).value;
    ApplyLineSplit(f, line, members, name, value);
    ApplyAttributeWellFormed(f, name, value, members);
  }

  /** Every node of both trees keeps unique keys through any sequence of lines. */
  lemma {:induction false} ApplyLinesWellFormed(f: Fields, lines: seq<string>, members: seq<string>)
    requires WellFormed(Node(f.custom)) && WellFormed(Node(f.model))
    ensures WellFormed(Node(ApplyLines(f, lines, members).0.custom))
    ensures WellFormed(Node(ApplyLines(f, lines, members).0.model))
    decreases lines
  {
    if lines != [] {
      match ApplyLine(f, lines[0], members) {
        case Failure(e) =>
        case Success(f') =>
          ApplyLineWellFormed(f, lines[0], members);
          ApplyLinesWellFormed(f', lines[1..], members);
      }
    }
  }
}
