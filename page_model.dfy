/**
 * The page model: a page's raw text, the fields its front-matter header sets
 * and its body, parsed in place, and the resolution of its `Model` tree
 * against a data mapping.
 */
module PageModels {

  import opened Wrappers
  import opened Text
  import opened Trees
  import opened Header
  import opened Resolver

  /** The line terminator the body lines are joined with. */
  const ContentLineEnd: string := "\r\n"

  class PageModel {

    /** The page's raw text. */
    const ContentRaw: string
    /** The member names of the TemplateType enumeration. */
    const TemplateTypes: seq<string>

    var Title: Option<string>
    var Url: Option<string>
    var TemplateType: Option<string>
    var TemplateId: Option<string>
    /** The raw text after the separator line, null until a parse gets that far. */
    var Content: Option<string>
    /** The two attribute trees, null until a parse creates them. */
    var Custom: Option<seq<Entry>>
    var Model: Option<seq<Entry>>

    /** Both attribute trees exist. */
    predicate HasTrees()
      reads this
    {
      Custom.Some? && Model.Some?
    }

    /** The fields the header sets, as one value. */
    function HeaderFields(): Fields
      reads this
      requires HasTrees()
    {
      Fields(Title, Url, TemplateType, TemplateId, Custom.value, Model.value)
    }

    /** Every node of each attribute tree that exists has unique keys. */
    ghost predicate Valid()
      reads this
    {
      && (Custom.Some? ==> WellFormed(Node(Custom.value)))
      && (Model.Some? ==> WellFormed(Node(Model.value)))
    }

    constructor(raw: string, templateTypes: seq<string>)
      ensures ContentRaw == raw && TemplateTypes == templateTypes
      ensures Title.None? && Url.None? && TemplateType.None? && TemplateId.None? && Content.None?
      ensures Custom.None? && Model.None?
      ensures Valid()
    {
      ContentRaw := raw;
      TemplateTypes := templateTypes;
      Title := None;
      Url := None;
      TemplateType := None;
      TemplateId := None;
      Content := None;
      Custom := None;
      Model := None;
    }

    /**
     * Parses the raw text: empties the two trees, applies the attribute lines
     * in order and, when none failed, sets the content to the body lines
     * joined with CRLF. A failing line stops the parse and leaves the fields
     * as the earlier lines set them; the other fields are never reset.
     */
    method Parse() returns (err: Option<Error>)
      modifies this
      ensures HasTrees()
      ensures var lines := SplitLines(ContentRaw);
              var start := Fields(old(Title), old(Url), old(TemplateType), old(TemplateId), [], []);
              var (f, e) := ApplyLines(start, HeaderLines(lines), TemplateTypes);
              HeaderFields() == f && err == e
              && Content == (if e.None? then Some(Join(BodyLines(lines), ContentLineEnd)) else old(Content))
      ensures Valid()
    {
      Custom := Some([]);
      Model := Some([]);

      var lines := SplitLines(ContentRaw);
      var attributeLines := HeaderLines(lines);
      ghost var start := HeaderFields();
      var i := 0;
      while i < |attributeLines|
        invariant 0 <= i <= |attributeLines|
        invariant Content == old(Content)
        invariant HasTrees() && Valid()
        invariant ApplyLines(start, attributeLines, TemplateTypes) == ApplyLines(HeaderFields(), attributeLines[i..], TemplateTypes)
      {
        ghost var before := HeaderFields();
        ApplyLinesFrom(before, attributeLines, i, TemplateTypes);
        err := ParseAttributeLine(attributeLines[i]);
        if err.Some? {
          return;
        }
        ApplyLineWellFormed(before, attributeLines[i], TemplateTypes);
        i := i + 1;
      }
      assert attributeLines[i..] == [];

      var contentLines := BodyLines(lines);
      ParseContent(contentLines);
      err := None;
    }

    /**
     * Applies one attribute line. The name and the value are split off at the
     * first ':' and the name is tested against the fixed names, in order, and
     * then as a dotted path into `Custom` or `Model`. A failing line changes
     * nothing.
     */
    method ParseAttributeLine(line: string) returns (err: Option<Error>)
      modifies this`Title, this`Url, this`TemplateType, this`TemplateId, this`Custom, this`Model
      requires HasTrees()
      ensures HasTrees()
      ensures var r := ApplyLine(old(HeaderFields()), line, TemplateTypes);
              && (r.Success? ==> err.None? && HeaderFields() == r.value)
              && (r.Failure? ==> err == Some(r.error) && HeaderFields() == old(HeaderFields()))
    {
      var attribute := Split(line, {AttributeSeparator});
      if |attribute| < 2 {
        // `attribute[1]` is out of range
        return Some(MalformedLine(line));
      }
      var attributeName := Trim(attribute[0]);
      var attributeValue := Trim(attribute[1]);
      ghost var f := old(HeaderFields());
      ApplyLineSplit(f, line, TemplateTypes, attributeName, attributeValue);

      if AnyEqualsIgnoreCase(TitleAttribute, attributeName) {
        ApplyTitleBranch(f, attributeName, attributeValue, TemplateTypes);
        Title := Some(attributeValue);
        return None;
      }

      if AnyEqualsIgnoreCase(UrlAttribute, attributeName) {
        ApplyUrlBranch(f, attributeName, attributeValue, TemplateTypes);
        Url := Some(attributeValue);
        return None;
      }

      if AnyEqualsIgnoreCase(TemplateTypeAttribute, attributeName) {
        ApplyTemplateTypeBranch(f, attributeName, attributeValue, TemplateTypes);
        var t := ParseTemplateType(attributeValue, TemplateTypes);
        if t.Some? {
          TemplateType := t;
          return None;
        }
        return Some(InvalidTemplateType(attributeValue));
      }

      if AnyEqualsIgnoreCase(TemplateIdAttribute, attributeName) {
        ApplyTemplateIdBranch(f, attributeName, attributeValue, TemplateTypes);
        TemplateId := Some(attributeValue);
        return None;
      }

      if PrefixSeparator in attributeName {
        var names := Segments(attributeName);
        if |names| >= 2 && AnyEqualsIgnoreCase(CustomPrefix, names[0]) {
          ApplyCustomBranch(f, attributeName, attributeValue, TemplateTypes);
          var r := ParseCustomAttribute(Custom.value, names[1..], attributeValue);
          if r.Failure? {
            return Some(r.error);
          }
          Custom := Some(r.value);
        } else if |names| >= 2 && AnyEqualsIgnoreCase(ModelPrefix, names[0]) {
          ApplyModelBranch(f, attributeName, attributeValue, TemplateTypes);
          var r := ParseCustomAttribute(Model.value, names[1..], attributeValue);
          if r.Failure? {
            return Some(r.error);
          }
          Model := Some(r.value);
        } else {
          ApplyBadNamespaceBranch(f, attributeName, attributeValue, TemplateTypes);
          return Some(UnknownNamespace(attributeName));
        }
        return None;
      }

      if PrefixSeparator in attributeName {
        // the second test for a dotted name repeats the first and is never reached
        assert false;
      }

      ApplyUnknownBranch(f, attributeName, attributeValue, TemplateTypes);
      return Some(UnknownAttribute(attributeName));
    }

    /**
     * Adds the branch `attributeNames` with the scalar `attributeValue` to
     * `node`: the first name gets a fresh chain of nodes along the remaining
     * names; a name already present in `node` is rejected.
     */
    static method ParseCustomAttribute(node: seq<Entry>, attributeNames: seq<string>, attributeValue: string)
      returns (r: Result<seq<Entry>, Error>)
      requires |attributeNames| >= 1
      ensures r == Insert(node, attributeNames, attributeValue)
      decreases |attributeNames|
    {
      var currentSection := attributeNames[0];
      var currentValue: Value;
      if |attributeNames| > 1 {
        var subNode := ParseCustomAttribute([], attributeNames[1..], attributeValue);
        currentValue := Node(subNode.value);
        assert [] + [Entry(attributeNames[1], Chain(attributeNames[2..], attributeValue))] == subNode.value;
        assert attributeNames[1..][1..] == attributeNames[2..];
      } else {
        currentValue := Str(attributeValue);
        assert attributeNames[1..] == [];
      }
      assert currentValue == Chain(attributeNames[1..], attributeValue);
      if HasKey(node, currentSection) {
        return Failure(DuplicateKey(currentSection));
      }
      return Success(node + [Entry(currentSection, currentValue)]);
    }

    /** Sets the content to the lines joined with CRLF. */
    method ParseContent(lines: seq<string>)
      modifies this`Content
      ensures Content == Some(Join(lines, ContentLineEnd))
    {
      Content := Some(Join(lines, ContentLineEnd));
    }

    /**
     * Resolves the model tree against `data` in place; on a failure the
     * entries resolved before it keep their new values. Before any parse the
     * model tree is null and resolving it fails.
     */
    method MapDataToModel(data: seq<Entry>) returns (err: Option<Error>)
      modifies this`Model
      ensures old(Model).None? ==> err == Some(NullModel) && Model == old(Model)
      ensures old(Model).Some? ==>
                var (m, e) := ResolveEntries(old(Model).value, data);
                Model == Some(m) && err == e
      ensures old(Valid()) && WellFormed(Node(data)) ==> Valid()
    {
      if Model.None? {
        // the foreach over a null model throws
        return Some(NullModel);
      }
      if Valid() && WellFormed(Node(data)) {
        ResolveWellFormed(Model.value, data);
      }
      var m;
      m, err := MapDataToPageModel(Model.value, data);
      Model := Some(m);
    }

    /**
     * One resolution pass over the entries of `model`, in order: nested nodes
     * are resolved recursively, scalar leaves replaced by their lookup, and the
     * first failure ends the pass with what was resolved so far.
     */
    static method MapDataToPageModel(model: seq<Entry>, data: seq<Entry>) returns (r: seq<Entry>, err: Option<Error>)
      ensures (r, err) == ResolveEntries(model, data)
      decreases model
    {
      r := model;
      var i := 0;
      assert model[i..] == model && r[..i] + ResolveEntries(model, data).0 == ResolveEntries(model, data).0;
      while i < |model|
        invariant 0 <= i <= |model| && |r| == |model|
        invariant r == r[..i] + model[i..]
        invariant ResolveEntries(model, data) == Prepend(r[..i], ResolveEntries(model[i..], data))
      {
        var entry := model[i];
        var value: Value, e: Option<Error>;
        match entry.val {
          case Node(cs) =>
            var resolved;
            resolved, e := MapDataToPageModel(cs, data);
            value := Node(resolved);
          case Str(path) =>
            var v := GetValueFromDataObject(path, data);
            if v.Success? {
              value, e := v.value, None;
            } else {
              value, e := entry.val, Some(v.error);
            }
          case Null =>
            // `Value as string` is null, and splitting it throws
            value, e := Null, Some(NullPath);
        }
        ResolveStep(model, r, i, data, value, e);
        r := r[i := Entry(entry.key, value)];
        if e.Some? {
          return r, e;
        }
        i := i + 1;
      }
      ResolveDone(model, r, data);
      err := None;
    }

    /**
     * The value the dotted `path` leads to in `data`, walked one segment at a
     * time; a leading `Data` segment names the root.
     */
    static method GetValueFromDataObject(path: string, data: seq<Entry>) returns (r: Result<Value, Error>)
      ensures r == LookupPath(path, data)
    {
      var attributeNames := Split(path, {'.'});
      if attributeNames[0] == DataRoot {
        if |attributeNames| == 1 {
          return Success(Null);
        }
        attributeNames := attributeNames[1..];
      }

      var value := Node(data);
      var i := 0;
      while i < |attributeNames|
        invariant 0 <= i <= |attributeNames|
        invariant LookupPath(path, data) == Walk(attributeNames[i..], value)
      {
        assert attributeNames[i..][0] == attributeNames[i] && attributeNames[i..][1..] == attributeNames[i + 1..];
        match value {
          case Node(es) =>
            var child := Get(es, attributeNames[i]);
            if child.None? {
              return Failure(MissingDataKey(attributeNames[i]));
            }
            value := child.value;
          case _ =>
            return Success(Null);
        }
        i := i + 1;
      }
      return Success(value);
    }
  }
}
