/** Normative rule definitions of `create_normative_rules.py`: the checks a
    definition passes when it is built, and the store that collects the
    definitions of every definition file in order, uniquely by name. */
module RuleDefs {
  import opened Wrappers

  /** `KINDS`. */
  const Kinds: seq<string> := ["extension", "extension_dependency", "instruction", "csr", "csr_field"]
  /** `IMPLDEF_CATEGORIES`. */
  const ImpldefCategories: seq<string> := ["WARL", "WLRL"]

  /** A rule's reference to one tag; `context` marks contextual text. */
  datatype TagRef = TagRef(name: string, context: bool)

  /** One entry of a definition's `tags` list: a bare tag name, or a mapping
      that may carry `name` and `context`. */
  datatype RawTagRef =
    | Bare(bareName: string)
    | Mapping(entryName: Option<string>, context: Option<bool>)

  /** The properties of one definition entry of a definition file, already
      parsed; an absent key (or a null value) is `None`, and a missing
      `impl-def-behavior` is false. */
  datatype DefData = DefData(
    summary: Option<string>,
    note: Option<string>,
    clarificationLink: Option<string>,
    clarificationText: Option<string>,
    description: Option<string>,
    kind: Option<string>,
    impldef: bool,
    impldefCategory: Option<string>,
    instance: Option<string>,
    instances: Option<seq<string>>,
    tag: Option<string>,
    tags: Option<seq<RawTagRef>>)

  /** One entry of a definition file's `normative_rule_definitions` list. */
  datatype DefEntry = DefEntry(name: Option<string>, names: Option<seq<string>>, data: DefData)

  /** `NormativeRuleDef`. */
  datatype RuleDef = RuleDef(
    name: string,
    defFilename: string,
    chapterName: string,
    summary: Option<string>,
    note: Option<string>,
    clarificationLink: Option<string>,
    clarificationText: Option<string>,
    description: Option<string>,
    kind: Option<string>,
    impldef: bool,
    impldefCategory: Option<string>,
    instances: seq<string>,
    tagRefs: seq<TagRef>)

  datatype DefError =
    | UnknownKind(ruleName: string, kind: string)
    | UnknownImpldefCategory(ruleName: string, category: string)
    | CategoryWithoutImpldef(ruleName: string)
    | InstancesWithoutKind(ruleName: string)
    | TagRefWithoutName(ruleName: string)
    | BadRuleName(ruleName: string, impldef: bool)
    | MissingName(defFilename: string)
    | DuplicateRule(ruleName: string, defFilename: string, originalFilename: string)

  // ---------------------------------------------------------------------
  // Rule names

  predicate IsAsciiLetter(c: char) { 'a' <= c <= 'z' || 'A' <= c <= 'Z' }
  predicate IsAsciiUpper(c: char) { 'A' <= c <= 'Z' }
  predicate IsAsciiDigit(c: char) { '0' <= c <= '9' }

  /** The whole name matches `[a-zA-Z][a-zA-Z0-9_-]+`. */
  predicate IsNormRuleName(s: string) {
    && |s| >= 2
    && IsAsciiLetter(s[0])
    && forall i :: 1 <= i < |s| ==> IsAsciiLetter(s[i]) || IsAsciiDigit(s[i]) || s[i] == '_' || s[i] == '-'
  }

  /** The whole name matches `[A-Z][A-Z0-9_]+`. */
  predicate IsImpldefName(s: string) {
    && |s| >= 2
    && IsAsciiUpper(s[0])
    && forall i :: 1 <= i < |s| ==> IsAsciiUpper(s[i]) || IsAsciiDigit(s[i]) || s[i] == '_'
  }

  /** The name check the rule-name patterns intend: the whole name matches the
      pattern chosen by `impldef`. */
  predicate NamePatternHolds(name: string, impldef: bool) {
    if impldef then IsImpldefName(name) else IsNormRuleName(name)
  }

  /** The name check as written: `re.match` with a pattern anchored by `$`,
      which in Python also matches just before a final newline. */
  predicate NameMatchesAsWritten(name: string, impldef: bool) {
    || NamePatternHolds(name, impldef)
    || (|name| >= 1 && name[|name| - 1] == '\n' && NamePatternHolds(name[..|name| - 1], impldef))
  }

  /** As written, a rule name ending in a newline is accepted. */
  lemma TrailingNewlineAcceptedAsWritten()
    ensures NameMatchesAsWritten("ab\n", false)
    ensures !NamePatternHolds("ab\n", false)
  {
    var name := "ab\n";
    assert name[..2] == "ab";
    assert IsAsciiLetter("ab"[0]) && IsAsciiLetter("ab"[1]);
    assert IsNormRuleName("ab");
    assert name[2] == '\n' && !IsAsciiLetter(name[2]) && !IsAsciiDigit(name[2]);
  }

  /** A name that passes the intended check is made of pattern characters
      only: in particular it holds no newline and no ':' (so it can never
      carry the tag prefix `norm:`). */
  lemma {:induction false} AcceptedNamesAreClean(name: string, impldef: bool, i: nat)
    requires NamePatternHolds(name, impldef) && i < |name|
    ensures name[i] != '\n' && name[i] != ':'
    ensures IsAsciiLetter(name[i]) || IsAsciiDigit(name[i]) || name[i] == '_' || name[i] == '-'
  {
    if i > 0 {
      if impldef {
        assert IsAsciiUpper(name[i]) || IsAsciiDigit(name[i]) || name[i] == '_';
      } else {
        assert IsAsciiLetter(name[i]) || IsAsciiDigit(name[i]) || name[i] == '_' || name[i] == '-';
      }
    }
  }

  // ---------------------------------------------------------------------
  // Field checks

  /** `check_kind`. */
  function CheckKind(kind: string, ruleName: string): (r: Outcome<DefError>)
    ensures r.Pass? <==> kind in Kinds
    ensures r.Fail? ==> r.error == UnknownKind(ruleName, kind)
  {
    if kind in Kinds then Pass else Fail(UnknownKind(ruleName, kind))
  }

  /** `check_impldef_cat`. */
  function CheckImpldefCat(category: string, ruleName: string): (r: Outcome<DefError>)
    ensures r.Pass? <==> category in ImpldefCategories
    ensures r.Fail? ==> r.error == UnknownImpldefCategory(ruleName, category)
  {
    if category in ImpldefCategories then Pass else Fail(UnknownImpldefCategory(ruleName, category))
  }

  /** The instances of a definition: `instance` (if any) followed by
      `instances` (if any). */
  function InstancesOf(data: DefData): seq<string> {
    (if data.instance.Some? then [data.instance.value] else [])
      + (if data.instances.Some? then data.instances.value else [])
  }

  predicate Named(raw: RawTagRef) {
    raw.Bare? || raw.entryName.Some?
  }

  /** The reference a `tags` entry stands for; `context` defaults to false. */
  function RefOf(raw: RawTagRef): TagRef
    requires Named(raw)
  {
    match raw
    case Bare(n) => TagRef(n, false)
    case Mapping(n, c) => TagRef(n.value, c.GetOr(false))
  }

  ghost predicate KindOk(data: DefData) {
    data.kind.None? || data.kind.value in Kinds
  }

  ghost predicate CategoryOk(data: DefData) {
    data.impldefCategory.None? || (data.impldefCategory.value in ImpldefCategories && data.impldef)
  }

  ghost predicate InstancesOk(data: DefData) {
    data.kind.Some? || InstancesOf(data) == []
  }

  ghost predicate RefsNamed(data: DefData) {
    data.tags.None? || forall k :: 0 <= k < |data.tags.value| ==> Named(data.tags.value[k])
  }

  /** Every check the definition constructor makes. */
  ghost predicate Acceptable(name: string, data: DefData) {
    && KindOk(data)
    && CategoryOk(data)
    && InstancesOk(data)
    && RefsNamed(data)
    && NamePatternHolds(name, data.impldef)
  }

  /** `e` is the error of the first check, in the constructor's order, that
      rule `name` with properties `data` fails. */
  ghost predicate Explains(e: DefError, name: string, data: DefData) {
    match e
    case UnknownKind(n, k) =>
      n == name && data.kind == Some(k) && k !in Kinds
    case UnknownImpldefCategory(n, c) =>
      n == name && KindOk(data) && data.impldefCategory == Some(c) && c !in ImpldefCategories
    case CategoryWithoutImpldef(n) =>
      && n == name && KindOk(data)
      && data.impldefCategory.Some? && data.impldefCategory.value in ImpldefCategories && !data.impldef
    case InstancesWithoutKind(n) =>
      n == name && KindOk(data) && CategoryOk(data) && data.kind.None? && InstancesOf(data) != []
    case TagRefWithoutName(n) =>
      n == name && KindOk(data) && CategoryOk(data) && InstancesOk(data) && !RefsNamed(data)
    case BadRuleName(n, b) =>
      && n == name && b == data.impldef
      && KindOk(data) && CategoryOk(data) && InstancesOk(data) && RefsNamed(data)
      && !NamePatternHolds(name, b)
    case _ => false
  }

  /** The error of the first check the definition constructor fails, in its
      order, or None when every check passes. */
  ghost function BuildError(name: string, data: DefData): (e: Option<DefError>)
    ensures e.None? <==> Acceptable(name, data)
    ensures e.Some? ==> Explains(e.value, name, data)
  {
    if data.kind.Some? && data.kind.value !in Kinds then Some(UnknownKind(name, data.kind.value))
    else if data.impldefCategory.Some? && data.impldefCategory.value !in ImpldefCategories then
      Some(UnknownImpldefCategory(name, data.impldefCategory.value))
    else if data.impldefCategory.Some? && !data.impldef then Some(CategoryWithoutImpldef(name))
    else if data.kind.None? && InstancesOf(data) != [] then Some(InstancesWithoutKind(name))
    else if !RefsNamed(data) then Some(TagRefWithoutName(name))
    else if !NamePatternHolds(name, data.impldef) then Some(BadRuleName(name, data.impldef))
    else None
  }

  /** `refs` lists the `tag` reference first, if present, then one reference
      per `tags` entry, in order. */
  ghost predicate RefsMatch(data: DefData, refs: seq<TagRef>) {
    var off := if data.tag.Some? then 1 else 0;
    var raw := if data.tags.Some? then data.tags.value else [];
    && |refs| == off + |raw|
    && (data.tag.Some? ==> refs[0] == TagRef(data.tag.value, false))
    && forall k :: 0 <= k < |raw| ==> Named(raw[k]) && refs[off + k] == RefOf(raw[k])
  }

  /** `d` is the definition built for rule `name` of file `defFilename`: every
      property is stored as given. */
  ghost predicate DefFrom(d: RuleDef, name: string, defFilename: string, chapterName: string, data: DefData) {
    && d.name == name
    && d.defFilename == defFilename
    && d.chapterName == chapterName
    && d.summary == data.summary
    && d.note == data.note
    && d.clarificationLink == data.clarificationLink
    && d.clarificationText == data.clarificationText
    && d.description == data.description
    && d.kind == data.kind
    && d.impldef == data.impldef
    && d.impldefCategory == data.impldefCategory
    && d.instances == InstancesOf(data)
    && RefsMatch(data, d.tagRefs)
  }

  /** What every successfully built definition satisfies. */
  ghost predicate WellFormed(d: RuleDef) {
    && (d.kind.None? || d.kind.value in Kinds)
    && (d.impldefCategory.Some? ==> d.impldefCategory.value in ImpldefCategories && d.impldef)
    && (d.instances != [] ==> d.kind.Some?)
    && NamePatternHolds(d.name, d.impldef)
  }

  /** `NormativeRuleDef.__init__`: builds one definition, or reports the first
      failed check (kind, implementation-defined category, instances without
      kind, a `tags` mapping without `name`, then the name pattern). */
  method NewRuleDef(name: string, defFilename: string, chapterName: string, data: DefData)
    returns (r: Result<RuleDef, DefError>)
    ensures r.Success? <==> Acceptable(name, data)
    ensures r.Success? ==> DefFrom(r.value, name, defFilename, chapterName, data) && WellFormed(r.value)
    ensures r.Failure? ==> Explains(r.error, name, data) && BuildError(name, data) == Some(r.error)
  {
    if data.kind.Some? {
      var check := CheckKind(data.kind.value, name);
      if check.Fail? {
        return Failure(check.error);
      }
    }
    if data.impldefCategory.Some? {
      var check := CheckImpldefCat(data.impldefCategory.value, name);
      if check.Fail? {
        return Failure(check.error);
      }
      if !data.impldef {
        return Failure(CategoryWithoutImpldef(name));
      }
    }
    var instances := InstancesOf(data);
    if data.kind.None? && instances != [] {
      return Failure(InstancesWithoutKind(name));
    }

    var tagRefs: seq<TagRef> := [];
    if data.tag.Some? {
      tagRefs := [TagRef(data.tag.value, false)];
    }
    var off := |tagRefs|;
    if data.tags.Some? {
      var raw := data.tags.value;
      var k := 0;
      while k < |raw|
        invariant 0 <= k <= |raw|
        invariant |tagRefs| == off + k
        invariant data.tag.Some? ==> tagRefs[0] == TagRef(data.tag.value, false)
        invariant forall j :: 0 <= j < k ==> Named(raw[j]) && tagRefs[off + j] == RefOf(raw[j])
      {
        if raw[k].Bare? {
          tagRefs := tagRefs + [TagRef(raw[k].bareName, false)];
        } else if raw[k].entryName.None? {
          assert !Named(raw[k]);
          return Failure(TagRefWithoutName(name));
        } else {
          tagRefs := tagRefs + [TagRef(raw[k].entryName.value, raw[k].context.GetOr(false))];
        }
        k := k + 1;
      }
    }

    if !NamePatternHolds(name, data.impldef) {
      return Failure(BadRuleName(name, data.impldef));
    }
    var d := RuleDef(name, defFilename, chapterName, data.summary, data.note,
                     data.clarificationLink, data.clarificationText, data.description,
                     data.kind, data.impldef, data.impldefCategory, instances, tagRefs);
    return Success(d);
  }

  // ---------------------------------------------------------------------
  // The definition store

  function RuleNames(defs: seq<RuleDef>): (names: seq<string>)
    ensures |names| == |defs|
    ensures forall i :: 0 <= i < |defs| ==> names[i] == defs[i].name
  {
    seq(|defs|, i requires 0 <= i < |defs| => defs[i].name)
  }

  predicate HasName(e: DefEntry) {
    e.name.Some? || e.names.Some?
  }

  /** The rule names one entry defines: `name`, otherwise `names`. */
  function EntryNames(e: DefEntry): seq<string> {
    if e.name.Some? then [e.name.value]
    else if e.names.Some? then e.names.value
    else []
  }

  /** The (name, properties) pairs one entry expands to: one per rule name,
      all with the entry's properties. */
  function ExpandEntry(e: DefEntry): seq<(string, DefData)> {
    NamesWith(EntryNames(e), e.data)
  }

  function NamesWith(names: seq<string>, data: DefData): (pairs: seq<(string, DefData)>)
    ensures |pairs| == |names|
    ensures forall k :: 0 <= k < |names| ==> pairs[k] == (names[k], data)
  {
    seq(|names|, k requires 0 <= k < |names| => (names[k], data))
  }

  function PairNames(pairs: seq<(string, DefData)>): (names: seq<string>)
    ensures |names| == |pairs|
    ensures forall k :: 0 <= k < |pairs| ==> names[k] == pairs[k].0
  {
    seq(|pairs|, k requires 0 <= k < |pairs| => pairs[k].0)
  }

  /** The definitions a definition file asks for, in file order. */
  function Expand(entries: seq<DefEntry>): seq<(string, DefData)> {
    if entries == [] then []
    else Expand(entries[..|entries| - 1]) + ExpandEntry(entries[|entries| - 1])
  }

  lemma ExpandPrefix(entries: seq<DefEntry>, i: nat)
    requires i < |entries|
    ensures Expand(entries[..i + 1]) == Expand(entries[..i]) + ExpandEntry(entries[i])
  {
    assert entries[..i + 1][..i] == entries[..i];
  }

  /** Expanding a file is expanding its first entry, then the others. */
  lemma {:induction false} ExpandCons(entries: seq<DefEntry>)
    requires entries != []
    ensures Expand(entries) == ExpandEntry(entries[0]) + Expand(entries[1..])
  {
    if |entries| > 1 {
      var init := entries[..|entries| - 1];
      ExpandCons(init);
      assert init[1..] == entries[1..][..|entries[1..]| - 1];
    }
  }

  /** `defs` is `base` followed by one definition per pair, built from it. */
  ghost predicate Built(defs: seq<RuleDef>, base: seq<RuleDef>, pairs: seq<(string, DefData)>,
                        defFilename: string, chapterName: string)
  {
    && |defs| == |base| + |pairs|
    && defs[..|base|] == base
    && forall k :: 0 <= k < |pairs| ==> DefFrom(defs[|base| + k], pairs[k].0, defFilename, chapterName, pairs[k].1)
  }

  lemma BuiltStep(defs: seq<RuleDef>, base: seq<RuleDef>, pairs: seq<(string, DefData)>,
                  defFilename: string, chapterName: string, d: RuleDef, pair: (string, DefData))
    requires Built(defs, base, pairs, defFilename, chapterName)
    requires DefFrom(d, pair.0, defFilename, chapterName, pair.1)
    ensures Built(defs + [d], base, pairs + [pair], defFilename, chapterName)
  {
    assert (defs + [d])[..|base|] == defs[..|base|];
  }

  lemma BuiltNamesStep(defs: seq<RuleDef>, base: seq<RuleDef>, names: seq<string>, j: nat,
                       defFilename: string, chapterName: string, data: DefData, d: RuleDef)
    requires j < |names|
    requires Built(defs, base, NamesWith(names[..j], data), defFilename, chapterName)
    requires DefFrom(d, names[j], defFilename, chapterName, data)
    ensures Built(defs + [d], base, NamesWith(names[..j + 1], data), defFilename, chapterName)
  {
    assert NamesWith(names[..j + 1], data) == NamesWith(names[..j], data) + [(names[j], data)];
    BuiltStep(defs, base, NamesWith(names[..j], data), defFilename, chapterName, d, (names[j], data));
  }

  lemma BuiltConcat(mid: seq<RuleDef>, defs: seq<RuleDef>, base: seq<RuleDef>,
                    first: seq<(string, DefData)>, second: seq<(string, DefData)>,
                    defFilename: string, chapterName: string)
    requires Built(mid, base, first, defFilename, chapterName)
    requires Built(defs, mid, second, defFilename, chapterName)
    ensures Built(defs, base, first + second, defFilename, chapterName)
  {
    assert defs[..|base|] == mid[..|base|];
    forall k | 0 <= k < |first + second|
      ensures DefFrom(defs[|base| + k], (first + second)[k].0, defFilename, chapterName, (first + second)[k].1)
    {
      if k < |first| {
        assert defs[|base| + k] == mid[|base| + k];
      } else {
        assert defs[|base| + k] == defs[|mid| + (k - |first|)];
      }
    }
  }

  // ---------------------------------------------------------------------
  // Loading a definition file

  /** Every rule of `names` mapped to the file `defFilename`. */
  function NamesTo(names: seq<string>, defFilename: string): (files: map<string, string>)
    ensures forall n :: n in files <==> n in names
    ensures forall n :: n in files ==> files[n] == defFilename
  {
    map n | n in names :: defFilename
  }

  lemma NamesToConcat(files: map<string, string>, a: seq<string>, b: seq<string>, defFilename: string)
    ensures files + NamesTo(a, defFilename) + NamesTo(b, defFilename) == files + NamesTo(a + b, defFilename)
  {
  }

  /** The file that defined each rule of `defs`. */
  ghost function FilesOf(defs: map<string, RuleDef>): (files: map<string, string>)
    ensures files.Keys == defs.Keys
    ensures forall n :: n in defs ==> files[n] == defs[n].defFilename
  {
    map n | n in defs :: defs[n].defFilename
  }

  lemma FilesOfUpdate(defs: map<string, RuleDef>, name: string, d: RuleDef)
    ensures FilesOf(defs[name := d]) == FilesOf(defs)[name := d.defFilename]
  {
  }

  /** What `_add_def` does with rule `name` when `files` maps every rule
      defined so far to the file that defined it: a rule defined before is
      fatal and names that file; otherwise the first failed check of the
      definition is fatal. */
  ghost function DefOutcome(files: map<string, string>, name: string, data: DefData,
                            defFilename: string): Outcome<DefError>
  {
    if name in files then Fail(DuplicateRule(name, defFilename, files[name]))
    else if BuildError(name, data).Some? then Fail(BuildError(name, data).value)
    else Pass
  }

  /** The outcome of `_add_def` on each pair in turn: the first failure, or
      Pass when every pair is defined. */
  ghost function AddOutcome(files: map<string, string>, pairs: seq<(string, DefData)>,
                            defFilename: string): Outcome<DefError>
    decreases |pairs|
  {
    if pairs == [] then Pass
    else
      var first := DefOutcome(files, pairs[0].0, pairs[0].1, defFilename);
      if first.Fail? then first
      else AddOutcome(files[pairs[0].0 := defFilename], pairs[1..], defFilename)
  }

  /** The outcome of one entry: without a name it is fatal, otherwise it is
      that of its rules. */
  ghost function EntryOutcome(files: map<string, string>, e: DefEntry, defFilename: string): Outcome<DefError> {
    if HasName(e) then AddOutcome(files, ExpandEntry(e), defFilename) else Fail(MissingName(defFilename))
  }

  /** The outcome of `add_file_contents`: the first failing entry's, or Pass
      when every entry loads. */
  ghost function LoadOutcome(files: map<string, string>, entries: seq<DefEntry>,
                             defFilename: string): Outcome<DefError>
    decreases |entries|
  {
    if entries == [] then Pass
    else
      var first := EntryOutcome(files, entries[0], defFilename);
      if first.Fail? then first
      else LoadOutcome(files + NamesTo(EntryNames(entries[0]), defFilename), entries[1..], defFilename)
  }

  /** The pairs can be defined on top of the rules in `known`: each passes
      every check, none is defined already and no name comes twice. */
  ghost predicate Loadable(known: set<string>, pairs: seq<(string, DefData)>) {
    && (forall k :: 0 <= k < |pairs| ==> pairs[k].0 !in known && Acceptable(pairs[k].0, pairs[k].1))
    && (forall i, j :: 0 <= i < j < |pairs| ==> pairs[i].0 != pairs[j].0)
  }

  /** Two runs of rules in a row can be defined exactly when the first can,
      and the second can on top of the first one's names. */
  lemma LoadableConcat(known: set<string>, a: seq<(string, DefData)>, b: seq<(string, DefData)>)
    ensures Loadable(known, a + b) <==> Loadable(known, a) && Loadable(known + (set n | n in PairNames(a)), b)
  {
    var names := PairNames(a);
    if Loadable(known, a + b) {
      forall k | 0 <= k < |b|
        ensures b[k].0 !in known + (set n | n in names) && Acceptable(b[k].0, b[k].1)
      {
        assert (a + b)[|a| + k] == b[k];
        forall i | 0 <= i < |a|
          ensures names[i] != b[k].0
        {
          assert (a + b)[i] == a[i];
        }
        assert b[k].0 !in names;
      }
      forall i, j | 0 <= i < j < |b|
        ensures b[i].0 != b[j].0
      {
        assert (a + b)[|a| + i] == b[i] && (a + b)[|a| + j] == b[j];
      }
      forall k | 0 <= k < |a| ensures a[k] == (a + b)[k] { }
      assert Loadable(known, a);
      assert Loadable(known + (set n | n in names), b);
    }
    if Loadable(known, a) && Loadable(known + (set n | n in names), b) {
      forall k | 0 <= k < |a + b|
        ensures (a + b)[k].0 !in known && Acceptable((a + b)[k].0, (a + b)[k].1)
      {
        if k >= |a| {
          assert (a + b)[k] == b[k - |a|];
        }
      }
      forall i, j | 0 <= i < j < |a + b|
        ensures (a + b)[i].0 != (a + b)[j].0
      {
        if j >= |a| && i < |a| {
          assert (a + b)[i].0 == names[i] && names[i] in names;
          assert (a + b)[j] == b[j - |a|];
        } else if i >= |a| {
          assert (a + b)[i] == b[i - |a|] && (a + b)[j] == b[j - |a|];
        }
      }
      assert Loadable(known, a + b);
    }
  }

  /** `add_file_contents` passes over a run of rules exactly when they can
      all be defined. */
  lemma {:induction false} AddPassesIff(files: map<string, string>, pairs: seq<(string, DefData)>,
                                        defFilename: string)
    ensures AddOutcome(files, pairs, defFilename).Pass? <==> Loadable(files.Keys, pairs)
    decreases |pairs|
  {
    if pairs != [] {
      var rest := pairs[1..];
      AddPassesIff(files[pairs[0].0 := defFilename], rest, defFilename);
      LoadableConcat(files.Keys, [pairs[0]], rest);
      assert pairs == [pairs[0]] + rest;
      assert (set n | n in PairNames([pairs[0]])) == {pairs[0].0};
    }
  }

  /** A rule that passes, followed by a loadable run, is a loadable run. */
  lemma PrefixLoadable(files: map<string, string>, pairs: seq<(string, DefData)>, k: nat, defFilename: string)
    requires k < |pairs|
    requires DefOutcome(files, pairs[0].0, pairs[0].1, defFilename).Pass?
    requires Loadable(files[pairs[0].0 := defFilename].Keys, pairs[1..][..k])
    ensures Loadable(files.Keys, pairs[..k + 1])
  {
    assert pairs[..k + 1] == [pairs[0]] + pairs[1..][..k];
    LoadableConcat(files.Keys, [pairs[0]], pairs[1..][..k]);
    assert (set n | n in PairNames([pairs[0]])) == {pairs[0].0};
  }

  /** The files after the first rule and then `k` more are those after the
      first `k + 1` rules. */
  lemma PrefixFiles(files: map<string, string>, pairs: seq<(string, DefData)>, k: nat, defFilename: string)
    requires k < |pairs|
    ensures files[pairs[0].0 := defFilename] + NamesTo(PairNames(pairs[1..][..k]), defFilename)
            == files + NamesTo(PairNames(pairs[..k + 1]), defFilename)
  {
    assert PairNames(pairs[..k + 1]) == [pairs[0].0] + PairNames(pairs[1..][..k]);
    NamesToConcat(files, [pairs[0].0], PairNames(pairs[1..][..k]), defFilename);
  }

  /** Rule `k` is the first of the run to fail, with error `e`: every earlier
      rule has been defined. */
  ghost predicate PairFailsAt(files: map<string, string>, pairs: seq<(string, DefData)>, k: int,
                              defFilename: string, e: DefError)
  {
    && 0 <= k < |pairs|
    && Loadable(files.Keys, pairs[..k])
    && DefOutcome(files + NamesTo(PairNames(pairs[..k]), defFilename), pairs[k].0, pairs[k].1, defFilename) == Fail(e)
  }

  /** A run of rules fails with the error of its first rule that fails, every
      earlier one having been defined. */
  lemma {:induction false} AddFirstFailure(files: map<string, string>, pairs: seq<(string, DefData)>,
                                           defFilename: string, e: DefError)
    requires AddOutcome(files, pairs, defFilename) == Fail(e)
    ensures exists k :: PairFailsAt(files, pairs, k, defFilename, e)
    decreases |pairs|
  {
    var name := pairs[0].0;
    if DefOutcome(files, name, pairs[0].1, defFilename).Fail? {
      assert files + NamesTo(PairNames(pairs[..0]), defFilename) == files;
      assert PairFailsAt(files, pairs, 0, defFilename, e);
    } else {
      var rest := pairs[1..];
      var after := files[name := defFilename];
      AddFirstFailure(after, rest, defFilename, e);
      var k :| PairFailsAt(after, rest, k, defFilename, e);
      PrefixLoadable(files, pairs, k, defFilename);
      PrefixFiles(files, pairs, k, defFilename);
      assert pairs[k + 1] == rest[k];
      assert PairFailsAt(files, pairs, k + 1, defFilename, e);
    }
  }

  /** The rules of a file load when those of its first entry do and the
      rest load on top of them. */
  lemma LoadableCons(files: map<string, string>, entries: seq<DefEntry>, defFilename: string)
    requires entries != [] && HasName(entries[0])
    ensures Loadable(files.Keys, Expand(entries)) <==>
              && AddOutcome(files, ExpandEntry(entries[0]), defFilename).Pass?
              && Loadable((files + NamesTo(EntryNames(entries[0]), defFilename)).Keys, Expand(entries[1..]))
  {
    ExpandCons(entries);
    AddPassesIff(files, ExpandEntry(entries[0]), defFilename);
    LoadableConcat(files.Keys, ExpandEntry(entries[0]), Expand(entries[1..]));
    assert PairNames(ExpandEntry(entries[0])) == EntryNames(entries[0]);
    assert (files + NamesTo(EntryNames(entries[0]), defFilename)).Keys
           == files.Keys + (set n | n in EntryNames(entries[0]));
  }

  /** A definition file loads exactly when every entry names its rules and
      all of them can be defined. */
  lemma {:induction false} LoadPassesIff(files: map<string, string>, entries: seq<DefEntry>, defFilename: string)
    ensures LoadOutcome(files, entries, defFilename).Pass? <==>
              (forall i :: 0 <= i < |entries| ==> HasName(entries[i]))
              && Loadable(files.Keys, Expand(entries))
    decreases |entries|
  {
    if entries != [] && HasName(entries[0]) {
      var rest := entries[1..];
      LoadableCons(files, entries, defFilename);
      LoadPassesIff(files + NamesTo(EntryNames(entries[0]), defFilename), rest, defFilename);
      assert forall i :: 1 <= i < |entries| ==> entries[i] == rest[i - 1];
    }
  }

  /** An entry that loads, followed by entries that load, is a prefix of the
      file that loads. */
  lemma EntryPrefixLoadable(files: map<string, string>, entries: seq<DefEntry>, i: nat, defFilename: string)
    requires i < |entries|
    requires HasName(entries[0]) && AddOutcome(files, ExpandEntry(entries[0]), defFilename).Pass?
    requires Loadable((files + NamesTo(EntryNames(entries[0]), defFilename)).Keys, Expand(entries[1..][..i]))
    ensures Loadable(files.Keys, Expand(entries[..i + 1]))
  {
    var prefix := entries[..i + 1];
    assert prefix[0] == entries[0] && prefix[1..] == entries[1..][..i];
    LoadableCons(files, prefix, defFilename);
  }

  /** The files after the first entry and then `i` more are those after the
      first `i + 1` entries. */
  lemma EntryPrefixFiles(files: map<string, string>, entries: seq<DefEntry>, i: nat, defFilename: string)
    requires i < |entries|
    ensures files + NamesTo(EntryNames(entries[0]), defFilename) + NamesTo(PairNames(Expand(entries[1..][..i])), defFilename)
            == files + NamesTo(PairNames(Expand(entries[..i + 1])), defFilename)
  {
    var prefix := entries[..i + 1];
    assert prefix[0] == entries[0] && prefix[1..] == entries[1..][..i];
    ExpandCons(prefix);
    assert PairNames(ExpandEntry(entries[0])) == EntryNames(entries[0]);
    assert PairNames(Expand(prefix)) == EntryNames(entries[0]) + PairNames(Expand(entries[1..][..i]));
    NamesToConcat(files, EntryNames(entries[0]), PairNames(Expand(entries[1..][..i])), defFilename);
  }

  /** Entry `i` is the first of the file to fail, with error `e`: every
      earlier entry names its rules and they all load. */
  ghost predicate EntryFailsAt(files: map<string, string>, entries: seq<DefEntry>, i: int,
                               defFilename: string, e: DefError)
  {
    && 0 <= i < |entries|
    && (forall j :: 0 <= j < i ==> HasName(entries[j]))
    && Loadable(files.Keys, Expand(entries[..i]))
    && EntryOutcome(files + NamesTo(PairNames(Expand(entries[..i])), defFilename), entries[i], defFilename) == Fail(e)
  }

  /** A definition file fails with the error of its first entry that fails,
      every earlier entry having been loaded. */
  lemma {:induction false} LoadFirstFailure(files: map<string, string>, entries: seq<DefEntry>,
                                            defFilename: string, e: DefError)
    requires LoadOutcome(files, entries, defFilename) == Fail(e)
    ensures exists i :: EntryFailsAt(files, entries, i, defFilename, e)
    decreases |entries|
  {
    if EntryOutcome(files, entries[0], defFilename).Fail? {
      assert files + NamesTo(PairNames(Expand(entries[..0])), defFilename) == files;
      assert EntryFailsAt(files, entries, 0, defFilename, e);
    } else {
      var rest := entries[1..];
      var after := files + NamesTo(EntryNames(entries[0]), defFilename);
      LoadFirstFailure(after, rest, defFilename, e);
      var i :| EntryFailsAt(after, rest, i, defFilename, e);
      EntryPrefixLoadable(files, entries, i, defFilename);
      EntryPrefixFiles(files, entries, i, defFilename);
      assert entries[i + 1] == rest[i];
      assert forall j :: 1 <= j < i + 1 ==> entries[j] == rest[j - 1];
      assert EntryFailsAt(files, entries, i + 1, defFilename, e);
    }
  }

  lemma AddOutcomeStep(files: map<string, string>, pairs: seq<(string, DefData)>, j: nat, defFilename: string)
    requires j < |pairs|
    ensures AddOutcome(files, pairs[j..], defFilename) ==
              var first := DefOutcome(files, pairs[j].0, pairs[j].1, defFilename);
              if first.Fail? then first else AddOutcome(files[pairs[j].0 := defFilename], pairs[j + 1..], defFilename)
  {
    assert pairs[j..][0] == pairs[j];
    assert pairs[j..][1..] == pairs[j + 1..];
  }

  lemma LoadOutcomeStep(files: map<string, string>, entries: seq<DefEntry>, i: nat, defFilename: string)
    requires i < |entries|
    ensures LoadOutcome(files, entries[i..], defFilename) ==
              var first := EntryOutcome(files, entries[i], defFilename);
              if first.Fail? then first
              else LoadOutcome(files + NamesTo(EntryNames(entries[i]), defFilename), entries[i + 1..], defFilename)
  {
    assert entries[i..][0] == entries[i];
    assert entries[i..][1..] == entries[i + 1..];
  }

  /** The facts one step of `AddNames` rests on: the outcome still to come
      unfolds by one rule, and the files after it extend by its name. */
  lemma AddNamesStep(files: map<string, string>, base: map<string, string>, names: seq<string>, j: nat,
                     defFilename: string, data: DefData)
    requires j < |names|
    ensures AddOutcome(files, NamesWith(names, data)[j..], defFilename) ==
              var first := DefOutcome(files, names[j], data, defFilename);
              if first.Fail? then first
              else AddOutcome(files[names[j] := defFilename], NamesWith(names, data)[j + 1..], defFilename)
    ensures (base + NamesTo(names[..j], defFilename))[names[j] := defFilename]
            == base + NamesTo(names[..j + 1], defFilename)
  {
    AddOutcomeStep(files, NamesWith(names, data), j, defFilename);
    assert names[..j + 1] == names[..j] + [names[j]];
    NamesToConcat(base, names[..j], [names[j]], defFilename);
  }

  /** The definitions in load order and by name agree: names are unique,
      the index holds exactly the listed names, and every definition is well
      formed. */
  ghost predicate Consistent(defs: seq<RuleDef>, byName: map<string, RuleDef>) {
    && (forall i, j :: 0 <= i < j < |defs| ==> defs[i].name != defs[j].name)
    && (forall n :: n in byName <==> n in RuleNames(defs))
    && (forall i :: 0 <= i < |defs| ==> byName[defs[i].name] == defs[i])
    && (forall i :: 0 <= i < |defs| ==> WellFormed(defs[i]))
  }

  lemma ConsistentAppend(defs: seq<RuleDef>, byName: map<string, RuleDef>, d: RuleDef)
    requires Consistent(defs, byName) && d.name !in byName && WellFormed(d)
    ensures Consistent(defs + [d], byName[d.name := d])
  {
    assert forall i :: 0 <= i < |defs| ==> defs[i].name != d.name by {
      assert forall i :: 0 <= i < |defs| ==> RuleNames(defs)[i] == defs[i].name;
    }
    assert RuleNames(defs + [d]) == RuleNames(defs) + [d.name];
  }

  class NormativeRuleDefs {
    /** The definitions in load order (`norm_rule_defs`). */
    var normRuleDefs: seq<RuleDef>
    /** The same definitions by name (`_defs_by_name`). */
    var defsByName: map<string, RuleDef>

    ghost predicate Valid()
      reads this
    {
      Consistent(normRuleDefs, defsByName)
    }

    constructor ()
      ensures Valid() && normRuleDefs == [] && defsByName == map[]
    {
      normRuleDefs := [];
      defsByName := map[];
    }

    /** `_add_def`: a name already defined is fatal and names the file that
        defined it first; otherwise the built definition is appended and
        indexed. */
    method AddDef(name: string, defFilename: string, chapterName: string, data: DefData)
      returns (result: Outcome<DefError>)
      requires Valid()
      modifies this
      ensures Valid()
      ensures result == DefOutcome(FilesOf(old(defsByName)), name, data, defFilename)
      ensures name in old(defsByName) ==>
                result == Fail(DuplicateRule(name, defFilename, old(defsByName)[name].defFilename))
      ensures name !in old(defsByName) ==> (result.Pass? <==> Acceptable(name, data))
      ensures name !in old(defsByName) && result.Fail? ==> Explains(result.error, name, data)
      ensures result.Pass? ==>
                && |normRuleDefs| == |old(normRuleDefs)| + 1
                && normRuleDefs == old(normRuleDefs) + [normRuleDefs[|old(normRuleDefs)|]]
                && DefFrom(normRuleDefs[|old(normRuleDefs)|], name, defFilename, chapterName, data)
                && defsByName == old(defsByName)[name := normRuleDefs[|old(normRuleDefs)|]]
                && FilesOf(defsByName) == FilesOf(old(defsByName))[name := defFilename]
      ensures result.Fail? ==> normRuleDefs == old(normRuleDefs) && defsByName == old(defsByName)
    {
      if name in defsByName {
        return Fail(DuplicateRule(name, defFilename, defsByName[name].defFilename));
      }
      var r := NewRuleDef(name, defFilename, chapterName, data);
      if r.Failure? {
        return Fail(r.error);
      }
      var d := r.value;
      ConsistentAppend(normRuleDefs, defsByName, d);
      normRuleDefs := normRuleDefs + [d];
      defsByName := defsByName[name := d];
      FilesOfUpdate(old(defsByName), name, d);
      return Pass;
    }

    /** The `names` branch of `add_file_contents`: one definition per name,
        in list order, all built from the same properties. */
    method AddNames(names: seq<string>, defFilename: string, chapterName: string, data: DefData)
      returns (result: Outcome<DefError>)
      requires Valid()
      modifies this
      ensures Valid()
      ensures old(normRuleDefs) <= normRuleDefs
      ensures result == AddOutcome(FilesOf(old(defsByName)), NamesWith(names, data), defFilename)
      ensures result.Pass? ==> Built(normRuleDefs, old(normRuleDefs), NamesWith(names, data), defFilename, chapterName)
      ensures result.Pass? ==> FilesOf(defsByName) == FilesOf(old(defsByName)) + NamesTo(names, defFilename)
      ensures result.Fail? ==> !result.error.MissingName?
    {
      var j := 0;
      while j < |names|
        invariant 0 <= j <= |names|
        invariant Valid()
        invariant Built(normRuleDefs, old(normRuleDefs), NamesWith(names[..j], data), defFilename, chapterName)
        invariant FilesOf(defsByName) == FilesOf(old(defsByName)) + NamesTo(names[..j], defFilename)
        invariant AddOutcome(FilesOf(old(defsByName)), NamesWith(names, data), defFilename)
                  == AddOutcome(FilesOf(defsByName), NamesWith(names, data)[j..], defFilename)
      {
        AddNamesStep(FilesOf(defsByName), FilesOf(old(defsByName)), names, j, defFilename, data);
        ghost var prev := normRuleDefs;
        var r := AddDef(names[j], defFilename, chapterName, data);
        if r.Fail? {
          return r;
        }
        BuiltNamesStep(prev, old(normRuleDefs), names, j, defFilename, chapterName, data, normRuleDefs[|prev|]);
        j := j + 1;
      }
      assert names[..j] == names;
      return Pass;
    }

    /** The body of `add_file_contents` for one entry: `name` adds one
        definition, otherwise `names` adds one per name, otherwise the entry
        is fatal. */
    method AddEntry(defFilename: string, chapterName: string, e: DefEntry)
      returns (result: Outcome<DefError>)
      requires Valid()
      modifies this
      ensures Valid()
      ensures old(normRuleDefs) <= normRuleDefs
      ensures result == EntryOutcome(FilesOf(old(defsByName)), e, defFilename)
      ensures !HasName(e) ==> result == Fail(MissingName(defFilename))
      ensures result.Pass? ==> HasName(e)
      ensures result.Pass? ==> Built(normRuleDefs, old(normRuleDefs), ExpandEntry(e), defFilename, chapterName)
      ensures result.Pass? ==> FilesOf(defsByName) == FilesOf(old(defsByName)) + NamesTo(EntryNames(e), defFilename)
      ensures result == Fail(MissingName(defFilename)) ==> !HasName(e)
    {
      if e.name.Some? {
        // One `_add_def` call: the one-name case of AddNames.
        result := AddNames([e.name.value], defFilename, chapterName, e.data);
      } else if e.names.Some? {
        result := AddNames(e.names.value, defFilename, chapterName, e.data);
      } else {
        result := Fail(MissingName(defFilename));
      }
    }

    /** `add_file_contents`: adds the definitions of one definition file in
        file order; an entry with neither `name` nor `names` is fatal, as is
        any failure of `_add_def`. */
    method AddFileContents(defFilename: string, chapterName: string, entries: seq<DefEntry>)
      returns (result: Outcome<DefError>)
      requires Valid()
      modifies this
      ensures Valid()
      ensures old(normRuleDefs) <= normRuleDefs
      ensures result == LoadOutcome(FilesOf(old(defsByName)), entries, defFilename)
      ensures result.Pass? ==> forall i :: 0 <= i < |entries| ==> HasName(entries[i])
      ensures result.Pass? ==> Built(normRuleDefs, old(normRuleDefs), Expand(entries), defFilename, chapterName)
      ensures result == Fail(MissingName(defFilename)) ==> exists i :: 0 <= i < |entries| && !HasName(entries[i])
    {
      var i := 0;
      while i < |entries|
        invariant 0 <= i <= |entries|
        invariant Valid()
        invariant forall j :: 0 <= j < i ==> HasName(entries[j])
        invariant Built(normRuleDefs, old(normRuleDefs), Expand(entries[..i]), defFilename, chapterName)
        invariant LoadOutcome(FilesOf(old(defsByName)), entries, defFilename) == LoadOutcome(FilesOf(defsByName), entries[i..], defFilename)
      {
        var r := LoadEntry(defFilename, chapterName, entries, i, old(normRuleDefs), FilesOf(old(defsByName)));
        if r.Fail? {
          return r;
        }
        i := i + 1;
      }
      assert entries[..i] == entries;
      return Pass;
    }

    /** One step of `add_file_contents`: entry `i`, once the entries before
        it have been loaded on top of the definitions `base`, whose files were
        `baseFiles`. */
    method LoadEntry(defFilename: string, chapterName: string, entries: seq<DefEntry>, i: nat,
                     ghost base: seq<RuleDef>, ghost baseFiles: map<string, string>)
      returns (result: Outcome<DefError>)
      requires Valid() && i < |entries|
      requires forall j :: 0 <= j < i ==> HasName(entries[j])
      requires Built(normRuleDefs, base, Expand(entries[..i]), defFilename, chapterName)
      requires LoadOutcome(baseFiles, entries, defFilename) == LoadOutcome(FilesOf(defsByName), entries[i..], defFilename)
      modifies this
      ensures Valid() && base <= normRuleDefs
      ensures result.Fail? ==> result == LoadOutcome(baseFiles, entries, defFilename)
      ensures result == Fail(MissingName(defFilename)) ==> !HasName(entries[i])
      ensures result.Pass? ==>
                && HasName(entries[i])
                && Built(normRuleDefs, base, Expand(entries[..i + 1]), defFilename, chapterName)
                && LoadOutcome(baseFiles, entries, defFilename)
                   == LoadOutcome(FilesOf(defsByName), entries[i + 1..], defFilename)
    {
      ExpandPrefix(entries, i);
      LoadOutcomeStep(FilesOf(defsByName), entries, i, defFilename);
      ghost var prev := normRuleDefs;
      result := AddEntry(defFilename, chapterName, entries[i]);
      if result.Pass? {
        BuiltConcat(prev, normRuleDefs, base, Expand(entries[..i]), ExpandEntry(entries[i]),
                    defFilename, chapterName);
      }
    }
  }
}
