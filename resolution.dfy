/** Resolution of the rule definitions against the tag store
    (`create_normative_rules_hash` in `create_normative_rules.py`): every tag
    reference of every rule is replaced by the tag's text, its tag file and
    the standards-document URL of that tag file. */
module Resolution {
  import opened Wrappers
  import opened TagStore
  import opened RuleDefs
  import Validation

  /** One resolved tag reference of a rule. */
  datatype ResolvedTag = ResolvedTag(
    name: string,
    context: bool,
    text: string,
    tagFilename: string,
    stdsDocUrl: string)

  /** One entry of the `normative_rules` list. An absent optional property is
      `None`; `instances` is left out when the list is empty. */
  datatype ResolvedRule = ResolvedRule(
    name: string,
    defFilename: string,
    chapterName: string,
    kind: Option<string>,
    impldef: bool,
    instances: Option<seq<string>>,
    impldefCategory: Option<string>,
    summary: Option<string>,
    note: Option<string>,
    clarificationText: Option<string>,
    clarificationLink: Option<string>,
    description: Option<string>,
    tags: seq<ResolvedTag>)

  /** The two fatal errors of resolution. */
  datatype ResolveError =
    | DanglingTag(ruleName: string, defFilename: string, tagName: string)
    | MissingUrl(tagFilename: string, tagName: string)

  /** A reference resolves when it names a stored tag whose tag file has a
      URL. */
  predicate Resolvable(r: TagRef, stored: map<string, Tag>, urls: map<string, string>) {
    r.name in stored && stored[r.name].tagFilename in urls
  }

  /** What resolving one reference yields when it resolves. */
  function Resolved(r: TagRef, stored: map<string, Tag>, urls: map<string, string>): ResolvedTag
    requires Resolvable(r, stored, urls)
  {
    var tag := stored[r.name];
    ResolvedTag(tag.name, r.context, tag.text, tag.tagFilename, urls[tag.tagFilename])
  }

  /** Why one reference of rule `d` does not resolve. */
  function ResolveRef(d: RuleDef, r: TagRef, stored: map<string, Tag>, urls: map<string, string>)
    : (res: Result<ResolvedTag, ResolveError>)
    ensures res.Success? <==> Resolvable(r, stored, urls)
    ensures res.Success? ==> res.value == Resolved(r, stored, urls)
    ensures res.Failure? && r.name !in stored ==> res.error == DanglingTag(d.name, d.defFilename, r.name)
    ensures res.Failure? && r.name in stored ==> res.error == MissingUrl(stored[r.name].tagFilename, stored[r.name].name)
  {
    if r.name !in stored then Failure(DanglingTag(d.name, d.defFilename, r.name))
    else
      var tag := stored[r.name];
      if tag.tagFilename !in urls then Failure(MissingUrl(tag.tagFilename, tag.name))
      else Success(ResolvedTag(tag.name, r.context, tag.text, tag.tagFilename, urls[tag.tagFilename]))
  }

  /** The references of `d` in order, stopping at the first that does not
      resolve. */
  function ResolveRefs(d: RuleDef, refs: seq<TagRef>, stored: map<string, Tag>, urls: map<string, string>)
    : (res: Result<seq<ResolvedTag>, ResolveError>)
    ensures res.Success? <==> forall j :: 0 <= j < |refs| ==> Resolvable(refs[j], stored, urls)
    ensures res.Success? ==> |res.value| == |refs|
    ensures res.Success? ==> forall j :: 0 <= j < |refs| ==> res.value[j] == Resolved(refs[j], stored, urls)
  {
    if refs == [] then Success([])
    else
      var init := refs[..|refs| - 1];
      var last := refs[|refs| - 1];
      assert forall j :: 0 <= j < |init| ==> init[j] == refs[j];
      match ResolveRefs(d, init, stored, urls)
      case Failure(e) => Failure(e)
      case Success(ts) =>
        match ResolveRef(d, last, stored, urls)
        case Failure(e) => Failure(e)
        case Success(t) => Success(ts + [t])
  }

  /** Every reference of rule `d` resolves. */
  predicate RuleResolves(d: RuleDef, stored: map<string, Tag>, urls: map<string, string>) {
    forall j :: 0 <= j < |d.tagRefs| ==> Resolvable(d.tagRefs[j], stored, urls)
  }

  /** The entry of rule `d` with the given resolved tags. */
  function Entry(d: RuleDef, tags: seq<ResolvedTag>): ResolvedRule {
    ResolvedRule(
      d.name, d.defFilename, d.chapterName, d.kind, d.impldef,
      if d.instances == [] then None else Some(d.instances),
      d.impldefCategory, d.summary, d.note, d.clarificationText, d.clarificationLink, d.description,
      tags)
  }

  /** Every rule in order, stopping at the first reference that does not
      resolve. */
  function ResolveAll(defs: seq<RuleDef>, stored: map<string, Tag>, urls: map<string, string>)
    : (res: Result<seq<ResolvedRule>, ResolveError>)
    ensures res.Success? <==> forall i :: 0 <= i < |defs| ==> RuleResolves(defs[i], stored, urls)
    ensures res.Success? ==> |res.value| == |defs|
    ensures res.Success? ==>
              forall i :: 0 <= i < |defs| ==>
                res.value[i] == Entry(defs[i], ResolveRefs(defs[i], defs[i].tagRefs, stored, urls).value)
  {
    if defs == [] then Success([])
    else
      var init := defs[..|defs| - 1];
      var last := defs[|defs| - 1];
      assert forall i :: 0 <= i < |init| ==> init[i] == defs[i];
      match ResolveAll(init, stored, urls)
      case Failure(e) => Failure(e)
      case Success(rs) =>
        match ResolveRefs(last, last.tagRefs, stored, urls)
        case Failure(e) => Failure(e)
        case Success(ts) => Success(rs + [Entry(last, ts)])
  }

  /** `create_normative_rules_hash`: the `normative_rules` list, built rule by
      rule and reference by reference; the first reference that does not
      resolve is fatal. `tagFilenameToUrl` is the `-tag2url` mapping. */
  method CreateNormativeRulesHash(defs: NormativeRuleDefs, tags: NormativeTags,
                                  tagFilenameToUrl: map<string, string>)
    returns (res: Result<seq<ResolvedRule>, ResolveError>)
    ensures res == ResolveAll(defs.normRuleDefs, tags.tagMap, tagFilenameToUrl)
  {
    var rules := defs.normRuleDefs;
    var entries: seq<ResolvedRule> := [];
    var i := 0;
    while i < |rules|
      invariant 0 <= i <= |rules|
      invariant ResolveAll(rules[..i], tags.tagMap, tagFilenameToUrl) == Success(entries)
    {
      var resolved := ResolveRuleTags(rules[i], tags, tagFilenameToUrl);
      if resolved.Failure? {
        ResolveAllStops(rules, tags.tagMap, tagFilenameToUrl, i);
        return Failure(resolved.error);
      }
      ResolveAllStep(rules, tags.tagMap, tagFilenameToUrl, i, entries);
      entries := entries + [Entry(rules[i], resolved.value)];
      i := i + 1;
    }
    assert rules[..i] == rules;
    return Success(entries);
  }

  /** The inner loop of `create_normative_rules_hash`: the resolved tags of
      one rule. */
  method ResolveRuleTags(d: RuleDef, tags: NormativeTags, tagFilenameToUrl: map<string, string>)
    returns (res: Result<seq<ResolvedTag>, ResolveError>)
    ensures res == ResolveRefs(d, d.tagRefs, tags.tagMap, tagFilenameToUrl)
  {
    var resolved: seq<ResolvedTag> := [];
    var j := 0;
    while j < |d.tagRefs|
      invariant 0 <= j <= |d.tagRefs|
      invariant ResolveRefs(d, d.tagRefs[..j], tags.tagMap, tagFilenameToUrl) == Success(resolved)
    {
      var tagRef := d.tagRefs[j];
      var tag := tags.GetTag(tagRef.name);
      if tag.None? {
        ResolveRefsStops(d, d.tagRefs, tags.tagMap, tagFilenameToUrl, j);
        return Failure(DanglingTag(d.name, d.defFilename, tagRef.name));
      }
      if tag.value.tagFilename !in tagFilenameToUrl {
        ResolveRefsStops(d, d.tagRefs, tags.tagMap, tagFilenameToUrl, j);
        return Failure(MissingUrl(tag.value.tagFilename, tag.value.name));
      }
      var url := tagFilenameToUrl[tag.value.tagFilename];
      ResolveRefsStep(d, d.tagRefs, tags.tagMap, tagFilenameToUrl, j, resolved);
      resolved := resolved + [ResolvedTag(tag.value.name, tagRef.context, tag.value.text, tag.value.tagFilename, url)];
      j := j + 1;
    }
    assert d.tagRefs[..j] == d.tagRefs;
    return Success(resolved);
  }

  /** One more reference that resolves adds its resolved tag. */
  lemma ResolveRefsStep(d: RuleDef, refs: seq<TagRef>, stored: map<string, Tag>, urls: map<string, string>,
                        j: nat, resolved: seq<ResolvedTag>)
    requires j < |refs| && ResolveRefs(d, refs[..j], stored, urls) == Success(resolved)
    requires Resolvable(refs[j], stored, urls)
    ensures ResolveRefs(d, refs[..j + 1], stored, urls) == Success(resolved + [Resolved(refs[j], stored, urls)])
  {
    assert refs[..j + 1][..j] == refs[..j];
  }

  /** Once a prefix of the references resolves and the next does not, the
      whole list fails with that reference's error. */
  lemma {:induction false} ResolveRefsStops(d: RuleDef, refs: seq<TagRef>, stored: map<string, Tag>,
                                            urls: map<string, string>, j: nat)
    requires j < |refs| && ResolveRefs(d, refs[..j], stored, urls).Success?
    requires ResolveRef(d, refs[j], stored, urls).Failure?
    ensures ResolveRefs(d, refs, stored, urls) == Failure(ResolveRef(d, refs[j], stored, urls).error)
  {
    if j < |refs| - 1 {
      var init := refs[..|refs| - 1];
      assert init[..j] == refs[..j];
      ResolveRefsStops(d, init, stored, urls, j);
    } else {
      assert refs[..|refs| - 1] == refs[..j];
    }
  }

  /** One more rule whose references all resolve adds its entry. */
  lemma ResolveAllStep(defs: seq<RuleDef>, stored: map<string, Tag>, urls: map<string, string>,
                       i: nat, entries: seq<ResolvedRule>)
    requires i < |defs| && ResolveAll(defs[..i], stored, urls) == Success(entries)
    requires ResolveRefs(defs[i], defs[i].tagRefs, stored, urls).Success?
    ensures ResolveAll(defs[..i + 1], stored, urls) ==
              Success(entries + [Entry(defs[i], ResolveRefs(defs[i], defs[i].tagRefs, stored, urls).value)])
  {
    assert defs[..i + 1][..i] == defs[..i];
  }

  /** Likewise for the rules. */
  lemma {:induction false} ResolveAllStops(defs: seq<RuleDef>, stored: map<string, Tag>,
                                           urls: map<string, string>, i: nat)
    requires i < |defs| && ResolveAll(defs[..i], stored, urls).Success?
    requires ResolveRefs(defs[i], defs[i].tagRefs, stored, urls).Failure?
    ensures ResolveAll(defs, stored, urls) == Failure(ResolveRefs(defs[i], defs[i].tagRefs, stored, urls).error)
  {
    if i < |defs| - 1 {
      var init := defs[..|defs| - 1];
      assert init[..i] == defs[..i];
      ResolveAllStops(init, stored, urls, i);
    } else {
      assert defs[..|defs| - 1] == defs[..i];
    }
  }

  /** The error of a failed resolution of references is that of the first
      reference that does not resolve. */
  lemma {:induction false} ResolveRefsFirstFailure(d: RuleDef, refs: seq<TagRef>, stored: map<string, Tag>,
                                                   urls: map<string, string>)
    requires ResolveRefs(d, refs, stored, urls).Failure?
    ensures exists j :: 0 <= j < |refs|
              && (forall k :: 0 <= k < j ==> Resolvable(refs[k], stored, urls))
              && ResolveRef(d, refs[j], stored, urls) == Failure(ResolveRefs(d, refs, stored, urls).error)
  {
    var init := refs[..|refs| - 1];
    if ResolveRefs(d, init, stored, urls).Failure? {
      ResolveRefsFirstFailure(d, init, stored, urls);
      var j :| 0 <= j < |init|
               && (forall k :: 0 <= k < j ==> Resolvable(init[k], stored, urls))
               && ResolveRef(d, init[j], stored, urls) == Failure(ResolveRefs(d, init, stored, urls).error);
      assert init[j] == refs[j];
      assert forall k :: 0 <= k < j ==> init[k] == refs[k];
    } else {
      assert forall k :: 0 <= k < |init| ==> init[k] == refs[k];
    }
  }

  /** The error of a failed resolution is that of the first rule with a
      reference that does not resolve. */
  lemma {:induction false} ResolveAllFirstFailure(defs: seq<RuleDef>, stored: map<string, Tag>, urls: map<string, string>)
    requires ResolveAll(defs, stored, urls).Failure?
    ensures exists i :: 0 <= i < |defs|
              && (forall k :: 0 <= k < i ==> RuleResolves(defs[k], stored, urls))
              && ResolveRefs(defs[i], defs[i].tagRefs, stored, urls) == Failure(ResolveAll(defs, stored, urls).error)
  {
    var init := defs[..|defs| - 1];
    if ResolveAll(init, stored, urls).Failure? {
      ResolveAllFirstFailure(init, stored, urls);
      var i :| 0 <= i < |init|
               && (forall k :: 0 <= k < i ==> RuleResolves(init[k], stored, urls))
               && ResolveRefs(init[i], init[i].tagRefs, stored, urls) == Failure(ResolveAll(init, stored, urls).error);
      assert init[i] == defs[i];
      assert forall k :: 0 <= k < i ==> init[k] == defs[k];
    } else {
      assert forall k :: 0 <= k < |init| ==> init[k] == defs[k];
    }
  }

  /** On a store that passed validation (no dangling reference), the only way
      resolution can still fail is a tag file without a URL. */
  lemma {:induction false} ValidatedResolvesOrMissesUrl(defs: seq<RuleDef>, stored: map<string, Tag>, urls: map<string, string>)
    requires Validation.MissingRefCount(defs, stored) == 0
    ensures ResolveAll(defs, stored, urls).Failure? ==> ResolveAll(defs, stored, urls).error.MissingUrl?
  {
    Validation.MissingRefCountZero(defs, stored);
    var res := ResolveAll(defs, stored, urls);
    if res.Failure? {
      ResolveAllFirstFailure(defs, stored, urls);
      var i :| 0 <= i < |defs| && ResolveRefs(defs[i], defs[i].tagRefs, stored, urls) == Failure(res.error);
      ResolveRefsFirstFailure(defs[i], defs[i].tagRefs, stored, urls);
      var j :| 0 <= j < |defs[i].tagRefs| && ResolveRef(defs[i], defs[i].tagRefs[j], stored, urls) == Failure(res.error);
      assert defs[i].tagRefs[j].name in stored;
    }
  }
}
