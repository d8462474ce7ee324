/** The cross-reference pass of `create_normative_rules.py`
    (`validate_defs_and_tags`): every problem is counted and reported first,
    and only then is the verdict taken. */
module Validation {
  import opened Wrappers
  import opened Text
  import opened TagStore
  import opened RuleDefs

  /** `NORM_PREFIX`: reserved for tag names. */
  const NormPrefix: string := "norm:"

  /** One reported problem, in the order the pass reports them. */
  datatype Diagnostic =
    | MissingTagRef(ruleName: string, tagName: string, defFilename: string)
    | ReservedPrefixRuleName(ruleName: string)
    | ClarificationTextWithoutLink(ruleName: string)
    | UnexpectedClarificationLink(ruleName: string, link: string)
    | UnreferencedTag(tagName: string)

  datatype Report = Report(
    missingTagCnt: nat,
    badNormRuleNameCnt: nat,
    unrefCnt: nat,
    diagnostics: seq<Diagnostic>,
    passed: bool)

  /** The level a message is logged at. */
  datatype Level = Info | Error

  /** What a summary line of the pass counts. */
  datatype SummaryKind = MissingRefs | IllegalNames | UnreferencedTags

  /** One summary line: its level, what it counts and the count it prints. */
  datatype Summary = Summary(level: Level, kind: SummaryKind, count: nat)

  /** The summary lines logged once the pass is over, in order: one per
      non-zero count. Unreferenced tags are reported as information when `-w`
      was given, as an error otherwise. */
  function Summaries(missingTagCnt: nat, badNormRuleNameCnt: nat, unrefCnt: nat, warnIfTagsNoRules: bool)
    : (lines: seq<Summary>)
    ensures forall i :: 0 <= i < |lines| ==> lines[i].count > 0
    ensures forall i :: 0 <= i < |lines| ==>
              (lines[i].level == Info <==> lines[i].kind == UnreferencedTags && warnIfTagsNoRules)
  {
    (if missingTagCnt > 0 then [Summary(Error, MissingRefs, missingTagCnt)] else [])
    + (if badNormRuleNameCnt > 0 then [Summary(Error, IllegalNames, badNormRuleNameCnt)] else [])
    + (if unrefCnt > 0 then [Summary(if warnIfTagsNoRules then Info else Error, UnreferencedTags, unrefCnt)] else [])
  }

  /** The exit rule: dangling references and reserved-prefix rule names always
      fail the run; unreferenced tags fail it unless `-w` was given. The run
      fails exactly when some summary line was logged as an error. */
  function Fails(missingTagCnt: nat, badNormRuleNameCnt: nat, unrefCnt: nat, warnIfTagsNoRules: bool): (fails: bool)
    ensures var lines := Summaries(missingTagCnt, badNormRuleNameCnt, unrefCnt, warnIfTagsNoRules);
      fails <==> exists i :: 0 <= i < |lines| && lines[i].level == Error
  {
    var lines := Summaries(missingTagCnt, badNormRuleNameCnt, unrefCnt, warnIfTagsNoRules);
    assert missingTagCnt > 0 || badNormRuleNameCnt > 0 ==> lines[0].level == Error;
    assert unrefCnt > 0 && !warnIfTagsNoRules ==> lines[|lines| - 1].level == Error;
    missingTagCnt > 0 || badNormRuleNameCnt > 0 || (unrefCnt > 0 && !warnIfTagsNoRules)
  }

  // ---------------------------------------------------------------------
  // What the pass computes, stated over whole sequences

  /** How many of `refs` name no stored tag. */
  function DanglingCount(refs: seq<TagRef>, stored: map<string, Tag>): nat {
    if refs == [] then 0
    else DanglingCount(refs[..|refs| - 1], stored) + (if refs[|refs| - 1].name in stored then 0 else 1)
  }

  /** How many (definition, reference) pairs name no stored tag. */
  function MissingRefCount(defs: seq<RuleDef>, stored: map<string, Tag>): nat {
    if defs == [] then 0
    else MissingRefCount(defs[..|defs| - 1], stored) + DanglingCount(defs[|defs| - 1].tagRefs, stored)
  }

  /** How many definitions have a name starting with `norm:`. */
  function ReservedPrefixCount(defs: seq<RuleDef>): nat {
    if defs == [] then 0
    else ReservedPrefixCount(defs[..|defs| - 1]) + (if StartsWith(defs[|defs| - 1].name, NormPrefix) then 1 else 0)
  }

  function RefNames(refs: seq<TagRef>): set<string> {
    if refs == [] then {} else RefNames(refs[..|refs| - 1]) + {refs[|refs| - 1].name}
  }

  /** Every tag name some definition refers to. */
  function ReferencedNames(defs: seq<RuleDef>): set<string> {
    if defs == [] then {} else ReferencedNames(defs[..|defs| - 1]) + RefNames(defs[|defs| - 1].tagRefs)
  }

  function RefDiagnostics(d: RuleDef, refs: seq<TagRef>, stored: map<string, Tag>): seq<Diagnostic> {
    if refs == [] then []
    else
      RefDiagnostics(d, refs[..|refs| - 1], stored)
        + (if refs[|refs| - 1].name in stored then [] else [MissingTagRef(d.name, refs[|refs| - 1].name, d.defFilename)])
  }

  /** What the pass reports about one definition, in order: its dangling
      references, a reserved-prefix name, clarification text without a link,
      and a clarification link that `isIssueLink` rejects. */
  function DefDiagnostics(d: RuleDef, stored: map<string, Tag>, isIssueLink: string -> bool): seq<Diagnostic> {
    RefDiagnostics(d, d.tagRefs, stored)
      + (if StartsWith(d.name, NormPrefix) then [ReservedPrefixRuleName(d.name)] else [])
      + (if d.clarificationText.Some? && d.clarificationLink.None? then [ClarificationTextWithoutLink(d.name)] else [])
      + (if d.clarificationLink.Some? && !isIssueLink(d.clarificationLink.value)
         then [UnexpectedClarificationLink(d.name, d.clarificationLink.value)] else [])
  }

  function RuleDiagnostics(defs: seq<RuleDef>, stored: map<string, Tag>, isIssueLink: string -> bool): seq<Diagnostic> {
    if defs == [] then []
    else RuleDiagnostics(defs[..|defs| - 1], stored, isIssueLink) + DefDiagnostics(defs[|defs| - 1], stored, isIssueLink)
  }

  /** One report per name of `order` outside `referenced`, in order. */
  function UnrefDiagnostics(order: seq<string>, referenced: set<string>): seq<Diagnostic> {
    if order == [] then []
    else
      UnrefDiagnostics(order[..|order| - 1], referenced)
        + (if order[|order| - 1] in referenced then [] else [UnreferencedTag(order[|order| - 1])])
  }

  // ---------------------------------------------------------------------
  // The pass

  /** `validate_defs_and_tags`. `isIssueLink` stands for the issue-tracker
      link pattern; it only decides a warning. */
  method ValidateDefsAndTags(defs: NormativeRuleDefs, tags: NormativeTags, warnIfTagsNoRules: bool,
                             isIssueLink: string -> bool)
    returns (report: Report)
    requires tags.Valid()
    ensures report.missingTagCnt == MissingRefCount(defs.normRuleDefs, tags.tagMap)
    ensures report.badNormRuleNameCnt == ReservedPrefixCount(defs.normRuleDefs)
    ensures report.unrefCnt == |tags.tagMap.Keys - ReferencedNames(defs.normRuleDefs)|
    ensures report.diagnostics ==
              RuleDiagnostics(defs.normRuleDefs, tags.tagMap, isIssueLink)
                + UnrefDiagnostics(tags.order, ReferencedNames(defs.normRuleDefs))
    ensures report.passed <==> !Fails(report.missingTagCnt, report.badNormRuleNameCnt, report.unrefCnt, warnIfTagsNoRules)
  {
    var rules := defs.normRuleDefs;
    var missingTagCnt, badNormRuleNameCnt, referenced, diagnostics := CheckRules(rules, tags, isIssueLink);
    var all := tags.GetTags();
    assert TagNames(all) == tags.order;
    var unrefCnt, unrefDiagnostics := ReportUnreferenced(all, referenced);
    UnrefRestricted(tags.order, ReferencedNames(rules), tags.tagMap.Keys);
    UnrefCardinality(tags.order, ReferencedNames(rules), tags.tagMap.Keys);
    var passed := !(missingTagCnt > 0 || badNormRuleNameCnt > 0 || (unrefCnt > 0 && !warnIfTagsNoRules));
    report := Report(missingTagCnt, badNormRuleNameCnt, unrefCnt, diagnostics + unrefDiagnostics, passed);
  }

  /** The loop of the pass over the rule definitions, in order. */
  method CheckRules(rules: seq<RuleDef>, tags: NormativeTags, isIssueLink: string -> bool)
    returns (missingTagCnt: nat, badNormRuleNameCnt: nat, referenced: set<string>, diagnostics: seq<Diagnostic>)
    requires tags.Valid()
    ensures missingTagCnt == MissingRefCount(rules, tags.tagMap)
    ensures badNormRuleNameCnt == ReservedPrefixCount(rules)
    ensures referenced == ReferencedNames(rules) * tags.tagMap.Keys
    ensures diagnostics == RuleDiagnostics(rules, tags.tagMap, isIssueLink)
  {
    missingTagCnt, badNormRuleNameCnt, referenced, diagnostics := 0, 0, {}, [];
    var i := 0;
    while i < |rules|
      invariant 0 <= i <= |rules|
      invariant missingTagCnt == MissingRefCount(rules[..i], tags.tagMap)
      invariant badNormRuleNameCnt == ReservedPrefixCount(rules[..i])
      invariant referenced == ReferencedNames(rules[..i]) * tags.tagMap.Keys
      invariant diagnostics == RuleDiagnostics(rules[..i], tags.tagMap, isIssueLink)
    {
      assert rules[..i + 1][..i] == rules[..i];
      var missing, bad, found, defDiagnostics := CheckRule(rules[i], tags, isIssueLink);
      missingTagCnt := missingTagCnt + missing;
      badNormRuleNameCnt := badNormRuleNameCnt + bad;
      referenced := referenced + found;
      diagnostics := diagnostics + defDiagnostics;
      i := i + 1;
    }
    assert rules[..i] == rules;
  }

  /** The body of that loop: one definition's references, name prefix and
      clarification fields. */
  method CheckRule(d: RuleDef, tags: NormativeTags, isIssueLink: string -> bool)
    returns (missing: nat, bad: nat, found: set<string>, diagnostics: seq<Diagnostic>)
    requires tags.Valid()
    ensures missing == DanglingCount(d.tagRefs, tags.tagMap)
    ensures bad == if StartsWith(d.name, NormPrefix) then 1 else 0
    ensures found == RefNames(d.tagRefs) * tags.tagMap.Keys
    ensures diagnostics == DefDiagnostics(d, tags.tagMap, isIssueLink)
  {
    missing, found, diagnostics := CheckTagRefs(d, tags);
    bad := 0;
    if StartsWith(d.name, NormPrefix) {
      bad := 1;
      diagnostics := diagnostics + [ReservedPrefixRuleName(d.name)];
    }
    if d.clarificationText.Some? && d.clarificationLink.None? {
      diagnostics := diagnostics + [ClarificationTextWithoutLink(d.name)];
    }
    if d.clarificationLink.Some? && !isIssueLink(d.clarificationLink.value) {
      diagnostics := diagnostics + [UnexpectedClarificationLink(d.name, d.clarificationLink.value)];
    }
  }

  /** The inner loop of the pass: looks up each tag reference of one
      definition, counting and reporting the dangling ones and collecting the
      names of the tags found. */
  method CheckTagRefs(d: RuleDef, tags: NormativeTags)
    returns (missing: nat, found: set<string>, diagnostics: seq<Diagnostic>)
    requires tags.Valid()
    ensures missing == DanglingCount(d.tagRefs, tags.tagMap)
    ensures found == RefNames(d.tagRefs) * tags.tagMap.Keys
    ensures diagnostics == RefDiagnostics(d, d.tagRefs, tags.tagMap)
  {
    missing, found, diagnostics := 0, {}, [];
    var j := 0;
    while j < |d.tagRefs|
      invariant 0 <= j <= |d.tagRefs|
      invariant missing == DanglingCount(d.tagRefs[..j], tags.tagMap)
      invariant found == RefNames(d.tagRefs[..j]) * tags.tagMap.Keys
      invariant diagnostics == RefDiagnostics(d, d.tagRefs[..j], tags.tagMap)
    {
      var tagRef := d.tagRefs[j];
      assert d.tagRefs[..j + 1][..j] == d.tagRefs[..j];
      var tag := tags.GetTag(tagRef.name);
      if tag.None? {
        missing := missing + 1;
        diagnostics := diagnostics + [MissingTagRef(d.name, tagRef.name, d.defFilename)];
      } else {
        found := found + {tag.value.name};
      }
      j := j + 1;
    }
    assert d.tagRefs[..j] == d.tagRefs;
  }

  /** The names of `tags`, in order. */
  function TagNames(tags: seq<Tag>): (names: seq<string>)
    ensures |names| == |tags|
    ensures forall k :: 0 <= k < |tags| ==> names[k] == tags[k].name
  {
    seq(|tags|, k requires 0 <= k < |tags| => tags[k].name)
  }

  /** The last loop of the pass: reports, in the order of `all` (the stored
      tags as listed by the store), each tag whose name is not in
      `referenced`. */
  method ReportUnreferenced(all: seq<Tag>, referenced: set<string>)
    returns (unrefCnt: nat, diagnostics: seq<Diagnostic>)
    ensures diagnostics == UnrefDiagnostics(TagNames(all), referenced)
    ensures unrefCnt == |diagnostics|
  {
    unrefCnt, diagnostics := 0, [];
    ghost var names := TagNames(all);
    var k := 0;
    while k < |all|
      invariant 0 <= k <= |all|
      invariant diagnostics == UnrefDiagnostics(names[..k], referenced)
      invariant unrefCnt == |diagnostics|
    {
      UnrefStep(names, referenced, k);
      if all[k].name !in referenced {
        diagnostics := diagnostics + [UnreferencedTag(all[k].name)];
        unrefCnt := unrefCnt + 1;
      }
      k := k + 1;
    }
    assert names[..k] == names;
  }

  lemma UnrefStep(order: seq<string>, referenced: set<string>, k: nat)
    requires k < |order|
    ensures UnrefDiagnostics(order[..k + 1], referenced) ==
              UnrefDiagnostics(order[..k], referenced)
                + (if order[k] in referenced then [] else [UnreferencedTag(order[k])])
  {
    assert order[..k + 1][..k] == order[..k];
  }

  // ---------------------------------------------------------------------
  // Properties of the pass

  /** Only stored names are tested against `referenced`, so whether it holds
      unstored names too changes nothing. */
  lemma {:induction false} UnrefRestricted(order: seq<string>, referenced: set<string>, keys: set<string>)
    requires forall k :: 0 <= k < |order| ==> order[k] in keys
    ensures UnrefDiagnostics(order, referenced * keys) == UnrefDiagnostics(order, referenced)
  {
    if order != [] {
      UnrefRestricted(order[..|order| - 1], referenced, keys);
    }
  }

  /** One unreferenced-tag report per stored tag that no definition refers to:
      their number is the size of that set. */
  lemma {:induction false} UnrefCardinality(order: seq<string>, referenced: set<string>, keys: set<string>)
    requires Distinct(order)
    requires forall n :: n in keys <==> n in order
    ensures |UnrefDiagnostics(order, referenced)| == |keys - referenced|
  {
    if order != [] {
      var init := order[..|order| - 1];
      var last := order[|order| - 1];
      var initKeys := set n | n in init;
      assert keys == initKeys + {last};
      assert last !in initKeys;
      UnrefCardinality(init, referenced, initKeys);
      if last in referenced {
        assert keys - referenced == initKeys - referenced;
      } else {
        assert keys - referenced == (initKeys - referenced) + {last};
      }
    }
  }

  /** No dangling reference is counted exactly when every reference of every
      definition names a stored tag. */
  lemma {:induction false} DanglingCountZero(refs: seq<TagRef>, stored: map<string, Tag>)
    ensures DanglingCount(refs, stored) == 0 <==> forall j :: 0 <= j < |refs| ==> refs[j].name in stored
  {
    if refs != [] {
      var init := refs[..|refs| - 1];
      DanglingCountZero(init, stored);
      assert forall j :: 0 <= j < |init| ==> init[j] == refs[j];
    }
  }

  lemma {:induction false} MissingRefCountZero(defs: seq<RuleDef>, stored: map<string, Tag>)
    ensures MissingRefCount(defs, stored) == 0 <==>
              forall i, j :: 0 <= i < |defs| && 0 <= j < |defs[i].tagRefs| ==> defs[i].tagRefs[j].name in stored
  {
    if defs != [] {
      var init := defs[..|defs| - 1];
      MissingRefCountZero(init, stored);
      DanglingCountZero(defs[|defs| - 1].tagRefs, stored);
      assert forall i :: 0 <= i < |init| ==> init[i] == defs[i];
    }
  }

  lemma {:induction false} RefDiagnosticsComplete(d: RuleDef, refs: seq<TagRef>, stored: map<string, Tag>, j: nat)
    requires j < |refs| && refs[j].name !in stored
    ensures MissingTagRef(d.name, refs[j].name, d.defFilename) in RefDiagnostics(d, refs, stored)
  {
    if j < |refs| - 1 {
      RefDiagnosticsComplete(d, refs[..|refs| - 1], stored, j);
    }
  }

  /** Exhaustiveness: every dangling reference is reported, naming the rule,
      the missing tag and the rule's definition file. */
  lemma {:induction false} DanglingRefsReported(defs: seq<RuleDef>, stored: map<string, Tag>,
                                                isIssueLink: string -> bool, i: nat, j: nat)
    requires i < |defs| && j < |defs[i].tagRefs| && defs[i].tagRefs[j].name !in stored
    ensures MissingTagRef(defs[i].name, defs[i].tagRefs[j].name, defs[i].defFilename)
              in RuleDiagnostics(defs, stored, isIssueLink)
  {
    var init := defs[..|defs| - 1];
    if i == |defs| - 1 {
      RefDiagnosticsComplete(defs[i], defs[i].tagRefs, stored, j);
    } else {
      assert init[i] == defs[i];
      DanglingRefsReported(init, stored, isIssueLink, i, j);
    }
  }

  lemma {:induction false} RefDiagnosticsSound(d: RuleDef, refs: seq<TagRef>, stored: map<string, Tag>, diag: Diagnostic)
    requires diag in RefDiagnostics(d, refs, stored)
    ensures diag.MissingTagRef? && diag.ruleName == d.name && diag.defFilename == d.defFilename
    ensures diag.tagName !in stored && exists j :: 0 <= j < |refs| && refs[j].name == diag.tagName
  {
    var init := refs[..|refs| - 1];
    if diag in RefDiagnostics(d, init, stored) {
      RefDiagnosticsSound(d, init, stored, diag);
      var j :| 0 <= j < |init| && init[j].name == diag.tagName;
      assert refs[j] == init[j];
    } else {
      assert refs[|refs| - 1].name == diag.tagName;
    }
  }

  /** Soundness: every missing-tag report is about a reference that really
      dangles, made by a rule of that name from that file. */
  lemma {:induction false} MissingReportsAreDangling(defs: seq<RuleDef>, stored: map<string, Tag>,
                                                     isIssueLink: string -> bool, diag: Diagnostic)
    requires diag in RuleDiagnostics(defs, stored, isIssueLink) && diag.MissingTagRef?
    ensures diag.tagName !in stored
    ensures exists i, j :: 0 <= i < |defs| && 0 <= j < |defs[i].tagRefs|
              && defs[i].name == diag.ruleName && defs[i].defFilename == diag.defFilename
              && defs[i].tagRefs[j].name == diag.tagName
  {
    var init := defs[..|defs| - 1];
    var last := defs[|defs| - 1];
    if diag in RuleDiagnostics(init, stored, isIssueLink) {
      MissingReportsAreDangling(init, stored, isIssueLink, diag);
      var i, j :| 0 <= i < |init| && 0 <= j < |init[i].tagRefs|
                 && init[i].name == diag.ruleName && init[i].defFilename == diag.defFilename
                 && init[i].tagRefs[j].name == diag.tagName;
      assert defs[i] == init[i];
    } else {
      assert diag in DefDiagnostics(last, stored, isIssueLink);
      RefDiagnosticsSound(last, last.tagRefs, stored, diag);
      var j :| 0 <= j < |last.tagRefs| && last.tagRefs[j].name == diag.tagName;
      assert defs[|defs| - 1].tagRefs[j].name == diag.tagName;
    }
  }

  /** Rule names that pass the name check cannot start with `norm:` (the
      patterns exclude ':'), so after loading the reserved-prefix count is
      always zero. */
  lemma {:induction false} NoReservedPrefixAfterLoading(defs: seq<RuleDef>)
    requires forall i :: 0 <= i < |defs| ==> WellFormed(defs[i])
    ensures ReservedPrefixCount(defs) == 0
  {
    if defs != [] {
      var init := defs[..|defs| - 1];
      var last := defs[|defs| - 1];
      assert forall i :: 0 <= i < |init| ==> init[i] == defs[i];
      NoReservedPrefixAfterLoading(init);
      if |last.name| >= |NormPrefix| {
        AcceptedNamesAreClean(last.name, last.impldef, 4);
        assert last.name[..|NormPrefix|][4] != NormPrefix[4];
      }
      assert !StartsWith(last.name, NormPrefix);
    }
  }
}
