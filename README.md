# Normative-rule tools of the RISC-V ISA manual, modelled in Dafny

This project models the logic of two Python tools.

`tools/create_normative_rules.py` builds the normative-rule database of a
RISC-V standard. Each normative rule definition names tags: anchored
fragments of the standard's text, which are collected from tag files. The
tool:

- collects the tags from tag files into one store keyed by tag name;
- builds and checks the rule definitions from the definition files;
- cross-checks rules against tags (dangling references, unreferenced tags,
  reserved `norm:` rule names, clarification links);
- resolves every rule's tag references to the tag text and the URL of its tag
  file;
- computes the implementation-defined counts and the row layout of the HTML
  tables.

`tools/detect_tag_changes.py` compares a reference tag file with a current one.
It splits the difference into added, deleted and modified tags, where two
texts are the same once their whitespace and AsciiDoc formatting are
normalised. It can merge the additions into the reference file, and it exits
with status 1 when a tag was deleted or modified.

## Modules

- `wrappers.dfy`, module `Wrappers`: `Option`, `Result`, `Outcome` (a fatal error is a `Fail`/`Failure` value)
- `text.dfy`, module `Text`: `str.isspace`, `strip`, `split` on one character, `split()` on whitespace, `join`
- `tag_store.dfy`, module `TagStore`: `NormativeTag`, `NormativeTags` (a class: the tag map plus the insertion order a Python dict keeps)
- `rule_defs.dfy`, module `RuleDefs`: `KINDS`, `IMPLDEF_CATEGORIES`, the name patterns, `TagRef`, `NormativeRuleDef` construction, `check_kind`, `check_impldef_cat`, `NormativeRuleDefs` (a class)
- `validation.dfy`, module `Validation`: `validate_defs_and_tags`
- `resolution.dfy`, module `Resolution`: `create_normative_rules_hash`
- `counts.dfy`, module `Counts`: `count_impldefs`, `count_impldef_cats`, the counts of `get_impldefs_counts_str`
- `html_tables.dfy`, module `HtmlTables`: `name_row_span` against the rows `html_table_row` writes; `extract_tags_table_cells`
- `tag_changes.dfy`, module `TagChanges`: `TagChanges`, `detect_changes`, whitespace normalisation, the merge of `update_tags_file`, `_truncate_text`, the exit status

The operations that update objects in place are methods of Dafny classes
(`NormativeTags.AddTags`, the `NormativeRuleDefs` methods). So are the
operations built from loops (`ValidateDefsAndTags`, `CreateNormativeRulesHash`,
the counting loops, `DetectChanges`, `MergeAdditions`). Each such method is
proved equal to a specification function over whole sequences or maps, and the
lemmas state what the tools promise about those functions. A fatal error
(`fatal(...)`, which exits) is an error value returned to the caller.

## Model

| member | source | states |
|---|---|---|
| `TagStore.NormativeTags.constructor` | tools/create_normative_rules.py:63-67 | a new store is empty and consistent |
| `TagStore.NormativeTags.AddTags` | tools/create_normative_rules.py:69-93 | the store stays consistent; stored tags are never changed or lost; the order only grows. It passes exactly when every entry is text and new. On success the names are appended in file order, each bound to its own tag. On failure the error is that of the first refused entry, every earlier entry having been accepted |
| `TagStore.NormativeTags.AddEntry` | tools/create_normative_rules.py:82-93 | one entry: its error is `EntryError` against the store before the file was added. When refused nothing changes; otherwise the store and the order are those after one more entry |
| `TagStore.WithBatchBinds` | tools/create_normative_rules.py:82-93 | after adding a tag file, every text entry is bound to its own tag, every stored tag the file does not name is kept, and no other name appears |
| `TagStore.KeepsStored` | tools/create_normative_rules.py:88-91 | entries that pass the duplicate check never overwrite a stored tag |
| `TagStore.NormativeTags.GetTag` | tools/create_normative_rules.py:95-97 | `Some` exactly when the name is stored, and then it is the stored tag, whose name is the one asked for |
| `TagStore.NormativeTags.GetTags` | tools/create_normative_rules.py:99-101 | every stored tag exactly once, in insertion order, no two with the same name; the count equals the number of stored tags |
| `TagStore.StoreListing` | tools/create_normative_rules.py:99-101 | listing a store by its duplicate-free insertion order has as many tags as the store, contains every stored tag, and repeats no name |
| `RuleDefs.CheckKind` | tools/create_normative_rules.py:272-277 | passes exactly when the kind is one of `KINDS`, otherwise reports that kind for that rule |
| `RuleDefs.CheckImpldefCat` | tools/create_normative_rules.py:280-285 | passes exactly when the category is WARL or WLRL, otherwise reports it |
| `RuleDefs.NewRuleDef` | tools/create_normative_rules.py:128-215 | succeeds exactly when every check passes (kind, category and its implementation-defined flag, no instances without a kind, every `tags` mapping named, the name pattern). On success every property is stored as given: instances are `instance` then `instances`; tag references are `tag` then one per `tags` entry with `context` defaulting to false; the definition is well formed. On failure the error is that of the first failing check, in the source's order |
| `RuleDefs.TrailingNewlineAcceptedAsWritten` | tools/create_normative_rules.py:212-215 | as written, the name check accepts `"ab\n"`, which the pattern does not describe |
| `RuleDefs.AcceptedNamesAreClean` | tools/create_normative_rules.py:35-36 | every character of a name that passes the intended check is a letter, digit, `_` or `-`: never a newline or `:` |
| `RuleDefs.NormativeRuleDefs.constructor` | tools/create_normative_rules.py:221-223 | a new store is empty and consistent |
| `RuleDefs.BuildError` | tools/create_normative_rules.py:128-215 | no error exactly when every check of the constructor passes; otherwise the error of the first check that fails, in the constructor's order |
| `RuleDefs.NormativeRuleDefs.AddDef` | tools/create_normative_rules.py:248-264 | the outcome is `DefOutcome` over the files of the rules defined so far. A name already defined fails, naming the file that defined it first. Otherwise it fails with the first failed check, or passes exactly when the definition is acceptable. On success the built definition is appended, indexed by name and recorded for this file; on failure nothing changes. Names stay unique and the list and index agree |
| `RuleDefs.NormativeRuleDefs.AddNames` | tools/create_normative_rules.py:240-244 | the outcome is `AddOutcome` over the names with their shared properties: the first `_add_def` failure in list order, or success. On success one definition per name is appended in list order, all built from the same properties, and every name is recorded for this file. The list only grows, and a failure is never the missing-name error |
| `RuleDefs.NormativeRuleDefs.AddEntry` | tools/create_normative_rules.py:235-246 | the outcome is `EntryOutcome`. An entry with neither `name` nor `names` fails with exactly the missing-name error of this file. Otherwise `name` adds one definition and `names` adds one per name, with the outcome of those `_add_def` calls; on success the entry's names are recorded for this file |
| `RuleDefs.NormativeRuleDefs.AddFileContents` | tools/create_normative_rules.py:225-246 | the outcome is `LoadOutcome`: the error of the first entry that fails, or success. On success every entry has a name, and the appended definitions are exactly those the entries expand to, in file order. A missing-name failure points at an entry without one. The list only grows and stays consistent |
| `RuleDefs.NormativeRuleDefs.LoadEntry` | tools/create_normative_rules.py:233-246 | one turn of the entry loop: it keeps the loop's invariant (earlier entries named and built, the rest of the outcome still to come), and a failure is the outcome of the whole file |
| `RuleDefs.LoadableConcat` | tools/create_normative_rules.py:240-244 | two runs of rules in a row can be defined exactly when the first can, and the second can on top of the first one's names |
| `RuleDefs.AddPassesIff` | tools/create_normative_rules.py:240-264 | a run of `_add_def` calls passes exactly when every rule passes every check, none is already defined and no name comes twice |
| `RuleDefs.AddFirstFailure` | tools/create_normative_rules.py:240-264 | a failing run fails with the error of one of its rules, all of whose predecessors could be defined, against the rules defined before it |
| `RuleDefs.LoadPassesIff` | tools/create_normative_rules.py:225-264 | a definition file loads exactly when every entry has `name` or `names` and all of its rules can be defined: every check passes, and each name is new and comes once |
| `RuleDefs.LoadFirstFailure` | tools/create_normative_rules.py:233-264 | a failing file fails with the error of one of its entries, all of whose predecessors are named and loaded, against the rules defined before it |
| `Validation.Summaries` | tools/create_normative_rules.py:571-580 | the summary lines each carry a positive count. Only the unreferenced-tags line under `-w` is information; every other line is an error |
| `Validation.Fails` | tools/create_normative_rules.py:571-583 | the run fails exactly when some summary line is logged as an error: dangling references, reserved-prefix rule names, or unreferenced tags without `-w` |
| `Validation.ValidateDefsAndTags` | tools/create_normative_rules.py:518-583 | the missing-tag count is the number of dangling (rule, reference) pairs; the bad-name count is the number of `norm:` rule names; the unreferenced count is the number of stored tags no rule references. The reports come rule by rule, then one per unreferenced tag in store order. The run passes exactly when none of the fatal conditions holds |
| `Validation.CheckRules` | tools/create_normative_rules.py:542-558 | the rule loop computes the two counts, the referenced stored tags and the per-rule reports |
| `Validation.CheckRule` | tools/create_normative_rules.py:543-558 | one rule: its dangling count, whether its name is reserved, the stored tags it references, its reports in order |
| `Validation.CheckTagRefs` | tools/create_normative_rules.py:543-551 | the reference loop of one rule: its dangling count, the stored tags found, one report per dangling reference |
| `Validation.ReportUnreferenced` | tools/create_normative_rules.py:561-569 | one report per listed tag outside the referenced set, in listing order, and the count equals the number of reports |
| `Validation.UnrefRestricted` | tools/create_normative_rules.py:551 | recording only the references that were found changes none of the unreferenced-tag reports |
| `Validation.UnrefCardinality` | tools/create_normative_rules.py:561-569 | the number of unreferenced-tag reports is the number of stored tags outside the referenced set |
| `Validation.DanglingCountZero` | tools/create_normative_rules.py:543-549 | a rule has no dangling reference exactly when every reference names a stored tag |
| `Validation.MissingRefCountZero` | tools/create_normative_rules.py:575-583 | the missing-tag count is zero exactly when every reference of every rule names a stored tag |
| `Validation.RefDiagnosticsComplete` | tools/create_normative_rules.py:547-549 | every dangling reference of a rule is reported |
| `Validation.DanglingRefsReported` | tools/create_normative_rules.py:542-549 | every dangling reference of every rule is among the pass's reports |
| `Validation.RefDiagnosticsSound` | tools/create_normative_rules.py:547-549 | every reference report of a rule names that rule and file and a reference of it that is not stored |
| `Validation.MissingReportsAreDangling` | tools/create_normative_rules.py:542-549 | every missing-tag report of the pass comes from a dangling reference of some rule |
| `Validation.NoReservedPrefixAfterLoading` | tools/create_normative_rules.py:552-554 | over definitions that passed the name check, the reserved-prefix count is zero |
| `Resolution.ResolveRef` | tools/create_normative_rules.py:497-512 | resolves exactly when the tag is stored and its tag file has a URL, into the tag's name, text, file and URL with the reference's context; otherwise it reports the dangling tag, or the file without a URL |
| `Resolution.ResolveRefs` | tools/create_normative_rules.py:495-512 | a rule's references resolve exactly when each one does, into one resolved tag per reference, in order |
| `Resolution.ResolveAll` | tools/create_normative_rules.py:462-515 | succeeds exactly when every rule resolves, with one entry per rule, in order, each holding the rule's properties (instances left out when empty) and its resolved tags |
| `Resolution.CreateNormativeRulesHash` | tools/create_normative_rules.py:445-515 | the loop over rules and references computes `ResolveAll` on the stored definitions and tags |
| `Resolution.ResolveRuleTags` | tools/create_normative_rules.py:494-512 | the inner loop computes `ResolveRefs` for one rule |
| `Resolution.ResolveRefsFirstFailure` | tools/create_normative_rules.py:495-503 | a failure is the error of the first reference that does not resolve, all earlier ones resolving |
| `Resolution.ResolveAllFirstFailure` | tools/create_normative_rules.py:462-515 | a failure comes from the first rule that does not resolve, all earlier rules resolving |
| `Resolution.ValidatedResolvesOrMissesUrl` | tools/create_normative_rules.py:500-503 | once validation found no dangling reference, resolution can only fail for a tag file without a URL |
| `Counts.CountImpldefs` | tools/create_normative_rules.py:1483-1493 | counts the implementation-defined rules: the size of the set of their positions, never more than the number of rules |
| `Counts.CountImpldefCats` | tools/create_normative_rules.py:1496-1508 | counts the rules of the given category, the same way |
| `Counts.CountIsCardinality` | tools/create_normative_rules.py:1483-1508 | the running count equals the number of positions whose rule meets the criterion |
| `Counts.CountBound` | tools/create_normative_rules.py:1483-1508 | a count never exceeds the number of rules |
| `Counts.CategoryCounts` | tools/create_normative_rules.py:1463-1468 | every listed category is one asked for, with its count, which is positive |
| `Counts.ShownCategories` | tools/create_normative_rules.py:1470-1478 | the breakdown lists WARL then WLRL, each only when its count is positive |
| `Counts.CountCategories` | tools/create_normative_rules.py:1463-1468 | the category loop keeps the non-zero counts in order and sums what it subtracts |
| `Counts.GetImpldefsCounts` | tools/create_normative_rules.py:1447-1480 | computes the number of rules, of implementation-defined rules, and the breakdown shown only when both are positive |
| `Counts.ImpldefSplit` | tools/create_normative_rules.py:1461-1468 | with consistent categories, implementation-defined rules split into no category, WARL and WLRL |
| `Counts.CategorisedSum` | tools/create_normative_rules.py:1461-1468 | the amount subtracted is the WARL count plus the WLRL count |
| `Counts.NoCategoryCount` | tools/create_normative_rules.py:1461-1468 | the "No Category" figure is exactly the number of implementation-defined rules without a category, never a negative remainder |
| `Counts.BreakdownShownIffCategorised` | tools/create_normative_rules.py:1470-1478 | the breakdown is shown exactly when some rule has a category |
| `HtmlTables.NameRowSpan` | tools/create_normative_rules.py:1255-1265 | the row span of the name cell equals the number of rows `html_table_row` writes for the rule (lines 1277-1389) |
| `HtmlTables.ExtractTagsTableCells` | tools/create_normative_rules.py:1569-1581 | no cells exactly for the empty row; otherwise one more cell than there are `\|`, each stripped and free of `\|` |
| `HtmlTables.CellsJoinToRow` | tools/create_normative_rules.py:1569-1581 | when no piece has surrounding whitespace, joining the cells with `\|` gives the row back |
| `Text.Strip` | tools/detect_tag_changes.py:234 | the result is the slice of the input that starts after the leading whitespace run and is followed only by whitespace. It neither starts nor ends with whitespace, holds only characters of the input, and a string already stripped is unchanged |
| `Text.WordsStrip` | tools/detect_tag_changes.py:234 | stripping a text does not change its words (`str.split()`) |
| `Text.Split` | tools/create_normative_rules.py:1581 | one more piece than there are separators, none holding the separator |
| `Text.JoinSplit` | tools/create_normative_rules.py:1581 | joining the pieces of a split with the separator gives the string back |
| `TagChanges.Changes.TotalChanges` | tools/detect_tag_changes.py:27-29 | when no tag is in two of the maps, the total is the number of distinct tags the changes name |
| `TagChanges.Changes.AnyChanges` | tools/detect_tag_changes.py:23-25 | some change exactly when the total is positive |
| `TagChanges.Collapse` | tools/detect_tag_changes.py:234 | empty exactly for the empty string, starts with whitespace exactly when the input does, and its only whitespace is the plain space (its content: `TagChanges.CollapseJoinsWords`) |
| `TagChanges.CollapseJoinsWords` | tools/detect_tag_changes.py:234 | on a non-empty text with no whitespace at either end, replacing each whitespace run by one space gives the text's words, in order, joined by single spaces |
| `TagChanges.CollapseLast` | tools/detect_tag_changes.py:234 | ends with whitespace exactly when the input does |
| `TagChanges.CollapseNoRuns` | tools/detect_tag_changes.py:234 | no two whitespace characters are adjacent |
| `TagChanges.NormalizeWhitespace` | tools/detect_tag_changes.py:225-234 | the result is stripped, its only whitespace is single plain spaces (its content: `TagChanges.NormalizeWhitespaceJoinsWords`) |
| `TagChanges.NormalizeWhitespaceJoinsWords` | tools/detect_tag_changes.py:225-234 | normalising whitespace is `' '.join(text.split())`: the text's words, in order, separated by single spaces, and "" when there are none |
| `TagChanges.NormalizeTextWords` | tools/detect_tag_changes.py:213-223 | the normalised text is the formatting stripper applied to the text's words joined by single spaces (to "" when there are none) |
| `TagChanges.CollapseFixed` | tools/detect_tag_changes.py:234 | a string whose whitespace is single plain spaces is left alone |
| `TagChanges.NormalizeWhitespaceIdempotent` | tools/detect_tag_changes.py:225-234 | normalising twice is normalising once |
| `TagChanges.Added` | tools/detect_tag_changes.py:74-79 | the added tags are those of the current map only |
| `TagChanges.Deleted` | tools/detect_tag_changes.py:81-85 | the deleted tags are those of the reference map only |
| `TagChanges.ModifiedKeys` | tools/detect_tag_changes.py:87-101 | only tags of both maps can be modified |
| `TagChanges.Modified` | tools/detect_tag_changes.py:87-101 | the modified tags are the common tags whose normalised texts differ |
| `TagChanges.DetectChanges` | tools/detect_tag_changes.py:61-103 | the three loops compute `Diff` of the two maps |
| `TagChanges.CopyEntries` | tools/detect_tag_changes.py:74-85 | the added and deleted loops copy exactly the entries under the given keys |
| `TagChanges.CollectModified` | tools/detect_tag_changes.py:87-101 | the modified loop keeps exactly the common tags whose normalised texts differ, with both original texts |
| `TagChanges.DiffDisjoint` | tools/detect_tag_changes.py:61-103 | added, deleted and modified tags are pairwise disjoint and all come from the two maps |
| `TagChanges.KeyPartsDisjoint` | tools/detect_tag_changes.py:72-88 | current-only, reference-only and common tags never overlap |
| `TagChanges.DiffTotal` | tools/detect_tag_changes.py:27-29 | the total number of changes is the number of distinct tags changed |
| `TagChanges.SelfComparison` | tools/detect_tag_changes.py:61-103 | comparing a map with itself finds no change |
| `TagChanges.WhitespaceOnlyEditsIgnored` | tools/detect_tag_changes.py:87-101 | a tag whose texts differ only in whitespace is not modified |
| `TagChanges.SameWordsSameTag` | tools/detect_tag_changes.py:87-101 | a tag whose two texts have the same words, however they are spaced, is not modified |
| `TagChanges.MergeAdditions` | tools/detect_tag_changes.py:166-195 | with no additions the tags are unchanged; otherwise the result is the tags overridden by the additions |
| `TagChanges.MergeAddsMissingTags` | tools/detect_tag_changes.py:191-195 | merging a diff's additions into the reference keeps every reference tag and adds every current-only tag with its current text |
| `TagChanges.MergeCount` | tools/detect_tag_changes.py:189-204 | the merged count is the original count plus the number of additions |
| `TagChanges.ExitStatus` | tools/detect_tag_changes.py:348-352 | the status is 0 or 1 |
| `TagChanges.ExitZeroIffReferenceKept` | tools/detect_tag_changes.py:348-352 | the status is 0 exactly when every reference tag is still present with the same normalised text, so additions alone never fail the run |
| `TagChanges.TruncateText` | tools/detect_tag_changes.py:276-288 | a short enough text is kept. A longer one becomes its first `maxLength` characters followed by `...`, so the result is never longer than `maxLength + 3` |
| `TagChanges.ShownText` | tools/detect_tag_changes.py:131-154 | the report shows a text of up to 100 characters whole and a longer one as its first 100 characters and `...`, never more than 103 characters |

## Left out

- Reading and writing files is not modelled: JSON and YAML parsing, the
  command line, `info`/`error` printing and the wording of messages. The tools
  are modelled from already-parsed values onward. A tag file is a sequence of
  (name, value) pairs with distinct names, and a definition file is a sequence
  of `DefEntry` records.
- The `isinstance` checks are not modelled, because the inputs are typed. The
  one type check with its own message, a tag value that is not a string, is
  kept as `TagValue.NotText`.
- The clarification-link regular expression is the parameter `isIssueLink`: it
  decides only a non-fatal report.
- `_strip_asciidoc_formatting` is the parameter `stripFormatting`, since
  `Adoc2HTML` and the AsciiDoc stripper are text rewriting outside this model.
- HTML and JSON rendering are not modelled, apart from the row count of the
  name cell and the splitting of tags-table rows. This covers cell contents,
  tag-to-HTML links and `convert_*`.
- `html_table_row`'s own fatal error for a missing tag is not modelled. Its
  HTML file lookup is not modelled either.
- RuleDefs.NewRuleDef: it applies the corrected name check
  `NamePatternHolds`, not the source's `re.match`. So it refuses a name with a
  trailing newline, such as `"ab\n"`, which the source accepts. The check as
  written is `RuleDefs.NameMatchesAsWritten` (see "Findings").
- `display_changes` and `load_tags` of `detect_tag_changes.py` are I/O and are
  not modelled, apart from how `display_changes` shows a tag text
  (`TagChanges.ShownText`).
- TagChanges.MergeAdditions: it works on the `tags` map of the file being
  updated, passed in as a value; reading and writing that file is not modelled.
- Python sets and dicts iterate in an order the model does not fix. The diff
  and the merge are stated on whole maps, so their loops pick keys in any
  order. The key order of the written JSON is not modelled.
- The state left behind after a fatal error is modelled as far as the methods
  promise it, e.g. that `AddTags` never loses a stored tag. The process exit
  itself is an error value.
- TagChanges.TruncateText: `max_length` is a `nat`. A negative
  `max_length`, which Python would slice from the end, is not modelled; the
  tool only uses the default of 100.
- Counts.GetImpldefsCounts: the counts are modelled, not the text of the
  counts line, including the plural "s".
- Counts.NoCategoryCount and Counts.BreakdownShownIffCategorised assume
  what loading guarantees: a category only on implementation-defined rules,
  and only WARL or WLRL.

## Findings

| source | as written | input that shows it | evidently intended | confidence | as-written member | corrected member |
|---|---|---|---|---|---|---|
| tools/create_normative_rules.py:212-215 | `re.match` with a pattern ending in `$` also matches just before a final newline, so a rule name with a trailing newline passes the name check | the rule name `"ab\n"` with `impl-def-behavior` false | the whole name matches `[a-zA-Z][a-zA-Z0-9_-]+` (or `[A-Z][A-Z0-9_]+`), e.g. with `re.fullmatch` or `\Z` | high, not executed | `RuleDefs.TrailingNewlineAcceptedAsWritten` | `RuleDefs.AcceptedNamesAreClean` |

The as-written check is `RuleDefs.NameMatchesAsWritten`. The corrected check
is `RuleDefs.NamePatternHolds`, which `RuleDefs.NewRuleDef` uses.
