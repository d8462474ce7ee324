/** `detect_tag_changes.py`: compares a reference and a current map from tag
    name to tag text, and splits the difference into added, deleted and
    modified tags. Two texts are the same tag text when they agree after
    normalisation (whitespace, then AsciiDoc formatting). */
module TagChanges {
  import opened Text

  /** The two texts of a modified tag, as found (not normalised). */
  datatype Modification = Modification(reference: string, current: string)

  /** `TagChanges`. */
  datatype Changes = Changes(
    added: map<string, string>,
    deleted: map<string, string>,
    modified: map<string, Modification>)
  {
    /** `total_changes`: when no tag is in two of the maps, the number of
        distinct tags the changes name. */
    function TotalChanges(): (total: nat)
      ensures added.Keys !! deleted.Keys && added.Keys !! modified.Keys && deleted.Keys !! modified.Keys ==>
                total == |added.Keys + deleted.Keys + modified.Keys|
    {
      if added.Keys !! deleted.Keys && added.Keys !! modified.Keys && deleted.Keys !! modified.Keys then
        DisjointUnion(added.Keys, deleted.Keys);
        DisjointUnion(added.Keys + deleted.Keys, modified.Keys);
        |added| + |deleted| + |modified|
      else
        |added| + |deleted| + |modified|
    }

    /** `any_changes`: some map is non-empty, which is the same as a positive
        total. */
    function AnyChanges(): (r: bool)
      ensures r <==> TotalChanges() > 0
    {
      added != map[] || deleted != map[] || modified != map[]
    }
  }

  // ---------------------------------------------------------------------
  // Normalisation

  /** Replaces every run of whitespace by one space (`re.sub(r'\s+', ' ', s)`). */
  function Collapse(s: string): (r: string)
    ensures r == [] <==> s == []
    ensures s != [] ==> (IsSpace(r[0]) <==> IsSpace(s[0]))
    ensures forall i :: 0 <= i < |r| && IsSpace(r[i]) ==> r[i] == ' '
    decreases |s|
  {
    if s == [] then []
    else if IsSpace(s[0]) then [' '] + Collapse(LStrip(s[1..]))
    else [s[0]] + Collapse(s[1..])
  }

  /** Collapsing ends in whitespace exactly when the text does. */
  lemma {:induction false} CollapseLast(s: string)
    requires s != []
    ensures IsSpace(Collapse(s)[|Collapse(s)| - 1]) <==> IsSpace(s[|s| - 1])
    decreases |s|
  {
    var rest := if IsSpace(s[0]) then LStrip(s[1..]) else s[1..];
    assert Collapse(s) == [Collapse(s)[0]] + Collapse(rest);
    if rest != [] {
      CollapseLast(rest);
      assert rest[|rest| - 1] == s[|s| - 1];
    } else if |s| > 1 {
      assert IsSpace(s[1..][|s| - 2]);
    }
  }

  /** Collapsing leaves no two whitespace characters side by side. */
  lemma {:induction false} CollapseNoRuns(s: string)
    ensures forall i :: 0 <= i < |Collapse(s)| - 1 ==> !(IsSpace(Collapse(s)[i]) && IsSpace(Collapse(s)[i + 1]))
    decreases |s|
  {
    if s != [] {
      var rest := if IsSpace(s[0]) then LStrip(s[1..]) else s[1..];
      CollapseNoRuns(rest);
      var r := Collapse(s);
      var tail := Collapse(rest);
      assert r == [r[0]] + tail;
      assert IsSpace(s[0]) && tail != [] ==> !IsSpace(tail[0]);
      assert forall i :: 1 <= i < |r| ==> r[i] == tail[i - 1];
    }
  }

  /** `_normalize_whitespace`: strips, then collapses whitespace runs. */
  function NormalizeWhitespace(text: string): (r: string)
    ensures Trimmed(r)
    ensures forall i :: 0 <= i < |r| && IsSpace(r[i]) ==> r[i] == ' '
    ensures forall i :: 0 <= i < |r| - 1 ==> !(IsSpace(r[i]) && IsSpace(r[i + 1]))
  {
    var stripped := Strip(text);
    if stripped == [] then []
    else
      CollapseLast(stripped);
      CollapseNoRuns(stripped);
      Collapse(stripped)
  }

  /** A string whose only whitespace is single spaces is left alone by
      collapsing. */
  lemma {:induction false} CollapseFixed(s: string)
    requires forall i :: 0 <= i < |s| && IsSpace(s[i]) ==> s[i] == ' '
    requires forall i :: 0 <= i < |s| - 1 ==> !(IsSpace(s[i]) && IsSpace(s[i + 1]))
    ensures Collapse(s) == s
  {
    if s != [] {
      var t := s[1..];
      CollapseFixed(t);
      if IsSpace(s[0]) {
        assert t != [] ==> !IsSpace(t[0]);
        assert LStrip(t) == t;
        assert Collapse(s) == [' '] + t;
      } else {
        assert Collapse(s) == [s[0]] + t;
      }
      assert s == [s[0]] + t;
    }
  }

  /** Normalising whitespace twice is normalising it once. */
  lemma NormalizeWhitespaceIdempotent(text: string)
    ensures NormalizeWhitespace(NormalizeWhitespace(text)) == NormalizeWhitespace(text)
  {
    CollapseFixed(NormalizeWhitespace(text));
  }

  /** A whitespace run becomes one space, and the rest is collapsed after
      the run. */
  lemma CollapseSpace(v: string)
    requires v != [] && IsSpace(v[0])
    ensures Collapse(v) == [' '] + Collapse(LStrip(v[1..]))
  {
  }

  /** Collapsing passes a run of non-whitespace characters through
      unchanged. */
  lemma {:induction false} CollapseWord(t: string, n: nat)
    requires n <= |t|
    requires forall i :: 0 <= i < n ==> !IsSpace(t[i])
    ensures Collapse(t) == t[..n] + Collapse(t[n..])
  {
    if n > 0 {
      CollapseWord(t[1..], n - 1);
      DropDrop(t, 1, n - 1);
      TakeFirst(t, n);
      ConcatAssoc([t[0]], t[1..][..n - 1], Collapse(t[n..]));
    }
  }

  /** Collapsing a text that starts with a word followed by whitespace: the
      word, one space, then the collapsed rest after the whitespace run. */
  lemma CollapseAtWordEnd(t: string, w: nat)
    requires w == WordLength(t) < |t|
    ensures Collapse(t) == t[..w] + [' '] + Collapse(LStrip(t[w + 1..]))
  {
    CollapseWord(t, w);
    CollapseSpace(t[w..]);
    DropDrop(t, w, 1);
    ConcatAssoc(t[..w], [' '], Collapse(LStrip(t[w + 1..])));
  }

  /** The words of the same text: the first word, then the words of the
      rest after the whitespace run. */
  lemma WordsAtWordEnd(t: string, w: nat)
    requires t != [] && !IsSpace(t[0])
    requires w == WordLength(t) < |t|
    ensures Words(t) == [t[..w]] + Words(LStrip(t[w + 1..]))
  {
    WordsWord(t);
    WordsSkipSpace(t, w);
  }

  /** That rest is shorter and still has no whitespace at either end. */
  lemma RestTrimmed(t: string, w: nat)
    requires t != [] && Trimmed(t)
    requires w == WordLength(t) < |t|
    ensures var u := LStrip(t[w + 1..]); u != [] && Trimmed(u) && |u| < |t|
  {
    var v := t[w + 1..];
    assert v[|v| - 1] == t[|t| - 1];
  }

  /** On a text without whitespace at either end, collapsing is joining its
      words with single spaces. */
  lemma {:induction false} CollapseJoinsWords(t: string)
    requires t != [] && Trimmed(t)
    ensures Words(t) != []
    ensures Collapse(t) == Join(Words(t), ' ')
    decreases |t|
  {
    var w := WordLength(t);
    if w == |t| {
      WordsWord(t);
      CollapseWord(t, w);
      assert t[w..] == [];
      assert t[..w] == t;
    } else {
      var u := LStrip(t[w + 1..]);
      CollapseAtWordEnd(t, w);
      WordsAtWordEnd(t, w);
      RestTrimmed(t, w);
      CollapseJoinsWords(u);
      JoinCons(t[..w], Words(u), ' ');
    }
  }

  /** `_normalize_whitespace` is `' '.join(text.split())`: the words of the
      text, in order, separated by single spaces. */
  lemma NormalizeWhitespaceJoinsWords(text: string)
    ensures Words(text) == [] ==> NormalizeWhitespace(text) == []
    ensures Words(text) != [] ==> NormalizeWhitespace(text) == Join(Words(text), ' ')
  {
    WordsStrip(text);
    if Strip(text) != [] {
      CollapseJoinsWords(Strip(text));
    }
  }

  /** `_normalize_text`: whitespace first, then `stripFormatting`, which
      stands for `_strip_asciidoc_formatting`. */
  function NormalizeText(stripFormatting: string -> string, text: string): string {
    stripFormatting(NormalizeWhitespace(text))
  }

  /** The normalised text is the formatting stripper applied to the words of
      the text joined by single spaces (to "" when there are none). */
  lemma NormalizeTextWords(stripFormatting: string -> string, text: string)
    ensures Words(text) == [] ==> NormalizeText(stripFormatting, text) == stripFormatting([])
    ensures Words(text) != [] ==> NormalizeText(stripFormatting, text) == stripFormatting(Join(Words(text), ' '))
  {
    NormalizeWhitespaceJoinsWords(text);
  }

  /** Texts with the same words, whatever whitespace separates them, have
      the same normalised text, so they never make a tag modified. */
  lemma SameWordsSameTag(reference: map<string, string>, current: map<string, string>,
                         stripFormatting: string -> string, k: string)
    requires k in reference && k in current
    requires Words(reference[k]) == Words(current[k])
    ensures k !in Diff(reference, current, stripFormatting).modified
  {
    NormalizeTextWords(stripFormatting, reference[k]);
    NormalizeTextWords(stripFormatting, current[k]);
  }

  // ---------------------------------------------------------------------
  // The diff

  /** Two texts of one tag differ when their normalised forms do. */
  predicate Differ(stripFormatting: string -> string, reference: string, current: string) {
    NormalizeText(stripFormatting, reference) != NormalizeText(stripFormatting, current)
  }

  /** The tags only the current map has, with their current text. */
  function Added(reference: map<string, string>, current: map<string, string>): (added: map<string, string>)
    ensures added.Keys == current.Keys - reference.Keys
  {
    map k | k in current.Keys - reference.Keys :: current[k]
  }

  /** The tags only the reference map has, with their reference text. */
  function Deleted(reference: map<string, string>, current: map<string, string>): (deleted: map<string, string>)
    ensures deleted.Keys == reference.Keys - current.Keys
  {
    map k | k in reference.Keys - current.Keys :: reference[k]
  }

  /** The tags both maps have whose texts differ once normalised. */
  function ModifiedKeys(reference: map<string, string>, current: map<string, string>,
                        stripFormatting: string -> string): (keys: set<string>)
    ensures keys <= reference.Keys * current.Keys
  {
    set k | k in reference.Keys * current.Keys && Differ(stripFormatting, reference[k], current[k])
  }

  /** Those tags, with both of their texts as found. */
  function Modified(reference: map<string, string>, current: map<string, string>,
                    stripFormatting: string -> string): (modified: map<string, Modification>)
    ensures modified.Keys == ModifiedKeys(reference, current, stripFormatting)
  {
    map k | k in ModifiedKeys(reference, current, stripFormatting) :: Modification(reference[k], current[k])
  }

  /** What `detect_changes` computes, stated on whole maps. */
  function Diff(reference: map<string, string>, current: map<string, string>,
                stripFormatting: string -> string): Changes
  {
    Changes(Added(reference, current), Deleted(reference, current), Modified(reference, current, stripFormatting))
  }

  /** `detect_changes`: one loop over each of the three key sets, in whatever
      order the set yields its elements. */
  method DetectChanges(reference: map<string, string>, current: map<string, string>,
                       stripFormatting: string -> string)
    returns (changes: Changes)
    ensures changes == Diff(reference, current, stripFormatting)
  {
    var added := CopyEntries(current, current.Keys - reference.Keys);
    var deleted := CopyEntries(reference, reference.Keys - current.Keys);
    var modified := CollectModified(reference, current, stripFormatting);
    changes := Changes(added, deleted, modified);
  }

  /** The added and deleted loops: the entries of `source` under `keys`. */
  method CopyEntries(source: map<string, string>, keys: set<string>) returns (copied: map<string, string>)
    requires keys <= source.Keys
    ensures copied == map k | k in keys :: source[k]
  {
    copied := map[];
    var remaining := keys;
    while remaining != {}
      invariant remaining <= keys
      invariant copied.Keys == keys - remaining
      invariant forall k :: k in copied ==> copied[k] == source[k]
      decreases remaining
    {
      var name :| name in remaining;
      copied := copied[name := source[name]];
      remaining := remaining - {name};
    }
  }

  /** The modified loop: compares the normalised texts of each common tag. */
  method CollectModified(reference: map<string, string>, current: map<string, string>,
                         stripFormatting: string -> string)
    returns (modified: map<string, Modification>)
    ensures modified == Modified(reference, current, stripFormatting)
  {
    modified := map[];
    var commonKeys := reference.Keys * current.Keys;
    var remaining := commonKeys;
    while remaining != {}
      invariant remaining <= commonKeys
      invariant forall k :: k in modified <==> k in commonKeys && k !in remaining && Differ(stripFormatting, reference[k], current[k])
      invariant forall k :: k in modified ==> modified[k] == Modification(reference[k], current[k])
      decreases remaining
    {
      var name :| name in remaining;
      var referenceText := reference[name];
      var currentText := current[name];
      var normalizedRef := NormalizeText(stripFormatting, referenceText);
      var normalizedCur := NormalizeText(stripFormatting, currentText);
      if normalizedRef != normalizedCur {
        modified := modified[name := Modification(referenceText, currentText)];
      }
      remaining := remaining - {name};
    }
    assert modified.Keys == ModifiedKeys(reference, current, stripFormatting);
  }

  lemma DisjointUnion(a: set<string>, b: set<string>)
    requires a !! b
    ensures |a + b| == |a| + |b|
  {
    assert a * b == {};
  }

  /** The three parts are pairwise disjoint and together cover exactly the
      tags that are new, gone or changed. */
  lemma DiffDisjoint(reference: map<string, string>, current: map<string, string>,
                     stripFormatting: string -> string)
    ensures var d := Diff(reference, current, stripFormatting);
      && d.added.Keys !! d.deleted.Keys
      && d.added.Keys !! d.modified.Keys
      && d.deleted.Keys !! d.modified.Keys
      && d.added.Keys + d.deleted.Keys + d.modified.Keys <= reference.Keys + current.Keys
  {
    var d := Diff(reference, current, stripFormatting);
    KeyPartsDisjoint(reference.Keys, current.Keys, d.added.Keys, d.deleted.Keys, d.modified.Keys);
  }

  /** Tags only in the current map, tags only in the reference map and tags
      in both never overlap. */
  lemma KeyPartsDisjoint(reference: set<string>, current: set<string>,
                         added: set<string>, deleted: set<string>, modified: set<string>)
    requires added == current - reference && deleted == reference - current
    requires modified <= reference * current
    ensures added !! deleted && added !! modified && deleted !! modified
    ensures added + deleted + modified <= reference + current
  {
    forall k | k in added ensures k !in deleted && k !in modified {
      assert k !in reference;
    }
    forall k | k in deleted ensures k !in modified {
      assert k !in current;
    }
  }

  /** `total_changes` of a diff is the number of distinct tags it names. */
  lemma DiffTotal(reference: map<string, string>, current: map<string, string>,
                  stripFormatting: string -> string)
    ensures var d := Diff(reference, current, stripFormatting);
      d.TotalChanges() == |d.added.Keys + d.deleted.Keys + d.modified.Keys|
  {
    DiffDisjoint(reference, current, stripFormatting);
  }

  /** Comparing a map with itself finds nothing. */
  lemma SelfComparison(tags: map<string, string>, stripFormatting: string -> string)
    ensures !Diff(tags, tags, stripFormatting).AnyChanges()
  {
    var d := Diff(tags, tags, stripFormatting);
    assert d.added.Keys == {};
    assert d.deleted.Keys == {};
    assert d.modified.Keys == {};
  }

  /** Changes that only touch whitespace are no changes. */
  lemma WhitespaceOnlyEditsIgnored(reference: map<string, string>, current: map<string, string>,
                                   stripFormatting: string -> string, k: string)
    requires k in reference && k in current
    requires NormalizeWhitespace(reference[k]) == NormalizeWhitespace(current[k])
    ensures k !in Diff(reference, current, stripFormatting).modified
  {
  }

  // ---------------------------------------------------------------------
  // Merging additions and the exit status

  /** The in-memory merge of `update_tags_file`: with no additions nothing
      changes; otherwise every added tag is written into the file's tags, one
      at a time. */
  method MergeAdditions(tags: map<string, string>, added: map<string, string>)
    returns (merged: map<string, string>)
    ensures added == map[] ==> merged == tags
    ensures merged == tags + added
  {
    if added == map[] {
      return tags;
    }
    merged := tags;
    var remaining := added.Keys;
    while remaining != {}
      invariant remaining <= added.Keys
      invariant merged.Keys == tags.Keys + (added.Keys - remaining)
      invariant forall k :: k in merged ==> merged[k] == if k in added.Keys - remaining then added[k] else tags[k]
      decreases remaining
    {
      var name :| name in remaining;
      merged := merged[name := added[name]];
      remaining := remaining - {name};
    }
  }

  /** Merging the additions of a diff into the reference keeps every
      reference tag as it was and brings in every tag of the current map that
      was missing, with its current text. */
  lemma MergeAddsMissingTags(reference: map<string, string>, current: map<string, string>)
    ensures var merged := reference + Added(reference, current);
      && merged.Keys == reference.Keys + current.Keys
      && (forall k :: k in reference ==> merged[k] == reference[k])
      && (forall k :: k in current && k !in reference ==> merged[k] == current[k])
  {
  }

  /** The merge grows the tag count by exactly the number of additions
      (`original_count -> new_count` in the report line). */
  lemma MergeCount(reference: map<string, string>, current: map<string, string>)
    ensures |reference + Added(reference, current)| == |reference| + |Added(reference, current)|
  {
    var added := Added(reference, current);
    assert (reference + added).Keys == reference.Keys + added.Keys;
    DisjointUnion(reference.Keys, added.Keys);
  }

  /** The exit status of `main`: 1 when a tag was deleted or modified. */
  function ExitStatus(changes: Changes): (status: int)
    ensures status == 0 || status == 1
  {
    if changes.modified != map[] || changes.deleted != map[] then 1 else 0
  }

  /** The run exits 0 exactly when every reference tag is still present with
      the same normalised text; additions alone never fail it. */
  lemma ExitZeroIffReferenceKept(reference: map<string, string>, current: map<string, string>,
                                 stripFormatting: string -> string)
    ensures ExitStatus(Diff(reference, current, stripFormatting)) == 0 <==>
              forall k :: k in reference ==> k in current && !Differ(stripFormatting, reference[k], current[k])
  {
    var d := Diff(reference, current, stripFormatting);
    if d.modified != map[] {
      var k :| k in d.modified;
      assert k in reference;
    } else if d.deleted != map[] {
      var k :| k in d.deleted;
      assert k in reference && k !in current;
    } else {
      forall k | k in reference
        ensures k in current && !Differ(stripFormatting, reference[k], current[k])
      {
        assert k !in d.deleted.Keys && k !in d.modified.Keys;
      }
    }
  }

  // ---------------------------------------------------------------------
  // Display helper

  /** The default `max_length` of `_truncate_text`. */
  const DefaultMaxLength: nat := 100

  /** `_truncate_text`: the text itself when short enough, otherwise its first
      `maxLength` characters followed by "...". */
  function TruncateText(text: string, maxLength: nat): (r: string)
    ensures |text| <= maxLength ==> r == text
    ensures |text| > maxLength ==> |r| == maxLength + 3 && r[..maxLength] == text[..maxLength] && r[maxLength..] == "..."
    ensures |r| <= maxLength + 3
  {
    if |text| <= maxLength then text else text[..maxLength] + "..."
  }

  /** A tag text as the report shows it: truncated at the default length,
      so a text of up to 100 characters is shown whole and a longer one as
      its first 100 characters and "...". */
  function ShownText(text: string): (r: string)
    ensures |text| <= DefaultMaxLength ==> r == text
    ensures |text| > DefaultMaxLength ==> r == text[..DefaultMaxLength] + "..."
    ensures |r| <= DefaultMaxLength + 3
  {
    TruncateText(text, DefaultMaxLength)
  }
}
