/** The normative-rule tag store of `create_normative_rules.py`: one flat
    collection of tags, uniquely keyed by tag name across every tag file of a
    standard, kept in the order the tags were added. */
module TagStore {
  import opened Wrappers

  /** One tag: the anchor name, the tag file it came from and its text. */
  datatype Tag = Tag(name: string, tagFilename: string, text: string)

  /** The value a tag file gives for a tag name. A value that is not text
      (typically a list, when the anchor was put before a description-list
      term) is refused. */
  datatype TagValue = Text(text: string) | NotText

  datatype TagError =
    | NonTextTag(name: string, tagFilename: string)
    | DuplicateTag(name: string, tagFilename: string, originalFilename: string)

  /** The tag names of a tag file, in file order. A tag file is a JSON
      object, so its names are distinct. */
  function BatchNames(batch: seq<(string, TagValue)>): (names: seq<string>)
    ensures |names| == |batch|
    ensures forall k :: 0 <= k < |batch| ==> names[k] == batch[k].0
  {
    if batch == [] then [] else BatchNames(batch[..|batch| - 1]) + [batch[|batch| - 1].0]
  }

  ghost predicate DistinctNames(batch: seq<(string, TagValue)>) {
    forall i, j :: 0 <= i < j < |batch| ==> batch[i].0 != batch[j].0
  }

  ghost predicate Distinct(s: seq<string>) {
    forall i, j :: 0 <= i < j < |s| ==> s[i] != s[j]
  }

  /** The verdict on one entry of a tag file, given the tags stored so far:
      its value must be text and its name must be new. */
  function EntryError(tagFilename: string, name: string, value: TagValue,
                      stored: map<string, Tag>): Option<TagError>
  {
    if value.NotText? then Some(NonTextTag(name, tagFilename))
    else if name in stored then Some(DuplicateTag(name, tagFilename, stored[name].tagFilename))
    else None
  }

  /** The store after the text entries of `batch` have been added to
      `stored`, one after the other. */
  ghost function WithBatch(stored: map<string, Tag>, tagFilename: string,
                           batch: seq<(string, TagValue)>): map<string, Tag>
  {
    if batch == [] then stored
    else
      var (name, value) := batch[|batch| - 1];
      var before := WithBatch(stored, tagFilename, batch[..|batch| - 1]);
      if value.Text? then before[name := Tag(name, tagFilename, value.text)] else before
  }

  /** Adding a tag file binds each of its text entries to its own tag, keeps
      every stored tag the file does not name, and adds nothing else. */
  lemma {:induction false} WithBatchBinds(stored: map<string, Tag>, tagFilename: string,
                                          batch: seq<(string, TagValue)>)
    requires DistinctNames(batch)
    ensures forall k :: 0 <= k < |batch| && batch[k].1.Text? ==>
              var added := WithBatch(stored, tagFilename, batch);
              batch[k].0 in added && added[batch[k].0] == Tag(batch[k].0, tagFilename, batch[k].1.text)
    ensures forall n :: n in stored && n !in BatchNames(batch) ==>
              n in WithBatch(stored, tagFilename, batch) && WithBatch(stored, tagFilename, batch)[n] == stored[n]
    ensures forall n :: n in WithBatch(stored, tagFilename, batch) ==> n in stored || n in BatchNames(batch)
  {
    if batch != [] {
      var init := batch[..|batch| - 1];
      WithBatchBinds(stored, tagFilename, init);
      assert BatchNames(batch) == BatchNames(init) + [batch[|batch| - 1].0];
    }
  }

  /** Adding entries that `EntryError` accepts keeps every stored tag. */
  lemma KeepsStored(stored: map<string, Tag>, tagFilename: string, batch: seq<(string, TagValue)>)
    requires DistinctNames(batch)
    requires forall j :: 0 <= j < |batch| ==> EntryError(tagFilename, batch[j].0, batch[j].1, stored).None?
    ensures forall n :: n in stored ==> n in WithBatch(stored, tagFilename, batch)
                                        && WithBatch(stored, tagFilename, batch)[n] == stored[n]
  {
    WithBatchBinds(stored, tagFilename, batch);
    forall n, j | n in stored && 0 <= j < |batch|
      ensures BatchNames(batch)[j] != n
    {
      assert EntryError(tagFilename, batch[j].0, batch[j].1, stored).None?;
    }
  }

  /** The tags of `stored` named by `names`, in that order. */
  function TagsInOrder(stored: map<string, Tag>, names: seq<string>): (tags: seq<Tag>)
    requires forall k :: 0 <= k < |names| ==> names[k] in stored
    ensures |tags| == |names|
    ensures forall k :: 0 <= k < |names| ==> tags[k] == stored[names[k]]
  {
    if names == [] then [] else [stored[names[0]]] + TagsInOrder(stored, names[1..])
  }

  /** A sequence without repetitions has as many elements as the set of its
      elements. */
  lemma {:induction false} DistinctCardinality(s: seq<string>)
    requires Distinct(s)
    ensures |set x | x in s| == |s|
  {
    if s != [] {
      var last := s[|s| - 1];
      var init := s[..|s| - 1];
      DistinctCardinality(init);
      assert (set x | x in s) == (set x | x in init) + {last};
      assert last !in (set x | x in init);
    }
  }

  /** Listing a store by its insertion order lists each stored tag once. */
  lemma StoreListing(stored: map<string, Tag>, order: seq<string>)
    requires Distinct(order) && forall n :: n in stored <==> n in order
    requires forall n :: n in stored ==> stored[n].name == n
    ensures |stored| == |order|
    ensures forall n :: n in stored ==> stored[n] in TagsInOrder(stored, order)
    ensures forall i, j :: 0 <= i < j < |order| ==>
              TagsInOrder(stored, order)[i].name != TagsInOrder(stored, order)[j].name
  {
    DistinctCardinality(order);
    assert (set x | x in order) == stored.Keys;
    var tags := TagsInOrder(stored, order);
    forall n | n in stored
      ensures stored[n] in tags
    {
      var i :| 0 <= i < |order| && order[i] == n;
      assert tags[i] == stored[n];
    }
  }

  class NormativeTags {
    /** The tags by name (`tag_map`). */
    var tagMap: map<string, Tag>
    /** The names in insertion order: the order a Python dict keeps. */
    var order: seq<string>

    ghost predicate Valid()
      reads this
    {
      && Distinct(order)
      && (forall n :: n in tagMap <==> n in order)
      && (forall n :: n in tagMap ==> tagMap[n].name == n)
    }

    constructor ()
      ensures Valid() && tagMap == map[] && order == []
    {
      tagMap := map[];
      order := [];
    }

    /** `add_tags`: adds the tags of one tag file, entry by entry. The first
        entry whose value is not text, or whose name is already stored, is
        fatal; the entries before it have been added by then. */
    method AddTags(tagFilename: string, batch: seq<(string, TagValue)>)
      returns (result: Outcome<TagError>)
      requires Valid() && DistinctNames(batch)
      modifies this
      ensures Valid()
      ensures forall n :: n in old(tagMap) ==> n in tagMap && tagMap[n] == old(tagMap)[n]
      ensures old(order) <= order
      ensures result.Pass? <==>
                forall k :: 0 <= k < |batch| ==> EntryError(tagFilename, batch[k].0, batch[k].1, old(tagMap)).None?
      ensures result.Pass? ==> order == old(order) + BatchNames(batch)
      ensures result.Pass? ==>
                forall k :: 0 <= k < |batch| ==> tagMap[batch[k].0] == Tag(batch[k].0, tagFilename, batch[k].1.text)
      ensures result.Fail? ==>
                exists k :: 0 <= k < |batch|
                  && (forall j :: 0 <= j < k ==> EntryError(tagFilename, batch[j].0, batch[j].1, old(tagMap)).None?)
                  && EntryError(tagFilename, batch[k].0, batch[k].1, old(tagMap)) == Some(result.error)
    {
      var k := 0;
      while k < |batch|
        invariant 0 <= k <= |batch|
        invariant Valid()
        invariant order == old(order) + BatchNames(batch[..k])
        invariant forall j :: 0 <= j < k ==> EntryError(tagFilename, batch[j].0, batch[j].1, old(tagMap)).None?
        invariant tagMap == WithBatch(old(tagMap), tagFilename, batch[..k])
      {
        var error := AddEntry(tagFilename, batch, k, old(tagMap), old(order));
        if error.Some? {
          KeepsStored(old(tagMap), tagFilename, batch[..k]);
          return Fail(error.value);
        }
        k := k + 1;
      }
      assert batch[..k] == batch;
      WithBatchBinds(old(tagMap), tagFilename, batch);
      KeepsStored(old(tagMap), tagFilename, batch);
      return Pass;
    }

    /** One step of `add_tags`, on the entry `batch[k]` once the entries
        before it have been added to the store `stored`: refuses the entry as
        `EntryError` says, or binds its name to its tag. */
    method AddEntry(tagFilename: string, batch: seq<(string, TagValue)>, k: nat,
                    ghost stored: map<string, Tag>, ghost storedOrder: seq<string>)
      returns (error: Option<TagError>)
      requires Valid() && DistinctNames(batch) && k < |batch|
      requires order == storedOrder + BatchNames(batch[..k])
      requires tagMap == WithBatch(stored, tagFilename, batch[..k])
      requires forall j :: 0 <= j < k ==> EntryError(tagFilename, batch[j].0, batch[j].1, stored).None?
      modifies this
      ensures Valid()
      ensures error == EntryError(tagFilename, batch[k].0, batch[k].1, stored)
      ensures error.Some? ==> tagMap == old(tagMap) && order == old(order)
      ensures error.None? ==>
                && order == storedOrder + BatchNames(batch[..k + 1])
                && tagMap == WithBatch(stored, tagFilename, batch[..k + 1])
    {
      var (name, value) := batch[k];
      assert name in tagMap <==> name in stored by {
        WithBatchBinds(stored, tagFilename, batch[..k]);
        assert name !in BatchNames(batch[..k]);
      }
      assert name in stored ==> tagMap[name] == stored[name] by {
        KeepsStored(stored, tagFilename, batch[..k]);
      }
      error := EntryError(tagFilename, name, value, tagMap);
      if error.None? {
        tagMap := tagMap[name := Tag(name, tagFilename, value.text)];
        order := order + [name];
        assert batch[..k + 1][..k] == batch[..k];
        assert BatchNames(batch[..k + 1]) == BatchNames(batch[..k]) + [name];
        assert order == storedOrder + (BatchNames(batch[..k]) + [name]);
      }
    }

    /** `get_tag`: the tag of that name, or None when there is none. */
    function GetTag(name: string): (r: Option<Tag>)
      reads this
      ensures r.Some? <==> name in tagMap
      ensures r.Some? ==> r.value == tagMap[name]
      ensures Valid() && r.Some? ==> r.value.name == name
    {
      if name in tagMap then Some(tagMap[name]) else None
    }

    /** `get_tags`: every stored tag exactly once, in insertion order. */
    function GetTags(): (tags: seq<Tag>)
      reads this
      requires Valid()
      ensures |tags| == |order| == |tagMap|
      ensures forall i :: 0 <= i < |tags| ==> tags[i] == tagMap[order[i]]
      ensures forall n :: n in tagMap ==> tagMap[n] in tags
      ensures forall i, j :: 0 <= i < j < |tags| ==> tags[i].name != tags[j].name
    {
      StoreListing(tagMap, order);
      TagsInOrder(tagMap, order)
    }
  }
}
