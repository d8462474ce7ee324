/** The implementation-defined behaviour counts that head the HTML output of
    `create_normative_rules.py` (`get_impldefs_counts_str`, `count_impldefs`,
    `count_impldef_cats`). */
module Counts {
  import opened Wrappers
  import opened RuleDefs

  /** What a rule definition is counted for. */
  datatype Criterion = Impldef | InCategory(category: string) | ImpldefWithoutCategory

  predicate Meets(d: RuleDef, c: Criterion) {
    match c
    case Impldef => d.impldef
    case InCategory(category) => d.impldefCategory == Some(category)
    case ImpldefWithoutCategory => d.impldef && d.impldefCategory.None?
  }

  /** How many of `nrs` meet `c`, counted front to back. */
  function CountMeeting(nrs: seq<RuleDef>, c: Criterion): nat {
    if nrs == [] then 0
    else CountMeeting(nrs[..|nrs| - 1], c) + (if Meets(nrs[|nrs| - 1], c) then 1 else 0)
  }

  /** The positions of the definitions that meet `c`: the reference the
      counts are checked against. */
  function Matching(nrs: seq<RuleDef>, c: Criterion): set<int> {
    set i | 0 <= i < |nrs| && Meets(nrs[i], c)
  }

  lemma {:induction false} CountIsCardinality(nrs: seq<RuleDef>, c: Criterion)
    ensures CountMeeting(nrs, c) == |Matching(nrs, c)|
  {
    if nrs != [] {
      var init := nrs[..|nrs| - 1];
      CountIsCardinality(init, c);
      MatchingStep(nrs, c);
      assert |nrs| - 1 !in Matching(init, c);
    }
  }

  /** The positions meeting `c` are those of all but the last definition,
      plus the last one if it meets `c`. */
  lemma MatchingStep(nrs: seq<RuleDef>, c: Criterion)
    requires nrs != []
    ensures Matching(nrs, c) ==
              Matching(nrs[..|nrs| - 1], c) + (if Meets(nrs[|nrs| - 1], c) then {|nrs| - 1} else {})
  {
    var init := nrs[..|nrs| - 1];
    forall i | 0 <= i < |init|
      ensures init[i] == nrs[i]
    {
    }
  }

  lemma {:induction false} CountBound(nrs: seq<RuleDef>, c: Criterion)
    ensures CountMeeting(nrs, c) <= |nrs|
  {
    if nrs != [] {
      CountBound(nrs[..|nrs| - 1], c);
    }
  }

  /** `count_impldefs`. */
  method CountImpldefs(nrs: seq<RuleDef>) returns (count: nat)
    ensures count == CountMeeting(nrs, Impldef)
    ensures count == |Matching(nrs, Impldef)| && count <= |nrs|
  {
    count := 0;
    var i := 0;
    while i < |nrs|
      invariant 0 <= i <= |nrs|
      invariant count == CountMeeting(nrs[..i], Impldef)
    {
      assert nrs[..i + 1][..i] == nrs[..i];
      if nrs[i].impldef {
        count := count + 1;
      }
      i := i + 1;
    }
    assert nrs[..i] == nrs;
    CountIsCardinality(nrs, Impldef);
    CountBound(nrs, Impldef);
  }

  /** `count_impldef_cats`. */
  method CountImpldefCats(nrs: seq<RuleDef>, impldefCategory: string) returns (count: nat)
    ensures count == CountMeeting(nrs, InCategory(impldefCategory))
    ensures count == |Matching(nrs, InCategory(impldefCategory))| && count <= |nrs|
  {
    count := 0;
    var i := 0;
    while i < |nrs|
      invariant 0 <= i <= |nrs|
      invariant count == CountMeeting(nrs[..i], InCategory(impldefCategory))
    {
      assert nrs[..i + 1][..i] == nrs[..i];
      if nrs[i].impldefCategory == Some(impldefCategory) {
        count := count + 1;
      }
      i := i + 1;
    }
    assert nrs[..i] == nrs;
    CountIsCardinality(nrs, InCategory(impldefCategory));
    CountBound(nrs, InCategory(impldefCategory));
  }

  /** The parenthesised part of the counts line: the rules without a category
      (what is left of the total after subtracting the categorised ones), then
      each category with a non-zero count. */
  datatype Breakdown = Breakdown(noCategory: int, categories: seq<(string, nat)>)

  /** What the counts line says: the number of rules, the number of
      implementation-defined behaviours (shown when positive) and the
      breakdown (shown when some category has a non-zero count). */
  datatype ImpldefCounts = ImpldefCounts(numRules: nat, numImpldefs: nat, breakdown: Option<Breakdown>)

  /** The categories of `categories` with a non-zero count, with their counts,
      in order. */
  function CategoryCounts(nrs: seq<RuleDef>, categories: seq<string>): (shown: seq<(string, nat)>)
    ensures forall k :: 0 <= k < |shown| ==>
              shown[k].0 in categories && shown[k].1 == CountMeeting(nrs, InCategory(shown[k].0)) && shown[k].1 > 0
  {
    if categories == [] then []
    else
      var last := categories[|categories| - 1];
      var n := CountMeeting(nrs, InCategory(last));
      var shown := CategoryCounts(nrs, categories[..|categories| - 1]);
      if n > 0 then shown + [(last, n)] else shown
  }

  /** One more category: its count is appended when non-zero. */
  lemma CategoryCountsStep(nrs: seq<RuleDef>, categories: seq<string>, k: nat)
    requires k < |categories|
    ensures CategoryCounts(nrs, categories[..k + 1]) ==
              CategoryCounts(nrs, categories[..k])
                + (if CountMeeting(nrs, InCategory(categories[k])) > 0
                   then [(categories[k], CountMeeting(nrs, InCategory(categories[k])))] else [])
  {
    assert categories[..k + 1][..k] == categories[..k];
  }

  /** For the two categories the tools know, the breakdown lists WARL then
      WLRL, each only when some rule has it. */
  lemma ShownCategories(nrs: seq<RuleDef>)
    ensures CategoryCounts(nrs, ImpldefCategories) ==
              (if CountMeeting(nrs, InCategory("WARL")) > 0 then [("WARL", CountMeeting(nrs, InCategory("WARL")))] else [])
                + (if CountMeeting(nrs, InCategory("WLRL")) > 0 then [("WLRL", CountMeeting(nrs, InCategory("WLRL")))] else [])
  {
    CategoryCountsStep(nrs, ImpldefCategories, 0);
    CategoryCountsStep(nrs, ImpldefCategories, 1);
    assert ImpldefCategories[..0] == [];
    assert ImpldefCategories[..2] == ImpldefCategories;
  }

  function SumCounts(shown: seq<(string, nat)>): nat {
    if shown == [] then 0 else SumCounts(shown[..|shown| - 1]) + shown[|shown| - 1].1
  }

  /** The counts line of `get_impldefs_counts_str` for `nrs`. */
  function ImpldefCountsOf(nrs: seq<RuleDef>): ImpldefCounts {
    var numImpldefs := CountMeeting(nrs, Impldef);
    var shown := CategoryCounts(nrs, ImpldefCategories);
    if numImpldefs == 0 || shown == [] then ImpldefCounts(|nrs|, numImpldefs, None)
    else ImpldefCounts(|nrs|, numImpldefs, Some(Breakdown(numImpldefs - SumCounts(shown), shown)))
  }

  /** `ImpldefCountsOf` in terms of the two counts it is built from. */
  lemma ImpldefCountsUnfold(nrs: seq<RuleDef>, numImpldefs: nat, shown: seq<(string, nat)>)
    requires numImpldefs == CountMeeting(nrs, Impldef)
    requires shown == CategoryCounts(nrs, ImpldefCategories)
    ensures ImpldefCountsOf(nrs) ==
      if numImpldefs == 0 || shown == [] then ImpldefCounts(|nrs|, numImpldefs, None)
      else ImpldefCounts(|nrs|, numImpldefs, Some(Breakdown(numImpldefs - SumCounts(shown), shown)))
  {
  }

  /** `get_impldefs_counts_str`, without the wording: counts every category
      in turn and keeps those with a non-zero count. */
  method GetImpldefsCounts(nrDefs: seq<RuleDef>) returns (counts: ImpldefCounts)
    ensures counts == ImpldefCountsOf(nrDefs)
  {
    var numImpldefs := CountImpldefs(nrDefs);
    if numImpldefs == 0 {
      ImpldefCountsUnfold(nrDefs, numImpldefs, CategoryCounts(nrDefs, ImpldefCategories));
      return ImpldefCounts(|nrDefs|, 0, None);
    }
    var shown, categorised := CountCategories(nrDefs, ImpldefCategories);
    var noCategory: int := numImpldefs as int - categorised as int;
    ImpldefCountsUnfold(nrDefs, numImpldefs, shown);
    if shown == [] {
      return ImpldefCounts(|nrDefs|, numImpldefs, None);
    }
    return ImpldefCounts(|nrDefs|, numImpldefs, Some(Breakdown(noCategory, shown)));
  }

  /** The category loop of `get_impldefs_counts_str`: counts each category,
      keeps those with a non-zero count and sums what it keeps (the amount
      subtracted from the total). */
  method CountCategories(nrDefs: seq<RuleDef>, categories: seq<string>)
    returns (shown: seq<(string, nat)>, categorised: nat)
    ensures shown == CategoryCounts(nrDefs, categories)
    ensures categorised == SumCounts(shown)
  {
    shown, categorised := [], 0;
    var k := 0;
    while k < |categories|
      invariant 0 <= k <= |categories|
      invariant shown == CategoryCounts(nrDefs, categories[..k])
      invariant categorised == SumCounts(shown)
    {
      CategoryCountsStep(nrDefs, categories, k);
      var n := CountImpldefCats(nrDefs, categories[k]);
      if n > 0 {
        assert (shown + [(categories[k], n)])[..|shown|] == shown;
        shown := shown + [(categories[k], n)];
        categorised := categorised + n;
      }
      k := k + 1;
    }
    assert categories[..k] == categories;
  }

  /** What every loaded definition satisfies about its category (a clause of
      `RuleDefs.WellFormed`): a category only on an implementation-defined
      rule, and only WARL or WLRL. */
  predicate CategoryConsistent(d: RuleDef) {
    d.impldefCategory.Some? ==> d.impldef && d.impldefCategory.value in ImpldefCategories
  }

  /** With consistent categories, every implementation-defined rule has no
      category, WARL or WLRL. */
  lemma {:induction false} ImpldefSplit(nrs: seq<RuleDef>)
    requires forall i :: 0 <= i < |nrs| ==> CategoryConsistent(nrs[i])
    ensures CountMeeting(nrs, Impldef) ==
              CountMeeting(nrs, ImpldefWithoutCategory)
                + CountMeeting(nrs, InCategory("WARL")) + CountMeeting(nrs, InCategory("WLRL"))
  {
    if nrs != [] {
      var init := nrs[..|nrs| - 1];
      assert forall i :: 0 <= i < |init| ==> init[i] == nrs[i];
      ImpldefSplit(init);
    }
  }

  /** The "No Category" figure is the number of implementation-defined rules
      without a category, never a negative remainder. */
  lemma NoCategoryCount(nrs: seq<RuleDef>)
    requires forall i :: 0 <= i < |nrs| ==> CategoryConsistent(nrs[i])
    ensures ImpldefCountsOf(nrs).breakdown.Some? ==>
              ImpldefCountsOf(nrs).breakdown.value.noCategory == CountMeeting(nrs, ImpldefWithoutCategory)
  {
    ImpldefSplit(nrs);
    CategorisedSum(nrs);
  }

  /** The categorised rules subtracted from the total are those of WARL and
      of WLRL. */
  lemma CategorisedSum(nrs: seq<RuleDef>)
    ensures SumCounts(CategoryCounts(nrs, ImpldefCategories)) ==
              CountMeeting(nrs, InCategory("WARL")) + CountMeeting(nrs, InCategory("WLRL"))
  {
    ShownCategories(nrs);
    var warl := CountMeeting(nrs, InCategory("WARL"));
    var wlrl := CountMeeting(nrs, InCategory("WLRL"));
    var none: seq<(string, nat)> := [];
    var shown := CategoryCounts(nrs, ImpldefCategories);
    if warl > 0 && wlrl > 0 {
      assert shown == [("WARL", warl), ("WLRL", wlrl)];
      assert shown[..1] == [("WARL", warl)] && shown[..1][..0] == none;
      assert SumCounts(shown[..1]) == warl;
    } else if warl > 0 {
      assert shown == [("WARL", warl)];
      assert shown[..0] == none;
    } else if wlrl > 0 {
      assert shown == [("WLRL", wlrl)];
      assert shown[..0] == none;
    } else {
      assert shown == none;
    }
  }

  /** The breakdown is shown exactly when some rule has a category. */
  lemma BreakdownShownIffCategorised(nrs: seq<RuleDef>)
    requires forall i :: 0 <= i < |nrs| ==> CategoryConsistent(nrs[i])
    ensures ImpldefCountsOf(nrs).breakdown.Some? <==> exists i :: 0 <= i < |nrs| && nrs[i].impldefCategory.Some?
  {
    ImpldefSplit(nrs);
    ShownCategories(nrs);
    CountIsCardinality(nrs, InCategory("WARL"));
    CountIsCardinality(nrs, InCategory("WLRL"));
    if i :| 0 <= i < |nrs| && nrs[i].impldefCategory.Some? {
      assert i in Matching(nrs, InCategory(nrs[i].impldefCategory.value));
    } else {
      assert Matching(nrs, InCategory("WARL")) == {};
      assert Matching(nrs, InCategory("WLRL")) == {};
    }
  }
}
