/** Category bucketing of `SemanticAnalyzer` (cde_harmonization/grouping/semantic_analyzer.py):
    a first-match linear scan that puts each CDE row into one grouping, keyed by the categories
    of the grouping's first member, followed by dropping the groupings with a single member. */
module SemanticAnalyzer {
  import opened Wrappers
  import opened Seqs
  import opened Strings
  import opened Py

  /** A grouping: the categories value it is keyed by, and its member rows in order. */
  datatype Grouping = Grouping(categories: Value, fields: seq<Row>)

  /** A `SemanticAnalyzer` after construction: the text fields it was given and its merged options. */
  datatype Analyzer = Analyzer(fields: seq<string>, options: Options)

  const Defaults: Options := map[
    "field_name" := OStr("categories"),
    "grouping_method" := OStr("equivalence")
  ]

  /** An analyzer as `__init__` leaves it: both options the scan reads are present. */
  predicate Valid(a: Analyzer) {
    "field_name" in a.options && "grouping_method" in a.options
  }

  /** `__init__`: the defaults, overridden key by key by the caller's options. */
  function NewAnalyzer(fields: seq<string>, options: Options): (a: Analyzer)
    ensures Valid(a) && a.fields == fields
    ensures forall k :: k in options ==> k in a.options && a.options[k] == options[k]
    ensures "field_name" !in options ==> a.options["field_name"] == OStr("categories")
    ensures "grouping_method" !in options ==> a.options["grouping_method"] == OStr("equivalence")
  {
    Analyzer(fields, MergeOptions(Defaults, options))
  }

  predicate KnownMethod(m: Opt) {
    m == OStr("equivalence") || m == OStr("intersection")
  }

  /** Set of the elements of a sequence. */
  function Elements(s: seq<string>): set<string> {
    set x | x in s
  }

  /** One test of `find_grouping`'s loop: whether the grouping keyed by `key` takes a row whose
      categories are `categories`. Any method other than the two known ones raises. */
  function Accepts(m: Opt, key: Value, categories: Value): (r: Result<bool, Error>)
    ensures r.Failure? <==> !KnownMethod(m)
    ensures r.Failure? ==> r.error == UnrecognizedGroupingMethod
  {
    if m == OStr("equivalence") then
      Success(Sort(Iterate(key)) == Sort(Iterate(categories)))
    else if m == OStr("intersection") then
      Success(Elements(Iterate(key)) * Elements(Iterate(categories)) != {})
    else
      Failure(UnrecognizedGroupingMethod)
  }

  /** Equivalence compares the sorted category lists, which is equality as multisets;
      intersection asks for one shared element. */
  lemma AcceptsMeaning(m: Opt, key: Value, categories: Value)
    ensures m == OStr("equivalence") ==>
      Accepts(m, key, categories) == Success(multiset(Iterate(key)) == multiset(Iterate(categories)))
    ensures m == OStr("intersection") ==>
      Accepts(m, key, categories) == Success(exists x :: x in Iterate(key) && x in Iterate(categories))
  {
    if m == OStr("equivalence") {
      SortEqualIffSameMultiset(Iterate(key), Iterate(categories));
    } else if m == OStr("intersection") {
      var common := Elements(Iterate(key)) * Elements(Iterate(categories));
      if common != {} {
        var x :| x in common;
        assert x in Iterate(key) && x in Iterate(categories);
      }
      if exists x :: x in Iterate(key) && x in Iterate(categories) {
        var x :| x in Iterate(key) && x in Iterate(categories);
        assert x in common;
      }
    }
  }

  /** The result of `find_grouping` scanning from index `from`: the first grouping whose key
      accepts, None when none does, and a raise on an unknown method as soon as one grouping is
      tested (never when there is none). */
  function FirstMatchFrom(m: Opt, categories: Value, groupings: seq<Grouping>, from: nat): (r: Result<Option<nat>, Error>)
    requires from <= |groupings|
    ensures r.Failure? <==> from < |groupings| && !KnownMethod(m)
    ensures r.Failure? ==> r.error == UnrecognizedGroupingMethod
    ensures r.Success? && r.value.Some? ==>
      && from <= r.value.value < |groupings|
      && Accepts(m, groupings[r.value.value].categories, categories) == Success(true)
    decreases |groupings| - from
  {
    if from == |groupings| then Success(None)
    else
      match Accepts(m, groupings[from].categories, categories)
      case Failure(e) => Failure(e)
      case Success(true) => Success(Some(from))
      case Success(false) => FirstMatchFrom(m, categories, groupings, from + 1)
  }

  /** The test of one grouping, as a function of the grouping. */
  function AcceptsGrouping(m: Opt, categories: Value): Grouping -> Result<bool, Error> {
    (g: Grouping) => Accepts(m, g.categories, categories)
  }

  /** The scan is the generic first-match search with that test. */
  lemma {:induction false} FirstMatchFromFind(m: Opt, categories: Value, groupings: seq<Grouping>, from: nat)
    requires from <= |groupings|
    ensures FirstMatchFrom(m, categories, groupings, from) == FindFirst(AcceptsGrouping(m, categories), groupings, from)
    decreases |groupings| - from
  {
    if from < |groupings| {
      var v := Accepts(m, groupings[from].categories, categories);
      assert AcceptsGrouping(m, categories)(groupings[from]) == v;
      FirstMatchFromFind(m, categories, groupings, from + 1);
      if v.Failure? {
        assert FirstMatchFrom(m, categories, groupings, from) == Failure(v.error);
      } else if v.value {
        assert FirstMatchFrom(m, categories, groupings, from) == Success(Some(from));
      }
    }
  }

  /** Every grouping the scan passed over rejected the row: those before the one it found, or
      all from `from` on when it found none. */
  lemma FirstMatchFromRejects(m: Opt, categories: Value, groupings: seq<Grouping>, from: nat)
    requires from <= |groupings|
    ensures var r := FirstMatchFrom(m, categories, groupings, from);
      && (r.Success? && r.value.Some? ==>
            forall j :: from <= j < r.value.value ==> Accepts(m, groupings[j].categories, categories) == Success(false))
      && (r == Success(None) ==>
            forall j :: from <= j < |groupings| ==> Accepts(m, groupings[j].categories, categories) == Success(false))
  {
    FirstMatchFromFind(m, categories, groupings, from);
    FindFirstRejects(AcceptsGrouping(m, categories), groupings, from);
  }

  function FirstMatch(m: Opt, categories: Value, groupings: seq<Grouping>): Result<Option<nat>, Error> {
    FirstMatchFrom(m, categories, groupings, 0)
  }

  /** `find_grouping`: the loop with its early return. */
  method FindGrouping(a: Analyzer, categories: Value, groupings: seq<Grouping>) returns (r: Result<Option<nat>, Error>)
    requires Valid(a)
    ensures r == FirstMatch(a.options["grouping_method"], categories, groupings)
  {
    var m := a.options["grouping_method"];
    for i := 0 to |groupings|
      invariant FirstMatchFrom(m, categories, groupings, i) == FirstMatch(m, categories, groupings)
    {
      var accepted := Accepts(m, groupings[i].categories, categories);
      if accepted.Failure? {
        return Failure(accepted.error);
      }
      if accepted.value {
        return Success(Some(i));
      }
    }
    return Success(None);
  }

  /** `field[category_field_name]`: a list is no dict key (TypeError); a number or a missing
      column name is a KeyError. */
  function CategoriesOf(a: Analyzer, field: Row): (r: Result<Value, Error>)
    requires Valid(a)
    ensures r.Failure? <==> !HasCategories(a, field)
    ensures r.Failure? ==> r.error == LookupError(a)
    ensures r.Success? ==> r.value == field[a.options["field_name"].s]
  {
    var name := a.options["field_name"];
    if name.OList? then Failure(TypeError)
    else if name.OStr? && name.s in field then Success(field[name.s])
    else Failure(KeyError)
  }

  /** The exception `field[category_field_name]` raises when the lookup fails. */
  function LookupError(a: Analyzer): Error
    requires Valid(a)
  {
    if a.options["field_name"].OList? then TypeError else KeyError
  }

  predicate HasCategories(a: Analyzer, field: Row)
    requires Valid(a)
  {
    a.options["field_name"].OStr? && a.options["field_name"].s in field
  }

  /** The groupings before the size filter, with the index of the grouping each row was appended to. */
  datatype Bucketing = Bucketing(groupings: seq<Grouping>, assignment: seq<nat>)

  /** One scan step: the row joins grouping `found`, or starts a new grouping keyed by `categories`. */
  function Place(b: Bucketing, field: Row, categories: Value, found: Option<nat>): Bucketing
    requires found.Some? ==> found.value < |b.groupings|
  {
    match found
    case Some(k) =>
      var g := b.groupings[k];
      Bucketing(b.groupings[k := Grouping(g.categories, g.fields + [field])], b.assignment + [k])
    case None =>
      Bucketing(b.groupings + [Grouping(categories, [field])], b.assignment + [|b.groupings|])
  }

  /** The categories column of a row that has one. */
  function Cats(a: Analyzer, field: Row): Value
    requires Valid(a) && HasCategories(a, field)
  {
    field[a.options["field_name"].s]
  }

  /** One iteration of `find_groupings`' loop: look up the row's categories, then place it. */
  function BucketRow(a: Analyzer, prev: Bucketing, field: Row): (r: Result<Bucketing, Error>)
    requires Valid(a)
    ensures r.Success? ==>
      && HasCategories(a, field)
      && var found := FirstMatch(a.options["grouping_method"], Cats(a, field), prev.groupings);
         && found.Success?
         && (found.value.Some? ==> found.value.value < |prev.groupings|)
         && r.value == Place(prev, field, Cats(a, field), found.value)
    ensures r.Failure? <==> !HasCategories(a, field) || (!KnownMethod(a.options["grouping_method"]) && |prev.groupings| > 0)
    ensures r.Failure? ==> r.error == (if HasCategories(a, field) then UnrecognizedGroupingMethod else LookupError(a))
  {
    var categories :- CategoriesOf(a, field);
    var found :- FirstMatch(a.options["grouping_method"], categories, prev.groupings);
    Success(Place(prev, field, categories, found))
  }

  /** The groupings `find_groupings` has built after scanning `cde`, before the size filter. */
  function Bucket(a: Analyzer, cde: seq<Row>): (r: Result<Bucketing, Error>)
    requires Valid(a)
    ensures r.Success? ==> |r.value.assignment| == |cde|
    decreases |cde|
  {
    if cde == [] then Success(Bucketing([], []))
    else
      var prev :- Bucket(a, cde[..|cde| - 1]);
      BucketRow(a, prev, cde[|cde| - 1])
  }

  /** The final comprehension: only groupings with more than one member, in creation order. */
  function KeepShared(groupings: seq<Grouping>): (r: seq<Grouping>)
    ensures forall k :: 0 <= k < |r| ==> |r[k].fields| > 1 && r[k] in groupings
    ensures forall k :: 0 <= k < |groupings| && |groupings[k].fields| > 1 ==> groupings[k] in r
  {
    Filter(groupings, (g: Grouping) => |g.fields| > 1)
  }

  /** The size filter keeps creation order: it works grouping by grouping, left to right. */
  lemma KeepSharedOrder(a: seq<Grouping>, b: seq<Grouping>, g: Grouping)
    ensures KeepShared(a + b) == KeepShared(a) + KeepShared(b)
    ensures KeepShared([g]) == if |g.fields| > 1 then [g] else []
  {
    FilterConcat(a, b, (g: Grouping) => |g.fields| > 1);
    FilterSingle(g, (g: Grouping) => |g.fields| > 1);
  }

  /** The size filter keeps every shared grouping as often as it occurs, and nothing else. */
  lemma KeepSharedCounts(groupings: seq<Grouping>)
    ensures multiset(KeepShared(groupings)) <= multiset(groupings)
    ensures forall k :: 0 <= k < |groupings| ==>
      multiset(KeepShared(groupings))[groupings[k]] == if |groupings[k].fields| > 1 then multiset(groupings)[groupings[k]] else 0
  {
    FilterCounts(groupings, (g: Grouping) => |g.fields| > 1);
  }

  /** Once a prefix of the scan raises, the whole scan raises the same exception. */
  lemma {:induction false} BucketPrefixFailure(a: Analyzer, cde: seq<Row>, i: nat)
    requires Valid(a) && i <= |cde|
    requires Bucket(a, cde[..i]).Failure?
    ensures Bucket(a, cde) == Bucket(a, cde[..i])
    decreases |cde|
  {
    if i < |cde| {
      assert cde[..|cde| - 1][..i] == cde[..i];
      BucketPrefixFailure(a, cde[..|cde| - 1], i);
    } else {
      assert cde[..i] == cde;
    }
  }

  /** `find_groupings`: scan the rows, appending each to the first grouping that accepts it or to
      a new grouping keyed by its own categories, then keep the groupings with at least two members. */
  method FindGroupings(a: Analyzer, cde: seq<Row>) returns (r: Result<seq<Grouping>, Error>)
    requires Valid(a)
    ensures Bucket(a, cde).Failure? ==> r == Failure(Bucket(a, cde).error)
    ensures Bucket(a, cde).Success? ==> r == Success(KeepShared(Bucket(a, cde).value.groupings))
  {
    var groupings: seq<Grouping> := [];
    ghost var assignment: seq<nat> := [];
    for i := 0 to |cde|
      invariant Bucket(a, cde[..i]) == Success(Bucketing(groupings, assignment))
    {
      ghost var b := Bucketing(groupings, assignment);
      BucketExtend(a, cde, i, b);
      var field := cde[i];
      var categories := CategoriesOf(a, field);
      if categories.Failure? {
        BucketPrefixFailure(a, cde, i + 1);
        return Failure(categories.error);
      }
      var found := FindGrouping(a, categories.value, groupings);
      if found.Failure? {
        BucketPrefixFailure(a, cde, i + 1);
        return Failure(found.error);
      }
      match found.value
      case Some(k) =>
        var g := groupings[k];
        groupings := groupings[k := Grouping(g.categories, g.fields + [field])];
        assignment := assignment + [k];
      case None =>
        assignment := assignment + [|groupings|];
        groupings := groupings + [Grouping(categories.value, [field])];
      assert Bucketing(groupings, assignment) == Place(b, field, categories.value, found.value);
    }
    assert cde[..|cde|] == cde;
    return Success(KeepShared(groupings));
  }

  /** One more row of the scan is one more `BucketRow`. */
  lemma BucketExtend(a: Analyzer, cde: seq<Row>, i: nat, b: Bucketing)
    requires Valid(a) && i < |cde| && Bucket(a, cde[..i]) == Success(b)
    ensures Bucket(a, cde[..i + 1]) == BucketRow(a, b, cde[i])
  {
    assert cde[..i + 1][..i] == cde[..i];
  }

  // ---------------------------------------------------------------------------
  // What the scan guarantees about the groupings it builds

  /** A successful scan of a non-empty table is a successful scan of all rows but the last,
      followed by one placement of the last row. */
  lemma BucketStep(a: Analyzer, cde: seq<Row>)
    requires Valid(a) && |cde| > 0 && Bucket(a, cde).Success?
    ensures var n := |cde| - 1;
      && Bucket(a, cde[..n]).Success?
      && HasCategories(a, cde[n])
      && var prev := Bucket(a, cde[..n]).value;
         var found := FirstMatch(a.options["grouping_method"], Cats(a, cde[n]), prev.groupings);
         && found.Success?
         && (found.value.Some? ==> found.value.value < |prev.groupings|)
         && Bucket(a, cde).value == Place(prev, cde[n], Cats(a, cde[n]), found.value)
  {
  }

  /** A successful scan assigns every row to one of the groupings it built. */
  lemma {:induction false} BucketShape(a: Analyzer, cde: seq<Row>)
    requires Valid(a) && Bucket(a, cde).Success?
    ensures forall i :: 0 <= i < |cde| ==> Bucket(a, cde).value.assignment[i] < |Bucket(a, cde).value.groupings|
    decreases |cde|
  {
    if cde != [] {
      var n := |cde| - 1;
      BucketStep(a, cde);
      BucketShape(a, cde[..n]);
    }
  }

  /** Every row of a successful scan has a categories column. */
  lemma BucketHasCategories(a: Analyzer, cde: seq<Row>)
    requires Valid(a) && Bucket(a, cde).Success?
    ensures forall i :: 0 <= i < |cde| ==> HasCategories(a, cde[i])
  {
    BucketFailure(a, cde);
  }

  /** The rows assigned to grouping `k`, in input order. */
  function Members(cde: seq<Row>, assignment: seq<nat>, k: nat): seq<Row>
    requires |assignment| == |cde|
    decreases |cde|
  {
    if cde == [] then []
    else
      var n := |cde| - 1;
      Members(cde[..n], assignment[..n], k) + (if assignment[n] == k then [cde[n]] else [])
  }

  lemma {:induction false} MembersNone(cde: seq<Row>, assignment: seq<nat>, k: nat)
    requires |assignment| == |cde|
    requires forall i :: 0 <= i < |cde| ==> assignment[i] != k
    ensures Members(cde, assignment, k) == []
    decreases |cde|
  {
    if cde != [] {
      MembersNone(cde[..|cde| - 1], assignment[..|cde| - 1], k);
    }
  }

  /** Each grouping holds exactly the rows assigned to it, in input order: every row lands in
      exactly one grouping. */
  lemma {:induction false} BucketMembers(a: Analyzer, cde: seq<Row>)
    requires Valid(a) && Bucket(a, cde).Success?
    ensures var b := Bucket(a, cde).value;
      forall k :: 0 <= k < |b.groupings| ==> b.groupings[k].fields == Members(cde, b.assignment, k)
    decreases |cde|
  {
    if cde != [] {
      var n := |cde| - 1;
      BucketStep(a, cde);
      BucketMembers(a, cde[..n]);
      var b := Bucket(a, cde).value;
      var prev := Bucket(a, cde[..n]).value;
      BucketShape(a, cde[..n]);
      assert b.assignment[..n] == prev.assignment;
      forall k | 0 <= k < |b.groupings|
        ensures b.groupings[k].fields == Members(cde, b.assignment, k)
      {
        assert Members(cde, b.assignment, k)
          == Members(cde[..n], prev.assignment, k) + (if b.assignment[n] == k then [cde[n]] else []);
        if k < |prev.groupings| {
          assert b.groupings[k].fields == prev.groupings[k].fields + (if b.assignment[n] == k then [cde[n]] else []);
        } else {
          assert b.groupings[k].fields == [cde[n]] && b.assignment[n] == k;
          assert forall i :: 0 <= i < n ==> prev.assignment[i] != k;
          MembersNone(cde[..n], prev.assignment, k);
        }
      }
    }
  }

  /** Sum of the grouping sizes. */
  function MemberCount(gs: seq<Grouping>): nat
    decreases |gs|
  {
    if gs == [] then 0 else MemberCount(gs[..|gs| - 1]) + |gs[|gs| - 1].fields|
  }

  lemma {:induction false} MemberCountUpdate(gs: seq<Grouping>, k: nat, g: Grouping)
    requires k < |gs|
    ensures MemberCount(gs[k := g]) + |gs[k].fields| == MemberCount(gs) + |g.fields|
    decreases |gs|
  {
    var n := |gs| - 1;
    if k < n {
      assert gs[k := g][..n] == gs[..n][k := g];
      MemberCountUpdate(gs[..n], k, g);
    } else {
      assert gs[k := g][..n] == gs[..n];
    }
  }

  /** The groupings together hold as many rows as the table has. */
  lemma {:induction false} BucketCount(a: Analyzer, cde: seq<Row>)
    requires Valid(a) && Bucket(a, cde).Success?
    ensures MemberCount(Bucket(a, cde).value.groupings) == |cde|
    decreases |cde|
  {
    if cde != [] {
      var n := |cde| - 1;
      BucketStep(a, cde);
      BucketCount(a, cde[..n]);
      var prev := Bucket(a, cde[..n]).value;
      var found := FirstMatch(a.options["grouping_method"], Cats(a, cde[n]), prev.groupings).value;
      if found.Some? {
        var k := found.value;
        var g := prev.groupings[k];
        MemberCountUpdate(prev.groupings, k, Grouping(g.categories, g.fields + [cde[n]]));
      } else {
        assert (prev.groupings + [Grouping(Cats(a, cde[n]), [cde[n]])])[..|prev.groupings|] == prev.groupings;
      }
    }
  }

  /** Every grouping is non-empty and keyed by the categories of its first member. */
  lemma {:induction false} BucketKeys(a: Analyzer, cde: seq<Row>)
    requires Valid(a) && Bucket(a, cde).Success?
    ensures var gs := Bucket(a, cde).value.groupings;
      forall k :: 0 <= k < |gs| ==>
        && |gs[k].fields| > 0
        && HasCategories(a, gs[k].fields[0])
        && Cats(a, gs[k].fields[0]) == gs[k].categories
    decreases |cde|
  {
    if cde != [] {
      BucketStep(a, cde);
      BucketKeys(a, cde[..|cde| - 1]);
    }
  }

  /** The key of each grouping. */
  function KeysOf(gs: seq<Grouping>): (r: seq<Value>)
    ensures |r| == |gs|
  {
    seq(|gs|, k requires 0 <= k < |gs| => gs[k].categories)
  }

  /** The first-match discipline for row `i`: it rejected every grouping before the one it
      joined; if it joined an existing grouping that grouping's key accepted it; if it started a
      grouping, that grouping is keyed by the row's own categories and numbered after every
      grouping used by the rows before it. */
  predicate RowDiscipline(m: Opt, keys: seq<Value>, assignment: seq<nat>, i: nat, categories: Value)
    requires i < |assignment| && assignment[i] < |keys|
  {
    var k := assignment[i];
    && (forall j :: 0 <= j < k ==> Accepts(m, keys[j], categories) == Success(false))
    && (k in assignment[..i] ==> Accepts(m, keys[k], categories) == Success(true))
    && (k !in assignment[..i] ==> keys[k] == categories && forall j :: 0 <= j < i ==> assignment[j] < k)
  }

  /** Row discipline survives later rows: keys are only ever appended, assignments only extended. */
  lemma RowDisciplineExtends(m: Opt, keys: seq<Value>, keys': seq<Value>, assignment: seq<nat>, assignment': seq<nat>, i: nat, categories: Value)
    requires i < |assignment| <= |assignment'| && assignment'[..|assignment|] == assignment
    requires |keys| <= |keys'| && keys'[..|keys|] == keys
    requires assignment[i] < |keys|
    requires RowDiscipline(m, keys, assignment, i, categories)
    ensures RowDiscipline(m, keys', assignment', i, categories)
  {
    assert assignment'[..i] == assignment[..i];
    assert forall j :: 0 <= j < |keys| ==> keys'[j] == keys[j];
  }

  /** Every grouping of a successful scan has at least one row assigned to it. */
  lemma {:induction false} BucketOnto(a: Analyzer, cde: seq<Row>)
    requires Valid(a) && Bucket(a, cde).Success?
    ensures forall k :: 0 <= k < |Bucket(a, cde).value.groupings| ==> k in Bucket(a, cde).value.assignment
    decreases |cde|
  {
    if cde != [] {
      var n := |cde| - 1;
      BucketStep(a, cde);
      BucketOnto(a, cde[..n]);
      var prev := Bucket(a, cde[..n]).value;
      var b := Bucket(a, cde).value;
      assert b.assignment == prev.assignment + [b.assignment[n]];
      forall k | 0 <= k < |b.groupings|
        ensures k in b.assignment
      {
        if k < |prev.groupings| {
          assert k in prev.assignment;
        } else {
          assert b.assignment[n] == k;
        }
      }
    }
  }

  /** Placing a row where the first match put it gives that row the discipline, over groupings
      that every earlier row was assigned into and that each have a row. */
  lemma PlaceDiscipline(m: Opt, prev: Bucketing, field: Row, cats: Value, found: Option<nat>)
    requires forall k :: 0 <= k < |prev.groupings| ==> k in prev.assignment
    requires forall i :: 0 <= i < |prev.assignment| ==> prev.assignment[i] < |prev.groupings|
    requires FirstMatch(m, cats, prev.groupings) == Success(found)
    ensures found.Some? ==> found.value < |prev.groupings|
    ensures Place(prev, field, cats, found).assignment[|prev.assignment|] < |Place(prev, field, cats, found).groupings|
    ensures RowDiscipline(m, KeysOf(Place(prev, field, cats, found).groupings),
                          Place(prev, field, cats, found).assignment, |prev.assignment|, cats)
  {
    var keys := KeysOf(prev.groupings);
    PlaceKeys(prev, field, cats, found);
    FirstMatchFromRejects(m, cats, prev.groupings, 0);
    if found.Some? {
      assert found.value in prev.assignment;
      FoundDiscipline(m, keys, prev.assignment, found.value, cats);
    } else {
      NewDiscipline(m, keys, prev.assignment, cats);
    }
  }

  /** Placing a row keeps the keys and appends the row's grouping to the assignment; a new
      grouping is keyed by the row's categories. */
  lemma PlaceKeys(b: Bucketing, field: Row, categories: Value, found: Option<nat>)
    requires found.Some? ==> found.value < |b.groupings|
    ensures var b' := Place(b, field, categories, found);
      && b'.assignment == b.assignment + [if found.Some? then found.value else |b.groupings|]
      && KeysOf(b'.groupings) == if found.Some? then KeysOf(b.groupings) else KeysOf(b.groupings) + [categories]
  {
    var b' := Place(b, field, categories, found);
    if found.Some? {
      assert forall k :: 0 <= k < |b.groupings| ==> b'.groupings[k].categories == b.groupings[k].categories;
    } else {
      assert forall k :: 0 <= k < |b.groupings| ==> b'.groupings[k] == b.groupings[k];
    }
  }

  /** A row that joins grouping `k`, already used by an earlier row, after every key before `k`
      rejected it and key `k` accepted it, keeps the discipline. */
  lemma FoundDiscipline(m: Opt, keys: seq<Value>, assignment: seq<nat>, k: nat, cats: Value)
    requires k < |keys| && k in assignment
    requires forall j :: 0 <= j < k ==> Accepts(m, keys[j], cats) == Success(false)
    requires Accepts(m, keys[k], cats) == Success(true)
    ensures RowDiscipline(m, keys, assignment + [k], |assignment|, cats)
  {
    assert (assignment + [k])[..|assignment|] == assignment;
  }

  /** A row that every key rejected starts a grouping keyed by its own categories, numbered after
      every grouping so far, and keeps the discipline. */
  lemma NewDiscipline(m: Opt, keys: seq<Value>, assignment: seq<nat>, cats: Value)
    requires forall i :: 0 <= i < |assignment| ==> assignment[i] < |keys|
    requires forall j :: 0 <= j < |keys| ==> Accepts(m, keys[j], cats) == Success(false)
    ensures RowDiscipline(m, keys + [cats], assignment + [|keys|], |assignment|, cats)
  {
    var a' := assignment + [|keys|];
    assert a'[..|assignment|] == assignment;
    assert |keys| !in assignment;
    assert forall j :: 0 <= j < |keys| ==> (keys + [cats])[j] == keys[j];
  }

  /** The last row of a scan keeps the row discipline. */
  lemma LastRowDiscipline(a: Analyzer, cde: seq<Row>)
    requires Valid(a) && |cde| > 0 && Bucket(a, cde).Success?
    ensures HasCategories(a, cde[|cde| - 1])
    ensures Bucket(a, cde).value.assignment[|cde| - 1] < |Bucket(a, cde).value.groupings|
    ensures RowDiscipline(a.options["grouping_method"], KeysOf(Bucket(a, cde).value.groupings),
                          Bucket(a, cde).value.assignment, |cde| - 1, Cats(a, cde[|cde| - 1]))
  {
    var n := |cde| - 1;
    BucketStep(a, cde);
    BucketOnto(a, cde[..n]);
    BucketShape(a, cde[..n]);
    var prev := Bucket(a, cde[..n]).value;
    var cats := Cats(a, cde[n]);
    PlaceDiscipline(a.options["grouping_method"], prev, cde[n], cats,
                    FirstMatch(a.options["grouping_method"], cats, prev.groupings).value);
  }

  /** Extending the keys and the assignment by one row keeps the discipline of every earlier row;
      with the new row's own discipline it holds for all of them. */
  lemma DisciplineStep(a: Analyzer, prefix: seq<Row>, field: Row, keys: seq<Value>, keys': seq<Value>,
                       assignment: seq<nat>, assignment': seq<nat>)
    requires Valid(a) && HasCategories(a, field)
    requires forall i :: 0 <= i < |prefix| ==> HasCategories(a, prefix[i])
    requires |assignment| == |prefix| && |assignment'| == |prefix| + 1 && assignment'[..|assignment|] == assignment
    requires |keys| <= |keys'| && keys'[..|keys|] == keys
    requires forall i :: 0 <= i < |prefix| ==> assignment[i] < |keys|
    requires forall i :: 0 <= i < |prefix| ==>
      RowDiscipline(a.options["grouping_method"], keys, assignment, i, Cats(a, prefix[i]))
    requires assignment'[|prefix|] < |keys'|
    requires RowDiscipline(a.options["grouping_method"], keys', assignment', |prefix|, Cats(a, field))
    ensures forall i :: 0 <= i < |prefix| + 1 ==> assignment'[i] < |keys'|
    ensures forall i :: 0 <= i < |prefix| + 1 ==>
      RowDiscipline(a.options["grouping_method"], keys', assignment', i, Cats(a, (prefix + [field])[i]))
  {
    forall i | 0 <= i < |prefix| + 1
      ensures assignment'[i] < |keys'|
      ensures RowDiscipline(a.options["grouping_method"], keys', assignment', i, Cats(a, (prefix + [field])[i]))
    {
      if i < |prefix| {
        assert (prefix + [field])[i] == prefix[i];
        assert assignment'[i] == assignment[i];
        RowDisciplineExtends(a.options["grouping_method"], keys, keys', assignment, assignment', i, Cats(a, prefix[i]));
      }
    }
  }

  /** Placing a row appends one assignment and keeps the keys of the existing groupings. */
  lemma PlaceExtends(b: Bucketing, field: Row, categories: Value, found: Option<nat>)
    requires found.Some? ==> found.value < |b.groupings|
    ensures var b' := Place(b, field, categories, found);
      && |b'.assignment| == |b.assignment| + 1 && b'.assignment[..|b.assignment|] == b.assignment
      && |b.groupings| <= |b'.groupings| && KeysOf(b'.groupings)[..|b.groupings|] == KeysOf(b.groupings)
  {
    var b' := Place(b, field, categories, found);
    assert b'.assignment[..|b.assignment|] == b.assignment;
    assert forall k :: 0 <= k < |b.groupings| ==> b'.groupings[k].categories == b.groupings[k].categories;
  }

  /** The first-match discipline of a scan follows from that of the scan without its last row. */
  lemma FirstMatchStep(a: Analyzer, cde: seq<Row>)
    requires Valid(a) && |cde| > 0 && Bucket(a, cde).Success?
    requires Bucket(a, cde[..|cde| - 1]).Success?
    requires var prefix, b := cde[..|cde| - 1], Bucket(a, cde[..|cde| - 1]).value;
      && (forall i :: 0 <= i < |prefix| ==> HasCategories(a, prefix[i]))
      && (forall i :: 0 <= i < |prefix| ==> b.assignment[i] < |b.groupings|)
      && (forall i :: 0 <= i < |prefix| ==>
            RowDiscipline(a.options["grouping_method"], KeysOf(b.groupings), b.assignment, i, Cats(a, prefix[i])))
    requires forall i :: 0 <= i < |cde| ==> HasCategories(a, cde[i])
    requires forall i :: 0 <= i < |cde| ==> Bucket(a, cde).value.assignment[i] < |Bucket(a, cde).value.groupings|
    ensures forall i :: 0 <= i < |cde| ==>
      RowDiscipline(a.options["grouping_method"], KeysOf(Bucket(a, cde).value.groupings),
                    Bucket(a, cde).value.assignment, i, Cats(a, cde[i]))
  {
    var n := |cde| - 1;
    var prefix := cde[..n];
    BucketStep(a, cde);
    LastRowDiscipline(a, cde);
    var prev := Bucket(a, prefix).value;
    var b := Bucket(a, cde).value;
    var found := FirstMatch(a.options["grouping_method"], Cats(a, cde[n]), prev.groupings).value;
    PlaceExtends(prev, cde[n], Cats(a, cde[n]), found);
    DisciplineStep(a, prefix, cde[n], KeysOf(prev.groupings), KeysOf(b.groupings), prev.assignment, b.assignment);
    assert prefix + [cde[n]] == cde;
  }

  /** The first-match discipline holds for every row of a successful scan. */
  lemma {:induction false} BucketFirstMatch(a: Analyzer, cde: seq<Row>)
    requires Valid(a) && Bucket(a, cde).Success?
    ensures forall i :: 0 <= i < |cde| ==> HasCategories(a, cde[i])
    ensures forall i :: 0 <= i < |cde| ==> Bucket(a, cde).value.assignment[i] < |Bucket(a, cde).value.groupings|
    ensures forall i :: 0 <= i < |cde| ==>
      RowDiscipline(a.options["grouping_method"], KeysOf(Bucket(a, cde).value.groupings),
                    Bucket(a, cde).value.assignment, i, Cats(a, cde[i]))
    decreases |cde|
  {
    BucketHasCategories(a, cde);
    BucketShape(a, cde);
    if cde != [] {
      BucketStep(a, cde);
      BucketFirstMatch(a, cde[..|cde| - 1]);
      FirstMatchStep(a, cde);
    }
  }

  /** Under equivalence every row's categories equal its grouping's key as multisets. */
  lemma EquivalenceKey(a: Analyzer, cde: seq<Row>)
    requires Valid(a) && a.options["grouping_method"] == OStr("equivalence")
    requires Bucket(a, cde).Success?
    ensures forall i :: 0 <= i < |cde| ==> HasCategories(a, cde[i])
    ensures forall i :: 0 <= i < |cde| ==> Bucket(a, cde).value.assignment[i] < |Bucket(a, cde).value.groupings|
    ensures forall i :: 0 <= i < |cde| ==>
      multiset(Iterate(Cats(a, cde[i])))
        == multiset(Iterate(KeysOf(Bucket(a, cde).value.groupings)[Bucket(a, cde).value.assignment[i]]))
  {
    BucketFirstMatch(a, cde);
    var b := Bucket(a, cde).value;
    var keys := KeysOf(b.groupings);
    var m := a.options["grouping_method"];
    forall x | 0 <= x < |cde|
      ensures multiset(Iterate(Cats(a, cde[x]))) == multiset(Iterate(keys[b.assignment[x]]))
    {
      assert RowDiscipline(m, keys, b.assignment, x, Cats(a, cde[x]));
      AcceptsMeaning(m, keys[b.assignment[x]], Cats(a, cde[x]));
    }
  }

  /** Under the default equivalence method two rows end up in the same grouping exactly when
      their categories hold the same elements with the same multiplicities. */
  lemma EquivalenceCoGrouping(a: Analyzer, cde: seq<Row>, i: nat, j: nat)
    requires Valid(a) && a.options["grouping_method"] == OStr("equivalence")
    requires Bucket(a, cde).Success?
    requires i < |cde| && j < |cde|
    ensures HasCategories(a, cde[i]) && HasCategories(a, cde[j])
    ensures Bucket(a, cde).value.assignment[i] == Bucket(a, cde).value.assignment[j]
        <==> multiset(Iterate(Cats(a, cde[i]))) == multiset(Iterate(Cats(a, cde[j])))
  {
    BucketFirstMatch(a, cde);
    EquivalenceKey(a, cde);
    var b := Bucket(a, cde).value;
    var keys := KeysOf(b.groupings);
    var m := a.options["grouping_method"];
    if i != j {
      var lo, hi := if i < j then i else j, if i < j then j else i;
      var klo, khi := b.assignment[lo], b.assignment[hi];
      assert RowDiscipline(m, keys, b.assignment, lo, Cats(a, cde[lo]));
      assert RowDiscipline(m, keys, b.assignment, hi, Cats(a, cde[hi]));
      AcceptsMeaning(m, keys[khi], Cats(a, cde[lo]));
      AcceptsMeaning(m, keys[klo], Cats(a, cde[hi]));
    }
  }

  /** A row without the categories column. */
  predicate SomeRowLacksCategories(a: Analyzer, cde: seq<Row>)
    requires Valid(a)
  {
    exists i :: 0 <= i < |cde| && !HasCategories(a, cde[i])
  }

  lemma LacksStep(a: Analyzer, cde: seq<Row>)
    requires Valid(a) && |cde| > 0
    ensures SomeRowLacksCategories(a, cde) <==>
      SomeRowLacksCategories(a, cde[..|cde| - 1]) || !HasCategories(a, cde[|cde| - 1])
  {
    var n := |cde| - 1;
    var prefix := cde[..n];
    if SomeRowLacksCategories(a, prefix) {
      var i :| 0 <= i < n && !HasCategories(a, prefix[i]);
      assert !HasCategories(a, cde[i]);
    }
    if SomeRowLacksCategories(a, cde) {
      var i :| 0 <= i < |cde| && !HasCategories(a, cde[i]);
      if i < n {
        assert !HasCategories(a, prefix[i]);
      }
    }
  }

  /** The scan step once the rows before the last are placed: the last row's placement decides,
      and there is a grouping to consult exactly when some row came before. */
  lemma BucketStepAfterSuccess(a: Analyzer, cde: seq<Row>)
    requires Valid(a) && |cde| > 0 && Bucket(a, cde[..|cde| - 1]).Success?
    ensures Bucket(a, cde) == BucketRow(a, Bucket(a, cde[..|cde| - 1]).value, cde[|cde| - 1])
    ensures |Bucket(a, cde[..|cde| - 1]).value.groupings| > 0 <==> |cde| > 1
  {
    var n := |cde| - 1;
    BucketShape(a, cde[..n]);
    BucketOnto(a, cde[..n]);
    if n > 0 {
      assert Bucket(a, cde[..n]).value.assignment[0] < |Bucket(a, cde[..n]).value.groupings|;
    }
  }

  /** When the scan raises: a row lacks the categories column (`LookupError`), or the grouping
      method is unknown and there are at least two rows, since the method is first consulted when
      the second row meets the first grouping. With a known method only the lookup can raise. */
  lemma {:induction false} BucketFailure(a: Analyzer, cde: seq<Row>)
    requires Valid(a)
    ensures Bucket(a, cde).Failure? <==>
      SomeRowLacksCategories(a, cde) || (!KnownMethod(a.options["grouping_method"]) && |cde| >= 2)
    ensures Bucket(a, cde).Failure? && KnownMethod(a.options["grouping_method"]) ==> Bucket(a, cde).error == LookupError(a)
    decreases |cde|
  {
    if cde != [] {
      var n := |cde| - 1;
      BucketFailure(a, cde[..n]);
      LacksStep(a, cde);
      if Bucket(a, cde[..n]).Success? {
        BucketStepAfterSuccess(a, cde);
      } else {
        BucketPrefixFailure(a, cde, n);
      }
    }
  }

  /** With an unknown grouping method, two rows that have the categories column are enough
      for the scan to raise. */
  lemma UnknownMethodRaises(a: Analyzer, cde: seq<Row>)
    requires Valid(a) && !KnownMethod(a.options["grouping_method"])
    requires |cde| >= 2 && HasCategories(a, cde[0]) && HasCategories(a, cde[1])
    ensures Bucket(a, cde) == Failure(UnrecognizedGroupingMethod)
  {
    var two := cde[..2];
    assert two[..1] == cde[..1];
    assert cde[..1][..0] == [];
    assert Bucket(a, cde[..1]).Success?;
    assert Bucket(a, two) == Failure(UnrecognizedGroupingMethod);
    BucketPrefixFailure(a, cde, 2);
  }

  /** A list as the category field name is no dict key: the first row already raises TypeError. */
  lemma ListFieldNameRaises(a: Analyzer, cde: seq<Row>)
    requires Valid(a) && a.options["field_name"].OList? && cde != []
    ensures Bucket(a, cde) == Failure(TypeError)
  {
    assert cde[..1][..0] == [];
    assert Bucket(a, cde[..1]) == Failure(TypeError);
    BucketPrefixFailure(a, cde, 1);
  }

  /** The analyzer of the example below: intersection grouping, default field name. */
  function IntersectionAnalyzer(): Analyzer {
    NewAnalyzer([], map["grouping_method" := OStr("intersection")])
  }

  /** First step of the example below: [a] opens grouping 0. */
  lemma KeysOnlyFirstRow(r0: Row)
    requires r0 == map["categories" := List(["a"])]
    ensures Bucket(IntersectionAnalyzer(), [r0]) == Success(Bucketing([Grouping(List(["a"]), [r0])], [0]))
  {
    var a := IntersectionAnalyzer();
    assert a.options["field_name"] == OStr("categories") && a.options["grouping_method"] == OStr("intersection");
    var b0 := Bucketing([], []);
    assert [r0][..0] == [];
    assert Bucket(a, []) == Success(b0);
    assert CategoriesOf(a, r0) == Success(List(["a"]));
    assert FirstMatch(OStr("intersection"), List(["a"]), b0.groupings) == Success(None);
    assert Place(b0, r0, List(["a"]), None) == Bucketing([Grouping(List(["a"]), [r0])], [0]);
    assert BucketRow(a, b0, r0) == Success(Bucketing([Grouping(List(["a"]), [r0])], [0]));
  }

  /** Second step: [a, b] shares a with the key [a] and joins grouping 0. */
  lemma KeysOnlySecondRow(r0: Row, r1: Row)
    requires r0 == map["categories" := List(["a"])] && r1 == map["categories" := List(["a", "b"])]
    ensures Bucket(IntersectionAnalyzer(), [r0, r1]) == Success(Bucketing([Grouping(List(["a"]), [r0, r1])], [0, 0]))
  {
    var a := IntersectionAnalyzer();
    var m := OStr("intersection");
    assert a.options["field_name"] == OStr("categories") && a.options["grouping_method"] == m;
    KeysOnlyFirstRow(r0);
    var b1 := Bucketing([Grouping(List(["a"]), [r0])], [0]);
    assert [r0, r1][..1] == [r0];
    AcceptsMeaning(m, List(["a"]), List(["a", "b"]));
    assert Accepts(m, List(["a"]), List(["a", "b"])) == Success(true) by {
      assert "a" in Iterate(List(["a"])) && "a" in Iterate(List(["a", "b"]));
    }
    assert CategoriesOf(a, r1) == Success(List(["a", "b"]));
    assert FirstMatch(m, List(["a", "b"]), b1.groupings) == Success(Some(0));
    assert [r0] + [r1] == [r0, r1];
    var b2 := Bucketing([Grouping(List(["a"]), [r0, r1])], [0, 0]);
    assert b1.groupings[0 := Grouping(List(["a"]), [r0, r1])] == b2.groupings;
    assert Place(b1, r1, List(["a", "b"]), Some(0)) == b2;
    assert BucketRow(a, b1, r1) == Success(b2);
  }

  /** [b] shares nothing with the key [a], whatever rows joined that grouping. */
  lemma KeysOnlyNoMatch(fields: seq<Row>)
    ensures FirstMatch(OStr("intersection"), List(["b"]), [Grouping(List(["a"]), fields)]) == Success(None)
  {
    var m := OStr("intersection");
    AcceptsMeaning(m, List(["a"]), List(["b"]));
    assert Accepts(m, List(["a"]), List(["b"])) == Success(false);
    assert FirstMatchFrom(m, List(["b"]), [Grouping(List(["a"]), fields)], 1) == Success(None);
  }

  /** Third step: [b] meets only the key [a], which it does not share, and opens grouping 1. */
  lemma KeysOnlyThirdRow(r0: Row, r1: Row, r2: Row)
    requires r2 == map["categories" := List(["b"])]
    ensures var b2 := Bucketing([Grouping(List(["a"]), [r0, r1])], [0, 0]);
      BucketRow(IntersectionAnalyzer(), b2, r2) == Success(Bucketing(b2.groupings + [Grouping(List(["b"]), [r2])], [0, 0, 1]))
  {
    var a := IntersectionAnalyzer();
    var m := OStr("intersection");
    assert a.options["field_name"] == OStr("categories") && a.options["grouping_method"] == m;
    var b2 := Bucketing([Grouping(List(["a"]), [r0, r1])], [0, 0]);
    KeysOnlyNoMatch(b2.groupings[0].fields);
    assert CategoriesOf(a, r2) == Success(List(["b"]));
    assert b2.assignment + [|b2.groupings|] == [0, 0, 1];
  }

  /** Under intersection a row is only compared with each grouping's key, not with the members
      that joined it: [a], [a, b], [b] gives the groupings {[a], [a, b]} and {[b]}, although the
      second and third rows share b. */
  lemma IntersectionComparesWithKeysOnly()
    ensures var cde: seq<Row> := [
        map["categories" := List(["a"])],
        map["categories" := List(["a", "b"])],
        map["categories" := List(["b"])]];
      && Bucket(IntersectionAnalyzer(), cde).Success?
      && Bucket(IntersectionAnalyzer(), cde).value.assignment == [0, 0, 1]
  {
    var r0: Row := map["categories" := List(["a"])];
    var r1: Row := map["categories" := List(["a", "b"])];
    var r2: Row := map["categories" := List(["b"])];
    var cde := [r0, r1, r2];
    KeysOnlySecondRow(r0, r1);
    KeysOnlyThirdRow(r0, r1, r2);
    assert cde[..2] == [r0, r1];
  }
}
