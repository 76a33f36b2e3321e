/**
  Grouping a student's assessment results by workshop. The source builds a
  dictionary from workshop id to the list of that workshop's results, creating
  a key the first time an id is seen and appending each result to its key's
  list. The specification functions below describe the outcome declaratively:
  `Ids` lists the distinct ids in order of first appearance (the order of the
  dictionary's keys) and `Select` the results of one workshop in input order.
*/
module Grouping {
  import opened Records

  /** The last element of a non-empty sequence and everything before it. */
  function Last<T>(s: seq<T>): T
    requires s != []
  {
    s[|s| - 1]
  }

  function Init<T>(s: seq<T>): seq<T>
    requires s != []
  {
    s[..|s| - 1]
  }

  /** The results of workshop `k`, in input order. */
  function Select(rs: seq<AssessmentResult>, k: WorkshopId): (g: seq<AssessmentResult>)
  {
    if rs == [] then []
    else Select(Init(rs), k) + (if Last(rs).workshopId == k then [Last(rs)] else [])
  }

  /** The distinct workshop ids of `rs`, in order of first appearance. */
  function Ids(rs: seq<AssessmentResult>): (keys: seq<WorkshopId>)
  {
    if rs == [] then []
    else
      var prefix := Ids(Init(rs));
      if Last(rs).workshopId in prefix then prefix else prefix + [Last(rs).workshopId]
  }

  /** The dictionary the source's reduce produces. */
  function Grouped(rs: seq<AssessmentResult>): (groups: map<WorkshopId, seq<AssessmentResult>>)
  {
    map k | k in Ids(rs) :: Select(rs, k)
  }

  /** The set of workshop ids occurring in `rs`. */
  function IdSet(rs: seq<AssessmentResult>): set<WorkshopId>
  {
    set i | 0 <= i < |rs| :: rs[i].workshopId
  }

  ghost predicate Distinct<T>(s: seq<T>)
  {
    forall i, j :: 0 <= i < j < |s| ==> s[i] != s[j]
  }

  /** The number of results per workshop, summed over `keys`. */
  function SumSizes(rs: seq<AssessmentResult>, keys: seq<WorkshopId>): nat
  {
    if keys == [] then 0 else SumSizes(rs, Init(keys)) + |Select(rs, Last(keys))|
  }

  /**
    The source's reduce: one pass over the results that adds a key the first
    time a workshop id is seen and appends the result to that key's list.
    `keys` records the order in which keys were added.
  */
  method GroupByWorkshop(results: seq<AssessmentResult>)
    returns (keys: seq<WorkshopId>, groups: map<WorkshopId, seq<AssessmentResult>>)
    ensures keys == Ids(results)
    ensures groups == Grouped(results)
    ensures groups.Keys == IdSet(results)
  {
    keys, groups := [], map[];
    var i := 0;
    while i < |results|
      invariant 0 <= i <= |results|
      invariant keys == Ids(results[..i])
      invariant groups == Grouped(results[..i])
    {
      var result := results[i];
      var workshopId := result.workshopId;
      assert results[..i + 1] == results[..i] + [result];
      IdsSnoc(results[..i], result);
      GroupedSnoc(results[..i], result);
      if workshopId !in groups {
        groups := groups[workshopId := []];
        keys := keys + [workshopId];
      }
      groups := groups[workshopId := groups[workshopId] + [result]];
      i := i + 1;
    }
    assert results[..i] == results;
    IdSetIsIds(results);
  }

  lemma InitSnoc<T>(s: seq<T>, x: T)
    ensures Init(s + [x]) == s && Last(s + [x]) == x
  {
  }

  lemma SelectSnoc(rs: seq<AssessmentResult>, r: AssessmentResult, k: WorkshopId)
    ensures Select(rs + [r], k) == Select(rs, k) + (if r.workshopId == k then [r] else [])
  {
    InitSnoc(rs, r);
  }

  lemma IdsSnoc(rs: seq<AssessmentResult>, r: AssessmentResult)
    ensures Ids(rs + [r]) == if r.workshopId in Ids(rs) then Ids(rs) else Ids(rs) + [r.workshopId]
  {
    InitSnoc(rs, r);
  }

  /** Adding one result extends the group of its workshop and no other. */
  lemma GroupedSnoc(rs: seq<AssessmentResult>, r: AssessmentResult)
    ensures Grouped(rs + [r]) ==
            Grouped(rs)[r.workshopId := (if r.workshopId in Grouped(rs) then Grouped(rs)[r.workshopId] else []) + [r]]
  {
    InitSnoc(rs, r);
    var k := r.workshopId;
    var old_, new_ := Grouped(rs), Grouped(rs + [r]);
    var expected := old_[k := (if k in old_ then old_[k] else []) + [r]];
    IdsMembership(rs, k);
    if k !in Ids(rs) {
      SelectOfAbsent(rs, k);
    }
    assert new_.Keys == expected.Keys;
    forall k' | k' in new_
      ensures new_[k'] == expected[k']
    {
      assert Select(rs + [r], k') == Select(rs, k') + (if k == k' then [r] else []);
    }
  }

  /** A group holds only results of its own workshop, taken from the input. */
  lemma {:induction false} SelectMembers(rs: seq<AssessmentResult>, k: WorkshopId)
    ensures forall r :: r in Select(rs, k) ==> r in rs && r.workshopId == k
  {
    if rs != [] {
      SelectMembers(Init(rs), k);
      assert forall r :: r in Init(rs) ==> r in rs;
    }
  }

  /** A workshop id that does not occur has an empty group. */
  lemma {:induction false} SelectOfAbsent(rs: seq<AssessmentResult>, k: WorkshopId)
    requires forall i :: 0 <= i < |rs| ==> rs[i].workshopId != k
    ensures Select(rs, k) == []
  {
    if rs != [] {
      SelectOfAbsent(Init(rs), k);
    }
  }

  /** A workshop id is a key exactly when some result carries it. */
  lemma {:induction false} IdsMembership(rs: seq<AssessmentResult>, k: WorkshopId)
    ensures k in Ids(rs) <==> exists i :: 0 <= i < |rs| && rs[i].workshopId == k
  {
    if rs != [] {
      IdsMembership(Init(rs), k);
      if k in Ids(rs) && k != Last(rs).workshopId {
        var i :| 0 <= i < |Init(rs)| && Init(rs)[i].workshopId == k;
        assert rs[i].workshopId == k;
      }
      if exists i :: 0 <= i < |rs| && rs[i].workshopId == k {
        var i :| 0 <= i < |rs| && rs[i].workshopId == k;
        if i < |rs| - 1 {
          assert Init(rs)[i].workshopId == k;
        }
      }
    }
  }

  /** Every key has a non-empty group. */
  lemma {:induction false} IdsHaveGroups(rs: seq<AssessmentResult>, k: WorkshopId)
    requires k in Ids(rs)
    ensures Select(rs, k) != []
  {
    if k in Ids(Init(rs)) {
      IdsHaveGroups(Init(rs), k);
    }
  }

  /** No workshop id is listed twice: the keys of a dictionary are distinct. */
  lemma {:induction false} IdsDistinct(rs: seq<AssessmentResult>)
    ensures Distinct(Ids(rs))
  {
    if rs != [] {
      IdsDistinct(Init(rs));
    }
  }

  lemma {:induction false} DistinctCard<T>(s: seq<T>)
    requires Distinct(s)
    ensures |set x | x in s| == |s|
  {
    if s != [] {
      DistinctCard(Init(s));
      assert s == Init(s) + [Last(s)];
      assert (set x | x in s) == (set x | x in Init(s)) + {Last(s)};
      assert Last(s) !in (set x | x in Init(s));
    }
  }

  /** The listed ids are exactly the ids that occur. */
  lemma IdSetIsIds(rs: seq<AssessmentResult>)
    ensures IdSet(rs) == set k | k in Ids(rs)
  {
    forall k ensures k in IdSet(rs) <==> k in Ids(rs) {
      IdsMembership(rs, k);
    }
  }

  /** `workshopCount`, the number of keys, is the number of distinct workshop ids among the results. */
  lemma WorkshopCountIsDistinctIds(rs: seq<AssessmentResult>)
    ensures |Ids(rs)| == |IdSet(rs)|
  {
    IdsDistinct(rs);
    DistinctCard(Ids(rs));
    IdSetIsIds(rs);
  }

  /**
    Grouping partitions the results: a result occurs in the group of its own
    workshop exactly as often as in the input, and in no other group.
  */
  lemma {:induction false} SelectMultiplicity(rs: seq<AssessmentResult>, k: WorkshopId, r: AssessmentResult)
    ensures multiset(Select(rs, k))[r] == if r.workshopId == k then multiset(rs)[r] else 0
  {
    if rs != [] {
      SelectMultiplicity(Init(rs), k, r);
      assert rs == Init(rs) + [Last(rs)];
    }
  }

  lemma {:induction false} SumSizesSnoc(rs: seq<AssessmentResult>, r: AssessmentResult, keys: seq<WorkshopId>)
    requires Distinct(keys)
    ensures SumSizes(rs + [r], keys) == SumSizes(rs, keys) + (if r.workshopId in keys then 1 else 0)
  {
    InitSnoc(rs, r);
    if keys != [] {
      SumSizesSnoc(rs, r, Init(keys));
      assert keys == Init(keys) + [Last(keys)];
    }
  }

  /** The group sizes add up to the number of results, which is what `assessmentCount` reports. */
  lemma {:induction false} GroupSizesSum(rs: seq<AssessmentResult>)
    ensures SumSizes(rs, Ids(rs)) == |rs|
  {
    if rs != [] {
      var p, r := Init(rs), Last(rs);
      assert rs == p + [r];
      GroupSizesSum(p);
      IdsDistinct(p);
      IdsSnoc(p, r);
      SumSizesSnoc(p, r, Ids(p));
      if r.workshopId !in Ids(p) {
        IdsMembership(p, r.workshopId);
        SelectOfAbsent(p, r.workshopId);
        InitSnoc(Ids(p), r.workshopId);
        InitSnoc(p, r);
      }
    }
  }

  lemma {:induction false} SelectAppend(a: seq<AssessmentResult>, b: seq<AssessmentResult>, k: WorkshopId)
    ensures Select(a + b, k) == Select(a, k) + Select(b, k)
  {
    if b == [] {
      assert a + b == a;
    } else {
      SelectAppend(a, Init(b), k);
      assert a + b == (a + Init(b)) + [Last(b)];
      SelectSnoc(a + Init(b), Last(b), k);
    }
  }

  lemma {:induction false} IdsAppendKnown(a: seq<AssessmentResult>, b: seq<AssessmentResult>)
    requires forall r :: r in b ==> r.workshopId in Ids(a)
    ensures Ids(a + b) == Ids(a)
  {
    if b == [] {
      assert a + b == a;
    } else {
      var p, r := a + Init(b), Last(b);
      assert r in b;
      assert forall x :: x in Init(b) ==> x in b;
      IdsAppendKnown(a, Init(b));
      assert a + b == p + [r];
      IdsSnoc(p, r);
    }
  }

  lemma {:induction false} SelectOfSelect(rs: seq<AssessmentResult>, k: WorkshopId)
    ensures Select(Select(rs, k), k) == Select(rs, k)
  {
    if rs != [] {
      SelectOfSelect(Init(rs), k);
      SelectAppend(Select(Init(rs), k), if Last(rs).workshopId == k then [Last(rs)] else [], k);
    }
  }
}
