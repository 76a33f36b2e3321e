/**
  The group-by reduce exactly as written, over a plain object literal `{}`.
  `!acc[workshopId]` looks the id up through the prototype chain, so an id
  that names a member of `Object.prototype` (such as "constructor" or
  "__proto__") reads as already present; no own key is created, and
  `acc[workshopId].push(result)` then calls `push` on a function or on the
  prototype object, which throws a TypeError. `Grouping.GroupByWorkshop`
  is the grouping the rest of the model uses: it tests for an own key.
*/
module PlainObjectGrouping {
  import opened Wrappers
  import opened Records
  import opened Grouping

  /** The property names an object literal inherits from `Object.prototype`; each reads as a truthy value without `push`. */
  const InheritedNames: set<string> := {
    "constructor", "__proto__", "__defineGetter__", "__defineSetter__",
    "__lookupGetter__", "__lookupSetter__", "hasOwnProperty", "isPrototypeOf",
    "propertyIsEnumerable", "toLocaleString", "toString", "valueOf"
  }

  /** The reduce over `{}`: None where `acc[workshopId].push` throws. */
  function ReduceAsWritten(rs: seq<AssessmentResult>): (groups: Option<map<WorkshopId, seq<AssessmentResult>>>)
  {
    if rs == [] then Some(map[])
    else
      match ReduceAsWritten(Init(rs))
      case None => None
      case Some(acc) =>
        var r := Last(rs);
        var present := r.workshopId in acc || r.workshopId in InheritedNames;
        var acc' := if !present then acc[r.workshopId := []] else acc;
        if r.workshopId in acc' then Some(acc'[r.workshopId := acc'[r.workshopId] + [r]]) else None
  }

  ghost predicate HasInheritedId(rs: seq<AssessmentResult>)
  {
    exists i :: 0 <= i < |rs| && rs[i].workshopId in InheritedNames
  }

  /** The reduce as written throws exactly when some id names an inherited member, and otherwise builds the intended groups. */
  lemma {:induction false} ReduceAsWrittenOutcome(rs: seq<AssessmentResult>)
    ensures ReduceAsWritten(rs) == if HasInheritedId(rs) then None else Some(Grouped(rs))
  {
    if rs != [] {
      var p, r := Init(rs), Last(rs);
      assert rs == p + [r];
      InitSnoc(p, r);
      ReduceAsWrittenOutcome(p);
      if HasInheritedId(p) {
        var i :| 0 <= i < |p| && p[i].workshopId in InheritedNames;
        assert rs[i] == p[i];
      } else if r.workshopId in InheritedNames {
        IdsMembership(p, r.workshopId);
        assert rs[|rs| - 1].workshopId in InheritedNames;
      } else {
        GroupedSnoc(p, r);
        assert !HasInheritedId(rs) by {
          forall i | 0 <= i < |rs| ensures rs[i].workshopId !in InheritedNames {
            if i < |p| {
              assert rs[i] == p[i];
            }
          }
        }
        var acc, k := Grouped(p), r.workshopId;
        var start := if k in acc then acc[k] else [];
        var acc' := if k !in acc then acc[k := []] else acc;
        assert k in acc' && acc'[k] == start;
        assert acc'[k := start + [r]] == acc[k := start + [r]];
        assert ReduceAsWritten(rs) == Some(acc'[k := acc'[k] + [r]]);
      }
    }
  }

  /** A single result for a workshop with id "constructor": the source throws where one group is intended. */
  lemma InheritedIdThrows()
    ensures ReduceAsWritten([AssessmentResult("constructor", None)]) == None
    ensures Grouped([AssessmentResult("constructor", None)]) ==
            map["constructor" := [AssessmentResult("constructor", None)]]
  {
    var r := AssessmentResult("constructor", None);
    assert "constructor" in InheritedNames;
    InitSnoc([], r);
    assert [] + [r] == [r];
    GroupedSnoc([], r);
  }
}
