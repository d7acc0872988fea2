/** The dependency check of the plan registry (scripts/check-plan-registry.py, `_cycle`): a
    depth-first search over the registered plans that reports a cycle or proves there is none. */
module PlanCycle {
  import opened Wrappers

  type PlanId = string

  /** The registry in the order of its entries; dependencies may name plans that are not registered. */
  datatype Registry = Registry(ids: seq<PlanId>, dependsOn: map<PlanId, seq<PlanId>>) {
    ghost predicate Valid() {
      forall id :: id in ids <==> id in dependsOn
    }
  }

  ghost predicate Edge(plans: Registry, from: PlanId, to: PlanId) {
    from in plans.dependsOn && to in plans.dependsOn[from] && to in plans.dependsOn
  }

  /** Consecutive elements are edges. */
  ghost predicate IsPath(plans: Registry, path: seq<PlanId>) {
    forall i :: 0 <= i < |path| - 1 ==> Edge(plans, path[i], path[i + 1])
  }

  ghost predicate IsCycle(plans: Registry, path: seq<PlanId>) {
    |path| >= 2 && path[0] == path[|path| - 1] && IsPath(plans, path)
  }

  ghost predicate Acyclic(plans: Registry) {
    forall path :: !IsCycle(plans, path)
  }

  class Search {
    const plans: Registry
    var visiting: seq<PlanId>
    var visited: set<PlanId>

    constructor (plans: Registry)
      ensures this.plans == plans && visiting == [] && visited == {}
    {
      this.plans := plans;
      visiting, visited := [], {};
    }

    /** The stack is a path of distinct unfinished plans; finished plans are closed and on no cycle. */
    ghost predicate Valid()
      reads this
    {
      && plans.Valid()
      && (forall id :: id in visiting ==> id in plans.dependsOn)
      && IsPath(plans, visiting)
      && (forall i, j :: 0 <= i < j < |visiting| ==> visiting[i] != visiting[j])
      && (forall id :: id in visiting ==> id !in visited)
      && Closed(plans, visited)
      && CycleFree(plans, visited)
    }

    method Visit(id: PlanId) returns (found: Option<seq<PlanId>>)
      requires Valid() && id in plans.dependsOn
      requires visiting != [] ==> Edge(plans, visiting[|visiting| - 1], id)
      modifies this
      ensures found.Some? ==> IsCycle(plans, found.value)
      ensures found.None? ==> Valid() && visiting == old(visiting) && id in visited && old(visited) <= visited
      decreases plans.dependsOn.Keys - Elements(visiting)
    {
      if id in visiting {
        var start := IndexOf(visiting, id);
        return Some(visiting[start..] + [id]);
      }
      if id in visited {
        return None;
      }
      Push(id);
      var dependencies := plans.dependsOn[id];
      for k := 0 to |dependencies|
        invariant Valid() && visiting == old(visiting) + [id] && old(visited) <= visited
        invariant forall j :: 0 <= j < k && dependencies[j] in plans.dependsOn ==> dependencies[j] in visited
      {
        if dependencies[k] in plans.dependsOn {
          assert Edge(plans, id, dependencies[k]);
          found := Visit(dependencies[k]);
          if found.Some? {
            return found;
          }
        }
      }
      Finish(id);
      return None;
    }

    method Push(id: PlanId)
      requires Valid() && id in plans.dependsOn && id !in visiting && id !in visited
      requires visiting != [] ==> Edge(plans, visiting[|visiting| - 1], id)
      modifies `visiting
      ensures Valid() && visiting == old(visiting) + [id]
      ensures Elements(visiting) == Elements(old(visiting)) + {id} && id !in Elements(old(visiting))
    {
      visiting := visiting + [id];
    }

    method Finish(id: PlanId)
      requires Valid() && visiting != [] && visiting[|visiting| - 1] == id
      requires forall to :: Edge(plans, id, to) ==> to in visited
      modifies this
      ensures Valid() && visiting == old(visiting[..|visiting| - 1]) && visited == old(visited) + {id}
    {
      FinishKeeps(plans, visited, id);
      visiting := visiting[..|visiting| - 1];
      visited := visited + {id};
    }
  }

  /** `_cycle`: None exactly when the registered plans have no dependency cycle. */
  method Cycle(plans: Registry) returns (found: Option<seq<PlanId>>)
    requires plans.Valid()
    ensures found.None? <==> Acyclic(plans)
    ensures found.Some? ==> IsCycle(plans, found.value)
  {
    var search := new Search(plans);
    for k := 0 to |plans.ids|
      invariant fresh(search) && search.plans == plans && search.Valid() && search.visiting == []
      invariant forall j :: 0 <= j < k ==> plans.ids[j] in search.visited
    {
      found := search.Visit(plans.ids[k]);
      if found.Some? {
        return;
      }
    }
    AllFinished(plans, search.visited);
    return None;
  }

  function IndexOf(s: seq<PlanId>, x: PlanId): (i: nat)
    requires x in s
    ensures i < |s| && s[i] == x
  {
    if s[0] == x then 0 else 1 + IndexOf(s[1..], x)
  }

  // ----- finished plans

  /** Every dependency of a finished plan is finished. */
  ghost predicate Closed(plans: Registry, done: set<PlanId>) {
    forall from, to :: from in done && Edge(plans, from, to) ==> to in done
  }

  ghost predicate CycleFree(plans: Registry, done: set<PlanId>) {
    forall path :: IsCycle(plans, path) ==> path[0] !in done
  }

  lemma {:induction false} PathStaysIn(plans: Registry, done: set<PlanId>, path: seq<PlanId>, i: nat)
    requires Closed(plans, done) && IsPath(plans, path) && i < |path| && path[0] in done
    ensures path[i] in done
  {
    if i != 0 {
      PathStaysIn(plans, done, path, i - 1);
      assert Edge(plans, path[i - 1], path[i]);
    }
  }

  lemma PathTail(plans: Registry, path: seq<PlanId>)
    requires IsPath(plans, path) && path != []
    ensures IsPath(plans, path[1..])
  {
    var tail := path[1..];
    forall i | 0 <= i < |tail| - 1
      ensures Edge(plans, tail[i], tail[i + 1])
    {
      assert Edge(plans, path[i + 1], path[i + 2]);
    }
  }

  /** A plan all of whose dependencies are finished may be finished. */
  lemma FinishKeeps(plans: Registry, done: set<PlanId>, id: PlanId)
    requires Closed(plans, done) && CycleFree(plans, done) && id !in done
    requires forall to :: Edge(plans, id, to) ==> to in done
    ensures Closed(plans, done + {id}) && CycleFree(plans, done + {id})
  {
    forall path | IsCycle(plans, path)
      ensures path[0] !in done + {id}
    {
      if path[0] == id {
        assert Edge(plans, path[0], path[1]);
        PathTail(plans, path);
        PathStaysIn(plans, done, path[1..], |path| - 2);
      }
    }
  }

  /** With every registered plan finished there is no cycle at all. */
  lemma AllFinished(plans: Registry, done: set<PlanId>)
    requires plans.Valid() && CycleFree(plans, done)
    requires forall id :: id in plans.ids ==> id in done
    ensures Acyclic(plans)
  {
    forall path
      ensures !IsCycle(plans, path)
    {
      if |path| >= 2 && IsPath(plans, path) {
        assert Edge(plans, path[0], path[1]);
      }
    }
  }
}
