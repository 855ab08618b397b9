/** The in-memory project endpoints: an id-to-project dictionary and a
    project-id counter. The dictionary is a sequence of entries in insertion
    order, which is the order `dict.values()` lists them in. */
module ProjectStore {
  import opened Wrappers

  datatype Project = Project(id: int, name: string)

  /** `_PROJECTS` (in insertion order) and `_NEXT_PROJECT_ID`. */
  datatype Store = Store(projects: seq<Project>, nextProjectId: int)

  const Initial: Store := Store([], 1)

  datatype Step<T> = Step(store: Store, outcome: Result<T, HttpError>)

  predicate HasId(ps: seq<Project>, id: int) {
    exists i :: 0 <= i < |ps| && ps[i].id == id
  }

  /** `d[p.id] = p` on an insertion-ordered dictionary: an existing key keeps
      its position and takes the new value, a new key goes last. */
  function Put(ps: seq<Project>, p: Project): (r: seq<Project>)
    ensures HasId(ps, p.id) ==> |r| == |ps| && forall i :: 0 <= i < |ps| ==> r[i] == (if ps[i].id == p.id then p else ps[i])
    ensures !HasId(ps, p.id) ==> r == ps + [p]
  {
    if ps == [] then [p]
    else
      var rest := Put(ps[1..], p);
      if ps[0].id == p.id then
        assert HasId(ps, p.id);
        if HasId(ps[1..], p.id) then [p] + rest
        else [p] + ps[1..]
      else
        assert HasId(ps, p.id) <==> HasId(ps[1..], p.id) by {
          if HasId(ps, p.id) {
            var i :| 0 <= i < |ps| && ps[i].id == p.id;
            assert ps[1..][i - 1].id == p.id;
          }
          if HasId(ps[1..], p.id) {
            var i :| 0 <= i < |ps[1..]| && ps[1..][i].id == p.id;
            assert ps[i + 1].id == p.id;
          }
        }
        [ps[0]] + rest
  }

  /** `del d[id]`: every entry under that key goes, the rest keep their order. */
  function Remove(ps: seq<Project>, id: int): (r: seq<Project>)
    ensures forall p :: p in r <==> p in ps && p.id != id
    ensures |r| <= |ps|
  {
    if ps == [] then []
    else if ps[0].id == id then Remove(ps[1..], id)
    else
      var r := [ps[0]] + Remove(ps[1..], id);
      assert forall p :: p in ps <==> p == ps[0] || p in ps[1..];
      r
  }

  lemma RemoveGone(ps: seq<Project>, id: int)
    ensures !HasId(Remove(ps, id), id)
  {
    var r := Remove(ps, id);
    forall i | 0 <= i < |r|
      ensures r[i].id != id
    {
      assert r[i] in r;
    }
  }

  predicate IdsIncreasing(ps: seq<Project>) {
    forall i, j :: 0 <= i < j < |ps| ==> ps[i].id < ps[j].id
  }

  /** What the endpoints maintain: keys in insertion order are increasing
      (so distinct) and all below the counter. */
  predicate Valid(s: Store) {
    && s.nextProjectId >= 1
    && IdsIncreasing(s.projects)
    && forall i :: 0 <= i < |s.projects| ==> 1 <= s.projects[i].id < s.nextProjectId
  }

  /** `create_project`: the new project takes the counter as id and is
      stored under it, and the counter moves on. */
  function Create(s: Store, name: string): (r: Step<Project>)
    ensures r.outcome == Ok(Project(s.nextProjectId, name))
    ensures r.store.nextProjectId == s.nextProjectId + 1
    ensures Valid(s) ==> r.store.projects == s.projects + [Project(s.nextProjectId, name)]
  {
    var project := Project(s.nextProjectId, name);
    var r := Step(Store(Put(s.projects, project), s.nextProjectId + 1), Ok(project));
    assert Valid(s) ==> !HasId(s.projects, project.id);
    r
  }

  /** `list_projects`: the stored values in insertion order. */
  function List(s: Store): (r: seq<Project>)
    ensures forall p :: p in r <==> exists i :: 0 <= i < |s.projects| && s.projects[i] == p
  {
    s.projects
  }

  /** `delete_project`: a missing id is 404 "Project not found" and changes
      nothing; otherwise the entry goes and the counter stays. */
  function Delete(s: Store, id: int): (r: Step<()>)
    ensures r.outcome.Err? <==> !HasId(s.projects, id)
    ensures r.outcome.Err? ==> r == Step(s, Err(HttpError(NotFound, "Project not found")))
    ensures r.outcome.Ok? ==> !HasId(r.store.projects, id) && r.store.nextProjectId == s.nextProjectId
    ensures forall p :: p in r.store.projects <==> p in s.projects && p.id != id
  {
    if !HasId(s.projects, id) then
      assert forall p :: p in s.projects ==> p.id != id;
      Step(s, Err(HttpError(NotFound, "Project not found")))
    else
      RemoveGone(s.projects, id);
      Step(s.(projects := Remove(s.projects, id)), Ok(()))
  }

  // ----------------------------------------------------------------- lemmas

  lemma InitialValid()
    ensures Valid(Initial)
  {
  }

  lemma CreatePreservesValid(s: Store, name: string)
    requires Valid(s)
    ensures Valid(Create(s, name).store)
  {
  }

  /** Removing a key that occurs once, at position `i`, drops exactly that
      entry and keeps every other entry in order. */
  lemma {:induction false} RemoveAt(ps: seq<Project>, i: nat)
    requires IdsIncreasing(ps)
    requires i < |ps|
    ensures Remove(ps, ps[i].id) == ps[..i] + ps[i + 1..]
  {
    var id := ps[i].id;
    var tail := ps[1..];
    assert IdsIncreasing(tail) by {
      forall a, b | 0 <= a < b < |tail|
        ensures tail[a].id < tail[b].id
      {
        assert tail[a] == ps[a + 1] && tail[b] == ps[b + 1];
      }
    }
    if i == 0 {
      assert forall k :: 0 <= k < |tail| ==> id < tail[k].id by {
        forall k | 0 <= k < |tail| ensures id < tail[k].id {
          assert tail[k] == ps[k + 1];
        }
      }
      RemoveAbsent(tail, id);
      assert Remove(ps, id) == tail;
    } else {
      assert ps[0].id < id;
      assert tail[i - 1] == ps[i];
      RemoveAt(tail, i - 1);
      RemoveKeepsHead(ps, id);
      SpliceShift(ps, i);
    }
  }

  lemma {:induction false} RemoveKeepsHead(ps: seq<Project>, id: int)
    requires ps != [] && ps[0].id != id
    ensures Remove(ps, id) == [ps[0]] + Remove(ps[1..], id)
  {
  }

  lemma SpliceShift(ps: seq<Project>, i: nat)
    requires 0 < i < |ps|
    ensures [ps[0]] + (ps[1..][..i - 1] + ps[1..][i..]) == ps[..i] + ps[i + 1..]
  {
    assert ps[1..][..i - 1] == ps[1..i];
    assert ps[1..][i..] == ps[i + 1..];
    assert ps[..i] == [ps[0]] + ps[1..i];
  }

  /** Removing a key below every key present changes nothing. */
  lemma {:induction false} RemoveAbsent(ps: seq<Project>, id: int)
    requires forall k :: 0 <= k < |ps| ==> id < ps[k].id
    ensures Remove(ps, id) == ps
  {
    if ps != [] {
      RemoveAbsent(ps[1..], id);
    }
  }

  /** Deleting an existing id removes exactly that one entry, keeps the order
      of the others, and keeps the store valid. */
  lemma DeleteRemovesExactly(s: Store, i: nat)
    requires Valid(s)
    requires i < |s.projects|
    ensures Delete(s, s.projects[i].id).outcome.Ok?
    ensures List(Delete(s, s.projects[i].id).store) == s.projects[..i] + s.projects[i + 1..]
    ensures Valid(Delete(s, s.projects[i].id).store)
  {
    var id := s.projects[i].id;
    assert HasId(s.projects, id);
    RemoveAt(s.projects, i);
    var r := s.projects[..i] + s.projects[i + 1..];
    assert Delete(s, id).store == s.(projects := r);
    SpliceValid(s, i);
  }

  lemma {:induction false} SpliceValid(s: Store, i: nat)
    requires Valid(s)
    requires i < |s.projects|
    ensures Valid(s.(projects := s.projects[..i] + s.projects[i + 1..]))
  {
    var ps := s.projects;
    var r := ps[..i] + ps[i + 1..];
    assert forall a :: 0 <= a < |r| ==> r[a] == ps[if a < i then a else a + 1];
    forall a, b | 0 <= a < b < |r|
      ensures r[a].id < r[b].id
    {
      assert r[a] == ps[if a < i then a else a + 1];
      assert r[b] == ps[if b < i then b else b + 1];
    }
  }

  /** Deleting the project just created gives back the listing from before
      the create, while the counter stays advanced: the id is spent. */
  lemma CreateThenDelete(s: Store, name: string)
    requires Valid(s)
    ensures var s1 := Create(s, name).store;
      && Delete(s1, s.nextProjectId).outcome.Ok?
      && List(Delete(s1, s.nextProjectId).store) == List(s)
      && Delete(s1, s.nextProjectId).store.nextProjectId == s.nextProjectId + 1
  {
    var s1 := Create(s, name).store;
    CreatePreservesValid(s, name);
    var i := |s.projects|;
    assert s1.projects[i].id == s.nextProjectId;
    DeleteRemovesExactly(s1, i);
    assert s1.projects[..i] + s1.projects[i + 1..] == s.projects;
  }

  /** A request to the store. */
  datatype Request = CreateRequest(name: string) | DeleteRequest(id: int)

  function Apply(s: Store, req: Request): Store {
    match req
    case CreateRequest(name) => Create(s, name).store
    case DeleteRequest(id) => Delete(s, id).store
  }

  /** The store after serving `reqs` in order, and the ids of the projects
      created, in creation order. */
  function Serve(s: Store, reqs: seq<Request>): (Store, seq<int>)
    decreases |reqs|
  {
    if reqs == [] then (s, [])
    else
      var (s', ids) := Serve(Apply(s, reqs[0]), reqs[1..]);
      (s', (if reqs[0].CreateRequest? then [s.nextProjectId] else []) + ids)
  }

  /** Over any mix of creates and deletes, created ids strictly increase and
      none equals an id present at the start: the counter never goes back,
      so an id is never reused, even after its project was deleted. */
  lemma {:induction false} IdsNeverReused(s: Store, reqs: seq<Request>)
    requires Valid(s)
    ensures var (s', ids) := Serve(s, reqs);
      && Valid(s')
      && s.nextProjectId <= s'.nextProjectId
      && (forall k :: 0 <= k < |ids| ==> s.nextProjectId <= ids[k] < s'.nextProjectId)
      && (forall k :: 0 <= k < |ids| - 1 ==> ids[k] < ids[k + 1])
      && (forall k, i :: 0 <= k < |ids| && 0 <= i < |s.projects| ==> ids[k] != s.projects[i].id)
    decreases |reqs|
  {
    if reqs != [] {
      var t := Apply(s, reqs[0]);
      match reqs[0] {
        case CreateRequest(name) => CreatePreservesValid(s, name);
        case DeleteRequest(id) =>
          if HasId(s.projects, id) {
            var i :| 0 <= i < |s.projects| && s.projects[i].id == id;
            DeleteRemovesExactly(s, i);
          }
      }
      IdsNeverReused(t, reqs[1..]);
      var (s', rest) := Serve(t, reqs[1..]);
      var created := if reqs[0].CreateRequest? then [s.nextProjectId] else [];
      var ids := created + rest;
      assert Serve(s, reqs).1 == ids;
      if created != [] {
        forall k | 0 <= k < |ids| - 1
          ensures ids[k] < ids[k + 1]
        {
          if k > 0 {
            assert ids[k] == rest[k - 1] && ids[k + 1] == rest[k];
          } else {
            assert ids[1] == rest[0];
          }
        }
      }
    }
  }
}
