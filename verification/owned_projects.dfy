/** The database-backed project endpoints, scoped to the calling user. The
    projects table is a sequence of rows whose order carries no meaning;
    the caller's id is what the authentication dependency resolved, and a new
    row's id is the one the database assigns. */
module OwnedProjects {
  import opened Wrappers
  import opened Sorting

  datatype ProjectRow = ProjectRow(id: int, name: string, description: Option<string>, ownerId: int)

  type Table = seq<ProjectRow>

  /** The fields a create request carries. */
  datatype ProjectCreate = ProjectCreate(name: string, description: Option<string>)

  /** The table's primary key: no two rows share an id. */
  predicate UniqueIds(t: Table) {
    forall i, j :: 0 <= i < |t| && 0 <= j < |t| && i != j ==> t[i].id != t[j].id
  }

  predicate IdFree(t: Table, id: int) {
    forall i :: 0 <= i < |t| ==> t[i].id != id
  }

  /** `create_project`: a row with the payload's name and description, owned
      by the caller, under the id the database assigns. */
  function Create(t: Table, payload: ProjectCreate, callerId: int, newId: int): (r: (Table, ProjectRow))
    ensures r.1 == ProjectRow(newId, payload.name, payload.description, callerId)
    ensures multiset(r.0) == multiset(t) + multiset{r.1}
    ensures UniqueIds(t) && IdFree(t, newId) ==> UniqueIds(r.0)
  {
    var row := ProjectRow(newId, payload.name, payload.description, callerId);
    (t + [row], row)
  }

  /** The rows the caller owns, in table order (`WHERE owner_id = caller`). */
  function Owned(t: Table, callerId: int): (r: Table)
    ensures forall row :: row in r <==> row in t && row.ownerId == callerId
    ensures |r| <= |t|
  {
    if t == [] then []
    else
      assert forall row :: row in t <==> row == t[0] || row in t[1..];
      (if t[0].ownerId == callerId then [t[0]] else []) + Owned(t[1..], callerId)
  }

  /** `ORDER BY id DESC` as a sort key. */
  predicate IdDescLe(a: ProjectRow, b: ProjectRow) {
    a.id >= b.id
  }

  lemma IdDescIsTotalPreorder()
    ensures TotalPreorder(IdDescLe)
  {
  }

  /** `list_projects`: the caller's projects, highest id first. */
  function List(t: Table, callerId: int): (r: Table)
    ensures multiset(r) == multiset(Owned(t, callerId))
  {
    SortBy(Owned(t, callerId), IdDescLe)
  }

  /** The index of the first row with this id owned by the caller, if any. */
  function FindOwned(t: Table, id: int, callerId: int): (r: Option<nat>)
    ensures r.Some? ==> r.value < |t| && t[r.value].id == id && t[r.value].ownerId == callerId
    ensures r.None? ==> forall i :: 0 <= i < |t| ==> !(t[i].id == id && t[i].ownerId == callerId)
  {
    if t == [] then None
    else if t[0].id == id && t[0].ownerId == callerId then Some(0)
    else
      match FindOwned(t[1..], id, callerId)
      case None => None
      case Some(k) => Some(k + 1)
  }

  /** `delete_project`: no row with that id owned by the caller (another
      user's project included) is 404 "Project not found" and changes nothing;
      otherwise that row goes and the others stay. */
  function Delete(t: Table, id: int, callerId: int): (r: Result<Table, HttpError>)
    ensures r.Err? <==> forall i :: 0 <= i < |t| ==> !(t[i].id == id && t[i].ownerId == callerId)
    ensures r.Err? ==> r.error == HttpError(NotFound, "Project not found")
    ensures r.Ok? ==> exists i :: 0 <= i < |t| && t[i].id == id && t[i].ownerId == callerId &&
                        multiset(r.value) == multiset(t) - multiset{t[i]}
  {
    match FindOwned(t, id, callerId)
    case None => Err(HttpError(NotFound, "Project not found"))
    case Some(i) =>
      assert t == t[..i] + [t[i]] + t[i + 1..];
      Ok(t[..i] + t[i + 1..])
  }

  // ----------------------------------------------------------------- lemmas

  /** Listing returns exactly the caller's rows, each once, with ids strictly
      decreasing. */
  lemma ListSpec(t: Table, callerId: int)
    requires UniqueIds(t)
    ensures forall row :: row in List(t, callerId) <==> row in t && row.ownerId == callerId
    ensures forall i, j :: 0 <= i < j < |List(t, callerId)| ==> List(t, callerId)[i].id > List(t, callerId)[j].id
  {
    var owned := Owned(t, callerId);
    var r := List(t, callerId);
    SortByMembers(owned, IdDescLe);
    IdDescIsTotalPreorder();
    SortBySorted(owned, IdDescLe);
    OwnedUnique(t, callerId);
    forall i, j | 0 <= i < j < |r|
      ensures r[i].id > r[j].id
    {
      assert IdDescLe(r[i], r[j]);
      if r[i].id == r[j].id {
        SortedDistinct(r, owned, i, j);
      }
    }
  }

  /** Two positions of a permutation of a key-unique sequence carrying the
      same id would be the same row twice, which the multiset forbids. */
  lemma SortedDistinct(r: Table, owned: Table, i: nat, j: nat)
    requires UniqueIds(owned)
    requires multiset(r) == multiset(owned)
    requires i < j < |r|
    ensures r[i].id != r[j].id
  {
    if r[i].id == r[j].id {
      assert r[i] in multiset(owned) && r[j] in multiset(owned);
      var a :| 0 <= a < |owned| && owned[a] == r[i];
      var b :| 0 <= b < |owned| && owned[b] == r[j];
      assert a == b;
      assert r[i] == r[j];
      var m := multiset(r);
      assert r == r[..i] + [r[i]] + r[i + 1..j] + [r[j]] + r[j + 1..];
      assert m[r[i]] >= 2;
      MultiplicityOne(owned, a);
      assert false;
    }
  }

  /** A row of a key-unique table occurs in it exactly once. */
  lemma {:induction false} MultiplicityOne(t: Table, a: nat)
    requires UniqueIds(t)
    requires a < |t|
    ensures multiset(t)[t[a]] == 1
  {
    assert t == t[..a] + [t[a]] + t[a + 1..];
    assert t[a] !in t[..a];
    assert t[a] !in t[a + 1..];
  }

  /** Filtering keeps ids unique. */
  lemma {:induction false} OwnedUnique(t: Table, callerId: int)
    requires UniqueIds(t)
    ensures UniqueIds(Owned(t, callerId))
  {
    if t != [] {
      var tail := t[1..];
      assert UniqueIds(tail) by {
        forall i, j | 0 <= i < |tail| && 0 <= j < |tail| && i != j
          ensures tail[i].id != tail[j].id
        {
          assert tail[i] == t[i + 1] && tail[j] == t[j + 1];
        }
      }
      OwnedUnique(tail, callerId);
      var rest := Owned(tail, callerId);
      if t[0].ownerId == callerId {
        var r := [t[0]] + rest;
        forall k | 0 <= k < |rest|
          ensures rest[k].id != t[0].id
        {
          assert rest[k] in tail;
          var m :| 0 <= m < |tail| && tail[m] == rest[k];
          assert t[m + 1] == rest[k];
        }
        forall i, j | 0 <= i < |r| && 0 <= j < |r| && i != j
          ensures r[i].id != r[j].id
        {
          if i > 0 && j > 0 {
            assert r[i] == rest[i - 1] && r[j] == rest[j - 1];
          } else if i == 0 {
            assert r[j] == rest[j - 1];
          } else {
            assert r[i] == rest[i - 1];
          }
        }
      }
    }
  }

  /** A user can never delete another user's project: the attempt is a 404 or
      removes a row of the caller's, and every row owned by someone else is
      still there afterwards. */
  lemma DeleteKeepsOthers(t: Table, id: int, callerId: int, row: ProjectRow)
    requires row in t && row.ownerId != callerId
    ensures Delete(t, id, callerId).Ok? ==> row in Delete(t, id, callerId).value
  {
    var r := Delete(t, id, callerId);
    if r.Ok? {
      var i :| 0 <= i < |t| && t[i].id == id && t[i].ownerId == callerId &&
               multiset(r.value) == multiset(t) - multiset{t[i]};
      assert t[i] != row;
      assert row in multiset(t);
      assert row in multiset(r.value);
    }
  }

  /** Deleting the project just created, as its owner, gives back the
      table's rows from before the create. */
  lemma {:induction false} CreateThenDelete(t: Table, payload: ProjectCreate, callerId: int, newId: int)
    requires IdFree(t, newId)
    ensures var t' := Create(t, payload, callerId, newId).0;
      && Delete(t', newId, callerId).Ok?
      && multiset(Delete(t', newId, callerId).value) == multiset(t)
  {
    var (t', row) := Create(t, payload, callerId, newId);
    assert t' == t + [row];
    assert t'[|t|] == row;
    var r := Delete(t', newId, callerId);
    var i :| 0 <= i < |t'| && t'[i].id == newId && t'[i].ownerId == callerId &&
             multiset(r.value) == multiset(t') - multiset{t'[i]};
    assert forall k :: 0 <= k < |t| ==> t'[k] == t[k];
    assert i == |t|;
  }

  /** A created project shows up in its owner's listing, and in no one
      else's. */
  lemma CreateThenList(t: Table, payload: ProjectCreate, callerId: int, newId: int, other: int)
    requires other != callerId
    ensures var (t', row) := Create(t, payload, callerId, newId);
      && row in List(t', callerId)
      && row !in List(t', other)
  {
    var (t', row) := Create(t, payload, callerId, newId);
    assert row in t' by { assert row in multiset(t'); }
    SortByMembers(Owned(t', callerId), IdDescLe);
    SortByMembers(Owned(t', other), IdDescLe);
  }
}
