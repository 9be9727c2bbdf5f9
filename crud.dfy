/**
 The three single-row table operations: create-if-absent by name
 (`POST /casinos`), full update by id (`PUT /casinos/:id`) and delete by id
 (`DELETE /casinos/:id`), each as its outcome and the table it leaves.
 The handlers that perform them on the shared table are in `Server`.
 */
module Crud {
  import opened Optional
  import opened Tables

  /** 200 with the name already present, or 201 with the inserted row. */
  datatype CreateResult = AlreadyExists(name: string) | Created(casino: Casino)
  {
    function Code(): int { if AlreadyExists? then 200 else 201 }
  }

  /** `nextId` is the value the key sequence hands out for the next insert. */
  function CreateSpec(rows: seq<Casino>, nextId: int, info: CasinoInfo): (r: (CreateResult, seq<Casino>))
    ensures r.0.AlreadyExists? <==> NameTaken(rows, info.name)
    ensures r.0.AlreadyExists? ==> r.0.name == info.name && r.1 == rows
    ensures r.0.Created? ==>
      r.0.casino.id == nextId && r.0.casino.info == info &&
      |r.1| == |rows| + 1 && r.1[..|rows|] == rows && r.1[|rows|] == r.0.casino
  {
    match FindByName(rows, info.name)
    case Some(existing) => (AlreadyExists(existing.info.name), rows)
    case None =>
      var c := Casino(nextId, info);
      (Created(c), rows + [c])
  }

  /** Creating the same name twice inserts one row: the second request finds it and changes nothing. */
  lemma CreateTwiceInsertsOnce(rows: seq<Casino>, nextId: int, laterId: int, info: CasinoInfo, again: CasinoInfo)
    requires again.name == info.name
    ensures
      var (_, rows1) := CreateSpec(rows, nextId, info);
      CreateSpec(rows1, laterId, again) == (AlreadyExists(info.name), rows1)
  {
    var (r1, rows1) := CreateSpec(rows, nextId, info);
    if r1.Created? {
      assert rows1[|rows|].info.name == info.name;
    }
  }

  /** An insert with a key above every existing key keeps the keys unique. */
  lemma CreateKeepsIdsUnique(rows: seq<Casino>, nextId: int, info: CasinoInfo)
    requires UniqueIds(rows)
    requires forall i :: 0 <= i < |rows| ==> rows[i].id < nextId
    ensures UniqueIds(CreateSpec(rows, nextId, info).1)
  {
  }

  /**
   `UPDATE casino SET … WHERE id = $6 RETURNING *`: the updated row (200), or
   `None` (404) when no row has the key.
   */
  function UpdateSpec(rows: seq<Casino>, id: int, info: CasinoInfo): (r: (Option<Casino>, seq<Casino>))
    ensures r.0.None? <==> !HasId(rows, id)
    ensures r.0.None? ==> r.1 == rows
    ensures r.0.Some? ==>
      r.0.value == Casino(id, info) && |r.1| == |rows| &&
      forall i :: 0 <= i < |rows| ==> r.1[i] == if rows[i].id == id then Casino(id, info) else rows[i]
  {
    var after := WithInfo(rows, id, info);
    match FindById(after, id)
    case None =>
      assert after == rows;
      (None, rows)
    case Some(c) =>
      assert HasId(rows, id) by {
        var k :| 0 <= k < |after| && after[k] == c;
        assert rows[k].id == id;
      }
      (Some(c), after)
  }

  /** After an update the key finds the new columns. */
  lemma UpdateThenFind(rows: seq<Casino>, id: int, info: CasinoInfo)
    requires UniqueIds(rows) && HasId(rows, id)
    ensures FindById(UpdateSpec(rows, id, info).1, id) == Some(Casino(id, info))
  {
    var after := UpdateSpec(rows, id, info).1;
    var k :| 0 <= k < |rows| && rows[k].id == id;
    assert UniqueIds(after) by {
      forall i, j | 0 <= i < j < |after| ensures after[i].id != after[j].id {
        assert after[i].id == rows[i].id && after[j].id == rows[j].id;
      }
    }
    FindByIdUnique(after, k);
  }

  /** Sending the same update twice leaves the table as sending it once. */
  lemma UpdateIdempotent(rows: seq<Casino>, id: int, info: CasinoInfo)
    ensures
      var (r1, rows1) := UpdateSpec(rows, id, info);
      UpdateSpec(rows1, id, info) == (r1, rows1)
  {
    var (r1, rows1) := UpdateSpec(rows, id, info);
    var (r2, rows2) := UpdateSpec(rows1, id, info);
    assert HasId(rows1, id) <==> HasId(rows, id) by {
      if HasId(rows, id) {
        var k :| 0 <= k < |rows| && rows[k].id == id;
        assert rows1[k].id == id;
      }
    }
    if r1.Some? {
      assert rows2 == rows1;
    }
  }

  /** `DELETE FROM casino WHERE id = $1 RETURNING *`: whether a row went (200) or none had the key (404). */
  function DeleteSpec(rows: seq<Casino>, id: int): (r: (bool, seq<Casino>))
    ensures r.0 <==> HasId(rows, id)
    ensures !r.0 ==> r.1 == rows
    ensures forall c :: multiset(r.1)[c] == if c.id == id then 0 else multiset(rows)[c]
  {
    (HasId(rows, id), WithoutId(rows, id))
  }

  /** With unique keys a delete that finds its key removes exactly that one row. */
  lemma DeleteRemovesExactlyOne(rows: seq<Casino>, id: int)
    requires UniqueIds(rows) && HasId(rows, id)
    ensures
      var gone := FindById(rows, id).value;
      multiset(DeleteSpec(rows, id).1) == multiset(rows) - multiset{gone} &&
      |DeleteSpec(rows, id).1| == |rows| - 1
  {
    var gone := FindById(rows, id).value;
    var k :| 0 <= k < |rows| && rows[k] == gone;
    UniqueRowOnce(rows, k);
    assert forall c: Casino :: c.id == id && c != gone ==> multiset(rows)[c] == 0;
    DropsOnlyRow(multiset(rows), multiset(DeleteSpec(rows, id).1), gone);
  }

  lemma DropsOnlyRow(before: multiset<Casino>, after: multiset<Casino>, gone: Casino)
    requires before[gone] == 1
    requires forall c :: after[c] == if c.id == gone.id then 0 else before[c]
    requires forall c: Casino :: c.id == gone.id && c != gone ==> before[c] == 0
    ensures after == before - multiset{gone} && |after| == |before| - 1
  {
  }

  /** A second delete of the same key finds nothing. */
  lemma DeleteTwiceFindsNothing(rows: seq<Casino>, id: int)
    ensures DeleteSpec(DeleteSpec(rows, id).1, id).0 == false
  {
    var after := DeleteSpec(rows, id).1;
    forall k | 0 <= k < |after| ensures after[k].id != id {
      assert multiset(after)[after[k]] > 0;
    }
  }
}
