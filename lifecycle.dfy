/**
  The lifecycle tables: one row per known movie id and one per known actor id,
  each with a `type` and a `crawled` flag. This module gives the two row-level
  operations the pipelines issue against a table as functions on the table's
  contents: `create` (an insert that the unique key turns into a no-op when the
  id is already present) and `update(...).where(id == x)`.
 */
module Lifecycle {
  import opened Wrappers

  /** The `type` column: normal, needs a logged-in session, or broken link. */
  datatype EntityType = Normal | Login | Broken

  datatype Row = Row(ty: EntityType, crawled: bool)

  /** The row `create` writes: the column defaults. */
  const Fresh := Row(Normal, false)

  type Table = map<int, Row>

  /** What `create` reports: a new row, or the unique key's IntegrityError. */
  datatype Created = Inserted | AlreadyExists

  /** `create(id=id)`, with the unique-key violation turned into a no-op. */
  function Insert(t: Table, id: int): Table {
    if id in t then t else t[id := Fresh]
  }

  /** One `create` per id, in order. */
  function InsertAll(t: Table, ids: seq<int>): Table
    decreases |ids|
  {
    if ids == [] then t else Insert(InsertAll(t, ids[..|ids| - 1]), ids[|ids| - 1])
  }

  /**
    After a batch of creates every id of the batch has a row, rows that existed
    are unchanged, and every row that is new is a fresh one.
   */
  lemma {:induction false} InsertAllSpec(t: Table, ids: seq<int>)
    ensures forall k :: k in InsertAll(t, ids) <==> k in t || k in ids
    ensures forall k | k in t :: InsertAll(t, ids)[k] == t[k]
    ensures forall k | k in InsertAll(t, ids) && k !in t :: InsertAll(t, ids)[k] == Fresh
    decreases |ids|
  {
    if ids != [] {
      var p := ids[..|ids| - 1];
      InsertAllSpec(t, p);
      assert ids == p + [ids[|ids| - 1]];
      assert forall k :: k in ids <==> k in p || k == ids[|ids| - 1];
    }
  }

  /**
    `update(type=ty, crawled=crawled).where(id == id)`: the columns that are
    given are written on the matching row; with no matching row nothing happens.
   */
  function Update(t: Table, id: int, ty: Option<EntityType>, crawled: Option<bool>): Table {
    if id in t then
      t[id := Row(if ty.Some? then ty.value else t[id].ty,
                  if crawled.Some? then crawled.value else t[id].crawled)]
    else t
  }

  /** No row disappears and no `crawled` flag goes from true to false. */
  ghost predicate Grows(t: Table, u: Table) {
    && t.Keys <= u.Keys
    && forall k | k in t && t[k].crawled :: u[k].crawled
  }

  lemma InsertAllSnoc(t: Table, ids: seq<int>, x: int)
    ensures InsertAll(t, ids + [x]) == Insert(InsertAll(t, ids), x)
  {
    assert (ids + [x])[..|ids|] == ids;
  }

  lemma {:induction false} InsertAllAppend(t: Table, a: seq<int>, b: seq<int>)
    ensures InsertAll(InsertAll(t, a), b) == InsertAll(t, a + b)
    decreases |b|
  {
    if b == [] {
      assert a + b == a;
    } else {
      var p, x := b[..|b| - 1], b[|b| - 1];
      InsertAllAppend(t, a, p);
      assert (a + b)[..|a + b| - 1] == a + p;
    }
  }

  /** Creating ids that all have rows already changes nothing. */
  lemma {:induction false} InsertAllPresent(t: Table, ids: seq<int>)
    requires forall i | 0 <= i < |ids| :: ids[i] in t
    ensures InsertAll(t, ids) == t
    decreases |ids|
  {
    if ids != [] {
      InsertAllPresent(t, ids[..|ids| - 1]);
    }
  }

  /** Repeating a batch of creates changes nothing. */
  lemma InsertAllIdempotent(t: Table, ids: seq<int>)
    ensures InsertAll(InsertAll(t, ids), ids) == InsertAll(t, ids)
  {
    InsertAllSpec(t, ids);
    forall i | 0 <= i < |ids| ensures ids[i] in InsertAll(t, ids) {
      var k := ids[i];
      assert k in ids;
      assert k in t || k in ids;
    }
    InsertAllPresent(InsertAll(t, ids), ids);
  }

  /**
    Only which ids a batch holds matters, not their order or how often each
    appears: creates commute, and `[1, 2, 2, 3]` does what `[3, 2, 1]` does.
   */
  lemma InsertAllOnlyElementsMatter(t: Table, a: seq<int>, b: seq<int>)
    requires forall x :: x in a <==> x in b
    ensures InsertAll(t, a) == InsertAll(t, b)
  {
    var l, r := InsertAll(t, a), InsertAll(t, b);
    InsertAllSpec(t, a);
    InsertAllSpec(t, b);
    forall k ensures k in l <==> k in r {
      assert k in a <==> k in b;
    }
    forall k | k in l ensures l[k] == r[k] {
      if k in t {
        assert l[k] == t[k] == r[k];
      } else {
        assert l[k] == Fresh == r[k];
      }
    }
  }

  lemma InsertAllGrows(t: Table, ids: seq<int>)
    ensures Grows(t, InsertAll(t, ids))
  {
    InsertAllSpec(t, ids);
  }

  /**
    An update touches only the row it names and creates none; one that never
    writes `crawled := false` keeps the table growing.
   */
  lemma UpdateFrame(t: Table, id: int, ty: Option<EntityType>, crawled: Option<bool>)
    ensures Update(t, id, ty, crawled).Keys == t.Keys
    ensures forall k | k in t && k != id :: Update(t, id, ty, crawled)[k] == t[k]
    ensures crawled != Some(false) ==> Grows(t, Update(t, id, ty, crawled))
  {
  }
}
