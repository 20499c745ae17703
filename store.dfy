/**
 * The repository the pages talk to, reduced to what they use: a table per
 * entity holding its rows in storage order and the next auto-increment id,
 * with `insert`, `save`, `delete`, `count` and `find`. Each handler's call is
 * one atomic step. A `save` or `delete` is only issued for an id the page has
 * just loaded, so both require the id to be present.
 */
module Store {
  import opened Wrappers
  import opened Entities
  import Seqs

  /** `f` strictly increases along `rows`. */
  predicate Increasing<T>(rows: seq<T>, f: T -> nat) {
    forall i, j :: 0 <= i < j < |rows| ==> f(rows[i]) < f(rows[j])
  }

  /** Every row's `f` is below `bound`. */
  predicate Bounded<T>(rows: seq<T>, f: T -> nat, bound: nat) {
    forall i :: 0 <= i < |rows| ==> f(rows[i]) < bound
  }

  /** Some row has id `id`. */
  predicate HasId<T>(rows: seq<T>, idOf: T -> nat, id: nat) {
    exists i :: 0 <= i < |rows| && idOf(rows[i]) == id
  }

  /** `rows[i]` is the first row whose id is `id`. */
  predicate FirstWithId<T>(rows: seq<T>, idOf: T -> nat, id: nat, i: int) {
    0 <= i < |rows| && idOf(rows[i]) == id && forall j :: 0 <= j < i ==> idOf(rows[j]) != id
  }

  /** `rows.find(r => r.id === id)`: the first row with the id, if there is one. */
  function FindById<T(==)>(rows: seq<T>, idOf: T -> nat, id: nat): (r: Option<T>)
    ensures r.None? <==> !HasId(rows, idOf, id)
    ensures r.Some? ==> exists i :: FirstWithId(rows, idOf, id, i) && rows[i] == r.value
  {
    if rows == [] then None
    else if idOf(rows[0]) == id then
      assert FirstWithId(rows, idOf, id, 0);
      Some(rows[0])
    else
      var r := FindById(rows[1..], idOf, id);
      if r.Some? then
        var i :| FirstWithId(rows[1..], idOf, id, i) && rows[1..][i] == r.value;
        assert FirstWithId(rows, idOf, id, i + 1);
        r
      else
        r
  }

  /** A full-record `save`: the row with `r`'s id becomes `r`; every other row is kept in place. */
  function Replace<T>(rows: seq<T>, idOf: T -> nat, r: T): seq<T> {
    seq(|rows|, i requires 0 <= i < |rows| => if idOf(rows[i]) == idOf(r) then r else rows[i])
  }

  function IdIsNot<T>(idOf: T -> nat, id: nat): T -> bool {
    x => idOf(x) != id
  }

  /** `delete`: every row but the one with the id, in storage order. */
  function Remove<T(!new)>(rows: seq<T>, idOf: T -> nat, id: nat): seq<T> {
    Seqs.Filter(rows, IdIsNot(idOf, id))
  }

  /** Saving keeps the ids, and any column `save` does not change, exactly where they were. */
  lemma ReplaceKeeps<T>(rows: seq<T>, idOf: T -> nat, r: T, f: T -> nat)
    requires forall i :: 0 <= i < |rows| && idOf(rows[i]) == idOf(r) ==> f(rows[i]) == f(r)
    ensures |Replace(rows, idOf, r)| == |rows|
    ensures forall i :: 0 <= i < |rows| ==> f(Replace(rows, idOf, r)[i]) == f(rows[i])
  {
  }

  /** In a table with increasing ids, the saved record is what a lookup of its id now finds. */
  lemma {:induction false} ReplaceThenFind<T>(rows: seq<T>, idOf: T -> nat, r: T)
    requires Increasing(rows, idOf) && HasId(rows, idOf, idOf(r))
    ensures FindById(Replace(rows, idOf, r), idOf, idOf(r)) == Some(r)
  {
    var out := Replace(rows, idOf, r);
    var i :| 0 <= i < |rows| && idOf(rows[i]) == idOf(r);
    assert FirstWithId(out, idOf, idOf(r), i) && out[i] == r;
    FirstWithIdUnique(out, idOf, idOf(r), i);
  }

  lemma FirstWithIdUnique<T>(rows: seq<T>, idOf: T -> nat, id: nat, i: int)
    requires FirstWithId(rows, idOf, id, i)
    ensures FindById(rows, idOf, id) == Some(rows[i])
  {
    assert HasId(rows, idOf, id) by { assert idOf(rows[i]) == id; }
    var found := FindById(rows, idOf, id);
    var k :| FirstWithId(rows, idOf, id, k) && rows[k] == found.value;
    assert idOf(rows[k]) == id && idOf(rows[i]) == id;
    assert k == i;
  }

  /**
   * Saving a record over its own stored row after saving a changed version of
   * it restores the table.
   */
  lemma ReplaceRestores<T>(rows: seq<T>, idOf: T -> nat, r: T, changed: T)
    requires Increasing(rows, idOf) && r in rows && idOf(changed) == idOf(r)
    ensures Replace(Replace(rows, idOf, changed), idOf, r) == rows
  {
    var i :| 0 <= i < |rows| && rows[i] == r;
    var twice := Replace(Replace(rows, idOf, changed), idOf, r);
    forall j | 0 <= j < |rows| ensures twice[j] == rows[j] {
      if j < i || i < j {
        assert idOf(rows[j]) != idOf(r);
      }
    }
  }

  /** A filtered table keeps its increasing columns increasing. */
  lemma {:induction false} FilterIncreasing<T(!new)>(rows: seq<T>, f: T -> nat, keep: T -> bool)
    requires Increasing(rows, f)
    ensures Increasing(Seqs.Filter(rows, keep), f)
  {
    if rows != [] {
      var rest := Seqs.Filter(rows[1..], keep);
      FilterIncreasing(rows[1..], f, keep);
      Seqs.FilterMembers(rows[1..], keep);
      if keep(rows[0]) {
        var out := [rows[0]] + rest;
        forall j | 0 < j < |out| ensures f(out[0]) < f(out[j]) {
          assert out[j] in rest;
          var m :| 0 <= m < |rows| - 1 && rows[1..][m] == out[j];
          assert rows[m + 1] == out[j];
        }
        forall i, j | 0 <= i < j < |out| ensures f(out[i]) < f(out[j]) {
          if 0 < i {
            assert out[i] == rest[i - 1] && out[j] == rest[j - 1];
          }
        }
      }
    }
  }

  /** In a table with increasing ids, looking up a stored row's id finds that row. */
  lemma {:induction false} FindStored<T>(rows: seq<T>, idOf: T -> nat, r: T)
    requires Increasing(rows, idOf) && r in rows
    ensures FindById(rows, idOf, idOf(r)) == Some(r)
  {
    var i :| 0 <= i < |rows| && rows[i] == r;
    assert FirstWithId(rows, idOf, idOf(r), i);
    FirstWithIdUnique(rows, idOf, idOf(r), i);
  }

  /** Insert-then-find round trip: a row appended with an id above all others is what a lookup of that id finds. */
  lemma InsertThenFind<T>(rows: seq<T>, idOf: T -> nat, r: T)
    requires Bounded(rows, idOf, idOf(r))
    ensures FindById(rows + [r], idOf, idOf(r)) == Some(r)
  {
    var out := rows + [r];
    assert FirstWithId(out, idOf, idOf(r), |rows|);
    FirstWithIdUnique(out, idOf, idOf(r), |rows|);
  }

  /** After `delete`, no row has the id, and every other row is still there. */
  lemma RemoveDrops<T(!new)>(rows: seq<T>, idOf: T -> nat, id: nat)
    ensures !HasId(Remove(rows, idOf, id), idOf, id)
    ensures forall x :: x in rows && idOf(x) != id ==> x in Remove(rows, idOf, id)
  {
    var out := Remove(rows, idOf, id);
    Seqs.FilterMembers(rows, IdIsNot(idOf, id));
    forall i | 0 <= i < |out| ensures idOf(out[i]) != id {
      assert out[i] in out;
    }
  }

  /** The rows `rows` with ids assigned in order from `first`, as a batch `insert` stores them. */
  function Numbered(drafts: seq<Product>, first: nat): (r: seq<Product>)
    ensures |r| == |drafts|
    ensures forall i :: 0 <= i < |r| ==> r[i] == drafts[i].(id := first + i)
  {
    if drafts == [] then [] else [drafts[0].(id := first)] + Numbered(drafts[1..], first + 1)
  }

  /** Creation time as a number; 0 for a record the store has not stamped. */
  function Stamp(t: Task): nat {
    if t.createdAt.Some? then t.createdAt.value else 0
  }

  /**
   * Row `i` comes before row `j` in both id and creation stamp. Kept as a
   * predicate of its own so that the table invariant is only instantiated for
   * the pairs a proof names.
   */
  predicate Precedes(rows: seq<Task>, i: int, j: int) {
    0 <= i < j < |rows| && rows[i].id < rows[j].id && Stamp(rows[i]) < Stamp(rows[j])
  }

  /** The `tasks` table. */
  class TaskStore {
    var rows: seq<Task>
    var nextId: nat
    var clock: nat

    /** Ids and creation stamps both strictly increase in storage order and are all below the next ones to hand out. */
    ghost predicate Valid()
      reads this
    {
      && (forall i, j :: 0 <= i < j < |rows| ==> Precedes(rows, i, j))
      && (forall i :: 0 <= i < |rows| ==> rows[i].id < nextId && rows[i].createdAt.Some? && Stamp(rows[i]) < clock)
    }

    /** The invariant in the terms of the row helpers. */
    lemma Ordered()
      requires Valid()
      ensures Increasing(rows, TaskId) && Bounded(rows, TaskId, nextId)
      ensures Increasing(rows, Stamp) && Bounded(rows, Stamp, clock)
    {
      forall i, j | 0 <= i < j < |rows| ensures TaskId(rows[i]) < TaskId(rows[j]) && Stamp(rows[i]) < Stamp(rows[j]) {
        assert Precedes(rows, i, j);
      }
    }

    /** Every stored stamp is below the clock. */
    lemma StampsBelowClock()
      requires Valid()
      ensures Bounded(rows, Stamp, clock)
    {
    }

    /** Ids strictly increase in storage order. */
    lemma IdsIncrease()
      requires Valid()
      ensures Increasing(rows, TaskId)
    {
      forall i, j | 0 <= i < j < |rows| ensures TaskId(rows[i]) < TaskId(rows[j]) {
        assert Precedes(rows, i, j);
      }
    }

    constructor ()
      ensures Valid() && rows == [] && nextId == 1
    {
      rows, nextId, clock := [], 1, 1;
    }

    /** `insert`: the draft with a fresh id and the current time appended; the clock moves on. */
    method Insert(draft: Task) returns (t: Task)
      requires Valid()
      modifies this
      ensures Valid()
      ensures t == draft.(id := old(nextId), createdAt := Some(old(clock)))
      ensures rows == old(rows) + [t]
      ensures nextId == old(nextId) + 1 && clock > old(clock)
    {
      t := draft.(id := nextId, createdAt := Some(clock));
      ghost var before := rows;
      rows := rows + [t];
      forall i, j | 0 <= i < j < |rows| ensures Precedes(rows, i, j) {
        if j < |before| {
          assert Precedes(before, i, j);
        }
      }
      nextId, clock := nextId + 1, clock + 1;
    }

    /** `save`: full replace of the row with `t`'s id; `createdAt` keeps its stored value. */
    method Save(t: Task)
      requires Valid() && HasId(rows, TaskId, t.id)
      modifies this
      ensures Valid()
      ensures rows == Replace(old(rows), TaskId, t.(createdAt := FindById(old(rows), TaskId, t.id).value.createdAt))
      ensures nextId == old(nextId) && clock == old(clock)
    {
      Ordered();
      var stored := FindById(rows, TaskId, t.id).value;
      var saved := t.(createdAt := stored.createdAt);
      ghost var i :| FirstWithId(rows, TaskId, t.id, i) && rows[i] == stored;
      forall j | 0 <= j < |rows| && rows[j].id == t.id ensures Stamp(rows[j]) == Stamp(saved) {
        assert TaskId(rows[j]) == TaskId(rows[i]);
        assert j == i;
      }
      var out := Replace(rows, TaskId, saved);
      ReplaceKeeps(rows, TaskId, saved, TaskId);
      ReplaceKeeps(rows, TaskId, saved, Stamp);
      forall j | 0 <= j < |out| ensures out[j].createdAt.Some? {
        assert out[j] == rows[j] || out[j] == saved;
      }
      rows := out;
    }

    /** `delete`: the row with the id is gone, the rest keep their order. */
    method Delete(id: nat)
      requires Valid() && HasId(rows, TaskId, id)
      modifies this
      ensures Valid()
      ensures rows == Remove(old(rows), TaskId, id)
      ensures nextId == old(nextId) && clock == old(clock)
    {
      Ordered();
      var out := Remove(rows, TaskId, id);
      FilterIncreasing(rows, TaskId, IdIsNot(TaskId, id));
      FilterIncreasing(rows, Stamp, IdIsNot(TaskId, id));
      Seqs.FilterMembers(rows, IdIsNot(TaskId, id));
      forall j | 0 <= j < |out| ensures out[j].createdAt.Some? && TaskId(out[j]) < nextId && Stamp(out[j]) < clock {
        assert out[j] in rows;
      }
      rows := out;
    }
  }

  /** The `contacts` table. */
  class ContactStore {
    var rows: seq<Contact>
    var nextId: nat

    ghost predicate Valid()
      reads this
    {
      Increasing(rows, ContactId) && Bounded(rows, ContactId, nextId)
    }

    constructor ()
      ensures Valid() && rows == [] && nextId == 1
    {
      rows, nextId := [], 1;
    }

    method Insert(draft: Contact) returns (c: Contact)
      requires Valid()
      modifies this
      ensures Valid()
      ensures c == draft.(id := old(nextId))
      ensures rows == old(rows) + [c] && nextId == old(nextId) + 1
    {
      c := draft.(id := nextId);
      rows := rows + [c];
      nextId := nextId + 1;
    }

    method Save(c: Contact)
      requires Valid() && HasId(rows, ContactId, c.id)
      modifies this
      ensures Valid()
      ensures rows == Replace(old(rows), ContactId, c) && nextId == old(nextId)
    {
      ReplaceKeeps(rows, ContactId, c, ContactId);
      rows := Replace(rows, ContactId, c);
    }

    method Delete(id: nat)
      requires Valid() && HasId(rows, ContactId, id)
      modifies this
      ensures Valid()
      ensures rows == Remove(old(rows), ContactId, id) && nextId == old(nextId)
    {
      var out := Remove(rows, ContactId, id);
      FilterIncreasing(rows, ContactId, IdIsNot(ContactId, id));
      Seqs.FilterMembers(rows, IdIsNot(ContactId, id));
      forall j | 0 <= j < |out| ensures ContactId(out[j]) < nextId {
        assert out[j] in rows;
      }
      rows := out;
    }
  }

  /** The `products` table. */
  class ProductStore {
    var rows: seq<Product>
    var nextId: nat

    ghost predicate Valid()
      reads this
    {
      Increasing(rows, ProductId) && Bounded(rows, ProductId, nextId)
    }

    constructor ()
      ensures Valid() && rows == [] && nextId == 1
    {
      rows, nextId := [], 1;
    }

    /** `count()` with no filter. */
    method Count() returns (n: nat)
      ensures n == |rows|
    {
      n := |rows|;
    }

    /** `insert` of an array: the drafts, numbered in order from the next id, appended. */
    method InsertAll(drafts: seq<Product>)
      requires Valid()
      modifies this
      ensures Valid()
      ensures rows == old(rows) + Numbered(drafts, old(nextId))
      ensures nextId == old(nextId) + |drafts|
    {
      var added := Numbered(drafts, nextId);
      rows := rows + added;
      nextId := nextId + |drafts|;
    }
  }
}
