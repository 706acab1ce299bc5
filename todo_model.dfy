/**
 * The repository: one `todos` table that create, update and delete change
 * in place.  Rows are kept in id order, as the engine's rowid b-tree keeps
 * them; `highestId` is the engine's AUTOINCREMENT record of the largest id
 * ever handed out, so an id is never handed out twice, even after a delete.
 */
module TodoModel {
  import opened Wrappers
  import opened Todos

  class TodoTable {
    /** The stored rows, in increasing id order. */
    var rows: seq<Todo>
    /** The largest id ever handed out (0 before the first insert). */
    var highestId: nat
    /** Every id ever handed out, deleted rows' ids included. */
    ghost var issued: set<int>

    ghost predicate Valid()
      reads this
    {
      TableInvariant(rows, highestId, issued)
    }

    /** `CREATE TABLE IF NOT EXISTS todos (...)` on a fresh database. */
    constructor ()
      ensures Valid()
      ensures rows == [] && highestId == 0 && issued == {}
    {
      rows := [];
      highestId := 0;
      issued := {};
    }

    /** The primary-key lookup: the position of the row with that id, or -1. */
    method FindIndex(id: int) returns (i: int)
      ensures -1 <= i < |rows|
      ensures 0 <= i ==> rows[i].id == id
      ensures i < 0 <==> Lookup(rows, id).None?
    {
      i := 0;
      while i < |rows|
        invariant 0 <= i <= |rows|
        invariant forall k :: 0 <= k < i ==> rows[k].id != id
      {
        if rows[i].id == id {
          return;
        }
        i := i + 1;
      }
      i := -1;
    }

    /** `getAll`: every stored row exactly once, newest created_at first. */
    method GetAll() returns (all: seq<Todo>)
      requires Valid()
      ensures NewestFirst(all)
      ensures multiset(all) == multiset(rows)
    {
      all := SortNewestFirst(rows);
      SortIsNewestFirst(rows);
    }

    /** `getById`: the row with that id, or absent when there is none. */
    method GetById(id: int) returns (r: Option<Todo>)
      requires Valid()
      ensures r == Lookup(rows, id)
      ensures r.Some? ==> r.value in rows && r.value.id == id
    {
      var i := FindIndex(id);
      if i < 0 {
        r := None;
      } else {
        LookupAt(rows, i);
        r := Some(rows[i]);
      }
    }

    /**
     * `create`: inserts one row with a never-used id, the given title, the
     * column defaults and `priority || "medium"`, then returns that row as
     * re-read by its id.  Once the largest possible id has been handed out
     * the insert fails and nothing changes.
     */
    method Create(title: string, priority: Option<string>, now: Timestamp) returns (r: Result<Todo, Fault>)
      requires Valid()
      modifies this
      ensures Valid()
      ensures old(highestId) == MaxRowId ==> r == Err(TableFull) && unchanged(this)
      ensures old(highestId) < MaxRowId ==>
        && r == Ok(Todo(old(highestId) + 1, title, DefaultCompleted, StoredPriority(priority), now))
        && r.value.id !in old(issued)
        && rows == old(rows) + [r.value]
        && Lookup(rows, r.value.id) == Some(r.value)
        && highestId == r.value.id
        && issued == old(issued) + {r.value.id}
    {
      if highestId == MaxRowId {
        return Err(TableFull);
      }
      var id := highestId + 1;
      var row := Todo(id, title, DefaultCompleted, StoredPriority(priority), now);
      InsertKeepsInvariant(rows, highestId, issued, row);
      rows := rows + [row];
      highestId := id;
      issued := issued + {id};
      var fetched := GetById(id);
      r := Ok(fetched.value);
    }

    /**
     * `update`: when no row has that id, returns absent and changes nothing;
     * otherwise merges the patch into that row alone (id and created_at stay)
     * and returns the row as re-read.
     */
    method Update(id: int, patch: Patch) returns (r: Option<Todo>)
      requires Valid()
      modifies this
      ensures Valid() && highestId == old(highestId) && issued == old(issued)
      ensures Lookup(old(rows), id).None? ==> r.None? && unchanged(this)
      ensures Lookup(old(rows), id).Some? ==>
        && r == Some(Merge(Lookup(old(rows), id).value, patch))
        && rows == Patched(old(rows), id, patch)
        && Lookup(rows, id) == r
    {
      var existing := GetById(id);
      if existing.None? {
        return None;
      }
      var merged := Merge(existing.value, patch);
      var i := FindIndex(id);
      LookupAt(rows, i);
      PatchedAt(rows, i, patch);
      rows := rows[i := merged];
      LookupAt(rows, i);
      r := GetById(id);
    }

    /**
     * `delete`: removes the row with that id, reporting whether the
     * statement changed a row; all other rows stay as they were.
     */
    method Delete(id: int) returns (deleted: bool)
      requires Valid()
      modifies this
      ensures Valid() && highestId == old(highestId) && issued == old(issued)
      ensures deleted <==> Lookup(old(rows), id).Some?
      ensures rows == Without(old(rows), id)
      ensures Lookup(rows, id).None?
    {
      var before := |rows|;
      DeleteKeepsInvariant(rows, highestId, issued, id);
      WithoutShrinks(rows, id);
      WithoutDrops(rows, id);
      rows := Without(rows, id);
      var changes := before - |rows|;
      deleted := changes > 0;
    }
  }
}
