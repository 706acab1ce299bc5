/**
 * The todo entity and the pure meaning of one `todos` table, kept as the
 * sequence of its rows in id (rowid) order.  The class in todo_model.dfy
 * is specified in terms of the functions here.
 */
module Todos {
  import opened Wrappers

  /** created_at as the engine records it (CURRENT_TIMESTAMP, one-second resolution). */
  type Timestamp = int

  /** One row of `todos(id, title, completed, priority, created_at)`. */
  datatype Todo = Todo(id: int, title: string, completed: int, priority: string, createdAt: Timestamp)

  /** The fields an update may carry; `None` is a field that is null or undefined. */
  datatype Patch = Patch(title: Option<string>, completed: Option<int>, priority: Option<string>)

  /** A failure raised by the storage engine: an optional HTTP status tag and a message. */
  datatype Fault = Fault(status: Option<int>, message: string)

  /** Column default of `completed`. */
  const DefaultCompleted: int := 0
  /** Column default of `priority`. */
  const DefaultPriority: string := "medium"
  /** The largest rowid the engine can hand out (a signed 64-bit integer). */
  const MaxRowId: int := 0x7FFF_FFFF_FFFF_FFFF
  /** What the engine raises once AUTOINCREMENT has handed out MaxRowId. */
  const TableFull: Fault := Fault(None, "database or disk is full")

  /** The priority create stores: `priority || "medium"`. */
  function StoredPriority(priority: Option<string>): (p: string)
    ensures p != []
    ensures priority.Some? && priority.value != [] ==> p == priority.value
    ensures priority.None? || priority.value == [] ==> p == DefaultPriority
  {
    if priority.Some? && priority.value != [] then priority.value else DefaultPriority
  }

  /** JavaScript's `v ?? fallback`: only null or undefined falls back. */
  function Coalesce<T>(v: Option<T>, fallback: T): T {
    match v
    case Some(x) => x
    case None => fallback
  }

  /** The row `update` writes back: each mutable field takes the supplied value unless it is null or undefined. */
  function Merge(t: Todo, p: Patch): (m: Todo)
    ensures m.id == t.id && m.createdAt == t.createdAt
  {
    t.(title := Coalesce(p.title, t.title),
       completed := Coalesce(p.completed, t.completed),
       priority := Coalesce(p.priority, t.priority))
  }

  /** The patch that sending `p` and then `q` amounts to. */
  function Overlay(p: Patch, q: Patch): Patch {
    Patch(if q.title.Some? then q.title else p.title,
          if q.completed.Some? then q.completed else p.completed,
          if q.priority.Some? then q.priority else p.priority)
  }

  /** Each supplied field wins, falsy values (`""`, `0`) included. */
  lemma MergeSupplied(t: Todo, p: Patch)
    ensures p.title.Some? ==> Merge(t, p).title == p.title.value
    ensures p.completed.Some? ==> Merge(t, p).completed == p.completed.value
    ensures p.priority.Some? ==> Merge(t, p).priority == p.priority.value
  {
  }

  /** Each field left null or undefined keeps the stored value. */
  lemma MergeOmitted(t: Todo, p: Patch)
    ensures p.title.None? ==> Merge(t, p).title == t.title
    ensures p.completed.None? ==> Merge(t, p).completed == t.completed
    ensures p.priority.None? ==> Merge(t, p).priority == t.priority
    ensures p == Patch(None, None, None) ==> Merge(t, p) == t
  {
  }

  /** Two updates in a row merge like one update with the later fields on top. */
  lemma MergeTwice(t: Todo, p: Patch, q: Patch)
    ensures Merge(Merge(t, p), q) == Merge(t, Overlay(p, q))
  {
  }

  /** Row ids strictly increase along the table, so no id occurs twice. */
  ghost predicate IdsIncreasing(rows: seq<Todo>) {
    forall i, j :: 0 <= i < j < |rows| ==> rows[i].id < rows[j].id
  }

  /** `SELECT * FROM todos WHERE id = ?`: the row with that id, or absent. */
  function Lookup(rows: seq<Todo>, id: int): (r: Option<Todo>)
    ensures r.Some? ==> r.value in rows && r.value.id == id
    ensures r.None? <==> forall k :: 0 <= k < |rows| ==> rows[k].id != id
  {
    if rows == [] then None
    else if rows[0].id == id then Some(rows[0])
    else Lookup(rows[1..], id)
  }

  /** With unique ids, the row at index i is what a lookup of its id finds. */
  lemma {:induction false} LookupAt(rows: seq<Todo>, i: int)
    requires IdsIncreasing(rows) && 0 <= i < |rows|
    ensures Lookup(rows, rows[i].id) == Some(rows[i])
  {
    if i > 0 {
      assert rows[0].id < rows[i].id;
      assert rows[1..][i - 1] == rows[i];
      LookupAt(rows[1..], i - 1);
    }
  }

  /**
   * What the table keeps true: ids strictly increase, every stored id was
   * issued, and every id issued is between 1 and the highest one issued,
   * which fits in a rowid.
   */
  ghost predicate TableInvariant(rows: seq<Todo>, highestId: nat, issued: set<int>) {
    && IdsIncreasing(rows)
    && (forall k :: 0 <= k < |rows| ==> rows[k].id in issued)
    && (forall id :: id in issued ==> 1 <= id <= highestId)
    && highestId <= MaxRowId
  }

  /** Inserting a row under the next id keeps the invariant, and a lookup of that id finds the row. */
  lemma InsertKeepsInvariant(rows: seq<Todo>, highestId: nat, issued: set<int>, t: Todo)
    requires TableInvariant(rows, highestId, issued) && highestId < MaxRowId && t.id == highestId + 1
    ensures TableInvariant(rows + [t], t.id, issued + {t.id})
    ensures Lookup(rows + [t], t.id) == Some(t)
  {
    assert forall k :: 0 <= k < |rows| ==> rows[k].id < t.id by {
      forall k | 0 <= k < |rows| ensures rows[k].id < t.id {
        assert rows[k].id in issued;
      }
    }
    AppendFresh(rows, t);
    var r := rows + [t];
    forall k | 0 <= k < |r| ensures r[k].id in issued + {t.id} {
      if k < |rows| {
        assert r[k] == rows[k];
      }
    }
  }

  /** A row whose id exceeds every stored id can go at the end, and a lookup of its id finds it. */
  lemma {:induction false} AppendFresh(rows: seq<Todo>, t: Todo)
    requires IdsIncreasing(rows)
    requires forall k :: 0 <= k < |rows| ==> rows[k].id < t.id
    ensures IdsIncreasing(rows + [t])
    ensures Lookup(rows + [t], t.id) == Some(t)
  {
    var r := rows + [t];
    forall i, j | 0 <= i < j < |r| ensures r[i].id < r[j].id {
      if j == |rows| {
        assert r[i] == rows[i] && r[j] == t;
      } else {
        assert r[i] == rows[i] && r[j] == rows[j];
      }
    }
    assert r[|rows|] == t;
    LookupAt(r, |rows|);
  }

  /** `DELETE FROM todos WHERE id = ?`: the table without the rows carrying that id. */
  function Without(rows: seq<Todo>, id: int): (r: seq<Todo>)
    ensures |r| <= |rows|
  {
    if rows == [] then []
    else if rows[0].id == id then Without(rows[1..], id)
    else [rows[0]] + Without(rows[1..], id)
  }

  /** With unique ids, deleting the id at index i cuts out exactly that row. */
  lemma WithoutAt(rows: seq<Todo>, i: int)
    requires IdsIncreasing(rows) && 0 <= i < |rows|
    ensures Without(rows, rows[i].id) == rows[..i] + rows[i + 1..]
  {
    var front, back := rows[..i], rows[i + 1..];
    assert rows == front + [rows[i]] + back;
    AbsentBefore(rows, i);
    AbsentAfter(rows, i);
    WithoutOne(front, rows[i], back);
  }

  /** No row before index i carries the id at i. */
  lemma AbsentBefore(rows: seq<Todo>, i: int)
    requires IdsIncreasing(rows) && 0 <= i < |rows|
    ensures Lookup(rows[..i], rows[i].id).None?
  {
    var front := rows[..i];
    forall k | 0 <= k < |front| ensures front[k].id != rows[i].id {
      assert front[k] == rows[k];
    }
  }

  /** No row after index i carries the id at i. */
  lemma AbsentAfter(rows: seq<Todo>, i: int)
    requires IdsIncreasing(rows) && 0 <= i < |rows|
    ensures Lookup(rows[i + 1..], rows[i].id).None?
  {
    var back := rows[i + 1..];
    forall k | 0 <= k < |back| ensures back[k].id != rows[i].id {
      assert back[k] == rows[i + 1 + k];
    }
  }

  /** Deleting the id of the only row that carries it leaves the rows around it. */
  lemma WithoutOne(front: seq<Todo>, t: Todo, back: seq<Todo>)
    requires Lookup(front, t.id).None? && Lookup(back, t.id).None?
    ensures Without(front + [t] + back, t.id) == front + back
  {
    WithoutConcat(front + [t], back, t.id);
    WithoutConcat(front, [t], t.id);
    assert Without([t], t.id) == [] by {
      assert [t][1..] == [];
    }
    WithoutAbsent(front, t.id);
    WithoutAbsent(back, t.id);
  }

  /** A delete removes a row exactly when some row carries the id. */
  lemma {:induction false} WithoutShrinks(rows: seq<Todo>, id: int)
    ensures |Without(rows, id)| < |rows| <==> Lookup(rows, id).Some?
  {
    if rows != [] {
      WithoutShrinks(rows[1..], id);
    }
  }

  /** Deleting from two runs of rows put together deletes from each run. */
  lemma {:induction false} WithoutConcat(a: seq<Todo>, b: seq<Todo>, id: int)
    ensures Without(a + b, id) == Without(a, id) + Without(b, id)
  {
    if a == [] {
      assert a + b == b;
    } else {
      assert (a + b)[1..] == a[1..] + b;
      WithoutConcat(a[1..], b, id);
    }
  }

  /** Deleting an id no row carries leaves the table as it was. */
  lemma {:induction false} WithoutAbsent(rows: seq<Todo>, id: int)
    requires Lookup(rows, id).None?
    ensures Without(rows, id) == rows
  {
    if rows != [] {
      WithoutAbsent(rows[1..], id);
    }
  }

  /** After a delete no remaining row carries the id, so a lookup of it finds nothing. */
  lemma {:induction false} WithoutDrops(rows: seq<Todo>, id: int)
    ensures Lookup(Without(rows, id), id).None?
  {
    if rows != [] {
      WithoutDrops(rows[1..], id);
    }
  }

  /** A delete keeps the table invariant; the counter and the issued ids stay as they were. */
  lemma DeleteKeepsInvariant(rows: seq<Todo>, highestId: nat, issued: set<int>, id: int)
    requires TableInvariant(rows, highestId, issued)
    ensures TableInvariant(Without(rows, id), highestId, issued)
  {
    WithoutIncreasing(rows, id);
    WithoutMembers(rows, id);
    var r := Without(rows, id);
    forall k | 0 <= k < |r| ensures r[k].id in issued {
      assert r[k] in rows;
    }
  }

  /** The rows left by a delete are exactly the old rows with another id. */
  lemma {:induction false} WithoutMembers(rows: seq<Todo>, id: int)
    ensures forall t :: t in Without(rows, id) <==> t in rows && t.id != id
  {
    if rows != [] {
      WithoutMembers(rows[1..], id);
      assert forall t :: t in rows <==> t == rows[0] || t in rows[1..];
    }
  }

  /** Deleting one id leaves what every other id finds unchanged. */
  lemma {:induction false} LookupWithout(rows: seq<Todo>, id: int, other: int)
    requires other != id
    ensures Lookup(Without(rows, id), other) == Lookup(rows, other)
  {
    if rows != [] {
      LookupWithout(rows[1..], id, other);
    }
  }

  /** Deleting twice is deleting once. */
  lemma {:induction false} WithoutTwice(rows: seq<Todo>, id: int)
    ensures Without(Without(rows, id), id) == Without(rows, id)
  {
    WithoutDrops(rows, id);
    WithoutAbsent(Without(rows, id), id);
  }

  /** Deleting keeps the remaining rows in id order. */
  lemma {:induction false} WithoutIncreasing(rows: seq<Todo>, id: int)
    requires IdsIncreasing(rows)
    ensures IdsIncreasing(Without(rows, id))
  {
    if rows != [] {
      WithoutIncreasing(rows[1..], id);
      WithoutMembers(rows[1..], id);
      var rest := Without(rows[1..], id);
      forall t | t in rest ensures rows[0].id < t.id {
        var k :| 0 <= k < |rows[1..]| && rows[1..][k] == t;
        assert rows[k + 1] == t;
      }
    }
  }

  /** `UPDATE todos SET title=?, completed=?, priority=? WHERE id=?` with the merged fields. */
  function Patched(rows: seq<Todo>, id: int, p: Patch): (r: seq<Todo>)
    ensures |r| == |rows|
    ensures forall k :: 0 <= k < |rows| ==> r[k].id == rows[k].id && r[k].createdAt == rows[k].createdAt
    ensures forall k :: 0 <= k < |rows| && rows[k].id != id ==> r[k] == rows[k]
  {
    seq(|rows|, k requires 0 <= k < |rows| => if rows[k].id == id then Merge(rows[k], p) else rows[k])
  }

  /** With unique ids, updating the id at index i rewrites exactly that row. */
  lemma PatchedAt(rows: seq<Todo>, i: int, p: Patch)
    requires IdsIncreasing(rows) && 0 <= i < |rows|
    ensures Patched(rows, rows[i].id, p) == rows[i := Merge(rows[i], p)]
  {
  }

  /** After an update a lookup of the target id finds the merged row; any other id finds what it found before. */
  lemma {:induction false} LookupPatched(rows: seq<Todo>, id: int, p: Patch, key: int)
    ensures Lookup(Patched(rows, id, p), key) ==
      if key != id then Lookup(rows, key)
      else match Lookup(rows, id) { case Some(t) => Some(Merge(t, p)) case None => None }
  {
    if rows != [] {
      assert Patched(rows, id, p)[1..] == Patched(rows[1..], id, p);
      LookupPatched(rows[1..], id, p, key);
    }
  }

  /** `ORDER BY created_at DESC`: the newest row first. */
  ghost predicate NewestFirst(s: seq<Todo>) {
    forall i, j :: 0 <= i < j < |s| ==> s[i].createdAt >= s[j].createdAt
  }

  /** A row no older than the head of a newest-first listing can go in front of it. */
  lemma NewestFirstCons(t: Todo, s: seq<Todo>)
    requires NewestFirst(s) && (s == [] || t.createdAt >= s[0].createdAt)
    ensures NewestFirst([t] + s)
  {
    var r := [t] + s;
    forall i, j | 0 <= i < j < |r| ensures r[i].createdAt >= r[j].createdAt {
      if i == 0 {
        assert r[j] == s[j - 1];
        assert s[0].createdAt >= s[j - 1].createdAt;
      } else {
        assert r[i] == s[i - 1] && r[j] == s[j - 1];
      }
    }
  }

  /** Dropping the head of a newest-first listing leaves a newest-first listing. */
  lemma NewestFirstTail(s: seq<Todo>)
    requires NewestFirst(s) && s != []
    ensures NewestFirst(s[1..])
  {
    var tail := s[1..];
    forall i, j | 0 <= i < j < |tail| ensures tail[i].createdAt >= tail[j].createdAt {
      assert tail[i] == s[i + 1] && tail[j] == s[j + 1];
    }
  }

  /** Puts one row into a newest-first listing, in front of the first row that is not newer. */
  function InsertNewestFirst(t: Todo, s: seq<Todo>): (r: seq<Todo>)
    ensures multiset(r) == multiset(s) + multiset{t}
  {
    if s == [] || t.createdAt >= s[0].createdAt then [t] + s
    else
      assert s == [s[0]] + s[1..];
      [s[0]] + InsertNewestFirst(t, s[1..])
  }

  /** Inserting into a newest-first listing keeps it newest-first; its head is the new row or the old head. */
  lemma {:induction false} InsertKeepsOrder(t: Todo, s: seq<Todo>)
    requires NewestFirst(s)
    ensures NewestFirst(InsertNewestFirst(t, s))
    ensures var r := InsertNewestFirst(t, s); r != [] && (r[0] == t || (s != [] && r[0] == s[0]))
  {
    if s == [] || t.createdAt >= s[0].createdAt {
      NewestFirstCons(t, s);
    } else {
      NewestFirstTail(s);
      InsertKeepsOrder(t, s[1..]);
      var rest := InsertNewestFirst(t, s[1..]);
      assert rest[0].createdAt <= s[0].createdAt;
      NewestFirstCons(s[0], rest);
    }
  }

  /** The listing the engine returns for the whole table: every row once (ties in no promised order). */
  function SortNewestFirst(s: seq<Todo>): (r: seq<Todo>)
    ensures multiset(r) == multiset(s)
  {
    if s == [] then []
    else
      assert s == [s[0]] + s[1..];
      InsertNewestFirst(s[0], SortNewestFirst(s[1..]))
  }

  /** The listing is newest first. */
  lemma {:induction false} SortIsNewestFirst(s: seq<Todo>)
    ensures NewestFirst(SortNewestFirst(s))
  {
    if s != [] {
      SortIsNewestFirst(s[1..]);
      InsertKeepsOrder(s[0], SortNewestFirst(s[1..]));
    }
  }
}
