/** Product rows and the pure updaters that ProductsComponent applies to its
    two row lists: the dirty list `updatedRows` (upsert by id, last write wins)
    and the displayed catalog `database` (append on add, filter on delete). */
module Catalog {

  /** Server-assigned product identity, compared with `===` in the source. */
  type Id = int

  datatype Option<T> = None | Some(value: T)

  /** Outcome of a remote call: the resolved value or the rejection's message. */
  datatype Result<T> = Ok(value: T) | Err(message: string)

  /** A grid row: the identity plus the five editable text fields. */
  datatype Product = Product(
    id: Id,
    name: string,
    price: string,
    stock: string,
    category: string,
    description: string)

  predicate HasId(rows: seq<Product>, id: Id)
  {
    exists k :: 0 <= k < |rows| && rows[k].id == id
  }

  /** No two rows share an identity. */
  ghost predicate NoDupIds(rows: seq<Product>)
  {
    forall i, j :: 0 <= i < j < |rows| ==> rows[i].id != rows[j].id
  }

  /** `rows.findIndex(row => row.id === id)`: the first index holding `id`, or -1. */
  function FindIndex(rows: seq<Product>, id: Id): (r: int)
    ensures -1 <= r < |rows|
    ensures r == -1 <==> !HasId(rows, id)
    ensures 0 <= r ==> rows[r].id == id && forall k :: 0 <= k < r ==> rows[k].id != id
  {
    if |rows| == 0 then -1
    else if rows[0].id == id then 0
    else
      var k := FindIndex(rows[1..], id);
      assert forall j :: 1 <= j < |rows| ==> rows[j] == rows[1..][j - 1];
      if k < 0 then -1 else k + 1
  }

  /** The row the list holds for `id`: the first one, as `findIndex` picks it. */
  function Lookup(rows: seq<Product>, id: Id): (r: Option<Product>)
    ensures r.Some? <==> HasId(rows, id)
    ensures r.Some? ==> r.value in rows && r.value.id == id
  {
    var i := FindIndex(rows, id);
    if i < 0 then None else Some(rows[i])
  }

  lemma FindIndexAt(rows: seq<Product>, id: Id, j: int)
    requires 0 <= j < |rows| && rows[j].id == id
    requires forall k :: 0 <= k < j ==> rows[k].id != id
    ensures FindIndex(rows, id) == j
  {
  }

  /** The `setUpdatedRows` updater of a cell edit: replace the row holding the
      edited id in place, or append the edited row when no row holds it. */
  function Upsert(rows: seq<Product>, row: Product): (r: seq<Product>)
    ensures !HasId(rows, row.id) ==> r == rows + [row]
    ensures HasId(rows, row.id) ==> |r| == |rows|
    ensures forall k :: 0 <= k < |rows| && rows[k].id == row.id && !HasId(rows[..k], row.id) ==>
              r == rows[k := row]
  {
    var i := FindIndex(rows, row.id);
    if i >= 0 then rows[i := row] else rows + [row]
  }

  /** Seen as a map from id to row, an edit sets the edited id to the edited
      row (last write wins) and leaves every other id's row as it was. */
  lemma {:induction false} UpsertLookup(rows: seq<Product>, row: Product, id: Id)
    ensures Lookup(Upsert(rows, row), id) == if id == row.id then Some(row) else Lookup(rows, id)
  {
    var r := Upsert(rows, row);
    var i := FindIndex(rows, row.id);
    if i >= 0 {
      assert r == rows[i := row];
      if id == row.id {
        FindIndexAt(r, id, i);
      } else {
        assert forall k :: 0 <= k < |r| ==> (r[k].id == id <==> rows[k].id == id);
        var j := FindIndex(rows, id);
        if j >= 0 {
          FindIndexAt(r, id, j);
        } else {
          assert !HasId(r, id);
        }
      }
    } else {
      assert r == rows + [row];
      if id == row.id {
        FindIndexAt(r, id, |rows|);
      } else {
        var j := FindIndex(rows, id);
        if j >= 0 {
          FindIndexAt(r, id, j);
        } else {
          assert !HasId(r, id);
        }
      }
    }
  }

  /** An edit never introduces a second row for an id. */
  lemma {:induction false} UpsertKeepsIdsUnique(rows: seq<Product>, row: Product)
    requires NoDupIds(rows)
    ensures NoDupIds(Upsert(rows, row))
  {
    var r := Upsert(rows, row);
    var i := FindIndex(rows, row.id);
    if i >= 0 {
      assert forall k :: 0 <= k < |r| ==> r[k].id == rows[k].id;
    } else {
      assert r == rows + [row];
      assert forall k :: 0 <= k < |rows| ==> r[k].id != row.id;
    }
  }

  /** The dirty list after a sequence of cell edits, oldest first. */
  function ApplyEdits(rows: seq<Product>, edits: seq<Product>): seq<Product>
    decreases |edits|
  {
    if edits == [] then rows
    else Upsert(ApplyEdits(rows, edits[..|edits| - 1]), edits[|edits| - 1])
  }

  /** The most recent edit of `id` in a sequence of edits, if any. */
  function LastEdit(edits: seq<Product>, id: Id): (r: Option<Product>)
    ensures r.Some? <==> HasId(edits, id)
    ensures r.Some? ==> r.value in edits && r.value.id == id
    ensures r.Some? ==> exists k :: (0 <= k < |edits| && edits[k] == r.value &&
              forall j :: k < j < |edits| ==> edits[j].id != id)
    decreases |edits|
  {
    if edits == [] then None
    else
      var prefix := edits[..|edits| - 1];
      assert forall k :: 0 <= k < |prefix| ==> prefix[k] == edits[k];
      if edits[|edits| - 1].id == id then Some(edits[|edits| - 1])
      else
        var r := LastEdit(prefix, id);
        assert r.Some? ==> exists k :: (0 <= k < |edits| && edits[k] == r.value &&
                 forall j :: k < j < |edits| ==> edits[j].id != id);
        r
  }

  /** After any sequence of edits, the dirty list holds for each id exactly the
      last row submitted for it; ids never edited keep their earlier row. */
  lemma {:induction false} LastWriteWins(rows: seq<Product>, edits: seq<Product>, id: Id)
    ensures Lookup(ApplyEdits(rows, edits), id) ==
            if HasId(edits, id) then LastEdit(edits, id) else Lookup(rows, id)
    decreases |edits|
  {
    if edits != [] {
      var prefix := edits[..|edits| - 1];
      var last := edits[|edits| - 1];
      LastWriteWins(rows, prefix, id);
      UpsertLookup(ApplyEdits(rows, prefix), last, id);
    }
  }

  /** Starting from a list without duplicate ids (the initial `[]` in
      particular), no sequence of edits creates a duplicate. */
  lemma {:induction false} EditsKeepIdsUnique(rows: seq<Product>, edits: seq<Product>)
    requires NoDupIds(rows)
    ensures NoDupIds(ApplyEdits(rows, edits))
    decreases |edits|
  {
    if edits != [] {
      EditsKeepIdsUnique(rows, edits[..|edits| - 1]);
      UpsertKeepsIdsUnique(ApplyEdits(rows, edits[..|edits| - 1]), edits[|edits| - 1]);
    }
  }

  /** From the initial empty list, the dirty list holds a row for exactly the
      ids that were edited. */
  lemma DirtyIdsAreEditedIds(edits: seq<Product>, id: Id)
    ensures HasId(ApplyEdits([], edits), id) <==> HasId(edits, id)
  {
    LastWriteWins([], edits, id);
  }

  /** `prev.filter(product => product.id !== id)`. */
  function RemoveById(db: seq<Product>, id: Id): (r: seq<Product>)
    ensures |r| <= |db|
    ensures forall p :: p in r <==> p in db && p.id != id
  {
    if db == [] then []
    else
      assert db == [db[0]] + db[1..];
      (if db[0].id == id then [] else [db[0]]) + RemoveById(db[1..], id)
  }

  /** Removal distributes over concatenation, so the kept rows stay in their
      original relative order. */
  lemma {:induction false} RemoveByIdAppend(a: seq<Product>, b: seq<Product>, id: Id)
    ensures RemoveById(a + b, id) == RemoveById(a, id) + RemoveById(b, id)
  {
    if a == [] {
      assert a + b == b;
    } else {
      assert (a + b)[0] == a[0];
      assert (a + b)[1..] == a[1..] + b;
      RemoveByIdAppend(a[1..], b, id);
    }
  }

  /** Removing an id the list does not hold leaves it unchanged. */
  lemma {:induction false} RemoveByIdAbsent(db: seq<Product>, id: Id)
    requires !HasId(db, id)
    ensures RemoveById(db, id) == db
  {
    if db != [] {
      assert !HasId(db[1..], id) by {
        forall k | 0 <= k < |db[1..]| ensures db[1..][k].id != id {
          assert db[1..][k] == db[k + 1];
        }
      }
      RemoveByIdAbsent(db[1..], id);
    }
  }

  /** In a list without duplicate ids, removing the id of the row at `k`
      removes exactly that row: one fewer, every other row kept in order. */
  lemma RemoveByIdUnique(db: seq<Product>, k: int)
    requires NoDupIds(db)
    requires 0 <= k < |db|
    ensures RemoveById(db, db[k].id) == db[..k] + db[k + 1..]
    ensures |RemoveById(db, db[k].id)| == |db| - 1
  {
    var id, before, after := db[k].id, db[..k], db[k + 1..];
    assert db == before + ([db[k]] + after);
    AbsentFromSlice(db, id, 0, k);
    AbsentFromSlice(db, id, k + 1, |db|);
    assert db[0..k] == before && db[k + 1..|db|] == after;
    RemoveByIdAbsent(before, id);
    RemoveByIdAbsent(after, id);
    RemoveByIdAppend([db[k]], after, id);
    assert RemoveById([db[k]] + after, id) == after;
    RemoveByIdAppend(before, [db[k]] + after, id);
  }

  lemma AbsentFromSlice(db: seq<Product>, id: Id, lo: int, hi: int)
    requires 0 <= lo <= hi <= |db|
    requires forall j :: lo <= j < hi ==> db[j].id != id
    ensures !HasId(db[lo..hi], id)
  {
    forall j | 0 <= j < hi - lo ensures db[lo..hi][j].id != id {
      assert db[lo..hi][j] == db[lo + j];
    }
  }

  lemma TailKeepsIdsUnique(db: seq<Product>)
    requires NoDupIds(db) && db != []
    ensures NoDupIds(db[1..])
    ensures forall q :: q in db[1..] ==> q.id != db[0].id
  {
    var tail := db[1..];
    forall i, j | 0 <= i < j < |tail| ensures tail[i].id != tail[j].id {
      assert tail[i] == db[i + 1] && tail[j] == db[j + 1];
    }
    forall q | q in tail ensures q.id != db[0].id {
      var m :| 0 <= m < |tail| && tail[m] == q;
      assert tail[m] == db[m + 1];
    }
  }

  lemma ConsKeepsIdsUnique(h: Product, rest: seq<Product>)
    requires NoDupIds(rest)
    requires forall q :: q in rest ==> q.id != h.id
    ensures NoDupIds([h] + rest)
  {
    var r := [h] + rest;
    forall i, j | 0 <= i < j < |r| ensures r[i].id != r[j].id {
      assert r[j] == rest[j - 1];
      if i > 0 {
        assert r[i] == rest[i - 1];
      }
    }
  }

  /** Filtering keeps a list free of duplicate ids. */
  lemma {:induction false} RemoveByIdKeepsIdsUnique(db: seq<Product>, id: Id)
    requires NoDupIds(db)
    ensures NoDupIds(RemoveById(db, id))
  {
    if db != [] {
      TailKeepsIdsUnique(db);
      RemoveByIdKeepsIdsUnique(db[1..], id);
      var rest := RemoveById(db[1..], id);
      if db[0].id == id {
        assert RemoveById(db, id) == [] + rest;
      } else {
        ConsKeepsIdsUnique(db[0], rest);
      }
    }
  }

  /** Appending a row whose id the list does not hold keeps ids unique, as
      after an add that the server answers with a fresh id. */
  lemma AppendFreshKeepsIdsUnique(db: seq<Product>, p: Product)
    requires NoDupIds(db) && !HasId(db, p.id)
    ensures NoDupIds(db + [p])
  {
    var r := db + [p];
    forall i, j | 0 <= i < j < |r| ensures r[i].id != r[j].id {
      assert r[i] == db[i];
      if j < |db| {
        assert r[j] == db[j];
      }
    }
  }

  /** The number of update calls that succeed before the first failure: the
      length of the leading run of `true` in the per-call outcomes. */
  function CommittedPrefix(accepted: seq<bool>): (n: nat)
    ensures n <= |accepted|
    ensures forall k :: 0 <= k < n ==> accepted[k]
    ensures n < |accepted| ==> !accepted[n]
  {
    if accepted == [] || !accepted[0] then 0
    else
      assert forall k :: 1 <= k < |accepted| ==> accepted[k] == accepted[1..][k - 1];
      1 + CommittedPrefix(accepted[1..])
  }
}
