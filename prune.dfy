/**
 * The `prune_missing_photos` management command: find the photos whose
 * image file is absent from storage and, unless this is a dry run or there
 * are none, delete exactly those rows. Storage is the set of stored names.
 */
module Prune {
  import opened Wrappers
  import opened Photos

  /** `getattr(p.image, "name", "") or ""`: a nameless image reads as `""`. */
  function ImageName(p: Photo): string {
    p.image.GetOr("")
  }

  /** `not name or not default_storage.exists(name)` */
  predicate FileMissing(p: Photo, storage: set<string>) {
    ImageName(p) == "" || ImageName(p) !in storage
  }

  /** The ids the scan collects, in scan order. */
  function MissingIds(rows: seq<Photo>, storage: set<string>): (ids: seq<int>)
    ensures |ids| <= |rows|
  {
    if rows == [] then []
    else
      var last := rows[|rows| - 1];
      MissingIds(rows[..|rows| - 1], storage) + (if FileMissing(last, storage) then [Id(last)] else [])
  }

  /** The rows whose files are present, in table order. */
  function Kept(rows: seq<Photo>, storage: set<string>): seq<Photo> {
    if rows == [] then []
    else
      var last := rows[|rows| - 1];
      Kept(rows[..|rows| - 1], storage) + (if FileMissing(last, storage) then [] else [last])
  }

  /** Every row lands in exactly one of the kept rows and the reported ids. */
  lemma {:induction false} KeptAndMissingPartition(rows: seq<Photo>, storage: set<string>)
    ensures |Kept(rows, storage)| + |MissingIds(rows, storage)| == |rows|
    ensures forall x :: x in Kept(rows, storage) <==> x in rows && !FileMissing(x, storage)
  {
    if rows != [] {
      var n := |rows| - 1;
      var front := rows[..n];
      KeptAndMissingPartition(front, storage);
      assert rows == front + [rows[n]];
    }
  }

  /** A row is reported by the scan exactly when its file is missing. */
  lemma {:induction false} MissingIdsExact(rows: seq<Photo>, storage: set<string>)
    ensures forall i :: 0 <= i < |rows| && FileMissing(rows[i], storage) ==> Id(rows[i]) in MissingIds(rows, storage)
    ensures forall id :: id in MissingIds(rows, storage) ==>
      exists i :: 0 <= i < |rows| && Id(rows[i]) == id && FileMissing(rows[i], storage)
  {
    if rows != [] {
      var n := |rows| - 1;
      var front := rows[..n];
      MissingIdsExact(front, storage);
      assert forall i :: 0 <= i < n ==> front[i] == rows[i];
    }
  }

  predicate NoDuplicates(ids: seq<int>) {
    forall i, j :: 0 <= i < j < |ids| ==> ids[i] != ids[j]
  }

  /** With unique ids, the scan reports each id at most once. */
  lemma {:induction false} MissingIdsDistinct(rows: seq<Photo>, storage: set<string>)
    requires DistinctIds(rows)
    ensures NoDuplicates(MissingIds(rows, storage))
  {
    if rows != [] {
      var n := |rows| - 1;
      var front := rows[..n];
      assert DistinctIds(front) by {
        forall i, j | 0 <= i < j < |front| ensures Id(front[i]) != Id(front[j]) {
          assert front[i] == rows[i] && front[j] == rows[j];
        }
      }
      MissingIdsDistinct(front, storage);
      MissingIdsExact(front, storage);
      var head := MissingIds(front, storage);
      if FileMissing(rows[n], storage) {
        var ids := head + [Id(rows[n])];
        forall k | 0 <= k < |head| ensures head[k] != Id(rows[n]) {
          assert head[k] in head;
          var i :| 0 <= i < n && Id(front[i]) == head[k] && FileMissing(front[i], storage);
          assert front[i] == rows[i];
        }
        forall i, j | 0 <= i < j < |ids| ensures ids[i] != ids[j] {
          assert ids[i] == head[i];
          if j < |head| {
            assert ids[j] == head[j];
          }
        }
        assert MissingIds(rows, storage) == ids;
      } else {
        assert MissingIds(rows, storage) == head;
      }
    }
  }

  /**
   * With unique ids, deleting the reported ids leaves exactly the rows whose
   * files are present, in their original order.
   */
  lemma {:induction false} DeleteMissingIsKept(rows: seq<Photo>, storage: set<string>)
    requires DistinctIds(rows)
    ensures DeleteIds(rows, MissingIds(rows, storage)) == Kept(rows, storage)
  {
    var ids := MissingIds(rows, storage);
    MissingIdsExact(rows, storage);
    forall i | 0 <= i < |rows| ensures Id(rows[i]) in ids <==> FileMissing(rows[i], storage) {
      if Id(rows[i]) in ids {
        var j :| 0 <= j < |rows| && Id(rows[j]) == Id(rows[i]) && FileMissing(rows[j], storage);
        assert i == j;
      }
    }
    DeleteByEquivalentIds(rows, ids, storage);
  }

  /** The reported ids pick out exactly the rows with missing files. */
  predicate MissingByIds(rows: seq<Photo>, ids: seq<int>, storage: set<string>) {
    forall i :: 0 <= i < |rows| ==> (Id(rows[i]) in ids <==> FileMissing(rows[i], storage))
  }

  lemma MissingByIdsPrefix(rows: seq<Photo>, ids: seq<int>, storage: set<string>, n: nat)
    requires MissingByIds(rows, ids, storage) && n <= |rows|
    ensures MissingByIds(rows[..n], ids, storage)
  {
    forall i | 0 <= i < n ensures (Id(rows[..n][i]) in ids <==> FileMissing(rows[..n][i], storage)) {
      assert rows[..n][i] == rows[i];
    }
  }

  lemma {:induction false} DeleteByEquivalentIds(rows: seq<Photo>, ids: seq<int>, storage: set<string>)
    requires MissingByIds(rows, ids, storage)
    ensures DeleteIds(rows, ids) == Kept(rows, storage)
  {
    if rows != [] {
      var n := |rows| - 1;
      var front, x := rows[..n], rows[n];
      MissingByIdsPrefix(rows, ids, storage, n);
      DeleteByEquivalentIds(front, ids, storage);
      var tail := if FileMissing(x, storage) then [] else [x];
      assert tail == if Id(x) in ids then [] else [x];
      assert rows == front + [x];
      DeleteIdsSnoc(front, x, ids);
      assert Kept(rows, storage) == Kept(front, storage) + tail;
    }
  }

  /** When no file is missing, nothing would be deleted anyway. */
  lemma {:induction false} NothingMissingKeepsAll(rows: seq<Photo>, storage: set<string>)
    requires MissingIds(rows, storage) == []
    ensures Kept(rows, storage) == rows
  {
    if rows != [] {
      var n := |rows| - 1;
      assert MissingIds(rows[..n], storage) == [];
      NothingMissingKeepsAll(rows[..n], storage);
      assert rows == rows[..n] + [rows[n]];
    }
  }

  /** The loop over `Photo.objects.iterator()` that builds `missing_ids`. */
  method CollectMissing(rows: seq<Photo>, storage: set<string>) returns (missing: seq<int>)
    ensures missing == MissingIds(rows, storage)
  {
    missing := [];
    var i := 0;
    while i < |rows|
      invariant 0 <= i <= |rows|
      invariant missing == MissingIds(rows[..i], storage)
    {
      var p := rows[i];
      var name := ImageName(p);
      if name == "" || name !in storage {
        missing := missing + [Id(p)];
      }
      assert rows[..i + 1][..i] == rows[..i];
      i := i + 1;
    }
    assert rows[..|rows|] == rows;
  }

  /**
   * `Command.handle`: report how many files are missing and, unless this
   * is a dry run or none are, delete those rows. Returns the reported
   * count and the number of rows deleted.
   */
  method Handle(table: PhotoTable, storage: set<string>, dryRun: bool) returns (missingCount: nat, deleted: nat)
    requires table.Valid()
    modifies table
    ensures table.Valid()
    ensures missingCount == |MissingIds(old(table.rows), storage)|
    ensures table.nextId == old(table.nextId)
    ensures dryRun || missingCount == 0 ==> table.rows == old(table.rows) && deleted == 0
    ensures !dryRun ==> table.rows == Kept(old(table.rows), storage)
    ensures !dryRun ==> deleted == missingCount
  {
    var missing := CollectMissing(table.rows, storage);
    missingCount := |missing|;
    if dryRun || missing == [] {
      deleted := 0;
      if missing == [] {
        NothingMissingKeepsAll(table.rows, storage);
      }
      return;
    }
    DeleteMissingIsKept(table.rows, storage);
    KeptAndMissingPartition(table.rows, storage);
    deleted := table.DeleteWhereIdIn(missing);
  }
}
