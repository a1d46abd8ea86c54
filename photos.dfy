/**
 * The photo table of the portfolio app (backend/portfolio/models.py):
 * photo and folder records, the new-photo order assignment done by
 * `Photo.save`, and the id-filtered delete the ORM offers.
 */
module Photos {
  import opened Wrappers

  /** A folder row as far as photos refer to it: its key and URL slug. */
  datatype Folder = Folder(id: int, slug: string)

  /**
   * A photo instance. `pk` is `None` until the row is first saved;
   * `image` is the stored file name, `None` when the field has no name.
   */
  datatype Photo = Photo(
    pk: Option<int>,
    image: Option<string>,
    folder: Option<Folder>,
    order: int)

  /** The id of a saved row (rows read from the table always have a key). */
  function Id(p: Photo): int {
    p.pk.GetOr(0)
  }

  /** `not self.pk`: Python treats both `None` and `0` as "no key yet". */
  predicate IsNew(pk: Option<int>) {
    pk == None || pk == Some(0)
  }

  predicate HasKeys(rows: seq<Photo>) {
    forall i :: 0 <= i < |rows| ==> rows[i].pk.Some?
  }

  predicate DistinctIds(rows: seq<Photo>) {
    forall i, j :: 0 <= i < j < |rows| ==> Id(rows[i]) != Id(rows[j])
  }

  /** `Meta.ordering = ['-order']`: orders never increase along the sequence. */
  predicate MetaOrdered(rows: seq<Photo>) {
    forall i, j :: 0 <= i < j < |rows| ==> rows[i].order >= rows[j].order
  }

  /** Position of a row holding the largest order. */
  function MaxOrderIndex(rows: seq<Photo>): (k: nat)
    requires |rows| > 0
    ensures k < |rows|
    ensures forall i :: 0 <= i < |rows| ==> rows[i].order <= rows[k].order
  {
    if |rows| == 1 then 0
    else
      var k := MaxOrderIndex(rows[1..]) + 1;
      if rows[0].order >= rows[k].order then 0 else k
  }

  /** `Photo.objects.aggregate(Max('order'))['order__max']`: `None` on an empty table. */
  function MaxOrder(rows: seq<Photo>): (m: Option<int>)
    ensures m.None? <==> rows == []
    ensures m.Some? ==> forall i :: 0 <= i < |rows| ==> rows[i].order <= m.value
    ensures m.Some? ==> exists i :: 0 <= i < |rows| && rows[i].order == m.value
  {
    if rows == [] then None else Some(rows[MaxOrderIndex(rows)].order)
  }

  /** `(max_order or 0) + 1`: the order a new photo receives. */
  function NextOrder(rows: seq<Photo>): (r: int)
    ensures rows == [] ==> r == 1
    ensures forall i :: 0 <= i < |rows| ==> rows[i].order < r
    ensures rows != [] ==> exists i :: 0 <= i < |rows| && rows[i].order == r - 1
  {
    var m := MaxOrder(rows);
    (if m == None || m == Some(0) then 0 else m.value) + 1
  }

  /** The position of the row whose key is `id`, if any. */
  function FindRow(rows: seq<Photo>, id: int): (k: Option<nat>)
    ensures k.Some? ==> k.value < |rows| && rows[k.value].pk == Some(id)
    ensures k.None? ==> forall i :: 0 <= i < |rows| ==> rows[i].pk != Some(id)
  {
    if rows == [] then None
    else if rows[0].pk == Some(id) then Some(0)
    else match FindRow(rows[1..], id)
      case None => None
      case Some(k) => Some(k + 1)
  }

  /**
   * Django's save of an instance that has a key: the row with that key is
   * overwritten, and when there is none the instance is inserted.
   */
  function Upsert(rows: seq<Photo>, p: Photo): (r: seq<Photo>)
    requires p.pk.Some?
    ensures |r| == |rows| || r == rows + [p]
    ensures p in r
    ensures forall i :: 0 <= i < |rows| && rows[i].pk != p.pk ==> r[i] == rows[i]
    ensures (forall i :: 0 <= i < |rows| ==> rows[i].pk != p.pk) <==> r == rows + [p]
    ensures HasKeys(rows) ==> HasKeys(r)
    ensures HasKeys(rows) && DistinctIds(rows) ==> DistinctIds(r)
  {
    match FindRow(rows, p.pk.value)
    case Some(k) => assert rows[k := p][k] == p; rows[k := p]
    case None => rows + [p]
  }

  /** `Photo.objects.filter(id__in=ids).delete()`: the rows that survive. */
  function DeleteIds(rows: seq<Photo>, ids: seq<int>): (r: seq<Photo>)
    ensures |r| <= |rows|
    ensures forall x :: x in r <==> x in rows && Id(x) !in ids
    ensures DistinctIds(rows) ==> DistinctIds(r)
  {
    if rows == [] then []
    else
      var rest := DeleteIds(rows[1..], ids);
      DeleteIdsHead(rows, ids, rest);
      if Id(rows[0]) in ids then rest else [rows[0]] + rest
  }

  lemma DeleteIdsHead(rows: seq<Photo>, ids: seq<int>, rest: seq<Photo>)
    requires rows != []
    requires forall x :: x in rest ==> x in rows[1..]
    requires DistinctIds(rows[1..]) ==> DistinctIds(rest)
    ensures DistinctIds(rows) ==> DistinctIds([rows[0]] + rest)
  {
    if DistinctIds(rows) {
      assert DistinctIds(rows[1..]) by {
        forall i, j | 0 <= i < j < |rows[1..]| ensures Id(rows[1..][i]) != Id(rows[1..][j]) {
          assert rows[1..][i] == rows[i + 1] && rows[1..][j] == rows[j + 1];
        }
      }
      var r := [rows[0]] + rest;
      forall i, j | 0 <= i < j < |r| ensures Id(r[i]) != Id(r[j]) {
        if i == 0 {
          assert r[j] in rows[1..];
          var m :| 0 <= m < |rows[1..]| && rows[1..][m] == r[j];
          assert rows[m + 1] == r[j];
        } else {
          assert r[i] == rest[i - 1] && r[j] == rest[j - 1];
        }
      }
    }
  }

  /** Deleting from a table with one more row at the end. */
  lemma {:induction false} DeleteIdsSnoc(rows: seq<Photo>, x: Photo, ids: seq<int>)
    ensures DeleteIds(rows + [x], ids) == DeleteIds(rows, ids) + (if Id(x) in ids then [] else [x])
  {
    if rows != [] {
      assert (rows + [x])[1..] == rows[1..] + [x];
      DeleteIdsSnoc(rows[1..], x, ids);
    }
  }

  /**
   * The photo table: its rows and the id the database hands out to the
   * next inserted row.
   */
  class PhotoTable {
    var rows: seq<Photo>
    var nextId: int

    ghost predicate Valid()
      reads this
    {
      && HasKeys(rows)
      && DistinctIds(rows)
      && forall i :: 0 <= i < |rows| ==> Id(rows[i]) < nextId
    }

    constructor ()
      ensures Valid() && rows == [] && nextId == 1
    {
      rows := [];
      nextId := 1;
    }

    /**
     * `Photo.save`: an instance without a key gets the order one above the
     * largest order in the whole table (1 when the table is empty), then
     * the instance is persisted. Returns the instance as saved.
     */
    method Save(p: Photo) returns (saved: Photo)
      requires Valid()
      modifies this
      ensures Valid()
      ensures IsNew(p.pk) ==> saved.order == NextOrder(old(rows))
      ensures IsNew(p.pk) ==> forall i :: 0 <= i < |rows| && rows[i].pk != saved.pk ==> rows[i].order < saved.order
      ensures !IsNew(p.pk) ==> saved == p
      ensures p.pk == None ==>
        && saved == p.(pk := Some(old(nextId)), order := NextOrder(old(rows)))
        && rows == old(rows) + [saved]
        && nextId == old(nextId) + 1
      ensures p.pk.Some? ==>
        && saved == p.(order := saved.order)
        && rows == Upsert(old(rows), saved)
        && nextId == if p.pk.value < old(nextId) then old(nextId) else p.pk.value + 1
    {
      saved := p;
      if IsNew(p.pk) {
        saved := saved.(order := NextOrder(rows));
      }
      if saved.pk == None {
        saved := saved.(pk := Some(nextId));
        rows := rows + [saved];
        nextId := nextId + 1;
      } else {
        rows := Upsert(rows, saved);
        if saved.pk.value >= nextId {
          nextId := saved.pk.value + 1;
        }
      }
    }

    /** `Photo.objects.filter(id__in=ids).delete()`; returns the number of rows deleted. */
    method DeleteWhereIdIn(ids: seq<int>) returns (deleted: nat)
      requires Valid()
      modifies this
      ensures Valid()
      ensures rows == DeleteIds(old(rows), ids)
      ensures deleted == |old(rows)| - |rows|
      ensures nextId == old(nextId)
    {
      var kept := DeleteIds(rows, ids);
      deleted := |rows| - |kept|;
      forall i | 0 <= i < |kept| ensures kept[i].pk.Some? && Id(kept[i]) < nextId {
        assert kept[i] in rows;
      }
      rows := kept;
    }
  }
}
