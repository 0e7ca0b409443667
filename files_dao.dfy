/**
 * The `FileInfo` table and its seven statements. The table is a map from primary key to row;
 * the functions below say what each statement does to that map, and the class applies them in place.
 */
module FilesDao {
  import opened Wrappers
  import opened Records

  type Rows = map<int, FileInfo>

  /** Every row is stored under its own `idx`, and every key lies below the next generated one. */
  ghost predicate WellKeyed(rows: Rows, nextIdx: int) {
    forall k :: k in rows ==> rows[k].idx == k && k < nextIdx
  }

  /** The key an inserted row gets: an `idx` of 0 counts as unset, and the table generates one. */
  function InsertKey(fi: FileInfo, nextIdx: int): int {
    if fi.idx == 0 then nextIdx else fi.idx
  }

  /** The next generated key after a row went in under `key` (SQLite never reuses a key). */
  function NextIdxAfter(nextIdx: int, key: int): (r: int)
    ensures key < r && nextIdx <= r
  {
    if nextIdx <= key then key + 1 else nextIdx
  }

  /** `INSERT OR REPLACE`: the row under the insert key is replaced or added; nothing else changes. */
  function InsertRows(rows: Rows, nextIdx: int, fi: FileInfo): (r: Rows)
    ensures InsertKey(fi, nextIdx) in r && r[InsertKey(fi, nextIdx)] == fi.(idx := InsertKey(fi, nextIdx))
    ensures r.Keys == rows.Keys + {InsertKey(fi, nextIdx)}
    ensures forall k :: k in rows && k != InsertKey(fi, nextIdx) ==> r[k] == rows[k]
  {
    var key := InsertKey(fi, nextIdx);
    rows[key := fi.(idx := key)]
  }

  /** `UPDATE FileInfo SET cid = :cid, work = NULL WHERE idx = :idx`. */
  function DoneRows(rows: Rows, idx: int, cid: int): (r: Rows)
    ensures r.Keys == rows.Keys
    ensures forall k :: k in rows && k != idx ==> r[k] == rows[k]
    ensures idx in rows ==> r[idx] == rows[idx].(cid := cid, work := None)
    ensures idx in rows ==> idx in CompletedKeys(r)
  {
    if idx in rows then rows[idx := rows[idx].(cid := cid, work := None)] else rows
  }

  /** `DELETE FROM FileInfo WHERE idx = :idx`, and `@Delete`, which deletes by primary key. */
  function DeleteRows(rows: Rows, idx: int): (r: Rows)
    ensures r.Keys == rows.Keys - {idx}
    ensures forall k :: k in r ==> r[k] == rows[k]
  {
    rows - {idx}
  }

  /** The keys `SELECT * FROM FileInfo WHERE work IS NULL` returns: the rows whose upload is done. */
  ghost function CompletedKeys(rows: Rows): set<int> {
    set k | k in rows && rows[k].work.None?
  }

  /**
   * The work-token life cycle, successful branch: a record stored with `idx` 0 and a work token
   * gets a fresh key, is hidden from `fileInfos()` while the upload runs, and `done` completes it
   * without touching any earlier row.
   */
  lemma StoreThenDone(rows: Rows, nextIdx: int, fi: FileInfo, cid: int)
    requires WellKeyed(rows, nextIdx)
    requires fi.idx == 0 && fi.work.Some?
    ensures nextIdx !in rows
    ensures nextIdx !in CompletedKeys(InsertRows(rows, nextIdx, fi))
    ensures CompletedKeys(InsertRows(rows, nextIdx, fi)) == CompletedKeys(rows)
    ensures DoneRows(InsertRows(rows, nextIdx, fi), nextIdx, cid)
         == rows[nextIdx := fi.(idx := nextIdx, cid := cid, work := None)]
    ensures CompletedKeys(DoneRows(InsertRows(rows, nextIdx, fi), nextIdx, cid)) == CompletedKeys(rows) + {nextIdx}
  {
    var stored := InsertRows(rows, nextIdx, fi);
    assert CompletedKeys(stored) == CompletedKeys(rows) by {
      forall k | k in CompletedKeys(stored) ensures k in CompletedKeys(rows) {
        assert k != nextIdx;
      }
    }
    var done := DoneRows(stored, nextIdx, cid);
    assert CompletedKeys(done) == CompletedKeys(rows) + {nextIdx} by {
      forall k | k in CompletedKeys(done) ensures k in CompletedKeys(rows) + {nextIdx} {
        if k != nextIdx { assert done[k] == rows[k]; }
      }
    }
  }

  /** The work-token life cycle, failed branch: deleting the freshly stored record restores the table. */
  lemma StoreThenDelete(rows: Rows, nextIdx: int, fi: FileInfo)
    requires WellKeyed(rows, nextIdx)
    requires fi.idx == 0
    ensures DeleteRows(InsertRows(rows, nextIdx, fi), nextIdx) == rows
  {
    assert nextIdx !in rows;
    var r := DeleteRows(InsertRows(rows, nextIdx, fi), nextIdx);
    assert r.Keys == rows.Keys;
  }

  lemma {:induction false} MaxExists(s: set<int>)
    requires s != {}
    ensures exists m :: m in s && forall k :: k in s ==> k <= m
  {
    ghost var member := Inhabited(s);
    var x :| x in s;
    if s != {x} {
      MaxExists(s - {x});
      var m :| m in s - {x} && forall k :: k in s - {x} ==> k <= m;
      if x <= m {
        forall k | k in s ensures k <= m {
          if k != x { assert k in s - {x}; }
        }
      } else {
        forall k | k in s ensures k <= x {
          if k != x { assert k in s - {x}; }
        }
      }
    } else {
      assert forall k :: k in s ==> k <= x;
    }
  }

  /** The `FileInfo` table: its rows, and the next key SQLite will generate. */
  class FileInfoTable {
    var rows: Rows
    var nextIdx: int

    ghost predicate Valid()
      reads this
    {
      1 <= nextIdx && WellKeyed(rows, nextIdx)
    }

    constructor ()
      ensures Valid() && rows == map[] && nextIdx == 1
    {
      rows := map[];
      nextIdx := 1;
    }

    /** `insertFileInfo`: insert or replace, returning the row's key. */
    method InsertFileInfo(fi: FileInfo) returns (key: int)
      requires Valid()
      modifies this
      ensures Valid()
      ensures key == InsertKey(fi, old(nextIdx))
      ensures rows == InsertRows(old(rows), old(nextIdx), fi)
      ensures nextIdx == NextIdxAfter(old(nextIdx), key)
    {
      key := InsertKey(fi, nextIdx);
      rows := InsertRows(rows, nextIdx, fi);
      nextIdx := NextIdxAfter(nextIdx, key);
    }

    /** `delete(fileInfo)`: removes the row with that primary key. */
    method Delete(fi: FileInfo)
      requires Valid()
      modifies this
      ensures Valid()
      ensures rows == DeleteRows(old(rows), fi.idx) && nextIdx == old(nextIdx)
    {
      rows := DeleteRows(rows, fi.idx);
    }

    /** `delete(idx)`. */
    method DeleteIdx(idx: int)
      requires Valid()
      modifies this
      ensures Valid()
      ensures rows == DeleteRows(old(rows), idx) && nextIdx == old(nextIdx)
    {
      rows := DeleteRows(rows, idx);
    }

    /** `done(idx, cid)`: stores the content id and clears the work token of one row. */
    method Done(idx: int, cid: int)
      requires Valid()
      modifies this
      ensures Valid()
      ensures rows == DoneRows(old(rows), idx, cid) && nextIdx == old(nextIdx)
    {
      rows := DoneRows(rows, idx, cid);
    }

    /** `flowFileInfos()`, one snapshot of the flow: every row, by descending `idx`. */
    method FlowFileInfos() returns (infos: seq<FileInfo>)
      requires Valid()
      ensures forall i, j :: 0 <= i < j < |infos| ==> infos[i].idx > infos[j].idx
      ensures forall i :: 0 <= i < |infos| ==> infos[i].idx in rows && rows[infos[i].idx] == infos[i]
      ensures forall k :: k in rows ==> rows[k] in infos
    {
      var left := rows.Keys;
      infos := [];
      while left != {}
        invariant left <= rows.Keys
        invariant forall i, j :: 0 <= i < j < |infos| ==> infos[i].idx > infos[j].idx
        invariant forall i :: 0 <= i < |infos| ==> infos[i].idx in rows.Keys - left && rows[infos[i].idx] == infos[i]
        invariant forall i, k :: 0 <= i < |infos| && k in left ==> infos[i].idx > k
        invariant forall k :: k in rows.Keys - left ==> rows[k] in infos
        decreases left
      {
        MaxExists(left);
        var m :| m in left && forall k :: k in left ==> k <= m;
        infos := infos + [rows[m]];
        left := left - {m};
      }
    }

    /** `fileInfos()`: the rows whose work is null, in no particular order. */
    method FileInfos() returns (infos: seq<FileInfo>)
      requires Valid()
      ensures forall i :: 0 <= i < |infos| ==> infos[i].idx in rows && rows[infos[i].idx] == infos[i]
      ensures forall i, j :: 0 <= i < j < |infos| ==> infos[i].idx != infos[j].idx
      ensures forall k :: k in rows ==> (rows[k] in infos <==> rows[k].work.None?)
    {
      var left := rows.Keys;
      infos := [];
      while left != {}
        invariant left <= rows.Keys
        invariant forall i :: 0 <= i < |infos| ==> infos[i].idx in rows.Keys - left && rows[infos[i].idx] == infos[i]
        invariant forall i :: 0 <= i < |infos| ==> infos[i].work.None?
        invariant forall i, j :: 0 <= i < j < |infos| ==> infos[i].idx != infos[j].idx
        invariant forall k :: k in rows.Keys - left && rows[k].work.None? ==> rows[k] in infos
        decreases left
      {
        ghost var member := Inhabited(left);
        var k :| k in left;
        if rows[k].work.None? {
          infos := infos + [rows[k]];
        }
        left := left - {k};
      }
    }

    /** `names()`: one name per row; `keys` says which row each name came from. */
    method Names() returns (names: seq<string>, ghost keys: seq<int>)
      requires Valid()
      ensures |keys| == |names| && forall i :: 0 <= i < |keys| ==> keys[i] in rows && names[i] == rows[keys[i]].name
      ensures forall i, j :: 0 <= i < j < |keys| ==> keys[i] != keys[j]
      ensures forall k :: k in rows ==> k in keys
      ensures |names| == |rows| && forall k :: k in rows ==> rows[k].name in names
    {
      var left := rows.Keys;
      names, keys := [], [];
      while left != {}
        invariant left <= rows.Keys
        invariant |names| + |left| == |rows|
        invariant forall k :: k in rows.Keys - left ==> rows[k].name in names
        invariant |keys| == |names| && forall i :: 0 <= i < |keys| ==> keys[i] in rows.Keys - left && names[i] == rows[keys[i]].name
        invariant forall i, j :: 0 <= i < j < |keys| ==> keys[i] != keys[j]
        invariant forall k :: k in rows.Keys - left ==> k in keys
        decreases left
      {
        ghost var member := Inhabited(left);
        var k :| k in left;
        names, keys := names + [rows[k].name], keys + [k];
        left := left - {k};
      }
    }
  }
}
