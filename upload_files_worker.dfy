/**
 * The upload worker: it reads the list of picked uris, and for each one asks the content
 * resolver for a display name, a type and a size, picks a MIME type and a unique name, stores a
 * `FileInfo` row carrying the worker's id as its work token, uploads the content, and then either
 * completes the row or deletes it and stops.
 */
module UploadFilesWorker {
  import opened Wrappers
  import opened Records
  import MimeType
  import opened UniqueName
  import UriList
  import FilesDao

  /**
   * The answers of the platform the worker consults, taken as given functions of the uri (or, for
   * `extensionMime`, of the extension). `displayName` is the content-resolver query: `None` when
   * it yields no cursor, otherwise the DISPLAY_NAME column, which may be null; `statSize` is `None`
   * when no file descriptor opens; `extensionMime` is `MimeTypeMap.getMimeTypeFromExtension`.
   */
  datatype Resolver = Resolver(
    displayName: string -> Option<Option<string>>,
    lastPathSegment: string -> Option<string>,
    getType: string -> Option<string>,
    statSize: string -> Option<int>,
    extensionMime: string -> Option<string>)

  datatype Status = Success | Failure

  const FileNameNotDetected: string := "file_name_not_detected"

  /** `fileName`: the display name, else the uri's last path segment, else a fixed text; `None` when the query fails. */
  function DisplayName(resolver: Resolver, uri: string): (r: Option<string>)
    ensures r.None? <==> resolver.displayName(uri).None?
    ensures r.Some? && resolver.displayName(uri).value.Some? ==> r.value == resolver.displayName(uri).value.value
    ensures r.Some? && resolver.displayName(uri).value.None? && resolver.lastPathSegment(uri).Some?
        ==> r.value == resolver.lastPathSegment(uri).value
    ensures r.Some? && resolver.displayName(uri).value.None? && resolver.lastPathSegment(uri).None?
        ==> r.value == FileNameNotDetected
  {
    match resolver.displayName(uri)
    case None => None
    case Some(Some(name)) => Some(name)
    case Some(None) =>
      match resolver.lastPathSegment(uri)
      case Some(segment) => Some(segment)
      case None => Some(FileNameNotDetected)
  }

  /** `mimeType(context, uri)`: the resolver's type, or `application/octet-stream` when it has none. */
  function UriMimeType(resolver: Resolver, uri: string): (r: string)
    ensures resolver.getType(uri).Some? ==> r == resolver.getType(uri).value
    ensures resolver.getType(uri).None? ==> r == MimeType.OctetMimeType
  {
    match resolver.getType(uri)
    case Some(t) => t
    case None => MimeType.OctetMimeType
  }

  /** `evaluateMimeType`: the lookup of a non-empty extension. */
  function EvaluateMimeType(filename: string, lookup: string -> Option<string>): (r: Option<string>)
    ensures r.Some? <==> FileExtension(filename) != [] && lookup(FileExtension(filename)).Some?
    ensures r.Some? ==> r == lookup(FileExtension(filename))
  {
    var extension := FileExtension(filename);
    if extension != [] then lookup(extension) else None
  }

  /** `getMimeType`: the type the name's extension stands for, or `application/octet-stream`. */
  function GetMimeType(name: string, lookup: string -> Option<string>): (r: string)
    ensures EvaluateMimeType(name, lookup).Some? ==> r == EvaluateMimeType(name, lookup).value
    ensures EvaluateMimeType(name, lookup).None? ==> r == MimeType.OctetMimeType
  {
    match EvaluateMimeType(name, lookup)
    case Some(t) => t
    case None => MimeType.OctetMimeType
  }

  /** A type the resolver gave that the worker keeps: present, non-empty and not the octet-stream type. */
  predicate Informative(mimeType: Option<string>) {
    mimeType.Some? && mimeType.value != [] && mimeType.value != MimeType.OctetMimeType
  }

  /**
   * `checkMimeType`: keeps an informative type; otherwise the type the name's extension stands
   * for, or `application/octet-stream`. It never answers null.
   */
  function CheckMimeType(mimeTypeOrg: Option<string>, name: string, lookup: string -> Option<string>): (r: Option<string>)
    ensures r.Some?
    ensures Informative(mimeTypeOrg) ==> r == mimeTypeOrg
    ensures !Informative(mimeTypeOrg) && FileExtension(name) != [] && lookup(FileExtension(name)).Some?
        ==> r == lookup(FileExtension(name))
    ensures !Informative(mimeTypeOrg) && (FileExtension(name) == [] || lookup(FileExtension(name)).None?)
        ==> r == Some(MimeType.OctetMimeType)
  {
    var evalDisplayName := mimeTypeOrg.None? || mimeTypeOrg.value == [] || mimeTypeOrg.value == MimeType.OctetMimeType;
    if evalDisplayName then Some(GetMimeType(name, lookup)) else mimeTypeOrg
  }

  /** Checking a checked type again changes nothing. */
  lemma CheckMimeTypeIdempotent(mimeTypeOrg: Option<string>, name: string, lookup: string -> Option<string>)
    ensures CheckMimeType(CheckMimeType(mimeTypeOrg, name, lookup), name, lookup) == CheckMimeType(mimeTypeOrg, name, lookup)
  {
  }

  /** The result is empty only when the extension lookup itself answered the empty type. */
  lemma CheckMimeTypeNotBlank(mimeTypeOrg: Option<string>, name: string, lookup: string -> Option<string>)
    requires CheckMimeType(mimeTypeOrg, name, lookup).value == []
    ensures FileExtension(name) != [] && lookup(FileExtension(name)) == Some([])
  {
  }

  /** Whether asking the resolver about `uri` throws: no cursor for the name, or no descriptor for the size. */
  predicate ProbeFails(resolver: Resolver, uri: string) {
    DisplayName(resolver, uri).None? || resolver.statSize(uri).None?
  }

  /** The row the worker stores for `uri` under `name`, before the upload. */
  function Pending(resolver: Resolver, uri: string, name: string, workId: string): (fi: FileInfo)
    requires !ProbeFails(resolver, uri)
    ensures fi.idx == 0 && fi.cid == 0 && fi.work == Some(workId) && fi.name == name
    ensures fi.size == resolver.statSize(uri).value
    ensures Some(fi.mimeType)
         == CheckMimeType(Some(UriMimeType(resolver, uri)), DisplayName(resolver, uri).value, resolver.extensionMime)
  {
    var mimeType := CheckMimeType(Some(UriMimeType(resolver, uri)), DisplayName(resolver, uri).value, resolver.extensionMime);
    FileInfo(0, name, mimeType.value, 0, Some(workId), resolver.statSize(uri).value)
  }

  /** The names the worker gives, in order, when each uri's name must avoid `before` and the earlier ones. */
  predicate NamedInTurn(resolver: Resolver, uris: seq<string>, before: seq<string>, names: seq<string>)
    requires |names| <= |uris|
  {
    forall i :: 0 <= i < |names| ==>
      !ProbeFails(resolver, uris[i])
      && names[i] == GetUniqueName(before + names[..i], DisplayName(resolver, uris[i]).value)
  }

  /** Names given in turn differ from every name before the run and from each other. */
  lemma {:induction false} NamedInTurnFresh(resolver: Resolver, uris: seq<string>, before: seq<string>, names: seq<string>)
    requires |names| <= |uris|
    requires NamedInTurn(resolver, uris, before, names)
    ensures forall i :: 0 <= i < |names| ==> names[i] !in before
    ensures forall i, j :: 0 <= i < j < |names| ==> names[i] != names[j]
  {
    forall i | 0 <= i < |names| ensures names[i] !in before && names[i] !in names[..i] {
      var given := GetUniqueName(before + names[..i], DisplayName(resolver, uris[i]).value);
      assert given !in before + names[..i];
    }
    forall i, j | 0 <= i < j < |names| ensures names[i] != names[j] {
      assert names[i] == names[..j][i];
    }
  }

  /** Naming the next uri extends the names given in turn. */
  lemma NamedInTurnSnoc(resolver: Resolver, uris: seq<string>, before: seq<string>, names: seq<string>, name: string)
    requires |names| < |uris| && NamedInTurn(resolver, uris, before, names)
    requires !ProbeFails(resolver, uris[|names|])
    requires name == GetUniqueName(before + names, DisplayName(resolver, uris[|names|]).value)
    ensures NamedInTurn(resolver, uris, before, names + [name])
  {
    var more := names + [name];
    forall i | 0 <= i < |more|
      ensures !ProbeFails(resolver, uris[i])
      ensures more[i] == GetUniqueName(before + more[..i], DisplayName(resolver, uris[i]).value)
    {
      if i < |names| {
        assert more[..i] == names[..i];
      } else {
        assert more[..i] == names;
      }
    }
  }

  /**
   * One uri's record life cycle: store the pending row under a fresh key, upload, then complete
   * the row with the content id, or delete it when the upload failed.
   */
  method StoreAndUpload(table: FilesDao.FileInfoTable, fi: FileInfo) returns (key: int, outcome: Option<int>)
    requires table.Valid() && fi.idx == 0 && fi.work.Some?
    modifies table
    ensures table.Valid()
    ensures key == old(table.nextIdx) && key !in old(table.rows) && key < table.nextIdx
    ensures outcome.Some? ==> table.rows == old(table.rows)[key := fi.(idx := key, cid := outcome.value, work := None)]
    ensures outcome.None? ==> table.rows == old(table.rows)
  {
    ghost var rows0, next0 := table.rows, table.nextIdx;
    key := table.InsertFileInfo(fi);
    outcome :| true;
    match outcome {
      case Some(cid) =>
        FilesDao.StoreThenDone(rows0, next0, fi, cid);
        table.Done(key, cid);
      case None =>
        FilesDao.StoreThenDelete(rows0, next0, fi);
        table.DeleteIdx(key);
    }
  }

  /** The row a successful upload leaves under `key`: the pending row with its content id and no work token. */
  function Stored(resolver: Resolver, uri: string, name: string, workId: string, key: int, cid: int): (fi: FileInfo)
    requires !ProbeFails(resolver, uri)
    ensures fi.idx == key && fi.cid == cid && fi.work.None? && fi.name == name
  {
    Pending(resolver, uri, name, workId).(idx := key, cid := cid, work := None)
  }

  /**
   * The table after one stored row per key, in order: the rows of `rows0` are untouched, each key
   * is fresh, below `nextIdx` and used once, a successful upload left its completed row, and a
   * failed one left no row and was the last.
   */
  ghost predicate Uploaded(rows0: FilesDao.Rows, rows: FilesDao.Rows, nextIdx: int, resolver: Resolver, uris: seq<string>,
                           before: seq<string>, workId: string, keys: seq<int>, names: seq<string>, outcomes: seq<Option<int>>) {
    && |keys| == |names| == |outcomes| <= |uris|
    && NamedInTurn(resolver, uris, before, names)
    && (forall k :: k in rows0 ==> k in rows && rows[k] == rows0[k])
    && (forall j :: 0 <= j < |keys| ==> keys[j] !in rows0 && keys[j] < nextIdx)
    && (forall j, l :: 0 <= j < l < |keys| ==> keys[j] != keys[l])
    && (forall k :: k in rows && k !in rows0 ==> k in keys)
    && (forall j :: 0 <= j < |keys| && outcomes[j].Some? ==>
          keys[j] in rows && rows[keys[j]] == Stored(resolver, uris[j], names[j], workId, keys[j], outcomes[j].value))
    && (forall j :: 0 <= j < |keys| && outcomes[j].None? ==> keys[j] !in rows && j == |keys| - 1)
  }

  /** Storing and uploading the next uri under the next fresh key extends the run by one. */
  lemma UploadedSnoc(rows0: FilesDao.Rows, rows: FilesDao.Rows, nextIdx: int, rows': FilesDao.Rows, nextIdx': int,
                     resolver: Resolver, uris: seq<string>, before: seq<string>, workId: string,
                     keys: seq<int>, names: seq<string>, outcomes: seq<Option<int>>, key: int, name: string, outcome: Option<int>)
    requires Uploaded(rows0, rows, nextIdx, resolver, uris, before, workId, keys, names, outcomes)
    requires forall j :: 0 <= j < |outcomes| ==> outcomes[j].Some?
    requires |keys| < |uris| && !ProbeFails(resolver, uris[|keys|])
    requires name == GetUniqueName(before + names, DisplayName(resolver, uris[|keys|]).value)
    requires key == nextIdx && key !in rows && key < nextIdx'
    requires outcome.Some? ==> rows' == rows[key := Stored(resolver, uris[|keys|], name, workId, key, outcome.value)]
    requires outcome.None? ==> rows' == rows
    ensures Uploaded(rows0, rows', nextIdx', resolver, uris, before, workId, keys + [key], names + [name], outcomes + [outcome])
  {
    NamedInTurnSnoc(resolver, uris, before, names, name);
    var keys', names', outcomes' := keys + [key], names + [name], outcomes + [outcome];
    forall j | 0 <= j < |keys'| && outcomes'[j].Some?
      ensures keys'[j] in rows' && rows'[keys'[j]] == Stored(resolver, uris[j], names'[j], workId, keys'[j], outcomes'[j].value)
    {
      if j < |keys| {
        assert keys'[j] == keys[j] != key;
      }
    }
  }

  /**
   * The `for` loop of `doWork` over the uris read, with `before` the names read from the table.
   * It stops early, with `probeFailed`, when asking the resolver about a uri throws.
   */
  method UploadUris(table: FilesDao.FileInfoTable, uris: seq<string>, before: seq<string>, workId: string, resolver: Resolver)
    returns (probeFailed: bool, keys: seq<int>, names: seq<string>, outcomes: seq<Option<int>>)
    requires table.Valid()
    modifies table
    ensures table.Valid()
    ensures Uploaded(old(table.rows), table.rows, table.nextIdx, resolver, uris, before, workId, keys, names, outcomes)
    // The run covers every uri unless an upload failed or a probe threw.
    ensures !probeFailed ==> |keys| == |uris| || (0 < |keys| && outcomes[|keys| - 1].None?)
    ensures probeFailed ==> |keys| < |uris| && ProbeFails(resolver, uris[|keys|])
    // A failed probe stops the run before any upload has failed.
    ensures probeFailed ==> forall j :: 0 <= j < |outcomes| ==> outcomes[j].Some?
  {
    keys, names, outcomes := [], [], [];
    var taken := before;
    while |keys| < |uris|
      invariant table.Valid()
      invariant taken == before + names
      invariant Uploaded(old(table.rows), table.rows, table.nextIdx, resolver, uris, before, workId, keys, names, outcomes)
      invariant forall j :: 0 <= j < |outcomes| ==> outcomes[j].Some?
      decreases |uris| - |keys|
    {
      var uri := uris[|keys|];
      var displayName := DisplayName(resolver, uri);
      var size := resolver.statSize(uri);
      if displayName.None? || size.None? {
        return true, keys, names, outcomes;
      }
      var name := GetUniqueName(taken, displayName.value);
      ghost var rows0, next0 := table.rows, table.nextIdx;
      var key, outcome := StoreAndUpload(table, Pending(resolver, uri, name, workId));
      UploadedSnoc(old(table.rows), rows0, next0, table.rows, table.nextIdx, resolver, uris, before, workId,
                   keys, names, outcomes, key, name, outcome);
      keys, names, outcomes := keys + [key], names + [name], outcomes + [outcome];
      taken := taken + [name];
      if outcome.None? {
        break;
      }
    }
    probeFailed := false;
  }

  /**
   * `doWork`. `text` is the uri file's content (`None` when it cannot be opened); the upload of
   * each stored row succeeds with a content id or fails, as the storage decides. Besides the
   * status, the outputs are the uris read, the names the worker read from the table at the start,
   * and for each stored row its key, its name and the upload's outcome.
   */
  method DoWork(table: FilesDao.FileInfoTable, text: Option<string>, workId: string, resolver: Resolver)
    returns (status: Status, uris: seq<string>, before: seq<string>,
             keys: seq<int>, names: seq<string>, outcomes: seq<Option<int>>)
    requires table.Valid()
    modifies table
    ensures table.Valid()
    ensures text.None? ==> status == Failure && keys == [] && table.rows == old(table.rows)
    ensures text.Some? ==> uris == UriList.Lines(text.value)
    ensures text.Some? ==> forall k :: k in old(table.rows) ==> old(table.rows)[k].name in before
    // Every name given differs from the names stored before the run and from the others given.
    ensures forall i :: 0 <= i < |names| ==> names[i] !in before
    ensures forall i, j :: 0 <= i < j < |names| ==> names[i] != names[j]
    ensures |keys| == |names| == |outcomes| <= |uris|
    ensures NamedInTurn(resolver, uris, before, names)
    ensures forall k :: k in old(table.rows) ==> k in table.rows && table.rows[k] == old(table.rows)[k]
    ensures forall i :: 0 <= i < |keys| ==> keys[i] !in old(table.rows)
    ensures forall k :: k in table.rows && k !in old(table.rows) ==> k in keys
    ensures forall i :: 0 <= i < |keys| && outcomes[i].Some? ==>
      keys[i] in table.rows
      && table.rows[keys[i]] == Pending(resolver, uris[i], names[i], workId).(idx := keys[i], cid := outcomes[i].value, work := None)
    ensures forall i :: 0 <= i < |keys| && outcomes[i].None? ==> keys[i] !in table.rows && i == |keys| - 1
    ensures status == Success ==> text.Some? && (|keys| == |uris| || (0 < |keys| && outcomes[|keys| - 1].None?))
    ensures (text.Some? && (|keys| == |uris| || (0 < |keys| && outcomes[|keys| - 1].None?))) ==> status == Success
    ensures status == Failure && text.Some? ==> |keys| < |uris| && ProbeFails(resolver, uris[|keys|])
  {
    uris, before, keys, names, outcomes := [], [], [], [], [];
    if text.None? {
      return Failure, uris, before, keys, names, outcomes;
    }
    uris := UriList.ReadUris(text.value);
    ghost var rowKeys;
    before, rowKeys := table.Names();
    assert forall k :: k in old(table.rows) ==> old(table.rows)[k].name in before by {
      forall k | k in old(table.rows) ensures old(table.rows)[k].name in before {
        var i :| 0 <= i < |rowKeys| && rowKeys[i] == k;
      }
    }
    var probeFailed;
    probeFailed, keys, names, outcomes := UploadUris(table, uris, before, workId, resolver);
    NamedInTurnFresh(resolver, uris, before, names);
    status := if probeFailed then Failure else Success;
  }
}
