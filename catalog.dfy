/**
 * The catalog of playable files (table availible_files), modules/streamer/available_files.go.
 * A file's id is the md5 hex digest of its normalised absolute path, so the same file named
 * two ways is catalogued once.
 */
module Catalog {
  import opened Wrappers
  import opened FilePaths
  import opened Host
  import opened Ordering

  datatype AvailableFiles = AvailableFiles(
    fileId: string,
    filePath: string,
    fileSize: int,
    videoLength: int,
    addedTime: int,
    ffprobeData: string,
    isActive: int,
    description: string)

  datatype CatalogError = FileDoesNotExist | FileNotFound

  /** filepath.Abs followed by filepath.Clean: an absolute path in clean form. */
  function NormalizeFilePath(path: string, cwd: AbsPath): (r: string)
    ensures IsCleanAbs(r)
    ensures IsAbs(path) ==> r == CleanAbs(path)
  {
    var abs := Abs(path, cwd);
    CleanAbsIsClean(abs);
    CleanAbsIdempotent(path);
    CleanAbs(abs)
  }

  /**
   * Normalising a normalised path changes nothing, whatever the working directory, so every
   * spelling of a path that normalises to p gets the id of p.
   */
  lemma NormalizeIdempotent(path: string, cwd: AbsPath, cwd2: AbsPath)
    ensures NormalizeFilePath(NormalizeFilePath(path, cwd), cwd2) == NormalizeFilePath(path, cwd)
  {
    var p := NormalizeFilePath(path, cwd);
    var abs := Abs(path, cwd);
    CleanAbsIdempotent(abs);
    assert p == CleanAbs(abs);
    CleanAbsIdempotent(p);
  }

  /** A relative path and the same path written under the working directory name one file. */
  lemma NormalizeRelative(path: string, cwd: AbsPath, h: string -> string)
    requires !IsAbs(path)
    ensures h(NormalizeFilePath(path, cwd)) == h(NormalizeFilePath(cwd + "/" + path, cwd))
  {
    var abs := cwd + "/" + path;
    assert IsAbs(abs);
    CleanAbsIdempotent(abs);
  }

  predicate Has(rows: seq<AvailableFiles>, id: string) {
    exists i :: 0 <= i < |rows| && rows[i].fileId == id
  }

  /** file_id is the primary key. */
  predicate UniqueIds(rows: seq<AvailableFiles>) {
    forall i, j :: 0 <= i < j < |rows| ==> rows[i].fileId != rows[j].fileId
  }

  /** The row inserted for an existing file: size from Stat, probe data or "{}", defaults for the rest. */
  function NewRow(id: string, path: string, host: Host): (r: AvailableFiles)
    requires host.Exists(path)
    ensures r.fileId == id && r.filePath == path
    ensures r.fileSize == |host.disk[path]| && r.addedTime == host.now
    ensures host.ffprobe(path).ProbeFailed? ==> r.ffprobeData == "{}" && r.videoLength == 0
    ensures r.isActive == 0 && r.description == ""
  {
    AvailableFiles(id, path, host.FileSize(path), host.ProbeLength(path), host.now,
                   host.ProbeData(path), 0, "")
  }

  /** The table after AddToAvailableFiles, and its result. */
  function AddFile(rows: seq<AvailableFiles>, filePath: string, host: Host)
    : (out: (Result<string, CatalogError>, seq<AvailableFiles>))
    ensures var p := NormalizeFilePath(filePath, host.cwd); var id := host.md5Hex(p);
      && (Has(rows, id) ==> out == (Ok(id), rows))
      && (!Has(rows, id) && !host.Exists(p) ==> out == (Err(FileDoesNotExist), rows))
      && (!Has(rows, id) && host.Exists(p) ==> out.0 == Ok(id) && out.1 == rows + [NewRow(id, p, host)])
    ensures out.0.Ok? ==> Has(out.1, out.0.value)
    ensures UniqueIds(rows) ==> UniqueIds(out.1)
  {
    var p := NormalizeFilePath(filePath, host.cwd);
    var id := host.md5Hex(p);
    if Has(rows, id) then (Ok(id), rows)
    else if !host.Exists(p) then (Err(FileDoesNotExist), rows)
    else
      var r := rows + [NewRow(id, p, host)];
      assert r[|rows|].fileId == id;
      (Ok(id), r)
  }

  /** Adding the same file again, under any spelling that normalises alike, inserts nothing. */
  lemma AddFileIdempotent(rows: seq<AvailableFiles>, path: string, path2: string, host: Host)
    requires NormalizeFilePath(path, host.cwd) == NormalizeFilePath(path2, host.cwd)
    requires AddFile(rows, path, host).0.Ok?
    ensures var once := AddFile(rows, path, host);
      AddFile(once.1, path2, host) == (once.0, once.1)
  {
  }

  /** UpdateFileDescription: only the description column of matching rows changes. */
  function SetDescription(rows: seq<AvailableFiles>, id: string, description: string)
    : (out: (Outcome<CatalogError>, seq<AvailableFiles>))
    ensures out.0 == Fail(FileNotFound) <==> !Has(rows, id)
    ensures out.0.Pass? <==> Has(rows, id)
    ensures |out.1| == |rows|
    ensures forall i :: 0 <= i < |rows| ==>
      out.1[i] == (if rows[i].fileId == id then rows[i].(description := description) else rows[i])
  {
    var r := seq(|rows|, i requires 0 <= i < |rows| =>
      if rows[i].fileId == id then rows[i].(description := description) else rows[i]);
    (if Has(rows, id) then Pass else Fail(FileNotFound), r)
  }

  /** UpdateFFProbeData: only ffprobe_data and video_length change; an unknown id is no error. */
  function SetProbeData(rows: seq<AvailableFiles>, id: string, data: string, videoLength: int)
    : (r: seq<AvailableFiles>)
    ensures |r| == |rows|
    ensures forall i :: 0 <= i < |rows| ==>
      r[i] == (if rows[i].fileId == id
               then rows[i].(ffprobeData := data, videoLength := videoLength) else rows[i])
    ensures !Has(rows, id) ==> r == rows
  {
    seq(|rows|, i requires 0 <= i < |rows| =>
      if rows[i].fileId == id then rows[i].(ffprobeData := data, videoLength := videoLength)
      else rows[i])
  }

  /** Column-restricted updates keep the key column, so they keep the table keyed. */
  lemma UpdatesKeepIds(rows: seq<AvailableFiles>, id: string, description: string, data: string, len: int)
    requires UniqueIds(rows)
    ensures UniqueIds(SetDescription(rows, id, description).1)
    ensures UniqueIds(SetProbeData(rows, id, data, len))
    ensures forall k :: Has(rows, k) <==> Has(SetDescription(rows, id, description).1, k)
  {
    var d := SetDescription(rows, id, description).1;
    forall k | Has(d, k) ensures Has(rows, k) {
      var i :| 0 <= i < |d| && d[i].fileId == k;
      assert rows[i].fileId == k;
    }
    forall k | Has(rows, k) ensures Has(d, k) {
      var i :| 0 <= i < |rows| && rows[i].fileId == k;
      assert d[i].fileId == k;
    }
  }

  /** ORDER BY added_time DESC. */
  function NewestFirst(f: AvailableFiles): Key {
    Key(-f.addedTime, 0)
  }

  /** GetAvailableFiles: every row, newest first. */
  function Listing(rows: seq<AvailableFiles>): (r: seq<AvailableFiles>)
    ensures multiset(r) == multiset(rows)
    ensures forall i, j :: 0 <= i < j < |r| ==> r[i].addedTime >= r[j].addedTime
  {
    var r := SortBy(rows, NewestFirst);
    assert forall i, j :: 0 <= i < j < |r| ==> KeyLe(NewestFirst(r[i]), NewestFirst(r[j]));
    r
  }

  /** The availible_files table. */
  class CatalogTable {
    var rows: seq<AvailableFiles>

    ghost predicate Valid()
      reads this
    {
      UniqueIds(rows)
    }

    constructor()
      ensures rows == [] && Valid()
    {
      rows := [];
    }

    predicate Contains(id: string)
      reads this
    {
      Has(rows, id)
    }

    /** Returns the id of the file, inserting a row first when it is not catalogued yet. */
    method AddToAvailableFiles(filePath: string, host: Host) returns (r: Result<string, CatalogError>)
      requires Valid()
      modifies this
      ensures (r, rows) == AddFile(old(rows), filePath, host)
      ensures Valid()
    {
      var p := NormalizeFilePath(filePath, host.cwd);
      var id := host.md5Hex(p);
      if Contains(id) {
        return Ok(id);
      }
      if !host.Exists(p) {
        return Err(FileDoesNotExist);
      }
      rows := rows + [NewRow(id, p, host)];
      r := Ok(id);
    }

    /** Inserts a row built by a caller that has already checked the key is new. */
    method Insert(row: AvailableFiles)
      requires Valid() && !Has(rows, row.fileId)
      modifies this
      ensures rows == old(rows) + [row]
      ensures Valid()
    {
      rows := rows + [row];
    }

    method UpdateFileDescription(id: string, description: string) returns (r: Outcome<CatalogError>)
      requires Valid()
      modifies this
      ensures (r, rows) == SetDescription(old(rows), id, description)
      ensures Valid()
    {
      UpdatesKeepIds(rows, id, description, "", 0);
      r, rows := SetDescription(rows, id, description).0, SetDescription(rows, id, description).1;
    }

    method UpdateFFProbeData(id: string, data: string, videoLength: int)
      requires Valid()
      modifies this
      ensures rows == SetProbeData(old(rows), id, data, videoLength)
      ensures Valid()
    {
      UpdatesKeepIds(rows, id, "", data, videoLength);
      rows := SetProbeData(rows, id, data, videoLength);
    }

    method GetAvailableFiles() returns (files: seq<AvailableFiles>)
      ensures files == Listing(rows)
    {
      files := Listing(rows);
    }
  }
}
