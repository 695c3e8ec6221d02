/**
 * Chunked uploads over the web socket (modules/web/ws_upload_handler.go).
 *
 * An init message opens a session after checking the declared size and the file extension; chunk
 * messages append decoded bytes to the session's temporary file and count them; a complete message
 * checks that every declared byte arrived, validates the video with ffprobe, moves it into the
 * video directory and catalogues it as inactive. Every failure after init removes the session.
 */
module Upload {
  import opened Wrappers
  import opened Bytes
  import opened FilePaths
  import Catalog

  /** The upload settings and the video directory from the application configuration. */
  datatype UploadConfig = UploadConfig(
    maxFileSizeMB: int,
    allowedFormats: seq<string>,
    requiredWidth: int,
    requiredHeight: int,
    uploadDir: string,
    videoFilesPath: string)

  /**
   * One open upload. The bytes written to the temporary file so far are `data`; ReceivedSize
   * counts them.
   */
  datatype UploadSession = UploadSession(
    sessionId: string,
    filename: string,
    totalSize: int,
    receivedSize: int,
    data: seq<byte>,
    tempFilePath: string,
    startTime: int,
    lastChunkTime: int)

  datatype ValidationError =
    | ProbeExecFailed
    | ProbeParseFailed
    | NoVideoStream
    | WrongDimensions(width: int, height: int)
    | VideoDirFailed
    | MoveFailed
    | InsertFailed

  datatype UploadError =
    | TooLarge
    | FormatNotAllowed(ext: string)
    | UploadDirFailed
    | TempFileFailed
    | SessionNotFound
    | DecodeFailed
    | WriteFailed
    | CloseFailed
    | SizeMismatch(expected: int, received: int)
    | ValidationFailed(reason: ValidationError)

  /** The largest accepted declared size: max_file_size_mb mebibytes. */
  function MaxSizeBytes(cfg: UploadConfig): int {
    cfg.maxFileSizeMB * 1024 * 1024
  }

  /** The extension the format check compares: lower-cased, without its dot. */
  function NormalizedExt(filename: string): (ext: string)
    ensures '.' !in ext && '/' !in ext
  {
    ToLower(TrimPrefix(Ext(filename), "."))
  }

  lemma {:induction false} ExtOfDotted(b: string, e: string)
    requires '.' !in e && '/' !in e
    ensures Ext(b + "." + e) == "." + e
    decreases |e|
  {
    var p := b + "." + e;
    if e != [] {
      var init := e[..|e| - 1];
      assert p[..|p| - 1] == b + "." + init;
      assert p[|p| - 1] == e[|e| - 1];
      ExtOfDotted(b, init);
      assert "." + init + [e[|e| - 1]] == "." + e;
    }
  }

  /**
   * The format checked is the text after the last dot of the name, lower-cased, so "clip.MP4" is
   * checked as "mp4".
   */
  lemma NormalizedExtOf(b: string, e: string)
    requires '.' !in e && '/' !in e
    ensures NormalizedExt(b + "." + e) == ToLower(e)
  {
    ExtOfDotted(b, e);
    assert ("." + e)[..1] == ".";
    assert ("." + e)[1..] == e;
  }

  /** A session id: the first 32 hex characters of a SHA-256 digest of the name and the time. */
  function SessionIdOf(digest: seq<byte>): (id: string)
    requires |digest| == 32
    ensures |id| == 32 && IsLowerHex(id)
  {
    HexEncode(digest)[..32]
  }

  /** A file id: the first 16 hex characters of such a digest, that is its first 8 bytes in hex. */
  function FileIdOf(digest: seq<byte>): (id: string)
    requires |digest| == 32
    ensures |id| == 16 && IsLowerHex(id)
    ensures forall i :: 0 <= i < 8 ==> id[2 * i..2 * i + 2] == HexByte(digest[i])
  {
    var h := HexEncode(digest);
    assert forall i :: 0 <= i < 8 ==> h[..16][2 * i..2 * i + 2] == h[2 * i..2 * i + 2];
    h[..16]
  }

  /** Every session is stored under its own id and has counted exactly the bytes it wrote. */
  predicate Consistent(sessions: map<string, UploadSession>) {
    forall id :: id in sessions ==>
      sessions[id].sessionId == id && sessions[id].receivedSize == |sessions[id].data|
  }

  /** What the file system does on init: creating the upload directory and the temporary file. */
  datatype InitEnv = InitEnv(mkdirOk: bool, createOk: bool)

  /** handleUploadInit: the reply and the sessions afterwards. */
  function Init(sessions: map<string, UploadSession>, cfg: UploadConfig, filename: string, fileSize: int,
                digest: seq<byte>, now: int, env: InitEnv): (out: (Result<string, UploadError>, map<string, UploadSession>))
    requires |digest| == 32
  {
    var ext := NormalizedExt(filename);
    if fileSize > MaxSizeBytes(cfg) then (Err(TooLarge), sessions)
    else if ext !in cfg.allowedFormats then (Err(FormatNotAllowed(ext)), sessions)
    else if !env.mkdirOk then (Err(UploadDirFailed), sessions)
    else
      var id := SessionIdOf(digest);
      if !env.createOk then (Err(TempFileFailed), sessions)
      else
        var s := UploadSession(id, filename, fileSize, 0, [], JoinPath(cfg.uploadDir, id + ".tmp"), now, now);
        (Ok(id), sessions[id := s])
  }

  /** filepath.Join of a directory and a name; an absolute directory is cleaned. */
  function JoinPath(dir: string, name: string): string {
    if IsAbs(dir) then CleanAbs(dir + "/" + name) else dir + "/" + name
  }

  /**
   * Init opens a session exactly when the declared size is at most the limit, the extension is
   * allowed and the directory and temporary file can be created. The new session has the declared
   * total, has received nothing and is stored under a 32-character hex id; nothing else changes.
   * A refused init changes nothing.
   */
  lemma InitOpens(sessions: map<string, UploadSession>, cfg: UploadConfig, filename: string, fileSize: int,
                  digest: seq<byte>, now: int, env: InitEnv)
    requires |digest| == 32
    ensures var out := Init(sessions, cfg, filename, fileSize, digest, now, env);
      out.0.Ok? <==> (fileSize <= MaxSizeBytes(cfg) && NormalizedExt(filename) in cfg.allowedFormats
                      && env.mkdirOk && env.createOk)
    ensures var out := Init(sessions, cfg, filename, fileSize, digest, now, env);
      out.0.Ok? ==> (|out.0.value| == 32 && IsLowerHex(out.0.value)
                     && out.1.Keys == sessions.Keys + {out.0.value}
                     && out.1[out.0.value].totalSize == fileSize
                     && out.1[out.0.value].receivedSize == 0
                     && out.1[out.0.value].data == []
                     && forall id :: id in sessions && id != out.0.value ==> out.1[id] == sessions[id])
    ensures var out := Init(sessions, cfg, filename, fileSize, digest, now, env);
      out.0.Err? ==> out.1 == sessions
    ensures Consistent(sessions) ==> Consistent(Init(sessions, cfg, filename, fileSize, digest, now, env).1)
  {
  }

  /** The declared size limit is inclusive: a file of exactly the limit is accepted by the size check. */
  lemma SizeLimitInclusive(sessions: map<string, UploadSession>, cfg: UploadConfig, filename: string,
                           digest: seq<byte>, now: int, env: InitEnv)
    requires |digest| == 32
    ensures Init(sessions, cfg, filename, MaxSizeBytes(cfg), digest, now, env).0 != Err(TooLarge)
    ensures Init(sessions, cfg, filename, MaxSizeBytes(cfg) + 1, digest, now, env).0 == Err(TooLarge)
  {
  }

  /** handleUploadChunk, given the base64-decoded chunk (None when decoding failed) and whether the write succeeded. */
  function Chunk(sessions: map<string, UploadSession>, id: string, decoded: Option<seq<byte>>, writeOk: bool,
                 now: int): (out: (Outcome<UploadError>, map<string, UploadSession>))
  {
    if id !in sessions then (Fail(SessionNotFound), sessions)
    else if decoded.None? then (Fail(DecodeFailed), sessions)
    else if !writeOk then (Fail(WriteFailed), sessions - {id})
    else
      var s := sessions[id];
      var chunk := decoded.value;
      (Pass, sessions[id := s.(receivedSize := s.receivedSize + |chunk|, data := s.data + chunk,
                               lastChunkTime := now)])
  }

  /**
   * A chunk for an unknown session or one that does not decode changes nothing; a failed write
   * removes the session; a written chunk is appended to the session's bytes and its length added
   * to ReceivedSize, leaving every other session as it was.
   */
  lemma ChunkEffect(sessions: map<string, UploadSession>, id: string, decoded: Option<seq<byte>>,
                    writeOk: bool, now: int)
    ensures var out := Chunk(sessions, id, decoded, writeOk, now);
      (id !in sessions || decoded.None?) ==> out.1 == sessions && out.0.Fail?
    ensures var out := Chunk(sessions, id, decoded, writeOk, now);
      (id in sessions && decoded.Some? && !writeOk) ==> out == (Fail(WriteFailed), sessions - {id})
    ensures var out := Chunk(sessions, id, decoded, writeOk, now);
      out.0.Pass? ==> (id in sessions && decoded.Some? && writeOk
                       && out.1.Keys == sessions.Keys
                       && out.1[id].receivedSize == sessions[id].receivedSize + |decoded.value|
                       && out.1[id].data == sessions[id].data + decoded.value
                       && out.1[id].totalSize == sessions[id].totalSize
                       && forall other :: other in sessions && other != id ==> out.1[other] == sessions[other])
    ensures Consistent(sessions) ==> Consistent(Chunk(sessions, id, decoded, writeOk, now).1)
  {
  }

  /** Applies written chunks one after another to a session. */
  function Chunks(sessions: map<string, UploadSession>, id: string, chunks: seq<seq<byte>>, now: int)
    : map<string, UploadSession>
  {
    if chunks == [] then sessions
    else Chunk(Chunks(sessions, id, chunks[..|chunks| - 1], now), id, Some(chunks[|chunks| - 1]), true, now).1
  }

  function Concat(chunks: seq<seq<byte>>): seq<byte> {
    if chunks == [] then [] else Concat(chunks[..|chunks| - 1]) + chunks[|chunks| - 1]
  }

  /**
   * After a freshly opened session receives a series of written chunks, its bytes are the chunks
   * in order and ReceivedSize is their total length.
   */
  lemma {:induction false} ChunksAccumulate(sessions: map<string, UploadSession>, id: string,
                                            chunks: seq<seq<byte>>, now: int)
    requires id in sessions && sessions[id].receivedSize == 0 && sessions[id].data == []
    ensures id in Chunks(sessions, id, chunks, now)
    ensures Chunks(sessions, id, chunks, now)[id].data == Concat(chunks)
    ensures Chunks(sessions, id, chunks, now)[id].receivedSize == |Concat(chunks)|
    ensures Chunks(sessions, id, chunks, now)[id].totalSize == sessions[id].totalSize
  {
    if chunks != [] {
      ChunksAccumulate(sessions, id, chunks[..|chunks| - 1], now);
    }
  }

  // ---------------------------------------------------------------------------------------------
  // Validation

  /** One stream of ffprobe's JSON output. */
  datatype Stream = Stream(codecType: string, codecName: string, width: int, height: int)

  /**
   * The decoded JSON of ffprobe: its streams, the duration already converted to whole seconds (0
   * when absent or not a number) and the format name.
   */
  datatype ProbeJson = ProbeJson(streams: seq<Stream>, durationSeconds: int, formatName: string)

  /** Running ffprobe on the temporary file: a failure, or its output and the JSON decoded from it. */
  datatype ProbeRun = ProbeRunFailed | ProbeOutput(output: string, parsed: Option<ProbeJson>)

  datatype VideoMetadata = VideoMetadata(
    width: int,
    height: int,
    durationSeconds: int,
    format: string,
    codecName: string,
    ffprobeData: string)

  /** The index of the first stream whose codec type is "video", or |streams| when there is none. */
  function FirstVideoIndex(streams: seq<Stream>): (k: nat)
    ensures k <= |streams|
    ensures k < |streams| ==> streams[k].codecType == "video"
    ensures forall j :: 0 <= j < k ==> streams[j].codecType != "video"
  {
    if streams == [] then 0
    else if streams[0].codecType == "video" then 0
    else 1 + FirstVideoIndex(streams[1..])
  }

  /** The stream loop of getVideoMetadata: it stops at the first video stream. */
  method FindVideoStream(streams: seq<Stream>) returns (k: nat)
    ensures k == FirstVideoIndex(streams)
  {
    k := 0;
    while k < |streams| && streams[k].codecType != "video"
      invariant k <= |streams|
      invariant forall j :: 0 <= j < k ==> streams[j].codecType != "video"
    {
      k := k + 1;
    }
    FirstVideoIndexUnique(streams, k);
  }

  lemma {:induction false} FirstVideoIndexUnique(streams: seq<Stream>, k: nat)
    requires k <= |streams|
    requires k < |streams| ==> streams[k].codecType == "video"
    requires forall j :: 0 <= j < k ==> streams[j].codecType != "video"
    ensures k == FirstVideoIndex(streams)
  {
    if streams != [] && k > 0 {
      FirstVideoIndexUnique(streams[1..], k - 1);
    }
  }

  /** getVideoMetadata: the dimensions come from the first video stream and must both be non-zero. */
  function GetVideoMetadata(probe: ProbeRun): (r: Result<VideoMetadata, ValidationError>)
  {
    match probe
    case ProbeRunFailed => Err(ProbeExecFailed)
    case ProbeOutput(output, parsed) =>
      if parsed.None? then Err(ProbeParseFailed)
      else
        var j := parsed.value;
        var k := FirstVideoIndex(j.streams);
        var width := if k < |j.streams| then j.streams[k].width else 0;
        var height := if k < |j.streams| then j.streams[k].height else 0;
        var codec := if k < |j.streams| then j.streams[k].codecName else "";
        if width == 0 || height == 0 then Err(NoVideoStream)
        else Ok(VideoMetadata(width, height, j.durationSeconds, j.formatName, codec, output))
  }

  /**
   * Metadata is found exactly when the output decodes and its first video stream has non-zero
   * dimensions; a later video stream is never consulted.
   */
  lemma MetadataFromFirstVideo(output: string, j: ProbeJson)
    ensures var r := GetVideoMetadata(ProbeOutput(output, Some(j)));
      var k := FirstVideoIndex(j.streams);
      r.Ok? <==> (k < |j.streams| && j.streams[k].width != 0 && j.streams[k].height != 0)
    ensures var r := GetVideoMetadata(ProbeOutput(output, Some(j)));
      var k := FirstVideoIndex(j.streams);
      r.Ok? ==> (j.streams[k].codecType == "video"
                 && (forall i :: 0 <= i < k ==> j.streams[i].codecType != "video")
                 && r.value.width == j.streams[k].width && r.value.height == j.streams[k].height
                 && r.value.ffprobeData == output)
  {
  }

  /** What the file system does while storing: creating the video directory and moving the file. */
  datatype StoreEnv = StoreEnv(mkdirOk: bool, moveOk: bool)

  /** The final location: the video directory, the file id and the original extension. */
  function FinalPath(cfg: UploadConfig, fileId: string, filename: string): string {
    JoinPath(cfg.videoFilesPath, fileId + Ext(filename))
  }

  /**
   * validateAndStoreFile: the catalog row for the upload, or why it was refused. It stores the
   * upload exactly when the probe yields metadata of the required dimensions, the video directory
   * is made, the move succeeds and the file id is new; its checks report in that order. The row is
   * inactive, keyed by the 16-character hex id, at the final path, with the declared size and the
   * probe's duration and output.
   */
  function Validate(s: UploadSession, cfg: UploadConfig, probe: ProbeRun, fileDigest: seq<byte>,
                    env: StoreEnv, rows: seq<Catalog.AvailableFiles>, now: int)
    : (r: Result<Catalog.AvailableFiles, ValidationError>)
    requires |fileDigest| == 32
    ensures var meta := GetVideoMetadata(probe);
      r.Ok? <==> (meta.Ok? && meta.value.width == cfg.requiredWidth && meta.value.height == cfg.requiredHeight
                  && env.mkdirOk && env.moveOk && !Catalog.Has(rows, FileIdOf(fileDigest)))
    ensures GetVideoMetadata(probe).Err? ==> r == Err(GetVideoMetadata(probe).error)
    ensures var meta := GetVideoMetadata(probe);
      meta.Ok? && (meta.value.width != cfg.requiredWidth || meta.value.height != cfg.requiredHeight) ==>
        r == Err(WrongDimensions(meta.value.width, meta.value.height))
    ensures r.Ok? ==>
        var meta := GetVideoMetadata(probe).value;
        && r.value.fileId == FileIdOf(fileDigest) && |r.value.fileId| == 16 && IsLowerHex(r.value.fileId)
        && r.value.filePath == FinalPath(cfg, r.value.fileId, s.filename)
        && r.value.fileSize == s.totalSize && r.value.isActive == 0 && r.value.addedTime == now
        && r.value.videoLength == meta.durationSeconds && r.value.ffprobeData == meta.ffprobeData
  {
    match GetVideoMetadata(probe)
    case Err(e) => Err(e)
    case Ok(meta) =>
      if meta.width != cfg.requiredWidth || meta.height != cfg.requiredHeight then
        Err(WrongDimensions(meta.width, meta.height))
      else
        var fileId := FileIdOf(fileDigest);
        if !env.mkdirOk then Err(VideoDirFailed)
        else if !env.moveOk then Err(MoveFailed)
        else if Catalog.Has(rows, fileId) then Err(InsertFailed)
        else
          Ok(Catalog.AvailableFiles(fileId, FinalPath(cfg, fileId, s.filename), s.totalSize,
                                    meta.durationSeconds, now, meta.ffprobeData, 0, ""))
  }

  /** handleUploadComplete: the reply, the sessions and the catalog afterwards. */
  function Complete(sessions: map<string, UploadSession>, rows: seq<Catalog.AvailableFiles>, id: string,
                    closeOk: bool, cfg: UploadConfig, probe: ProbeRun, fileDigest: seq<byte>, env: StoreEnv,
                    now: int)
    : (out: (Result<string, UploadError>, map<string, UploadSession>, seq<Catalog.AvailableFiles>))
    requires |fileDigest| == 32
  {
    if id !in sessions then (Err(SessionNotFound), sessions, rows)
    else
      var s := sessions[id];
      if !closeOk then (Err(CloseFailed), sessions - {id}, rows)
      else if s.receivedSize != s.totalSize then
        (Err(SizeMismatch(s.totalSize, s.receivedSize)), sessions - {id}, rows)
      else
        match Validate(s, cfg, probe, fileDigest, env, rows, now)
        case Err(e) => (Err(ValidationFailed(e)), sessions - {id}, rows)
        case Ok(row) => (Ok(row.fileId), sessions - {id}, rows + [row])
  }

  /**
   * Complete never leaves the session open. It succeeds only when every declared byte arrived and
   * the video validated; the catalogued row is inactive, has a 16-character hex id and the
   * declared size, which is the number of bytes written. On failure the catalog is unchanged.
   */
  lemma CompleteEffect(sessions: map<string, UploadSession>, rows: seq<Catalog.AvailableFiles>, id: string,
                       closeOk: bool, cfg: UploadConfig, probe: ProbeRun, fileDigest: seq<byte>,
                       env: StoreEnv, now: int)
    requires |fileDigest| == 32
    requires Consistent(sessions)
    ensures var out := Complete(sessions, rows, id, closeOk, cfg, probe, fileDigest, env, now);
      out.1 == sessions - {id}
    ensures var out := Complete(sessions, rows, id, closeOk, cfg, probe, fileDigest, env, now);
      out.0.Ok? ==> (id in sessions && closeOk
                     && sessions[id].receivedSize == sessions[id].totalSize
                     && out.2 == rows + [out.2[|rows|]]
                     && out.2[|rows|].fileId == out.0.value
                     && |out.0.value| == 16 && IsLowerHex(out.0.value)
                     && out.2[|rows|].isActive == 0
                     && out.2[|rows|].fileSize == |sessions[id].data|
                     && GetVideoMetadata(probe).Ok?
                     && GetVideoMetadata(probe).value.width == cfg.requiredWidth
                     && GetVideoMetadata(probe).value.height == cfg.requiredHeight)
    ensures var out := Complete(sessions, rows, id, closeOk, cfg, probe, fileDigest, env, now);
      out.0.Err? ==> out.2 == rows
    ensures var out := Complete(sessions, rows, id, closeOk, cfg, probe, fileDigest, env, now);
      id in sessions && closeOk && sessions[id].receivedSize != sessions[id].totalSize ==>
        out.0 == Err(SizeMismatch(sessions[id].totalSize, sessions[id].receivedSize))
    ensures Catalog.UniqueIds(rows) ==>
      Catalog.UniqueIds(Complete(sessions, rows, id, closeOk, cfg, probe, fileDigest, env, now).2)
  {
  }

  /** The uploadSessions map. */
  class UploadSessions {
    var sessions: map<string, UploadSession>

    ghost predicate Valid()
      reads this
    {
      Consistent(sessions)
    }

    constructor ()
      ensures sessions == map[] && Valid()
    {
      sessions := map[];
    }

    method HandleUploadInit(cfg: UploadConfig, filename: string, fileSize: int, digest: seq<byte>, now: int,
                            env: InitEnv) returns (r: Result<string, UploadError>)
      requires Valid() && |digest| == 32
      modifies this
      ensures (r, sessions) == Init(old(sessions), cfg, filename, fileSize, digest, now, env)
      ensures Valid()
    {
      InitOpens(sessions, cfg, filename, fileSize, digest, now, env);
      if fileSize > MaxSizeBytes(cfg) {
        return Err(TooLarge);
      }
      var ext := NormalizedExt(filename);
      if ext !in cfg.allowedFormats {
        return Err(FormatNotAllowed(ext));
      }
      if !env.mkdirOk {
        return Err(UploadDirFailed);
      }
      var id := SessionIdOf(digest);
      if !env.createOk {
        return Err(TempFileFailed);
      }
      sessions := sessions[id := UploadSession(id, filename, fileSize, 0, [], JoinPath(cfg.uploadDir, id + ".tmp"), now, now)];
      r := Ok(id);
    }

    method HandleUploadChunk(id: string, decoded: Option<seq<byte>>, writeOk: bool, now: int)
      returns (r: Outcome<UploadError>)
      requires Valid()
      modifies this
      ensures (r, sessions) == Chunk(old(sessions), id, decoded, writeOk, now)
      ensures Valid()
    {
      ChunkEffect(sessions, id, decoded, writeOk, now);
      if id !in sessions {
        return Fail(SessionNotFound);
      }
      if decoded.None? {
        return Fail(DecodeFailed);
      }
      if !writeOk {
        CleanupUploadSession(id);
        return Fail(WriteFailed);
      }
      var s := sessions[id];
      sessions := sessions[id := s.(receivedSize := s.receivedSize + |decoded.value|,
                                    data := s.data + decoded.value, lastChunkTime := now)];
      r := Pass;
    }

    method HandleUploadComplete(catalog: Catalog.CatalogTable, id: string, closeOk: bool, cfg: UploadConfig,
                                probe: ProbeRun, fileDigest: seq<byte>, env: StoreEnv, now: int)
      returns (r: Result<string, UploadError>)
      requires Valid() && catalog.Valid() && |fileDigest| == 32
      modifies this, catalog
      ensures (r, sessions, catalog.rows)
           == Complete(old(sessions), old(catalog.rows), id, closeOk, cfg, probe, fileDigest, env, now)
      ensures Valid() && catalog.Valid()
    {
      if id !in sessions {
        return Err(SessionNotFound);
      }
      var s := sessions[id];
      if !closeOk {
        CleanupUploadSession(id);
        return Err(CloseFailed);
      }
      if s.receivedSize != s.totalSize {
        CleanupUploadSession(id);
        return Err(SizeMismatch(s.totalSize, s.receivedSize));
      }
      var v := Validate(s, cfg, probe, fileDigest, env, catalog.rows, now);
      if v.Err? {
        CleanupUploadSession(id);
        return Err(ValidationFailed(v.error));
      }
      catalog.Insert(v.value);
      sessions := sessions - {id};
      r := Ok(v.value.fileId);
    }

    /** cleanupUploadSession: the temporary file goes and the session is forgotten. */
    method CleanupUploadSession(id: string)
      requires Valid()
      modifies this
      ensures sessions == old(sessions) - {id}
      ensures Valid()
    {
      sessions := sessions - {id};
    }
  }
}
