/**
 * The playback coordinator of modules/streamer/player.go. One FFmpeg process chunks a byte
 * stream on stdin; the player loop takes the next unplayed queue row, records a history row,
 * hands the file to the feeder and waits for the feed to finish or a skip to arrive. The
 * subprocess, channels and timers are replaced by outcome parameters chosen by the caller:
 * StartOutcome for what the operating system did at start, FeedRace for which event playVideo
 * saw first, a read budget for the five-minute feed deadline.
 */
module Player {
  import opened Wrappers
  import opened Bytes
  import opened Host
  import opened VideoQueueRecord
  import opened PlayHistoryRecord
  import opened ScheduleRecord
  import Catalog
  import Queue
  import Scheduler

  /** Size of the buffer each read of the video file fills. */
  const ChunkSize: nat := 32 * 1024

  /** Reads that return data before the read that reports end of file. */
  function ChunkCount(len: nat): nat {
    (len + ChunkSize - 1) / ChunkSize
  }

  lemma ChunkCountBound(len: nat, k: nat)
    ensures k * ChunkSize >= len <==> k >= ChunkCount(len)
  {
  }

  datatype FeedError = NoSuchFile | FFmpegNotRunning | DeadlineExceeded | WriteFailed

  /**
   * How a feed of a file of len bytes ends once FFmpeg is up. The deadline is checked before
   * each read and `budget` chunks start before it passes; the write numbered writeFailsAt, if
   * any, fails. The file needs ChunkCount(len) data chunks and one more read that sees the end.
   */
  function FeedOutcome(len: nat, budget: nat, writeFailsAt: Option<nat>): (r: Outcome<FeedError>)
    ensures r.Pass? <==>
      budget > ChunkCount(len) && (writeFailsAt.None? || writeFailsAt.value >= ChunkCount(len))
    ensures r == Fail(WriteFailed) <==>
      writeFailsAt.Some? && writeFailsAt.value < ChunkCount(len) && writeFailsAt.value < budget
  {
    var n := ChunkCount(len);
    if writeFailsAt.Some? && writeFailsAt.value < n && writeFailsAt.value < budget then Fail(WriteFailed)
    else if budget <= n then Fail(DeadlineExceeded)
    else Pass
  }

  /** feedVideoToFFmpeg's result, including its checks before the copy. */
  function FeedResult(host: Host, path: string, ready: bool, budget: nat, writeFailsAt: Option<nat>)
    : (r: Outcome<FeedError>)
    ensures r.Pass? ==> host.Exists(path) && ready
    ensures !host.Exists(path) ==> r == Fail(NoSuchFile)
  {
    if !host.Exists(path) then Fail(NoSuchFile)
    else if !ready then Fail(FFmpegNotRunning)
    else FeedOutcome(|host.disk[path]|, budget, writeFailsAt)
  }

  datatype StartOutcome = MkdirFails | PipeFails | SpawnFails | Spawned

  datatype PlayerError =
    | AlreadyRunning | OutputDirFailed | FFmpegStartFailed
    | NotRunning | StopChannelClosedTwice
    | NothingPlaying | SkipTimeout

  /** Which event playVideo's select sees first. */
  datatype FeedRace =
    | FeederBusy                                             // the feed channel stays full for 5 s
    | SkipFirst(at: int, fed: nat)                           // a skip arrives at `at`, `fed` bytes in
    | FeedFirst(at: int, budget: nat, writeFailsAt: Option<nat>) // the feed ends at `at`

  datatype PlayError = FeederTimeout | Skipped | FeedFailed(error: FeedError)

  datatype AutoFillError = NoVideosAvailable | PopulateFailed | ScheduledFileMissing

  /**
   * What the feeder has written to FFmpeg when a skip is taken: at most `fed` leading bytes of
   * the file, or nothing when the file is missing or FFmpeg is not ready.
   */
  function SkippedFeed(host: Host, path: string, ready: bool, fed: nat): (r: seq<byte>)
    ensures host.Exists(path) && ready ==>
      |r| <= |host.disk[path]| && |r| <= fed && r == host.disk[path][..|r|]
    ensures host.Exists(path) && ready && fed >= |host.disk[path]| ==> r == host.disk[path]
    ensures !(host.Exists(path) && ready) ==> r == []
  {
    if host.Exists(path) && ready then
      var data := host.disk[path];
      data[..if fed < |data| then fed else |data|]
    else []
  }

  /** The bytes that reach FFmpeg's stdin while playVideo waits, by which event comes first. */
  ghost predicate FedToSink(before: seq<byte>, after: seq<byte>, host: Host, path: string, ready: bool,
                            race: FeedRace)
  {
    match race
    case FeederBusy => after == before
    case SkipFirst(_, fed) => after == before + SkippedFeed(host, path, ready, fed)
    case FeedFirst(_, budget, writeFailsAt) =>
      if FeedResult(host, path, ready, budget, writeFailsAt).Pass? then after == before + host.disk[path]
      else if host.Exists(path) then
        exists m :: 0 <= m <= |host.disk[path]| && after == before + host.disk[path][..m]
      else after == before
  }

  /** playVideo's result: a busy feeder times out, a skip is reported as an error, a feed ends as it ends. */
  function PlayResult(host: Host, path: string, ready: bool, race: FeedRace): (r: Outcome<PlayError>)
    ensures r.Pass? <==> race.FeedFirst? && FeedResult(host, path, ready, race.budget, race.writeFailsAt).Pass?
    ensures race.FeederBusy? ==> r == Fail(FeederTimeout)
    ensures race.SkipFirst? ==> r == Fail(Skipped)
    ensures race.FeedFirst? && r.Fail? ==>
      r == Fail(FeedFailed(FeedResult(host, path, ready, race.budget, race.writeFailsAt).error))
  {
    match race
    case FeederBusy => Fail(FeederTimeout)
    case SkipFirst(_, _) => Fail(Skipped)
    case FeedFirst(_, budget, writeFailsAt) =>
      var fr := FeedResult(host, path, ready, budget, writeFailsAt);
      if fr.Fail? then Fail(FeedFailed(fr.error)) else Pass
  }

  /**
   * The queue after one play of `video`: marked at the event on success; on a skip marked at the
   * event by playVideo and again by the loop's failure branch; otherwise marked by the loop.
   */
  function PlayedQueue(rows: seq<VideoQueue>, video: VideoQueue, race: FeedRace, res: Outcome<PlayError>,
                       recoveredAt: int): seq<VideoQueue>
  {
    if race.FeedFirst? && res.Pass? then Queue.WithPlayed(rows, video.MarkAsPlayed(race.at))
    else if race.SkipFirst? then
      Queue.WithPlayed(Queue.WithPlayed(rows, video.MarkAsPlayed(race.at)), video.MarkAsPlayed(recoveredAt))
    else Queue.WithPlayed(rows, video.MarkAsPlayed(recoveredAt))
  }

  /**
   * The history after one play that inserted `h`: finished at the event on success, skipped at
   * the event on a skip, and skipped by the loop's failure branch otherwise.
   */
  function PlayedHistory(rows: seq<PlayHistory>, h: PlayHistory, race: FeedRace, res: Outcome<PlayError>,
                         recoveredAt: int): seq<PlayHistory>
  {
    if race.FeedFirst? && res.Pass? then Queue.Finished(rows + [h], h.MarkAsFinished(race.at), false)
    else if race.SkipFirst? then Queue.Finished(rows + [h], h.MarkAsSkipped(race.at), true)
    else Queue.Finished(rows + [h], h.MarkAsSkipped(recoveredAt), true)
  }

  /** currentFile after one play: cleared by skip and success, left set (and marked) otherwise. */
  function PlayedCurrentFile(video: VideoQueue, race: FeedRace, res: Outcome<PlayError>, recoveredAt: int)
    : Option<VideoQueue>
  {
    if res.Pass? || race.SkipFirst? then None else Some(video.MarkAsPlayed(recoveredAt))
  }

  /** currentHistory after one play: cleared by skip and success, left set (and skipped) otherwise. */
  function PlayedCurrentHistory(h: PlayHistory, race: FeedRace, res: Outcome<PlayError>, recoveredAt: int)
    : Option<PlayHistory>
  {
    if res.Pass? || race.SkipFirst? then None else Some(h.MarkAsSkipped(recoveredAt))
  }

  /** What one pass of the player loop did. */
  datatype Step =
    | Exited
    | FillFailed(error: AutoFillError)
    | Filled
    | Played(videoId: nat, result: Outcome<PlayError>)

  /** A "currently playing" event sent to WebSocket clients. */
  datatype NowPlaying = NowPlaying(fileId: string, startedAt: int)

  datatype CurrentVideo = CurrentVideo(fileId: string, filePath: string, isAd: bool)
  datatype Playback = Playback(startedAt: int, durationSeconds: int)
  datatype Status = Status(
    running: bool,
    ffmpegRunning: bool,
    currentVideo: Option<CurrentVideo>,
    playback: Option<Playback>)

  /** The history row playVideo inserts when it begins a video. */
  function StartedRecord(video: VideoQueue, id: nat, now: int): (h: PlayHistory)
    ensures h.fileId == video.fileId && h.isAd == video.isAd && h.startedAt == now
    ensures h.skipRequested == 0 && h.id == id
  {
    PlayHistory(id, video.fileId, now, 0, 0, video.isAd, 0)
  }

  /**
   * The schedule autoFillQueueFromLibrary builds from the catalog listing: a row for each file
   * found on disk, at the position of the file's index in the listing.
   */
  function Populated(files: seq<Catalog.AvailableFiles>, host: Host, firstId: nat): (r: seq<Schedule>)
    ensures |r| <= |files|
    ensures forall i :: 0 <= i < |r| ==>
      0 <= r[i].position < |files| && r[i].isCurrent == 0 && r[i].id == firstId + i &&
      r[i].fileId == files[r[i].position].fileId && r[i].filePath == files[r[i].position].filePath &&
      host.Exists(r[i].filePath)
    ensures forall i, j :: 0 <= i < j < |r| ==> r[i].position < r[j].position
  {
    if files == [] then []
    else
      var k := |files| - 1;
      var r := Populated(files[..k], host, firstId);
      assert forall j :: 0 <= j < k ==> files[..k][j] == files[j];
      if host.Exists(files[k].filePath) then
        r + [Schedule(firstId + |r|, files[k].fileId, files[k].filePath, k, 0, host.now)]
      else r
  }

  predicate HasPosition(rows: seq<Schedule>, k: int) {
    exists i :: 0 <= i < |rows| && rows[i].position == k
  }

  /** Every file of the listing that exists on disk gets a row; so the schedule is empty only if none does. */
  lemma {:induction false} PopulatedCovers(files: seq<Catalog.AvailableFiles>, host: Host, firstId: nat)
    ensures forall k :: 0 <= k < |files| && host.Exists(files[k].filePath) ==>
      HasPosition(Populated(files, host, firstId), k)
    ensures Populated(files, host, firstId) == [] <==>
      forall k :: 0 <= k < |files| ==> !host.Exists(files[k].filePath)
  {
    if files != [] {
      var k := |files| - 1;
      var init := files[..k];
      PopulatedCovers(init, host, firstId);
      var r := Populated(init, host, firstId);
      var p := Populated(files, host, firstId);
      assert forall j :: 0 <= j < k ==> init[j] == files[j];
      forall j | 0 <= j < |files| && host.Exists(files[j].filePath)
        ensures HasPosition(p, j)
      {
        if j < k {
          var i :| 0 <= i < |r| && r[i].position == j;
          assert p[i] == r[i];
        } else {
          assert p[|r|].position == k;
        }
      }
      if p == [] {
        forall j | 0 <= j < |files| ensures !host.Exists(files[j].filePath) {
          assert !HasPosition(p, j);
        }
      }
    }
  }

  /** The queue row with this id is marked played. */
  predicate MarkedPlayed(rows: seq<VideoQueue>, id: nat) {
    exists i :: 0 <= i < |rows| && rows[i].id == id && rows[i].played == 1
  }

  /** The history row with this id has been finalised: its duration runs from start to finish. */
  predicate Finalised(rows: seq<PlayHistory>, id: nat, finishedAt: int) {
    exists i :: 0 <= i < |rows| && rows[i].id == id && rows[i].finishedAt == finishedAt &&
      rows[i].durationSeconds == rows[i].finishedAt - rows[i].startedAt
  }

  /**
   * When the history row of a play is finalised: at the event time for a skip or a completed
   * feed, otherwise when the player loop handles the failure.
   */
  function FinishTime(race: FeedRace, res: Outcome<PlayError>, recoveredAt: int): int {
    if race.FeederBusy? || (res.Fail? && !race.SkipFirst?) then recoveredAt else race.at
  }

  /** Marking a row that was unplayed: it is played afterwards and one fewer row is unplayed. */
  lemma MarkFirstTime(rows: seq<VideoQueue>, nextId: nat, video: VideoQueue, at: int)
    requires Queue.WellFormed(rows, nextId) && video in rows && video.played == 0
    ensures MarkedPlayed(Queue.WithPlayed(rows, video.MarkAsPlayed(at)), video.id)
    ensures Queue.NumUnplayed(Queue.WithPlayed(rows, video.MarkAsPlayed(at))) == Queue.NumUnplayed(rows) - 1
  {
    var k :| 0 <= k < |rows| && rows[k] == video;
    Queue.MarkPlayedShrinks(rows, video.MarkAsPlayed(at));
    assert Queue.WithPlayed(rows, video.MarkAsPlayed(at))[k].played == 1;
  }

  /** Marking it again, as the loop does after a skip, changes no count. */
  lemma MarkAgain(rows: seq<VideoQueue>, nextId: nat, video: VideoQueue, at: int, again: int)
    requires Queue.WellFormed(rows, nextId) && video in rows && video.played == 0
    ensures var once := Queue.WithPlayed(rows, video.MarkAsPlayed(at));
      var twice := Queue.WithPlayed(once, video.MarkAsPlayed(again));
      MarkedPlayed(twice, video.id) && Queue.NumUnplayed(twice) == Queue.NumUnplayed(rows) - 1
  {
    var k :| 0 <= k < |rows| && rows[k] == video;
    var once := Queue.WithPlayed(rows, video.MarkAsPlayed(at));
    MarkFirstTime(rows, nextId, video, at);
    Queue.MarkPlayedShrinks(once, video.MarkAsPlayed(again));
    assert Queue.WithPlayed(once, video.MarkAsPlayed(again))[k].played == 1;
  }

  /** Whatever one play ends with, its queue row is played and one fewer row is unplayed. */
  lemma PlayedQueueMarks(rows: seq<VideoQueue>, nextId: nat, video: VideoQueue, race: FeedRace,
                         res: Outcome<PlayError>, recoveredAt: int)
    requires Queue.WellFormed(rows, nextId) && video in rows && video.played == 0
    ensures MarkedPlayed(PlayedQueue(rows, video, race, res, recoveredAt), video.id)
    ensures Queue.NumUnplayed(PlayedQueue(rows, video, race, res, recoveredAt)) == Queue.NumUnplayed(rows) - 1
  {
    if race.FeedFirst? && res.Pass? {
      MarkFirstTime(rows, nextId, video, race.at);
    } else if race.SkipFirst? {
      MarkAgain(rows, nextId, video, race.at, recoveredAt);
    } else {
      MarkFirstTime(rows, nextId, video, recoveredAt);
    }
  }

  /** Whatever one play ends with, the history row it inserted is finalised at FinishTime. */
  lemma PlayedHistoryFinalised(rows: seq<PlayHistory>, h: PlayHistory, race: FeedRace,
                               res: Outcome<PlayError>, recoveredAt: int)
    ensures Finalised(PlayedHistory(rows, h, race, res, recoveredAt), h.id, FinishTime(race, res, recoveredAt))
  {
    var r := PlayedHistory(rows, h, race, res, recoveredAt);
    assert (rows + [h])[|rows|] == h;
    assert r[|rows|].id == h.id;
  }

  /**
   * What autoFillQueueFromLibrary does to the schedule (s0 before, s1 after) and the queue (q0
   * before, q1 after): an empty schedule is populated from the catalog listing `files` first,
   * failing when the catalog or the population is empty; then the schedule advances and the
   * file it lands on is appended to the queue as a non-ad when it is on disk.
   */
  ghost predicate Refilled(s0: seq<Schedule>, scheduleNextId: nat, files: seq<Catalog.AvailableFiles>, host: Host,
                           q0: seq<VideoQueue>, queueNextId: nat, s1: seq<Schedule>, q1: seq<VideoQueue>,
                           r: Outcome<AutoFillError>)
  {
    var base := if s0 == [] then Populated(files, host, scheduleNextId) else s0;
    && (s0 == [] && files == [] ==> r == Fail(NoVideosAvailable) && s1 == [] && q1 == q0)
    && (s0 == [] && files != [] && base == [] ==> r == Fail(PopulateFailed) && s1 == [] && q1 == q0)
    && (base != [] ==>
          var adv := Scheduler.Advance(base);
          && adv.0.Some?
          && s1 == adv.1
          && (host.Exists(adv.0.value.filePath) ==>
                r == Pass && q1 == Queue.Appended(q0, queueNextId, adv.0.value.fileId, adv.0.value.filePath, host.now, 0))
          && (!host.Exists(adv.0.value.filePath) ==> r == Fail(ScheduledFileMissing) && q1 == q0))
  }

  /** A successful auto-fill leaves an unplayed row, so the loop's next pass plays something. */
  lemma RefillGivesNext(s0: seq<Schedule>, scheduleNextId: nat, files: seq<Catalog.AvailableFiles>, host: Host,
                        q0: seq<VideoQueue>, queueNextId: nat, s1: seq<Schedule>, q1: seq<VideoQueue>)
    requires Refilled(s0, scheduleNextId, files, host, q0, queueNextId, s1, q1, Pass)
    ensures Queue.NextUnplayed(q1).Some?
    ensures Queue.NumUnplayed(q1) >= 1
  {
  }

  class PersistentPlayer {
    var running: bool
    var ffmpegRunning: bool
    /** stdin != nil: the pipe to FFmpeg has been created. */
    var hasStdin: bool
    /** stopChan has been closed by Stop. */
    var stopClosed: bool
    var currentFile: Option<VideoQueue>
    var currentHistory: Option<PlayHistory>
    var broadcasts: seq<NowPlaying>
    /** Every byte written to FFmpeg's stdin, in order. */
    var sink: seq<byte>

    constructor()
      ensures !running && !ffmpegRunning && !hasStdin && !stopClosed
      ensures currentFile.None? && currentHistory.None? && broadcasts == [] && sink == []
    {
      running, ffmpegRunning, hasStdin, stopClosed := false, false, false, false;
      currentFile, currentHistory := None, None;
      broadcasts, sink := [], [];
    }

    /**
     * Start: refuses when running; otherwise marks the player running before anything can
     * fail, so a failed start still leaves it running. FFmpeg counts as running from the
     * moment the pipes exist, before the process is spawned.
     */
    method Start(os: StartOutcome) returns (r: Outcome<PlayerError>)
      modifies this
      ensures old(running) ==> (r == Fail(AlreadyRunning) && running &&
        ffmpegRunning == old(ffmpegRunning) && hasStdin == old(hasStdin))
      ensures !old(running) ==> running && (r.Pass? <==> os == Spawned)
      ensures !old(running) && os == MkdirFails ==> r == Fail(OutputDirFailed)
      ensures !old(running) && (os == PipeFails || os == SpawnFails) ==> r == Fail(FFmpegStartFailed)
      ensures !old(running) && (os == SpawnFails || os == Spawned) ==> ffmpegRunning && hasStdin
      ensures !old(running) && (os == MkdirFails || os == PipeFails) ==>
        ffmpegRunning == old(ffmpegRunning) && hasStdin == old(hasStdin)
      ensures stopClosed == old(stopClosed) && currentFile == old(currentFile)
      ensures currentHistory == old(currentHistory) && sink == old(sink) && broadcasts == old(broadcasts)
    {
      if running {
        return Fail(AlreadyRunning);
      }
      running := true;
      if os == MkdirFails {
        return Fail(OutputDirFailed);
      }
      if os == PipeFails {
        return Fail(FFmpegStartFailed);
      }
      hasStdin := true;
      ffmpegRunning := true;
      if os == SpawnFails {
        return Fail(FFmpegStartFailed);
      }
      r := Pass;
    }

    /** The wait goroutine: FFmpeg has exited. */
    method OnFFmpegExit()
      modifies this
      ensures !ffmpegRunning
      ensures running == old(running) && hasStdin == old(hasStdin) && stopClosed == old(stopClosed)
      ensures currentFile == old(currentFile) && currentHistory == old(currentHistory)
      ensures sink == old(sink) && broadcasts == old(broadcasts)
    {
      ffmpegRunning := false;
    }

    /**
     * Stop: refuses when not running; otherwise clears running and closes the stop channel.
     * The channel is never re-created, so stopping a restarted player closes it a second
     * time, which panics in Go; that is reported here as StopChannelClosedTwice.
     */
    method Stop() returns (r: Outcome<PlayerError>)
      modifies this
      ensures !old(running) ==> r == Fail(NotRunning) && !running && stopClosed == old(stopClosed)
      ensures old(running) ==> !running && stopClosed
      ensures old(running) ==> (r == Fail(StopChannelClosedTwice) <==> old(stopClosed))
      ensures old(running) ==> (r.Pass? <==> !old(stopClosed))
      ensures ffmpegRunning == old(ffmpegRunning) && hasStdin == old(hasStdin)
      ensures currentFile == old(currentFile) && currentHistory == old(currentHistory)
      ensures sink == old(sink) && broadcasts == old(broadcasts)
    {
      if !running {
        return Fail(NotRunning);
      }
      running := false;
      if stopClosed {
        return Fail(StopChannelClosedTwice);
      }
      stopClosed := true;
      r := Pass;
    }

    /**
     * Skip: with nothing playing it fails and sends nothing; otherwise the signal is taken by
     * the waiting playVideo (delivered) or the one-second timeout passes.
     */
    method Skip(delivered: bool) returns (r: Outcome<PlayerError>)
      ensures currentFile.None? ==> r == Fail(NothingPlaying)
      ensures currentFile.Some? && delivered ==> r == Pass
      ensures currentFile.Some? && !delivered ==> r == Fail(SkipTimeout)
    {
      if currentFile.None? {
        return Fail(NothingPlaying);
      }
      r := if delivered then Pass else Fail(SkipTimeout);
    }

    /** GetStatus at time now. */
    function GetStatus(now: int): (s: Status)
      reads this
      ensures s.running == running && s.ffmpegRunning == ffmpegRunning
      ensures s.currentVideo.Some? <==> currentFile.Some?
      ensures currentFile.Some? ==> (s.currentVideo.value.fileId == currentFile.value.fileId &&
        (s.currentVideo.value.isAd <==> currentFile.value.isAd == 1))
      ensures s.playback.Some? <==> currentHistory.Some?
      ensures currentHistory.Some? ==>
        s.playback.value.durationSeconds == now - s.playback.value.startedAt &&
        s.playback.value.startedAt == currentHistory.value.startedAt
    {
      Status(
        running, ffmpegRunning,
        if currentFile.None? then None
        else Some(CurrentVideo(currentFile.value.fileId, currentFile.value.filePath, currentFile.value.isAd == 1)),
        if currentHistory.None? then None
        else Some(Playback(currentHistory.value.startedAt, now - currentHistory.value.startedAt)))
    }

    /**
     * feedVideoToFFmpeg: copies the file to FFmpeg's stdin in 32 KiB chunks. Success means
     * every byte of the file reached the sink, in order; on any failure the sink holds a
     * prefix of the file.
     */
    method FeedVideoToFFmpeg(path: string, host: Host, budget: nat, writeFailsAt: Option<nat>)
      returns (r: Outcome<FeedError>)
      modifies this
      ensures r == FeedResult(host, path, old(ffmpegRunning && hasStdin), budget, writeFailsAt)
      ensures r.Pass? ==> sink == old(sink) + host.disk[path]
      ensures host.Exists(path) ==>
        exists m :: 0 <= m <= |host.disk[path]| && sink == old(sink) + host.disk[path][..m]
      ensures !host.Exists(path) ==> sink == old(sink)
      ensures running == old(running) && ffmpegRunning == old(ffmpegRunning)
      ensures hasStdin == old(hasStdin) && stopClosed == old(stopClosed)
      ensures currentFile == old(currentFile) && currentHistory == old(currentHistory)
      ensures broadcasts == old(broadcasts)
    {
      if !host.Exists(path) {
        return Fail(NoSuchFile);
      }
      var data := host.disk[path];
      if !ffmpegRunning || !hasStdin {
        assert sink == old(sink) + data[..0];
        return Fail(FFmpegNotRunning);
      }
      var offset := 0;
      var chunks := 0;
      while offset < |data|
        invariant 0 <= offset <= |data|
        invariant offset == if chunks * ChunkSize < |data| then chunks * ChunkSize else |data|
        invariant chunks <= budget
        invariant chunks == 0 || (chunks - 1) * ChunkSize < |data|
        invariant writeFailsAt.None? || writeFailsAt.value >= chunks
        invariant sink == old(sink) + data[..offset]
        invariant running == old(running) && ffmpegRunning && hasStdin && stopClosed == old(stopClosed)
        invariant currentFile == old(currentFile) && currentHistory == old(currentHistory)
        invariant broadcasts == old(broadcasts) && old(ffmpegRunning && hasStdin)
        decreases |data| - offset
      {
        ChunkCountBound(|data|, chunks);
        if chunks >= budget {
          return Fail(DeadlineExceeded);
        }
        var n := if |data| - offset < ChunkSize then |data| - offset else ChunkSize;
        if writeFailsAt == Some(chunks) {
          return Fail(WriteFailed);
        }
        assert data[..offset + n] == data[..offset] + data[offset..offset + n];
        sink := sink + data[offset..offset + n];
        offset := offset + n;
        chunks := chunks + 1;
      }
      ChunkCountBound(|data|, chunks);
      if chunks > 0 {
        ChunkCountBound(|data|, chunks - 1);
      }
      assert data[..offset] == data;
      if chunks >= budget {
        return Fail(DeadlineExceeded);
      }
      r := Pass;
    }
  
    /** getNextVideo: the unplayed row first in (queue_position, id) order. */
    method GetNextVideo(queue: Queue.QueueTable) returns (next: Option<VideoQueue>)
      ensures next == Queue.NextUnplayed(queue.rows)
    {
      next := Queue.NextUnplayed(queue.rows);
    }

    /**
     * playVideo: records the start in history, publishes the video as current and waits for
     * whichever of feed end and skip comes first. Skip and success finalise the history row,
     * mark the queue row played and clear the current video; a feed error or a feeder that
     * does not accept the request returns with the current video still set. A skip does not
     * stop the feeder: by then it has written the part of the file `fed` names.
     */
    method PlayVideo(video: VideoQueue, queue: Queue.QueueTable, history: Queue.HistoryTable,
                     host: Host, race: FeedRace) returns (r: Outcome<PlayError>)
      requires queue.Valid() && history.Valid()
      modifies this, queue, history
      ensures queue.Valid() && history.Valid()
      ensures history.nextId == old(history.nextId) + 1 && queue.nextId == old(queue.nextId)
      ensures broadcasts == old(broadcasts) + [NowPlaying(video.fileId, host.now)]
      ensures running == old(running) && ffmpegRunning == old(ffmpegRunning)
      ensures hasStdin == old(hasStdin) && stopClosed == old(stopClosed)
      ensures r == PlayResult(host, video.filePath, old(ffmpegRunning && hasStdin), race)
      ensures FedToSink(old(sink), sink, host, video.filePath, old(ffmpegRunning && hasStdin), race)
      ensures var h := StartedRecord(video, old(history.nextId), host.now);
        race.SkipFirst? || r.Pass? ==>
          && queue.rows == Queue.WithPlayed(old(queue.rows), video.MarkAsPlayed(race.at))
          && history.rows == (if r.Pass? then Queue.Finished(old(history.rows) + [h], h.MarkAsFinished(race.at), false)
                              else Queue.Finished(old(history.rows) + [h], h.MarkAsSkipped(race.at), true))
          && currentFile.None? && currentHistory.None?
      ensures var h := StartedRecord(video, old(history.nextId), host.now);
        !(race.SkipFirst? || r.Pass?) ==>
          && queue.rows == old(queue.rows) && history.rows == old(history.rows) + [h]
          && currentFile == Some(video) && currentHistory == Some(h)
      ensures race.SkipFirst? || r.Pass? ==> Finalised(history.rows, old(history.nextId), race.at)
    {
      var h := history.Insert(StartedRecord(video, 0, host.now));
      currentFile, currentHistory := Some(video), Some(h);
      broadcasts := broadcasts + [NowPlaying(video.fileId, host.now)];
      match race {
        case FeederBusy =>
          r := Fail(FeederTimeout);
        case SkipFirst(at, fed) =>
          sink := sink + SkippedFeed(host, video.filePath, ffmpegRunning && hasStdin, fed);
          history.UpdateFinished(h.MarkAsSkipped(at), true);
          assert history.rows[|history.rows| - 1].id == h.id;
          queue.UpdatePlayed(video.MarkAsPlayed(at));
          currentFile, currentHistory := None, None;
          r := Fail(Skipped);
        case FeedFirst(at, budget, writeFailsAt) =>
          var fr := FeedVideoToFFmpeg(video.filePath, host, budget, writeFailsAt);
          if fr.Fail? {
            return Fail(FeedFailed(fr.error));
          }
          history.UpdateFinished(h.MarkAsFinished(at), false);
          assert history.rows[|history.rows| - 1].id == h.id;
          queue.UpdatePlayed(video.MarkAsPlayed(at));
          currentFile, currentHistory := None, None;
          r := Pass;
      }
    }

    /**
     * autoFillQueueFromLibrary: advances the schedule and queues the file it lands on. An empty
     * schedule is first populated from the catalog, one row per file still on disk at the
     * file's index in the listing.
     */
    method AutoFillQueueFromLibrary(catalog: Catalog.CatalogTable, schedule: Scheduler.ScheduleTable,
                                    queue: Queue.QueueTable, host: Host) returns (r: Outcome<AutoFillError>)
      requires schedule.Valid() && queue.Valid()
      modifies schedule, queue
      ensures schedule.Valid() && queue.Valid()
      ensures Refilled(old(schedule.rows), old(schedule.nextId), catalog.rows, host, old(queue.rows),
                       old(queue.nextId), schedule.rows, queue.rows, r)
    {
      var item := schedule.GetNextFromSchedule();
      if item.None? {
        var files := catalog.rows;
        if |files| == 0 {
          return Fail(NoVideosAvailable);
        }
        var successCount := PopulateSchedule(files, schedule, host);
        if successCount == 0 {
          return Fail(PopulateFailed);
        }
        item := schedule.GetNextFromSchedule();
      }
      var scheduled := item.value;
      if !host.Exists(scheduled.filePath) {
        return Fail(ScheduledFileMissing);
      }
      queue.Append(scheduled.fileId, scheduled.filePath, host.now, 0);
      r := Pass;
    }

    /**
     * The populating loop of autoFillQueueFromLibrary: one schedule row per listed file found on
     * disk, positioned at the file's index; returns how many rows it added.
     */
    method PopulateSchedule(files: seq<Catalog.AvailableFiles>, schedule: Scheduler.ScheduleTable, host: Host)
      returns (successCount: nat)
      requires schedule.Valid() && schedule.rows == []
      modifies schedule
      ensures schedule.Valid()
      ensures schedule.rows == Populated(files, host, old(schedule.nextId))
      ensures successCount == |schedule.rows|
    {
      var firstId := schedule.nextId;
      successCount := 0;
      var i := 0;
      while i < |files|
        invariant 0 <= i <= |files|
        invariant schedule.Valid()
        invariant schedule.rows == Populated(files[..i], host, firstId)
        invariant schedule.nextId == firstId + |schedule.rows| && successCount == |schedule.rows|
      {
        assert files[..i + 1][..i] == files[..i];
        if host.Exists(files[i].filePath) {
          schedule.InsertRow(files[i].fileId, files[i].filePath, i, host.now);
          successCount := successCount + 1;
        }
        i := i + 1;
      }
      assert files[..i] == files;
    }

    /**
     * The loop body once a row has been taken: play it and, when playing fails, run the
     * failure branch, which finalises a still-current history row as skipped and marks the row
     * played. Whatever happens, the row ends played and its history row finalised.
     */
    method PlayNext(video: VideoQueue, queue: Queue.QueueTable, history: Queue.HistoryTable,
                    host: Host, race: FeedRace, recoveredAt: int) returns (res: Outcome<PlayError>)
      requires queue.Valid() && history.Valid()
      requires video in queue.rows && video.played == 0
      modifies this, queue, history
      ensures queue.Valid() && history.Valid()
      ensures res == PlayResult(host, video.filePath, old(ffmpegRunning && hasStdin), race)
      ensures queue.rows == PlayedQueue(old(queue.rows), video, race, res, recoveredAt)
      ensures var h := StartedRecord(video, old(history.nextId), host.now);
        history.rows == PlayedHistory(old(history.rows), h, race, res, recoveredAt)
        && currentHistory == PlayedCurrentHistory(h, race, res, recoveredAt)
      ensures currentFile == PlayedCurrentFile(video, race, res, recoveredAt)
      ensures queue.nextId == old(queue.nextId) && history.nextId == old(history.nextId) + 1
      ensures broadcasts == old(broadcasts) + [NowPlaying(video.fileId, host.now)]
      ensures FedToSink(old(sink), sink, host, video.filePath, old(ffmpegRunning && hasStdin), race)
      ensures running == old(running) && ffmpegRunning == old(ffmpegRunning)
      ensures hasStdin == old(hasStdin) && stopClosed == old(stopClosed)
      ensures MarkedPlayed(queue.rows, video.id)
      ensures Queue.NumUnplayed(queue.rows) == Queue.NumUnplayed(old(queue.rows)) - 1
      ensures Finalised(history.rows, old(history.nextId), FinishTime(race, res, recoveredAt))
    {
      ghost var before := queue.rows;
      ghost var hist := history.rows;
      ghost var h := StartedRecord(video, history.nextId, host.now);
      res := PlayVideo(video, queue, history, host, race);
      if res.Fail? {
        RecoverFromFailure(video, queue, history, recoveredAt);
      }
      PlayedQueueMarks(before, queue.nextId, video, race, res, recoveredAt);
      PlayedHistoryFinalised(hist, h, race, res, recoveredAt);
    }

    /**
     * The failure branch of the loop: the current history row, if any, is marked skipped and
     * written back, and the queue row is marked played.
     */
    method RecoverFromFailure(video: VideoQueue, queue: Queue.QueueTable, history: Queue.HistoryTable,
                              recoveredAt: int)
      requires queue.Valid() && history.Valid()
      modifies this, queue, history
      ensures queue.Valid() && history.Valid()
      ensures queue.rows == Queue.WithPlayed(old(queue.rows), video.MarkAsPlayed(recoveredAt))
      ensures old(currentHistory).None? ==> history.rows == old(history.rows) && currentHistory.None?
      ensures old(currentHistory).Some? ==>
        var finished := old(currentHistory).value.MarkAsSkipped(recoveredAt);
        history.rows == Queue.Finished(old(history.rows), finished, true) && currentHistory == Some(finished)
      ensures old(currentFile).None? ==> currentFile.None?
      ensures old(currentFile).Some? ==> currentFile == Some(video.MarkAsPlayed(recoveredAt))
      ensures queue.nextId == old(queue.nextId) && history.nextId == old(history.nextId)
      ensures running == old(running) && ffmpegRunning == old(ffmpegRunning)
      ensures hasStdin == old(hasStdin) && stopClosed == old(stopClosed)
      ensures broadcasts == old(broadcasts) && sink == old(sink)
    {
      if currentHistory.Some? {
        var finished := currentHistory.value.MarkAsSkipped(recoveredAt);
        history.UpdateFinished(finished, true);
        currentHistory := Some(finished);
      }
      var played := video.MarkAsPlayed(recoveredAt);
      queue.UpdatePlayed(played);
      // currentFile, when still set, is the same record as video, so it shows the mark too.
      if currentFile.Some? {
        currentFile := Some(played);
      }
    }

    /**
     * One pass of the videoPlayer loop. Whatever playVideo returns, the row it was given ends
     * marked played, so the unplayed count drops by one and the same row is never taken again.
     * When playVideo fails with a history row still current, that row is finalised as skipped.
     */
    method LoopIteration(catalog: Catalog.CatalogTable, schedule: Scheduler.ScheduleTable,
                         queue: Queue.QueueTable, history: Queue.HistoryTable, host: Host,
                         race: FeedRace, recoveredAt: int) returns (step: Step)
      requires schedule.Valid() && queue.Valid() && history.Valid()
      modifies this, schedule, queue, history
      ensures schedule.Valid() && queue.Valid() && history.Valid()
      ensures running == old(running) && ffmpegRunning == old(ffmpegRunning)
      ensures hasStdin == old(hasStdin) && stopClosed == old(stopClosed)
      ensures old(stopClosed) ==> (step == Exited && queue.rows == old(queue.rows) &&
        history.rows == old(history.rows) && schedule.rows == old(schedule.rows))
      ensures !step.Played? ==>
        && history.rows == old(history.rows) && history.nextId == old(history.nextId)
        && currentFile == old(currentFile) && currentHistory == old(currentHistory)
        && broadcasts == old(broadcasts) && sink == old(sink)
      ensures !old(stopClosed) && Queue.NextUnplayed(old(queue.rows)).None? ==>
        && (step == Filled || step.FillFailed?)
        && Refilled(old(schedule.rows), old(schedule.nextId), catalog.rows, host, old(queue.rows),
                    old(queue.nextId), schedule.rows, queue.rows, if step == Filled then Pass else Fail(step.error))
      ensures !old(stopClosed) ==> (step.Played? <==> Queue.NextUnplayed(old(queue.rows)).Some?)
      ensures step.Played? ==>
        var v := Queue.NextUnplayed(old(queue.rows)).value;
        var h := StartedRecord(v, old(history.nextId), host.now);
        && step.videoId == v.id
        && step.result == PlayResult(host, v.filePath, old(ffmpegRunning && hasStdin), race)
        && schedule.rows == old(schedule.rows)
        && queue.rows == PlayedQueue(old(queue.rows), v, race, step.result, recoveredAt)
        && history.rows == PlayedHistory(old(history.rows), h, race, step.result, recoveredAt)
        && currentFile == PlayedCurrentFile(v, race, step.result, recoveredAt)
        && currentHistory == PlayedCurrentHistory(h, race, step.result, recoveredAt)
        && broadcasts == old(broadcasts) + [NowPlaying(v.fileId, host.now)]
        && FedToSink(old(sink), sink, host, v.filePath, old(ffmpegRunning && hasStdin), race)
      ensures step.Played? ==>
        && MarkedPlayed(queue.rows, step.videoId)
        && Queue.NumUnplayed(queue.rows) == Queue.NumUnplayed(old(queue.rows)) - 1
      ensures step.Played? ==> Finalised(history.rows, old(history.nextId),
        FinishTime(race, step.result, recoveredAt))
    {
      if stopClosed {
        return Exited;
      }
      var next := GetNextVideo(queue);
      if next.None? {
        var filled := AutoFillQueueFromLibrary(catalog, schedule, queue, host);
        if filled.Fail? {
          return FillFailed(filled.error);
        }
        return Filled;
      }
      var video := next.value;
      var res := PlayNext(video, queue, history, host, race, recoveredAt);
      step := Played(video.id, res);
    }
  }
}
