/** Wall-clock instants, as Go's time.Time at second resolution. */
module Clock {

  datatype Instant = Instant(unixSeconds: int, nanos: int)
}

/** The schedule row of models/schedule.go and its field setters. */
module ScheduleRecord {
  import opened Clock

  datatype Schedule = Schedule(
    id: nat,
    fileId: string,
    filePath: string,
    position: int,
    isCurrent: int,
    addedAt: int)
  {
    /** Agrees with `other` on every column except is_current. */
    predicate SameExceptCurrent(other: Schedule) {
      id == other.id && fileId == other.fileId && filePath == other.filePath &&
      position == other.position && addedAt == other.addedAt
    }

    function MarkAsCurrent(): (r: Schedule)
      ensures r.isCurrent == 1
      ensures r.SameExceptCurrent(this)
    {
      this.(isCurrent := 1)
    }

    function UnmarkAsCurrent(): (r: Schedule)
      ensures r.isCurrent == 0
      ensures r.SameExceptCurrent(this)
    {
      this.(isCurrent := 0)
    }

    /** time.Unix(AddedAt, 0). */
    function GetAddedTime(): (t: Instant)
      ensures t.unixSeconds == addedAt && t.nanos == 0
    {
      Instant(addedAt, 0)
    }
  }

  /** Marking twice is marking once, and unmarking undoes marking of an unmarked row. */
  lemma MarkIdempotent(s: Schedule)
    ensures s.MarkAsCurrent().MarkAsCurrent() == s.MarkAsCurrent()
    ensures s.UnmarkAsCurrent().UnmarkAsCurrent() == s.UnmarkAsCurrent()
    ensures s.isCurrent == 0 ==> s.MarkAsCurrent().UnmarkAsCurrent() == s
  {
  }
}

/**
 * The queue row of models/video_queue.go, plus the file path that the player and the queue code
 * set on it and read back to find the file; the struct itself declares no such column.
 */
module VideoQueueRecord {

  datatype VideoQueue = VideoQueue(
    id: nat,
    fileId: string,
    filePath: string,
    addedAt: int,
    played: int,
    playedAt: int,
    position: int,
    isAd: int)
  {
    predicate IsPlayed() {
      played == 1
    }

    /** Agrees with `other` on every column except played and played_at. */
    predicate SameExceptPlayed(other: VideoQueue) {
      id == other.id && fileId == other.fileId && filePath == other.filePath &&
      addedAt == other.addedAt && position == other.position && isAd == other.isAd
    }

    /** Sets played=1 and played_at to the current time. */
    function MarkAsPlayed(now: int): (r: VideoQueue)
      ensures r.IsPlayed() && r.playedAt == now
      ensures r.SameExceptPlayed(this)
    {
      this.(played := 1, playedAt := now)
    }
  }
}

/**
 * The history row of models/play_history.go. The Filename and FilePath that the player sets when
 * it inserts a row are not columns of that struct and are not modelled.
 */
module PlayHistoryRecord {

  datatype PlayHistory = PlayHistory(
    id: nat,
    fileId: string,
    startedAt: int,
    finishedAt: int,
    durationSeconds: int,
    isAd: int,
    skipRequested: int)
  {
    /** Sets finished_at to now and duration_seconds to the time since started_at. */
    function MarkAsFinished(now: int): (r: PlayHistory)
      ensures r.finishedAt == now && r.durationSeconds == r.finishedAt - r.startedAt
      ensures r.skipRequested == skipRequested
      ensures r.id == id && r.fileId == fileId && r.startedAt == startedAt && r.isAd == isAd
    {
      this.(finishedAt := now, durationSeconds := now - startedAt)
    }

    /** Sets skip_requested and then finishes the record. */
    function MarkAsSkipped(now: int): (r: PlayHistory)
      ensures r.skipRequested == 1
      ensures r.finishedAt == now && r.durationSeconds == r.finishedAt - r.startedAt
      ensures r.id == id && r.fileId == fileId && r.startedAt == startedAt && r.isAd == isAd
    {
      this.(skipRequested := 1).MarkAsFinished(now)
    }
  }

  /** A record finished no earlier than it started has a non-negative duration. */
  lemma DurationNonNegative(h: PlayHistory, now: int)
    requires now >= h.startedAt
    ensures h.MarkAsFinished(now).durationSeconds >= 0
    ensures h.MarkAsSkipped(now).durationSeconds >= 0
  {
  }
}
