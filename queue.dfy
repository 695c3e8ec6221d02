/**
 * The play queue (table video_queue) and the play history (table play_history) of
 * modules/streamer/queue.go. Queue rows are played in (queue_position, id) order among the
 * rows with played = 0; ordinary adds go after every existing row, ads go to position 0.
 */
module Queue {
  import opened Wrappers
  import opened FilePaths
  import opened Host
  import opened Ordering
  import Catalog
  import opened VideoQueueRecord
  import opened PlayHistoryRecord

  datatype QueueError = FileDoesNotExist | NotCatalogued

  /** Autoincrement ids in insertion order, played either 0 or 1, positions never negative. */
  predicate WellFormed(rows: seq<VideoQueue>, nextId: nat) {
    && nextId >= 1
    && (forall i, j :: 0 <= i < j < |rows| ==> rows[i].id < rows[j].id)
    && (forall i :: 0 <= i < |rows| ==>
          1 <= rows[i].id < nextId && rows[i].position >= 0 &&
          (rows[i].played == 0 || rows[i].played == 1))
  }

  /** SELECT COALESCE(MAX(queue_position), 0): over every row, played ones included. */
  function MaxPosition(rows: seq<VideoQueue>): (m: int)
    ensures forall i :: 0 <= i < |rows| ==> rows[i].position <= m
    ensures rows == [] ==> m == 0
    ensures rows != [] ==> exists i :: 0 <= i < |rows| && rows[i].position == m
  {
    if rows == [] then 0
    else if |rows| == 1 then rows[0].position
    else
      var m := MaxPosition(rows[..|rows| - 1]);
      var last := rows[|rows| - 1].position;
      if last > m then last else m
  }

  /** A freshly inserted row: not played yet. */
  function NewItem(id: nat, fileId: string, path: string, now: int, position: int, isAd: int)
    : (v: VideoQueue)
    ensures !v.IsPlayed() && v.played == 0
  {
    VideoQueue(id, fileId, path, now, 0, 0, position, isAd)
  }

  /**
   * The path AddToQueue and InjectAd go on with: the normalised path, when it exists on disk
   * and its id is catalogued.
   */
  function CataloguedPath(catalog: seq<Catalog.AvailableFiles>, filePath: string, host: Host)
    : (r: Result<string, QueueError>)
    ensures var p := Catalog.NormalizeFilePath(filePath, host.cwd);
      && (r == Err(FileDoesNotExist) <==> !host.Exists(p))
      && (r == Err(NotCatalogued) <==> host.Exists(p) && !Catalog.Has(catalog, host.md5Hex(p)))
      && (r.Ok? <==> host.Exists(p) && Catalog.Has(catalog, host.md5Hex(p)))
      && (r.Ok? ==> r.value == p)
  {
    var p := Catalog.NormalizeFilePath(filePath, host.cwd);
    if !host.Exists(p) then Err(FileDoesNotExist)
    else if !Catalog.Has(catalog, host.md5Hex(p)) then Err(NotCatalogued)
    else Ok(p)
  }

  /** The queue after an ordinary add: one new unplayed row behind every existing row. */
  function Appended(rows: seq<VideoQueue>, nextId: nat, fileId: string, path: string, now: int, isAd: int)
    : (r: seq<VideoQueue>)
    ensures |r| == |rows| + 1 && r[..|rows|] == rows
    ensures r[|rows|] == NewItem(nextId, fileId, path, now, MaxPosition(rows) + 1, isAd)
    ensures rows == [] ==> r[0].position == 1
    ensures forall i :: 0 <= i < |rows| ==> rows[i].position < r[|rows|].position
    ensures WellFormed(rows, nextId) ==> WellFormed(r, nextId + 1)
  {
    rows + [NewItem(nextId, fileId, path, now, MaxPosition(rows) + 1, isAd)]
  }

  /** UPDATE video_queue SET queue_position = queue_position + 1 WHERE played = 0. */
  function ShiftUnplayed(rows: seq<VideoQueue>): (r: seq<VideoQueue>)
    ensures |r| == |rows|
    ensures forall i :: 0 <= i < |rows| ==>
      r[i] == (if rows[i].played == 0 then rows[i].(position := rows[i].position + 1) else rows[i])
  {
    seq(|rows|, i requires 0 <= i < |rows| =>
      if rows[i].played == 0 then rows[i].(position := rows[i].position + 1) else rows[i])
  }

  /** The queue after InjectAd: unplayed rows move back by one and the ad takes position 0. */
  function Injected(rows: seq<VideoQueue>, nextId: nat, fileId: string, path: string, now: int)
    : (r: seq<VideoQueue>)
    ensures |r| == |rows| + 1 && r[..|rows|] == ShiftUnplayed(rows)
    ensures r[|rows|] == NewItem(nextId, fileId, path, now, 0, 1)
    ensures WellFormed(rows, nextId) ==> WellFormed(r, nextId + 1)
  {
    ShiftUnplayed(rows) + [NewItem(nextId, fileId, path, now, 0, 1)]
  }

  /** ORDER BY queue_position ASC, id ASC. */
  function QueueOrder(v: VideoQueue): Key {
    Key(v.position, v.id)
  }

  /** getNextVideo: the unplayed row first in queue order, if there is one. */
  function NextUnplayed(rows: seq<VideoQueue>): (r: Option<VideoQueue>)
    ensures r.None? <==> forall i :: 0 <= i < |rows| ==> rows[i].played != 0
    ensures r.Some? ==> r.value in rows && r.value.played == 0
    ensures r.Some? ==> forall i :: 0 <= i < |rows| && rows[i].played == 0 ==>
      KeyLe(QueueOrder(r.value), QueueOrder(rows[i]))
  {
    if rows == [] then None
    else
      var rest := NextUnplayed(rows[1..]);
      assert forall i :: 1 <= i < |rows| ==> rows[i] == rows[1..][i - 1];
      if rows[0].played != 0 then rest
      else if rest.None? || KeyLe(QueueOrder(rows[0]), QueueOrder(rest.value)) then Some(rows[0])
      else rest
  }

  /** Once injected, the ad is the next row getNextVideo returns. */
  lemma InjectedAdPlaysNext(rows: seq<VideoQueue>, nextId: nat, fileId: string, path: string, now: int)
    requires WellFormed(rows, nextId)
    ensures NextUnplayed(Injected(rows, nextId, fileId, path, now))
      == Some(NewItem(nextId, fileId, path, now, 0, 1))
  {
    var r := Injected(rows, nextId, fileId, path, now);
    var ad := r[|rows|];
    var n := NextUnplayed(r);
    assert ad.played == 0;
    assert KeyLe(QueueOrder(n.value), QueueOrder(ad));
    var k :| 0 <= k < |r| && r[k] == n.value;
  }

  /** The rows with played = 0, as countUnplayed counts them. */
  function NumUnplayed(rows: seq<VideoQueue>): (n: nat)
    ensures n <= |rows|
    ensures n == 0 <==> forall i :: 0 <= i < |rows| ==> rows[i].played != 0
  {
    if rows == [] then 0
    else (if rows[0].played == 0 then 1 else 0) + NumUnplayed(rows[1..])
  }

  function NumPlayed(rows: seq<VideoQueue>): (n: nat)
    ensures n <= |rows|
  {
    if rows == [] then 0
    else (if rows[0].played == 1 then 1 else 0) + NumPlayed(rows[1..])
  }

  /** DELETE FROM video_queue WHERE played = 1: every other row stays, in order. */
  function WithoutPlayed(rows: seq<VideoQueue>): (r: seq<VideoQueue>)
    ensures forall v :: v in r <==> v in rows && v.played != 1
    ensures |r| + NumPlayed(rows) == |rows|
    ensures NumPlayed(r) == 0
    ensures NumUnplayed(r) == NumUnplayed(rows)
  {
    if rows == [] then []
    else
      var rest := WithoutPlayed(rows[1..]);
      assert forall v :: v in rows <==> v == rows[0] || v in rows[1..];
      if rows[0].played == 1 then rest
      else
        assert ([rows[0]] + rest)[1..] == rest;
        [rows[0]] + rest
  }

  /** Clearing twice deletes nothing the second time. */
  lemma {:induction false} ClearPlayedTwice(rows: seq<VideoQueue>)
    ensures WithoutPlayed(WithoutPlayed(rows)) == WithoutPlayed(rows)
  {
    var r := WithoutPlayed(rows);
    WithoutPlayedNone(r);
  }

  lemma {:induction false} WithoutPlayedNone(rows: seq<VideoQueue>)
    requires NumPlayed(rows) == 0
    ensures WithoutPlayed(rows) == rows
  {
    if rows != [] {
      WithoutPlayedNone(rows[1..]);
      assert [rows[0]] + rows[1..] == rows;
    }
  }

  /** Clearing keeps the table well formed. */
  lemma WithoutPlayedWellFormed(rows: seq<VideoQueue>, nextId: nat)
    requires WellFormed(rows, nextId)
    ensures WellFormed(WithoutPlayed(rows), nextId)
  {
    var r := WithoutPlayed(rows);
    SubsequenceOrdered(rows, r);
  }

  /** WithoutPlayed keeps rows in their original relative order. */
  lemma {:induction false} SubsequenceOrdered(rows: seq<VideoQueue>, r: seq<VideoQueue>)
    requires r == WithoutPlayed(rows)
    requires forall i, j :: 0 <= i < j < |rows| ==> rows[i].id < rows[j].id
    ensures forall i, j :: 0 <= i < j < |r| ==> r[i].id < r[j].id
  {
    if rows != [] {
      var rest := WithoutPlayed(rows[1..]);
      SubsequenceOrdered(rows[1..], rest);
      if rows[0].played != 1 {
        forall j | 0 <= j < |rest| ensures rows[0].id < rest[j].id {
          assert rest[j] in rows[1..];
        }
      }
    }
  }

  /** Writes back the played and played_at columns of v to the row with v's id. */
  function WithPlayed(rows: seq<VideoQueue>, v: VideoQueue): (r: seq<VideoQueue>)
    ensures |r| == |rows|
    ensures forall i :: 0 <= i < |rows| ==>
      r[i] == (if rows[i].id == v.id then rows[i].(played := v.played, playedAt := v.playedAt) else rows[i])
  {
    seq(|rows|, i requires 0 <= i < |rows| =>
      if rows[i].id == v.id then rows[i].(played := v.played, playedAt := v.playedAt) else rows[i])
  }

  /**
   * Marking an unplayed row as played removes exactly one row from the unplayed count; this
   * is what stops the player from taking the same row forever.
   */
  lemma {:induction false} MarkPlayedShrinks(rows: seq<VideoQueue>, v: VideoQueue)
    requires forall i, j :: 0 <= i < j < |rows| ==> rows[i].id != rows[j].id
    requires v.played == 1
    ensures (exists i :: 0 <= i < |rows| && rows[i].id == v.id && rows[i].played == 0) ==>
      NumUnplayed(WithPlayed(rows, v)) == NumUnplayed(rows) - 1
    ensures (forall i :: 0 <= i < |rows| && rows[i].id == v.id ==> rows[i].played != 0) ==>
      NumUnplayed(WithPlayed(rows, v)) == NumUnplayed(rows)
  {
    if rows != [] {
      MarkPlayedShrinks(rows[1..], v);
      assert WithPlayed(rows, v)[1..] == WithPlayed(rows[1..], v);
      if rows[0].id == v.id {
        assert forall i :: 1 <= i < |rows| ==> rows[i].id != v.id;
        NotThereUnchanged(rows[1..], v);
      }
    }
  }

  lemma {:induction false} NotThereUnchanged(rows: seq<VideoQueue>, v: VideoQueue)
    requires forall i :: 0 <= i < |rows| ==> rows[i].id != v.id
    ensures WithPlayed(rows, v) == rows
  {
  }

  /** countUnplayed: the rows still to play. */
  method CountUnplayed(queue: seq<VideoQueue>) returns (count: nat)
    ensures count == NumUnplayed(queue)
  {
    count := 0;
    var i := 0;
    while i < |queue|
      invariant 0 <= i <= |queue|
      invariant count + NumUnplayed(queue[i..]) == NumUnplayed(queue)
    {
      assert queue[i..][1..] == queue[i + 1..];
      if queue[i].played == 0 {
        count := count + 1;
      }
      i := i + 1;
    }
  }

  /** GetQueue: every row in (queue_position, id) order. */
  function Listing(rows: seq<VideoQueue>): (r: seq<VideoQueue>)
    ensures multiset(r) == multiset(rows)
    ensures forall i, j :: 0 <= i < j < |r| ==>
      r[i].position < r[j].position || (r[i].position == r[j].position && r[i].id <= r[j].id)
  {
    var r := SortBy(rows, QueueOrder);
    assert forall i, j :: 0 <= i < j < |r| ==> KeyLe(QueueOrder(r[i]), QueueOrder(r[j]));
    r
  }

  /** The default extension list of ScanAndAddVideos. */
  const DefaultExtensions: seq<string> := [".ts", ".mp4", ".mkv", ".avi", ".mov"]

  /** A nil or empty extension list means the defaults. */
  function EffectiveExtensions(extensions: seq<string>): (r: seq<string>)
    ensures extensions == [] ==> r == DefaultExtensions
    ensures extensions != [] ==> r == extensions
  {
    if extensions == [] then DefaultExtensions else extensions
  }

  /** One entry reported by filepath.Walk: a path, whether it is a directory, whether its Lstat failed. */
  datatype WalkEntry = WalkEntry(path: string, isDir: bool, failed: bool)

  /** A walk entry ScanAndAddVideos tries to add: a file whose Ext is exactly one of the extensions. */
  predicate Candidate(e: WalkEntry, extensions: seq<string>) {
    !e.failed && !e.isDir && Ext(e.path) in EffectiveExtensions(extensions)
  }

  /**
   * The entries that end up in the queue: candidates whose normalised path exists. Such a
   * path is catalogued by AddToAvailableFiles (or already was), so AddToQueue then succeeds.
   */
  function Queued(entries: seq<WalkEntry>, extensions: seq<string>, host: Host): (n: nat)
    ensures n <= |entries|
  {
    CountTrue(QueueFlags(entries, extensions, host))
  }

  /** For each walk entry, whether the scan queues it. */
  function QueueFlags(entries: seq<WalkEntry>, extensions: seq<string>, host: Host): (f: seq<bool>)
    ensures |f| == |entries|
    ensures forall i :: 0 <= i < |entries| ==> f[i] == Queueable(entries[i], extensions, host)
  {
    seq(|entries|, i requires 0 <= i < |entries| => Queueable(entries[i], extensions, host))
  }

  /** How many flags are set. */
  function CountTrue(flags: seq<bool>): (n: nat)
    ensures n <= |flags|
  {
    if flags == [] then 0 else CountTrue(flags[..|flags| - 1]) + (if flags[|flags| - 1] then 1 else 0)
  }

  /** No flag is set exactly when the count is 0, and all are exactly when it is the length. */
  lemma {:induction false} CountTrueBounds(flags: seq<bool>)
    ensures CountTrue(flags) == 0 <==> forall i :: 0 <= i < |flags| ==> !flags[i]
    ensures CountTrue(flags) == |flags| <==> forall i :: 0 <= i < |flags| ==> flags[i]
  {
    if flags != [] {
      var init := flags[..|flags| - 1];
      CountTrueBounds(init);
      assert forall i :: 0 <= i < |init| ==> init[i] == flags[i];
    }
  }

  /** The scan queues nothing exactly when no entry is queueable, and everything exactly when all are. */
  lemma QueuedBounds(entries: seq<WalkEntry>, extensions: seq<string>, host: Host)
    ensures Queued(entries, extensions, host) == 0 <==>
      forall i :: 0 <= i < |entries| ==> !Queueable(entries[i], extensions, host)
    ensures Queued(entries, extensions, host) == |entries| <==>
      forall i :: 0 <= i < |entries| ==> Queueable(entries[i], extensions, host)
  {
    CountTrueBounds(QueueFlags(entries, extensions, host));
  }

  /** A walk entry the scan queues: a candidate whose normalised path is on disk. */
  predicate Queueable(e: WalkEntry, extensions: seq<string>, host: Host) {
    Candidate(e, extensions) && host.Exists(Catalog.NormalizeFilePath(e.path, host.cwd))
  }

  /** The play_history table. */
  class HistoryTable {
    var rows: seq<PlayHistory>
    var nextId: nat

    /** Ids are autoincrement values: positive, below nextId and ascending in table order. */
    ghost predicate Valid()
      reads this
    {
      && nextId >= 1
      && (forall i :: 0 <= i < |rows| ==> 1 <= rows[i].id < nextId)
      && (forall i, j :: 0 <= i < j < |rows| ==> rows[i].id < rows[j].id)
    }

    constructor()
      ensures rows == [] && nextId == 1 && Valid()
    {
      rows := [];
      nextId := 1;
    }

    /** Inserts h under the next autoincrement id and returns the stored row. */
    method Insert(h: PlayHistory) returns (stored: PlayHistory)
      requires Valid()
      modifies this
      ensures stored == h.(id := old(nextId))
      ensures rows == old(rows) + [stored] && nextId == old(nextId) + 1
      ensures Valid()
    {
      stored := h.(id := nextId);
      rows := rows + [stored];
      nextId := nextId + 1;
    }

    /** Writes back finished_at and duration_seconds of h, and skip_requested when asked. */
    method UpdateFinished(h: PlayHistory, withSkip: bool)
      requires Valid()
      modifies this
      ensures rows == Finished(old(rows), h, withSkip) && nextId == old(nextId)
      ensures Valid()
    {
      rows := Finished(rows, h, withSkip);
    }

    /** GetPlayHistory(limit): the `limit` most recently started rows, newest first. */
    method GetPlayHistory(limit: nat) returns (history: seq<PlayHistory>)
      requires limit > 0
      ensures history == Recent(rows, limit)
    {
      history := Recent(rows, limit);
    }
  }

  /** The history after a column-restricted update by id. */
  function Finished(rows: seq<PlayHistory>, h: PlayHistory, withSkip: bool): (r: seq<PlayHistory>)
    ensures |r| == |rows|
    ensures forall i :: 0 <= i < |rows| ==> r[i].id == rows[i].id && r[i].startedAt == rows[i].startedAt
    ensures forall i :: 0 <= i < |rows| && rows[i].id == h.id ==>
      r[i] == rows[i].(finishedAt := h.finishedAt, durationSeconds := h.durationSeconds,
                       skipRequested := if withSkip then h.skipRequested else rows[i].skipRequested)
    ensures forall i :: 0 <= i < |rows| && rows[i].id != h.id ==> r[i] == rows[i]
  {
    seq(|rows|, i requires 0 <= i < |rows| =>
      if rows[i].id != h.id then rows[i]
      else if withSkip then
        rows[i].(finishedAt := h.finishedAt, durationSeconds := h.durationSeconds, skipRequested := h.skipRequested)
      else rows[i].(finishedAt := h.finishedAt, durationSeconds := h.durationSeconds))
  }

  /** ORDER BY started_at DESC. */
  function LatestFirst(h: PlayHistory): Key {
    Key(-h.startedAt, 0)
  }

  /**
   * A prefix of the rows sorted latest first is in descending start order and drawn from the
   * rows, each row at most as often as it occurs.
   */
  lemma LatestFirstPrefix(rows: seq<PlayHistory>, s: seq<PlayHistory>, k: nat)
    requires SortedBy(s, LatestFirst) && multiset(s) == multiset(rows) && k <= |s|
    ensures forall i, j :: 0 <= i < j < |s[..k]| ==> s[..k][i].startedAt >= s[..k][j].startedAt
    ensures forall i :: 0 <= i < |s[..k]| ==> s[..k][i] in rows
    ensures multiset(s[..k]) <= multiset(rows)
  {
    assert s == s[..k] + s[k..];
    forall i, j | 0 <= i < j < k
      ensures s[i].startedAt >= s[j].startedAt
    {
      assert KeyLe(LatestFirst(s[i]), LatestFirst(s[j]));
    }
    forall i | 0 <= i < k
      ensures s[i] in rows
    {
      assert s[i] in multiset(s);
    }
  }

  function Recent(rows: seq<PlayHistory>, limit: nat): (r: seq<PlayHistory>)
    requires limit > 0
    ensures |r| == if limit < |rows| then limit else |rows|
    ensures forall i, j :: 0 <= i < j < |r| ==> r[i].startedAt >= r[j].startedAt
    ensures forall i :: 0 <= i < |r| ==> r[i] in rows
    ensures multiset(r) <= multiset(rows)
  {
    var s := SortBy(rows, LatestFirst);
    var k := if limit < |rows| then limit else |rows|;
    LatestFirstPrefix(rows, s, k);
    s[..k]
  }

  /** No row left out of the listing started later than a row in it. */
  lemma RecentIsTop(rows: seq<PlayHistory>, limit: nat, x: PlayHistory)
    requires limit > 0 && x in rows && x !in Recent(rows, limit)
    ensures forall i :: 0 <= i < |Recent(rows, limit)| ==> Recent(rows, limit)[i].startedAt >= x.startedAt
  {
    var s := SortBy(rows, LatestFirst);
    assert x in multiset(s);
    var m :| 0 <= m < |s| && s[m] == x;
    var r := Recent(rows, limit);
    assert r == s[..|r|];
    forall i | 0 <= i < |r| ensures r[i].startedAt >= x.startedAt {
      assert KeyLe(LatestFirst(s[i]), LatestFirst(s[m]));
    }
  }

  /** The video_queue table. */
  class QueueTable {
    var rows: seq<VideoQueue>
    var nextId: nat

    ghost predicate Valid()
      reads this
    {
      WellFormed(rows, nextId)
    }

    constructor()
      ensures rows == [] && nextId == 1 && Valid()
    {
      rows := [];
      nextId := 1;
    }

    /** Inserts an unplayed row behind every existing row (max position + 1). */
    method Append(fileId: string, path: string, now: int, isAd: int)
      requires Valid()
      modifies this
      ensures rows == Appended(old(rows), old(nextId), fileId, path, now, isAd)
      ensures nextId == old(nextId) + 1
      ensures Valid()
    {
      rows := Appended(rows, nextId, fileId, path, now, isAd);
      nextId := nextId + 1;
    }

    /** Appends a catalogued file that exists on disk; is_ad is 1 exactly for an ad. */
    method AddToQueue(catalog: Catalog.CatalogTable, filePath: string, isAd: bool, host: Host)
      returns (r: Outcome<QueueError>)
      requires Valid()
      modifies this
      ensures var c := CataloguedPath(catalog.rows, filePath, host);
        if c.Err? then r == Fail(c.error) && rows == old(rows) && nextId == old(nextId)
        else (r == Pass && nextId == old(nextId) + 1 &&
          rows == Appended(old(rows), old(nextId), host.md5Hex(c.value), c.value, host.now, if isAd then 1 else 0))
      ensures Valid()
    {
      var c := CataloguedPath(catalog.rows, filePath, host);
      if c.Err? {
        return Fail(c.error);
      }
      Append(host.md5Hex(c.value), c.value, host.now, if isAd then 1 else 0);
      r := Pass;
    }

    /** Puts a catalogued ad at position 0 after moving every unplayed row back by one. */
    method InjectAd(catalog: Catalog.CatalogTable, filePath: string, host: Host) returns (r: Outcome<QueueError>)
      requires Valid()
      modifies this
      ensures var c := CataloguedPath(catalog.rows, filePath, host);
        if c.Err? then r == Fail(c.error) && rows == old(rows) && nextId == old(nextId)
        else (r == Pass && nextId == old(nextId) + 1 &&
          rows == Injected(old(rows), old(nextId), host.md5Hex(c.value), c.value, host.now))
      ensures Valid()
    {
      var c := CataloguedPath(catalog.rows, filePath, host);
      if c.Err? {
        return Fail(c.error);
      }
      rows := Injected(rows, nextId, host.md5Hex(c.value), c.value, host.now);
      nextId := nextId + 1;
      r := Pass;
    }

    /** Deletes the played rows and returns how many there were. */
    method ClearPlayedFromQueue() returns (deleted: nat)
      requires Valid()
      modifies this
      ensures rows == WithoutPlayed(old(rows)) && nextId == old(nextId)
      ensures deleted == NumPlayed(old(rows)) && |rows| + deleted == |old(rows)|
      ensures Valid()
    {
      WithoutPlayedWellFormed(rows, nextId);
      deleted := NumPlayed(rows);
      rows := WithoutPlayed(rows);
    }

    /** Writes back the played and played_at columns of v. */
    method UpdatePlayed(v: VideoQueue)
      requires Valid() && v.played == 1
      modifies this
      ensures rows == WithPlayed(old(rows), v) && nextId == old(nextId)
      ensures Valid()
    {
      rows := WithPlayed(rows, v);
    }

    method GetQueue() returns (queue: seq<VideoQueue>)
      ensures queue == Listing(rows)
    {
      queue := Listing(rows);
    }
  }

  /**
   * ScanAndAddVideos over the entries a walk of the directory reported: each candidate is
   * catalogued and then queued as a non-ad, and counted when both succeed.
   */
  method ScanAndAddVideos(catalog: Catalog.CatalogTable, queue: QueueTable, entries: seq<WalkEntry>,
                          extensions: seq<string>, host: Host) returns (added: nat)
    requires catalog.Valid() && queue.Valid()
    modifies catalog, queue
    ensures added == Queued(entries, extensions, host)
    ensures |queue.rows| == |old(queue.rows)| + added
    ensures catalog.Valid() && queue.Valid()
  {
    added := 0;
    var i := 0;
    while i < |entries|
      invariant 0 <= i <= |entries|
      invariant catalog.Valid() && queue.Valid()
      invariant added == Queued(entries[..i], extensions, host)
      invariant |queue.rows| == |old(queue.rows)| + added
    {
      assert QueueFlags(entries[..i + 1], extensions, host)[..i] == QueueFlags(entries[..i], extensions, host);
      var ok := ScanEntry(catalog, queue, entries[i], extensions, host);
      if ok {
        added := added + 1;
      }
      i := i + 1;
    }
    assert entries[..|entries|] == entries;
  }

  /** The walk callback for one entry: true when the entry was catalogued and queued. */
  method ScanEntry(catalog: Catalog.CatalogTable, queue: QueueTable, e: WalkEntry,
                   extensions: seq<string>, host: Host) returns (ok: bool)
    requires catalog.Valid() && queue.Valid()
    modifies catalog, queue
    ensures ok == (Candidate(e, extensions) && host.Exists(Catalog.NormalizeFilePath(e.path, host.cwd)))
    ensures |queue.rows| == |old(queue.rows)| + (if ok then 1 else 0)
    ensures catalog.Valid() && queue.Valid()
  {
    ok := false;
    if !e.failed && !e.isDir && Ext(e.path) in EffectiveExtensions(extensions) {
      var id := catalog.AddToAvailableFiles(e.path, host);
      if id.Ok? {
        var q := queue.AddToQueue(catalog, e.path, false, host);
        ok := q.Pass?;
      }
    }
  }
}
