/** The track catalog (backend/models.py): the SQLite `tracks` table held in
    memory as a sequence of rows in rowid order, together with the
    AUTOINCREMENT counter (the largest id ever handed out).  Each SQL
    statement of the source is a method of the class `Catalog`; what those
    methods do to the table is specified by pure functions over `Table`
    values, and the properties of the catalog are lemmas about those
    functions. */
module Models {
  import opened Common

  /** A value of SQLite's CURRENT_TIMESTAMP; the clock is an input. */
  type Timestamp = nat

  /** One row of the `tracks` table. */
  datatype Track = Track(
    id: nat,
    filePath: string,
    fileHash: string,
    title: string,
    author: string,
    duration: nat,
    fileSize: nat,
    playCount: nat,
    lastPlayed: Option<Timestamp>)

  /** The columns an INSERT or an upsert supplies. */
  datatype TrackInfo = TrackInfo(
    filePath: string,
    fileHash: string,
    title: string,
    author: string,
    duration: nat,
    fileSize: nat)

  /** The table's rows in rowid order and the AUTOINCREMENT sequence value. */
  datatype Table = Table(rows: seq<Track>, lastId: nat)

  /** What the catalog functions raise. */
  datatype DbError =
    | UniqueViolation(fileHash: string)   // sqlite3.IntegrityError on `file_hash UNIQUE`
    | ZeroDivision                        // `// limit` with limit 0
    | NoneNotMapping                      // `dict(None)` on an empty table

  /** One page of `get_all_tracks`. */
  datatype Page = Page(tracks: seq<Track>, total: nat, page: int, pages: int)

  /** The result of `get_stats`. */
  datatype Stats = Stats(totalTracks: nat, totalDuration: nat, mostPlayed: Track)

  // ---------------------------------------------------------------------------
  // Table invariants (the schema's constraints)

  /** `file_hash TEXT UNIQUE`. */
  ghost predicate HashesUnique(rows: seq<Track>) {
    forall i, j :: 0 <= i < j < |rows| ==> rows[i].fileHash != rows[j].fileHash
  }

  /** Rows are kept in rowid order and AUTOINCREMENT ids only grow. */
  ghost predicate IdsAscending(rows: seq<Track>) {
    forall i, j :: 0 <= i < j < |rows| ==> rows[i].id < rows[j].id
  }

  /** Every id present was handed out by the sequence counter. */
  ghost predicate IdsIssued(t: Table) {
    forall i :: 0 <= i < |t.rows| ==> 0 < t.rows[i].id <= t.lastId
  }

  ghost predicate WellFormed(t: Table) {
    HashesUnique(t.rows) && IdsAscending(t.rows) && IdsIssued(t)
  }

  function Hashes(rows: seq<Track>): set<string> {
    set r | r in rows :: r.fileHash
  }

  function Ids(rows: seq<Track>): set<nat> {
    set r | r in rows :: r.id
  }

  lemma HashesIndex(rows: seq<Track>, h: string)
    ensures h in Hashes(rows) <==> exists i :: 0 <= i < |rows| && rows[i].fileHash == h
  {
    if h in Hashes(rows) {
      var r :| r in rows && r.fileHash == h;
      var i :| 0 <= i < |rows| && rows[i] == r;
    }
  }

  /** The position of the row holding hash `h`. */
  function FindHash(rows: seq<Track>, h: string): (k: Option<nat>)
    ensures k.Some? ==> k.value < |rows| && rows[k.value].fileHash == h
    ensures k.None? <==> h !in Hashes(rows)
  {
    if rows == [] then None
    else if rows[0].fileHash == h then Some(0)
    else
      match FindHash(rows[1..], h)
      case Some(k) => Some(k + 1)
      case None =>
        assert rows == [rows[0]] + rows[1..];
        assert h !in Hashes(rows) by {
          forall r | r in rows ensures r.fileHash != h {
            if r != rows[0] { assert r in rows[1..]; }
          }
        }
        None
  }

  // ---------------------------------------------------------------------------
  // insert_track and insert_or_update_track

  /** A freshly inserted row: `play_count DEFAULT 0`, `last_played` NULL. */
  function NewRow(id: nat, info: TrackInfo): Track {
    Track(id, info.filePath, info.fileHash, info.title, info.author,
          info.duration, info.fileSize, 0, None)
  }

  /** `ON CONFLICT(file_hash) DO UPDATE SET` of the five metadata columns. */
  function Refresh(r: Track, info: TrackInfo): Track {
    r.(filePath := info.filePath, title := info.title, author := info.author,
       duration := info.duration, fileSize := info.fileSize)
  }

  /** The table after `insert_or_update_track`.  SQLite draws the new
      rowid from the AUTOINCREMENT counter before the UNIQUE conflict turns
      the statement into its DO UPDATE, and the statement succeeds, so the
      counter advances on both branches. */
  function Upsert(t: Table, info: TrackInfo): Table {
    match FindHash(t.rows, info.fileHash)
    case Some(i) => Table(t.rows[i := Refresh(t.rows[i], info)], t.lastId + 1)
    case None => Table(t.rows + [NewRow(t.lastId + 1, info)], t.lastId + 1)
  }

  /** The table after `insert_track`, or the UNIQUE failure. */
  function Insert(t: Table, info: TrackInfo): Result<Table, DbError> {
    if FindHash(t.rows, info.fileHash).Some? then Failure(UniqueViolation(info.fileHash))
    else Success(Table(t.rows + [NewRow(t.lastId + 1, info)], t.lastId + 1))
  }

  /** An upsert with an unseen hash appends one row whose id exceeds every id
      ever handed out, with play count 0 and no last-played time. */
  lemma UpsertUnseenHash(t: Table, info: TrackInfo)
    requires WellFormed(t)
    requires info.fileHash !in Hashes(t.rows)
    ensures var u := Upsert(t, info);
      && |u.rows| == |t.rows| + 1
      && u.rows[..|t.rows|] == t.rows
      && u.lastId == t.lastId + 1
      && u.rows[|t.rows|].id > t.lastId
      && (forall i :: 0 <= i < |t.rows| ==> t.rows[i].id < u.rows[|t.rows|].id)
      && u.rows[|t.rows|].playCount == 0
      && u.rows[|t.rows|].lastPlayed == None
      && u.rows[|t.rows|].fileHash == info.fileHash
      && u.rows[|t.rows|].filePath == info.filePath
      && u.rows[|t.rows|].title == info.title
      && u.rows[|t.rows|].author == info.author
      && u.rows[|t.rows|].duration == info.duration
      && u.rows[|t.rows|].fileSize == info.fileSize
  {
    var u := Upsert(t, info);
    assert u.rows == t.rows + [NewRow(t.lastId + 1, info)];
  }

  /** An upsert with a stored hash overwrites only the path, title, author,
      duration and size of that row; id, hash and play statistics stay, and
      the rowid drawn for the abandoned insert is used up. */
  lemma UpsertSeenHash(t: Table, info: TrackInfo, i: nat)
    requires HashesUnique(t.rows)
    requires i < |t.rows| && t.rows[i].fileHash == info.fileHash
    ensures var u := Upsert(t, info);
      && |u.rows| == |t.rows|
      && u.lastId == t.lastId + 1
      && u.rows[i].id == t.rows[i].id
      && u.rows[i].fileHash == t.rows[i].fileHash
      && u.rows[i].playCount == t.rows[i].playCount
      && u.rows[i].lastPlayed == t.rows[i].lastPlayed
      && u.rows[i].filePath == info.filePath
      && u.rows[i].title == info.title
      && u.rows[i].author == info.author
      && u.rows[i].duration == info.duration
      && u.rows[i].fileSize == info.fileSize
      && (forall j :: 0 <= j < |t.rows| && j != i ==> u.rows[j] == t.rows[j])
  {
    var k := FindHash(t.rows, info.fileHash);
    assert k.Some?;
    assert k.value == i;
  }

  lemma HashesAppend(rows: seq<Track>, r: Track)
    ensures Hashes(rows + [r]) == Hashes(rows) + {r.fileHash}
  {
    forall h | h in Hashes(rows + [r]) ensures h in Hashes(rows) + {r.fileHash} {
      var x :| x in rows + [r] && x.fileHash == h;
      if x != r { assert x in rows; }
    }
    forall h | h in Hashes(rows) ensures h in Hashes(rows + [r]) {
      var x :| x in rows && x.fileHash == h;
      assert x in rows + [r];
    }
    assert r in rows + [r];
  }

  lemma HashesUpdate(rows: seq<Track>, i: nat, r: Track)
    requires i < |rows| && r.fileHash == rows[i].fileHash
    ensures Hashes(rows[i := r]) == Hashes(rows)
  {
    var rows' := rows[i := r];
    forall h | h in Hashes(rows') ensures h in Hashes(rows) {
      HashesIndex(rows', h);
      var j :| 0 <= j < |rows'| && rows'[j].fileHash == h;
      assert rows[j].fileHash == h;
      HashesIndex(rows, h);
    }
    forall h | h in Hashes(rows) ensures h in Hashes(rows') {
      HashesIndex(rows, h);
      var j :| 0 <= j < |rows| && rows[j].fileHash == h;
      assert rows'[j].fileHash == h;
      HashesIndex(rows', h);
    }
  }

  /** After an upsert the hash set is the old one plus the upserted hash. */
  lemma UpsertHashes(t: Table, info: TrackInfo)
    ensures Hashes(Upsert(t, info).rows) == Hashes(t.rows) + {info.fileHash}
  {
    match FindHash(t.rows, info.fileHash)
    case Some(i) =>
      HashesUpdate(t.rows, i, Refresh(t.rows[i], info));
    case None =>
      HashesAppend(t.rows, NewRow(t.lastId + 1, info));
  }

  /** Upserts keep every schema constraint: file_hash stays unique. */
  lemma UpsertWellFormed(t: Table, info: TrackInfo)
    requires WellFormed(t)
    ensures WellFormed(Upsert(t, info))
  {
    match FindHash(t.rows, info.fileHash)
    case Some(i) =>
    case None =>
      var u := Upsert(t, info);
      forall i | 0 <= i < |t.rows| ensures u.rows[i].fileHash != info.fileHash {
        assert t.rows[i] in t.rows;
      }
  }

  /** Applying the same upsert twice leaves the rows as applying it once;
      only the counter moves on by the rowid the second statement drew. */
  lemma UpsertIdempotent(t: Table, info: TrackInfo)
    requires HashesUnique(t.rows)
    ensures Upsert(Upsert(t, info), info).rows == Upsert(t, info).rows
    ensures Upsert(Upsert(t, info), info).lastId == Upsert(t, info).lastId + 1
  {
    var u := Upsert(t, info);
    match FindHash(t.rows, info.fileHash)
    case Some(i) =>
      assert u.rows == t.rows[i := Refresh(t.rows[i], info)];
      assert u.rows[i].fileHash == info.fileHash;
      HashesIndex(u.rows, info.fileHash);
      var k := FindHash(u.rows, info.fileHash);
      assert k.Some?;
      assert k.value == i;
    case None =>
      var n := |t.rows|;
      var k := FindHash(u.rows, info.fileHash);
      assert u.rows[n].fileHash == info.fileHash;
      assert k.Some?;
      assert k.value == n;
      assert Refresh(u.rows[n], info) == u.rows[n];
      assert u.rows[n := u.rows[n]] == u.rows;
  }

  /** `insert_track` fails on a stored hash and otherwise agrees with the upsert. */
  lemma InsertVersusUpsert(t: Table, info: TrackInfo)
    ensures Insert(t, info).Failure? <==> info.fileHash in Hashes(t.rows)
    ensures Insert(t, info).Failure? ==> Insert(t, info).error == UniqueViolation(info.fileHash)
    ensures Insert(t, info).Success? ==> Insert(t, info).value == Upsert(t, info)
  {
  }

  // ---------------------------------------------------------------------------
  // del_by_unseen_hash

  /** The rows whose hash is not in `gone`, in their order. */
  function Without(rows: seq<Track>, gone: set<string>): (r: seq<Track>)
    ensures |r| <= |rows|
  {
    if rows == [] then []
    else (if rows[0].fileHash in gone then [] else [rows[0]]) + Without(rows[1..], gone)
  }

  lemma {:induction false} WithoutMembers(rows: seq<Track>, gone: set<string>, x: Track)
    ensures x in Without(rows, gone) <==> x in rows && x.fileHash !in gone
  {
    if rows != [] {
      WithoutMembers(rows[1..], gone, x);
      assert rows == [rows[0]] + rows[1..];
    }
  }

  lemma {:induction false} WithoutTwice(rows: seq<Track>, d: set<string>, e: set<string>)
    ensures Without(Without(rows, d), e) == Without(rows, d + e)
  {
    if rows != [] {
      WithoutTwice(rows[1..], d, e);
      var w := Without(rows, d);
      if rows[0].fileHash in d {
        assert w == Without(rows[1..], d);
      } else {
        assert w == [rows[0]] + Without(rows[1..], d);
        assert w[1..] == Without(rows[1..], d);
      }
    }
  }

  lemma {:induction false} WithoutNothing(rows: seq<Track>, gone: set<string>)
    requires gone !! Hashes(rows)
    ensures Without(rows, gone) == rows
  {
    if rows != [] {
      assert rows[0] in rows;
      assert Hashes(rows[1..]) <= Hashes(rows) by {
        forall h | h in Hashes(rows[1..]) ensures h in Hashes(rows) {
          var x :| x in rows[1..] && x.fileHash == h;
          assert x in rows;
        }
      }
      WithoutNothing(rows[1..], gone);
      assert rows == [rows[0]] + rows[1..];
    }
  }

  /** Deleting by hash keeps the remaining rows in order and keeps every
      schema constraint. */
  lemma {:induction false} WithoutWellFormed(t: Table, gone: set<string>)
    requires WellFormed(t)
    ensures WellFormed(Table(Without(t.rows, gone), t.lastId))
    decreases |t.rows|
  {
    var rows := t.rows;
    if rows != [] {
      var rest := Table(rows[1..], t.lastId);
      WithoutWellFormed(rest, gone);
      var w := Without(rows[1..], gone);
      if rows[0].fileHash !in gone {
        forall j | 0 <= j < |w| ensures rows[0].fileHash != w[j].fileHash && rows[0].id < w[j].id {
          WithoutMembers(rows[1..], gone, w[j]);
          var k :| 0 <= k < |rows[1..]| && rows[1..][k] == w[j];
          assert rows[k + 1] == w[j];
        }
        assert 0 < rows[0].id <= t.lastId;
        ConsWellFormed(rows[0], w, t.lastId);
        assert Without(rows, gone) == [rows[0]] + w;
      }
    }
  }

  /** A row before a well-formed table keeps it well-formed when its hash
      is new there, its id is smaller than theirs and was issued. */
  lemma ConsWellFormed(r: Track, w: seq<Track>, lastId: nat)
    requires WellFormed(Table(w, lastId)) && 0 < r.id <= lastId
    requires forall j :: 0 <= j < |w| ==> r.fileHash != w[j].fileHash && r.id < w[j].id
    ensures WellFormed(Table([r] + w, lastId))
  {
    var all := [r] + w;
    assert forall j :: 1 <= j < |all| ==> all[j] == w[j - 1];
  }

  /** Under unique hashes, removing a set of hashes removes one row per
      stored hash in that set. */
  lemma {:induction false} WithoutCount(rows: seq<Track>, gone: set<string>)
    requires HashesUnique(rows)
    ensures |rows| - |Without(rows, gone)| == |Hashes(rows) * gone|
  {
    if rows == [] {
      assert Hashes(rows) == {};
    } else {
      var tail := rows[1..];
      HeadHashFresh(rows);
      WithoutCount(tail, gone);
      HashesAppendFront(rows[0], tail);
      assert rows == [rows[0]] + tail;
      GoneCountStep(rows[0].fileHash, Hashes(tail), gone);
    }
  }

  lemma GoneCountStep(h: string, stored: set<string>, gone: set<string>)
    requires h !in stored
    ensures |({h} + stored) * gone| == |stored * gone| + if h in gone then 1 else 0
  {
    if h in gone {
      assert ({h} + stored) * gone == {h} + stored * gone;
    } else {
      assert ({h} + stored) * gone == stored * gone;
    }
  }

  /** Under unique hashes the first row's hash is not among the others. */
  lemma HeadHashFresh(rows: seq<Track>)
    requires HashesUnique(rows) && rows != []
    ensures HashesUnique(rows[1..]) && rows[0].fileHash !in Hashes(rows[1..])
  {
    var tail := rows[1..];
    assert forall i :: 0 <= i < |tail| ==> tail[i] == rows[i + 1];
    HashesIndex(tail, rows[0].fileHash);
  }

  lemma HashesAppendFront(r: Track, rows: seq<Track>)
    ensures Hashes([r] + rows) == {r.fileHash} + Hashes(rows)
  {
    forall h | h in Hashes([r] + rows) ensures h in {r.fileHash} + Hashes(rows) {
      var x :| x in [r] + rows && x.fileHash == h;
      if x != r { assert x in rows; }
    }
    forall h | h in Hashes(rows) ensures h in Hashes([r] + rows) {
      var x :| x in rows && x.fileHash == h;
      assert x in [r] + rows;
    }
    assert r in [r] + rows;
  }

  /** The table after `del_by_unseen_hash(seen)`. */
  function DeleteUnseen(t: Table, seen: set<string>): Table {
    Table(Without(t.rows, Hashes(t.rows) - seen), t.lastId)
  }

  /** `del_by_unseen_hash` removes exactly the rows whose hash is not in
      `seen`, keeps every other row unchanged and in order, keeps the table
      well formed, and the number of removed rows is the number of stored
      hashes outside `seen`. */
  lemma DeleteUnseenSpec(t: Table, seen: set<string>)
    requires WellFormed(t)
    ensures var d := DeleteUnseen(t, seen);
      && WellFormed(d)
      && d.lastId == t.lastId
      && (forall x :: x in d.rows <==> x in t.rows && x.fileHash in seen)
      && Hashes(d.rows) == Hashes(t.rows) * seen
      && |t.rows| - |d.rows| == |Hashes(t.rows) - seen|
  {
    var gone := Hashes(t.rows) - seen;
    var d := DeleteUnseen(t, seen);
    WithoutWellFormed(t, gone);
    WithoutCount(t.rows, gone);
    assert Hashes(t.rows) * gone == gone;
    forall x ensures x in d.rows <==> x in t.rows && x.fileHash in seen {
      WithoutMembers(t.rows, gone, x);
    }
    forall h | h in Hashes(t.rows) * seen ensures h in Hashes(d.rows) {
      var x :| x in t.rows && x.fileHash == h;
      assert x in d.rows;
    }
  }

  // ---------------------------------------------------------------------------
  // update_play_count

  /** The rows after `UPDATE ... SET play_count = play_count + 1,
      last_played = now WHERE id = ?`. */
  function BumpPlay(rows: seq<Track>, id: nat, now: Timestamp): (r: seq<Track>)
    ensures |r| == |rows|
  {
    seq(|rows|, i requires 0 <= i < |rows| =>
      if rows[i].id == id then rows[i].(playCount := rows[i].playCount + 1, lastPlayed := Some(now))
      else rows[i])
  }

  /** A play raises the addressed row's count by exactly one and stamps it;
      every other row is untouched, no count decreases, and an unknown id
      changes nothing. */
  lemma BumpPlaySpec(t: Table, id: nat, now: Timestamp)
    requires WellFormed(t)
    ensures var b := BumpPlay(t.rows, id, now);
      && WellFormed(Table(b, t.lastId))
      && Hashes(b) == Hashes(t.rows)
      && (forall i :: 0 <= i < |b| ==> b[i].playCount >= t.rows[i].playCount)
      && (forall i :: 0 <= i < |b| && t.rows[i].id == id ==>
            b[i] == t.rows[i].(playCount := t.rows[i].playCount + 1, lastPlayed := Some(now)))
      && (forall i :: 0 <= i < |b| && t.rows[i].id != id ==> b[i] == t.rows[i])
      && (id !in Ids(t.rows) ==> b == t.rows)
  {
    var b := BumpPlay(t.rows, id, now);
    assert forall i :: 0 <= i < |b| ==> b[i].fileHash == t.rows[i].fileHash;
    forall h ensures h in Hashes(b) <==> h in Hashes(t.rows) {
      HashesIndex(b, h);
      HashesIndex(t.rows, h);
    }
    if id !in Ids(t.rows) {
      forall i | 0 <= i < |b| ensures b[i] == t.rows[i] {
        assert t.rows[i] in t.rows;
      }
    }
  }

  // ---------------------------------------------------------------------------
  // get_all_tracks: the pagination arithmetic and SQLite's LIMIT/OFFSET

  /** Python's `a // b` (floor division); Dafny's `/` is Euclidean. */
  function FloorDiv(a: int, b: int): (q: int)
    requires b != 0
    ensures b > 0 ==> b * q <= a < b * q + b
    ensures b < 0 ==> b * q >= a > b * q + b
  {
    if b > 0 then a / b else (-a) / (-b)
  }

  /** `(count + limit - 1) // limit`. */
  function PageCount(total: nat, limit: int): int
    requires limit != 0
  {
    FloorDiv(total + limit - 1, limit)
  }

  /** `LIMIT limit OFFSET offset`: a negative offset reads as 0 and a
      negative limit means no upper bound. */
  function Window(rows: seq<Track>, offset: int, limit: int): (w: seq<Track>)
  {
    var start := if offset < 0 then 0 else if offset > |rows| then |rows| else offset;
    var end := if limit < 0 || start + limit > |rows| then |rows| else start + limit;
    rows[start..end]
  }

  /** The rows of page `page` (1-indexed) of size `limit`. */
  function PageRows(rows: seq<Track>, page: int, limit: int): seq<Track> {
    Window(rows, (page - 1) * limit, limit)
  }

  /** `pages` is the ceiling of total / limit for a positive limit. */
  lemma PageCountIsCeiling(total: nat, limit: int)
    requires limit > 0
    ensures var pages := PageCount(total, limit);
      pages >= 0 && (pages - 1) * limit < total <= pages * limit
  {
    var pages := PageCount(total, limit);
    assert limit * pages <= total + limit - 1 < limit * pages + limit;
    assert (pages - 1) * limit == limit * pages - limit;
    assert pages * limit == limit * pages;
  }

  /** A page with a positive size and a page number from 1 is the slice
      starting at `(page-1)*limit` of at most `limit` rows; it is empty from
      page `pages + 1` on. */
  lemma PageRowsSpec(rows: seq<Track>, page: int, limit: int)
    requires limit > 0 && page >= 1
    ensures var off := (page - 1) * limit;
      var p := PageRows(rows, page, limit);
      && off >= 0
      && (off >= |rows| ==> p == [])
      && (off < |rows| ==> p == rows[off..if off + limit <= |rows| then off + limit else |rows|])
      && |p| <= limit
      && (page > PageCount(|rows|, limit) ==> p == [])
  {
    PageOffset(page, limit, |rows|);
  }

  /** The offset of a page from 1 on is not negative, and past the last
      page it is past the last row. */
  lemma PageOffset(page: int, limit: int, total: nat)
    requires limit > 0 && page >= 1
    ensures (page - 1) * limit >= 0
    ensures page > PageCount(total, limit) ==> (page - 1) * limit >= total
  {
    MulMonotone(page - 1, 0, limit);
    PageCountIsCeiling(total, limit);
    var pages := PageCount(total, limit);
    if page > pages {
      MulMonotone(page - 1, pages, limit);
    }
  }

  lemma MulStep(k: int, limit: int)
    ensures (k - 1) * limit + limit == k * limit
  {
  }

  lemma MulMonotone(a: int, b: int, c: int)
    requires a >= b && c >= 0
    ensures a * c >= b * c
  {
    var d := a - b;
    assert d * c >= 0;
    assert a * c == b * c + d * c;
  }

  /** The first `k` pages concatenated. */
  function FirstPages(rows: seq<Track>, limit: int, k: nat): seq<Track> {
    if k == 0 then [] else FirstPages(rows, limit, k - 1) + PageRows(rows, k, limit)
  }

  lemma {:induction false} FirstPagesPrefix(rows: seq<Track>, limit: int, k: nat)
    requires limit > 0
    ensures FirstPages(rows, limit, k) == rows[..if k * limit <= |rows| then k * limit else |rows|]
  {
    if k > 0 {
      FirstPagesPrefix(rows, limit, k - 1);
      PageRowsSpec(rows, k, limit);
      var off := (k - 1) * limit;
      var next := k * limit;
      MulStep(k, limit);
      var a := if off <= |rows| then off else |rows|;
      var b := if next <= |rows| then next else |rows|;
      assert PageRows(rows, k, limit) == rows[a..b];
      assert rows[..a] + rows[a..b] == rows[..b];
    }
  }

  /** Walking pages 1..pages returns every row exactly once, in order. */
  lemma PagesCoverTable(rows: seq<Track>, limit: int)
    requires limit > 0
    ensures PageCount(|rows|, limit) >= 0
    ensures FirstPages(rows, limit, PageCount(|rows|, limit)) == rows
  {
    PageCountIsCeiling(|rows|, limit);
    var pages := PageCount(|rows|, limit);
    FirstPagesPrefix(rows, limit, pages);
    assert pages * limit >= |rows|;
  }

  /** The worked example: 125 tracks in pages of 50 make 3 pages, and page 4
      is empty while the total is still reported. */
  lemma PaginationExample(rows: seq<Track>)
    requires |rows| == 125
    ensures PageCount(|rows|, 50) == 3
    ensures |PageRows(rows, 3, 50)| == 25
    ensures PageRows(rows, 4, 50) == []
  {
  }

  // ---------------------------------------------------------------------------
  // get_stats

  /** `SELECT SUM(duration)` over a non-empty table. */
  function SumDurations(rows: seq<Track>): nat {
    if rows == [] then 0 else rows[0].duration + SumDurations(rows[1..])
  }

  /** `SELECT MAX(play_count)`. */
  function MaxPlayCount(rows: seq<Track>): (m: nat)
    requires rows != []
    ensures forall i :: 0 <= i < |rows| ==> rows[i].playCount <= m
    ensures exists i :: 0 <= i < |rows| && rows[i].playCount == m
  {
    if |rows| == 1 then rows[0].playCount
    else
      var m := MaxPlayCount(rows[1..]);
      assert forall i :: 1 <= i < |rows| ==> rows[i] == rows[1..][i - 1];
      if rows[0].playCount >= m then rows[0].playCount else m
  }

  lemma {:induction false} SumDurationsBumpPlay(rows: seq<Track>, id: nat, now: Timestamp)
    ensures SumDurations(BumpPlay(rows, id, now)) == SumDurations(rows)
  {
    if rows != [] {
      SumDurationsBumpPlay(rows[1..], id, now);
      assert BumpPlay(rows, id, now)[1..] == BumpPlay(rows[1..], id, now);
    }
  }

  /** A play leaves the total duration as it was, and the most-played count
      grows by at most one and is at least the bumped row's new count. */
  lemma StatsAfterPlay(t: Table, id: nat, now: Timestamp)
    requires t.rows != []
    ensures var b := BumpPlay(t.rows, id, now);
      && SumDurations(b) == SumDurations(t.rows)
      && MaxPlayCount(t.rows) <= MaxPlayCount(b) <= MaxPlayCount(t.rows) + 1
      && (forall i :: 0 <= i < |b| && t.rows[i].id == id ==> b[i].playCount <= MaxPlayCount(b))
  {
    var b := BumpPlay(t.rows, id, now);
    SumDurationsBumpPlay(t.rows, id, now);
    var i :| 0 <= i < |t.rows| && t.rows[i].playCount == MaxPlayCount(t.rows);
    assert b[i].playCount >= t.rows[i].playCount;
    var j :| 0 <= j < |b| && b[j].playCount == MaxPlayCount(b);
    assert b[j].playCount <= t.rows[j].playCount + 1;
  }

  // ---------------------------------------------------------------------------
  // The catalog as the source uses it: one object whose methods run the SQL.

  class Catalog {
    var rows: seq<Track>
    var lastId: nat

    ghost predicate Valid()
      reads this
    {
      WellFormed(Table(rows, lastId))
    }

    function State(): Table
      reads this
    {
      Table(rows, lastId)
    }

    /** `init_db` on a new database file: an empty table. */
    constructor ()
      ensures Valid() && rows == [] && lastId == 0
    {
      rows := [];
      lastId := 0;
    }

    /** `insert_track`: a plain INSERT; a stored hash violates UNIQUE and
        the table is left unchanged. */
    method InsertTrack(info: TrackInfo) returns (r: Result<nat, DbError>)
      requires Valid()
      modifies this
      ensures Valid()
      ensures Insert(old(State()), info).Failure? ==>
        r == Failure(UniqueViolation(info.fileHash)) && State() == old(State())
      ensures Insert(old(State()), info).Success? ==>
        State() == Insert(old(State()), info).value && r == Success(lastId)
    {
      if FindHash(rows, info.fileHash).Some? {
        return Failure(UniqueViolation(info.fileHash));
      }
      lastId := lastId + 1;
      rows := rows + [NewRow(lastId, info)];
      UpsertWellFormed(old(State()), info);
      r := Success(lastId);
    }

    /** `insert_or_update_track`.  The source returns `cursor.lastrowid`:
        the new id after an insert; after the DO UPDATE branch no row was
        inserted on that fresh connection, so SQLite reports 0. */
    method InsertOrUpdateTrack(info: TrackInfo) returns (lastRowId: nat)
      requires Valid()
      modifies this
      ensures Valid()
      ensures State() == Upsert(old(State()), info)
      ensures lastRowId == 0 <==> info.fileHash in Hashes(old(rows))
      ensures lastRowId != 0 ==> lastRowId == lastId
    {
      UpsertWellFormed(State(), info);
      match FindHash(rows, info.fileHash)
      case Some(i) =>
        lastId := lastId + 1;
        rows := rows[i := Refresh(rows[i], info)];
        lastRowId := 0;
      case None =>
        lastId := lastId + 1;
        rows := rows + [NewRow(lastId, info)];
        lastRowId := lastId;
    }

    /** `update_play_count`. */
    method UpdatePlayCount(id: nat, now: Timestamp)
      requires Valid()
      modifies this
      ensures Valid()
      ensures rows == BumpPlay(old(rows), id, now) && lastId == old(lastId)
    {
      BumpPlaySpec(State(), id, now);
      rows := BumpPlay(rows, id, now);
    }

    /** `del_by_unseen_hash`: one DELETE per stored hash outside `seen`,
        returning the total row count affected. */
    method DelByUnseenHash(seen: set<string>) returns (removed: nat)
      requires Valid()
      modifies this
      ensures Valid()
      ensures State() == DeleteUnseen(old(State()), seen)
      ensures removed == |old(rows)| - |rows|
    {
      var toRemove := Hashes(rows) - seen;
      if toRemove == {} {
        WithoutNothing(rows, toRemove);
        return 0;
      }
      removed := DeleteHashes(toRemove);
      WithoutWellFormed(old(State()), toRemove);
    }

    /** The `executemany` of `DELETE ... WHERE file_hash = ?`, one hash at a
        time, in any order. */
    method DeleteHashes(toRemove: set<string>) returns (removed: nat)
      modifies this
      ensures rows == Without(old(rows), toRemove) && lastId == old(lastId)
      ensures removed == |old(rows)| - |rows|
    {
      removed := 0;
      var pending := toRemove;
      ghost var done: set<string> := {};
      WithoutNothing(rows, done);
      while pending != {}
        invariant pending + done == toRemove && pending !! done
        invariant rows == Without(old(rows), done) && lastId == old(lastId)
        invariant removed == |old(rows)| - |rows|
        decreases pending
      {
        var h :| h in pending;
        var before := |rows|;
        WithoutTwice(old(rows), done, {h});
        rows := Without(rows, {h});
        removed := removed + (before - |rows|);
        pending := pending - {h};
        done := done + {h};
      }
      assert done == toRemove;
    }

    /** `get_random_track`: `ORDER BY RANDOM() LIMIT 1` over the rows whose
        id is not excluded, a free choice; None when no row qualifies, with
        no fallback to the excluded rows. */
    method GetRandomTrack(excludeIds: seq<nat>) returns (t: Option<Track>)
      ensures t.Some? ==> t.value in rows && t.value.id !in excludeIds
      ensures t.None? <==> forall i :: 0 <= i < |rows| ==> rows[i].id in excludeIds
    {
      if excludeIds != [] {
        if exists i :: 0 <= i < |rows| && rows[i].id !in excludeIds {
          var i :| 0 <= i < |rows| && rows[i].id !in excludeIds;
          t := Some(rows[i]);
        } else {
          t := None;
        }
      } else {
        if rows != [] {
          var i :| 0 <= i < |rows|;
          t := Some(rows[i]);
        } else {
          t := None;
        }
      }
    }

    /** `get_track_by_id`. */
    method GetTrackById(id: nat) returns (t: Option<Track>)
      requires Valid()
      ensures t.Some? <==> id in Ids(rows)
      ensures t.Some? ==> t.value in rows && t.value.id == id
    {
      if exists i :: 0 <= i < |rows| && rows[i].id == id {
        var i :| 0 <= i < |rows| && rows[i].id == id;
        t := Some(rows[i]);
      } else {
        t := None;
      }
    }

    /** `get_all_tracks(page, limit)`: the count, the LIMIT/OFFSET query
        copied row by row into `tracks_data`, then the page count, whose
        division fails for a limit of 0. */
    method GetAllTracks(page: int, limit: int) returns (r: Result<Page, DbError>)
      ensures r.Failure? <==> limit == 0
      ensures r.Failure? ==> r.error == ZeroDivision
      ensures r.Success? ==>
        && r.value.total == |rows|
        && r.value.page == page
        && r.value.pages == PageCount(|rows|, limit)
        && r.value.tracks == PageRows(rows, page, limit)
    {
      var offset := (page - 1) * limit;
      var count := |rows|;
      var fetched := Window(rows, offset, limit);
      var tracksData: seq<Track> := [];
      var k := 0;
      while k < |fetched|
        invariant 0 <= k <= |fetched|
        invariant tracksData == fetched[..k]
      {
        tracksData := tracksData + [fetched[k]];
        k := k + 1;
      }
      if limit == 0 {
        return Failure(ZeroDivision);
      }
      r := Success(Page(tracksData, count, page, FloorDiv(count + limit - 1, limit)));
    }

    /** `get_stats`: row count, summed duration and a row with the maximal
        play count (the query has no ORDER BY, so any of them); on an empty
        table the last query finds no row and `dict(None)` fails. */
    method GetStats() returns (r: Result<Stats, DbError>)
      ensures r.Failure? <==> rows == []
      ensures r.Failure? ==> r.error == NoneNotMapping
      ensures r.Success? ==>
        && r.value.totalTracks == |rows|
        && r.value.totalDuration == SumDurations(rows)
        && r.value.mostPlayed in rows
        && (forall i :: 0 <= i < |rows| ==> rows[i].playCount <= r.value.mostPlayed.playCount)
    {
      if rows == [] {
        return Failure(NoneNotMapping);
      }
      var total := |rows|;
      var duration := SumDurations(rows);
      var top := MaxPlayCount(rows);
      var i :| 0 <= i < |rows| && rows[i].playCount == top;
      r := Success(Stats(total, duration, rows[i]));
    }
  }
}
