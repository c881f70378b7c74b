/** What a scan pass does to the catalog, as functions over `Table` values:
    a run of upserts (the rescan) or of plain inserts (the first scan) over
    the track records of a directory listing, followed for the rescan by
    the deletion of every row whose hash was not seen.  The lemmas here are
    the reconciliation guarantees of scripts/scan_music.py. */
module Reconcile {
  import opened Common
  import opened Models

  /** The hashes of a run of track records (the scanner's `seen_hashes`). */
  function InfoHashes(infos: seq<TrackInfo>): set<string> {
    if infos == [] then {} else InfoHashes(infos[..|infos| - 1]) + {infos[|infos| - 1].fileHash}
  }

  lemma {:induction false} InfoHashesIndex(infos: seq<TrackInfo>, h: string)
    ensures h in InfoHashes(infos) <==> exists k :: 0 <= k < |infos| && infos[k].fileHash == h
  {
    if infos != [] {
      var init := infos[..|infos| - 1];
      InfoHashesIndex(init, h);
      assert forall k :: 0 <= k < |init| ==> init[k] == infos[k];
    }
  }

  /** The record of the last entry in the run that carries hash `h`. */
  function LastFor(infos: seq<TrackInfo>, h: string): (i: TrackInfo)
    requires h in InfoHashes(infos)
    ensures i in infos && i.fileHash == h
  {
    var init := infos[..|infos| - 1];
    if infos[|infos| - 1].fileHash == h then infos[|infos| - 1]
    else
      LastFor(init, h)
  }

  /** `insert_or_update_track` applied to each record in order. */
  function UpsertAll(t: Table, infos: seq<TrackInfo>): Table {
    if infos == [] then t
    else Upsert(UpsertAll(t, infos[..|infos| - 1]), infos[|infos| - 1])
  }

  /** `insert_track` applied to each record in order, stopping at the first
      UNIQUE failure. */
  function InsertAll(t: Table, infos: seq<TrackInfo>): Result<Table, DbError> {
    if infos == [] then Success(t)
    else
      match InsertAll(t, infos[..|infos| - 1])
      case Failure(e) => Failure(e)
      case Success(u) => Insert(u, infos[|infos| - 1])
  }

  /** The table after a completed rescan: all upserts, then
      `del_by_unseen_hash(seen_hashes)`. */
  function Reconciled(t: Table, infos: seq<TrackInfo>): Table {
    DeleteUnseen(UpsertAll(t, infos), InfoHashes(infos))
  }

  /** The row keeps its identity: id, hash and play statistics. */
  predicate SameIdentity(a: Track, b: Track) {
    a.id == b.id && a.fileHash == b.fileHash && a.playCount == b.playCount && a.lastPlayed == b.lastPlayed
  }

  // ---------------------------------------------------------------------------
  // Runs of upserts

  lemma {:induction false} UpsertAllWellFormed(t: Table, infos: seq<TrackInfo>)
    requires WellFormed(t)
    ensures WellFormed(UpsertAll(t, infos))
  {
    if infos != [] {
      UpsertAllWellFormed(t, infos[..|infos| - 1]);
      UpsertWellFormed(UpsertAll(t, infos[..|infos| - 1]), infos[|infos| - 1]);
    }
  }

  /** A run of upserts adds exactly the run's hashes to the table's. */
  lemma {:induction false} UpsertAllHashes(t: Table, infos: seq<TrackInfo>)
    ensures Hashes(UpsertAll(t, infos).rows) == Hashes(t.rows) + InfoHashes(infos)
  {
    if infos != [] {
      var init := infos[..|infos| - 1];
      UpsertAllHashes(t, init);
      UpsertHashes(UpsertAll(t, init), infos[|infos| - 1]);
    }
  }

  /** Upserts never move, drop or re-identify an existing row: each row
      keeps its position, id, hash and play statistics. */
  lemma {:induction false} UpsertAllKeepsRows(t: Table, infos: seq<TrackInfo>)
    ensures var u := UpsertAll(t, infos);
      |u.rows| >= |t.rows| && forall i :: 0 <= i < |t.rows| ==> SameIdentity(u.rows[i], t.rows[i])
  {
    if infos != [] {
      var init := infos[..|infos| - 1];
      UpsertAllKeepsRows(t, init);
    }
  }

  /** Dropping the last record of a run changes neither the membership nor
      the last record of any other hash. */
  lemma LastForInit(infos: seq<TrackInfo>, h: string)
    requires infos != [] && infos[|infos| - 1].fileHash != h
    ensures h in InfoHashes(infos) <==> h in InfoHashes(infos[..|infos| - 1])
    ensures h in InfoHashes(infos) ==> LastFor(infos, h) == LastFor(infos[..|infos| - 1], h)
  {
  }

  /** Every row whose hash occurs in the run holds the metadata of the LAST
      record of the run with that hash. */
  ghost predicate Latest(rows: seq<Track>, infos: seq<TrackInfo>) {
    forall j :: 0 <= j < |rows| && rows[j].fileHash in InfoHashes(infos) ==>
      Refresh(rows[j], LastFor(infos, rows[j].fileHash)) == rows[j]
  }

  lemma UpsertKeepsLatest(v: Table, infos: seq<TrackInfo>)
    requires infos != [] && HashesUnique(v.rows)
    requires Latest(v.rows, infos[..|infos| - 1])
    ensures Latest(Upsert(v, infos[|infos| - 1]).rows, infos)
  {
    var last := infos[|infos| - 1];
    var u := Upsert(v, last);
    assert LastFor(infos, last.fileHash) == last;
    match FindHash(v.rows, last.fileHash)
    case Some(i) =>
      assert u.rows == v.rows[i := Refresh(v.rows[i], last)];
      forall j | 0 <= j < |u.rows| && u.rows[j].fileHash in InfoHashes(infos)
        ensures Refresh(u.rows[j], LastFor(infos, u.rows[j].fileHash)) == u.rows[j]
      {
        if j != i {
          assert u.rows[j] == v.rows[j];
          LastForInit(infos, v.rows[j].fileHash);
        }
      }
    case None =>
      assert u.rows == v.rows + [NewRow(v.lastId + 1, last)];
      forall j | 0 <= j < |u.rows| && u.rows[j].fileHash in InfoHashes(infos)
        ensures Refresh(u.rows[j], LastFor(infos, u.rows[j].fileHash)) == u.rows[j]
      {
        if j < |v.rows| {
          assert u.rows[j] == v.rows[j];
          assert v.rows[j] in v.rows;
          LastForInit(infos, v.rows[j].fileHash);
        }
      }
  }

  /** After a run of upserts, every row whose hash occurs in the run holds
      the metadata of the LAST record with that hash. */
  lemma {:induction false} UpsertAllLastWins(t: Table, infos: seq<TrackInfo>)
    requires HashesUnique(t.rows)
    ensures Latest(UpsertAll(t, infos).rows, infos)
  {
    if infos != [] {
      var init := infos[..|infos| - 1];
      UpsertAllLastWins(t, init);
      UpsertAllWellFormedHashes(t, init);
      UpsertKeepsLatest(UpsertAll(t, init), infos);
    }
  }

  /** Hash uniqueness survives a run of upserts from any table with unique
      hashes (not only well-formed ones). */
  lemma {:induction false} UpsertAllWellFormedHashes(t: Table, infos: seq<TrackInfo>)
    requires HashesUnique(t.rows)
    ensures HashesUnique(UpsertAll(t, infos).rows)
  {
    if infos != [] {
      var init := infos[..|infos| - 1];
      var last := infos[|infos| - 1];
      UpsertAllWellFormedHashes(t, init);
      var v := UpsertAll(t, init);
      match FindHash(v.rows, last.fileHash)
      case Some(i) =>
      case None =>
        forall k | 0 <= k < |v.rows| ensures v.rows[k].fileHash != last.fileHash {
          assert v.rows[k] in v.rows;
        }
    }
  }

  lemma RefreshTwice(r: Track, a: TrackInfo, b: TrackInfo)
    ensures Refresh(Refresh(r, a), b) == Refresh(r, b)
  {
  }

  /** Every row whose hash occurs in the run, refreshed with the run's last
      record for that hash. */
  function Overwrite(rows: seq<Track>, infos: seq<TrackInfo>): (o: seq<Track>)
    ensures |o| == |rows|
    ensures forall j :: 0 <= j < |rows| ==> o[j].fileHash == rows[j].fileHash
  {
    seq(|rows|, j requires 0 <= j < |rows| =>
      if rows[j].fileHash in InfoHashes(infos) then Refresh(rows[j], LastFor(infos, rows[j].fileHash))
      else rows[j])
  }

  /** One more record of a stored hash refreshes that row in place. */
  lemma OverwriteStep(rows: seq<Track>, infos: seq<TrackInfo>, i: nat)
    requires HashesUnique(rows) && infos != []
    requires i < |rows| && rows[i].fileHash == infos[|infos| - 1].fileHash
    ensures var o1 := Overwrite(rows, infos[..|infos| - 1]);
      o1[i := Refresh(o1[i], infos[|infos| - 1])] == Overwrite(rows, infos)
  {
    var init := infos[..|infos| - 1];
    var last := infos[|infos| - 1];
    var o1 := Overwrite(rows, init);
    var o2 := Overwrite(rows, infos);
    forall j | 0 <= j < |rows| ensures o1[i := Refresh(o1[i], last)][j] == o2[j] {
      if j == i {
        assert LastFor(infos, last.fileHash) == last;
      } else {
        LastForInit(infos, rows[j].fileHash);
      }
    }
  }

  /** When every hash of the run is already stored, the run only refreshes
      rows in place: no row is added, and each statement uses up one rowid. */
  lemma {:induction false} UpsertAllOverwrites(t: Table, infos: seq<TrackInfo>)
    requires HashesUnique(t.rows)
    requires InfoHashes(infos) <= Hashes(t.rows)
    ensures UpsertAll(t, infos) == Table(Overwrite(t.rows, infos), t.lastId + |infos|)
  {
    if infos != [] {
      var init := infos[..|infos| - 1];
      var last := infos[|infos| - 1];
      UpsertAllOverwrites(t, init);
      var o1 := Overwrite(t.rows, init);
      HashesIndex(t.rows, last.fileHash);
      var i :| 0 <= i < |t.rows| && t.rows[i].fileHash == last.fileHash;
      var k := FindHash(o1, last.fileHash);
      assert o1[i].fileHash == last.fileHash;
      assert k.Some?;
      assert k.value == i;
      OverwriteStep(t.rows, infos, i);
    }
  }

  // ---------------------------------------------------------------------------
  // The completed rescan

  /** After a completed rescan the catalog holds exactly the seen hashes. */
  lemma ReconciledHashes(t: Table, infos: seq<TrackInfo>)
    requires WellFormed(t)
    ensures WellFormed(Reconciled(t, infos))
    ensures Hashes(Reconciled(t, infos).rows) == InfoHashes(infos)
  {
    var u := UpsertAll(t, infos);
    UpsertAllWellFormed(t, infos);
    UpsertAllHashes(t, infos);
    DeleteUnseenSpec(u, InfoHashes(infos));
  }

  /** A row whose hash is seen again keeps its id and play statistics. */
  lemma ReconciledKeepsIdentity(t: Table, infos: seq<TrackInfo>, i: nat)
    requires WellFormed(t)
    requires i < |t.rows| && t.rows[i].fileHash in InfoHashes(infos)
    ensures exists r :: r in Reconciled(t, infos).rows && SameIdentity(r, t.rows[i])
  {
    var u := UpsertAll(t, infos);
    UpsertAllKeepsRows(t, infos);
    UpsertAllWellFormed(t, infos);
    DeleteUnseenSpec(u, InfoHashes(infos));
    assert u.rows[i] in Reconciled(t, infos).rows;
  }

  /** Every row of a reconciled table holds the metadata of the last record
      carrying its hash. */
  lemma ReconciledRowsAreLatest(t: Table, infos: seq<TrackInfo>)
    requires WellFormed(t)
    ensures var d := Reconciled(t, infos);
      forall r :: r in d.rows ==> r.fileHash in InfoHashes(infos) && Refresh(r, LastFor(infos, r.fileHash)) == r
  {
    var u := UpsertAll(t, infos);
    UpsertAllWellFormed(t, infos);
    UpsertAllLastWins(t, infos);
    DeleteUnseenSpec(u, InfoHashes(infos));
    forall r | r in Reconciled(t, infos).rows
      ensures r.fileHash in InfoHashes(infos) && Refresh(r, LastFor(infos, r.fileHash)) == r
    {
      var j :| 0 <= j < |u.rows| && u.rows[j] == r;
    }
  }

  /** Running the rescan a second time over the same listing changes no
      row, and its deletion step removes none; only the counter moves on by
      one rowid per record. */
  lemma ReconcileIdempotent(t: Table, infos: seq<TrackInfo>)
    requires WellFormed(t)
    ensures var once := Reconciled(t, infos);
      && UpsertAll(once, infos).rows == once.rows
      && Reconciled(once, infos).rows == once.rows
      && Reconciled(once, infos).lastId == once.lastId + |infos|
  {
    var once := Reconciled(t, infos);
    var s := InfoHashes(infos);
    ReconciledHashes(t, infos);
    ReconciledRowsAreLatest(t, infos);
    UpsertAllOverwrites(once, infos);
    assert Overwrite(once.rows, infos) == once.rows by {
      forall j | 0 <= j < |once.rows| ensures Overwrite(once.rows, infos)[j] == once.rows[j] {
        assert once.rows[j] in once.rows;
      }
    }
    assert Hashes(once.rows) - s == {};
    WithoutNothing(once.rows, {});
  }

  // ---------------------------------------------------------------------------
  // Runs of plain inserts (the first scan)

  predicate InfoHashesDistinct(infos: seq<TrackInfo>) {
    forall i, j :: 0 <= i < j < |infos| ==> infos[i].fileHash != infos[j].fileHash
  }

  /** A run of plain inserts succeeds exactly when its hashes are pairwise
      distinct and none is stored yet; it then builds the same table as the
      run of upserts. */
  lemma {:induction false} InsertAllSpec(t: Table, infos: seq<TrackInfo>)
    ensures InsertAll(t, infos).Success? <==>
      InfoHashesDistinct(infos) && InfoHashes(infos) !! Hashes(t.rows)
    ensures InsertAll(t, infos).Success? ==> InsertAll(t, infos).value == UpsertAll(t, infos)
  {
    if infos != [] {
      var init := infos[..|infos| - 1];
      var last := infos[|infos| - 1];
      InsertAllSpec(t, init);
      InfoHashesIndex(init, last.fileHash);
      assert forall k :: 0 <= k < |init| ==> init[k] == infos[k];
      assert InfoHashesDistinct(infos) <==>
        InfoHashesDistinct(init) && last.fileHash !in InfoHashes(init);
      if InsertAll(t, init).Success? {
        var u := UpsertAll(t, init);
        UpsertAllHashes(t, init);
        InsertVersusUpsert(u, last);
      }
    }
  }
}
