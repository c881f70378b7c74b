/** The music scanner (scripts/scan_music.py): hashing a file in chunks,
    the first scan that only inserts, and the rescan that upserts every
    supported file of the listing and then deletes the rows whose hash was
    not seen.  The directory listing is an input: a sequence of entries in
    the order `os.listdir` returns them, each with the bytes of its file.
    SHA-1 and mutagen's duration probe are parameters (`Env`). */
module ScanMusic {
  import opened Common
  import opened Models
  import opened Utils
  import opened Reconcile
  import Config

  /** The read size of `hash_file`. */
  const CHUNK_SIZE: nat := 8192

  /** What the scanner takes from outside: the music directory, the SHA-1
      hex digest of a byte string, and mutagen's parse of a file as a
      container (the truncated duration, or None when mutagen raises). */
  datatype Env = Env(musicDir: string, sha1: seq<byte> -> string, probe: (Container, seq<byte>) -> Option<nat>)

  /** One name of the listing with the bytes of its file. */
  datatype Entry = Entry(name: string, content: seq<byte>)

  // ---------------------------------------------------------------------------
  // hash_file

  /** `f.read(CHUNK_SIZE)` on a file positioned at `pos`. */
  function ReadChunk(content: seq<byte>, pos: nat): (c: seq<byte>)
    requires pos <= |content|
    ensures pos + |c| <= |content| && c == content[pos..pos + |c|]
    ensures c == [] <==> pos == |content|
  {
    content[pos..if pos + CHUNK_SIZE <= |content| then pos + CHUNK_SIZE else |content|]
  }

  /** `hashlib.sha1()`: an incremental digest over every byte fed so far. */
  class Digest {
    var fed: seq<byte>

    constructor ()
      ensures fed == []
    {
      fed := [];
    }

    /** `h.update(chunk)`. */
    method Update(chunk: seq<byte>)
      modifies this
      ensures fed == old(fed) + chunk
    {
      fed := fed + chunk;
    }

    /** `h.hexdigest()`: the digest of everything fed. */
    function HexDigest(sha1: seq<byte> -> string): string
      reads this
    {
      sha1(fed)
    }
  }

  /** `hash_file`: feeding the file chunk by chunk yields the digest of the
      whole content. */
  method HashFile(content: seq<byte>, sha1: seq<byte> -> string) returns (hex: string)
    ensures hex == sha1(content)
  {
    var h := new Digest();
    var pos := 0;
    var chunk := ReadChunk(content, pos);
    while chunk != []
      invariant pos <= |content| && h.fed == content[..pos]
      invariant chunk == ReadChunk(content, pos)
      decreases |content| - pos
    {
      h.Update(chunk);
      pos := pos + |chunk|;
      chunk := ReadChunk(content, pos);
    }
    assert content[..pos] == content;
    hex := h.HexDigest(sha1);
  }

  // ---------------------------------------------------------------------------
  // What the scanner does with each entry

  /** `f"{MUSIC_DIRECTORY}/{filename}"`. */
  function PathOf(env: Env, name: string): string {
    env.musicDir + "/" + name
  }

  /** The scanner's filter: `os.path.splitext(filename)[1]` is one of the
      supported extensions, compared case-sensitively. */
  predicate Supported(name: string) {
    SplitExt(name).1 in Config.SUPPORTED_FORMATS
  }

  /** The fate of one entry: skipped by the filter, failing in
      `extract_metadata`, or passed to the catalog as a record. */
  datatype Outcome = Skip | Fail(error: MetaError) | Keep(info: TrackInfo)

  function Classify(env: Env, e: Entry): (o: Outcome)
    ensures o.Skip? <==> !Supported(e.name)
    ensures o.Fail? ==> o.error.path == PathOf(env, e.name)
    ensures o.Keep? ==>
      && o.info.filePath == e.name
      && o.info.fileHash == env.sha1(e.content)
      && o.info.title == Title(PathOf(env, e.name))
      && o.info.author == "Unknown"
      && o.info.fileSize == |e.content|
  {
    if SplitExt(e.name).1 !in Config.SUPPORTED_FORMATS then Skip
    else
      match ExtractMetadata(PathOf(env, e.name), e.content, env.probe)
      case Failure(err) => Fail(err)
      case Success(md) => Keep(TrackInfo(e.name, env.sha1(e.content), md.title, md.author, md.duration, md.fileSize))
  }

  /** The outcome of every entry of the listing, in listing order. */
  function Outcomes(env: Env, files: seq<Entry>): (outs: seq<Outcome>)
    ensures |outs| == |files|
    ensures forall k :: 0 <= k < |files| ==> outs[k] == Classify(env, files[k])
  {
    if files == [] then []
    else
      var init := files[..|files| - 1];
      assert forall k :: 0 <= k < |init| ==> init[k] == files[k];
      Outcomes(env, init) + [Classify(env, files[|files| - 1])]
  }

  /** mutagen reads the entry: its extension has a container branch, and
      that container class parses the bytes. */
  predicate Parses(env: Env, e: Entry) {
    var c := ContainerFor(SplitExt(e.name).1);
    c.Some? && env.probe(c.value, e.content).Some?
  }

  /** A supported entry fails exactly when mutagen does not read it:
      `.flac` and `.ogg` pass the scanner's filter but have no container
      branch in `extract_metadata` (`audio` stays unbound), and the other
      three fail when their container class cannot parse the bytes. */
  lemma ClassifyFails(env: Env, e: Entry)
    requires Supported(e.name)
    ensures var ext := SplitExt(e.name).1;
      ContainerFor(ext).None? <==> ext == ".flac" || ext == ".ogg"
    ensures Classify(env, e).Fail? <==> !Parses(env, e)
    ensures Classify(env, e).Fail? ==>
      Classify(env, e).error == (if ContainerFor(SplitExt(e.name).1).None? then UnboundAudio(PathOf(env, e.name))
                                 else ParseFailure(PathOf(env, e.name)))
  {
    var ext := SplitExt(e.name).1;
    var path := PathOf(env, e.name);
    DispatchOfPath(env, e.name);
    ContainerForSupported(ext);
    var r := ExtractMetadata(path, e.content, env.probe);
    assert Classify(env, e).Fail? <==> r.Failure?;
    assert Classify(env, e).Fail? ==> Classify(env, e).error == r.error;
  }

  /** The container chosen for a scanned file is the one its extension
      names. */
  lemma DispatchOfPath(env: Env, name: string)
    requires Supported(name)
    ensures Dispatch(PathOf(env, name)) == ContainerFor(SplitExt(name).1)
  {
    var ext := SplitExt(name).1;
    assert EndsWith(name, ext) by {
      EndsWithAppend(SplitExt(name).0, ext);
    }
    DispatchUnderDir(env.musicDir, name, ext);
  }

  /** Putting a directory in front of a name does not change the container
      its extension picks. */
  lemma DispatchUnderDir(dir: string, name: string, ext: string)
    requires ext in Config.SUPPORTED_FORMATS && EndsWith(name, ext)
    ensures Dispatch(dir + "/" + name) == ContainerFor(ext)
  {
    var path := dir + "/" + name;
    assert path[|path| - |ext|..] == name[|name| - |ext|..];
    DispatchSupported(path, ext);
  }

  lemma EndsWithAppend(s: string, t: string)
    ensures EndsWith(s + t, t)
  {
    assert (s + t)[|s + t| - |t|..] == t;
  }

  // ---------------------------------------------------------------------------
  // The records a run of outcomes yields

  /** No entry failed. */
  predicate Completes(outs: seq<Outcome>) {
    forall k :: 0 <= k < |outs| ==> !outs[k].Fail?
  }

  /** The records passed to the catalog, in order. */
  function Records(outs: seq<Outcome>): seq<TrackInfo> {
    if outs == [] then []
    else Records(outs[..|outs| - 1]) + (if outs[|outs| - 1].Keep? then [outs[|outs| - 1].info] else [])
  }

  /** The number of entries the filter lets through. */
  function Passed(outs: seq<Outcome>): nat {
    if outs == [] then 0
    else Passed(outs[..|outs| - 1]) + (if outs[|outs| - 1].Skip? then 0 else 1)
  }

  lemma RecordsSnoc(outs: seq<Outcome>, i: nat)
    requires i < |outs|
    ensures Records(outs[..i + 1]) == Records(outs[..i]) + (if outs[i].Keep? then [outs[i].info] else [])
  {
    assert outs[..i + 1][..i] == outs[..i];
  }

  lemma {:induction false} RecordsAppend(a: seq<Outcome>, b: seq<Outcome>)
    ensures Records(a + b) == Records(a) + Records(b)
  {
    if b == [] {
      assert a + b == a;
    } else {
      RecordsAppend(a, b[..|b| - 1]);
      assert (a + b)[..|a + b| - 1] == a + b[..|b| - 1];
    }
  }

  lemma InfoHashesSnoc(infos: seq<TrackInfo>, more: seq<TrackInfo>)
    requires |more| <= 1
    ensures InfoHashes(infos + more) == InfoHashes(infos) + (if more == [] then {} else {more[0].fileHash})
  {
    if more == [] {
      assert infos + more == infos;
    } else {
      assert (infos + more)[..|infos|] == infos;
    }
  }

  /** When no entry fails, the scanner's `total_added` is the number of
      entries the filter lets through: updated rows count as added. */
  lemma {:induction false} AddedCountsPassed(outs: seq<Outcome>)
    requires Completes(outs)
    ensures |Records(outs)| == Passed(outs)
  {
    if outs != [] {
      var init := outs[..|outs| - 1];
      assert forall k :: 0 <= k < |init| ==> init[k] == outs[k];
      AddedCountsPassed(init);
    }
  }

  /** The hashes seen are exactly those of the kept entries. */
  lemma {:induction false} SeenHashes(outs: seq<Outcome>, h: string)
    ensures h in InfoHashes(Records(outs)) <==>
      exists k :: 0 <= k < |outs| && outs[k].Keep? && outs[k].info.fileHash == h
  {
    if outs != [] {
      var init := outs[..|outs| - 1];
      var last := outs[|outs| - 1];
      SeenHashes(init, h);
      InfoHashesSnoc(Records(init), if last.Keep? then [last.info] else []);
      assert forall k :: 0 <= k < |init| ==> init[k] == outs[k];
      if last.Keep? && last.info.fileHash == h {
        assert outs[|outs| - 1] == last;
      }
    }
  }

  /** A kept entry's record sits right after the records of the entries
      before it. */
  lemma RecordPosition(outs: seq<Outcome>, k: nat)
    requires k < |outs| && outs[k].Keep?
    ensures var p := |Records(outs[..k])|;
      p < |Records(outs)| && Records(outs)[p] == outs[k].info
  {
    RecordsSnoc(outs, k);
    RecordsAppend(outs[..k + 1], outs[k + 1..]);
    assert outs[..k + 1] + outs[k + 1..] == outs;
  }

  /** Two kept entries with the same bytes give two records with the same
      hash. */
  lemma DuplicateRecords(outs: seq<Outcome>, i: nat, j: nat)
    requires i < j < |outs| && outs[i].Keep? && outs[j].Keep?
    requires outs[i].info.fileHash == outs[j].info.fileHash
    ensures !InfoHashesDistinct(Records(outs))
  {
    RecordPosition(outs, i);
    RecordPosition(outs, j);
    RecordsSnoc(outs, i);
    RecordsAppend(outs[..i + 1], outs[i + 1..j]);
    assert outs[..i + 1] + outs[i + 1..j] == outs[..j];
  }

  // ---------------------------------------------------------------------------
  // scan_music_directory and rescan_music_directory

  datatype ScanError = MetadataFailure(meta: MetaError) | DatabaseFailure(db: DbError)

  /** The counters the scanner prints. */
  datatype ScanReport = ScanReport(scanned: nat, added: nat)
  datatype RescanReport = RescanReport(scanned: nat, added: nat, removed: nat)

  /** Why a pass stopped at entry `k`: no earlier entry failed, and either
      entry `k` failed in `extract_metadata` or (for the first scan) its
      hash was already stored. */
  ghost predicate StoppedAt(outs: seq<Outcome>, k: int, stored: Table, e: ScanError) {
    && 0 <= k < |outs|
    && Completes(outs[..k])
    && match outs[k]
       case Skip => false
       case Fail(err) => e == MetadataFailure(err)
       case Keep(info) => info.fileHash in Hashes(stored.rows) && e == DatabaseFailure(UniqueViolation(info.fileHash))
  }

  lemma {:induction false} InsertAllFailurePersists(t: Table, a: seq<TrackInfo>, b: seq<TrackInfo>)
    requires InsertAll(t, a).Failure?
    ensures InsertAll(t, a + b).Failure?
  {
    if b == [] {
      assert a + b == a;
    } else {
      InsertAllFailurePersists(t, a, b[..|b| - 1]);
      assert (a + b)[..|a + b| - 1] == a + b[..|b| - 1];
    }
  }

  /** An entry that neither fails nor collides extends a scan that has gone
      well so far. */
  lemma ScanAdvance(t0: Table, outs: seq<Outcome>, i: nat, before: Table, after: Table)
    requires i < |outs| && Completes(outs[..i])
    requires InsertAll(t0, Records(outs[..i])) == Success(before)
    requires match outs[i]
      case Skip => after == before
      case Fail(_) => false
      case Keep(info) => Insert(before, info) == Success(after)
    ensures Completes(outs[..i + 1])
    ensures InsertAll(t0, Records(outs[..i + 1])) == Success(after)
    ensures |Records(outs[..i + 1])| == |Records(outs[..i])| + if outs[i].Keep? then 1 else 0
  {
    RecordsSnoc(outs, i);
    assert outs[..i + 1] == outs[..i] + [outs[i]];
    var prev := Records(outs[..i]);
    if outs[i].Keep? {
      assert (prev + [outs[i].info])[..|prev|] == prev;
    } else {
      assert prev + [] == prev;
    }
  }

  /** An entry that fails, or whose hash is already stored, stops the scan
      there, and the whole listing does not scan cleanly. */
  lemma ScanStop(t0: Table, outs: seq<Outcome>, i: nat, before: Table, e: ScanError)
    requires i < |outs| && Completes(outs[..i])
    requires InsertAll(t0, Records(outs[..i])) == Success(before)
    requires match outs[i]
      case Skip => false
      case Fail(err) => e == MetadataFailure(err)
      case Keep(info) => Insert(before, info).Failure? && e == DatabaseFailure(UniqueViolation(info.fileHash))
    ensures StoppedAt(outs, i, before, e)
    ensures !(Completes(outs) && InsertAll(t0, Records(outs)).Success?)
  {
    if outs[i].Keep? {
      var info := outs[i].info;
      assert FindHash(before.rows, info.fileHash).Some?;
      RecordsSnoc(outs, i);
      var prev := Records(outs[..i]);
      assert (prev + [info])[..|prev|] == prev;
      InsertAllFailurePersists(t0, Records(outs[..i + 1]), Records(outs[i + 1..]));
      RecordsAppend(outs[..i + 1], outs[i + 1..]);
      assert outs[..i + 1] + outs[i + 1..] == outs;
    } else {
      assert !Completes(outs) by { assert outs[i].Fail?; }
    }
  }

  /** The state of the scan loop after the entries with outcomes `done`:
      none failed, every record was inserted, and the count is theirs. */
  ghost predicate InsertedSoFar(t0: Table, done: seq<Outcome>, t: Table, added: nat) {
    && Completes(done)
    && InsertAll(t0, Records(done)) == Success(t)
    && added == |Records(done)|
  }

  /** One pass of `scan_music_directory`'s loop: a supported entry has its
      metadata extracted, its content hashed and is inserted; the result
      says whether a row was added. */
  method ScanEntry(db: Catalog, env: Env, e: Entry) returns (r: Result<bool, ScanError>)
    requires db.Valid()
    modifies db
    ensures db.Valid()
    ensures match Classify(env, e)
      case Skip => r == Success(false) && db.State() == old(db.State())
      case Fail(err) => r == Failure(MetadataFailure(err)) && db.State() == old(db.State())
      case Keep(info) =>
        match Insert(old(db.State()), info)
        case Success(t) => r == Success(true) && db.State() == t
        case Failure(err) => r == Failure(DatabaseFailure(err)) && db.State() == old(db.State())
  {
    var filename := e.name;
    if SplitExt(filename).1 !in Config.SUPPORTED_FORMATS {
      return Success(false);
    }
    var metadata := ExtractMetadata(PathOf(env, filename), e.content, env.probe);
    if metadata.Failure? {
      return Failure(MetadataFailure(metadata.error));
    }
    var filehash := HashFile(e.content, env.sha1);
    var info := TrackInfo(filename, filehash, metadata.value.title, metadata.value.author,
                          metadata.value.duration, metadata.value.fileSize);
    assert Classify(env, e) == Keep(info);
    var inserted := db.InsertTrack(info);
    if inserted.Failure? {
      return Failure(DatabaseFailure(inserted.error));
    }
    r := Success(true);
  }

  /** `scan_music_directory`: `insert_track` for each supported entry; the
      first failing file or already stored hash aborts the scan with the
      earlier inserts kept (each was committed). */
  method ScanMusicDirectory(db: Catalog, env: Env, files: seq<Entry>) returns (r: Result<ScanReport, ScanError>)
    requires db.Valid()
    modifies db
    ensures db.Valid()
    ensures var outs := Outcomes(env, files);
      r.Success? <==> Completes(outs) && InsertAll(old(db.State()), Records(outs)).Success?
    ensures var outs := Outcomes(env, files);
      r.Success? ==>
        && db.State() == InsertAll(old(db.State()), Records(outs)).value
        && r.value == ScanReport(|files|, |Records(outs)|)
    ensures var outs := Outcomes(env, files);
      r.Failure? ==> exists k ::
        && StoppedAt(outs, k, db.State(), r.error)
        && InsertAll(old(db.State()), Records(outs[..k])) == Success(db.State())
  {
    ghost var outs := Outcomes(env, files);
    var totalScanned := 0;
    var totalAdded := 0;
    var i := 0;
    while i < |files|
      invariant i <= |files| && db.Valid() && totalScanned == i
      invariant InsertedSoFar(old(db.State()), outs[..i], db.State(), totalAdded)
    {
      ghost var before := db.State();
      var step := ScanEntry(db, env, files[i]);
      assert outs[i] == Classify(env, files[i]);
      totalScanned := totalScanned + 1;
      if step.Failure? {
        ScanStop(old(db.State()), outs, i, before, step.error);
        return Failure(step.error);
      }
      ScanAdvance(old(db.State()), outs, i, before, db.State());
      if step.value {
        totalAdded := totalAdded + 1;
      }
      i := i + 1;
    }
    assert outs[..i] == outs;
    r := Success(ScanReport(totalScanned, totalAdded));
  }

  /** An entry that does not fail extends a rescan: the table is the
      upsert of every record so far, and the seen hashes are theirs. */
  lemma RescanAdvance(t0: Table, outs: seq<Outcome>, i: nat, before: Table, after: Table, seen: set<string>)
    requires i < |outs| && Completes(outs[..i])
    requires before == UpsertAll(t0, Records(outs[..i])) && seen == InfoHashes(Records(outs[..i]))
    requires match outs[i]
      case Skip => after == before
      case Fail(_) => false
      case Keep(info) => after == Upsert(before, info)
    ensures Completes(outs[..i + 1])
    ensures after == UpsertAll(t0, Records(outs[..i + 1]))
    ensures InfoHashes(Records(outs[..i + 1])) == seen + if outs[i].Keep? then {outs[i].info.fileHash} else {}
    ensures |Records(outs[..i + 1])| == |Records(outs[..i])| + if outs[i].Keep? then 1 else 0
  {
    RecordsSnoc(outs, i);
    assert outs[..i + 1] == outs[..i] + [outs[i]];
    var prev := Records(outs[..i]);
    if outs[i].Keep? {
      InfoHashesSnoc(prev, [outs[i].info]);
      assert (prev + [outs[i].info])[..|prev|] == prev;
    } else {
      InfoHashesSnoc(prev, []);
      assert prev + [] == prev;
    }
  }

  /** The state of the rescan loop after the entries with outcomes `done`:
      none failed, each record was upserted, and the seen hashes and the
      count are those of the records. */
  ghost predicate UpsertedSoFar(t0: Table, done: seq<Outcome>, t: Table, seen: set<string>, added: nat) {
    && Completes(done)
    && t == UpsertAll(t0, Records(done))
    && seen == InfoHashes(Records(done))
    && added == |Records(done)|
  }

  /** One pass of `rescan_music_directory`'s loop: a supported entry has its
      metadata extracted, its content hashed and is upserted; the result
      is the hash seen, if any. */
  method RescanEntry(db: Catalog, env: Env, e: Entry) returns (r: Result<Option<string>, ScanError>)
    requires db.Valid()
    modifies db
    ensures db.Valid()
    ensures match Classify(env, e)
      case Skip => r == Success(None) && db.State() == old(db.State())
      case Fail(err) => r == Failure(MetadataFailure(err)) && db.State() == old(db.State())
      case Keep(info) => r == Success(Some(info.fileHash)) && db.State() == Upsert(old(db.State()), info)
  {
    var filename := e.name;
    if SplitExt(filename).1 !in Config.SUPPORTED_FORMATS {
      return Success(None);
    }
    var metadata := ExtractMetadata(PathOf(env, filename), e.content, env.probe);
    if metadata.Failure? {
      return Failure(MetadataFailure(metadata.error));
    }
    var filehash := HashFile(e.content, env.sha1);
    var info := TrackInfo(filename, filehash, metadata.value.title, metadata.value.author,
                          metadata.value.duration, metadata.value.fileSize);
    assert Classify(env, e) == Keep(info);
    var _ := db.InsertOrUpdateTrack(info);
    r := Success(Some(filehash));
  }

  /** The loop of `rescan_music_directory`: `insert_or_update_track` for
      each supported entry, collecting the hashes seen and counting the
      records.  A failing file stops it after the earlier upserts. */
  method UpsertListing(db: Catalog, env: Env, files: seq<Entry>) returns (r: Result<(nat, set<string>), ScanError>)
    requires db.Valid()
    modifies db
    ensures db.Valid()
    ensures r.Success? <==> Completes(Outcomes(env, files))
    ensures var infos := Records(Outcomes(env, files));
      r.Success? ==>
        && db.State() == UpsertAll(old(db.State()), infos)
        && r.value == (|infos|, InfoHashes(infos))
    ensures var outs := Outcomes(env, files);
      r.Failure? ==> exists k ::
        && StoppedAt(outs, k, db.State(), r.error)
        && outs[k].Fail?
        && db.State() == UpsertAll(old(db.State()), Records(outs[..k]))
  {
    ghost var outs := Outcomes(env, files);
    var totalAdded := 0;
    var seenHashes: set<string> := {};
    var i := 0;
    while i < |files|
      invariant i <= |files| && db.Valid()
      invariant UpsertedSoFar(old(db.State()), outs[..i], db.State(), seenHashes, totalAdded)
    {
      ghost var before := db.State();
      var step := RescanEntry(db, env, files[i]);
      assert outs[i] == Classify(env, files[i]);
      if step.Failure? {
        assert StoppedAt(outs, i, db.State(), step.error);
        assert outs[i].Fail? && db.State() == UpsertAll(old(db.State()), Records(outs[..i]));
        assert !Completes(outs);
        return Failure(step.error);
      }
      RescanAdvance(old(db.State()), outs, i, before, db.State(), seenHashes);
      if step.value.Some? {
        seenHashes := seenHashes + {step.value.value};
        totalAdded := totalAdded + 1;
      }
      i := i + 1;
    }
    assert outs[..i] == outs;
    r := Success((totalAdded, seenHashes));
  }

  /** `rescan_music_directory`: the upserts of every supported entry, then
      `del_by_unseen_hash` of the hashes seen.  A failing file aborts it
      after the earlier upserts and before any deletion. */
  method RescanMusicDirectory(db: Catalog, env: Env, files: seq<Entry>) returns (r: Result<RescanReport, ScanError>)
    requires db.Valid()
    modifies db
    ensures db.Valid()
    ensures r.Success? <==> Completes(Outcomes(env, files))
    ensures var infos := Records(Outcomes(env, files));
      r.Success? ==>
        && db.State() == Reconciled(old(db.State()), infos)
        && r.value.scanned == |files|
        && r.value.added == |infos|
        && r.value.removed == |UpsertAll(old(db.State()), infos).rows| - |db.rows|
    ensures var outs := Outcomes(env, files);
      r.Failure? ==> exists k ::
        && StoppedAt(outs, k, db.State(), r.error)
        && outs[k].Fail?
        && db.State() == UpsertAll(old(db.State()), Records(outs[..k]))
  {
    var upserted := UpsertListing(db, env, files);
    if upserted.Failure? {
      return Failure(upserted.error);
    }
    var (totalAdded, seenHashes) := upserted.value;
    var totalRemoved := db.DelByUnseenHash(seenHashes);
    r := Success(RescanReport(|files|, totalAdded, totalRemoved));
  }

  // ---------------------------------------------------------------------------
  // What a scan promises about a listing

  /** A rescan completes exactly when mutagen reads every supported entry
      of the listing; in particular one supported `.flac` or `.ogg` name
      makes it fail. */
  lemma RescanSucceedsIff(env: Env, files: seq<Entry>)
    ensures Completes(Outcomes(env, files)) <==>
      forall k :: 0 <= k < |files| && Supported(files[k].name) ==> Parses(env, files[k])
    ensures (exists k :: 0 <= k < |files| && Supported(files[k].name) &&
               (SplitExt(files[k].name).1 == ".flac" || SplitExt(files[k].name).1 == ".ogg")) ==>
      !Completes(Outcomes(env, files))
  {
    forall k | 0 <= k < |files| && Supported(files[k].name)
      ensures Outcomes(env, files)[k].Fail? <==> !Parses(env, files[k])
      ensures SplitExt(files[k].name).1 == ".flac" || SplitExt(files[k].name).1 == ".ogg" ==>
        Outcomes(env, files)[k].Fail?
    {
      ClassifyFails(env, files[k]);
    }
  }

  /** After a completed rescan the catalog holds exactly the digests of the
      files that were scanned, and each row keeps the path and metadata of
      the last listed file with that digest. */
  lemma RescanResult(t: Table, env: Env, files: seq<Entry>)
    requires WellFormed(t)
    ensures var d := Reconciled(t, Records(Outcomes(env, files)));
      && WellFormed(d)
      && (forall h :: h in Hashes(d.rows) <==>
            exists k :: 0 <= k < |files| && Outcomes(env, files)[k].Keep? && env.sha1(files[k].content) == h)
      && (forall r :: r in d.rows ==>
            && r.fileHash in InfoHashes(Records(Outcomes(env, files)))
            && Refresh(r, LastFor(Records(Outcomes(env, files)), r.fileHash)) == r)
  {
    var outs := Outcomes(env, files);
    ReconciledHashes(t, Records(outs));
    ReconciledRowsAreLatest(t, Records(outs));
    forall h ensures h in InfoHashes(Records(outs)) <==>
      exists k :: 0 <= k < |files| && outs[k].Keep? && env.sha1(files[k].content) == h
    {
      SeenHashes(outs, h);
    }
  }

  /** Of two records with the same hash, the reconciled table keeps one
      row, carrying the later record's path. */
  lemma LaterRecordWins(t: Table, x: TrackInfo, y: TrackInfo)
    requires WellFormed(t)
    requires x.fileHash == y.fileHash
    ensures var d := Reconciled(t, [x, y]);
      && (exists i :: 0 <= i < |d.rows| && d.rows[i].fileHash == x.fileHash)
      && (forall i, j :: (0 <= i < |d.rows| && 0 <= j < |d.rows| &&
            d.rows[i].fileHash == x.fileHash && d.rows[j].fileHash == x.fileHash) ==> i == j)
      && (forall r :: r in d.rows && r.fileHash == x.fileHash ==> r.filePath == y.filePath)
  {
    var infos := [x, y];
    var d := Reconciled(t, infos);
    ReconciledHashes(t, infos);
    ReconciledRowsAreLatest(t, infos);
    assert infos[..1] == [x];
    assert InfoHashes(infos) == {x.fileHash};
    HashesIndex(d.rows, x.fileHash);
    assert LastFor(infos, x.fileHash) == y;
  }

  lemma RecordsOfTwo(x: Outcome, y: Outcome)
    requires x.Keep? && y.Keep?
    ensures Records([x, y]) == [x.info, y.info]
  {
    assert [x][..0] == [];
    assert Records([x]) == [x.info];
    assert [x, y][..1] == [x];
  }

  /** Two listed files with the same bytes, both scanned: the rescan keeps
      ONE row for that content, named after the file listed later. */
  lemma DuplicateContentKeepsLaterName(t: Table, env: Env, a: Entry, b: Entry)
    requires WellFormed(t)
    requires Classify(env, a).Keep? && Classify(env, b).Keep?
    requires a.content == b.content
    ensures var d := Reconciled(t, Records(Outcomes(env, [a, b])));
      && (exists i :: 0 <= i < |d.rows| && d.rows[i].fileHash == env.sha1(a.content))
      && (forall i, j :: (0 <= i < |d.rows| && 0 <= j < |d.rows| &&
            d.rows[i].fileHash == env.sha1(a.content) && d.rows[j].fileHash == env.sha1(a.content)) ==> i == j)
      && (forall r :: r in d.rows && r.fileHash == env.sha1(a.content) ==> r.filePath == b.name)
  {
    var oa := Classify(env, a);
    var ob := Classify(env, b);
    OutcomesOfTwo(env, a, b);
    RecordsOfTwo(oa, ob);
    assert oa.info.fileHash == env.sha1(a.content) == ob.info.fileHash;
    assert ob.info.filePath == b.name;
    LaterRecordWins(t, oa.info, ob.info);
  }

  lemma OutcomesOfTwo(env: Env, a: Entry, b: Entry)
    ensures Outcomes(env, [a, b]) == [Classify(env, a), Classify(env, b)]
  {
    assert [a, b][..1] == [a];
    assert [a][..0] == [];
  }

  /** The first scan of a listing in which two supported files share their
      bytes fails (on metadata or on UNIQUE), whatever the catalog held. */
  lemma ScanOfDuplicateContentFails(t: Table, env: Env, files: seq<Entry>, i: nat, j: nat)
    requires i < j < |files|
    requires Supported(files[i].name) && Supported(files[j].name)
    requires files[i].content == files[j].content
    ensures var outs := Outcomes(env, files);
      !(Completes(outs) && InsertAll(t, Records(outs)).Success?)
  {
    var outs := Outcomes(env, files);
    if Completes(outs) {
      assert outs[i] == Classify(env, files[i]) && outs[j] == Classify(env, files[j]);
      DuplicateRecords(outs, i, j);
      InsertAllSpec(t, Records(outs));
    }
  }

  /** On a catalog the rescan already reconciled with the same listing, a
      second rescan changes no row and removes none. */
  lemma RescanTwiceNoChange(t: Table, env: Env, files: seq<Entry>)
    requires WellFormed(t)
    ensures var infos := Records(Outcomes(env, files));
      var once := Reconciled(t, infos);
      && Reconciled(once, infos).rows == once.rows
      && |UpsertAll(once, infos).rows| - |Reconciled(once, infos).rows| == 0
  {
    ReconcileIdempotent(t, Records(Outcomes(env, files)));
  }
}
