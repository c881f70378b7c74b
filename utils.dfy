/** File-name helpers of the backend (backend/utils.py): the MIME type of a
    stream, and the parts of `extract_metadata` that do not parse audio.
    Python's `os.path.splitext` and `os.path.basename` (POSIX flavour) are
    written out because the scanner and the MIME lookup depend on their exact
    behaviour. */
module Utils {
  import opened Common
  import Config

  /** `os.path.splitext(p)`: the extension starts at the last '.' after the
      last '/', unless everything between that '/' and the dot is dots. */
  function SplitExt(p: string): (r: (string, string))
    ensures r.0 + r.1 == p
    ensures r.1 == [] || (r.1[0] == '.' && '.' !in r.1[1..] && '/' !in r.1)
    ensures var sep, dot := LastIndexOf(p, '/'), LastIndexOf(p, '.');
      r.1 != [] <==> dot > sep && exists k :: sep < k < dot && p[k] != '.'
    ensures r.1 != [] ==> |r.0| == LastIndexOf(p, '.')
  {
    var sep := LastIndexOf(p, '/');
    var dot := LastIndexOf(p, '.');
    if dot > sep && exists k :: sep + 1 <= k < dot && p[k] != '.' then
      assert forall j :: dot < j < |p| ==> p[j] != '.' && p[j] != '/';
      assert p[..dot] + p[dot..] == p;
      (p[..dot], p[dot..])
    else
      (p, [])
  }

  /** `os.path.basename(p)`: the text after the last '/'. */
  function Basename(p: string): (b: string)
    ensures '/' !in b
    ensures EndsWith(p, b)
    ensures |b| == |p| || p[|p| - |b| - 1] == '/'
  {
    var k := LastIndexOf(p, '/');
    assert forall j :: k < j < |p| ==> p[j] != '/';
    p[k + 1..]
  }

  /** The title `extract_metadata` stores: `basename(path).split('.')[0]`,
      the base name up to its first '.'. */
  function Title(path: string): (t: string)
    ensures StartsWith(Basename(path), t)
    ensures '.' !in t
    ensures |t| < |Basename(path)| ==> Basename(path)[|t|] == '.'
  {
    var b := Basename(path);
    b[..FirstIndexOf(b, '.')]
  }

  /** `mimetype_map` of `get_mimetype`. */
  const MimeTypes: map<string, string> := map[
    ".mp3" := "audio/mpeg",
    ".flac" := "audio/flac",
    ".ogg" := "audio/ogg",
    ".m4a" := "audio/mp4",
    ".wav" := "audio/wav"]

  /** `get_mimetype`: the map entry of a supported extension, `audio/mpeg`
      otherwise.  The lookup never fails: every supported extension is a key
      (Dafny checks the indexing below). */
  function GetMimetype(path: string): (m: string)
    ensures m in MimeTypes.Values
    ensures SplitExt(path).1 in Config.SUPPORTED_FORMATS ==>
      SplitExt(path).1 in MimeTypes && m == MimeTypes[SplitExt(path).1]
    ensures SplitExt(path).1 !in Config.SUPPORTED_FORMATS ==> m == "audio/mpeg"
  {
    var extension := SplitExt(path).1;
    if extension in Config.SUPPORTED_FORMATS then
      assert MimeTypes[".mp3"] == "audio/mpeg";
      MimeTypes[extension]
    else
      assert MimeTypes[".mp3"] == "audio/mpeg";
      "audio/mpeg"
  }

  /** A bare file name `stem + ext` splits into exactly those two parts when
      the stem has a character other than '.' and ext is one dot-suffix. */
  lemma SplitExtOfName(stem: string, ext: string)
    requires '/' !in stem && '/' !in ext
    requires exists k :: 0 <= k < |stem| && stem[k] != '.'
    requires |ext| >= 1 && ext[0] == '.' && '.' !in ext[1..]
    ensures SplitExt(stem + ext) == (stem, ext)
  {
    var p := stem + ext;
    assert LastIndexOf(p, '/') == -1;
    assert LastIndexOf(p, '.') == |stem| by {
      assert p[|stem|] == '.';
      forall j | |stem| < j < |p| ensures p[j] != '.' {
        assert p[j] == ext[1..][j - |stem| - 1];
      }
    }
    var k :| 0 <= k < |stem| && stem[k] != '.';
    assert p[k] != '.';
    assert p[..|stem|] == stem && p[|stem|..] == ext;
  }

  /** A path `dir/stem.ext`, as `os.path.join` builds it from the music
      directory and a stored file name, splits at the name's own dot,
      whatever dots and slashes the directory holds. */
  lemma SplitExtOfPath(dir: string, stem: string, ext: string)
    requires '/' !in stem && '/' !in ext
    requires exists k :: 0 <= k < |stem| && stem[k] != '.'
    requires |ext| >= 1 && ext[0] == '.' && '.' !in ext[1..]
    ensures SplitExt(dir + "/" + stem + ext) == (dir + "/" + stem, ext)
  {
    var head := dir + "/";
    var p := head + stem + ext;
    var s := |head|;
    var d := s + |stem|;
    assert forall j :: s <= j < d ==> p[j] == stem[j - s];
    assert forall j :: d <= j < |p| ==> p[j] == ext[j - d];
    assert p[|dir|] == '/';
    LastIndexOfAt(p, '/', |dir|);
    forall j | d < j < |p| ensures p[j] != '.' {
      assert p[j] == ext[1..][j - d - 1];
    }
    LastIndexOfAt(p, '.', d);
    var k :| 0 <= k < |stem| && stem[k] != '.';
    assert p[s + k] != '.';
    assert p[..d] == head + stem && p[d..] == ext;
  }

  /** The path the stream route passes, the music directory joined with a
      stored name whose extension is supported, gets that extension's entry
      of the table: `.mp3` `audio/mpeg`, `.flac` `audio/flac`, `.ogg`
      `audio/ogg`, `.m4a` `audio/mp4` and `.wav` `audio/wav`. */
  lemma MimetypeOfSupported(dir: string, stem: string, ext: string)
    requires '/' !in stem
    requires exists k :: 0 <= k < |stem| && stem[k] != '.'
    requires ext in Config.SUPPORTED_FORMATS
    ensures GetMimetype(dir + "/" + stem + ext) == MimeTypes[ext]
    ensures ext == ".mp3" ==> GetMimetype(dir + "/" + stem + ext) == "audio/mpeg"
    ensures ext == ".flac" ==> GetMimetype(dir + "/" + stem + ext) == "audio/flac"
    ensures ext == ".ogg" ==> GetMimetype(dir + "/" + stem + ext) == "audio/ogg"
    ensures ext == ".m4a" ==> GetMimetype(dir + "/" + stem + ext) == "audio/mp4"
    ensures ext == ".wav" ==> GetMimetype(dir + "/" + stem + ext) == "audio/wav"
  {
    assert ext[0] == '.' && '.' !in ext[1..] && '/' !in ext;
    SplitExtOfPath(dir, stem, ext);
  }

  lemma LastIndexOfAt(s: string, c: char, k: int)
    requires -1 <= k < |s|
    requires k >= 0 ==> s[k] == c
    requires forall j :: k < j < |s| ==> s[j] != c
    ensures LastIndexOf(s, c) == k
  {
  }

  /** The membership test is exact: an upper-case extension, a name without
      extension and a hidden file named like an extension all fall back to
      the default. */
  lemma MimetypeDefaults()
    ensures GetMimetype("song.MP3") == "audio/mpeg"
    ensures GetMimetype("song") == "audio/mpeg"
    ensures GetMimetype(".flac") == "audio/mpeg"
  {
    var s := "song";
    assert s[0] == 's';
    SplitExtOfName(s, ".MP3");
    assert s + ".MP3" == "song.MP3";
    LastIndexOfAt(s, '.', -1);
    LastIndexOfAt(".flac", '.', 0);
  }

  /** The title cuts at the first '.', while `splitext` cuts at the last. */
  lemma TitleVersusSplitExt()
    ensures Title("music/a.b.mp3") == "a"
    ensures SplitExt("a.b.mp3") == ("a.b", ".mp3")
  {
    var p := "music/a.b.mp3";
    LastIndexOfAt(p, '/', 5);
    assert p[6..] == "a.b.mp3";
    var b := "a.b.mp3";
    assert FirstIndexOf(b, '.') == 1 by {
      var k := FirstIndexOf(b, '.');
      assert b[0] != '.' && b[1] == '.';
    }
    assert b[..1] == "a";
    var stem := "a.b";
    assert stem[0] != '.';
    SplitExtOfName(stem, ".mp3");
    assert stem + ".mp3" == b;
  }

  // ---------------------------------------------------------------------------
  // extract_metadata

  /** The mutagen container class chosen by file name. */
  datatype Container = MP3 | WAVE | MP4

  /** The `if`/`elif` chain on `file_path.lower().endswith(...)`; None when
      no branch matches and `audio` stays unbound. */
  function Dispatch(path: string): Option<Container> {
    var low := Lower(path);
    if EndsWith(low, ".mp3") then Some(MP3)
    else if EndsWith(low, ".wav") then Some(WAVE)
    else if EndsWith(low, ".m4a") then Some(MP4)
    else None
  }

  datatype Metadata = Metadata(title: string, author: string, duration: nat, fileSize: nat)

  /** What `extract_metadata` raises: `UnboundLocalError` on
      `audio.info.length` when no branch matched, or mutagen's error when
      the chosen container class cannot parse the file. */
  datatype MetaError = UnboundAudio(path: string) | ParseFailure(path: string)

  /** `extract_metadata(path)` for a file holding `content`.  `probe` is
      mutagen's parse of the content as a container: the duration, already
      truncated by `int`, or None when the container class raises. */
  function ExtractMetadata(path: string, content: seq<byte>, probe: (Container, seq<byte>) -> Option<nat>)
    : (r: Result<Metadata, MetaError>)
    ensures r.Failure? <==> Dispatch(path).None? || probe(Dispatch(path).value, content).None?
    ensures r.Failure? ==>
      r.error == if Dispatch(path).None? then UnboundAudio(path) else ParseFailure(path)
    ensures r.Success? ==>
      && r.value.title == Title(path)
      && r.value.author == "Unknown"
      && r.value.duration == probe(Dispatch(path).value, content).value
      && r.value.fileSize == |content|
  {
    match Dispatch(path)
    case None => Failure(UnboundAudio(path))
    case Some(audio) =>
      match probe(audio, content)
      case None => Failure(ParseFailure(path))
      case Some(duration) => Success(Metadata(Title(path), "Unknown", duration, |content|))
  }

  /** The container class the `if`/`elif` chain picks for an extension. */
  function ContainerFor(ext: string): Option<Container> {
    if ext == ".mp3" then Some(MP3)
    else if ext == ".wav" then Some(WAVE)
    else if ext == ".m4a" then Some(MP4)
    else None
  }

  /** Of the supported extensions, only `.flac` and `.ogg` have no
      container branch. */
  lemma ContainerForSupported(ext: string)
    requires ext in Config.SUPPORTED_FORMATS
    ensures ContainerFor(ext).None? <==> ext == ".flac" || ext == ".ogg"
  {
    assert ext == ".mp3" || ext == ".flac" || ext == ".ogg" || ext == ".m4a" || ext == ".wav";
    assert ".flac"[1] == 'f' && ".ogg"[1] == 'o';
  }

  lemma EndsWithBoth(s: string, a: string, b: string)
    requires EndsWith(s, a) && EndsWith(s, b) && |b| <= |a|
    ensures EndsWith(a, b)
  {
    assert a[|a| - |b|..] == s[|s| - |b|..];
  }

  /** Lower-casing keeps a suffix that has no upper-case letter. */
  lemma LowerEndsWith(s: string, suffix: string)
    requires EndsWith(s, suffix)
    requires forall i :: 0 <= i < |suffix| ==> !('A' <= suffix[i] <= 'Z')
    ensures EndsWith(Lower(s), suffix)
  {
    var low := Lower(s);
    var d := |s| - |suffix|;
    forall i | 0 <= i < |suffix| ensures low[d..][i] == suffix[i] {
      assert s[d + i] == suffix[i];
    }
  }

  lemma NotEndsWith(s: string, a: string, b: string)
    requires EndsWith(s, a) && |b| <= |a| && a[|a| - |b|..] != b
    ensures !EndsWith(s, b)
  {
    if EndsWith(s, b) { EndsWithBoth(s, a, b); }
  }

  /** Container dispatch for a path ending in a supported extension
      succeeds exactly for `.mp3`, `.wav` and `.m4a`: the supported `.flac`
      and `.ogg` leave `audio` unbound. */
  lemma DispatchSupported(path: string, ext: string)
    requires ext in Config.SUPPORTED_FORMATS && EndsWith(path, ext)
    ensures Dispatch(path).None? <==> ext == ".flac" || ext == ".ogg"
    ensures Dispatch(path) == ContainerFor(ext)
    ensures ext == ".mp3" ==> Dispatch(path) == Some(MP3)
    ensures ext == ".wav" ==> Dispatch(path) == Some(WAVE)
    ensures ext == ".m4a" ==> Dispatch(path) == Some(MP4)
  {
    LowerEndsWith(path, ext);
    var low := Lower(path);
    if ext == ".flac" {
      assert ext[1..] != ".mp3" && ext[1..] != ".wav" && ext[1..] != ".m4a" by { assert ext[1] == 'f'; }
      NotEndsWith(low, ext, ".mp3");
      NotEndsWith(low, ext, ".wav");
      NotEndsWith(low, ext, ".m4a");
    } else if ext == ".ogg" {
      NotEndsWith(low, ext, ".mp3");
      NotEndsWith(low, ext, ".wav");
      NotEndsWith(low, ext, ".m4a");
    } else if ext == ".wav" {
      NotEndsWith(low, ext, ".mp3");
    } else if ext == ".m4a" {
      NotEndsWith(low, ext, ".mp3");
      NotEndsWith(low, ext, ".wav");
    }
  }

  /** Dispatch ignores case, unlike the scanner's extension filter. */
  lemma DispatchIgnoresCase()
    ensures Dispatch("LOUD.MP3") == Some(MP3)
  {
    var p := "LOUD.MP3";
    var low := Lower(p);
    assert low[4..] == ".mp3" by {
      assert low[4] == LowerChar(p[4]) == '.';
      assert low[5] == LowerChar(p[5]) == 'm';
      assert low[6] == LowerChar(p[6]) == 'p';
      assert low[7] == LowerChar(p[7]) == '3';
    }
  }
}
