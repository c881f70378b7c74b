/** The anti-repeat track selector (backend/services.py).  `TrackService`
    keeps the ids it served last in `recently_played`, a FIFO capped at
    MAX_RECENT_TRACKS, and excludes them when it asks the catalog for a
    random track. */
module Services {
  import opened Common
  import opened Models
  import Config

  predicate NoDuplicates(s: seq<nat>) {
    forall i, j :: 0 <= i < j < |s| ==> s[i] != s[j]
  }

  /** `recently_played.append(id)` followed by a single
      `if len(...) > MAX_RECENT_TRACKS: pop(0)`. */
  function Remember(recent: seq<nat>, id: nat): seq<nat> {
    var appended := recent + [id];
    if |appended| > Config.MAX_RECENT_TRACKS then appended[1..] else appended
  }

  /** Serving an id that is not in the window keeps the window within its
      bound and free of duplicates, puts the id last, and evicts at most the
      oldest entry, only when the window was full. */
  lemma RememberKeepsWindow(recent: seq<nat>, id: nat)
    requires |recent| <= Config.MAX_RECENT_TRACKS
    requires NoDuplicates(recent) && id !in recent
    ensures var r := Remember(recent, id);
      && |r| <= Config.MAX_RECENT_TRACKS
      && NoDuplicates(r)
      && r != [] && r[|r| - 1] == id
      && (|recent| < Config.MAX_RECENT_TRACKS ==> r == recent + [id])
      && (|recent| == Config.MAX_RECENT_TRACKS ==> r == recent[1..] + [id])
  {
    var r := Remember(recent, id);
    if |recent| == Config.MAX_RECENT_TRACKS {
      assert r == recent[1..] + [id];
    }
  }

  /** The window after serving `picks` in order, starting from an empty
      window (a fresh process, or right after `clear_recent_tracks`). */
  function Replay(picks: seq<nat>): seq<nat> {
    if picks == [] then [] else Remember(Replay(picks[..|picks| - 1]), picks[|picks| - 1])
  }

  /** The window always holds exactly the last MAX_RECENT_TRACKS served ids
      (all of them while fewer were served). */
  lemma {:induction false} ReplayIsSuffix(picks: seq<nat>)
    ensures var n := if |picks| <= Config.MAX_RECENT_TRACKS then |picks| else Config.MAX_RECENT_TRACKS;
      Replay(picks) == picks[|picks| - n..]
  {
    if picks != [] {
      var init := picks[..|picks| - 1];
      ReplayIsSuffix(init);
      var m := if |init| <= Config.MAX_RECENT_TRACKS then |init| else Config.MAX_RECENT_TRACKS;
      assert picks[|init| - m..] == init[|init| - m..] + [picks[|picks| - 1]];
    }
  }

  /** A run of picks each of which avoided the window current at its time,
      as `get_next_track` guarantees. */
  ghost predicate Admissible(picks: seq<nat>) {
    forall k :: 0 <= k < |picks| ==> picks[k] !in Replay(picks[..k])
  }

  /** No id is served twice within any MAX_RECENT_TRACKS + 1 consecutive
      successful calls. */
  lemma NoRepeatWithinWindow(picks: seq<nat>, i: nat, j: nat)
    requires Admissible(picks)
    requires i < j < |picks| && j - i <= Config.MAX_RECENT_TRACKS
    ensures picks[i] != picks[j]
  {
    var prefix := picks[..j];
    ReplayIsSuffix(prefix);
    var n := if j <= Config.MAX_RECENT_TRACKS then j else Config.MAX_RECENT_TRACKS;
    assert prefix[j - n..][i - (j - n)] == picks[i];
    assert picks[j] !in Replay(prefix);
  }

  /** The ids of a sequence as a set. */
  function Elements(s: seq<nat>): (e: set<nat>)
    ensures forall x :: x in e <==> x in s
  {
    if s == [] then {} else Elements(s[..|s| - 1]) + {s[|s| - 1]}
  }

  lemma {:induction false} DistinctCardinality(s: seq<nat>)
    requires NoDuplicates(s)
    ensures |Elements(s)| == |s|
  {
    if s != [] {
      var init := s[..|s| - 1];
      DistinctCardinality(init);
      assert s[|s| - 1] !in init;
    }
  }

  lemma {:induction false} SubsetCardinality(a: set<nat>, b: set<nat>)
    requires a <= b
    ensures |a| <= |b|
    decreases |a|
  {
    if a != {} {
      var x :| x in a;
      SubsetCardinality(a - {x}, b - {x});
    }
  }

  lemma SameSizeSubset(a: set<nat>, b: set<nat>)
    requires a <= b && |a| == |b|
    ensures a == b
  {
    if a != b {
      assert exists y :: y in b && y !in a;
      var y :| y in b && y !in a;
      assert a <= b - {y};
      assert |b - {y}| == |b| - 1;
      SubsetCardinality(a, b - {y});
    }
  }

  /** Picks that avoid their windows are pairwise distinct while there are
      at most MAX_RECENT_TRACKS + 1 of them. */
  lemma AdmissibleShortRunDistinct(picks: seq<nat>)
    requires Admissible(picks)
    requires |picks| <= Config.MAX_RECENT_TRACKS + 1
    ensures NoDuplicates(picks)
  {
    forall i, j | 0 <= i < j < |picks| ensures picks[i] != picks[j] {
      NoRepeatWithinWindow(picks, i, j);
    }
  }

  /** With no fallback, a catalog of at most MAX_RECENT_TRACKS tracks is
      exhausted after serving each of its ids once: every id is then in the
      window, so the next call's pick is None and `get_next_track` fails. */
  lemma SmallCatalogExhausts(ids: set<nat>, picks: seq<nat>)
    requires Admissible(picks)
    requires forall k :: 0 <= k < |picks| ==> picks[k] in ids
    requires |picks| == |ids| <= Config.MAX_RECENT_TRACKS
    ensures forall x :: x in ids ==> x in Replay(picks)
  {
    ReplayIsSuffix(picks);
    assert Replay(picks) == picks[0..];
    AdmissibleShortRunDistinct(picks);
    DistinctCardinality(picks);
    SameSizeSubset(Elements(picks), ids);
  }

  /** The failure of `track['id']` when the pick is None. */
  datatype ServiceError = NoneNotSubscriptable

  class TrackService {
    var recentlyPlayed: seq<nat>
    const catalog: Catalog

    ghost predicate Valid()
      reads this, catalog
    {
      && catalog.Valid()
      && |recentlyPlayed| <= Config.MAX_RECENT_TRACKS
      && NoDuplicates(recentlyPlayed)
    }

    /** The class as loaded: `recently_played = []`. */
    constructor (catalog: Catalog)
      requires catalog.Valid()
      ensures Valid() && this.catalog == catalog && recentlyPlayed == []
    {
      this.catalog := catalog;
      recentlyPlayed := [];
    }

    /** `get_next_track`: a random track outside the window, its play count
        incremented, its id remembered. */
    method GetNextTrack(now: Timestamp) returns (r: Result<Track, ServiceError>)
      requires Valid()
      modifies this, catalog
      ensures Valid()
      ensures r.Failure? <==>
        forall i :: 0 <= i < |old(catalog.rows)| ==> old(catalog.rows)[i].id in old(recentlyPlayed)
      ensures r.Failure? ==>
        && r.error == NoneNotSubscriptable
        && recentlyPlayed == old(recentlyPlayed)
        && catalog.State() == old(catalog.State())
      ensures r.Success? ==>
        && r.value in old(catalog.rows)
        && r.value.id !in old(recentlyPlayed)
        && catalog.rows == BumpPlay(old(catalog.rows), r.value.id, now)
        && catalog.lastId == old(catalog.lastId)
        && recentlyPlayed == Remember(old(recentlyPlayed), r.value.id)
        && recentlyPlayed[|recentlyPlayed| - 1] == r.value.id
      ensures r.Success? ==> forall i :: 0 <= i < |old(catalog.rows)| && old(catalog.rows)[i].id == r.value.id ==>
        catalog.rows[i].playCount == old(catalog.rows)[i].playCount + 1
    {
      var recent := GetRecentlyPlayed();
      var track := catalog.GetRandomTrack(recent);
      if track.None? {
        return Failure(NoneNotSubscriptable);
      }
      catalog.UpdatePlayCount(track.value.id, now);
      RememberKeepsWindow(recentlyPlayed, track.value.id);
      recentlyPlayed := recentlyPlayed + [track.value.id];
      if |recentlyPlayed| > Config.MAX_RECENT_TRACKS {
        recentlyPlayed := recentlyPlayed[1..];
      }
      r := Success(track.value);
    }

    /** `clear_recent_tracks`. */
    method ClearRecentTracks()
      requires Valid()
      modifies this
      ensures Valid() && recentlyPlayed == []
    {
      recentlyPlayed := [];
    }

    /** `get_recently_played`. */
    method GetRecentlyPlayed() returns (ids: seq<nat>)
      requires Valid()
      ensures ids == recentlyPlayed
      ensures |ids| <= Config.MAX_RECENT_TRACKS && NoDuplicates(ids)
    {
      ids := recentlyPlayed;
    }
  }
}
