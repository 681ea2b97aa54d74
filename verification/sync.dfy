/** The reconciliation behind the "Sync Playlists" button: read the source's
    most recent `count` tracks, work out which of them the target lacks,
    evict the target's oldest entries until those fit, then append them. */
module Sync {
  import opened Tracks
  import opened Remote

  /** What the button reports: how many tracks were added, or that there was
      nothing new. */
  datatype Outcome = Added(added: nat) | NoNewTracks

  /** Where the read of the source's most recent `count` tracks starts. */
  function FetchOffset(total: nat, count: nat): (offset: nat)
    ensures offset <= total
    ensures total - offset == (if total < count then total else count)
  {
    var back := total - count;
    if back > 0 then back else 0
  }

  /** The source URIs the sync works from: the page of at most `count`
      entries read at `FetchOffset`, which is the playlist's last
      min(total, count) entries. */
  function SourceWindow(source: seq<Uri>, count: nat): (window: seq<Uri>)
    ensures |window| == (if |source| < count then |source| else count)
    ensures window == source[|source| - |window|..]
  {
    var items := Page(source, FetchOffset(|source|, count), count);
    assert UrisOf(items) == source[FetchOffset(|source|, count)..];
    UrisOf(items)
  }

  /** The source URIs that occur nowhere in the fetched target, in source
      order; a URI repeated in the source stays repeated. */
  function NewUris(source: seq<Uri>, target: seq<Uri>): (added: seq<Uri>)
    ensures |added| <= |source|
    ensures forall u :: u in added <==> u in source && u !in target
    ensures SubsequenceOf(added, source)
    ensures forall u :: multiset(added)[u] == if u in target then 0 else multiset(source)[u]
  {
    WithoutMembers(source, target);
    WithoutKeepsOrder(source, target);
    WithoutLength(source, target);
    assert forall u :: multiset(Without(source, target))[u]
                       == if u in target then 0 else multiset(source)[u] by {
      forall u { WithoutCounts(source, target, u); }
    }
    Without(source, target)
  }

  /** How many entries the eviction loop pops from the front of a target of
      length `targetLen` before `newLen` new URIs fit in `count` slots: the
      fewest that make them fit. Popping that many is possible exactly when
      the new URIs alone fit. */
  function EvictionCount(targetLen: nat, newLen: nat, count: nat): (k: nat)
    ensures targetLen + newLen - k <= count
    ensures k > 0 ==> targetLen + newLen - k == count
    ensures k <= targetLen <==> newLen <= count
  {
    if targetLen + newLen > count then targetLen + newLen - count else 0
  }

  /** The target entries the sync works from. The target read passes no
      limit, so it returns one page of the library's default size: the
      playlist's first min(total, DefaultLimit) entries. */
  function TargetPage(stored: seq<Uri>): (fetched: seq<Uri>)
    ensures |fetched| == (if |stored| < DefaultLimit then |stored| else DefaultLimit)
    ensures fetched == stored[..|fetched|]
  {
    UrisOf(Page(stored, 0, DefaultLimit))
  }

  /** The prefix of the fetched target that the eviction loop pops: the
      shortest one after which the rest and the new URIs fit in `count`. */
  function Evicted(fetched: seq<Uri>, window: seq<Uri>, count: nat): (evicted: seq<Uri>)
    requires |window| <= count
    ensures evicted <= fetched
    ensures |fetched| - |evicted| + |NewUris(window, fetched)| <= count
    ensures |evicted| > 0 ==> |fetched| - |evicted| + |NewUris(window, fetched)| == count
  {
    fetched[..EvictionCount(|fetched|, |NewUris(window, fetched)|, count)]
  }

  /** The stored target after a sync whose target read returned `fetched`:
      every copy of every evicted URI removed, then the new URIs appended. A
      URI ends in it exactly when it was stored and not evicted, or it is a
      window URI the fetched entries lacked. */
  function Reconciled(stored: seq<Uri>, fetched: seq<Uri>, window: seq<Uri>, count: nat): (r: seq<Uri>)
    requires |window| <= count
    ensures forall u :: u in r <==> (u in stored && u !in Evicted(fetched, window, count))
                                     || (u in window && u !in fetched)
  {
    var evicted := Evicted(fetched, window, count);
    WithoutMembers(stored, evicted);
    Without(stored, evicted) + NewUris(window, fetched)
  }

  /** Reads the source's track total, then the page of its last `count`
      tracks, and extracts their URIs. */
  method ReadSourceWindow(source: RemotePlaylist, count: nat) returns (sourceUris: seq<Uri>)
    ensures |sourceUris| <= count
    ensures sourceUris == SourceWindow(source.uris, count)
  {
    var totalTracks := source.Total();
    var offset := FetchOffset(totalTracks, count);
    var sourceTracks := source.ReadPage(offset, count);
    sourceUris := UrisOf(sourceTracks);
  }

  /** Every entry of the target, read a page of `DefaultLimit` entries at a
      time at increasing offsets until a page comes back short. */
  method ReadWholeTarget(target: RemotePlaylist) returns (items: seq<Item>)
    ensures UrisOf(items) == target.uris
  {
    var page := target.ReadPage(0, DefaultLimit);
    items := page;
    while |page| == DefaultLimit
      invariant |page| <= DefaultLimit
      invariant |items| <= |target.uris|
      invariant UrisOf(items) == target.uris[..|items|]
      invariant |page| < DefaultLimit ==> |items| == |target.uris|
      decreases |target.uris| - |items| + |page|
    {
      page := target.ReadPage(|items|, DefaultLimit);
      UrisOfAppend(items, page);
      items := items + page;
    }
  }

  /** The eviction loop and the bulk add. While the tracked entries and the
      new URIs exceed `count`, every copy of the oldest tracked URI is
      removed from the remote and that entry is popped from both local
      lists; then the new URIs, if any, are appended. */
  method EvictAndAdd(target: RemotePlaylist, targetTracks: seq<Item>, targetUris: seq<Uri>,
                     newUris: seq<Uri>, count: nat)
    returns (outcome: Outcome, tracked: seq<Uri>)
    requires UrisOf(targetTracks) == targetUris
    requires |newUris| <= count
    modifies target
    ensures var k := EvictionCount(|targetUris|, |newUris|, count);
            && k <= |targetUris|
            && target.uris == Without(old(target.uris), targetUris[..k]) + newUris
            && tracked == targetUris[k..]
            && |tracked| + |newUris| <= count
            && (outcome.NoNewTracks? <==> newUris == [])
            && (outcome.Added? ==> outcome.added == |newUris|)
  {
    ghost var stored := target.uris;
    ghost var k := EvictionCount(|targetUris|, |newUris|, count);
    ghost var popped: nat := 0;
    var tracks, uris := targetTracks, targetUris;
    WithoutNothing(stored);
    while |uris| + |newUris| > count
      invariant popped <= k <= |targetUris|
      invariant UrisOf(tracks) == uris
      invariant uris == targetUris[popped..]
      invariant target.uris == Without(stored, targetUris[..popped])
      decreases |uris|
    {
      var toRemove := tracks[0].uri;
      target.RemoveAllOccurrencesOfItems([toRemove]);
      WithoutOneMore(stored, targetUris, popped);
      tracks := tracks[1..];
      uris := uris[1..];
      popped := popped + 1;
    }
    if newUris != [] {
      target.AddItems(newUris);
      outcome := Added(|newUris|);
    } else {
      outcome := NoNewTracks;
    }
    tracked := uris;
  }

  /** The target read as written: neither offset nor limit, so the library
      returns its default first page. */
  method ReadTargetPage(target: RemotePlaylist) returns (targetTracks: seq<Item>)
    ensures UrisOf(targetTracks) == TargetPage(target.uris)
  {
    targetTracks := target.ReadPage(0, DefaultLimit);
  }

  /** The button handler's sync block as written. `source` and `target` may
      be the same playlist: both reads happen before the first change. A
      target of at most `DefaultLimit` entries ends with at most `count`. */
  method SyncPlaylists(source: RemotePlaylist, target: RemotePlaylist, count: nat)
    returns (outcome: Outcome, tracked: seq<Uri>)
    requires 1 <= count <= 100
    modifies target
    ensures var stored := old(target.uris);
            var window := SourceWindow(old(source.uris), count);
            var fetched := TargetPage(stored);
            var added := NewUris(window, fetched);
            && target.uris == Reconciled(stored, fetched, window, count)
            && tracked == fetched[|Evicted(fetched, window, count)|..]
            && |tracked| + |added| <= count
            && (outcome.NoNewTracks? <==> added == [])
            && (outcome.Added? ==> outcome.added == |added|)
            && (|stored| <= DefaultLimit ==> |target.uris| <= count)
  {
    ghost var stored := target.uris;
    var sourceUris := ReadSourceWindow(source, count);
    var targetTracks := ReadTargetPage(target);
    var targetUris := UrisOf(targetTracks);
    var newUris := NewUris(sourceUris, targetUris);
    ghost var k := EvictionCount(|targetUris|, |newUris|, count);
    assert Evicted(targetUris, sourceUris, count) == targetUris[..k];
    outcome, tracked := EvictAndAdd(target, targetTracks, targetUris, newUris, count);
    assert target.uris == Reconciled(stored, targetUris, sourceUris, count);
    ShortTargetBound(stored, sourceUris, count);
  }

  /** The sync block with the target read whole, page by page: the target
      always ends with at most `count` entries. */
  method SyncPlaylistsWholeTarget(source: RemotePlaylist, target: RemotePlaylist, count: nat)
    returns (outcome: Outcome, tracked: seq<Uri>)
    requires 1 <= count <= 100
    modifies target
    ensures var stored := old(target.uris);
            var window := SourceWindow(old(source.uris), count);
            var added := NewUris(window, stored);
            && target.uris == Reconciled(stored, stored, window, count)
            && |target.uris| <= count
            && tracked == stored[|Evicted(stored, window, count)|..]
            && (outcome.NoNewTracks? <==> added == [])
            && (outcome.Added? ==> outcome.added == |added|)
  {
    var sourceUris := ReadSourceWindow(source, count);
    var targetTracks := ReadWholeTarget(target);
    var targetUris := UrisOf(targetTracks);
    var newUris := NewUris(sourceUris, targetUris);
    outcome, tracked := EvictAndAdd(target, targetTracks, targetUris, newUris, count);
    ReconciledBound(old(target.uris), sourceUris, count);
  }

  /** Removing every copy of the first `k` entries leaves, in order, the
      entries after them that do not repeat one of them: at most as many as
      the `k`-popped tracked list, and exactly as many only when none of
      the remaining entries repeats an evicted URI. */
  lemma RemovalVersusPops(target: seq<Uri>, k: nat)
    requires k <= |target|
    ensures Without(target, target[..k]) == Without(target[k..], target[..k])
    ensures SubsequenceOf(Without(target, target[..k]), target[k..])
    ensures |Without(target, target[..k])| <= |target| - k
    ensures |Without(target, target[..k])| == |target| - k
            <==> forall i :: k <= i < |target| ==> target[i] !in target[..k]
  {
    var e := target[..k];
    assert target == target[..k] + target[k..];
    WithoutAppend(target[..k], target[k..], e);
    WithoutLength(target[..k], e);
    WithoutAll(target[..k], e);
    WithoutKeepsOrder(target[k..], e);
    WithoutLength(target[k..], e);
    forall i | k <= i < |target| ensures target[i] == target[k..][i - k] { }
  }

  /** With the target read whole, no added URI is still in the target: the
      bulk add never creates a second copy of a track the target held. */
  lemma AddsNoDuplicates(target: seq<Uri>, window: seq<Uri>, count: nat)
    requires |window| <= count
    ensures forall u :: u in NewUris(window, target)
                        ==> u !in Without(target, Evicted(target, window, count))
  {
    WithoutMembers(target, Evicted(target, window, count));
  }

  /** With the target read whole, a sync never leaves more than `count`
      tracks in the target. */
  lemma ReconciledBound(target: seq<Uri>, window: seq<Uri>, count: nat)
    requires |window| <= count
    ensures |Reconciled(target, target, window, count)| <= count
  {
    var k := |Evicted(target, window, count)|;
    RemovalVersusPops(target, k);
  }

  /** On a target read whole and without repeated URIs the remote and the
      tracked list agree, and the target ends with exactly
      min(count, |target| + |new|) tracks. */
  lemma DistinctTargetFillsBound(target: seq<Uri>, window: seq<Uri>, count: nat)
    requires |window| <= count
    requires Distinct(target)
    ensures var k := |Evicted(target, window, count)|;
            Reconciled(target, target, window, count) == target[k..] + NewUris(window, target)
    ensures var n := |target| + |NewUris(window, target)|;
            |Reconciled(target, target, window, count)| == if n > count then count else n
  {
    var e := Evicted(target, window, count);
    var k := |e|;
    RemovalVersusPops(target, k);
    forall i | k <= i < |target| ensures target[i] !in target[..k] { }
    var kept := Without(target[k..], e);
    assert |kept| == |target[k..]|;
    WithoutSameLength(target[k..], e);
  }

  /** Read with the default page, a target of at most `DefaultLimit`
      entries is read whole, so the sync leaves at most `count` tracks. */
  lemma ShortTargetBound(stored: seq<Uri>, window: seq<Uri>, count: nat)
    requires |window| <= count
    ensures |stored| <= DefaultLimit ==> |Reconciled(stored, TargetPage(stored), window, count)| <= count
  {
    if |stored| <= DefaultLimit {
      assert TargetPage(stored) == stored[..|stored|] == stored;
      ReconciledBound(stored, window, count);
    }
  }

  /** The tracked list and the remote can part ways: evicting the first of
      two copies of "a" removes both from the remote, so the target ends one
      short of `count`. */
  lemma RepeatedUriUndershoots()
    ensures Evicted(["a", "b", "a"], ["c"], 3) == ["a"]
    ensures Reconciled(["a", "b", "a"], ["a", "b", "a"], ["c"], 3) == ["b", "c"]
  {
    var target := ["a", "b", "a"];
    assert "c" !in target;
    assert NewUris(["c"], target) == ["c"];
    assert target[..1] == ["a"];
    assert target[1..] == ["b", "a"];
    assert ["b", "a"][1..] == ["a"];
    assert Without(["a"], ["a"]) == [];
    assert Without(["b", "a"], ["a"]) == ["b"];
  }

  /** With the target read whole, syncing the same window again adds nothing
      exactly when the first sync evicted none of the window's URIs. */
  lemma ResyncAddsNothingIff(target: seq<Uri>, window: seq<Uri>, count: nat)
    requires |window| <= count
    ensures NewUris(window, Reconciled(target, target, window, count)) == []
            <==> forall u :: u in window ==> u !in Evicted(target, window, count)
  {
    var e := Evicted(target, window, count);
    var r := Reconciled(target, target, window, count);
    assert forall u :: u in e ==> u in target;
    if NewUris(window, r) == [] {
      forall u | u in window ensures u !in e {
        assert u in r;
      }
    } else {
      var u := NewUris(window, r)[0];
      assert u in window && u !in r;
      assert u in e;
    }
  }

  /** Choosing the same playlist, read whole, as source and target adds
      nothing; the sync then evicts only the entries before its last
      `count`. */
  lemma SamePlaylistAddsNothing(playlist: seq<Uri>, count: nat)
    ensures var window := SourceWindow(playlist, count);
            NewUris(window, playlist) == []
            && Evicted(playlist, window, count)
               == playlist[..|playlist| - (if |playlist| < count then |playlist| else count)]
  {
    var window := SourceWindow(playlist, count);
    var start := |playlist| - |window|;
    forall i | 0 <= i < |window| ensures window[i] in playlist {
      assert window[i] == playlist[start + i];
    }
    WithoutAll(window, playlist);
  }

  /** A full window of `count` URIs that the target, read whole, holds none
      of replaces the target entirely: every old entry is evicted and the
      window becomes the playlist. */
  lemma DisjointWindowReplacesTarget(target: seq<Uri>, window: seq<Uri>, count: nat)
    requires |window| == count
    requires forall i :: 0 <= i < |window| ==> window[i] !in target
    ensures Evicted(target, window, count) == target
    ensures Reconciled(target, target, window, count) == window
  {
    WithoutLength(window, target);
    WithoutSameLength(window, target);
    var added := NewUris(window, target);
    assert added == window;
    var e := Evicted(target, window, count);
    assert e == target[..|target|] == target;
    WithoutAll(target, target);
    assert Reconciled(target, target, window, count) == Without(target, e) + added;
  }

  /** A window track already in the target is not re-added, and the entry
      evicted to make room is the target's first. */
  lemma PresentTrackNotReadded()
    ensures Reconciled(["b", "c", "d"], ["b", "c", "d"], ["a", "b"], 3) == ["c", "d", "a"]
  {
    var target, window := ["b", "c", "d"], ["a", "b"];
    assert window[1..] == ["b"];
    WithoutAll(["b"], target);
    assert NewUris(window, target) == ["a"];
    assert Evicted(target, window, 3) == ["b"];
    assert target[1..] == ["c", "d"];
    RemovalVersusPops(target, 1);
    forall i | 0 <= i < 2 ensures ["c", "d"][i] !in ["b"] { }
    WithoutLength(["c", "d"], ["b"]);
    WithoutSameLength(["c", "d"], ["b"]);
  }

  /** An empty window changes nothing when the target is within bound. */
  lemma EmptyWindowChangesNothing()
    ensures Reconciled(["p", "q"], ["p", "q"], [], 5) == ["p", "q"]
  {
  }

  /** `n` distinct one-character URIs. */
  function Numbered(n: nat): (s: seq<Uri>)
    requires n <= 0xD000
    ensures |s| == n && Distinct(s)
  {
    var s := seq(n, i requires 0 <= i < n => [i as char]);
    assert forall i, j :: 0 <= i < j < n ==> s[i][0] != s[j][0];
    s
  }

  /** Read with the default page, a target of 150 distinct tracks keeps 100
      after a sync with `count` 50 and nothing new: only the 100 fetched
      entries are counted, so 50 pops leave the 50 unread ones behind. */
  lemma LongTargetOvershoots()
    ensures var stored := Numbered(150);
            |Reconciled(stored, TargetPage(stored), [], 50)| == 100
  {
    var stored := Numbered(150);
    var fetched := TargetPage(stored);
    assert NewUris([], fetched) == [];
    assert Evicted(fetched, [], 50) == stored[..50];
    RemovalVersusPops(stored, 50);
    forall i | 50 <= i < 150 ensures stored[i] !in stored[..50] {
      forall j | 0 <= j < 50 ensures stored[..50][j] != stored[i] {
        assert stored[..50][j] == stored[j];
      }
    }
  }

  /** Read with the default page, a target of 101 distinct tracks whose last
      entry is the source's newest track gets that track appended a second
      time: it lies beyond the fetched page, so it counts as new. */
  lemma LongTargetReaddsTrack()
    ensures var stored := Numbered(101);
            var r := Reconciled(stored, TargetPage(stored), [stored[100]], 100);
            |r| > 0 && r[|r| - 1] == stored[100] && stored[100] in r[..|r| - 1]
  {
    var stored := Numbered(101);
    var u := stored[100];
    var fetched := TargetPage(stored);
    assert fetched == stored[..100];
    assert u !in fetched by {
      forall j | 0 <= j < 100 ensures fetched[j] != u {
        assert fetched[j] == stored[j];
      }
    }
    var added := NewUris([u], fetched);
    assert u in added;
    assert added == [u];
    var e := Evicted(fetched, [u], 100);
    assert e == stored[..1];
    WithoutMembers(stored, e);
    assert u in Without(stored, e);
    var r := Reconciled(stored, fetched, [u], 100);
    assert r == Without(stored, e) + [u];
    assert r[..|r| - 1] == Without(stored, e);
  }

  /** The first sync of the resync case below: the only source track `u`
      is the last of 102 distinct target entries, beyond the fetched page,
      so it is new; one pop evicts the first entry and `u` is appended. */
  lemma FirstSyncOfLongTarget(stored: seq<Uri>)
    requires |stored| == 102 && Distinct(stored)
    ensures var u := stored[101];
            && Evicted(TargetPage(stored), [u], 100) == stored[..1]
            && Reconciled(stored, TargetPage(stored), [u], 100) == stored[1..] + [u]
  {
    var u := stored[101];
    var fetched := TargetPage(stored);
    assert fetched == stored[..100];
    assert u !in fetched by {
      forall j | 0 <= j < 100 ensures fetched[j] != u {
        assert fetched[j] == stored[j];
      }
    }
    var added := NewUris([u], fetched);
    assert u in added;
    assert added == [u];
    var e := Evicted(fetched, [u], 100);
    assert e == stored[..1];
    RemovalVersusPops(stored, 1);
    forall i | 1 <= i < 102 ensures stored[i] !in stored[..1] {
      assert stored[..1] == [stored[0]];
    }
    WithoutSameLength(stored[1..], e);
  }

  /** After that first sync, the fetched page of the target is still the
      old entries 1 to 100, so `u` still lies beyond it. */
  lemma SecondPageMissesTrack(stored: seq<Uri>)
    requires |stored| == 102 && Distinct(stored)
    ensures var u := stored[101];
            NewUris([u], TargetPage(stored[1..] + [u])) == [u]
  {
    var u := stored[101];
    var again := TargetPage(stored[1..] + [u]);
    assert again == stored[1..101];
    assert u !in again by {
      forall j | 0 <= j < 100 ensures again[j] != u {
        assert again[j] == stored[j + 1];
      }
    }
    assert u in NewUris([u], again);
  }

  /** Read with the default page, resyncing does not settle: a target of 102
      distinct tracks whose last entry is the only track of the source
      evicts its first entry, not that track, and the next sync with the
      same source appends the track once more, since it still lies beyond
      the fetched page. */
  lemma LongTargetResyncReadds()
    ensures var stored := Numbered(102);
            var u := stored[101];
            var fetched := TargetPage(stored);
            var r := Reconciled(stored, fetched, [u], 100);
            u !in Evicted(fetched, [u], 100) && NewUris([u], TargetPage(r)) == [u]
  {
    var stored := Numbered(102);
    FirstSyncOfLongTarget(stored);
    SecondPageMissesTrack(stored);
    assert stored[101] != stored[0];
  }
}
