# Spotify Playlist Sync — a Dafny model of the sync step

Spotify Playlist Sync is a one-page Streamlit app. The user logs in with
Spotify and picks a source playlist, a target playlist and a number `count`
(1 to 100). When the "Sync Playlists" button is pressed, the app:

1. reads the source's last `count` tracks;
2. keeps those whose URI is not among the target entries it read;
3. evicts the target's oldest entries, first to last, until the entries it
   read and the new tracks together fit in `count`. Each eviction removes every copy
   of that URI from the remote playlist;
4. appends the new tracks in one call and reports how many were added.

The target is read once, with neither offset nor limit (`app.py:51`). The
client library then returns one page of its default size, 100 entries, and
the `fields` filter drops the `next` link. So the sync sees only the
target's first 100 entries.

This project models that step. It also models the two small pure helpers
beside it: pulling the authorization code out of the pasted redirect URL,
and the playlist name→id table that both select boxes use.

Modules:

- `Tracks` (`tracks.dfy`): track URIs and playlist items. It defines the
  order-preserving filter `Without(s, drop)` and proves its properties. Two
  parts of the source are instances of this filter: the `new_uris`
  comprehension and the remote "remove all occurrences" call.
- `Remote` (`remote.dfy`): the remote playlist store. A `RemotePlaylist`
  object holds the playlist's URIs as a `seq`. Its methods are the reads
  and the two mutators the app calls: remove every occurrence, and append.
  `DefaultLimit` (100) is the page size of a read that gives no limit.
- `Sync` (`sync.dfy`): the button handler's sync block.
  - `SyncPlaylists` is the block as written, with the first-page target read.
  - `EvictAndAdd` is the eviction `while` loop over the local lists
    `targetTracks` and `targetUris`, followed by the bulk add. It calls
    the remote mutators.
  - `Reconciled(stored, fetched, window, count)` is the specification
    function. `stored` is the remote target and `fetched` is what the
    target read returned.
  - The lemmas about `Reconciled(target, target, …)` describe a sync whose
    target read sees every entry. For a target of at most 100 entries that
    is exactly the code as written, because `TargetPage` returns the whole
    playlist then.
  - `SyncPlaylistsWholeTarget` is the corrected sync under "## Findings".
- `AuthCode` (`auth_code.dfy`): Python's `str.split(sep)`, modelled as a
  left-to-right scan, and `ExtractCode`, which is `split("code=")[-1]`.
- `PlaylistOptions` (`playlist_options.dfy`): the
  `{name: id for p in playlists}` dictionary, built in listing order.

Behaviour of the code that the model makes explicit:

- The eviction loop has no empty-target guard (`app.py:56`). None is
  needed: the source read uses `limit=count`, so at most `count` URIs are
  new. `EvictionCount` shows that the pops needed are available exactly
  when the new URIs alone fit in `count`.
- With window `[a, b]`, target `[b, c, d]` and `count` 3, the code pops the
  oldest entry `b`, although the window holds it. The target ends as
  `[c, d, a]` (`PresentTrackNotReadded`).
- Removing every copy of a popped URI can remove more than one entry. A
  target read whole can therefore end below `count`, but never above it
  (`ReconciledBound`, `RepeatedUriUndershoots`).
- With the target read whole, which is always so for a target of at most
  100 entries, a second sync of the same source window adds nothing
  exactly when the first evicted none of the window's URIs
  (`ResyncAddsNothingIff`). For a longer target this fails: a window
  track beyond the first page is added again by the first sync and once
  more by the second (`LongTargetResyncReadds`).
- A target of more than 100 entries is only partly seen. Its unread
  entries are never popped, but an unread copy of a popped URI is still
  removed. A window track among the unread entries is added again. See
  "## Findings".

## Model

| member | source | states |
|---|---|---|
| `Tracks.UrisOf` | app.py:49-52 | the extracted URI list has one entry per fetched item, in the same order, and each entry is that item's `track.uri` |
| `Tracks.Without` | app.py:54-58 | the filter behind `new_uris` and behind remove-all-occurrences never lengthens its input; `WithoutMembers`, `WithoutKeepsOrder` and `WithoutCounts` pin its result down exactly |
| `Tracks.WithoutMembers` | app.py:54 | a URI survives the filter exactly when it occurs in the input and not in the drop list |
| `Tracks.WithoutKeepsOrder` | app.py:54 | the survivors keep their relative order from the input |
| `Tracks.WithoutCounts` | app.py:54 | a survivor keeps every one of its copies, and a dropped URI keeps none |
| `Tracks.WithoutLength` | app.py:58 | the filter never lengthens a list, and it keeps the length exactly when it drops nothing |
| `Tracks.WithoutTwice` | app.py:56-60 | removing the URIs of one list and then those of another is removing both at once |
| `Tracks.WithoutSameMembers` | app.py:58 | removal depends only on which URIs are listed, not on their order or repetition |
| `Tracks.RemovalOrderIrrelevant` | app.py:56-60 | removing the URIs of two lists one after the other gives the same playlist in either order |
| `Tracks.WithoutOneMore` | app.py:56-60 | after every copy of the first `n` evicted URIs has been removed, removing entry `n`'s URI is the same as removing the first `n + 1` |
| `Remote.Page` | app.py:48 | a read at `offset` with `limit` returns the stored entries from `offset` on, at most `limit` of them, in order |
| `Remote.RemotePlaylist.Total` | app.py:46 | the `total` read returns the playlist's length |
| `Remote.RemotePlaylist.ReadPage` | app.py:48 | a read with offset and limit returns the stored URIs from `offset`, at most `limit` of them, and none when `offset` is past the end |
| `Remote.RemotePlaylist.RemoveAllOccurrencesOfItems` | app.py:58 | the playlist afterwards is the old playlist with every copy of each listed URI removed, the rest kept in order |
| `Remote.RemotePlaylist.AddItems` | app.py:63 | the playlist afterwards is the old playlist followed by the given URIs in order |
| `Sync.FetchOffset` | app.py:47 | the offset `max(0, total - count)` lies in `[0, total]`, and `total - offset == min(total, count)` |
| `Sync.SourceWindow` | app.py:46-49 | the source URIs read are the source's last `min(total, count)` entries |
| `Sync.ReadSourceWindow` | app.py:46-49 | the total-then-page read yields exactly `SourceWindow`, so it holds at most `count` URIs |
| `Sync.TargetPage` | app.py:51 | a read with no limit sees the target's first `min(total, 100)` entries, in order |
| `Sync.ReadTargetPage` | app.py:51 | the target read as written returns exactly `TargetPage` of the stored playlist |
| `Sync.NewUris` | app.py:54 | `new_uris` holds exactly the source URIs that occur nowhere in the fetched target, in source order and with source multiplicities, and it is no longer than the source window |
| `Sync.EvictionCount` | app.py:56-60 | the number of pops is the fewest that bring `len(target) + len(new)` to at most `count`; if any pop happens the sum ends at exactly `count`; the pops fit within the target exactly when `len(new) <= count` |
| `Sync.Evicted` | app.py:56-60 | the popped entries are a prefix of the fetched ones, the shortest after which the rest and the new URIs fit in `count`, and when any are popped they fit exactly |
| `Sync.Reconciled` | app.py:54-63 | a URI ends in the target exactly when it was stored and not evicted, or it is a window URI that the fetched entries lacked |
| `Sync.EvictAndAdd` | app.py:56-66 | the remote ends as its old contents with every copy of the first `k` tracked URIs removed and the new URIs appended, where `k` is `EvictionCount`; the tracked list ends without its first `k` entries, and it and the new URIs total at most `count`; the outcome is "no new tracks" exactly when `new_uris` is empty, and otherwise it reports `len(new_uris)`. The loop's invariants, not the contract, establish that line 57 never indexes an empty list, that `target_tracks` and `target_uris` stay in lockstep, and that the loop runs at most `len(target)` times. The precondition `len(new) <= count` is what the caller's source read guarantees |
| `Sync.SyncPlaylists` | app.py:46-66 | the block as written leaves the remote target as `Reconciled` of its old contents and its first page; the tracked list ends as the first page minus its evicted prefix, and it and the new URIs total at most `count`; the outcome reports the new URIs; a target of at most 100 entries ends with at most `count` tracks |
| `Sync.ReadWholeTarget` | app.py:51 | the corrected read of the first "## Findings" row (the code makes a single read here): reading pages of 100 at offsets 0, 100, … until a short page returns every stored entry in order |
| `Sync.SyncPlaylistsWholeTarget` | app.py:46-66 | with the target read whole, the remote target ends as `Reconciled` of its old contents read whole, with at most `count` tracks |
| `Sync.RemovalVersusPops` | app.py:56-60 | after popping `k` entries, the remote holds, in order, the remaining entries that do not repeat an evicted URI; this is a subsequence of the tracked list, at most as long as it, and equally long exactly when no remaining entry repeats an evicted URI |
| `Sync.AddsNoDuplicates` | app.py:54-63 | with the target read whole, no appended URI is still present in the target at the moment of the bulk add |
| `Sync.ReconciledBound` | app.py:56-63 | with the target read whole, a sync never leaves more than `count` tracks in the target |
| `Sync.ShortTargetBound` | app.py:51-63 | as written, a target of at most 100 entries never ends with more than `count` tracks |
| `Sync.DistinctTargetFillsBound` | app.py:56-63 | when the target, read whole, holds no repeated URI, the remote equals the tracked list followed by the new URIs, and its length is `min(count, len(target) + len(new))` |
| `Sync.RepeatedUriUndershoots` | app.py:56-60 | with target `[a, b, a]`, window `[c]` and `count` 3, one pop of `a` removes both copies, and the target ends as `[b, c]`, one below `count` |
| `Sync.ResyncAddsNothingIff` | app.py:46-63 | with the target read whole, syncing the same window again adds nothing exactly when the first sync evicted none of the window's URIs |
| `Sync.SamePlaylistAddsNothing` | app.py:38-54 | choosing one playlist, read whole, as both source and target adds nothing and evicts only the entries before its last `count` |
| `Sync.DisjointWindowReplacesTarget` | app.py:54-63 | a window of `count` URIs that the target, read whole, holds none of evicts every old entry and becomes the playlist |
| `Sync.PresentTrackNotReadded` | app.py:54-63 | target `[b, c, d]`, window `[a, b]`, `count` 3: `b` is not re-added, the first entry `b` is evicted, and the target ends as `[c, d, a]` |
| `Sync.EmptyWindowChangesNothing` | app.py:54-66 | target `[p, q]`, empty window, `count` 5: the target is unchanged |
| `Sync.LongTargetOvershoots` | app.py:51-60 | as written, a target of 150 distinct tracks synced from an empty source with `count` 50 ends with 100 tracks |
| `Sync.LongTargetReaddsTrack` | app.py:51-63 | as written, a target of 101 distinct tracks whose last entry is the only track of the source, synced with `count` 100, gets that track appended a second time |
| `Sync.LongTargetResyncReadds` | app.py:46-63 | as written, with 102 distinct target tracks whose last is the only track of the source and `count` 100, the first sync evicts entry 0 and not that track, and a second sync with the same source appends the track yet again |
| `AuthCode.Split` | app.py:24 | `str.split(sep)` yields at least one piece; `JoinSplit`, `SplitLastPiece` and `SplitWithoutSeparator` state the rest of its contract |
| `AuthCode.JoinSplit` | app.py:24 | joining the pieces of `split(sep)` with `sep` gives back the original text |
| `AuthCode.SplitLastPiece` | app.py:24 | the last piece of a split is a suffix of the text and holds no separator; when there are several pieces, the separator stands right before it |
| `AuthCode.SplitWithoutSeparator` | app.py:24 | the text splits into more than one piece exactly when it contains the separator, and into itself alone otherwise |
| `AuthCode.ExtractCode` | app.py:24 | the extracted code is the suffix of the pasted text after the last `"code="`: it holds no `"code="`, and `"code="` stands right before it; text without `"code="` is returned unchanged |
| `PlaylistOptions.Options` | app.py:36 | the table holds at most one key per listed playlist (`RepeatedNameShrinksTable`: fewer when names repeat); `OptionsNames`, `OptionsLastWins` and `SelectedIdIsLastWithName` state which keys and ids |
| `PlaylistOptions.RepeatedNameShrinksTable` | app.py:36 | two listed playlists with the same name take one key between them, so the table has fewer entries than the listing |
| `PlaylistOptions.OptionsNames` | app.py:36 | the table's keys are exactly the listed playlist names |
| `PlaylistOptions.OptionsLastWins` | app.py:36 | for a playlist that no later playlist shares a name with, the table maps its name to its id, so the later pair wins |
| `PlaylistOptions.SelectedIdIsLastWithName` | app.py:36-44 | every name a select box offers resolves to the id of the last listed playlist with that name |
| `PlaylistOptions.ShadowedPlaylistUnreachable` | app.py:36-44 | when ids are unique, a playlist listed before another with the same name cannot be selected at all |

## Left out

- Streamlit rendering and page flow are not modelled: the title, markdown
  link, text input, select boxes, number input, button, success/info
  messages and rerun (`app.py:11-13`, `app.py:21-22`, `app.py:27`,
  `app.py:34`, `app.py:38-42`, `app.py:64-66`). The two messages are
  modelled as the `Outcome` value, not as text.
- Secret and configuration loading (`app.py:6-9`) is not modelled, because
  it is environment I/O.
- The OAuth authorization-code exchange (`get_authorize_url`,
  `get_access_token`, `app.py:17-20`, `app.py:25`) is not modelled, because
  it is foreign library and network code. The check that a token is
  present in the session state (`app.py:16`, `app.py:26`, `app.py:29`) is
  not modelled either: it only selects which page is rendered.
- `current_user` (`app.py:33`) is not modelled: it only feeds a greeting.
  The playlist listing (`app.py:35`) is taken as a given sequence. Its
  `limit=50` cap is not modelled.
- The access token is used as stored in the session state
  (`app.py:29-30`). The code never refreshes it, and the model has no
  notion of expiry.
- Every response item is taken to carry a track with a URI (`Item`). An
  item whose `track` is null makes `t["track"]["uri"]` (`app.py:49`,
  `app.py:52`) raise before any remote change. The model cannot express
  that failure.
- The client library is not part of this model. The page size of a read
  without a limit is taken as the constant `DefaultLimit` (100). One read
  returns one page. The source read (`app.py:48`) asks for at most
  `count <= 100` entries, so one page holds the whole window.
- Remote failures, partial progress after a failed call, and concurrent
  edits by other clients are not modelled. Each remote call either has its
  full effect or is not made.
- The number input's range check (`app.py:40`) is not modelled as an
  operation. Its range, `1 <= count <= 100`, is taken as the precondition
  of both sync methods; their proofs do not depend on it.

## Findings

| source | as written | input that shows it | evidently intended | confidence | as-written member | corrected member |
|---|---|---|---|---|---|---|
| app.py:51 | the target is read once with no limit, so only its first 100 entries are tracked, and only those are ever popped | a target of 150 distinct tracks, an empty source, `count` 50: 50 pops leave 100 tracks | every entry of the target is read, so the target ends with at most `count` tracks | not executed; rests on the client library's default page of 100 | `Sync.LongTargetOvershoots` | `Sync.SyncPlaylistsWholeTarget` |
| app.py:51-54 | `new_uris` is filtered against the first 100 target entries only | a target of 101 distinct tracks whose last entry is the only track of the source, `count` 100: that track is appended again | a track already anywhere in the target is never added | not executed; rests on the client library's default page of 100 | `Sync.LongTargetReaddsTrack` | `Sync.AddsNoDuplicates` |
| app.py:46-63 | a second sync of the same source re-reads only the first 100 target entries | 102 distinct target tracks whose last is the only track of the source, `count` 100: the first sync appends that track again and the second once more | a second sync of the same source adds nothing unless the first evicted a window track | not executed; rests on the client library's default page of 100 | `Sync.LongTargetResyncReadds` | `Sync.ResyncAddsNothingIff` |
