/** The remote playlist store as the sync step sees it: a playlist is an
    ordered sequence of track URIs that the client reads a page at a time,
    removes every copy of a URI from, and appends to. */
module Remote {
  import opened Tracks

  /** The number of entries a playlist-tracks read returns when the caller
      gives no limit: the client library's default page size. */
  const DefaultLimit: nat := 100

  /** The items a read at `offset` with at most `limit` results returns:
      the stored entries from position `offset` on, at most `limit` of them. */
  function Page(uris: seq<Uri>, offset: nat, limit: nat): (items: seq<Item>)
    ensures |items| == (if offset >= |uris| then 0
                        else if |uris| - offset < limit then |uris| - offset
                        else limit)
    ensures forall i :: 0 <= i < |items| ==> items[i].uri == uris[offset + i]
  {
    if offset >= |uris| then []
    else if |uris| - offset < limit then ItemsOf(uris[offset..])
    else ItemsOf(uris[offset..offset + limit])
  }

  /** One playlist held by the remote service. */
  class RemotePlaylist {
    /** The playlist's tracks, in list order (index 0 is the oldest entry). */
    var uris: seq<Uri>

    constructor (uris: seq<Uri>)
      ensures this.uris == uris
    {
      this.uris := uris;
    }

    /** The `total` field of a playlist-tracks read. */
    method Total() returns (total: nat)
      ensures total == |uris|
    {
      total := |uris|;
    }

    /** A playlist-tracks read with an offset and a limit. A read that
        passes neither takes offset 0 and `DefaultLimit`. */
    method ReadPage(offset: nat, limit: nat) returns (items: seq<Item>)
      ensures |items| <= limit
      ensures offset < |uris| ==> |items| == (if |uris| - offset < limit then |uris| - offset else limit)
      ensures UrisOf(items) == if offset < |uris| then uris[offset..offset + |items|] else []
    {
      items := Page(uris, offset, limit);
      assert offset < |uris| ==> UrisOf(items) == uris[offset..offset + |items|];
    }

    /** Removes every occurrence of each listed URI, keeping the order of
        what remains. */
    method RemoveAllOccurrencesOfItems(remove: seq<Uri>)
      modifies this
      ensures uris == Without(old(uris), remove)
    {
      uris := Without(uris, remove);
    }

    /** Appends the URIs, in the given order, at the end of the playlist. */
    method AddItems(add: seq<Uri>)
      modifies this
      ensures uris == old(uris) + add
    {
      uris := uris + add;
    }
  }
}
