/** Track URIs, the playlist items that carry them, and the order-preserving
    filter that both the "new tracks" comprehension and the remote
    remove-all-occurrences call are instances of. */
module Tracks {

  /** A track URI; equality is exact string equality and is the only key the
      sync step uses. */
  type Uri = string

  /** One entry of a playlist-tracks response, reduced to its `track.uri`. */
  datatype Item = Item(uri: Uri)

  /** The URI of each item, in order (the `[t["track"]["uri"] for t in ...]`
      comprehensions). */
  function UrisOf(items: seq<Item>): (uris: seq<Uri>)
    ensures |uris| == |items|
    ensures forall i :: 0 <= i < |items| ==> uris[i] == items[i].uri
  {
    seq(|items|, i requires 0 <= i < |items| => items[i].uri)
  }

  /** The URIs of two runs of items read one after the other. */
  lemma UrisOfAppend(a: seq<Item>, b: seq<Item>)
    ensures UrisOf(a + b) == UrisOf(a) + UrisOf(b)
  {
  }

  /** The items a playlist read returns for a run of stored URIs. */
  function ItemsOf(uris: seq<Uri>): (items: seq<Item>)
    ensures UrisOf(items) == uris
  {
    seq(|uris|, i requires 0 <= i < |uris| => Item(uris[i]))
  }

  /** The elements of `s` that occur nowhere in `drop`, in their order in `s`. */
  function Without(s: seq<Uri>, drop: seq<Uri>): (r: seq<Uri>)
    ensures |r| <= |s|
  {
    if s == [] then []
    else (if s[0] in drop then [] else [s[0]]) + Without(s[1..], drop)
  }

  /** `r` can be obtained from `s` by deleting elements (greedy matching). */
  predicate SubsequenceOf(r: seq<Uri>, s: seq<Uri>)
    decreases |s|
  {
    if r == [] then true
    else if s == [] then false
    else if r[0] == s[0] then SubsequenceOf(r[1..], s[1..])
    else SubsequenceOf(r, s[1..])
  }

  /** No URI occurs twice. */
  predicate Distinct(s: seq<Uri>)
  {
    forall i, j :: 0 <= i < j < |s| ==> s[i] != s[j]
  }

  /** Exactly the elements of `s` outside `drop` survive the filter. */
  lemma {:induction false} WithoutMembers(s: seq<Uri>, drop: seq<Uri>)
    ensures forall u :: u in Without(s, drop) <==> u in s && u !in drop
  {
    if s != [] {
      WithoutMembers(s[1..], drop);
      assert s == [s[0]] + s[1..];
    }
  }

  /** The filter keeps the survivors in their original order. */
  lemma {:induction false} WithoutKeepsOrder(s: seq<Uri>, drop: seq<Uri>)
    ensures SubsequenceOf(Without(s, drop), s)
  {
    if s != [] {
      WithoutKeepsOrder(s[1..], drop);
      var rest := Without(s[1..], drop);
      if s[0] in drop {
        assert Without(s, drop) == rest;
        SkipOne(rest, s);
      } else {
        assert Without(s, drop) == [s[0]] + rest;
        assert ([s[0]] + rest)[1..] == rest;
      }
    }
  }

  /** Dropping the head of the longer sequence keeps a subsequence one. */
  lemma {:induction false} SkipOne(r: seq<Uri>, s: seq<Uri>)
    requires s != []
    requires SubsequenceOf(r, s[1..])
    ensures SubsequenceOf(r, s)
    decreases |s|, |r|
  {
    if r != [] && r[0] == s[0] {
      if |s| > 1 {
        SubsequenceTail(r, s[1..]);
      }
    }
  }

  /** A subsequence of `s` without its head is still a subsequence of `s`. */
  lemma {:induction false} SubsequenceTail(r: seq<Uri>, s: seq<Uri>)
    requires r != []
    requires SubsequenceOf(r, s)
    ensures SubsequenceOf(r[1..], s)
    decreases |s|, |r|
  {
    if s != [] {
      if r[0] == s[0] {
        SkipOne(r[1..], s);
      } else {
        SubsequenceTail(r, s[1..]);
        SkipOne(r[1..], s);
      }
    }
  }

  /** Every survivor keeps all its copies; every dropped URI keeps none. */
  lemma {:induction false} WithoutCounts(s: seq<Uri>, drop: seq<Uri>, u: Uri)
    ensures multiset(Without(s, drop))[u] == if u in drop then 0 else multiset(s)[u]
  {
    if s != [] {
      WithoutCounts(s[1..], drop, u);
      assert s == [s[0]] + s[1..];
      assert multiset(s) == multiset([s[0]]) + multiset(s[1..]);
      if s[0] in drop {
        assert Without(s, drop) == Without(s[1..], drop);
      } else {
        assert Without(s, drop) == [s[0]] + Without(s[1..], drop);
      }
    }
  }

  /** Filtering a concatenation filters each part. */
  lemma {:induction false} WithoutAppend(a: seq<Uri>, b: seq<Uri>, drop: seq<Uri>)
    ensures Without(a + b, drop) == Without(a, drop) + Without(b, drop)
  {
    if a != [] {
      WithoutAppend(a[1..], b, drop);
      assert (a + b)[1..] == a[1..] + b;
    } else {
      assert a + b == b;
    }
  }

  /** Filtering twice is filtering once by both lists. */
  lemma {:induction false} WithoutTwice(s: seq<Uri>, d1: seq<Uri>, d2: seq<Uri>)
    ensures Without(Without(s, d1), d2) == Without(s, d1 + d2)
  {
    if s != [] {
      WithoutTwice(s[1..], d1, d2);
      if s[0] in d1 {
        assert Without(s, d1) == Without(s[1..], d1);
        assert Without(s, d1 + d2) == Without(s[1..], d1 + d2);
      } else {
        assert Without(s, d1) == [s[0]] + Without(s[1..], d1);
        assert ([s[0]] + Without(s[1..], d1))[1..] == Without(s[1..], d1);
      }
    }
  }

  /** Only the members of the drop list matter, not their order or
      multiplicity. */
  lemma {:induction false} WithoutSameMembers(s: seq<Uri>, a: seq<Uri>, b: seq<Uri>)
    requires forall u :: u in a <==> u in b
    ensures Without(s, a) == Without(s, b)
  {
    if s != [] {
      WithoutSameMembers(s[1..], a, b);
    }
  }

  /** Removing the URIs of two lists one after the other gives the same
      sequence in either order. */
  lemma RemovalOrderIrrelevant(s: seq<Uri>, d1: seq<Uri>, d2: seq<Uri>)
    ensures Without(Without(s, d1), d2) == Without(Without(s, d2), d1)
  {
    WithoutTwice(s, d1, d2);
    WithoutTwice(s, d2, d1);
    WithoutSameMembers(s, d1 + d2, d2 + d1);
  }

  /** The filter never lengthens, and keeps the length exactly when it
      drops nothing. */
  lemma {:induction false} WithoutLength(s: seq<Uri>, drop: seq<Uri>)
    ensures |Without(s, drop)| <= |s|
    ensures |Without(s, drop)| == |s| <==> forall i :: 0 <= i < |s| ==> s[i] !in drop
  {
    if s != [] {
      WithoutLength(s[1..], drop);
      forall i | 0 < i < |s| ensures s[i] == s[1..][i - 1] { }
    }
  }

  /** A filter that keeps the length drops nothing. */
  lemma {:induction false} WithoutSameLength(s: seq<Uri>, drop: seq<Uri>)
    requires |Without(s, drop)| == |s|
    ensures Without(s, drop) == s
  {
    if s != [] {
      WithoutLength(s[1..], drop);
      WithoutSameLength(s[1..], drop);
    }
  }

  /** Removing the URIs of an empty list changes nothing. */
  lemma WithoutNothing(s: seq<Uri>)
    ensures Without(s, []) == s
  {
  }

  /** A filter whose drop list covers `s` leaves nothing. */
  lemma {:induction false} WithoutAll(s: seq<Uri>, drop: seq<Uri>)
    requires forall i :: 0 <= i < |s| ==> s[i] in drop
    ensures Without(s, drop) == []
  {
    if s != [] {
      WithoutAll(s[1..], drop);
    }
  }

  /** Removing every copy of `evict[n]` after every copy of the first `n`
      entries of `evict` is removing every copy of its first `n + 1`. */
  lemma WithoutOneMore(s: seq<Uri>, evict: seq<Uri>, n: nat)
    requires n < |evict|
    ensures Without(Without(s, evict[..n]), [evict[n]]) == Without(s, evict[..n + 1])
  {
    WithoutTwice(s, evict[..n], [evict[n]]);
    assert evict[..n + 1] == evict[..n] + [evict[n]];
  }
}
