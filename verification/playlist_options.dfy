/** The table from playlist name to playlist id that both select boxes offer
    and the sync button looks its two choices up in. */
module PlaylistOptions {

  /** One entry of the user's playlist listing, reduced to its name and id. */
  datatype PlaylistRef = PlaylistRef(name: string, id: string)

  /** No later entry of `playlists` carries the name of entry `i`. */
  predicate LastWithName(playlists: seq<PlaylistRef>, i: int)
    requires 0 <= i < |playlists|
  {
    forall j :: i < j < |playlists| ==> playlists[j].name != playlists[i].name
  }

  /** `{p['name']: p['id'] for p in playlists}`: the entries are inserted in
      listing order, so for a repeated name the last entry's id stays. */
  function Options(playlists: seq<PlaylistRef>): (table: map<string, string>)
    ensures |table| <= |playlists|
  {
    if playlists == [] then map[]
    else
      var n := |playlists| - 1;
      Options(playlists[..n])[playlists[n].name := playlists[n].id]
  }

  /** Exactly the listed names are offered. */
  lemma {:induction false} OptionsNames(playlists: seq<PlaylistRef>, name: string)
    ensures name in Options(playlists)
            <==> exists i :: 0 <= i < |playlists| && playlists[i].name == name
  {
    if playlists != [] {
      var n := |playlists| - 1;
      OptionsNames(playlists[..n], name);
      if name in Options(playlists[..n]) {
        var i :| 0 <= i < n && playlists[..n][i].name == name;
        assert playlists[i].name == name;
      }
      if exists i :: 0 <= i < |playlists| && playlists[i].name == name {
        var i :| 0 <= i < |playlists| && playlists[i].name == name;
        if i < n {
          assert playlists[..n][i].name == name;
        }
      }
    }
  }

  /** The id stored for an entry's name is that entry's id when no later
      entry repeats the name: for a repeated name the later pair wins. */
  lemma {:induction false} OptionsLastWins(playlists: seq<PlaylistRef>, i: int)
    requires 0 <= i < |playlists|
    requires LastWithName(playlists, i)
    ensures playlists[i].name in Options(playlists)
    ensures Options(playlists)[playlists[i].name] == playlists[i].id
  {
    var n := |playlists| - 1;
    if i < n {
      assert playlists[n].name != playlists[i].name;
      assert LastWithName(playlists[..n], i);
      OptionsLastWins(playlists[..n], i);
    }
  }

  /** Every name offered resolves to the id of the last listed playlist with
      that name. */
  lemma {:induction false} SelectedIdIsLastWithName(playlists: seq<PlaylistRef>, name: string)
    requires name in Options(playlists)
    ensures exists i :: 0 <= i < |playlists| && playlists[i].name == name
                        && LastWithName(playlists, i)
                        && Options(playlists)[name] == playlists[i].id
  {
    var n := |playlists| - 1;
    if playlists[n].name == name {
      assert LastWithName(playlists, n);
    } else {
      assert name in Options(playlists[..n]);
      SelectedIdIsLastWithName(playlists[..n], name);
      var i :| 0 <= i < n && playlists[..n][i].name == name
               && LastWithName(playlists[..n], i)
               && Options(playlists[..n])[name] == playlists[..n][i].id;
      assert LastWithName(playlists, i);
    }
  }

  /** Names are lossy keys: when ids are unique, a playlist listed before
      another of the same name cannot be chosen at all. */
  lemma ShadowedPlaylistUnreachable(playlists: seq<PlaylistRef>, i: int, j: int)
    requires 0 <= i < j < |playlists|
    requires playlists[i].name == playlists[j].name
    requires forall a, b :: 0 <= a < b < |playlists| ==> playlists[a].id != playlists[b].id
    ensures playlists[i].id !in Options(playlists).Values
  {
    var table := Options(playlists);
    forall name | name in table ensures table[name] != playlists[i].id {
      SelectedIdIsLastWithName(playlists, name);
      var l :| 0 <= l < |playlists| && playlists[l].name == name
               && LastWithName(playlists, l) && table[name] == playlists[l].id;
      assert playlists[j].name == playlists[i].name;
      assert l != i;
    }
  }

  /** Two listed playlists sharing a name take one key between them, so the
      table holds fewer entries than the listing. */
  lemma {:induction false} RepeatedNameShrinksTable(playlists: seq<PlaylistRef>, i: int, j: int)
    requires 0 <= i < j < |playlists|
    requires playlists[i].name == playlists[j].name
    ensures |Options(playlists)| < |playlists|
  {
    var n := |playlists| - 1;
    var before := playlists[..n];
    if j < n {
      RepeatedNameShrinksTable(before, i, j);
    } else {
      OptionsNames(before, playlists[n].name);
      assert before[i].name == playlists[n].name;
      assert playlists[n].name in Options(before);
    }
  }
}
