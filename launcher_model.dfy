/**
 * The launcher's title registry (`LauncherModel`): a map from each game's
 * title to its metadata, filled from the configured list of games, and the
 * titles handed to the menu in ascending string order.
 */
module Launcher {
  import opened StringOrder

  /** A game's metadata: whether it is active; a new entry is not. */
  datatype GameData = GameData(active: bool)

  /** `m` comes before every other title in `keys`. */
  predicate IsLeast(m: string, keys: set<string>) {
    m in keys && forall k :: k in keys && k != m ==> StrLess(m, k)
  }

  /** A non-empty set of titles has a first title. */
  lemma {:induction false} LeastExists(keys: set<string>)
    requires keys != {}
    ensures exists m :: IsLeast(m, keys)
    decreases |keys|
  {
    var x :| x in keys;
    if keys != {x} {
      var rest := keys - {x};
      LeastExists(rest);
      var m :| IsLeast(m, rest);
      if StrLess(x, m) {
        forall k | k in keys && k != x
          ensures StrLess(x, k)
        {
          if k != m {
            Transitive(x, m, k);
          }
        }
        assert IsLeast(x, keys);
      } else {
        Total(x, m);
        assert IsLeast(m, keys);
      }
    } else {
      assert IsLeast(x, keys);
    }
  }

  /** There is only one first title. */
  lemma LeastUnique(keys: set<string>)
    ensures forall m, n :: IsLeast(m, keys) && IsLeast(n, keys) ==> m == n
  {
    forall m, n | IsLeast(m, keys) && IsLeast(n, keys)
      ensures m == n
    {
      if m != n {
        Asymmetric(m, n);
      }
    }
  }

  /**
   * The titles in ascending order, each once: the first title, then the
   * rest sorted the same way.
   */
  function SortedTitles(keys: set<string>): (r: seq<string>)
    ensures StrictlySorted(r)
    ensures forall t :: t in r <==> t in keys
    ensures |r| == |keys|
    decreases |keys|
  {
    if keys == {} then []
    else
      LeastExists(keys);
      LeastUnique(keys);
      var m :| m in keys && IsLeast(m, keys);
      var rest := SortedTitles(keys - {m});
      assert forall j :: 0 <= j < |rest| ==> StrLess(m, rest[j]) by {
        forall j | 0 <= j < |rest|
          ensures StrLess(m, rest[j])
        {
          assert rest[j] in keys - {m};
        }
      }
      [m] + rest
  }

  /**
   * However the key set is enumerated, sorting it gives the same list: any
   * strictly sorted list of exactly the titles is `SortedTitles`.
   */
  lemma AnySortGivesTitleList(keys: set<string>, s: seq<string>)
    requires StrictlySorted(s)
    requires forall t :: t in s <==> t in keys
    ensures s == SortedTitles(keys)
  {
    SortedUnique(s, SortedTitles(keys));
  }

  /** A list names at most as many distinct titles as it has entries. */
  lemma {:induction false} DistinctTitlesBound(s: seq<string>)
    ensures |set t | t in s| <= |s|
    decreases |s|
  {
    if s != [] {
      DistinctTitlesBound(s[1..]);
      assert (set t | t in s) == {s[0]} + (set t | t in s[1..]);
    }
  }

  /** The registry of games by title. */
  class LauncherModel {
    var games: map<string, GameData>

    /**
     * Enters every configured title with fresh, inactive metadata; a title
     * listed twice is entered once.
     */
    constructor (gameTitles: seq<string>)
      ensures games.Keys == set t | t in gameTitles
      ensures forall t :: t in games ==> !games[t].active
      ensures |games| <= |gameTitles|
    {
      games := map[];
      new;
      var i := 0;
      while i < |gameTitles|
        invariant 0 <= i <= |gameTitles|
        invariant games.Keys == set t | t in gameTitles[..i]
        invariant forall t :: t in games ==> !games[t].active
      {
        assert gameTitles[..i + 1] == gameTitles[..i] + [gameTitles[i]];
        games := games[gameTitles[i] := GameData(false)];
        i := i + 1;
      }
      assert gameTitles[..i] == gameTitles;
      DistinctTitlesBound(gameTitles);
    }

    /** All titles in ascending string order, each once; the map is left as it is. */
    function GetTitleList(): (titles: seq<string>)
      reads this
      ensures StrictlySorted(titles)
      ensures forall t :: t in titles <==> t in games
      ensures |titles| == |games|
      ensures forall i, j :: 0 <= i < j < |titles| ==> titles[i] != titles[j]
    {
      var titles := SortedTitles(games.Keys);
      NoDuplicates(titles);
      titles
    }

    /** Sets the active flag of a registered game; the set of titles stays the same. */
    method SetActiveGameState(game: string, isActive: bool)
      requires game in games
      modifies this
      ensures games == old(games)[game := GameData(isActive)]
      ensures games.Keys == old(games.Keys) && games[game].active == isActive
    {
      games := games[game := games[game].(active := isActive)];
    }
  }
}
