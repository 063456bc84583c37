/**
 * Gamebox's game set: every game read from a catalog, reachable both as a
 * list from the most recently added game back to the first and as a vector
 * indexed by game id.  A game's id is the number of games added before it.
 */
module GameSets {
  import opened Text

  /** The descriptive fields a catalog may leave out. */
  datatype Details = Details(
    author: Option<string>, byline: Option<string>, description: Option<string>,
    genre: Option<string>, headline: Option<string>, length: Option<string>,
    publisher: Option<string>, releaseDate: Option<string>, version: Option<string>)

  /** A game: its location (`about`) and title are always present. */
  datatype Game = Game(about: string, title: string, details: Details, id: nat)

  function Reverse<T>(s: seq<T>): (r: seq<T>)
    ensures |r| == |s|
    ensures forall k :: 0 <= k < |s| ==> r[k] == s[|s| - 1 - k]
  {
    if |s| == 0 then [] else [s[|s| - 1]] + Reverse(s[..|s| - 1])
  }

  /** The index of the most recently added game at `location`. */
  function Latest(games: seq<Game>, location: string): (r: Option<nat>)
    ensures r.None? <==> forall k :: 0 <= k < |games| ==> games[k].about != location
    ensures r.Some? ==> r.value < |games| && games[r.value].about == location
    ensures r.Some? ==> forall k :: r.value < k < |games| ==> games[k].about != location
  {
    if |games| == 0 then None
    else if games[|games| - 1].about == location then Some(|games| - 1)
    else Latest(games[..|games| - 1], location)
  }

  class GameSet {
    /** `games_vector`: game `k` has id `k`. */
    var games: seq<Game>
    /** Whether `games_vector` is allocated; it is from the first add until an erase. */
    var hasVector: bool

    ghost predicate Valid()
      reads this
    {
      (forall k :: 0 <= k < |games| ==> games[k].id == k)
      && (|games| > 0 ==> hasVector)
    }

    /** The list from `games_head`: newest first. */
    function Listing(): seq<Game>
      reads this
    {
      Reverse(games)
    }

    constructor ()
      ensures Valid() && games == [] && !hasVector
    {
      games := [];
      hasVector := false;
    }

    /**
     * `gameset_add_game`: the new game takes the next id and becomes the
     * head of the list.
     */
    method AddGame(about: string, title: string, details: Details) returns (game: Game)
      requires Valid()
      modifies this
      ensures Valid() && hasVector
      ensures game == Game(about, title, details, |old(games)|)
      ensures games == old(games) + [game]
    {
      hasVector := true;
      game := Game(about, title, details, |games|);
      games := games + [game];
    }

    /**
     * `gameset_iterate`: from nothing, the head of the list; from a game,
     * the one added just before it.
     */
    function Iterate(game: Option<Game>): (r: Option<Game>)
      reads this
      requires Valid()
      requires game.Some? ==> game.value in games
      ensures game.None? ==> r == if |games| == 0 then None else Some(Listing()[0])
      ensures game.Some? ==> forall k :: 0 <= k < |games| && Listing()[k] == game.value ==>
        r == if k + 1 < |games| then Some(Listing()[k + 1]) else None
    {
      match game {
        case None => if |games| == 0 then None else Some(games[|games| - 1])
        case Some(g) => if g.id == 0 then None else Some(games[g.id - 1])
      }
    }

    /** `gameset_is_empty` */
    method IsEmpty() returns (empty: bool)
      ensures empty <==> games == []
    {
      empty := |games| == 0;
    }

    /** `gameset_erase`: no games, and the id vector is gone. */
    method Erase()
      modifies this
      ensures Valid() && games == [] && !hasVector
    {
      games := [];
      hasVector := false;
    }

    /** `gameset_find_game`: walk the list from the newest game. */
    method FindGame(location: string) returns (r: Option<Game>)
      requires Valid()
      ensures r.None? <==> Latest(games, location).None?
      ensures r.Some? ==> r.value == games[Latest(games, location).value]
    {
      var k := |games|;
      while k > 0
        invariant 0 <= k <= |games|
        invariant forall j :: k <= j < |games| ==> games[j].about != location
      {
        if games[k - 1].about == location {
          LatestIs(games, location, k - 1);
          return Some(games[k - 1]);
        }
        k := k - 1;
      }
      return None;
    }

    /**
     * `gameset_id_to_game`: the game with that id, or nothing past the
     * last id.  The C code reads the length of the id vector, so at least
     * one game must have been added since the last erase.
     */
    function IdToGame(id: nat): (r: Option<Game>)
      reads this
      requires Valid() && hasVector
      ensures r.Some? <==> id < |games|
      ensures r.Some? ==> r.value in games && r.value.id == id
    {
      if id < |games| then Some(games[id]) else None
    }
  }

  /** `gameset_get_game_id` */
  function GameId(game: Game): nat
  {
    game.id
  }

  /** Ids and games translate into each other. */
  lemma IdRoundTrip(gs: GameSet, game: Game)
    requires gs.Valid() && game in gs.games
    ensures gs.hasVector && gs.IdToGame(GameId(game)) == Some(game)
  {
    var k :| 0 <= k < |gs.games| && gs.games[k] == game;
  }

  lemma {:induction false} LatestIs(games: seq<Game>, location: string, k: nat)
    requires k < |games| && games[k].about == location
    requires forall j :: k < j < |games| ==> games[j].about != location
    ensures Latest(games, location) == Some(k)
    decreases |games|
  {
    if k < |games| - 1 {
      LatestIs(games[..|games| - 1], location, k);
    }
  }

  /** The game just added is the head of the list and is what a lookup of its location finds. */
  method AddThenFind(gs: GameSet, about: string, title: string, details: Details) returns (found: Option<Game>)
    requires gs.Valid()
    modifies gs
    ensures gs.Valid() && |gs.games| > 0 && gs.Listing()[0].about == about
    ensures found == Some(Game(about, title, details, |old(gs.games)|))
  {
    var game := gs.AddGame(about, title, details);
    found := gs.FindGame(about);
  }
}
