/**
 * The game registry of the third laboratory's launcher (`GameListModel`):
 * index-aligned lists of titles and icon paths, three lists of game models,
 * views and controllers, each looked up by title, and the active game.
 */
module GameList {
  import opened Support

  /**
   * A game's model, view and controller as the registry sees them: the title
   * it answers to, and an `id` standing for the object's identity, so that
   * two entries with the same title stay apart.
   */
  datatype GameModel = GameModel(title: string, id: nat)
  datatype GameView = GameView(title: string, id: nat)
  datatype GameController = GameController(title: string, id: nat)

  /**
   * `filter(x -> titleOf(x).equals(title)).findFirst()` as an index: the
   * first position whose title is `title`, or `None` when no element has it.
   */
  function FirstIndex<T>(xs: seq<T>, titleOf: T -> string, title: string): (r: Option<nat>)
    ensures r.None? <==> forall i :: 0 <= i < |xs| ==> titleOf(xs[i]) != title
    ensures r.Some? ==> r.value < |xs| && titleOf(xs[r.value]) == title
    ensures r.Some? ==> forall j :: 0 <= j < r.value ==> titleOf(xs[j]) != title
    decreases |xs|
  {
    if xs == [] then None
    else if titleOf(xs[0]) == title then Some(0)
    else match FirstIndex(xs[1..], titleOf, title)
      case None => None
      case Some(i) => Some(i + 1)
  }

  /** The element `FirstIndex` finds, or `None` (Java's `orElse(null)`). */
  function FirstWithTitle<T>(xs: seq<T>, titleOf: T -> string, title: string): (r: Option<T>)
    ensures r.None? <==> forall i :: 0 <= i < |xs| ==> titleOf(xs[i]) != title
    ensures r.Some? ==> titleOf(r.value) == title
    ensures r.Some? ==> exists i ::
        0 <= i < |xs| && xs[i] == r.value && (forall j :: 0 <= j < i ==> titleOf(xs[j]) != title)
  {
    match FirstIndex(xs, titleOf, title)
      case None => None
      case Some(i) => Some(xs[i])
  }

  /**
   * Appending never changes a lookup that already succeeds: among entries
   * with the same title the earliest added one is found. A lookup that
   * fails finds the first match among the appended entries.
   */
  lemma {:induction false} AppendKeepsFirst<T>(xs: seq<T>, ys: seq<T>, titleOf: T -> string, title: string)
    ensures FirstIndex(xs, titleOf, title).Some? ==>
      FirstIndex(xs + ys, titleOf, title) == FirstIndex(xs, titleOf, title)
    ensures FirstIndex(xs, titleOf, title).None? ==>
      FirstIndex(xs + ys, titleOf, title) == match FirstIndex(ys, titleOf, title)
        case None => None
        case Some(i) => Some(|xs| + i)
    decreases |xs|
  {
    if xs == [] {
      assert xs + ys == ys;
    } else {
      assert (xs + ys)[0] == xs[0];
      assert (xs + ys)[1..] == xs[1..] + ys;
      AppendKeepsFirst(xs[1..], ys, titleOf, title);
    }
  }

  /** The registry: titles and icon paths at matching indices, and the game components. */
  class GameListModel {
    var gameTitles: seq<string>
    var iconPaths: seq<string>
    var gameModels: seq<GameModel>
    var gameViews: seq<GameView>
    var gameControllers: seq<GameController>
    var activeGame: Option<string>

    /**
     * Registers the five launcher entries: each title, with the icon path
     * made of the icon directory and the icon's file name at the same index.
     * The title, icon name and directory are configuration values.
     */
    constructor (snakeTitle: string, snakeIcon: string, pathToIcons: string)
      ensures |gameTitles| == 5 && |iconPaths| == 5
      ensures forall i :: 0 <= i < 5 ==> gameTitles[i] == snakeTitle
      ensures forall i :: 0 <= i < 5 ==> iconPaths[i] == pathToIcons + snakeIcon
      ensures gameModels == [] && gameViews == [] && gameControllers == []
      ensures activeGame == None
    {
      gameTitles := [];
      iconPaths := [];
      gameModels := [];
      gameViews := [];
      gameControllers := [];
      activeGame := None;
      new;
      var games := seq(5, _ => (snakeTitle, snakeIcon));
      var k := 0;
      while k < |games|
        invariant 0 <= k <= |games|
        invariant |gameTitles| == k && |iconPaths| == k
        invariant forall i :: 0 <= i < k ==> gameTitles[i] == games[i].0
        invariant forall i :: 0 <= i < k ==> iconPaths[i] == pathToIcons + games[i].1
        invariant gameModels == [] && gameViews == [] && gameControllers == []
        invariant activeGame == None
      {
        gameTitles := gameTitles + [games[k].0];
        iconPaths := iconPaths + [pathToIcons + games[k].1];
        k := k + 1;
      }
    }

    function GetActiveGame(): (g: Option<string>)
      reads this
      ensures g == activeGame
    {
      activeGame
    }

    method GetIconPaths() returns (paths: seq<string>)
      ensures paths == iconPaths
    {
      paths := iconPaths;
    }

    method GetTitleList() returns (titles: seq<string>)
      ensures titles == gameTitles
    {
      titles := gameTitles;
    }

    /** The first registered model with this title, or `None`. */
    function GetGameModel(title: string): (r: Option<GameModel>)
      reads this
      ensures r.None? <==> forall i :: 0 <= i < |gameModels| ==> gameModels[i].title != title
      ensures r.Some? ==> r.value.title == title
      ensures r.Some? ==> exists i ::
          0 <= i < |gameModels| && gameModels[i] == r.value && (forall j :: 0 <= j < i ==> gameModels[j].title != title)
    {
      FirstWithTitle(gameModels, (m: GameModel) => m.title, title)
    }

    /** The first registered view with this title, or `None`. */
    function GetGameView(title: string): (r: Option<GameView>)
      reads this
      ensures r.None? <==> forall i :: 0 <= i < |gameViews| ==> gameViews[i].title != title
      ensures r.Some? ==> r.value.title == title
      ensures r.Some? ==> exists i ::
          0 <= i < |gameViews| && gameViews[i] == r.value && (forall j :: 0 <= j < i ==> gameViews[j].title != title)
    {
      FirstWithTitle(gameViews, (v: GameView) => v.title, title)
    }

    /** The first registered controller with this title, or `None`. */
    function GetGameController(title: string): (r: Option<GameController>)
      reads this
      ensures r.None? <==> forall i :: 0 <= i < |gameControllers| ==> gameControllers[i].title != title
      ensures r.Some? ==> r.value.title == title
      ensures r.Some? ==> exists i ::
          0 <= i < |gameControllers| && gameControllers[i] == r.value && (forall j :: 0 <= j < i ==> gameControllers[j].title != title)
    {
      FirstWithTitle(gameControllers, (c: GameController) => c.title, title)
    }

    method SetActiveGame(g: Option<string>)
      modifies this`activeGame
      ensures activeGame == g && GetActiveGame() == g
    {
      activeGame := g;
    }

    /** Appends a model; a lookup that found a model before still finds the same one. */
    method AddGameModel(m: GameModel)
      modifies this`gameModels
      ensures gameModels == old(gameModels) + [m]
      ensures forall t :: old(GetGameModel(t)).Some? ==> GetGameModel(t) == old(GetGameModel(t))
    {
      gameModels := gameModels + [m];
      forall t | old(GetGameModel(t)).Some?
        ensures GetGameModel(t) == old(GetGameModel(t))
      {
        AppendKeepsFirst(old(gameModels), [m], (x: GameModel) => x.title, t);
      }
    }

    /** Appends a view; a lookup that found a view before still finds the same one. */
    method AddGameView(v: GameView)
      modifies this`gameViews
      ensures gameViews == old(gameViews) + [v]
      ensures forall t :: old(GetGameView(t)).Some? ==> GetGameView(t) == old(GetGameView(t))
    {
      gameViews := gameViews + [v];
      forall t | old(GetGameView(t)).Some?
        ensures GetGameView(t) == old(GetGameView(t))
      {
        AppendKeepsFirst(old(gameViews), [v], (x: GameView) => x.title, t);
      }
    }

    /** Appends a controller; a lookup that found a controller before still finds the same one. */
    method AddGameController(c: GameController)
      modifies this`gameControllers
      ensures gameControllers == old(gameControllers) + [c]
      ensures forall t :: old(GetGameController(t)).Some? ==> GetGameController(t) == old(GetGameController(t))
    {
      gameControllers := gameControllers + [c];
      forall t | old(GetGameController(t)).Some?
        ensures GetGameController(t) == old(GetGameController(t))
      {
        AppendKeepsFirst(old(gameControllers), [c], (x: GameController) => x.title, t);
      }
    }
  }
}
