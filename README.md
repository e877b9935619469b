# GameLauncher core in Dafny

This project models the statable logic of the GameLauncher coursework repository and proves properties of it. There are six parts, one module each, plus a support module:

- **ThreadPool** (`ThreadManager`, laboratory 1). A pool of five worker threads.
  - `getThread` counts one utilization and takes a worker out of the idle list: the head, or, when the head's last client count was prime, the worker at index `clientsNum % 5` if that index exists.
  - `returnThread` puts a worker back at the tail.
  - Every call runs under one lock, so each is one step on a `seq` of workers. Waiting for a worker becomes the precondition that the list is not empty.
  - A trace model replays acquires and releases. It proves that every worker is either idle or held, and never both.
- **Resources** (`ResourcePool`, laboratory 2). A counter that starts at 50. An adjustment applies only when the result is not negative.
- **Snake** (`SnakeModel`). The snake is an array of segment rows `[y, x, color]`, updated in place.
  - Building the initial snake.
  - Moving the body, then moving the head with wrap-around.
  - Classifying the grid cell under the head.
  - Gating direction changes.
- **Cherry** (`BoosterCherryModel`). Growing the snake: a new array with a copy of the tail's cell in front of the old segments.
- **GameList** (`GameListModel`, laboratory 3). Index-aligned title and icon-path lists, plus three lists of game components. Each component list has a first-match lookup by title.
- **Launcher** (`LauncherModel`) with **StringOrder**. A map from titles to metadata, and the titles in ascending `String.compareTo` order.

Java's 32-bit `int` arithmetic is written out (`Support.Wrap32`) wherever it decides a branch. Java's `%`, which truncates toward zero, is `Support.JavaRem`.

Two behaviours of the code worth stating:

- **ResourcePool's guard.** `modifyResources` tests `resources.get() + resource < 0` in 32-bit arithmetic. A positive delta whose sum passes the largest `int` wraps to a negative number and is therefore rejected, not applied. `Resources.Modified` states this: the sum is applied exactly when it lies in `0 .. 2^31-1`.
- **`grow` and `updateSnake`.** `grow` hands the expanded array to `snakeModel.updateSnake`, which `SnakeModel` does not declare. The model uses the declared `setSnake`, which replaces the array. `headIndex` is not changed. After growing, it names the segment just behind the head, since the head moved one index up.

## Model

| member | source | states |
|---|---|---|
| Support.Wrap32 | Laboration_2/src/main/java/com/dt181g/laboration_2/ResourcePool.java:10-11 | the result is a Java `int`, congruent to the exact sum modulo 2^32, and equal to it when the sum is in range |
| Support.JavaRem | Laboration_1/src/main/java/com/dt181g/laboration_1/ThreadManager.java:42 | Java's `%`: congruent to the dividend modulo `n`, in `[0, n)` for a non-negative dividend and in `(-n, 0]` for a negative one, which fixes the value |
| ThreadPool.RemoveAt | Laboration_1/src/main/java/com/dt181g/laboration_1/ThreadManager.java:73-74 | `ArrayList.remove(k)`: one element shorter, entries before `k` in place, entries after `k` moved down by one |
| ThreadPool.IdsRemoveAt | Laboration_1/src/main/java/com/dt181g/laboration_1/ThreadManager.java:73-74 | removing index `k` takes exactly that worker's id out of the multiset of ids |
| ThreadPool.ChosenIndex | Laboration_1/src/main/java/com/dt181g/laboration_1/ThreadManager.java:71-74 | the index `getThread` removes is always a valid index of the non-empty list |
| ThreadPool.Acquired | Laboration_1/src/main/java/com/dt181g/laboration_1/ThreadManager.java:68-74 | one acquire: utilizations grow by exactly one; the worker at `ChosenIndex` is handed out and the list left is the old list with that index removed, the rest in order; the handed-out id plus the remaining ids are the old ids |
| ThreadPool.Released | Laboration_1/src/main/java/com/dt181g/laboration_1/ThreadManager.java:82-86 | one release: the list is one longer, every earlier entry is unchanged, the worker is last, its id joins the ids, and the counters are unchanged |
| ThreadPool.FifoWhenHeadNotPrime | Laboration_1/src/main/java/com/dt181g/laboration_1/ThreadManager.java:69-74 | a non-prime head is handed out itself, the rest of the list stays in order, and the preference is untouched |
| ThreadPool.PrimeHeadRoutes | Laboration_1/src/main/java/com/dt181g/laboration_1/ThreadManager.java:71-73 | a prime head sets the preference to `clientsNum % 5`; when that index exists its worker is handed out and removed, the others kept in order; otherwise the head is handed out and the tail is left |
| ThreadPool.ChoiceIgnoresPreference | Laboration_1/src/main/java/com/dt181g/laboration_1/ThreadManager.java:71-74 | the worker handed out and the list left behind do not depend on the previous preference |
| ThreadPool.Conservation | Laboration_1/src/main/java/com/dt181g/laboration_1/ThreadManager.java:58-87 | over any feasible run of acquires and releases, idle ids plus held ids are invariant, and utilizations grow by the number of acquires |
| ThreadPool.InitialWorkers | Laboration_1/src/main/java/com/dt181g/laboration_1/ThreadManager.java:25-31 | five workers, the `i`th created at index `i - 1` |
| ThreadPool.AllReturned | Laboration_1/src/main/java/com/dt181g/laboration_1/ThreadManager.java:58-87 | from a full pool, once every client has returned its worker, the pool is full again and has counted one utilization per acquire |
| ThreadPool.ThreadManager.constructor | Laboration_1/src/main/java/com/dt181g/laboration_1/ThreadManager.java:25-31 | the pool holds the five new workers in creation order, with utilization 0 and preference 6 |
| ThreadPool.ThreadManager.GetThreadUtilizations | Laboration_1/src/main/java/com/dt181g/laboration_1/ThreadManager.java:37-39 | returns the utilization count |
| ThreadPool.ThreadManager.SetQueuePreference | Laboration_1/src/main/java/com/dt181g/laboration_1/ThreadManager.java:41-44 | stores `value % 5` with Java's sign rule; in `[0, 5)` for a non-negative value |
| ThreadPool.ThreadManager.GetThread | Laboration_1/src/main/java/com/dt181g/laboration_1/ThreadManager.java:58-76 | on a non-empty pool, the new state and the returned worker are `Acquired` of the old state; `workerThread` is the old head |
| ThreadPool.ThreadManager.ReturnThread | Laboration_1/src/main/java/com/dt181g/laboration_1/ThreadManager.java:82-87 | the new state is `Released` of the old one |
| ThreadPool.ThreadManager.Shutdown | Laboration_1/src/main/java/com/dt181g/laboration_1/ThreadManager.java:94-109 | the pool is empty afterwards |
| Resources.Modified | Laboration_2/src/main/java/com/dt181g/laboration_2/ResourcePool.java:9-13 | the counter after one adjustment: `v + d` when that is in `0 .. 2^31-1`, otherwise `v`; always in range |
| Resources.ModifiedAll | Laboration_2/src/main/java/com/dt181g/laboration_2/ResourcePool.java:7-13 | from any valid value, any run of adjustments leaves the counter non-negative and within `int` |
| Resources.RejectedLeavesValue | Laboration_2/src/main/java/com/dt181g/laboration_2/ResourcePool.java:10 | an adjustment with `v + d < 0` leaves the value unchanged |
| Resources.NonNegativeApplied | Laboration_2/src/main/java/com/dt181g/laboration_2/ResourcePool.java:10-11 | a non-negative delta is applied exactly when the sum does not pass the largest `int` |
| Resources.DecrementsStayInRange | Laboration_2/src/main/java/com/dt181g/laboration_2/ResourcePool.java:9-13 | a run of decrements keeps the counter between 0 and its start value |
| Resources.ModifiedAllAppend | Laboration_2/src/main/java/com/dt181g/laboration_2/ResourcePool.java:9-13 | applying two runs one after the other is applying their concatenation |
| Resources.RefusedThenTaken | Laboration_2/src/main/java/com/dt181g/laboration_2/ResourcePool.java:7-13 | from 50, taking 60 is refused and then taking 10 leaves 40 |
| Resources.ResourcePool.constructor | Laboration_2/src/main/java/com/dt181g/laboration_2/ResourcePool.java:7 | the counter starts at 50 |
| Resources.ResourcePool.ModifyResources | Laboration_2/src/main/java/com/dt181g/laboration_2/ResourcePool.java:9-13 | the new value is `Modified` of the old one; a delta that would go below zero changes nothing; the counter stays in range |
| Resources.ResourcePool.GetResources | Laboration_2/src/main/java/com/dt181g/laboration_2/ResourcePool.java:15-17 | returns the current, non-negative value and changes nothing |
| Snake.StepForward | Project/src/main/java/com/dt181g/project/mvccomponents/games/snake/model/SnakeModel.java:76-81 | `(v + 1) % n` keeps an on-grid coordinate on the grid: `v + 1`, or 0 at the last cell |
| Snake.StepBack | Project/src/main/java/com/dt181g/project/mvccomponents/games/snake/model/SnakeModel.java:89-94 | `(v - 1 + n) % n` keeps an on-grid coordinate on the grid: `v - 1`, or `n - 1` at cell 0 |
| Snake.StepsUndo | Project/src/main/java/com/dt181g/project/mvccomponents/games/snake/model/SnakeModel.java:76-94 | on the grid, a step back and a step forward undo each other in either order |
| Snake.Axis | Project/src/main/java/com/dt181g/project/mvccomponents/games/snake/model/SnakeModel.java:46-51 | a move changes y (index 0) or x (index 1) |
| Snake.Requested | Project/src/main/java/com/dt181g/project/mvccomponents/games/snake/model/SnakeModel.java:168-186 | a closed gate changes nothing; any change sets the requested direction and closes the gate; a reversal changes the direction only on restart |
| Snake.InitialSegments | Project/src/main/java/com/dt181g/project/mvccomponents/games/snake/model/SnakeModel.java:21-36 | ten segments of `itemParts` entries: y is `n/2`, segment `i` has x `n/2 - 5 + i`, color 1, zeros after the color |
| Snake.InitialRow | Project/src/main/java/com/dt181g/project/mvccomponents/games/snake/model/SnakeModel.java:26-35 | a row with those coordinates, color and zero padding is segment `i` |
| Snake.InitialSnakeFits | Project/src/main/java/com/dt181g/project/mvccomponents/games/snake/model/SnakeModel.java:26-35 | on a grid of side at least ten, the new snake lies on the grid and no two segments share a cell |
| Snake.ShiftedBody | Project/src/main/java/com/dt181g/project/mvccomponents/games/snake/model/SnakeModel.java:63-68 | every segment but the last takes the y and x of the one ahead, all other entries are kept, and the last segment is untouched |
| Snake.MovedHead | Project/src/main/java/com/dt181g/project/mvccomponents/games/snake/model/SnakeModel.java:46-51 | only the head's coordinate on the move's axis changes, by a forward step for DOWN/RIGHT and a back step for UP/LEFT |
| Snake.Collided | Project/src/main/java/com/dt181g/project/mvccomponents/games/snake/model/SnakeModel.java:107-111 | the last segment's color becomes 3 and every other entry is unchanged |
| Snake.MoveStaysOnGrid | Project/src/main/java/com/dt181g/project/mvccomponents/games/snake/model/SnakeModel.java:43-54 | on a square grid, a snake on the grid is still on the grid after body and head have moved |
| Snake.CollisionStaysOnGrid | Project/src/main/java/com/dt181g/project/mvccomponents/games/snake/model/SnakeModel.java:105-111 | marking the collision moves no segment |
| Snake.NoReversal | Project/src/main/java/com/dt181g/project/mvccomponents/games/snake/model/SnakeModel.java:170-178 | a request for the opposite of the current direction changes nothing unless it is a restart |
| Snake.RequestTaken | Project/src/main/java/com/dt181g/project/mvccomponents/games/snake/model/SnakeModel.java:168-186 | with the gate open, a request that is not a refused reversal sets the direction and closes the gate |
| Snake.ClosedGateIgnoresAll | Project/src/main/java/com/dt181g/project/mvccomponents/games/snake/model/SnakeModel.java:182-185 | with the gate closed, no run of requests changes anything |
| Snake.AtMostOneChange | Project/src/main/java/com/dt181g/project/mvccomponents/games/snake/model/SnakeModel.java:182-185 | between two grid updates the direction changes at most once: the result is the old state, or request `i` with the gate closed, where every request before `i` changed nothing and request `i` was taken |
| Snake.NewRows | Project/src/main/java/com/dt181g/project/mvccomponents/games/snake/model/SnakeModel.java:23 | `new int[rows][cols]`: fresh, distinct rows of zeros |
| Snake.LayOutInitialSnake | Project/src/main/java/com/dt181g/project/mvccomponents/games/snake/model/SnakeModel.java:26-35 | the loop writes y `n/2`, x `n/2 - 5 + k` and color 1 into every row `k` and leaves the other entries alone |
| Snake.SnakeModel.constructor | Project/src/main/java/com/dt181g/project/mvccomponents/games/snake/model/SnakeModel.java:10-16 | no snake and no grid yet; head index 9, changes allowed, no direction, not over, speed 500 |
| Snake.SnakeModel.InitializeSnake | Project/src/main/java/com/dt181g/project/mvccomponents/games/snake/model/SnakeModel.java:21-36 | the snake is a fresh array whose contents are `InitialSegments` of the grid side, and the head index is its last index |
| Snake.SnakeModel.MoveSnakeBody | Project/src/main/java/com/dt181g/project/mvccomponents/games/snake/model/SnakeModel.java:63-68 | the contents become `ShiftedBody` of the old contents |
| Snake.SnakeModel.MoveSnakeHeadPosDirection | Project/src/main/java/com/dt181g/project/mvccomponents/games/snake/model/SnakeModel.java:76-81 | only the head's entry `axis` changes, to `StepForward` of its old value |
| Snake.SnakeModel.MoveSnakeHeadNegDirection | Project/src/main/java/com/dt181g/project/mvccomponents/games/snake/model/SnakeModel.java:89-94 | only the head's entry `axis` changes, to `StepBack` of its old value |
| Snake.SnakeModel.MoveSnakeHead | Project/src/main/java/com/dt181g/project/mvccomponents/games/snake/model/SnakeModel.java:46-51 | the switch on the direction: the contents become `MovedHead` of the old contents |
| Snake.SnakeModel.CheckHeadCell | Project/src/main/java/com/dt181g/project/mvccomponents/games/snake/model/SnakeModel.java:105-115 | on a body cell: game over, last segment colored 3, direction changes blocked; on a cherry or speed cell: the booster is eaten; otherwise nothing changes |
| Snake.SnakeModel.MoveSnake | Project/src/main/java/com/dt181g/project/mvccomponents/games/snake/model/SnakeModel.java:43-54 | one tick: contents are the moved snake, or its collided form when the head lands on the body; the booster is eaten exactly on cells 2 and 4; the snake stays on the grid |
| Snake.SnakeModel.SetDirection | Project/src/main/java/com/dt181g/project/mvccomponents/games/snake/model/SnakeModel.java:168-186 | direction and gate become `Requested` of the old ones |
| Snake.SnakeModel.GetSnake | Project/src/main/java/com/dt181g/project/mvccomponents/games/snake/model/SnakeModel.java:124-126 | returns the snake array itself |
| Snake.SnakeModel.SetSnake | Project/src/main/java/com/dt181g/project/mvccomponents/games/snake/model/SnakeModel.java:128-130 | the snake becomes the given array |
| Snake.SnakeModel.SetHeadIndex | Project/src/main/java/com/dt181g/project/mvccomponents/games/snake/model/SnakeModel.java:132-134 | the head index becomes the argument |
| Snake.SnakeModel.IsGameOver | Project/src/main/java/com/dt181g/project/mvccomponents/games/snake/model/SnakeModel.java:136-138 | returns the game-over flag |
| Snake.SnakeModel.SetGameOver | Project/src/main/java/com/dt181g/project/mvccomponents/games/snake/model/SnakeModel.java:140-142 | the game-over flag becomes the argument |
| Snake.SnakeModel.SetAllowChangesToDirection | Project/src/main/java/com/dt181g/project/mvccomponents/games/snake/model/SnakeModel.java:152-154 | the gate becomes the argument |
| Snake.SnakeModel.SetGameGrid | Project/src/main/java/com/dt181g/project/mvccomponents/games/snake/model/SnakeModel.java:188-190 | the grid becomes the argument |
| Snake.SnakeModel.GetSpeed | Project/src/main/java/com/dt181g/project/mvccomponents/games/snake/model/SnakeModel.java:192-194 | returns the speed |
| Snake.SnakeModel.SetSpeed | Project/src/main/java/com/dt181g/project/mvccomponents/games/snake/model/SnakeModel.java:196-198 | the speed becomes the argument |
| Cherry.Grown | Project/src/main/java/com/dt181g/project/mvccomponents/games/snake/model/BoosterCherryModel.java:49-61 | one segment longer: the new first segment is the old tail's cell in color 1, and the old segments follow unchanged |
| Cherry.GrownOnGrid | Project/src/main/java/com/dt181g/project/mvccomponents/games/snake/model/BoosterCherryModel.java:49-61 | growing keeps a snake on the grid |
| Cherry.GrowThenShift | Project/src/main/java/com/dt181g/project/mvccomponents/games/snake/model/BoosterCherryModel.java:42-61 | growing and then moving the body equals moving the body with one extra segment, in color 1, left at the old tail's cell |
| Cherry.Expanded | Project/src/main/java/com/dt181g/project/mvccomponents/games/snake/model/BoosterCherryModel.java:50-57 | a fresh array one longer, old rows (the same arrays) from index 1, a fresh tail row at 0; its contents are `Grown` of the old contents |
| Cherry.ArrayCopyShifted | Project/src/main/java/com/dt181g/project/mvccomponents/games/snake/model/BoosterCherryModel.java:54 | `System.arraycopy(src, 0, dst, 1, n)`: `dst[i + 1]` is `src[i]` and `dst[0]` is untouched |
| Cherry.BoosterCherryModel.constructor | Project/src/main/java/com/dt181g/project/mvccomponents/games/snake/model/BoosterCherryModel.java:13-14 | the cherry is one fresh item of three zero entries |
| Cherry.BoosterCherryModel.Grow | Project/src/main/java/com/dt181g/project/mvccomponents/games/snake/model/BoosterCherryModel.java:49-61 | only the model's snake changes: a fresh array one longer with `new[i+1] == old[i]`, contents `Grown` of the old contents |
| Cherry.BoosterCherryModel.GetBooster | Project/src/main/java/com/dt181g/project/mvccomponents/games/snake/model/BoosterCherryModel.java:73-75 | returns the cherry item array |
| Cherry.BoosterCherryModel.GetBoosterColor | Project/src/main/java/com/dt181g/project/mvccomponents/games/snake/model/BoosterCherryModel.java:82-84 | always the cherry color, 2 |
| Cherry.BoosterCherryModel.IsBoosterActive | Project/src/main/java/com/dt181g/project/mvccomponents/games/snake/model/BoosterCherryModel.java:92-95 | always false |
| GameList.FirstIndex | Laboration_3/src/main/java/com/dt181g/laboration_3/model/launcher/GameListModel.java:110-113 | `None` exactly when no element has the title; otherwise an index whose element has it, with none before it |
| GameList.FirstWithTitle | Laboration_3/src/main/java/com/dt181g/laboration_3/model/launcher/GameListModel.java:110-113 | `None` exactly when no element has the title; otherwise the earliest element with that title |
| GameList.AppendKeepsFirst | Laboration_3/src/main/java/com/dt181g/laboration_3/model/launcher/GameListModel.java:109-186 | appending keeps a successful lookup's result; a failed lookup finds the first match among the appended elements, offset by the old length |
| GameList.GameListModel.constructor | Laboration_3/src/main/java/com/dt181g/laboration_3/model/launcher/GameListModel.java:34-46 | five titles and five icon paths, aligned by index, each path the icon directory plus the icon name; no components; no active game |
| GameList.GameListModel.GetActiveGame | Laboration_3/src/main/java/com/dt181g/laboration_3/model/launcher/GameListModel.java:56-58 | returns the active game |
| GameList.GameListModel.GetIconPaths | Laboration_3/src/main/java/com/dt181g/laboration_3/model/launcher/GameListModel.java:64-66 | returns the icon paths |
| GameList.GameListModel.GetTitleList | Laboration_3/src/main/java/com/dt181g/laboration_3/model/launcher/GameListModel.java:72-74 | returns the titles |
| GameList.GameListModel.GetGameModel | Laboration_3/src/main/java/com/dt181g/laboration_3/model/launcher/GameListModel.java:109-114 | `None` exactly when no model has the title; otherwise the earliest added model with it |
| GameList.GameListModel.GetGameView | Laboration_3/src/main/java/com/dt181g/laboration_3/model/launcher/GameListModel.java:127-132 | `None` exactly when no view has the title; otherwise the earliest added view with it |
| GameList.GameListModel.GetGameController | Laboration_3/src/main/java/com/dt181g/laboration_3/model/launcher/GameListModel.java:145-150 | `None` exactly when no controller has the title; otherwise the earliest added controller with it |
| GameList.GameListModel.SetActiveGame | Laboration_3/src/main/java/com/dt181g/laboration_3/model/launcher/GameListModel.java:160-162 | the active game becomes the argument, and reading it back gives the argument |
| GameList.GameListModel.AddGameModel | Laboration_3/src/main/java/com/dt181g/laboration_3/model/launcher/GameListModel.java:168-170 | appends to the model list only; every model lookup that succeeded before gives the same model |
| GameList.GameListModel.AddGameView | Laboration_3/src/main/java/com/dt181g/laboration_3/model/launcher/GameListModel.java:176-178 | appends to the view list only; every view lookup that succeeded before gives the same view |
| GameList.GameListModel.AddGameController | Laboration_3/src/main/java/com/dt181g/laboration_3/model/launcher/GameListModel.java:184-186 | appends to the controller list only; every controller lookup that succeeded before gives the same controller |
| StringOrder.StrLessMeans | Project/src/main/java/com/dt181g/project/model/LauncherModel.java:46 | the order `StrLess` used by `.sorted()` is `String.compareTo`'s: `a` comes first exactly when it is a proper prefix of `b`, or has the smaller character at the first index where they differ |
| StringOrder.Irreflexive | Project/src/main/java/com/dt181g/project/model/LauncherModel.java:46 | no string comes before itself |
| StringOrder.Transitive | Project/src/main/java/com/dt181g/project/model/LauncherModel.java:46 | the string order is transitive |
| StringOrder.Total | Project/src/main/java/com/dt181g/project/model/LauncherModel.java:46 | of two different strings, one comes before the other |
| StringOrder.Asymmetric | Project/src/main/java/com/dt181g/project/model/LauncherModel.java:46 | two strings are never each before the other |
| StringOrder.NoDuplicates | Project/src/main/java/com/dt181g/project/model/LauncherModel.java:45-47 | a strictly sorted list repeats no entry |
| StringOrder.SortedUnique | Project/src/main/java/com/dt181g/project/model/LauncherModel.java:45-47 | two strictly sorted lists with the same elements are equal |
| Launcher.LeastExists | Project/src/main/java/com/dt181g/project/model/LauncherModel.java:46 | a non-empty set of titles has a first title |
| Launcher.LeastUnique | Project/src/main/java/com/dt181g/project/model/LauncherModel.java:46 | that first title is unique |
| Launcher.SortedTitles | Project/src/main/java/com/dt181g/project/model/LauncherModel.java:44-48 | strictly ascending, contains exactly the given titles, and has one entry per title |
| Launcher.AnySortGivesTitleList | Project/src/main/java/com/dt181g/project/model/LauncherModel.java:44-48 | whatever order the key set is visited in, sorting it gives `SortedTitles` |
| Launcher.DistinctTitlesBound | Project/src/main/java/com/dt181g/project/model/LauncherModel.java:30-34 | a list names at most as many distinct titles as it has entries |
| Launcher.LauncherModel.constructor | Project/src/main/java/com/dt181g/project/model/LauncherModel.java:30-34 | the map's keys are exactly the configured titles, a repeated title entered once, all inactive; never more entries than configured titles |
| Launcher.LauncherModel.GetTitleList | Project/src/main/java/com/dt181g/project/model/LauncherModel.java:44-48 | strictly ascending, without duplicates, exactly the map's keys, one entry per key; the map is only read |
| Launcher.LauncherModel.SetActiveGameState | Project/src/main/java/com/dt181g/project/model/LauncherModel.java:59-61 | for a registered title: that entry's flag becomes the argument, and the set of titles is unchanged |

## Left out

- Threads and locks are not modelled:
  - `wait`/`notify` in `ThreadManager`; the starting, stopping and joining of workers; interrupt handling.
  - Each lock-protected call is one atomic step. The wait in `getThread` is the precondition that the pool is not empty.
- `WorkerThread` is not part of this model. A worker is a number plus the two fields the pool reads, and a new worker is assumed to start with `prime` false and `clientsNum` 0. A returned worker may carry any values in those fields.
- ThreadPool.ThreadManager.GetThread: the utilization count is an unbounded natural number, so the Java `int` wrap-around after 2^31 - 1 acquisitions is not modelled.
- ThreadPool.ThreadManager.Shutdown: only the final clearing of the pool is modelled, because signalling and joining the workers are thread operations.
- `Consumer`, `Lab1` and `Lab2` are left out. They are thread-spawning drivers with random draws and sleeps.
- `applyBoosterEffect` is left out. It multiplies the speed by a `double`, plays audio and calls the booster manager singleton, which is not part of this model. The same goes for the constructor's registration with that manager, for the sound-effect path, and for `SnakeCherryBoosterModel`.
- Cherry.BoosterCherryModel.Grow: `grow` calls `snakeModel.updateSnake`, which is not in the source. It is modelled as `setSnake`, which leaves `headIndex` unchanged. If `updateSnake` also moved the head index (for example through `setHeadIndex`, SnakeModel.java:132-134), that is not modelled. With the index left in place, later moves drive the segment just behind the old head.
- Snake.SnakeModel.CheckHeadCell: the booster callback `eatBooster` is not invoked. The method returns whether it is due.
- Snake.SnakeModel.MoveSnake: requires a set direction, a square grid and the whole snake on it. Java needs less: it indexes the grid only at the moved head, and x, which wraps by the row count, stays inside the columns whenever there are at least as many columns as rows. The square grid with the snake on it is the model's own invariant: `InitialSnakeFits` establishes it for a side of at least ten, and `MoveSnake` and `Cherry.GrownOnGrid` keep it. The game's grid is 38 by 38 (`SNAKE_CELL_COUNT`, Project/src/main/java/com/dt181g/project/support/AppConfigProject.java:192). A snake partly off the grid, as `initializeSnake` builds on a grid narrower than ten, is not modelled. The grid is a rectangular `array2` that never shares storage with the snake; a ragged or aliased Java `int[][]` is not modelled.
- Snake.SnakeModel.InitializeSnake: it requires at least three entries per segment and an existing grid, because Java throws otherwise.
- The Swing views, controllers, listeners, timers and the launcher initializer are UI plumbing and are left out.
- Getters that return a Java list return a value here (`GetTitleList`, `GetIconPaths`). A caller mutating the returned list is not modelled.
- Configuration constants are parameters:
  - `SNAKE_TITLE`, `SNAKE_ICON` and `PATH_TO_ICONS` of the third laboratory become parameters of `GameList.GameListModel.constructor`.
  - The launcher's `GAMES` list becomes a parameter of `Launcher.LauncherModel.constructor`.
  - The configuration classes holding these values are not part of this model.
- The launcher's `GameData` class is not part of this model. Its metadata is an `active` flag, false for a new entry, as in the repository's other `GameData` class.
- StringOrder.StrLess: characters compare by code point, while Java compares UTF-16 code units. The two orders agree on strings within the Basic Multilingual Plane.
- Launcher.LauncherModel.SetActiveGameState: it requires the title to be registered; Java throws a `NullPointerException` otherwise.
