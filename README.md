# CookieCrunch board core in Dafny

This project models the board core of CookieCrunch, a tile-matching puzzle. The
board (`Level`) is a fixed 9 x 9 grid of optional cookies, indexed
`[column, row]`. Each cookie is an object that also stores its own `column`
and `row`. The board can:

- look up the cookie in a cell (`cookieAtColumn`);
- fill every cell with new cookies of arbitrary types (`shuffle`, which calls
  `createInitialCookies`);
- apply a `Swap`, which exchanges two cookies' cells and their stored
  coordinates (`performSwap`).

A `Swap` is an immutable pair of cookie references with a printable
description.

Modules:

- `Cookies`: the `CookieType` palette and the `Cookie` class. Its coordinates
  are mutable and its type is fixed.
- `Swaps`: the `Swap` datatype, built by its constructor `Swap(cookieA, cookieB)`.
  The constructor stores both references unchanged, checks nothing and caches
  no coordinates. This module also holds the description and a parser that
  inverts it.
- `Placements`: a value-level view of the board as two maps. `grid` maps a cell
  to the key that occupies it, and `at` maps a key to the coordinates it stores.
  The module holds the consistency invariant, the one-to-one pairing of
  occupied cells and keys that it implies, the pure specification `Swapped`
  of a swap, and lemmas about it: a swap preserves consistency, a self-swap of
  a key that sits in its own cell changes nothing, and a second swap of two
  such keys undoes the first.
- `Levels`: the `Level` class over an `array2<Cookie?>`, where `null` means an
  empty cell. A ghost map `grid` mirrors the non-null slots. `Valid()` is the
  class invariant: every occupied cell holds a cookie whose stored coordinates
  name that cell. `PerformSwap` is proved against `Placements.Swapped`. The
  module also holds three small clients: populate and swap, swap two
  neighbours, and swap twice.
- `SwapSequences`: properties of the board over more than one swap. Any
  sequence of swaps keeps the board consistent. Replaying a sequence backwards
  undoes it.
- `Options`: the `Option` datatype used by the description parser.

Three behaviours of the code are worth stating, because a reader might assume
otherwise:

- A `Swap` is ordered. Its description names `cookieA` first, and no unordered
  equality is defined (`DescriptionIsOrdered`).
- The `Swap` initializer does not reject two identical references.
  `Swap(c, c)` is a valid value. When `c` sits in its own cell, swapping it
  with itself leaves the board unchanged (`SelfSwapIsIdentity`, stated on
  `Swapped`, which `PerformSwap` is proved to follow). When `c`'s coordinates
  name a cell held by another cookie, that cookie is evicted
  (`SelfSwapEvicts`).
- `performSwap` needs only that both cookies' stored coordinates address the
  grid. With that alone it keeps the invariant. Distinctness, occupancy and
  adjacency are not needed for that, and none of them is checked. Occupancy is
  needed only for a second swap to undo the first (`SwapTwiceRestores`,
  `SwapTwiceNeedsOccupancy`).

## Model

| member | source | states |
|---|---|---|
| Levels.LevelAsserts | CookieCrunch/CookieCrunch/Level.swift:18-19 | The two bounds `cookieAtColumn` asserts, as written: an in-range column, a repeated `column >= 0`, and `row < NumRows` with no lower row bound. |
| Levels.LevelAssertsMissNegativeRows | CookieCrunch/CookieCrunch/Level.swift:17-19 | The bounds `cookieAtColumn` asserts admit a cell exactly when it is addressable or has an in-range column and a negative row. `(0, -1)` passes them but is not on the board. |
| Levels.BoardCells | CookieCrunch/CookieCrunch/Level.swift:11-12 | The board the two constants describe has exactly `NumColumns * NumRows` cells. |
| Placements.RowCells | CookieCrunch/CookieCrunch/Level.swift:31 | The cells one pass of the column loop visits, built one column at a time: exactly the cells of that row with a column below the bound, as many as the bound. |
| Placements.RectangleSize | CookieCrunch/CookieCrunch/Level.swift:30-31 | The cells visited by the two nested loops number `columns * rows`: one per column and row. |
| Levels.Level.CookieAt | CookieCrunch/CookieCrunch/Level.swift:17-21 | Needs the asserted bounds and, separately, the storage's lower row bound. Reads only the grid and returns exactly the slot `cookies[column, row]`. The result is non-null exactly when the cell is occupied, and then it is that cell's occupant. |
| Levels.Level.ValidMeansCookiesKnowTheirCells | CookieCrunch/CookieCrunch/Level.swift:17-20 | Under the board invariant, a cookie that `cookieAtColumn` finds at `[column, row]` stores `column` and `row`. |
| Levels.Level.constructor | CookieCrunch/CookieCrunch/Level.swift:15 | A new level has a freshly allocated, empty 9 x 9 grid, which satisfies the invariant. |
| Levels.Level.Shuffle | CookieCrunch/CookieCrunch/Level.swift:23-25 | Same postcondition as `CreateInitialCookies`, which it delegates to. |
| Levels.Level.CreateInitialCookies | CookieCrunch/CookieCrunch/Level.swift:27-39 | Afterwards every addressable cell holds a cookie, and the invariant holds. The returned set is exactly the cookies on the board. It has `NumColumns * NumRows` distinct members, all freshly allocated. |
| Levels.Level.FullBoardIsPopulated | CookieCrunch/CookieCrunch/Level.swift:30-38 | Take a grid whose every cell holds a member of the set with matching coordinates, where each member sits in its own cell. It is a populated board with the set as its occupants. The set has `NumColumns * NumRows` members, derived from full occupancy and the one-to-one pairing of cells and cookies. |
| Cookies.Cookie.constructor | CookieCrunch/CookieCrunch/Level.swift:33 | A cookie is created with the given column, row and type. |
| Levels.Level.PerformSwap | CookieCrunch/CookieCrunch/Level.swift:41-54 | Keeps the invariant. The cell at A's old coordinates holds B, and the cell at B's old coordinates holds A. B takes A's old coordinates and A takes B's. Nothing else is modified. The value-level board equals `Swapped` applied to the old one. |
| Placements.Swapped | CookieCrunch/CookieCrunch/Level.swift:42-53 | After the exchange, the cell A named holds B (if the two cells differ) and the cell B named holds A. A and B hold each other's old coordinates. All other cells and keys keep their entries. |
| Placements.ConsistentIsInjective | CookieCrunch/CookieCrunch/Level.swift:15 | In a consistent board no cookie occupies two cells. |
| Placements.SwapPreservesConsistency | CookieCrunch/CookieCrunch/Level.swift:41-54 | A swap of any two keys with stored coordinates maps a consistent board to a consistent board. |
| Placements.SelfSwapIsIdentity | CookieCrunch/CookieCrunch/Level.swift:41-54 | Swapping a key that sits in its own cell with itself leaves the board unchanged. |
| Placements.SwapTwiceRestores | CookieCrunch/CookieCrunch/Level.swift:42-53 | If both keys sit in their own cells, applying the same swap twice restores the grid and all stored coordinates. |
| Placements.SwapTwiceNeedsOccupancy | CookieCrunch/CookieCrunch/Level.swift:42-53 | Take any board where the cell named by A's coordinates is held by another key. Swapping A with any B twice does not restore it, because A ends up in that cell. |
| Placements.SelfSwapEvicts | CookieCrunch/CookieCrunch/Level.swift:42-53 | Take any consistent board where a key's coordinates name a cell held by another key. Swapping that key with itself changes exactly that cell to hold it, and the other key is no longer on the grid. |
| Placements.ConsistentIsBijective | CookieCrunch/CookieCrunch/Level.swift:15 | On a consistent board the cookies on the grid are exactly as many as the occupied cells, so each cell has its own cookie. |
| SwapSequences.ApplySwaps | CookieCrunch/CookieCrunch/Level.swift:41-54 | A sequence of swaps, applied first to last, leaves the set of keys with stored coordinates unchanged. |
| SwapSequences.SwapsPreserveConsistency | CookieCrunch/CookieCrunch/Level.swift:41-54 | Any sequence of swaps of keys with stored coordinates keeps a consistent board consistent. |
| SwapSequences.SwapKeepsSeated | CookieCrunch/CookieCrunch/Level.swift:42-53 | A swap of two keys that sit in their cells leaves every other such key in its cell. |
| SwapSequences.ReplayBackwardsRestores | CookieCrunch/CookieCrunch/Level.swift:42-53 | If every key the moves name sits in its own cell, applying the moves and then the same moves in reverse order restores the board exactly. |
| Levels.SwapTwice | CookieCrunch/CookieCrunch/Level.swift:41-54 | Two `PerformSwap` calls with the same `Swap`, on cookies that sit in their cells, restore the grid and both cookies' coordinates. |
| Levels.SwapNeighbours | CookieCrunch/CookieCrunch/Level.swift:17-21 | With (0,0) and (1,0) occupied, looking both up and swapping them puts each cookie at the other's cell, and the cookie reports that cell's coordinates. Every other cell keeps its cookie, and no other cookie may change. |
| Levels.ShuffleThenSwap | CookieCrunch/CookieCrunch/Level.swift:23-54 | A new level can be shuffled and its cookies at (0,0) and (1,0) swapped. Afterwards they report each other's coordinates. |
| Swaps.Description | CookieCrunch/CookieCrunch/Swap.swift:18-20 | The text is `"swap "`, then A's text, then `" with "`, then B's text, at the stated offsets and total length. |
| Swaps.SplitDescription | CookieCrunch/CookieCrunch/Swap.swift:18-20 | When it succeeds, the two parts it returns rebuild the input in the description's format. The first part has the requested length. |
| Swaps.DescriptionRoundTrip | CookieCrunch/CookieCrunch/Swap.swift:18-20 | Splitting a description at the length of A's text gives back A's text and B's text. |
| Swaps.DescriptionIsOrdered | CookieCrunch/CookieCrunch/Swap.swift:18-20 | Suppose two cookies' texts have equal length but differ. Then exchanging the pair's order changes the description, so a `Swap` is not unordered. |

## Left out

- Rendering, sprites and input handling are not part of this model: `GameScene`, `GameViewController`, and the cookie's sprite handle.
- `CookieType.random()` becomes an arbitrary choice (`:|`), so the proofs hold for every sequence of types.
- Cookie.swift is not part of this model. A cookie's printable text is therefore a parameter, `describe`, of the description functions. `Cookie` keeps only its column, row and type, and its identity is its object reference, standing in for `Hashable`.
- Array2D.swift is not part of this model. Its storage is modelled as a Dafny `array2<Cookie?>` of the board's size, so out-of-range indices are preconditions rather than traps.
- Levels.Level.Shuffle: requires the grid's extents, which the constructor establishes and the `Level` stores in a constant. The source's `Array2D` has them by construction.
- Levels.Level.CookieAt: is a function, because the lookup changes nothing. Its `0 <= row` precondition stands for the storage's own bound, which the source's assertions leave out.
- `Swap` conformance to `Printable` is modelled by `Swaps.Description` only. No other protocol behaviour exists.

## Findings

| source | as written | input that shows it | evidently intended | confidence | as-written member | corrected member |
|---|---|---|---|---|---|---|
| CookieCrunch/CookieCrunch/Level.swift:19 | `assert(column >= 0 && row < NumRows)` repeats the column test and never checks `row >= 0` | `cookieAtColumn(0, -1)` passes both assertions | `assert(row >= 0 && row < NumRows)` | high; not executed | Levels.LevelAssertsMissNegativeRows | Levels.Level.CookieAt |
