# Minesweeper board engine in Dafny

A model of the board engine of a Minesweeper game, the Java package `minesweeper`:

- `Board` owns a `width x height` array of squares. It places mines by rejection
  sampling (`init`), decides a win by comparing two counts (`win`), renders one
  square as a three-character token (`describeSquareAt`), and discovers every
  square (the loop of `displayClear`).
- `Square` is a mutable record. It holds a location, a content (`MINE` or `EMPTY`)
  that mirrors the mine, and three marks: undermined, discovered and flag.
- `Location` is an immutable `(x, y)` pair with structural equality.
- `SquareContent` is a two-value enum with a character for each value.

The model has one module per source file, plus two supporting modules:

| module | file | what it holds |
|---|---|---|
| `SquareContents` | SquareContent.dfy | the enum as a datatype; `GetChar` and its inverse |
| `Locations` | Location.dfy | `Location` as a datatype; `equals` and `toString` |
| `Squares` | Square.dfy | `class Square` with its four mutators, and `SquareState`, the value of a square's fields |
| `Grids` | Grid.dfy | `Grid`, the value of the whole board at one moment; counting the squares with a property |
| `Neighbourhood` | Neighbours.dfy | the up-to-8 neighbours of a square, clipped at the edges, and their mines |
| `Boards` | Board.dfy | `class Board` and the functions on `Grid` that specify its operations |
| `Decimal` | Decimal.dfy | decimal text of integers, as Java's string concatenation produces it |
| `Wrappers` | Wrappers.dfy | `Option`, which stands for a Java `Object` argument that may not be of the right class |

`Board` and `Square` are classes because callers of `getSquareAt` receive the
square object itself and change it. `Board` keeps its squares in an `array2<Square?>`.
Its ghost `Snapshot()` reads the board's current value as a `Grid`. Every method of
`Board` is proved against a pure function on that value:

- the constructor against `EmptyGrid`;
- `Init` against `PlaceMines`;
- `Win` against `Grid.Count`;
- `DescribeSquareAt` against `Glyph`;
- `DisplayClear` against `DiscoverAll`.

The game's properties are then lemmas about those functions.

The random source of `init` becomes an input: a sequence `draws` of locations,
consumed in order. The Java loop runs until `nbOfMines` squares are mined. The
model's loop also stops when the draws run out, and it reports that as
`OutOfDraws(missing)`. `FreshBoardMineCount` shows that draws which reach every
square place every requested mine.

Where the specification of the system and the code disagree, the model follows
the code:

- The constructor does not reject a zero width or height. A negative size makes
  Java's array allocation throw, so non-negative sizes are a precondition.
- `win` compares the number of undiscovered squares with the number of mined
  squares. It does not check that every hidden square is mined. Those two tests
  agree only while no mine has been discovered (`WinMeansOnlyMinesHidden`). A board
  with a discovered mine can pass the count test (`WinIgnoresDiscoveredMine`).
- The tokens are three characters wide (`" * "`, `" |>"`, `" ? "`, `" n "`). They
  are not the one-character glyphs of the specification.

## Model

| member | source | states |
|---|---|---|
| `SquareContents.SquareContent.GetChar` | src/minesweeper/SquareContent.java:26-33 | the character is `'M'` or `' '`, and it is `'M'` exactly for `MINE` |
| `SquareContents.FromChar` | src/minesweeper/SquareContent.java:26-33 | the inverse reading of `getChar`: defined exactly on `'M'` and `' '` |
| `SquareContents.FromCharGetChar` | src/minesweeper/SquareContent.java:26-33 | the content can be recovered from its character |
| `SquareContents.GetCharInjective` | src/minesweeper/SquareContent.java:26-33 | the two contents have different characters |
| `Locations.Location.Equals` | src/minesweeper/Location.java:68-77 | `equals(o)` is true exactly when `o` is a Location with the same x and the same y; it is false for anything else |
| `Locations.EqualsReflexive` | src/minesweeper/Location.java:68-77 | `equals` is reflexive |
| `Locations.EqualsSymmetric` | src/minesweeper/Location.java:68-77 | `equals` is symmetric |
| `Locations.EqualsTransitive` | src/minesweeper/Location.java:68-77 | `equals` is transitive |
| `Locations.Location.ToString` | src/minesweeper/Location.java:60-62 | the text is bracketed by `(` and `)` |
| `Locations.ToStringInjective` | src/minesweeper/Location.java:60-62 | two locations with the same text are equal, so the text determines both coordinates |
| `Decimal.NatToString` | src/minesweeper/Board.java:189 | the decimal text of the neighbour count is all digits, and it is one digit exactly when the count is below 10 |
| `Decimal.NatRoundTrip` | src/minesweeper/Board.java:189 | reading the decimal text of a count back gives the count |
| `Decimal.IntToString` | src/minesweeper/Location.java:61 | Java's text of an `int`: digits with a leading `-` exactly for negative values |
| `Decimal.IntRoundTrip` | src/minesweeper/Location.java:61 | reading the text of an integer back gives the integer |
| `Decimal.IntToStringInjective` | src/minesweeper/Location.java:61 | distinct integers have distinct texts |
| `Squares.NewState` | src/minesweeper/Square.java:51-57 | a new square is at the given location, not undermined, not discovered, without a flag, and its content is `EMPTY` |
| `Squares.Square.constructor` | src/minesweeper/Square.java:51-57 | the new object's fields are those of `NewState(l)`, and it satisfies the content invariant |
| `Squares.Square.Mine` | src/minesweeper/Square.java:94-97 | the new state is the old one with the mine and `MINE` content set; nothing else changes; afterwards the content invariant holds |
| `Squares.MinedProperties` | src/minesweeper/Square.java:94-97 | mining sets undermined and the `MINE` content, keeps discovered, flag and location, restores the content invariant, and is idempotent |
| `Squares.Square.Discover` | src/minesweeper/Square.java:102-104 | the new state is the old one with discovered set; nothing else changes; the content invariant is kept |
| `Squares.DiscoveredProperties` | src/minesweeper/Square.java:102-104 | discovering changes only the discovered mark, keeps the content invariant, and is idempotent |
| `Squares.Square.PutFlag` | src/minesweeper/Square.java:109-113 | afterwards the flag is on, nothing else changes, and the content invariant is kept |
| `Squares.Square.RemoveFlag` | src/minesweeper/Square.java:118-122 | afterwards the flag is off, nothing else changes, and the content invariant is kept |
| `Squares.FlagProperties` | src/minesweeper/Square.java:109-122 | `putFlag` makes the flag true and `removeFlag` makes it false; both change only the flag, keep the content invariant, and are idempotent |
| `Squares.DiscoveredIsPermanent` | src/minesweeper/Square.java:94-122 | no mutator turns a discovered square back into an undiscovered one |
| `Squares.Square.ToString` | src/minesweeper/Square.java:128-139 | the text is `"Undermined square."` exactly when the square is mined, and `"Empty square."` exactly when it is not |
| `Squares.Square.Equals` | src/minesweeper/Square.java:145-154 | `equals(o)` is true exactly when `o` is a Square at an equal location with the same mine; it ignores the discovered and flag marks and is false for other objects |
| `Squares.SquareEqualsReflexive` | src/minesweeper/Square.java:145-154 | `equals` is reflexive on squares |
| `Squares.SquareEqualsSymmetric` | src/minesweeper/Square.java:145-154 | `equals` is symmetric on squares |
| `Squares.SquareEqualsTransitive` | src/minesweeper/Square.java:145-154 | `equals` is transitive on squares |
| `Grids.CountUpdate` | src/minesweeper/Board.java:92-94 | changing one square changes a count by that square's contribution alone, so mining an unmined square adds exactly one mined square |
| `Grids.CountMonotone` | src/minesweeper/Board.java:106-125 | if every square with one property has another, the first count is at most the second; the counts are equal exactly when the properties agree on every square |
| `Neighbourhood.NeighbourList` | src/minesweeper/Board.java:141-181 | the list `describeSquareAt` builds has at most 8 entries, each on the board and adjacent to the square (never the square itself) |
| `Neighbourhood.NeighbourListComplete` | src/minesweeper/Board.java:141-181 | every adjacent square that lies on the board is in the list |
| `Neighbourhood.NeighbourListLength` | src/minesweeper/Board.java:141-181 | the list holds 3 squares at a corner, 5 on an edge and 8 inside the board (the product of the clipped spans, minus one) |
| `Neighbourhood.NeighbourMinesBounds` | src/minesweeper/Board.java:137-189 | the number shown is at most 8, at most 5 on an edge and at most 3 in a corner |
| `Neighbourhood.NeighbourMinesIsWindow` | src/minesweeper/Board.java:141-187 | counting direction by direction equals counting the mines of the 3 x 3 window around the square, leaving out the square itself |
| `Neighbourhood.NeighbourMinesReference` | src/minesweeper/Board.java:141-187 | the number shown equals the number of mined squares on the whole board that are adjacent to the square, an independent definition |
| `Boards.EmptyGrid` | src/minesweeper/Board.java:46-59 | a fresh board has the given size, and every square is new and records its own location |
| `Boards.EmptyGridCounts` | src/minesweeper/Board.java:46-59 | a fresh board has no mine, and all `width * height` squares are safe and hidden |
| `Boards.Board.constructor` | src/minesweeper/Board.java:46-59 | the new board has the given size; every `(x, y)` holds its own fresh square at location `(x, y)` (so the squares are pairwise distinct); its value is `EmptyGrid` |
| `Boards.Board.SquareAt` | src/minesweeper/Board.java:66-71 | `getSquareAt(l)` returns the board's own square at `l`, whose state is the board's value at `l` |
| `Boards.PlaceMines` | src/minesweeper/Board.java:86-98 | placement keeps the board's size, and the number of mines still to place never grows |
| `Boards.MiningAddsOneMine` | src/minesweeper/Board.java:92-94 | an accepted draw mines the drawn square, keeps its discovered mark and flag, changes no other square, and adds exactly one mined square |
| `Boards.PlaceMinesCount` | src/minesweeper/Board.java:86-98 | every mine placed adds exactly one mined square: mined after plus still to place equals mined before plus requested |
| `Boards.PlaceMinesOnlyMines` | src/minesweeper/Board.java:86-98 | placement never unmines a square and never changes a discovered mark, flag or location: each square is unchanged or mined |
| `Boards.PlaceMinesDrawnAreMined` | src/minesweeper/Board.java:86-98 | while mines remain to place, every drawn square is mined |
| `Boards.PlaceMinesShortOfSafe` | src/minesweeper/Board.java:86-98 | asking for more mines than there are safe squares leaves at least the excess unplaced, whatever the draws, because every draw on a mined square is rejected |
| `Boards.PlaceMinesComplete` | src/minesweeper/Board.java:86-98 | when the draws reach every square and no more mines are asked for than there are safe squares, every requested mine is placed |
| `Boards.FreshBoardMineCount` | src/minesweeper/Board.java:78-100 | on a fresh board, asking for `n <= width * height` mines leaves exactly `n` mined squares; `n == width * height` is accepted and mines every square |
| `Boards.Board.TryMine` | src/minesweeper/Board.java:90-97 | one draw mines the drawn square exactly when it was unmined, and then the number of mined squares grows by exactly one; otherwise nothing changes. Only the drawn square may change |
| `Boards.Board.Init` | src/minesweeper/Board.java:78-100 | the call fails exactly when `nbOfMines > width * height`, and then nothing changes; otherwise the board's new value is `PlaceMines` of its old value with `nbOfMines` mines and the draws, and the outcome says whether every mine was placed |
| `Boards.Board.Win` | src/minesweeper/Board.java:106-126 | the result is true exactly when the number of undiscovered squares equals the number of mined squares; no square changes |
| `Boards.WinMeansOnlyMinesHidden` | src/minesweeper/Board.java:106-126 | while no mine is discovered, mined squares never outnumber hidden ones, and `win` holds exactly when every hidden square is mined |
| `Boards.WinIgnoresDiscoveredMine` | src/minesweeper/Board.java:106-126 | a 2 x 1 board with a discovered mine and a hidden safe square passes the win test |
| `Boards.NeighbourLocations` | src/minesweeper/Board.java:141-181 | the eight direction tests build exactly `NeighbourList`, in the source's direction order |
| `Boards.Board.CountMined` | src/minesweeper/Board.java:183-187 | the loop counts the mined squares among the listed locations |
| `Boards.Board.DescribeSquareAt` | src/minesweeper/Board.java:133-201 | the result is `Glyph` of the board's value at `l`; no square changes |
| `Boards.GlyphCases` | src/minesweeper/Board.java:133-201 | every token is three characters wide. It is `" * "` exactly for a discovered mine, the flag token (a blank, a bar and `>`) exactly for a hidden flagged square and `" ? "` exactly for a hidden unflagged square. It shows a digit exactly for a discovered safe square, and the digit is that square's number of mined neighbours. A discovered square never shows its flag |
| `Boards.DiscoverAll` | src/minesweeper/Board.java:259-264 | after the loop, each square is its old state with the discovered mark set |
| `Boards.DiscoverAllProperties` | src/minesweeper/Board.java:259-264 | after the loop every square is discovered, and mines, flags and locations are as before; the number of mines is unchanged; the win test then holds exactly when the board has no mine |
| `Boards.Board.DiscoverRow` | src/minesweeper/Board.java:261-263 | one pass of the outer loop discovers every square of row `y` and changes no other square |
| `Boards.Board.DisplayClear` | src/minesweeper/Board.java:259-264 | the board's new value is `DiscoverAll` of its old value; only the board's own squares may change |
| `Boards.FreshBoardConsistent` | src/minesweeper/Square.java:51-57 | the content invariant (content `MINE` exactly when undermined) holds on every square of a fresh board |
| `Boards.ConsistencyKept` | src/minesweeper/Square.java:94-104 | placing mines and discovering every square keep the content invariant of every square |

## Left out

- `Board.display` and the printing half of `displayClear` (src/minesweeper/Board.java:207-254, 266) write to `System.out`. They are not part of this model.
- The console game (src/minesweeper/game/MainTextMod.java) and the Swing interface (src/minesweeper/game/graphic/Window.java, Button.java) are not part of this model. That includes the cascade reveal `nextTo` of the window, which is driven by widget state and rendered text.
- `java.util.Random` is not modelled. The draws of `init` are an input sequence, and the model says nothing about their distribution. On a board with no mine yet, which is how the game calls `init`, the Java loop terminates with probability 1. The model's loop also ends when the draws run out, an outcome (`OutOfDraws`) the Java method does not have.
- Boards.Board.Init: does not model that the Java method never returns when the board already holds mines and `nbOfMines` exceeds its safe squares without exceeding `width * height` (for example a second `init(2)` on a 2 x 1 board): from some point every draw is rejected. The model returns `OutOfDraws` there once the draws run out; `Boards.PlaceMinesShortOfSafe` proves that no draws can place all the mines.
- Boards.Board.Init: does not model Java `int` overflow of `width * height` or of the loop counter; integers are unbounded.
- Boards.Board.constructor: requires non-negative sizes instead of modelling the `NegativeArraySizeException` Java throws for a negative size.
- Boards.Board.SquareAt: requires an in-range location instead of modelling the `ArrayIndexOutOfBoundsException` Java throws otherwise. `DescribeSquareAt` and `TryMine` have the same precondition.
- Boards.Board.Valid: does not carry each square's content invariant. `Boards.ConsistencyKept` states it about the board's value instead: it holds on a fresh board and is kept by `init` and by the loop of `displayClear`. Because `getSquareAt` hands out the square object, code outside the board can still change a square. In Java the fields are private, so only `Square`'s own methods, which keep the invariant, can do so. In this model any code may assign a square's fields, and `Boards.Board.Valid` does not rule that out.
- The getters `getLocation`, `isUndermined`, `isDiscovered` and `hasFlag` of `Square`, and `getX` and `getY` of `Location`, are field reads. They are functions or datatype fields without contracts of their own.
- `displayClear`'s loop is split in two for proof: `DiscoverRow` is one pass of its outer loop.
- `describeSquareAt` is split into three members for proof: `NeighbourLocations` builds the list of neighbours, `CountMined` counts the mines among them, and `DescribeSquareAt` chooses the token. The `ArrayList` is a sequence.
