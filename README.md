# breqdev/dungeon in Dafny

This project models the two core pieces of the dungeon generator and viewer.

- `createRooms` lays the link graph of a set of web sites out on a square grid. The graph is `linksTo`/`linkedFrom` lists per domain.
  - It seeds `breq.dev` at cell `0,0`.
  - It then runs a FIFO queue of placed rooms. Each room, in turn, fills its own empty cardinal neighbours, in the order (0,1), (1,0), (0,-1), (-1,0).
  - The fillers come from one candidate list: the room's outgoing and incoming links, minus the domains already placed, stably sorted by out-degree (largest first), with duplicates removed.
- The terminal viewer (`Crawl`) reads commands against the resulting room record: `go`, `look`, `fly`, `exit`, `help` and anything else. It keeps a position, a history of printed lines and the line being typed.

Files:

- `types.dfy`: the shared data. `Room`, the `Graph` with its three maps, and `Option`.
- `cell_keys.dfy`: the cell keys `${x},${y}` as real strings. They carry a parser, and the round trip that makes them injective.
- `graph_to_rooms.dfy`: `createRooms`. It is imperative, as in the source:
  - `CreateRooms` runs the queue loop.
  - `Visit` is one iteration of it.
  - `Turn` is the `for` loop over the empty neighbours.
  - `NextCandidate` is the inner `while (true)` drain.
  - `Neighbors` is the inner `neighbors` helper.

  Each method is proved against specification functions: `Candidates`, `EmptyNeighbors`, `Zip`, `PlaceAll` and `Fill`. The properties of the layout are proved as lemmas about those functions. A ghost placement order with a parent index per room carries the invariant of the queue loop. A ghost list of turn boundaries records which rooms each turn added. `CreateRooms` proves it is a replay of the source's loop: turn t, taken by the t-th placed room, added exactly the zip of that room's empty neighbours and its candidates given everything placed before it. Every placed room took exactly one turn. When the loop ends, every room is settled: all four of its neighbouring cells are taken, or else every one of its link partners is placed.
- `crawl.dfy`: `handleCommand` as a function of the line, the position and the record. It returns the printed lines and the new position, where the source calls `setPosn`. The component's state is the class `Terminal`, with the `onChange` and Enter handlers as methods.

`createRooms` does no per-cell scoring: each room hands its empty neighbours to its own sorted candidates, in order.

The room record that `Crawl` receives (`Record<string, Room>`) is modelled as the list of its entries in property order. The keys such as `"0,0"` are not array indices, so JavaScript keeps them in insertion order. Reading `rooms[key]` takes the first entry with that key. `Object.values(rooms).find(...)` takes the first entry whose room has the domain.

## Model

| member | source | states |
|---|---|---|
| CellKeys.IntToString | graphToRooms.ts:56 | the decimal text of a coordinate is non-empty and holds no comma |
| CellKeys.NatRoundTrip | graphToRooms.ts:56 | parsing the decimal text of a natural number gives it back |
| CellKeys.IntRoundTrip | graphToRooms.ts:56 | parsing the text of a (possibly negative) integer gives it back |
| CellKeys.KeyRoundTrip | graphToRooms.ts:56 | parsing the key `${x},${y}` gives back (x, y) |
| CellKeys.KeyInjective | graphToRooms.ts:56-57 | two cells with equal keys are the same cell |
| CellKeys.KeysDiffer | graphToRooms.ts:65-66 | distinct cells have distinct keys |
| CellKeys.OriginKey | graphToRooms.ts:23-26 | the key of cell (0, 0) is the string "0,0" |
| GraphToRooms.NeighborhoodMentioned | graphToRooms.ts:37-38 | every domain in a node's two link lists belongs to the finite set of domains the graph mentions |
| GraphToRooms.Unplaced | graphToRooms.ts:39 | an element survives the filter exactly when it was in the list and is not placed |
| GraphToRooms.InsertByOutDegree | graphToRooms.ts:40-42 | one insertion step of the sort adds exactly the inserted element (as a multiset) |
| GraphToRooms.SortByOutDegree | graphToRooms.ts:40-42 | the sort is a permutation of its input |
| GraphToRooms.InsertedElement | graphToRooms.ts:40-42 | an insertion step brings in no element other than the one inserted |
| GraphToRooms.InsertKeepsSorted | graphToRooms.ts:40-42 | inserting into a list sorted by descending out-degree keeps it sorted |
| GraphToRooms.PrependKeepsSorted | graphToRooms.ts:40-42 | prepending an element of out-degree at least every other keeps the list sorted |
| GraphToRooms.SortIsSorted | graphToRooms.ts:40-42 | the sorted list is ordered by out-degree, largest first |
| GraphToRooms.InsertKeepsOrder | graphToRooms.ts:40-42 | among the elements of one out-degree, an insertion step puts the inserted element first and keeps the rest in their order |
| GraphToRooms.SortIsStable | graphToRooms.ts:40-42 | elements of equal out-degree keep their original relative order (stable sort) |
| GraphToRooms.Dedupe | graphToRooms.ts:35-36 | `[...new Set(s)]` has exactly the elements of s, each once |
| GraphToRooms.FirstIndex | graphToRooms.ts:35-36 | the position of the first occurrence of an element |
| GraphToRooms.FirstIndexInPrefix | graphToRooms.ts:35-36 | the first occurrence of an element of a prefix lies in that prefix |
| GraphToRooms.DedupeKeepsFirstOccurrences | graphToRooms.ts:35-36 | the deduplicated list orders elements by their first occurrence, as a Set's insertion order does |
| GraphToRooms.DedupeKeepsSorted | graphToRooms.ts:35-42 | deduplication keeps the descending out-degree order |
| GraphToRooms.FirstIndexCons | graphToRooms.ts:35-36 | the first occurrence in h followed by t is h itself, or one past the first occurrence in t |
| GraphToRooms.UnplacedKeepsOrder | graphToRooms.ts:39 | the filter keeps the relative order of the elements it keeps |
| GraphToRooms.WithOutDegreeKeepsOrder | graphToRooms.ts:40-42 | elements of one out-degree appear among that degree's elements in their original order |
| GraphToRooms.SortKeepsOrder | graphToRooms.ts:40-42 | two elements of equal out-degree come out of the sort in the order they went in |
| GraphToRooms.DedupeKeepsOrder | graphToRooms.ts:35-36 | deduplication orders two elements as their first occurrences are ordered |
| GraphToRooms.Candidates | graphToRooms.ts:35-44 | the candidate list has no repeats, holds exactly the unplaced link partners of the domain when it has a linksTo entry (none otherwise), and is sorted by out-degree, largest first |
| GraphToRooms.CandidatesKeepLinkOrder | graphToRooms.ts:35-44 | two candidates of equal out-degree come in the order of their first occurrence in linksTo followed by linkedFrom |
| GraphToRooms.VacantLength | graphToRooms.ts:50-60 | there are no more empty cells than offsets tried |
| GraphToRooms.VacantCells | graphToRooms.ts:50-60 | a cell is listed exactly when it is the current cell moved by one of the offsets and its key holds no room |
| GraphToRooms.VacantDistinct | graphToRooms.ts:50-60 | distinct offsets give a list of distinct cells |
| GraphToRooms.ShiftInjective | graphToRooms.ts:56 | distinct offsets move a cell to distinct cells |
| GraphToRooms.PrependDistinct | graphToRooms.ts:58 | pushing a new cell onto a list of distinct cells keeps them distinct |
| GraphToRooms.OffsetsDistinct | graphToRooms.ts:50-55 | the four offsets are distinct |
| GraphToRooms.EmptyNeighborsSpec | graphToRooms.ts:47-62 | `neighbors` returns at most four distinct cells: exactly the 4-adjacent cells that hold no room |
| GraphToRooms.VacantStep | graphToRooms.ts:56-59 | one iteration of the offset loop extends the result by the cell when it is empty |
| GraphToRooms.Neighbors | graphToRooms.ts:47-62 | the loop returns the empty neighbours in offset order (0,1), (1,0), (0,-1), (-1,0) |
| GraphToRooms.Zip | graphToRooms.ts:64-84 | the k-th placed room puts the k-th candidate on the k-th empty cell, for as many as both lists allow |
| GraphToRooms.FillStep | graphToRooms.ts:64-84 | one cell of the turn: an occupied key is skipped, an exhausted list places nothing, otherwise the first unplaced candidate is placed there |
| GraphToRooms.FillIsZip | graphToRooms.ts:64-84 | over distinct empty cells and distinct unplaced candidates, the turn places the k-th candidate on the k-th cell, and the map, the placed set and the added rooms grow by exactly those |
| GraphToRooms.TailDistinct | graphToRooms.ts:68 | shifting a list without repeats leaves a list without repeats, not holding the shifted element |
| GraphToRooms.PlaceAllAppend | graphToRooms.ts:78 | placing two runs of rooms one after the other equals placing their concatenation |
| GraphToRooms.KeysOfContents | graphToRooms.ts:78 | the keys of a run of rooms are exactly their cells' keys |
| GraphToRooms.PlaceAllKeys | graphToRooms.ts:78 | after placing, the map's keys are the old keys plus the placed rooms' keys |
| GraphToRooms.PlaceAllValues | graphToRooms.ts:78 | after placing rooms with distinct keys, each one's key holds it |
| GraphToRooms.PlaceAllUntouched | graphToRooms.ts:78 | a key no placed room uses keeps its old room (cells are never overwritten) |
| GraphToRooms.PlaceAllSize | graphToRooms.ts:78 | placing rooms on fresh distinct keys grows the map by their number |
| GraphToRooms.DomainsAppend | graphToRooms.ts:80 | the placed domains of two runs are the union of each run's |
| GraphToRooms.DomainsContents | graphToRooms.ts:80 | a domain is placed exactly when some room of the run holds it |
| GraphToRooms.DomainsSize | graphToRooms.ts:80 | rooms with distinct domains add as many domains as there are rooms |
| GraphToRooms.TurnAdds | graphToRooms.ts:35-84 | one turn adds at most four rooms, on distinct empty cells adjacent to the current room, holding distinct unplaced domains from its links; nothing when the domain has no linksTo entry |
| GraphToRooms.NextCandidate | graphToRooms.ts:67-82 | the drain loop returns the first unplaced candidate, if any, and the list after it |
| GraphToRooms.Turn | graphToRooms.ts:35-84 | the body of one queue iteration adds exactly the zip of the empty neighbours and the candidates, updating the map and the placed set by those rooms alone |
| GraphToRooms.Repeat | graphToRooms.ts:79 | the parent index given to each room one turn adds |
| GraphToRooms.WalkExtend | graphToRooms.ts:20-88 | a walk over rooms extends by a 4-adjacent room |
| GraphToRooms.ReachableInOrder | graphToRooms.ts:20-88 | when every room's parent was placed before it and is 4-adjacent to it, every room is reachable from the origin |
| GraphToRooms.LayoutFacts | graphToRooms.ts:20-88 | a placement order's map holds breq.dev at "0,0", keys every room by its own cell, holds each domain once, has one entry per placed room and is 4-connected |
| GraphToRooms.MapFromOrder | graphToRooms.ts:78 | the map built from a placement order with distinct keys holds exactly those rooms under their keys |
| GraphToRooms.UniqueFromOrder | graphToRooms.ts:80 | a map of rooms with distinct domains holds each domain under one key |
| GraphToRooms.AppendDistinct | graphToRooms.ts:78-80 | appending rooms with fresh keys and fresh domains keeps keys and domains distinct |
| GraphToRooms.AppendParents | graphToRooms.ts:76-79 | rooms added on the current room's neighbours from its links get it as their parent: adjacent, linked, placed earlier |
| GraphToRooms.TurnStep | graphToRooms.ts:28-85 | a queue iteration keeps the queue invariant; a turn that adds rooms shrinks the unplaced part of the graph, one that adds none changes nothing placed |
| GraphToRooms.ExtendOrder | graphToRooms.ts:64-84 | a turn extends a placement order to a placement order, with the added domains taken from the current room's links and not yet placed |
| GraphToRooms.SliceAppend | graphToRooms.ts:79 | dropping the processed prefix commutes with pushing new rooms at the back |
| GraphToRooms.GrowthWithinUniverse | graphToRooms.ts:80 | placed domains stay inside the graph's domains, and a turn that adds rooms strictly shrinks what is left to place |
| GraphToRooms.SubsetSize | graphToRooms.ts:24 | a subset of a finite set is no larger |
| GraphToRooms.TurnRecordedKept | graphToRooms.ts:28-85 | a recorded turn stays recorded when later rooms are appended to the order |
| GraphToRooms.TurnRecordedNew | graphToRooms.ts:28-85 | the turn just taken is recorded: its rooms are the zip of the turn-taker's empty neighbours and candidates given the rooms placed before |
| GraphToRooms.ReplayStep | graphToRooms.ts:28-85 | one more turn extends the replay of all earlier turns |
| GraphToRooms.TurnSurrounds | graphToRooms.ts:64-84 | with at least as many candidates as empty neighbours, a turn fills every neighbouring cell |
| GraphToRooms.TurnExhausts | graphToRooms.ts:64-84 | with fewer candidates than empty neighbours, a turn places every link partner |
| GraphToRooms.TurnSettles | graphToRooms.ts:64-84 | after its turn a room is settled: all four neighbours taken, or all its link partners placed |
| GraphToRooms.SettledGrows | graphToRooms.ts:64-84 | a settled room stays settled as rooms and placed domains grow |
| GraphToRooms.SettledStep | graphToRooms.ts:28-85 | one turn settles the turn-taker and keeps every room that took its turn before settled |
| GraphToRooms.ProgressStep | graphToRooms.ts:28-85 | the next turn keeps the loop invariant (queue, replay, settled rooms) and either places a new domain or shortens the queue |
| GraphToRooms.ProgressDone | graphToRooms.ts:28-85 | with the queue empty, every placed room took exactly one turn and is settled |
| GraphToRooms.Visit | graphToRooms.ts:28-85 | one iteration of the queue loop: it pops the head, places exactly the zip of its empty neighbours and candidates, enqueues those rooms at the back, keeps the invariant, and either places a new domain or shortens the queue |
| GraphToRooms.CreateRooms | graphToRooms.ts:20-88 | the loop ends; the result holds breq.dev at "0,0", keys each room by its own cell, holds each domain once, is 4-connected, has no more rooms than the graph has domains, and comes from a placement order where each room sits next to and is linked with an earlier room; that order is a replay of the loop, in which each room took one turn adding exactly the zip of its empty neighbours and candidates; and every room with a linksTo entry ends settled (four neighbours taken or all its link partners placed) |
| Crawl.Split | src/Crawl.tsx:29 | `split(" ")` gives at least one piece, none holding a space |
| Crawl.SplitJoin | src/Crawl.tsx:29 | joining the pieces with single spaces gives the line back |
| Crawl.SplitWord | src/Crawl.tsx:29 | a line without spaces is one piece |
| Crawl.SplitPrepend | src/Crawl.tsx:29 | splitting `w + " " + s` gives w followed by the pieces of s |
| Crawl.JoinSplit | src/Crawl.tsx:29 | pieces without spaces come back from a join and a split |
| Crawl.TwoWords | src/Crawl.tsx:29 | a command word and one argument split into exactly those two pieces |
| Crawl.Get | src/Crawl.tsx:81 | `rooms[key]` finds a room exactly when an entry has that key, and the room it finds is an entry's |
| Crawl.GetFirst | src/Crawl.tsx:72 | `rooms[key]` is the room of the first entry with that key |
| Crawl.Find | src/Crawl.tsx:97-101 | `some`/`find` succeed exactly when an entry's room holds the domain |
| Crawl.FindFirst | src/Crawl.tsx:101 | `find` returns the first room in the record holding the domain |
| Crawl.ExitLines | src/Crawl.tsx:80-84 | each exit is printed as `  ${dir} to ${domain}`, one line per exit |
| Crawl.ExitListSpec | src/Crawl.tsx:74-84 | an exit is listed exactly when its direction's cell holds a room, paired with that room's domain |
| Crawl.FourExits | src/Crawl.tsx:74-84 | over four directions the exits come one direction after another, in order |
| Crawl.ExitsInOrder | src/Crawl.tsx:74-84 | `look` lists north's exit first, then east's, south's and west's |
| Crawl.HandleCommand | src/Crawl.tsx:28-124 | every command prints at least one line, and only `go` and `fly` move the viewer |
| Crawl.GoWithoutDirection | src/Crawl.tsx:56-58 | bare `go` answers "go where?" and stays put |
| Crawl.GoMoves | src/Crawl.tsx:60-65 | `go d` with d in the table moves by d's step, even onto an empty cell, and prints the domain there ("undefined" for none) |
| Crawl.GoUnknown | src/Crawl.tsx:66-68 | `go d` with d outside the table reports it and stays put |
| Crawl.DirectionAliases | src/Crawl.tsx:33-54 | north, n and up step (0,-1); east, e and right step (1,0); south, s and down step (0,1); west, w and left step (-1,0) |
| Crawl.DiagonalAliases | src/Crawl.tsx:33-54 | northeast and ne step (1,-1); southeast and se (1,1); southwest and sw (-1,1); northwest and nw (-1,-1) |
| Crawl.DirectionsAreSteps | src/Crawl.tsx:33-54 | every named direction moves to one of the eight neighbouring cells |
| Crawl.LookReport | src/Crawl.tsx:70-86 | `look` stays put; it prints the current domain, "you can go: ", then one line per occupied compass neighbour, in the order N, E, S, W, at most six lines in all |
| Crawl.FlyWithoutDomain | src/Crawl.tsx:88-90 | bare `fly` answers "fly where?" and stays put |
| Crawl.FlyHere | src/Crawl.tsx:92-95 | `fly` to the current room's domain answers "you are already here." and stays put |
| Crawl.FlyUnknown | src/Crawl.tsx:97-99 | `fly` to a domain no room holds reports it and stays put |
| Crawl.FlyTeleports | src/Crawl.tsx:101-105 | `fly` to a domain held elsewhere prints "teleported to" and moves to the cell of the first room holding it |
| Crawl.RoomAtOwnCell | src/Crawl.tsx:93 | in a record whose entries sit under their own cells' keys, a room's cell looks up that room |
| Crawl.FlyLandsOnDomain | src/Crawl.tsx:101-104 | in such a record, after a teleport the viewer stands in a room holding the domain |
| Crawl.ExitSaysGoodbye | src/Crawl.tsx:109-111 | `exit` prints "goodbye." and stays put |
| Crawl.HelpListsCommands | src/Crawl.tsx:112-120 | `help` prints exactly its six lines, from "available commands:" to "> exit - return home", and stays put |
| Crawl.UnknownCommand | src/Crawl.tsx:121-122 | any other first word prints "unknown command: " with it and stays put |
| Crawl.Terminal.constructor | src/Crawl.tsx:12-17 | the viewer starts at (0, 0) with the welcome line and an empty input |
| Crawl.Terminal.Change | src/Crawl.tsx:159-161 | typing replaces the input line and leaves history and position alone |
| Crawl.Terminal.Enter | src/Crawl.tsx:163-173 | Enter appends the echoed line and the command's output to the history, clears the input, and takes the position the command left |

## Left out

- GraphToRooms.SortByOutDegree: the comparator `linksTo[b]?.length - linksTo[a]?.length` is NaN when either domain has no linksTo entry. The model ranks such a domain with out-degree 0 instead of following the engine's treatment of a NaN comparator.
- GraphToRooms.Neighborhood: when the current domain has no linkedFrom entry, `concat(undefined)` appends an `undefined` hole. The sort moves that hole behind every real candidate and the drain loop stops on it, so the model reads the missing entry as an empty list.
- Crawl.Go: `args[0] in directions` also accepts names inherited from the object prototype (such as `toString`). Those give a NaN position. The model accepts only the twenty table entries.
- The `current === undefined` break of graphToRooms.ts:30-32 is not modelled. The loop only shifts a non-empty queue, so that branch cannot run.
- Crawl.Fly: the final `unknown domain` of src/Crawl.tsx:107 is not modelled. It can never be reached once `some` has succeeded.
- The `rooms.get(key) === undefined` re-check of graphToRooms.ts:66 and the `placed.has(domain)` skip of graphToRooms.ts:72-74 are modelled in `Fill` and `NextCandidate`. `FillIsZip` shows they never fire within one turn.
- The `console.log` of graphToRooms.ts:77 is output only and is not modelled.
- `loadGraph`, `exportRooms` and `main` (graphToRooms.ts:9-12, 90-106) are file I/O and are not modelled. The graph is a parameter and the map is the result.
- Crawl.ExitSaysGoodbye: the `setTimeout(() => goHome(), 500)` of src/Crawl.tsx:110 is a timer and a callback into the app. It is not modelled; only the printed line is.
- Scrolling the history, focusing the input, the iframe and the rest of the React rendering (src/Crawl.tsx:19-26, 126-181) are not modelled.
- JavaScript numbers are doubles; coordinates are modelled as unbounded integers. The grid never grows beyond the number of domains, far below 2^53.
- src/Walk.tsx, src/App.tsx, src/Navigate.tsx and src/BirdsEye.tsx are not part of this model.
