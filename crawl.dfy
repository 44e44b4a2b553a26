/**
 * The text-adventure viewer (src/Crawl.tsx): a command line over the room
 * record. `HandleCommand` is the component's `handleCommand`, with the React
 * position state passed in and returned; `Terminal` holds the component's
 * state (position, history lines, the line being typed) and its Enter handler.
 */
module Crawl {
  import opened Types
  import opened CellKeys

  /** The viewer's position, `{ x, y }`. */
  datatype Posn = Posn(x: int, y: int)

  /** A step on the grid, as listed in the direction table. */
  datatype Delta = Delta(dx: int, dy: int)

  /** What a command prints, and the position it leaves the viewer at. */
  datatype Reply = Reply(lines: seq<string>, posn: Posn)

  /**
   * The room record `Record<string, Room>` the viewer receives, as its entries
   * in property order: `Object.values` and `find` walk it front to back.
   */
  type Record = seq<(string, Room)>

  // ---------------------------------------------------------------------------
  // Splitting the command line: `command.split(" ")`

  /** The pieces between single spaces; consecutive spaces give empty pieces. */
  function Split(s: string): (parts: seq<string>)
    ensures |parts| >= 1
    ensures forall i | 0 <= i < |parts| :: ' ' !in parts[i]
  {
    if s == [] then [""]
    else if s[0] == ' ' then [""] + Split(s[1..])
    else
      var rest := Split(s[1..]);
      [[s[0]] + rest[0]] + rest[1..]
  }

  /** The pieces glued back with single spaces: `parts.join(" ")`. */
  function Join(parts: seq<string>): string
    requires |parts| >= 1
  {
    if |parts| == 1 then parts[0] else parts[0] + " " + Join(parts[1..])
  }

  /** Splitting loses nothing: joining the pieces gives the line back. */
  lemma {:induction false} SplitJoin(s: string)
    ensures Join(Split(s)) == s
  {
    if s == [] {
    } else if s[0] == ' ' {
      SplitJoin(s[1..]);
      var rest := Split(s[1..]);
      assert Split(s) == [""] + rest;
      assert Split(s)[1..] == rest;
      assert s == [' '] + s[1..];
    } else {
      SplitJoin(s[1..]);
      var rest := Split(s[1..]);
      var parts := [[s[0]] + rest[0]] + rest[1..];
      assert s == [s[0]] + s[1..];
      if |rest| == 1 {
        assert Join(parts) == [s[0]] + rest[0];
      } else {
        assert parts[1..] == rest[1..];
        assert Join(rest) == rest[0] + " " + Join(rest[1..]);
        assert Join(parts) == ([s[0]] + rest[0]) + " " + Join(rest[1..]);
      }
    }
  }

  /** A line without spaces is a single piece. */
  lemma {:induction false} SplitWord(w: string)
    requires ' ' !in w
    ensures Split(w) == [w]
    decreases |w|
  {
    if w != [] {
      assert ' ' !in w[1..] by {
        forall i | 0 <= i < |w[1..]| ensures w[1..][i] != ' ' {
          assert w[1..][i] == w[i + 1];
        }
      }
      SplitWord(w[1..]);
      assert [w[0]] + w[1..] == w;
    }
  }

  /** Splitting `w + " " + s` gives w, then the pieces of s. */
  lemma {:induction false} SplitPrepend(w: string, s: string)
    requires ' ' !in w
    ensures Split(w + " " + s) == [w] + Split(s)
    decreases |w|
  {
    if w == [] {
      assert w + " " + s == [' '] + s;
      assert (w + " " + s)[1..] == s;
    } else {
      var t := w + " " + s;
      assert t[0] == w[0] && t[1..] == w[1..] + " " + s;
      assert ' ' !in w[1..] by {
        forall i | 0 <= i < |w[1..]| ensures w[1..][i] != ' ' {
          assert w[1..][i] == w[i + 1];
        }
      }
      SplitPrepend(w[1..], s);
      assert [w[0]] + w[1..] == w;
    }
  }

  /** Pieces without spaces survive a join and a split. */
  lemma {:induction false} JoinSplit(parts: seq<string>)
    requires |parts| >= 1 && forall i | 0 <= i < |parts| :: ' ' !in parts[i]
    ensures Split(Join(parts)) == parts
    decreases |parts|
  {
    if |parts| == 1 {
      SplitWord(parts[0]);
    } else {
      assert forall i | 0 <= i < |parts[1..]| :: parts[1..][i] == parts[i + 1];
      JoinSplit(parts[1..]);
      SplitPrepend(parts[0], Join(parts[1..]));
      assert [parts[0]] + parts[1..] == parts;
    }
  }

  /** A command word and one argument, separated by a space. */
  lemma TwoWords(c: string, d: string)
    requires ' ' !in c && ' ' !in d
    ensures Split(c + " " + d) == [c, d]
  {
    SplitPrepend(c, d);
    SplitWord(d);
  }

  // ---------------------------------------------------------------------------
  // Looking rooms up in the record

  /** `rooms[key]`: the room of the first entry with that key, if any. */
  function Get(rooms: Record, key: string): (r: Option<Room>)
    ensures r.Some? <==> exists i | 0 <= i < |rooms| :: rooms[i].0 == key
    ensures r.Some? ==> exists i | 0 <= i < |rooms| :: rooms[i] == (key, r.value)
  {
    if rooms == [] then None
    else if rooms[0].0 == key then Some(rooms[0].1)
    else
      var r := Get(rooms[1..], key);
      assert forall i | 1 <= i < |rooms| :: rooms[i] == rooms[1..][i - 1];
      r
  }

  /** The room at a position: `rooms[`${x},${y}`]`. */
  function RoomAt(rooms: Record, p: Posn): Option<Room> {
    Get(rooms, Key(p.x, p.y))
  }

  /** String interpolation of `room?.domain`: the domain, or "undefined". */
  function Shown(r: Option<Room>): string {
    if r.Some? then r.value.domain else "undefined"
  }

  /** `Object.values(rooms).find((r) => r.domain === domain)`. */
  function Find(rooms: Record, domain: string): (r: Option<Room>)
    ensures r.Some? <==> exists i | 0 <= i < |rooms| :: rooms[i].1.domain == domain
  {
    if rooms == [] then None
    else if rooms[0].1.domain == domain then Some(rooms[0].1)
    else
      var r := Find(rooms[1..], domain);
      assert forall i | 1 <= i < |rooms| :: rooms[i] == rooms[1..][i - 1];
      r
  }

  /** What `find` returns is the room of the first entry holding that domain. */
  lemma {:induction false} FindFirst(rooms: Record, domain: string)
    requires Find(rooms, domain).Some?
    ensures exists i | 0 <= i < |rooms| ::
              && Find(rooms, domain) == Some(rooms[i].1)
              && rooms[i].1.domain == domain
              && forall j | 0 <= j < i :: rooms[j].1.domain != domain
    decreases |rooms|
  {
    if rooms[0].1.domain != domain {
      FindFirst(rooms[1..], domain);
      var i :| 0 <= i < |rooms[1..]| && Find(rooms[1..], domain) == Some(rooms[1..][i].1)
               && rooms[1..][i].1.domain == domain
               && forall j | 0 <= j < i :: rooms[1..][j].1.domain != domain;
      assert rooms[i + 1] == rooms[1..][i];
      forall j | 0 <= j < i + 1 ensures rooms[j].1.domain != domain {
        if j > 0 {
          assert rooms[j] == rooms[1..][j - 1];
        }
      }
    } else {
      assert Find(rooms, domain) == Some(rooms[0].1);
    }
  }

  // ---------------------------------------------------------------------------
  // Commands

  function Move(p: Posn, d: Delta): Posn {
    Posn(p.x + d.dx, p.y + d.dy)
  }

  /** The direction table of `go` (src/Crawl.tsx:33-54). */
  const Directions: map<string, Delta> := map[
    "north" := Delta(0, -1), "east" := Delta(1, 0), "south" := Delta(0, 1), "west" := Delta(-1, 0),
    "northeast" := Delta(1, -1), "southeast" := Delta(1, 1), "southwest" := Delta(-1, 1), "northwest" := Delta(-1, -1),
    "n" := Delta(0, -1), "e" := Delta(1, 0), "s" := Delta(0, 1), "w" := Delta(-1, 0),
    "ne" := Delta(1, -1), "se" := Delta(1, 1), "sw" := Delta(-1, 1), "nw" := Delta(-1, -1),
    "up" := Delta(0, -1), "right" := Delta(1, 0), "down" := Delta(0, 1), "left" := Delta(-1, 0)]

  /** The four directions `look` reports, in the order it reports them. */
  const Compass: seq<(string, Delta)> :=
    [("north", Delta(0, -1)), ("east", Delta(1, 0)), ("south", Delta(0, 1)), ("west", Delta(-1, 0))]

  /** `go [dir]` (src/Crawl.tsx:32-69): moves even onto an empty cell. */
  function Go(args: seq<string>, posn: Posn, rooms: Record): Reply {
    if |args| == 0 then Reply(["go where?"], posn)
    else if args[0] in Directions then
      var q := Move(posn, Directions[args[0]]);
      Reply(["navigated to " + Shown(RoomAt(rooms, q))], q)
    else Reply(["unknown direction: " + args[0]], posn)
  }

  /** The exit toward one direction: its name and the domain there, when a room is there. */
  function ExitAt(rooms: Record, p: Posn, dir: (string, Delta)): seq<(string, string)> {
    var r := RoomAt(rooms, Move(p, dir.1));
    if r.Some? then [(dir.0, r.value.domain)] else []
  }

  /** The occupied neighbours among dirs, in order, as (direction, domain) pairs. */
  function ExitList(rooms: Record, p: Posn, dirs: seq<(string, Delta)>): seq<(string, string)> {
    if dirs == [] then [] else ExitAt(rooms, p, dirs[0]) + ExitList(rooms, p, dirs[1..])
  }

  /** An exit as `look` prints it: `  ${dir} to ${room.domain}`. */
  function ExitLines(exits: seq<(string, string)>): (lines: seq<string>)
    ensures |lines| == |exits|
    ensures forall i | 0 <= i < |exits| :: lines[i] == "  " + exits[i].0 + " to " + exits[i].1
  {
    if exits == [] then [] else ["  " + exits[0].0 + " to " + exits[0].1] + ExitLines(exits[1..])
  }

  /** `look` (src/Crawl.tsx:70-86). */
  function Look(rooms: Record, p: Posn): seq<string> {
    ["you are located at: " + Shown(RoomAt(rooms, p)), "you can go: "] + ExitLines(ExitList(rooms, p, Compass))
  }

  /** `fly [domain]` (src/Crawl.tsx:87-108). */
  function Fly(args: seq<string>, posn: Posn, rooms: Record): Reply {
    if |args| == 0 then Reply(["fly where?"], posn)
    else
      var domain := args[0];
      var here := RoomAt(rooms, posn);
      if here.Some? && here.value.domain == domain then Reply(["you are already here."], posn)
      else
        match Find(rooms, domain)
        case None => Reply(["unknown domain: " + domain], posn)
        case Some(room) => Reply(["teleported to " + domain], Posn(room.x, room.y))
  }

  const HelpLines: seq<string> := [
    "available commands:",
    "  > go [dir] - move in a direction",
    "  > look - look around",
    "  > fly [domain] - teleport to a domain",
    "  > help - show this help",
    "  > exit - return home"]

  /**
   * `handleCommand` (src/Crawl.tsx:28-124): the first piece of the line is the
   * command, the rest its arguments. Every command prints at least one line,
   * and only `go` and `fly` move the viewer.
   */
  function HandleCommand(command: string, posn: Posn, rooms: Record): (r: Reply)
    ensures |r.lines| >= 1
    ensures r.posn != posn ==> Split(command)[0] in {"go", "fly"}
  {
    var words := Split(command);
    var cmd, args := words[0], words[1..];
    if cmd == "go" then Go(args, posn, rooms)
    else if cmd == "look" then Reply(Look(rooms, posn), posn)
    else if cmd == "fly" then Fly(args, posn, rooms)
    else if cmd == "exit" then Reply(["goodbye."], posn)
    else if cmd == "help" then Reply(HelpLines, posn)
    else Reply(["unknown command: " + cmd], posn)
  }

  // ---------------------------------------------------------------------------
  // What each command line does

  /** A bare `go` asks for a direction and stays put. */
  lemma GoWithoutDirection(posn: Posn, rooms: Record)
    ensures HandleCommand("go", posn, rooms) == Reply(["go where?"], posn)
  {
    SplitWord("go");
  }

  /**
   * `go d` with d in the table moves by d's step, whether or not a room is
   * there, and reports the domain found there ("undefined" for none).
   */
  lemma GoMoves(d: string, posn: Posn, rooms: Record)
    requires d in Directions && ' ' !in d
    ensures var q := Posn(posn.x + Directions[d].dx, posn.y + Directions[d].dy);
            HandleCommand("go " + d, posn, rooms) == Reply(["navigated to " + Shown(RoomAt(rooms, q))], q)
  {
    TwoWords("go", d);
    assert "go " + d == "go" + " " + d;
    assert Split("go " + d)[1..] == [d];
  }

  /** `go d` with d outside the table reports it and stays put. */
  lemma GoUnknown(d: string, posn: Posn, rooms: Record)
    requires d !in Directions && ' ' !in d
    ensures HandleCommand("go " + d, posn, rooms) == Reply(["unknown direction: " + d], posn)
  {
    TwoWords("go", d);
    assert "go " + d == "go" + " " + d;
    assert Split("go " + d)[1..] == [d];
  }

  /** The four compass directions, each under its full name, its initial and its screen word. */
  lemma DirectionAliases()
    ensures Directions["north"] == Directions["n"] == Directions["up"] == Delta(0, -1)
    ensures Directions["east"] == Directions["e"] == Directions["right"] == Delta(1, 0)
    ensures Directions["south"] == Directions["s"] == Directions["down"] == Delta(0, 1)
    ensures Directions["west"] == Directions["w"] == Directions["left"] == Delta(-1, 0)
  {
  }

  /** The four diagonals, each under its full name and its two-letter short form. */
  lemma DiagonalAliases()
    ensures Directions["northeast"] == Directions["ne"] == Delta(1, -1)
    ensures Directions["southeast"] == Directions["se"] == Delta(1, 1)
    ensures Directions["southwest"] == Directions["sw"] == Delta(-1, 1)
    ensures Directions["northwest"] == Directions["nw"] == Delta(-1, -1)
  {
  }

  /** Every named direction is a single step to one of the eight neighbouring cells. */
  lemma DirectionsAreSteps()
    ensures forall d | d in Directions ::
              -1 <= Directions[d].dx <= 1 && -1 <= Directions[d].dy <= 1 && Directions[d] != Delta(0, 0)
  {
  }

  /**
   * The exits `look` lists: one per occupied compass neighbour, in the order
   * north, east, south, west, naming the room found there.
   */
  lemma {:induction false} ExitListSpec(rooms: Record, p: Posn, dirs: seq<(string, Delta)>)
    ensures |ExitList(rooms, p, dirs)| <= |dirs|
    ensures forall e :: e in ExitList(rooms, p, dirs) <==>
              exists i | 0 <= i < |dirs| ::
                && dirs[i].0 == e.0
                && RoomAt(rooms, Move(p, dirs[i].1)).Some?
                && RoomAt(rooms, Move(p, dirs[i].1)).value.domain == e.1
    decreases |dirs|
  {
    if dirs != [] {
      ExitListSpec(rooms, p, dirs[1..]);
      assert forall i | 1 <= i < |dirs| :: dirs[i] == dirs[1..][i - 1];
      forall e | e in ExitList(rooms, p, dirs)
        ensures exists i | 0 <= i < |dirs| ::
                  && dirs[i].0 == e.0
                  && RoomAt(rooms, Move(p, dirs[i].1)).Some?
                  && RoomAt(rooms, Move(p, dirs[i].1)).value.domain == e.1
      {
        if e !in ExitList(rooms, p, dirs[1..]) {
          assert dirs[0].0 == e.0;
        }
      }
      forall e: (string, string) | exists i | 0 <= i < |dirs| ::
                   && dirs[i].0 == e.0
                   && RoomAt(rooms, Move(p, dirs[i].1)).Some?
                   && RoomAt(rooms, Move(p, dirs[i].1)).value.domain == e.1
        ensures e in ExitList(rooms, p, dirs)
      {
        var i :| 0 <= i < |dirs| && dirs[i].0 == e.0 && RoomAt(rooms, Move(p, dirs[i].1)).Some?
                 && RoomAt(rooms, Move(p, dirs[i].1)).value.domain == e.1;
        if i > 0 {
          assert dirs[1..][i - 1] == dirs[i];
        }
      }
    }
  }

  /** Over four directions, the exits are each direction's exit in turn. */
  lemma {:induction false} FourExits(rooms: Record, p: Posn, dirs: seq<(string, Delta)>)
    requires |dirs| == 4
    ensures ExitList(rooms, p, dirs) ==
            ExitAt(rooms, p, dirs[0]) + ExitAt(rooms, p, dirs[1]) +
            ExitAt(rooms, p, dirs[2]) + ExitAt(rooms, p, dirs[3])
  {
    var d1, d2, d3 := dirs[1..], dirs[2..], dirs[3..];
    assert d1[0] == dirs[1] && d1[1..] == d2;
    assert d2[0] == dirs[2] && d2[1..] == d3;
    assert d3[0] == dirs[3] && d3[1..] == [];
    var a, b, c, d := ExitAt(rooms, p, dirs[0]), ExitAt(rooms, p, dirs[1]),
                      ExitAt(rooms, p, dirs[2]), ExitAt(rooms, p, dirs[3]);
    assert ExitList(rooms, p, d3) == d + [] == d;
    assert ExitList(rooms, p, d2) == c + d;
    assert ExitList(rooms, p, d1) == b + (c + d);
    assert ExitList(rooms, p, dirs) == a + (b + (c + d));
  }

  /**
   * The compass exits in report order: north's line (if any) first, then
   * east's, south's and west's.
   */
  lemma ExitsInOrder(rooms: Record, p: Posn)
    ensures ExitList(rooms, p, Compass) ==
            ExitAt(rooms, p, Compass[0]) + ExitAt(rooms, p, Compass[1]) +
            ExitAt(rooms, p, Compass[2]) + ExitAt(rooms, p, Compass[3])
  {
    FourExits(rooms, p, Compass);
  }

  /**
   * `look` prints where the viewer is, then "you can go: ", then one line for
   * each occupied compass neighbour, in the order north, east, south, west.
   */
  lemma LookReport(posn: Posn, rooms: Record)
    ensures var exits := ExitList(rooms, posn, Compass);
            var r := HandleCommand("look", posn, rooms);
            && r.posn == posn
            && r.lines == ["you are located at: " + Shown(RoomAt(rooms, posn)), "you can go: "] + ExitLines(exits)
            && |r.lines| <= 6
            && (forall e :: e in exits <==>
                  exists i | 0 <= i < 4 ::
                    && Compass[i].0 == e.0
                    && RoomAt(rooms, Move(posn, Compass[i].1)).Some?
                    && RoomAt(rooms, Move(posn, Compass[i].1)).value.domain == e.1)
            && exits == ExitAt(rooms, posn, Compass[0]) + ExitAt(rooms, posn, Compass[1]) +
                        ExitAt(rooms, posn, Compass[2]) + ExitAt(rooms, posn, Compass[3])
  {
    SplitWord("look");
    ExitListSpec(rooms, posn, Compass);
    ExitsInOrder(rooms, posn);
  }

  /** A bare `fly` asks for a domain and stays put. */
  lemma FlyWithoutDomain(posn: Posn, rooms: Record)
    ensures HandleCommand("fly", posn, rooms) == Reply(["fly where?"], posn)
  {
    SplitWord("fly");
  }

  /** `fly` to the domain of the room the viewer stands in stays put. */
  lemma FlyHere(d: string, posn: Posn, rooms: Record)
    requires ' ' !in d
    requires RoomAt(rooms, posn).Some? && RoomAt(rooms, posn).value.domain == d
    ensures HandleCommand("fly " + d, posn, rooms) == Reply(["you are already here."], posn)
  {
    TwoWords("fly", d);
    assert "fly " + d == "fly" + " " + d;
    assert Split("fly " + d)[1..] == [d];
  }

  /** `fly` to a domain no room holds reports it and stays put. */
  lemma FlyUnknown(d: string, posn: Posn, rooms: Record)
    requires ' ' !in d
    requires forall i | 0 <= i < |rooms| :: rooms[i].1.domain != d
    ensures HandleCommand("fly " + d, posn, rooms) == Reply(["unknown domain: " + d], posn)
  {
    TwoWords("fly", d);
    assert "fly " + d == "fly" + " " + d;
    assert Split("fly " + d)[1..] == [d];
    if RoomAt(rooms, posn).Some? {
      var i :| 0 <= i < |rooms| && rooms[i] == (Key(posn.x, posn.y), RoomAt(rooms, posn).value);
    }
  }

  /**
   * `fly` to a domain held elsewhere moves the viewer onto the first room in
   * the record holding it; when every entry sits under its own cell's key and
   * keys are unique, that cell then holds the domain.
   */
  lemma FlyTeleports(d: string, posn: Posn, rooms: Record)
    requires ' ' !in d
    requires exists i | 0 <= i < |rooms| :: rooms[i].1.domain == d
    requires RoomAt(rooms, posn).Some? ==> RoomAt(rooms, posn).value.domain != d
    ensures var r := HandleCommand("fly " + d, posn, rooms);
            && r.lines == ["teleported to " + d]
            && exists i | 0 <= i < |rooms| ::
                 && r.posn == Posn(rooms[i].1.x, rooms[i].1.y)
                 && rooms[i].1.domain == d
                 && forall j | 0 <= j < i :: rooms[j].1.domain != d
  {
    TwoWords("fly", d);
    assert "fly " + d == "fly" + " " + d;
    assert Split("fly " + d)[1..] == [d];
    FindFirst(rooms, d);
  }

  /** Entries sit under the keys of their rooms' cells, and no key repeats. */
  predicate WellKeyed(rooms: Record) {
    && (forall i | 0 <= i < |rooms| :: rooms[i].0 == KeyOf(rooms[i].1))
    && (forall i, j | 0 <= i < j < |rooms| :: rooms[i].0 != rooms[j].0)
  }

  /** `rooms[key]` is the room of the first entry carrying that key. */
  lemma {:induction false} GetFirst(rooms: Record, key: string, i: nat)
    requires i < |rooms| && rooms[i].0 == key
    requires forall j | 0 <= j < i :: rooms[j].0 != key
    ensures Get(rooms, key) == Some(rooms[i].1)
    decreases i
  {
    if i > 0 {
      var tail := rooms[1..];
      assert rooms[0].0 != key;
      assert tail[i - 1] == rooms[i];
      forall j | 0 <= j < i - 1 ensures tail[j].0 != key {
        assert tail[j] == rooms[j + 1];
      }
      GetFirst(tail, key, i - 1);
    }
  }

  /** In a well-keyed record, the cell of an entry's room holds that room. */
  lemma RoomAtOwnCell(rooms: Record, i: nat)
    requires WellKeyed(rooms) && i < |rooms|
    ensures RoomAt(rooms, Posn(rooms[i].1.x, rooms[i].1.y)) == Some(rooms[i].1)
  {
    GetFirst(rooms, rooms[i].0, i);
  }

  /** After a teleport into a well-keyed record, the viewer stands in a room holding the domain. */
  lemma FlyLandsOnDomain(d: string, posn: Posn, rooms: Record)
    requires ' ' !in d && WellKeyed(rooms)
    requires exists i | 0 <= i < |rooms| :: rooms[i].1.domain == d
    requires RoomAt(rooms, posn).Some? ==> RoomAt(rooms, posn).value.domain != d
    ensures var q := HandleCommand("fly " + d, posn, rooms).posn;
            RoomAt(rooms, q).Some? && RoomAt(rooms, q).value.domain == d
  {
    FlyTeleports(d, posn, rooms);
    var r := HandleCommand("fly " + d, posn, rooms);
    var i :| 0 <= i < |rooms| && r.posn == Posn(rooms[i].1.x, rooms[i].1.y) && rooms[i].1.domain == d;
    RoomAtOwnCell(rooms, i);
  }

  /** `exit` says goodbye and stays put. */
  lemma ExitSaysGoodbye(posn: Posn, rooms: Record)
    ensures HandleCommand("exit", posn, rooms) == Reply(["goodbye."], posn)
  {
    SplitWord("exit");
  }

  /** `help` prints its six lines and stays put. */
  lemma HelpListsCommands(posn: Posn, rooms: Record)
    ensures HandleCommand("help", posn, rooms) == Reply([
              "available commands:",
              "  > go [dir] - move in a direction",
              "  > look - look around",
              "  > fly [domain] - teleport to a domain",
              "  > help - show this help",
              "  > exit - return home"], posn)
  {
    SplitWord("help");
  }

  /** Any other first word is reported as an unknown command, and the viewer stays put. */
  lemma UnknownCommand(command: string, posn: Posn, rooms: Record)
    requires Split(command)[0] !in {"go", "look", "fly", "exit", "help"}
    ensures HandleCommand(command, posn, rooms) == Reply(["unknown command: " + Split(command)[0]], posn)
  {
  }

  // ---------------------------------------------------------------------------
  // The terminal

  /** The component's state: position, printed history, and the line being typed. */
  class Terminal {
    const rooms: Record
    var posn: Posn
    var history: seq<string>
    var current: string

    /** The initial state (src/Crawl.tsx:12-17). */
    constructor (rooms: Record)
      ensures this.rooms == rooms
      ensures posn == Posn(0, 0) && history == ["welcome. you are located at: breq.dev"] && current == ""
    {
      this.rooms := rooms;
      posn := Posn(0, 0);
      history := ["welcome. you are located at: breq.dev"];
      current := "";
    }

    /** Typing in the input (src/Crawl.tsx:159-161). */
    method Change(value: string)
      modifies this
      ensures current == value && history == old(history) && posn == old(posn)
    {
      current := value;
    }

    /**
     * Pressing Enter (src/Crawl.tsx:163-173): the history gains the echoed
     * line and the command's output, the input is cleared, and the position
     * becomes the one the command left.
     */
    method Enter()
      modifies this
      ensures var r := HandleCommand(old(current), old(posn), rooms);
              && history == old(history) + ["> " + old(current)] + r.lines
              && current == ""
              && posn == r.posn
    {
      var r := HandleCommand(current, posn, rooms);
      history := history + ["> " + current] + r.lines;
      current := "";
      posn := r.posn;
    }
  }
}
