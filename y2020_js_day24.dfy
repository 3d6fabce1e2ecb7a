/**
 * Lobby Layout (2020, day 24): hexagonal tiles in axial coordinates, one
 * axis west–east and one southwest–northeast. Each line of directions
 * walks from the reference tile to a tile and flips it; every day after
 * that, a black tile with one or two black neighbours stays black and a
 * white tile with exactly two black neighbours turns black.
 */
module LobbyLayout {
  import opened Common

  datatype Dir = E | SE | SW | W | NW | NE

  type Coord = (int, int)

  /** The token a direction is written as. */
  function Name(d: Dir): string
  {
    match d
    case E => "e"
    case SE => "se"
    case SW => "sw"
    case W => "w"
    case NW => "nw"
    case NE => "ne"
  }

  /**
   * `directions.match(/se|sw|ne|nw|w|e/g)`: at each position the first
   * alternative that matches is taken, and a character no alternative
   * matches is skipped.
   */
  function Tokens(s: string): seq<Dir>
    decreases |s|
  {
    if s == [] then []
    else if |s| >= 2 && s[..2] == "se" then [SE] + Tokens(s[2..])
    else if |s| >= 2 && s[..2] == "sw" then [SW] + Tokens(s[2..])
    else if |s| >= 2 && s[..2] == "ne" then [NE] + Tokens(s[2..])
    else if |s| >= 2 && s[..2] == "nw" then [NW] + Tokens(s[2..])
    else if s[0] == 'w' then [W] + Tokens(s[1..])
    else if s[0] == 'e' then [E] + Tokens(s[1..])
    else Tokens(s[1..])
  }

  /** Directions written out one after another. */
  function Render(ds: seq<Dir>): string
  {
    if ds == [] then "" else Name(ds[0]) + Render(ds[1..])
  }

  /** The first token of a rendered direction is that direction, whatever follows. */
  lemma TokensName(d: Dir, rest: string)
    ensures Tokens(Name(d) + rest) == [d] + Tokens(rest)
  {
    var s := Name(d) + rest;
    if |Name(d)| == 2 {
      assert s[..2] == Name(d) && s[2..] == rest;
    } else {
      assert s[0] == Name(d)[0] && s[1..] == rest;
    }
  }

  /** Reading written directions gives the directions back. */
  lemma {:induction false} TokensRender(ds: seq<Dir>)
    ensures Tokens(Render(ds)) == ds
  {
    if ds != [] {
      TokensName(ds[0], Render(ds[1..]));
      TokensRender(ds[1..]);
    }
  }

  /** The `rules` table: one step in a direction. */
  function Step(d: Dir, p: Coord): Coord
  {
    var (x, y) := p;
    match d
    case SE => (x + 1, y - 1)
    case SW => (x, y - 1)
    case NE => (x, y + 1)
    case NW => (x - 1, y + 1)
    case W => (x - 1, y)
    case E => (x + 1, y)
  }

  function Opposite(d: Dir): Dir
  {
    match d
    case E => W
    case W => E
    case SE => NW
    case NW => SE
    case SW => NE
    case NE => SW
  }

  /** e/w, ne/sw and nw/se undo each other. */
  lemma StepInverse(d: Dir, p: Coord)
    ensures Step(Opposite(d), Step(d, p)) == p
    ensures Opposite(Opposite(d)) == d
  {
  }

  /** The `reduce` of `getCoords`: the steps taken in order. */
  function Walk(ds: seq<Dir>, p: Coord): Coord
  {
    if ds == [] then p else Walk(ds[1..], Step(ds[0], p))
  }

  /** The offset of one step. */
  function Delta(d: Dir): Coord
  {
    Step(d, (0, 0))
  }

  /** The steps' offsets added up, in any order. */
  function Displacement(ds: seq<Dir>): Coord
  {
    if ds == [] then (0, 0)
    else (Displacement(ds[1..]).0 + Delta(ds[0]).0, Displacement(ds[1..]).1 + Delta(ds[0]).1)
  }

  /** A walk ends at its start moved by the sum of the step offsets, so the order of the steps does not matter. */
  lemma {:induction false} WalkIsDisplacement(ds: seq<Dir>, p: Coord)
    ensures Walk(ds, p) == (p.0 + Displacement(ds).0, p.1 + Displacement(ds).1)
  {
    if ds != [] {
      WalkIsDisplacement(ds[1..], Step(ds[0], p));
    }
  }

  /** Directions followed by their opposites in reverse order lead back to the start. */
  lemma {:induction false} WalkBack(ds: seq<Dir>, p: Coord)
    ensures Walk(ds + Reverse(Opposites(ds)), p) == p
  {
    var back := Reverse(Opposites(ds));
    WalkIsDisplacement(ds + back, p);
    DisplacementAppend(ds, back);
    ReverseOppositeCancels(ds);
  }

  function Opposites(ds: seq<Dir>): (os: seq<Dir>)
    ensures |os| == |ds|
  {
    if ds == [] then [] else [Opposite(ds[0])] + Opposites(ds[1..])
  }

  function Reverse(ds: seq<Dir>): (rs: seq<Dir>)
    ensures |rs| == |ds|
  {
    if ds == [] then [] else Reverse(ds[1..]) + [ds[0]]
  }

  lemma {:induction false} DisplacementAppend(a: seq<Dir>, b: seq<Dir>)
    ensures Displacement(a + b) == (Displacement(a).0 + Displacement(b).0, Displacement(a).1 + Displacement(b).1)
  {
    if a != [] {
      assert (a + b)[1..] == a[1..] + b;
      DisplacementAppend(a[1..], b);
    } else {
      assert a + b == b;
    }
  }

  lemma {:induction false} ReverseOppositeCancels(ds: seq<Dir>)
    ensures Displacement(Reverse(Opposites(ds))) == (-Displacement(ds).0, -Displacement(ds).1)
  {
    if ds != [] {
      ReverseOppositeCancels(ds[1..]);
      var o := Opposite(ds[0]);
      assert Opposites(ds)[1..] == Opposites(ds[1..]);
      DisplacementAppend(Reverse(Opposites(ds[1..])), [o]);
      assert [o][1..] == [];
    }
  }

  /** `getCoords`: None where `match` finds no token and returns null, so `reduce` throws. */
  function GetCoords(directions: string): Option<Coord>
  {
    var ds := Tokens(directions);
    if ds == [] then None else Some(Walk(ds, (0, 0)))
  }

  /** The black tiles and the largest absolute coordinate of any tile flipped so far. */
  datatype TileObject = TileObject(blackTiles: set<Coord>, maxCoord: nat)

  /** `delete` or else `add`: a black tile turns white, a white one black. */
  function Toggle(black: set<Coord>, p: Coord): set<Coord>
  {
    if p in black then black - {p} else black + {p}
  }

  /** Flipping the same tile twice leaves every tile as it was. */
  lemma ToggleTwice(black: set<Coord>, p: Coord)
    ensures Toggle(Toggle(black, p), p) == black
  {
  }

  /** The `reduce` of `getBlackTiles` over the first tiles; None where some `getCoords` throws. */
  function Flips(tiles: seq<string>): Option<TileObject>
  {
    if tiles == [] then Some(TileObject({}, 0))
    else
      match Flips(tiles[..|tiles| - 1])
      case None => None
      case Some(acc) =>
        match GetCoords(tiles[|tiles| - 1])
        case None => None
        case Some(c) => Some(TileObject(Toggle(acc.blackTiles, c), Max(acc.maxCoord, Max(Abs(c.0), Abs(c.1)))))
  }

  /** `getBlackTiles`: one set, toggled tile by tile. */
  method GetBlackTiles(tiles: seq<string>) returns (r: Option<TileObject>)
    ensures r == Flips(tiles)
  {
    var blackTiles: set<Coord> := {};
    var maxCoord: nat := 0;
    var i := 0;
    while i < |tiles|
      invariant 0 <= i <= |tiles|
      invariant Flips(tiles[..i]) == Some(TileObject(blackTiles, maxCoord))
    {
      assert tiles[..i + 1][..i] == tiles[..i];
      var coords := GetCoords(tiles[i]);
      if coords.None? {
        FlipsFails(tiles, i + 1);
        return None;
      }
      var c := coords.value;
      blackTiles := Toggle(blackTiles, c);
      maxCoord := Max(maxCoord, Max(Abs(c.0), Abs(c.1)));
      i := i + 1;
    }
    assert tiles[..i] == tiles;
    return Some(TileObject(blackTiles, maxCoord));
  }

  /** Once a prefix throws, so does the whole list. */
  lemma {:induction false} FlipsFails(tiles: seq<string>, n: nat)
    requires n <= |tiles| && Flips(tiles[..n]).None?
    ensures Flips(tiles).None?
    decreases |tiles| - n
  {
    if n < |tiles| {
      assert tiles[..n + 1][..n] == tiles[..n];
      FlipsFails(tiles, n + 1);
    } else {
      assert tiles[..n] == tiles;
    }
  }

  /** How many of the lines lead to tile p. */
  function Visits(tiles: seq<string>, p: Coord): nat
  {
    if tiles == [] then 0
    else Visits(tiles[..|tiles| - 1], p) + (if GetCoords(tiles[|tiles| - 1]) == Some(p) then 1 else 0)
  }

  /**
   * A tile ends black exactly when an odd number of lines lead to it, and
   * every black tile lies within maxCoord on both axes.
   */
  lemma {:induction false} FlipsMeaning(tiles: seq<string>, p: Coord)
    requires Flips(tiles).Some?
    ensures p in Flips(tiles).value.blackTiles <==> Visits(tiles, p) % 2 == 1
    ensures Within(Flips(tiles).value.blackTiles, Flips(tiles).value.maxCoord)
  {
    if tiles != [] {
      var init := tiles[..|tiles| - 1];
      FlipsMeaning(init, p);
      var acc := Flips(init).value;
      var c := GetCoords(tiles[|tiles| - 1]).value;
      var m := Max(acc.maxCoord, Max(Abs(c.0), Abs(c.1)));
      forall q | q in Toggle(acc.blackTiles, c) ensures Abs(q.0) <= m && Abs(q.1) <= m {
        if q != c {
          assert q in acc.blackTiles;
        }
      }
    }
  }

  /** Every tile of the set lies within r of the reference tile on both axes. */
  predicate Within(black: set<Coord>, r: int)
  {
    forall p | p in black :: Abs(p.0) <= r && Abs(p.1) <= r
  }

  /** The six neighbours in the order `countBlackNeighbours` tries them. */
  function Neighbours(p: Coord): seq<Coord>
  {
    var (x, y) := p;
    [(x, y + 1), (x + 1, y), (x + 1, y - 1), (x, y - 1), (x - 1, y), (x - 1, y + 1)]
  }

  /** How many of the tiles are black: the `reduce` adding `has` as 0 or 1. */
  function CountBlack(qs: seq<Coord>, black: set<Coord>): (n: nat)
    ensures n <= |qs|
  {
    if qs == [] then 0
    else CountBlack(qs[..|qs| - 1], black) + (if qs[|qs| - 1] in black then 1 else 0)
  }

  /** `countBlackNeighbours`. */
  function CountBlackNeighbours(p: Coord, black: set<Coord>): (n: nat)
    ensures n <= 6
  {
    CountBlack(Neighbours(p), black)
  }

  /** The black tiles among the given ones, as a set. */
  function BlackAmong(qs: seq<Coord>, black: set<Coord>): set<Coord>
  {
    set q | q in qs && q in black
  }

  /** Counting over distinct tiles counts the black tiles among them. */
  lemma {:induction false} CountBlackDistinct(qs: seq<Coord>, black: set<Coord>)
    requires forall i, j | 0 <= i < j < |qs| :: qs[i] != qs[j]
    ensures CountBlack(qs, black) == |BlackAmong(qs, black)|
  {
    if qs != [] {
      var init, last := qs[..|qs| - 1], qs[|qs| - 1];
      CountBlackDistinct(init, black);
      assert qs == init + [last];
      assert last !in init;
      assert BlackAmong(qs, black) == BlackAmong(init, black) + (if last in black then {last} else {});
    }
  }

  /** The neighbour count is the number of black tiles among the six distinct neighbours, which are the six steps. */
  lemma NeighboursAreSteps(p: Coord, black: set<Coord>)
    ensures CountBlackNeighbours(p, black) == |BlackAmong(Neighbours(p), black)|
    ensures forall d: Dir :: Step(d, p) in Neighbours(p)
    ensures forall q | q in Neighbours(p) :: exists d: Dir :: Step(d, p) == q
  {
    CountBlackDistinct(Neighbours(p), black);
    forall q | q in Neighbours(p) ensures exists d: Dir :: Step(d, p) == q {
      var (x, y) := p;
      if q == (x, y + 1) { assert Step(NE, p) == q; }
      else if q == (x + 1, y) { assert Step(E, p) == q; }
      else if q == (x + 1, y - 1) { assert Step(SE, p) == q; }
      else if q == (x, y - 1) { assert Step(SW, p) == q; }
      else if q == (x - 1, y) { assert Step(W, p) == q; }
      else { assert Step(NW, p) == q; }
    }
  }

  /** The daily rule: black with 1 or 2 black neighbours stays black, white with exactly 2 turns black. */
  predicate Rule(black: set<Coord>, p: Coord)
  {
    var n := CountBlackNeighbours(p, black);
    (p in black && (n == 1 || n == 2)) || (p !in black && n == 2)
  }

  /** The tiles (x, y′) with lo ≤ y′ < y that the rule makes black. */
  function Column(black: set<Coord>, x: int, lo: int, y: int): set<Coord>
    decreases y - lo
  {
    if y <= lo then {} else Column(black, x, lo, y - 1) + (if Rule(black, (x, y - 1)) then {(x, y - 1)} else {})
  }

  /** The tiles with lo ≤ x′ < x and lo ≤ y′ ≤ hi that the rule makes black. */
  function Square(black: set<Coord>, lo: int, x: int, hi: int): set<Coord>
    decreases x - lo
  {
    if x <= lo then {} else Square(black, lo, x - 1, hi) + Column(black, x - 1, lo, hi + 1)
  }

  lemma {:induction false} ColumnMeaning(black: set<Coord>, x: int, lo: int, y: int, p: Coord)
    ensures p in Column(black, x, lo, y) <==> p.0 == x && lo <= p.1 < y && Rule(black, p)
    decreases y - lo
  {
    if y > lo {
      ColumnMeaning(black, x, lo, y - 1, p);
    }
  }

  lemma {:induction false} SquareMeaning(black: set<Coord>, lo: int, x: int, hi: int, p: Coord)
    ensures p in Square(black, lo, x, hi) <==> lo <= p.0 < x && lo <= p.1 <= hi && Rule(black, p)
    decreases x - lo
  {
    if x > lo {
      SquareMeaning(black, lo, x - 1, hi, p);
      ColumnMeaning(black, x - 1, lo, hi + 1, p);
    }
  }

  /** One day of `countDailyTiles`: the rule applied to every tile within r on both axes. */
  function Day(black: set<Coord>, r: int): set<Coord>
  {
    Square(black, -r, r + 1, r)
  }

  /** The two inner loops of a day: rows of the window, then tiles of a row. */
  method NextDay(blackTiles: set<Coord>, r: int) returns (nextBlackTiles: set<Coord>)
    requires r >= 0
    ensures nextBlackTiles == Day(blackTiles, r)
  {
    nextBlackTiles := {};
    var x := -r;
    while x <= r
      invariant -r <= x <= r + 1
      invariant nextBlackTiles == Square(blackTiles, -r, x, r)
    {
      var y := -r;
      while y <= r
        invariant -r <= y <= r + 1
        invariant nextBlackTiles == Square(blackTiles, -r, x, r) + Column(blackTiles, x, -r, y)
      {
        var neighb := CountBlackNeighbours((x, y), blackTiles);
        if (x, y) in blackTiles && (neighb == 1 || neighb == 2) {
          nextBlackTiles := nextBlackTiles + {(x, y)};
        } else if (x, y) !in blackTiles && neighb == 2 {
          nextBlackTiles := nextBlackTiles + {(x, y)};
        }
        y := y + 1;
      }
      x := x + 1;
    }
  }

  /** A tile more than one step beyond every black tile has no black neighbour and stays white. */
  lemma FarTileStaysWhite(black: set<Coord>, r: int, p: Coord)
    requires Within(black, r)
    requires Abs(p.0) > r + 1 || Abs(p.1) > r + 1
    ensures !Rule(black, p)
  {
    CountBlackDistinct(Neighbours(p), black);
    assert BlackAmong(Neighbours(p), black) == {} by {
      forall q | q in Neighbours(p) ensures q !in black {
        assert Abs(q.0) > r || Abs(q.1) > r;
      }
    }
  }

  /**
   * When every black tile lies within r, the window of radius r + 1 misses
   * nothing: a tile is black the next day exactly when the rule says so,
   * and the new black tiles lie within r + 1.
   */
  lemma DayComplete(black: set<Coord>, r: int, p: Coord)
    requires r >= 0 && Within(black, r)
    ensures p in Day(black, r + 1) <==> Rule(black, p)
    ensures Within(Day(black, r + 1), r + 1)
  {
    SquareMeaning(black, -(r + 1), r + 2, r + 1, p);
    if Abs(p.0) > r + 1 || Abs(p.1) > r + 1 {
      FarTileStaysWhite(black, r, p);
    }
    forall q | q in Day(black, r + 1) ensures Abs(q.0) <= r + 1 && Abs(q.1) <= r + 1 {
      SquareMeaning(black, -(r + 1), r + 2, r + 1, q);
    }
  }

  /** The black tiles after `days` days, day d looking at the window of radius maxCoord + d. */
  function Evolve(black: set<Coord>, maxCoord: nat, days: nat): set<Coord>
  {
    if days == 0 then black else Day(Evolve(black, maxCoord, days - 1), maxCoord + days)
  }

  /** Starting within maxCoord, the black tiles after `days` days lie within maxCoord + days. */
  lemma {:induction false} EvolveWithin(black: set<Coord>, maxCoord: nat, days: nat)
    requires Within(black, maxCoord)
    ensures Within(Evolve(black, maxCoord, days), maxCoord + days)
  {
    if days > 0 {
      EvolveWithin(black, maxCoord, days - 1);
      var before := Evolve(black, maxCoord, days - 1);
      forall q | q in Evolve(black, maxCoord, days) ensures Abs(q.0) <= maxCoord + days && Abs(q.1) <= maxCoord + days {
        DayComplete(before, maxCoord + days - 1, q);
      }
    }
  }

  /** Starting within maxCoord, every day applies the rule to every tile of the unbounded floor. */
  lemma EvolveFollowsRule(black: set<Coord>, maxCoord: nat, days: nat, p: Coord)
    requires Within(black, maxCoord)
    ensures p in Evolve(black, maxCoord, days + 1) <==> Rule(Evolve(black, maxCoord, days), p)
  {
    EvolveWithin(black, maxCoord, days);
    DayComplete(Evolve(black, maxCoord, days), maxCoord + days, p);
  }

  /** `countDailyTiles`: None where `getBlackTiles` throws; no day runs when days < 1. */
  function DailyTilesSpec(tiles: seq<string>, days: int): Option<nat>
  {
    match Flips(tiles)
    case None => None
    case Some(t) => Some(|Evolve(t.blackTiles, t.maxCoord, if days < 0 then 0 else days)|)
  }

  /** The days loop of `countDailyTiles`: each day builds the next set over a window one wider than the day before. */
  method PassDays(start: set<Coord>, maxCoord: nat, days: int) returns (blackTiles: set<Coord>)
    ensures blackTiles == Evolve(start, maxCoord, if days < 0 then 0 else days)
  {
    blackTiles := start;
    var day := 1;
    while day <= days
      invariant 1 <= day <= Max(days, 0) + 1
      invariant blackTiles == Evolve(start, maxCoord, day - 1)
    {
      blackTiles := NextDay(blackTiles, maxCoord + day);
      day := day + 1;
    }
  }

  /** `countDailyTiles`: the number of black tiles after the days have passed. */
  method CountDailyTiles(tiles: seq<string>, days: int) returns (r: Option<nat>)
    ensures r == DailyTilesSpec(tiles, days)
  {
    var start := GetBlackTiles(tiles);
    if start.None? {
      return None;
    }
    var blackTiles := PassDays(start.value.blackTiles, start.value.maxCoord, days);
    return Some(|blackTiles|);
  }
}
