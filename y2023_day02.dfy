/**
 * Cube Conundrum (2023, day 2): each game is a list of draws of red, green
 * and blue cubes; a game is possible when no draw exceeds the bag's contents.
 */
module CubeConundrum {

  datatype Colour = Red | Green | Blue

  /** One "<n> <colour>" entry of a draw. */
  datatype Entry = Entry(count: nat, colour: Colour)

  /** A draw with the per-colour counts `parseGame` extracts. */
  datatype CubeCounts = CubeCounts(red: nat, blue: nat, green: nat)

  function CountOf(c: CubeCounts, colour: Colour): nat
  {
    match colour
    case Red => c.red
    case Green => c.green
    case Blue => c.blue
  }

  /**
   * `draw.match(/(\d+) <colour>/)?.[1] ?? 0`: the first entry of that colour,
   * or 0 when the colour is missing from the draw.
   */
  function FirstCount(entries: seq<Entry>, colour: Colour): (n: nat)
    ensures (forall i | 0 <= i < |entries| :: entries[i].colour != colour) ==> n == 0
    ensures forall i | 0 <= i < |entries| && entries[i].colour == colour &&
      (forall j | 0 <= j < i :: entries[j].colour != colour) :: n == entries[i].count
  {
    if entries == [] then 0
    else if entries[0].colour == colour then entries[0].count
    else FirstCount(entries[1..], colour)
  }

  /** The counts of one draw. */
  function ParseDraw(entries: seq<Entry>): (c: CubeCounts)
    ensures forall colour :: CountOf(c, colour) == FirstCount(entries, colour)
  {
    CubeCounts(FirstCount(entries, Red), FirstCount(entries, Blue), FirstCount(entries, Green))
  }

  /** A draw fits in the bag when no colour exceeds the bag's count. */
  predicate Within(draw: CubeCounts, cubes: CubeCounts)
  {
    draw.red <= cubes.red && draw.blue <= cubes.blue && draw.green <= cubes.green
  }

  /** `isPossible`: false at the first draw that exceeds the bag in some colour, else true. */
  method IsPossible(draws: seq<CubeCounts>, cubes: CubeCounts) returns (possible: bool)
    ensures possible <==> forall i | 0 <= i < |draws| :: Within(draws[i], cubes)
  {
    for i := 0 to |draws|
      invariant forall k | 0 <= k < i :: Within(draws[k], cubes)
    {
      var draw := draws[i];
      if draw.red > cubes.red || draw.blue > cubes.blue || draw.green > cubes.green {
        return false;
      }
    }
    return true;
  }

  /** The bag the first part uses by default. */
  const DefaultBag := CubeCounts(12, 14, 13)

  /** `minimumCubes`: the per-colour maximum over the draws, starting from 0. */
  method MinimumCubes(draws: seq<CubeCounts>) returns (minimum: CubeCounts)
    ensures forall i | 0 <= i < |draws| :: Within(draws[i], minimum)
    ensures forall colour :: (CountOf(minimum, colour) == 0 ||
      exists i | 0 <= i < |draws| :: CountOf(minimum, colour) == CountOf(draws[i], colour))
  {
    minimum := CubeCounts(0, 0, 0);
    for i := 0 to |draws|
      invariant forall k | 0 <= k < i :: Within(draws[k], minimum)
      invariant forall colour :: (CountOf(minimum, colour) == 0 ||
        exists k | 0 <= k < i :: CountOf(minimum, colour) == CountOf(draws[k], colour))
    {
      var draw := draws[i];
      ghost var before := minimum;
      minimum := CubeCounts(
        if minimum.red < draw.red then draw.red else minimum.red,
        if minimum.blue < draw.blue then draw.blue else minimum.blue,
        if minimum.green < draw.green then draw.green else minimum.green);
      forall colour
        ensures CountOf(minimum, colour) == 0 ||
          exists k | 0 <= k < i + 1 :: CountOf(minimum, colour) == CountOf(draws[k], colour)
      {
        if CountOf(minimum, colour) != CountOf(draw, colour) {
          assert CountOf(minimum, colour) == CountOf(before, colour);
        }
      }
    }
  }

  /** The result of `minimumCubes` is the smallest bag the game is possible with: any such bag holds at least as many of each colour. */
  lemma MinimumIsLeast(draws: seq<CubeCounts>, minimum: CubeCounts, cubes: CubeCounts)
    requires forall colour :: (CountOf(minimum, colour) == 0 ||
      exists i | 0 <= i < |draws| :: CountOf(minimum, colour) == CountOf(draws[i], colour))
    requires forall i | 0 <= i < |draws| :: Within(draws[i], cubes)
    ensures Within(minimum, cubes)
  {
    forall colour
      ensures CountOf(minimum, colour) <= CountOf(cubes, colour)
    {
      if CountOf(minimum, colour) != 0 {
        var i :| 0 <= i < |draws| && CountOf(minimum, colour) == CountOf(draws[i], colour);
        assert Within(draws[i], cubes);
      }
    }
    assert CountOf(minimum, Red) <= CountOf(cubes, Red);
    assert CountOf(minimum, Green) <= CountOf(cubes, Green);
    assert CountOf(minimum, Blue) <= CountOf(cubes, Blue);
  }

  /** `cubePower`: the product of the three counts; zero exactly when some colour never appears. */
  function CubePower(cubes: CubeCounts): (p: nat)
    ensures p == 0 <==> cubes.red == 0 || cubes.blue == 0 || cubes.green == 0
  {
    cubes.red * cubes.blue * cubes.green
  }
}
