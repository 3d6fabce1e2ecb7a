/**
 * If You Give A Seed A Fertilizer (2023, day 5): each seed number passes
 * through a chain of categories; in each category the first range map that
 * covers the number shifts it, and a number no map covers passes unchanged.
 */
module SeedMaps {

  /** One line "destination source length" of a category. */
  datatype RangeMap = RangeMap(destination: int, source: int, length: int)

  type Category = seq<RangeMap>

  predicate Covers(m: RangeMap, x: int)
  {
    m.source <= x <= m.source + m.length - 1
  }

  /**
   * One category: the first map covering x sends it to
   * destination + (x − source); when none covers it, x is unchanged.
   */
  function MapThrough(category: Category, x: int): (y: int)
    ensures forall j {:trigger FirstCover(category, x, j)} | FirstCover(category, x, j) :: y == category[j].destination + (x - category[j].source)
    ensures (forall j | 0 <= j < |category| :: !Covers(category[j], x)) ==> y == x
  {
    if category == [] then x
    else if Covers(category[0], x) then category[0].destination + (x - category[0].source)
    else
      var y := MapThrough(category[1..], x);
      assert forall j | FirstCover(category, x, j) :: FirstCover(category[1..], x, j - 1) by {
        forall j | FirstCover(category, x, j)
          ensures FirstCover(category[1..], x, j - 1)
        {
          FirstCoverTail(category, x, j);
        }
      }
      y
  }

  /** Map j covers x and no earlier map does. */
  predicate FirstCover(category: Category, x: int, j: int)
  {
    0 <= j < |category| && Covers(category[j], x) && forall k | 0 <= k < j :: !Covers(category[k], x)
  }

  lemma FirstCoverTail(category: Category, x: int, j: int)
    requires category != [] && !Covers(category[0], x) && FirstCover(category, x, j)
    ensures j >= 1 && FirstCover(category[1..], x, j - 1)
  {
    forall k | 0 <= k < j - 1
      ensures !Covers(category[1..][k], x)
    {
      assert category[1..][k] == category[k + 1];
    }
  }

  /** The location of a seed: each category in order. Maps that cover nothing leave every seed where it is. */
  function Locate(categories: seq<Category>, x: int): (y: int)
    ensures AllInert(categories) ==> y == x
  {
    if categories == [] then x
    else
      var next := MapThrough(categories[0], x);
      assert Inert(categories[0]) ==> next == x by {
        if Inert(categories[0]) {
          EmptyRangesPassThrough(categories[0], x);
        }
      }
      Locate(categories[1..], next)
  }

  /** With source ranges that do not overlap, the order of a category's maps does not matter: any covering map decides. */
  lemma DisjointAnyMap(category: Category, x: int, j: nat)
    requires j < |category| && Covers(category[j], x)
    requires forall a, b | 0 <= a < b < |category| ::
      category[a].source + category[a].length <= category[b].source ||
      category[b].source + category[b].length <= category[a].source
    ensures MapThrough(category, x) == category[j].destination + (x - category[j].source)
  {
    forall k | 0 <= k < j
      ensures !Covers(category[k], x)
    {
      assert category[k].source + category[k].length <= category[j].source ||
        category[j].source + category[j].length <= category[k].source;
    }
    assert FirstCover(category, x, j);
  }

  /** A category with no maps, or only maps of length 0 or less: it covers no number. */
  predicate Inert(category: Category)
  {
    forall j | 0 <= j < |category| :: category[j].length <= 0
  }

  /** Every category is inert. */
  predicate AllInert(categories: seq<Category>)
  {
    categories == [] || (Inert(categories[0]) && AllInert(categories[1..]))
  }

  /** An inert category changes nothing. */
  lemma EmptyRangesPassThrough(category: Category, x: int)
    requires Inert(category)
    ensures MapThrough(category, x) == x
  {
  }

  /** The loop over one category's maps: the first covering map moves the location and ends the scan. */
  method MapCategory(category: Category, start: int) returns (currentLocation: int)
    ensures currentLocation == MapThrough(category, start)
  {
    currentLocation := start;
    var k := 0;
    while k < |category|
      invariant 0 <= k <= |category|
      invariant currentLocation == start
      invariant MapThrough(category[k..], start) == MapThrough(category, start)
    {
      var m := category[k];
      if currentLocation >= m.source && currentLocation <= m.source + m.length - 1 {
        currentLocation := m.destination + (currentLocation - m.source);
        return;
      }
      k := k + 1;
    }
  }

  /** The loop over the categories for one seed. */
  method LocateSeed(categories: seq<Category>, seed: int) returns (currentLocation: int)
    ensures currentLocation == Locate(categories, seed)
  {
    currentLocation := seed;
    for c := 0 to |categories|
      invariant Locate(categories[c..], currentLocation) == Locate(categories, seed)
    {
      currentLocation := MapCategory(categories[c], currentLocation);
      assert categories[c..][1..] == categories[c + 1..];
    }
  }

  /**
   * `applyMaps`: every seed runs through every category, breaking out of a
   * category at its first covering map; one location per seed, in seed order.
   */
  method ApplyMaps(seeds: seq<int>, categories: seq<Category>) returns (finalLocations: seq<int>)
    ensures |finalLocations| == |seeds|
    ensures forall i | 0 <= i < |seeds| :: finalLocations[i] == Locate(categories, seeds[i])
  {
    finalLocations := [];
    for s := 0 to |seeds|
      invariant |finalLocations| == s
      invariant forall i | 0 <= i < s :: finalLocations[i] == Locate(categories, seeds[i])
    {
      var currentLocation := LocateSeed(categories, seeds[s]);
      finalLocations := finalLocations + [currentLocation];
    }
  }
}
