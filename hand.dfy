/**
 * `generate_random_hand` (main.c lines 207-245) without its random source: the
 * 39-entry table of tile names, the tile each name stands for, and the hand of
 * `HAND_SIZE` tiles drawn through it.
 */
module HandTable {
  import opened Tiles
  import opened Containers

  /** `HAND_SIZE`: the number of tiles in a generated hand. */
  const HandSize: nat := 100

  /** The names `generate_random_hand` draws from: 36 two-digit tiles, then the three special tiles. */
  const Names: seq<string> := [
    "11", "12", "13", "14", "15", "16",
    "21", "22", "23", "24", "25", "26",
    "31", "32", "33", "34", "35", "36",
    "41", "42", "43", "44", "45", "46",
    "51", "52", "53", "54", "55", "56",
    "61", "62", "63", "64", "65", "66",
    "sum", "any", "mirror"
  ]

  /**
   * The tile the name in slot `index` stands for: "sum", "any" and "mirror" are
   * the special tiles, any other name gives its two digits.
   */
  function NamedTile(index: nat): (t: Tile)
    requires index < |Names|
  {
    var name := Names[index];
    if name == "sum" then Increment
    else if name == "any" then Wildcard
    else if name == "mirror" then Mirror
    else Tile(name[0] as int - '0' as int, name[1] as int - '0' as int)
  }

  /** Row 1 of the table: the names "11" to "16". */
  lemma NamedTileRow1(column: nat)
    requires column < 6
    ensures NamedTile(column) == Tile(1, column + 1)
  {
  }

  /** Row 2 of the table: the names "21" to "26". */
  lemma NamedTileRow2(column: nat)
    requires column < 6
    ensures NamedTile(6 + column) == Tile(2, column + 1)
  {
  }

  /** Row 3 of the table: the names "31" to "36". */
  lemma NamedTileRow3(column: nat)
    requires column < 6
    ensures NamedTile(12 + column) == Tile(3, column + 1)
  {
  }

  /** Row 4 of the table: the names "41" to "46". */
  lemma NamedTileRow4(column: nat)
    requires column < 6
    ensures NamedTile(18 + column) == Tile(4, column + 1)
  {
  }

  /** Row 5 of the table: the names "51" to "56". */
  lemma NamedTileRow5(column: nat)
    requires column < 6
    ensures NamedTile(24 + column) == Tile(5, column + 1)
  {
  }

  /** Row 6 of the table: the names "61" to "66". */
  lemma NamedTileRow6(column: nat)
    requires column < 6
    ensures NamedTile(30 + column) == Tile(6, column + 1)
  {
  }

  /** The last three names are the increment, wildcard and mirror tiles. */
  lemma NamedTileSpecials()
    ensures NamedTile(36) == Increment && NamedTile(37) == Wildcard && NamedTile(38) == Mirror
  {
  }

  /** Every tile of the table is special, or has both values between 1 and 6. */
  lemma NamedTileRange(index: nat)
    requires index < |Names|
    ensures IsSpecial(NamedTile(index)) || (1 <= NamedTile(index).left <= 6 && 1 <= NamedTile(index).right <= 6)
  {
    if index < 6 {
      NamedTileRow1(index);
    } else if index < 12 {
      NamedTileRow2(index - 6);
    } else if index < 18 {
      NamedTileRow3(index - 12);
    } else if index < 24 {
      NamedTileRow4(index - 18);
    } else if index < 30 {
      NamedTileRow5(index - 24);
    } else if index < 36 {
      NamedTileRow6(index - 30);
    } else {
      NamedTileSpecials();
    }
  }

  /** Every tile of the table is special or has both values between 1 and 6. */
  lemma TableRange()
    ensures forall index :: 0 <= index < |Names| ==>
      IsSpecial(NamedTile(index)) || (1 <= NamedTile(index).left <= 6 && 1 <= NamedTile(index).right <= 6)
  {
    forall index | 0 <= index < |Names|
      ensures IsSpecial(NamedTile(index)) || (1 <= NamedTile(index).left <= 6 && 1 <= NamedTile(index).right <= 6)
    {
      NamedTileRange(index);
    }
  }

  /**
   * The tiles drawn for the `rand()` results `draws`: each picks the name in slot
   * `draw % 39`, so every drawn tile is special or has both values between 1 and 6.
   */
  function Drawn(draws: seq<nat>): (hand: seq<Tile>)
    ensures |hand| == |draws|
    ensures forall k :: 0 <= k < |hand| ==> IsSpecial(hand[k]) || (1 <= hand[k].left <= 6 && 1 <= hand[k].right <= 6)
  {
    TableRange();
    seq(|draws|, k requires 0 <= k < |draws| => NamedTile(draws[k] % |Names|))
  }

  /**
   * `generate_random_hand`, given the `HAND_SIZE` results of `rand()` it would
   * draw: a new vector with the drawn tiles in order.
   */
  method GenerateHand(draws: seq<nat>) returns (hand: Vector)
    requires |draws| == HandSize
    ensures fresh(hand) && hand.Valid()
    ensures hand.Contents() == Drawn(draws)
  {
    hand := new Vector();
    var i := 0;
    while i < HandSize
      invariant 0 <= i <= HandSize
      invariant fresh(hand) && fresh(hand.data) && hand.Valid()
      invariant hand.Contents() == Drawn(draws)[..i]
    {
      assert Drawn(draws)[..i + 1] == Drawn(draws)[..i] + [NamedTile(draws[i] % |Names|)];
      hand.PushBack(NamedTile(draws[i] % |Names|));
      i := i + 1;
    }
  }
}
