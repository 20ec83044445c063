/**
 * The rules of linear domino (main.c lines 249-359 and 436-443): removing a played
 * tile from the hand, move legality, applying a move with the effects of the
 * special tiles, whether any move is left, and the score of a field.
 * Each operation has a specification on sequences and a method over `Vector`s.
 */
module Rules {
  import opened Tiles
  import opened Containers

  /** The line of played tiles and the tiles still in hand. */
  datatype Board = Board(field: seq<Tile>, hand: seq<Tile>)

  // ---------------------------------------------------------------- delete_tile

  /** Position of the first tile equal to `el`, or `|s|` when there is none. */
  function IndexOf(s: seq<Tile>, el: Tile): (i: nat)
    ensures i <= |s|
    ensures i < |s| ==> s[i] == el
    ensures forall k :: 0 <= k < i ==> s[k] != el
  {
    if |s| == 0 then 0
    else if s[0] == el then 0
    else 1 + IndexOf(s[1..], el)
  }

  /** `s` without its first tile equal to `el`; `s` itself when there is none. */
  function RemoveFirst(s: seq<Tile>, el: Tile): (r: seq<Tile>)
    ensures el !in s ==> r == s
    ensures el in s ==> |r| == |s| - 1
  {
    var i := IndexOf(s, el);
    if i < |s| then s[..i] + s[i + 1..] else s
  }

  /** Removal takes away exactly one copy of `el` and keeps every other tile. */
  lemma RemoveFirstMultiset(s: seq<Tile>, el: Tile)
    requires el in s
    ensures multiset(RemoveFirst(s, el)) == multiset(s) - multiset{el}
  {
    var i := IndexOf(s, el);
    assert s == s[..i] + [s[i]] + s[i + 1..];
  }

  /** The tiles before the first `el` stay in place and the later ones move down by one. */
  lemma RemoveFirstOrder(s: seq<Tile>, el: Tile)
    requires el in s
    ensures var i, r := IndexOf(s, el), RemoveFirst(s, el);
      && (forall k :: 0 <= k < i ==> r[k] == s[k])
      && (forall k :: i <= k < |r| ==> r[k] == s[k + 1])
  {
    var i := IndexOf(s, el);
    assert i < |s|;
    assert RemoveFirst(s, el) == s[..i] + s[i + 1..];
  }

  /**
   * `delete_tile`: removes the first tile of `v` equal to `el` and reports whether
   * there was one.
   */
  method DeleteTile(v: Vector, el: Tile) returns (found: bool)
    requires v.Valid()
    modifies v, v.data
    ensures v.Valid() && (v.data == old(v.data) || fresh(v.data))
    ensures found == (el in old(v.Contents()))
    ensures v.Contents() == RemoveFirst(old(v.Contents()), el)
  {
    var i := 0;
    while i < v.size
      invariant 0 <= i <= v.size
      invariant unchanged(v) && unchanged(v.data)
      invariant forall k :: 0 <= k < i ==> v.data[k] != el
    {
      if v.data[i].left == el.left && v.data[i].right == el.right {
        var ok, shiftReads := v.DeleteAt(i);
        return true;
      }
      i := i + 1;
    }
    assert v.Contents() == old(v.Contents());
    return false;
  }

  // ---------------------------------------------------------------- valid_move

  /** An exposed end value accepts a tile that shows it on either side, or any tile when it is 0. */
  predicate Matches(end: int, el: Tile)
  {
    end == el.left || end == el.right || end == 0
  }

  /**
   * Whether `valid_move` stays inside the field: on an empty field it reaches the
   * end checks, which read `field[0]` or `field[size - 1]`, for a tile other than a
   * special one whose left is 11 or whose right is 12, played at 'L' or 'R'.
   */
  predicate ValidMoveInBounds(field: seq<Tile>, pos: char, el: Tile)
  {
    |field| > 0 || (pos != 'L' && pos != 'R') || IsSpecial(el) || (el.left != 11 && el.right != 12)
  }

  /** `valid_move`: whether playing `el` at end `pos` of `field` is legal. */
  function ValidMove(field: seq<Tile>, pos: char, el: Tile): (legal: bool)
    requires ValidMoveInBounds(field, pos, el)
    ensures !IsEnd(pos) ==> !legal
    ensures IsEnd(pos) && IsSpecial(el) ==> legal
    ensures |field| > 0 && !IsSpecial(el) && legal ==> pos != 'S'
  {
    if pos != 'R' && pos != 'L' && pos != 'S' then false
    else if |field| == 0 && el.left != 11 && el.right != 12 then true
    else if IsSpecial(el) then true
    else if pos == 'L' then field[0].left == el.left || field[0].left == el.right || field[0].left == 0
    else if pos == 'R' then
      field[|field| - 1].right == el.left || field[|field| - 1].right == el.right || field[|field| - 1].right == 0
    else false
  }

  /** On a non-empty field an ordinary tile is legal at an end exactly when that end value matches it. */
  lemma ValidMoveAtEnds(field: seq<Tile>, el: Tile)
    requires |field| > 0 && !IsSpecial(el)
    ensures ValidMove(field, 'L', el) <==> Matches(field[0].left, el)
    ensures ValidMove(field, 'R', el) <==> Matches(field[|field| - 1].right, el)
    ensures !ValidMove(field, 'S', el)
  {
  }

  /**
   * On an empty field every move the source can decide is legal except a start
   * move with a tile whose left is 11 or whose right is 12 that is not special.
   */
  lemma ValidMoveOnEmptyField(pos: char, el: Tile)
    requires IsEnd(pos) && ValidMoveInBounds([], pos, el)
    ensures ValidMove([], pos, el) <==> IsSpecial(el) || (el.left != 11 && el.right != 12)
  {
  }

  /** Only the two exposed end values of a non-empty field decide legality. */
  lemma ValidMoveDependsOnEnds(f: seq<Tile>, g: seq<Tile>, pos: char, el: Tile)
    requires |f| > 0 && |g| > 0
    requires f[0].left == g[0].left && f[|f| - 1].right == g[|g| - 1].right
    ensures ValidMove(f, pos, el) == ValidMove(g, pos, el)
  {
  }

  // ---------------------------------------------------------------- move_tile

  /** Every tile of `field` with both values raised by 1: the effect of the increment tile. */
  function Bump(field: seq<Tile>): seq<Tile>
  {
    seq(|field|, i requires 0 <= i < |field| => Tile(field[i].left + 1, field[i].right + 1))
  }

  /**
   * Whether `move_tile` stays inside the field: besides `valid_move`'s reads, an
   * increment or mirror tile taken from the hand to 'L' or 'R' copies the
   * adjacent end tile, so the field must have one.
   */
  predicate MoveInBounds(b: Board, pos: char, el: Tile)
  {
    && ValidMoveInBounds(b.field, pos, el)
    && (|b.field| > 0 || (pos != 'L' && pos != 'R') || (el != Increment && el != Mirror) || el !in b.hand)
  }

  /** A move takes effect when it is legal and the tile is in the hand. */
  predicate Plays(b: Board, pos: char, el: Tile)
    requires ValidMoveInBounds(b.field, pos, el)
  {
    ValidMove(b.field, pos, el) && el in b.hand
  }

  /**
   * The field after `el` is placed at end `pos`: the increment tile first raises
   * every field tile and enters as a copy of the raised neighbour, the mirror tile
   * enters as the reverse of its neighbour, any other tile enters as itself.
   */
  function Place(field: seq<Tile>, pos: char, el: Tile): (f: seq<Tile>)
    requires IsEnd(pos)
    requires |field| > 0 || (pos != 'L' && pos != 'R') || (el != Increment && el != Mirror)
    ensures |f| == |field| + 1
    ensures pos != 'L' ==> f[..|field|] == (if pos == 'R' && el == Increment then Bump(field) else field)
    ensures pos == 'L' ==> f[1..] == (if el == Increment then Bump(field) else field)
  {
    if pos == 'S' then field + [el]
    else if pos == 'R' then
      if el == Increment then
        var raised := Bump(field);
        raised + [raised[|raised| - 1]]
      else if el == Mirror then
        var adjacent := field[|field| - 1];
        field + [Tile(adjacent.right, adjacent.left)]
      else field + [el]
    else
      if el == Increment then
        var raised := Bump(field);
        [raised[0]] + raised
      else if el == Mirror then
        var adjacent := field[0];
        [Tile(adjacent.right, adjacent.left)] + field
      else [el] + field
  }

  /** `move_tile`: the board after trying to play `el` at end `pos`. */
  function Apply(b: Board, pos: char, el: Tile): (r: Board)
    requires MoveInBounds(b, pos, el)
    ensures !Plays(b, pos, el) ==> r == b
    ensures Plays(b, pos, el) ==> r.hand == RemoveFirst(b.hand, el) && |r.field| == |b.field| + 1
  {
    if ValidMove(b.field, pos, el) && el in b.hand then
      Board(Place(b.field, pos, el), RemoveFirst(b.hand, el))
    else b
  }

  /** A played tile leaves the hand (one copy of it) and one tile joins the field. */
  lemma ApplyConserves(b: Board, pos: char, el: Tile)
    requires MoveInBounds(b, pos, el)
    ensures var r := Apply(b, pos, el);
      && |r.field| + |r.hand| == |b.field| + |b.hand|
      && |b.field| <= |r.field|
      && multiset(r.hand) <= multiset(b.hand)
  {
    if Plays(b, pos, el) {
      RemoveFirstMultiset(b.hand, el);
    }
  }

  /** An ordinary tile, or any tile played as the first one, is placed unchanged at its end. */
  lemma ApplyPlain(b: Board, pos: char, el: Tile)
    requires MoveInBounds(b, pos, el) && Plays(b, pos, el)
    requires pos == 'S' || (el != Increment && el != Mirror)
    ensures pos != 'L' ==> Apply(b, pos, el).field == b.field + [el]
    ensures pos == 'L' ==> Apply(b, pos, el).field == [el] + b.field
  {
  }

  /**
   * The increment tile at 'R' or 'L' raises both values of every field tile by 1
   * and enters as a copy of the raised tile it is placed next to.
   */
  lemma ApplyIncrement(b: Board, pos: char)
    requires MoveInBounds(b, pos, Increment) && Plays(b, pos, Increment) && pos != 'S'
    ensures |b.field| > 0
    ensures var f := Apply(b, pos, Increment).field;
      && (pos == 'R' ==> f[..|b.field|] == Bump(b.field) && f[|b.field|] == f[|b.field| - 1])
      && (pos == 'L' ==> f[1..] == Bump(b.field) && f[0] == f[1])
  {
  }

  /** The mirror tile enters as the reverse of the end tile it is placed next to. */
  lemma ApplyMirror(b: Board, pos: char)
    requires MoveInBounds(b, pos, Mirror) && Plays(b, pos, Mirror) && pos != 'S'
    ensures |b.field| > 0
    ensures var last := b.field[|b.field| - 1];
      pos == 'R' ==> Apply(b, pos, Mirror).field == b.field + [Tile(last.right, last.left)]
    ensures pos == 'L' ==> Apply(b, pos, Mirror).field == [Tile(b.field[0].right, b.field[0].left)] + b.field
  {
  }

  /** Playing the increment tile to the right of `[(3,4)]` gives `[(4,5), (4,5)]`. */
  lemma ApplyIncrementExample()
    ensures Apply(Board([Tile(3, 4)], [Increment]), 'R', Increment) == Board([Tile(4, 5), Tile(4, 5)], [])
  {
    assert RemoveFirst([Increment], Increment) == [];
  }

  /** Starting with `(1,2)` from hand `[(1,2), (2,3)]` moves it to the empty field. */
  lemma ApplyStartExample()
    ensures Apply(Board([], [Tile(1, 2), Tile(2, 3)]), 'S', Tile(1, 2)) == Board([Tile(1, 2)], [Tile(2, 3)])
  {
    assert IndexOf([Tile(1, 2), Tile(2, 3)], Tile(1, 2)) == 0;
    assert RemoveFirst([Tile(1, 2), Tile(2, 3)], Tile(1, 2)) == [Tile(2, 3)];
  }

  /** Then `(2,3)` matches the right end 2 and is appended, emptying the hand. */
  lemma ApplyRightExample()
    ensures Apply(Board([Tile(1, 2)], [Tile(2, 3)]), 'R', Tile(2, 3)) == Board([Tile(1, 2), Tile(2, 3)], [])
  {
    assert IndexOf([Tile(2, 3)], Tile(2, 3)) == 0;
    assert RemoveFirst([Tile(2, 3)], Tile(2, 3)) == [];
  }

  /** From hand `[(1,2), (2,3)]`, starting with `(1,2)` then playing `(2,3)` right gives a field worth 8. */
  lemma ApplySequenceExample()
    ensures var b1 := Apply(Board([], [Tile(1, 2), Tile(2, 3)]), 'S', Tile(1, 2));
      var b2 := Apply(b1, 'R', Tile(2, 3));
      b2 == Board([Tile(1, 2), Tile(2, 3)], []) && Total(b2.field) == 8
  {
    ApplyStartExample();
    ApplyRightExample();
    var f := [Tile(1, 2), Tile(2, 3)];
    assert f[..1] == [Tile(1, 2)];
    assert [Tile(1, 2)][..0] == [];
  }

  /** `move_tile`'s `+= 1` loop over the field. */
  method IncrementAll(field: Vector)
    requires field.Valid()
    modifies field.data
    ensures field.Valid() && field.Contents() == Bump(old(field.Contents()))
  {
    var i := 0;
    while i < field.size
      invariant 0 <= i <= field.size
      invariant forall k :: 0 <= k < i ==> field.data[k] == Tile(old(field.data[k]).left + 1, old(field.data[k]).right + 1)
      invariant forall k :: i <= k < field.data.Length ==> field.data[k] == old(field.data[k])
    {
      field.data[i] := Tile(field.data[i].left + 1, field.data[i].right + 1);
      i := i + 1;
    }
  }

  /** The placing half of `move_tile`, run once the tile has left the hand. */
  method PlaceTile(field: Vector, pos: char, el: Tile)
    requires field.Valid() && IsEnd(pos)
    requires field.size > 0 || (pos != 'L' && pos != 'R') || (el != Increment && el != Mirror)
    modifies field, field.data
    ensures field.Valid() && (field.data == old(field.data) || fresh(field.data))
    ensures field.Contents() == Place(old(field.Contents()), pos, el)
  {
    var t := el;
    if pos != 'S' {
      if el.left == 11 && el.right == 11 {
        IncrementAll(field);
        t := if pos == 'R' then field.data[field.size - 1] else field.data[0];
      } else if el.left == 12 && el.right == 21 {
        t := if pos == 'R' then Tile(field.data[field.size - 1].right, field.data[field.size - 1].left)
             else Tile(field.data[0].right, field.data[0].left);
      }
    }
    if pos == 'L' {
      field.PushFront(t);
    } else {
      field.PushBack(t);
    }
  }

  /** `move_tile`: plays `el` from `hand` at end `pos` of `field` when the move is legal and the tile is held. */
  method MoveTile(field: Vector, hand: Vector, pos: char, el: Tile)
    requires field.Valid() && hand.Valid() && Apart(field, hand)
    requires MoveInBounds(Board(field.Contents(), hand.Contents()), pos, el)
    modifies field, field.data, hand, hand.data
    ensures field.Valid() && hand.Valid() && Apart(field, hand)
    ensures field.data == old(field.data) || fresh(field.data)
    ensures hand.data == old(hand.data) || fresh(hand.data)
    ensures Board(field.Contents(), hand.Contents()) == Apply(old(Board(field.Contents(), hand.Contents())), pos, el)
  {
    if ValidMove(field.Contents(), pos, el) {
      var present := DeleteTile(hand, el);
      if present {
        PlaceTile(field, pos, el);
      }
    }
  }

  // ---------------------------------------------------------------- possible_moves

  /** The test `possible_moves` applies to one hand tile against the two end values. */
  predicate Compatible(left: int, right: int, t: Tile)
  {
    t.left == left || t.right == left || t.right == right || t.left == right
    || right == 0 || left == 0 || IsSpecial(t)
  }

  /** Specification of `possible_moves`: an empty field, or some hand tile fits one of its ends. */
  predicate AnyMove(field: seq<Tile>, hand: seq<Tile>)
  {
    |field| == 0 || exists i :: 0 <= i < |hand| && Compatible(field[0].left, field[|field| - 1].right, hand[i])
  }

  /** On a non-empty field a move is left exactly when some hand tile is legal at 'L' or at 'R'. */
  lemma AnyMoveIsSomeValidMove(field: seq<Tile>, hand: seq<Tile>)
    requires |field| > 0
    ensures AnyMove(field, hand) <==> exists t :: t in hand && (ValidMove(field, 'L', t) || ValidMove(field, 'R', t))
  {
    if AnyMove(field, hand) {
      var i :| 0 <= i < |hand| && Compatible(field[0].left, field[|field| - 1].right, hand[i]);
      assert ValidMove(field, 'L', hand[i]) || ValidMove(field, 'R', hand[i]);
    }
    if exists t :: t in hand && (ValidMove(field, 'L', t) || ValidMove(field, 'R', t)) {
      var t :| t in hand && (ValidMove(field, 'L', t) || ValidMove(field, 'R', t));
      var i :| 0 <= i < |hand| && hand[i] == t;
      assert Compatible(field[0].left, field[|field| - 1].right, hand[i]);
    }
  }

  /** A non-empty field with an empty hand leaves no move; a special tile in hand always leaves one. */
  lemma AnyMoveEdges(field: seq<Tile>, hand: seq<Tile>, t: Tile)
    ensures |field| > 0 ==> !AnyMove(field, [])
    ensures IsSpecial(t) && t in hand ==> AnyMove(field, hand)
  {
    if IsSpecial(t) && t in hand && |field| > 0 {
      var i :| 0 <= i < |hand| && hand[i] == t;
      assert Compatible(field[0].left, field[|field| - 1].right, hand[i]);
    }
  }

  /** `possible_moves`: scans the hand until a tile fits the field's ends. */
  method PossibleMoves(field: Vector, hand: Vector) returns (possible: bool)
    requires field.Valid() && hand.Valid()
    ensures possible == AnyMove(field.Contents(), hand.Contents())
  {
    if field.size == 0 {
      return true;
    }
    possible := false;
    var fieldLeft := field.data[0].left;
    var fieldRight := field.data[field.size - 1].right;
    var i := 0;
    while i < hand.size && !possible
      invariant 0 <= i <= hand.size
      invariant possible <==> exists k :: 0 <= k < i && Compatible(fieldLeft, fieldRight, hand.data[k])
    {
      var handLeft := hand.data[i].left;
      var handRight := hand.data[i].right;
      if handLeft == fieldLeft || handRight == fieldLeft || handRight == fieldRight || handLeft == fieldRight
        || fieldRight == 0 || fieldLeft == 0
        || (handLeft == 0 && handRight == 0) || (handLeft == 12 && handRight == 21) || (handLeft == 11 && handRight == 11)
      {
        possible := true;
      }
      i := i + 1;
    }
    assert hand.Contents() == hand.data[..hand.size];
  }

  // ---------------------------------------------------------------- points

  /** Specification of `points`: the sum of `left + right` over the tiles. */
  function Total(s: seq<Tile>): int
  {
    if |s| == 0 then 0 else Total(s[..|s| - 1]) + s[|s| - 1].left + s[|s| - 1].right
  }

  /** The total of a concatenation is the sum of the totals. */
  lemma {:induction false} TotalAppend(a: seq<Tile>, b: seq<Tile>)
    ensures Total(a + b) == Total(a) + Total(b)
    decreases |b|
  {
    if |b| == 0 {
      assert a + b == a;
    } else {
      assert (a + b)[..|a + b| - 1] == a + b[..|b| - 1];
      TotalAppend(a, b[..|b| - 1]);
    }
  }

  /** The increment effect adds 2 to the total for every field tile. */
  lemma {:induction false} TotalBump(s: seq<Tile>)
    ensures Total(Bump(s)) == Total(s) + 2 * |s|
    decreases |s|
  {
    if |s| > 0 {
      assert Bump(s)[..|s| - 1] == Bump(s[..|s| - 1]);
      TotalBump(s[..|s| - 1]);
    }
  }

  /**
   * What a played move adds to the score: an ordinary tile its own values, the
   * mirror tile the values of its neighbour, the increment tile 2 per field tile
   * plus the raised values of its neighbour.
   */
  lemma ApplyTotal(b: Board, pos: char, el: Tile)
    requires MoveInBounds(b, pos, el) && Plays(b, pos, el)
    ensures var t := Total(Apply(b, pos, el).field);
      && (pos == 'S' || (el != Increment && el != Mirror) ==> t == Total(b.field) + el.left + el.right)
      && (pos == 'R' && el == Mirror ==> t == Total(b.field) + b.field[|b.field| - 1].left + b.field[|b.field| - 1].right)
      && (pos == 'L' && el == Mirror ==> t == Total(b.field) + b.field[0].left + b.field[0].right)
      && (pos == 'R' && el == Increment ==>
            t == Total(b.field) + 2 * |b.field| + b.field[|b.field| - 1].left + b.field[|b.field| - 1].right + 2)
      && (pos == 'L' && el == Increment ==> t == Total(b.field) + 2 * |b.field| + b.field[0].left + b.field[0].right + 2)
  {
    var f := Apply(b, pos, el).field;
    if pos == 'L' {
      assert f == [f[0]] + f[1..];
      TotalAppend([f[0]], f[1..]);
      assert [f[0]][..0] == [];
    } else {
      TotalAppend(f[..|b.field|], [f[|b.field|]]);
      assert f == f[..|b.field|] + [f[|b.field|]];
      assert [f[|b.field|]][..0] == [];
    }
    if el == Increment && pos != 'S' {
      TotalBump(b.field);
    }
  }

  /** `points`: adds up `left + right` over the vector. */
  method Points(v: Vector) returns (sum: int)
    requires v.Valid()
    ensures sum == Total(v.Contents())
  {
    sum := 0;
    var i := 0;
    while i < v.size
      invariant 0 <= i <= v.size
      invariant sum == Total(v.data[..i])
    {
      assert v.data[..i + 1][..i] == v.data[..i];
      sum := sum + v.data[i].left + v.data[i].right;
      i := i + 1;
    }
  }
}
