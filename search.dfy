/**
 * The exhaustive search of `recursive_mode_aux` and `recursive_mode` (main.c lines
 * 369-434). The search plays one move, then for every hand slot tries the right end
 * and the left end in turn on the same shared field and hand, with no undo between
 * the two siblings or between loop iterations, and appends every move it makes to
 * one log. Only the top level restores the field and hand after each start tile.
 *
 * `Search`, `SearchLoop` and `SolveFrom` specify the search on values; `Solver`
 * runs it over the shared vectors and is proved to agree with them.
 */
module Exhaustive {
  import opened Tiles
  import opened Containers
  import opened Moves
  import opened Rules

  /** What a search returns: its score, and the board and log it leaves behind. */
  datatype Outcome = Outcome(score: int, board: Board, log: seq<char>)

  /** Termination measure: every call with a tile in hand either returns at once or shrinks the hand. */
  function Measure(hand: seq<Tile>, el: Tile): nat
  {
    2 * |hand| + (if el in hand then 0 else 1)
  }

  /**
   * Whether the search keeps its reads inside the field: an 'L' or 'R' move needs
   * a tile on the field, and the start move is made with a tile from the hand.
   */
  predicate SearchInBounds(b: Board, pos: char, el: Tile)
  {
    |b.field| > 0 || (pos == 'S' && el in b.hand)
  }

  /**
   * What every search call does to the board and the log: tiles only move from
   * the hand to the field, the hand either stays as it was or shrinks, and moves
   * are only appended to the log.
   */
  predicate Descends(b: Board, log: seq<char>, r: Outcome)
  {
    && |b.field| <= |r.board.field|
    && |r.board.field| + |r.board.hand| == |b.field| + |b.hand|
    && (r.board == b || |r.board.hand| < |b.hand|)
    && log <= r.log
  }

  /**
   * `recursive_mode_aux(field, hand, log, pos, el)`: the points of the field when
   * no move is left, 0 when the move is illegal, and otherwise the result of the
   * loop over the hand after playing and logging the move (logged even when the
   * tile is not in the hand). `stale` stands for the tile the 'L' sibling reads
   * from a hand slot the 'R' sibling has emptied.
   */
  function Search(b: Board, log: seq<char>, pos: char, el: Tile, stale: Tile): (r: Outcome)
    requires SearchInBounds(b, pos, el)
    ensures Descends(b, log, r)
    ensures !AnyMove(b.field, b.hand) ==> r.board == b && r.log == log
    ensures AnyMove(b.field, b.hand) && ValidMove(b.field, pos, el) ==>
      log + Entry(pos, el) <= r.log
    decreases Measure(b.hand, el), 1, 0
  {
    if !AnyMove(b.field, b.hand) then Outcome(Total(b.field), b, log)
    else if !ValidMove(b.field, pos, el) then Outcome(0, b, log)
    else
      ApplyConserves(b, pos, el);
      SearchLoop(Apply(b, pos, el), log + Entry(pos, el), 0, 0, stale)
  }

  /**
   * One iteration of the loop of `recursive_mode_aux`, for hand slot `i`: searches
   * the right end with the tile in slot `i`, then the left end with whatever slot
   * `i` holds afterwards, on the board and log the first search left. The score is
   * the larger of the two.
   */
  function Iteration(b: Board, log: seq<char>, i: nat, stale: Tile): (r: Outcome)
    requires |b.field| > 0 && i < |b.hand|
    ensures Descends(b, log, r)
    decreases 2 * |b.hand| + 1, 0, 0
  {
    var right := Search(b, log, 'R', b.hand[i], stale);
    var t := if i < |right.board.hand| then right.board.hand[i] else stale;
    var left := Search(right.board, right.log, 'L', t, stale);
    Outcome(if right.score > left.score then right.score else left.score, left.board, left.log)
  }

  /**
   * The loop of `recursive_mode_aux` from hand slot `i` on, `best` being the
   * current `max_points`: each iteration replaces `best` with its own score.
   */
  function SearchLoop(b: Board, log: seq<char>, i: nat, best: int, stale: Tile): (r: Outcome)
    requires |b.field| > 0
    ensures Descends(b, log, r)
    decreases 2 * |b.hand| + 1, 0, |b.hand| - i
  {
    if i >= |b.hand| then Outcome(best, b, log)
    else
      var o := Iteration(b, log, i, stale);
      SearchLoop(o.board, o.log, i + 1, o.score, stale)
  }

  /** A legal move with moves still left is played and logged, then the loop runs from slot 0. */
  lemma SearchPlays(b: Board, log: seq<char>, pos: char, el: Tile, stale: Tile)
    requires SearchInBounds(b, pos, el) && AnyMove(b.field, b.hand) && ValidMove(b.field, pos, el)
    ensures |Apply(b, pos, el).field| > 0
    ensures Search(b, log, pos, el, stale) == SearchLoop(Apply(b, pos, el), log + Entry(pos, el), 0, 0, stale)
  {
  }

  /** A board with no move left scores its points and is left as it is. */
  lemma SearchLeaf(b: Board, log: seq<char>, pos: char, el: Tile, stale: Tile)
    requires SearchInBounds(b, pos, el) && !AnyMove(b.field, b.hand)
    ensures Search(b, log, pos, el, stale) == Outcome(Total(b.field), b, log)
  {
  }

  /** An illegal move with moves still left scores 0 and changes nothing. */
  lemma SearchIllegal(b: Board, log: seq<char>, pos: char, el: Tile, stale: Tile)
    requires SearchInBounds(b, pos, el) && AnyMove(b.field, b.hand) && !ValidMove(b.field, pos, el)
    ensures Search(b, log, pos, el, stale) == Outcome(0, b, log)
  {
  }

  /**
   * A move that plays the last tile of the hand scores 0, not the points of the
   * field it completes: the loop over the now empty hand never runs.
   */
  lemma SearchEmptiedHand(b: Board, log: seq<char>, pos: char, el: Tile, stale: Tile)
    requires SearchInBounds(b, pos, el) && AnyMove(b.field, b.hand) && ValidMove(b.field, pos, el)
    requires b.hand == [el]
    ensures Search(b, log, pos, el, stale).score == 0
    ensures Search(b, log, pos, el, stale).log == log + Entry(pos, el)
  {
    assert RemoveFirst(b.hand, el) == [];
  }

  /**
   * `max_points` is overwritten, not accumulated: once an iteration runs, the
   * score the loop returns does not depend on the best score before it.
   */
  lemma SearchLoopOverwrites(b: Board, log: seq<char>, i: nat, best1: int, best2: int, stale: Tile)
    requires |b.field| > 0 && i < |b.hand|
    ensures SearchLoop(b, log, i, best1, stale) == SearchLoop(b, log, i, best2, stale)
  {
  }

  // ---------------------------------------------------------------- recursive_mode

  /** The result `recursive_mode` starts from: score 0, empty board, empty log. */
  const NoOutcome := Outcome(0, Board([], []), [])

  /**
   * The loop of `recursive_mode` from slot `i` on, over the outcomes of the start
   * tiles: an outcome replaces `best` only when it scores strictly more.
   */
  function Best(outcomes: seq<Outcome>, i: nat, best: Outcome): Outcome
    decreases |outcomes| - i
  {
    if i >= |outcomes| then best
    else Best(outcomes, i + 1, if best.score < outcomes[i].score then outcomes[i] else best)
  }

  /**
   * The outcome `Best` keeps scores at least `best` and every outcome from slot
   * `i` on, and unless it is `best` it is the first of those outcomes reaching its
   * score.
   */
  lemma {:induction false} BestIsFirstMaximum(outcomes: seq<Outcome>, i: nat, best: Outcome)
    ensures var r := Best(outcomes, i, best);
      && best.score <= r.score
      && (forall j :: i <= j < |outcomes| ==> outcomes[j].score <= r.score)
      && (r == best || exists j :: (i <= j < |outcomes| && r == outcomes[j] && best.score < r.score
            && forall k :: i <= k < j ==> outcomes[k].score < r.score))
    decreases |outcomes| - i
  {
    if i < |outcomes| {
      var next := if best.score < outcomes[i].score then outcomes[i] else best;
      BestIsFirstMaximum(outcomes, i + 1, next);
    }
  }

  /** The outcome of searching from each start tile of the hand, with a fresh log. */
  function Starts(b: Board, stale: Tile): (s: seq<Outcome>)
    ensures |s| == |b.hand|
  {
    seq(|b.hand|, j requires 0 <= j < |b.hand| => Search(b, [], 'S', b.hand[j], stale))
  }

  /**
   * The loop of `recursive_mode` from hand slot `i` on: each start tile is searched
   * from the same initial board `b` with a fresh log, and its outcome replaces
   * `best` only when it scores strictly more.
   */
  function SolveFrom(b: Board, i: nat, best: Outcome, stale: Tile): Outcome
    decreases |b.hand| - i
  {
    if i >= |b.hand| then best
    else
      var o := Search(b, [], 'S', b.hand[i], stale);
      SolveFrom(b, i + 1, if best.score < o.score then o else best, stale)
  }

  /** `recursive_mode`: the best outcome over all start tiles of the hand. */
  function Solve(b: Board, stale: Tile): Outcome
  {
    SolveFrom(b, 0, NoOutcome, stale)
  }

  /** The loop of `recursive_mode` is `Best` over the start tiles' outcomes. */
  lemma {:induction false} SolveFromIsBest(b: Board, i: nat, best: Outcome, stale: Tile)
    ensures SolveFrom(b, i, best, stale) == Best(Starts(b, stale), i, best)
    decreases |b.hand| - i
  {
    if i < |b.hand| {
      var o := Search(b, [], 'S', b.hand[i], stale);
      assert Starts(b, stale)[i] == o;
      SolveFromIsBest(b, i + 1, if best.score < o.score then o else best, stale);
    }
  }

  /**
   * What `recursive_mode` returns: a score of at least 0 and at least every start
   * tile's score; when it is positive, the outcome of the first start tile that
   * reaches it (later ties do not replace it); when it is 0, the empty outcome.
   */
  lemma SolveBest(b: Board, stale: Tile)
    ensures var r, s := Solve(b, stale), Starts(b, stale);
      && 0 <= r.score
      && (forall j :: 0 <= j < |b.hand| ==> s[j].score <= r.score)
      && (r.score == 0 ==> r == NoOutcome)
      && (0 < r.score ==> exists j :: (0 <= j < |b.hand| && r == s[j]
            && forall k :: 0 <= k < j ==> s[k].score < r.score))
  {
    SolveFromIsBest(b, 0, NoOutcome, stale);
    BestIsFirstMaximum(Starts(b, stale), 0, NoOutcome);
  }

  /** Each start tile's outcome is the search from the initial board with a fresh log. */
  lemma StartsAre(b: Board, stale: Tile, j: nat)
    requires j < |b.hand|
    ensures Starts(b, stale)[j] == Search(b, [], 'S', b.hand[j], stale)
  {
  }

  // ---------------------------------------------------------------- the shared state

  /**
   * The state the search functions share: one field and one hand that every call
   * updates in place, and the log the current search appends to.
   */
  class Solver {
    const field: Vector
    const hand: Vector
    var log: MoveLog
    /** The tile the 'L' sibling reads from a hand slot past the end of the hand. */
    const stale: Tile

    /** All three buffers are well formed and the field and hand share no storage. */
    ghost predicate Valid()
      reads this, field, hand, log
    {
      field.Valid() && hand.Valid() && log.Valid() && Apart(field, hand)
    }

    /** The field and hand as values. */
    ghost function State(): Board
      reads field, field.data, hand, hand.data
      requires field.Valid() && hand.Valid()
    {
      Board(field.Contents(), hand.Contents())
    }

    /** A solver over `field` and `hand` with an empty log. */
    constructor (field: Vector, hand: Vector, stale: Tile)
      requires field.Valid() && hand.Valid() && Apart(field, hand)
      ensures Valid() && this.field == field && this.hand == hand && this.stale == stale
      ensures fresh(log) && fresh(log.data) && log.Contents() == []
    {
      this.field, this.hand, this.stale := field, hand, stale;
      log := new MoveLog();
    }

    /**
     * `recursive_mode_aux(field, hand, log, pos, el)`: returns the score of
     * `Search` and leaves behind its board and log.
     */
    method RecursiveModeAux(pos: char, el: Tile) returns (score: int)
      requires Valid() && SearchInBounds(State(), pos, el)
      modifies field, field.data, hand, hand.data, log, log.data
      ensures Valid()
      ensures field.data == old(field.data) || fresh(field.data)
      ensures hand.data == old(hand.data) || fresh(hand.data)
      ensures log.data == old(log.data) || fresh(log.data)
      ensures Outcome(score, State(), log.Contents()) == Search(old(State()), old(log.Contents()), pos, el, stale)
      decreases Measure(State().hand, el), 1, 0
    {
      var possible := PossibleMoves(field, hand);
      if !possible {
        score := Points(field);
        return;
      }
      if !ValidMove(field.Contents(), pos, el) {
        return 0;
      }
      SearchPlays(State(), log.Contents(), pos, el, stale);
      ghost var bound := Measure(State().hand, el);
      ApplyConserves(State(), pos, el);
      Play(pos, el);
      score := HandLoop(bound);
    }

    /** The move of a legal tile and its three log bytes, the first step of `recursive_mode_aux`. */
    method Play(pos: char, el: Tile)
      requires Valid() && SearchInBounds(State(), pos, el) && ValidMove(State().field, pos, el)
      modifies field, field.data, hand, hand.data, log, log.data
      ensures Valid()
      ensures field.data == old(field.data) || fresh(field.data)
      ensures hand.data == old(hand.data) || fresh(hand.data)
      ensures log.data == old(log.data) || fresh(log.data)
      ensures State() == Apply(old(State()), pos, el)
      ensures log.Contents() == old(log.Contents()) + Entry(pos, el)
    {
      MoveTile(field, hand, pos, el);
      log.PushMove(el, pos);
    }

    /**
     * The loop of `recursive_mode_aux` over the hand, on the board the move left:
     * returns the score of `SearchLoop` from slot 0 and leaves its board and log.
     * `bound` is the measure of the calling search.
     */
    method HandLoop(ghost bound: nat) returns (score: int)
      requires Valid() && field.size > 0 && 2 * hand.size + 1 <= bound
      modifies field, field.data, hand, hand.data, log, log.data
      ensures Valid()
      ensures field.data == old(field.data) || fresh(field.data)
      ensures hand.data == old(hand.data) || fresh(hand.data)
      ensures log.data == old(log.data) || fresh(log.data)
      ensures Outcome(score, State(), log.Contents()) == SearchLoop(old(State()), old(log.Contents()), 0, 0, stale)
      decreases bound, 0, 1
    {
      ghost var target := SearchLoop(State(), log.Contents(), 0, 0, stale);
      var maxPoints := 0;
      var i := 0;
      while i < hand.size
        invariant Valid() && field.size > 0 && 2 * hand.size + 1 <= bound
        invariant field.data == old(field.data) || fresh(field.data)
        invariant hand.data == old(hand.data) || fresh(hand.data)
        invariant log.data == old(log.data) || fresh(log.data)
        invariant SearchLoop(State(), log.Contents(), i, maxPoints, stale) == target
        decreases hand.size - i
      {
        maxPoints := Iterate(i, bound);
        i := i + 1;
      }
      score := maxPoints;
    }

    /**
     * One iteration of the loop in `recursive_mode_aux`: the right end with the
     * tile in hand slot `i`, then the left end with whatever that slot holds
     * afterwards. `bound` is the measure of the calling search.
     */
    method Iterate(i: nat, ghost bound: nat) returns (maxPoints: int)
      requires Valid() && field.size > 0 && i < hand.size && 2 * hand.size + 1 <= bound
      modifies field, field.data, hand, hand.data, log, log.data
      ensures Valid() && field.size > 0 && hand.size <= old(hand.size)
      ensures field.data == old(field.data) || fresh(field.data)
      ensures hand.data == old(hand.data) || fresh(hand.data)
      ensures log.data == old(log.data) || fresh(log.data)
      ensures Outcome(maxPoints, State(), log.Contents()) == Iteration(old(State()), old(log.Contents()), i, stale)
      decreases bound, 0, 0
    {
      ghost var b, l := State(), log.Contents();
      assert hand.data[i] == b.hand[i];
      var right := RecursiveModeAux('R', hand.data[i]);
      ghost var r := Search(b, l, 'R', b.hand[i], stale);
      assert r.board == State() && r.log == log.Contents();
      assert hand.Contents() == r.board.hand;
      var t := stale;
      if i < hand.size {
        t := hand.data[i];
        assert t == hand.Contents()[i];
      }
      var left := RecursiveModeAux('L', t);
      maxPoints := if right > left then right else left;
    }

    /** One start tile of `recursive_mode`: a fresh log, then the search from hand slot `i` with 'S'. */
    method SearchFrom(i: nat) returns (score: int)
      requires Valid() && i < hand.size
      modifies this, field, field.data, hand, hand.data
      ensures Valid() && fresh(log) && fresh(log.data)
      ensures field.data == old(field.data) || fresh(field.data)
      ensures hand.data == old(hand.data) || fresh(hand.data)
      ensures Outcome(score, State(), log.Contents()) == Search(old(State()), [], 'S', old(State()).hand[i], stale)
    {
      log := new MoveLog();
      assert hand.data[i] in State().hand;
      score := RecursiveModeAux('S', hand.data[i]);
    }

    /** `recursive_mode`'s reset of the field and hand from the copies it took at the start. */
    method Restore(memField: Vector, memHand: Vector)
      requires Valid() && memField.Valid() && memHand.Valid()
      requires Apart(memField, field) && Apart(memHand, hand) && Apart(memField, hand) && Apart(memHand, field)
      modifies field, field.data, hand, hand.data
      ensures Valid() && State() == Board(memField.Contents(), memHand.Contents())
      ensures field.data == old(field.data) || fresh(field.data)
      ensures hand.data == old(hand.data) || fresh(hand.data)
    {
      field.CopyFrom(memField);
      hand.CopyFrom(memHand);
    }

    /** The shared field and hand and the copies `recursive_mode` took of them are well formed and share no storage. */
    ghost predicate Separate(memField: Vector, memHand: Vector)
      reads this, field, hand, log, memField, memHand
    {
      && Valid() && memField.Valid() && memHand.Valid() && Apart(memField, memHand)
      && Apart(field, memField) && Apart(field, memHand) && Apart(hand, memField) && Apart(hand, memHand)
    }

    /**
     * One iteration of `recursive_mode`'s loop: the search from start tile `i`, the
     * outcome it leaves when it beats `best`, and the reset of the field and hand.
     */
    method TryStart(i: nat, memField: Vector, memHand: Vector, best: Outcome) returns (newBest: Outcome)
      requires Separate(memField, memHand) && i < hand.size
      requires State() == Board(memField.Contents(), memHand.Contents())
      modifies this, field, field.data, hand, hand.data
      ensures Separate(memField, memHand) && State() == old(State())
      ensures field.data == old(field.data) || fresh(field.data)
      ensures hand.data == old(hand.data) || fresh(hand.data)
      ensures var o := Search(old(State()), [], 'S', old(State()).hand[i], stale);
        newBest == if best.score < o.score then o else best
    {
      newBest := best;
      var thisMax := SearchFrom(i);
      if best.score < thisMax {
        newBest := Outcome(thisMax, Board(field.Contents(), hand.Contents()), log.Contents());
      }
      Restore(memField, memHand);
    }

    /**
     * `recursive_mode`: searches from every start tile of the hand with a fresh
     * log, keeps the first strictly best outcome, and restores the field and hand
     * after each start tile.
     */
    method RecursiveMode() returns (best: Outcome)
      requires Valid()
      modifies this, field, field.data, hand, hand.data
      ensures Valid() && State() == old(State())
      ensures best == Solve(old(State()), stale)
    {
      ghost var b := State();
      var memField := field.Clone();
      var memHand := hand.Clone();
      best := NoOutcome;
      var i := 0;
      while i < hand.size
        invariant Separate(memField, memHand)
        invariant State() == b && i <= |b.hand|
        invariant memField.Contents() == b.field && memHand.Contents() == b.hand
        invariant field.data == old(field.data) || fresh(field.data)
        invariant hand.data == old(hand.data) || fresh(hand.data)
        invariant SolveFrom(b, i, best, stale) == Solve(b, stale)
      {
        best := TryStart(i, memField, memHand, best);
        i := i + 1;
      }
    }
  }
}
