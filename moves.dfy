/**
 * The move log `m_vector` (lib.c, main.c lines 132-200): a growable array of C
 * `char`s holding three bytes per move (the end, then each tile value plus '0'),
 * and the table `print_moves` uses to turn those bytes back into text.
 */
module Moves {
  import opened Tiles
  import opened Containers

  /** The byte `push_back_m_vector` stores for a tile value: `value + '0'`, wrapped to eight bits. */
  function Encode(value: int): (c: char)
    ensures 0 <= c as int < 256
    ensures 0 <= value < 208 ==> c as int == value + '0' as int
  {
    ((value + '0' as int) % 256) as char
  }

  /** The three log bytes of one move: the end, then both tile values. */
  function Entry(pos: char, el: Tile): (e: seq<char>)
    ensures |e| == 3 && e[0] == pos
    ensures e[1] == Encode(el.left) && e[2] == Encode(el.right)
  {
    [pos, Encode(el.left), Encode(el.right)]
  }

  /** The text `print_moves` writes for one log byte: 59, 60 and 69 stand for 11, 12 and 21. */
  function Render(c: char): (text: string)
    ensures 1 <= |text| <= 2
    ensures |text| == 1 <==> c as int != 59 && c as int != 60 && c as int != 69
    ensures |text| == 1 ==> text == [c]
    ensures |text| == 2 ==> '1' <= text[0] <= '2' && '1' <= text[1] <= '2'
  {
    if c as int == 59 then "11"
    else if c as int == 60 then "12"
    else if c as int == 69 then "21"
    else [c]
  }

  /** The text `print_moves` writes for a whole log: each byte's text followed by a space. */
  function RenderMoves(log: seq<char>): (text: string)
    ensures |log| <= |text| / 2
  {
    if |log| == 0 then "" else Render(log[0]) + " " + RenderMoves(log[1..])
  }

  /** Decimal text of a value below 100. */
  function Decimal(value: nat): (text: string)
    requires value < 100
    ensures |text| == if value < 10 then 1 else 2
  {
    if value < 10 then [('0' as int + value) as char]
    else [('0' as int + value / 10) as char, ('0' as int + value % 10) as char]
  }

  /** The tile values the game uses: 0 to 9 and the halves of the special tiles. */
  predicate IsLoggedValue(value: int)
  {
    0 <= value <= 9 || value == 11 || value == 12 || value == 21
  }

  /** Every value the game uses is rendered back as its own decimal text. */
  lemma RenderEncode(value: int)
    requires IsLoggedValue(value)
    ensures Render(Encode(value)) == Decimal(value)
  {
  }

  /** The three ends render as themselves, and no value the game uses renders as an end. */
  lemma RenderEnd(pos: char, value: int)
    requires IsEnd(pos) && IsLoggedValue(value)
    ensures Render(pos) == [pos]
    ensures Render(Encode(value)) != [pos]
  {
  }

  /** Rendering a log is rendering its parts one after the other. */
  lemma {:induction false} RenderMovesAppend(a: seq<char>, b: seq<char>)
    ensures RenderMoves(a + b) == RenderMoves(a) + RenderMoves(b)
    decreases |a|
  {
    if |a| == 0 {
      assert a + b == b;
    } else {
      assert (a + b)[1..] == a[1..] + b;
      RenderMovesAppend(a[1..], b);
    }
  }

  /** The text of three log bytes: each byte's text followed by a space. */
  lemma RenderThree(x: char, y: char, z: char)
    ensures RenderMoves([x, y, z]) == Render(x) + " " + Render(y) + " " + Render(z) + " "
  {
    assert RenderMoves([z]) == Render(z) + " " by {
      assert [z][1..] == [];
    }
    assert RenderMoves([y, z]) == Render(y) + " " + Render(z) + " " by {
      assert [y, z][1..] == [z];
    }
    assert [x, y, z][1..] == [y, z];
  }

  /** Logging a move appends exactly the end, the left value and the right value to the text. */
  lemma RenderEntry(log: seq<char>, pos: char, el: Tile)
    requires IsEnd(pos) && IsLoggedValue(el.left) && IsLoggedValue(el.right)
    ensures RenderMoves(log + Entry(pos, el))
         == RenderMoves(log) + ([pos] + " " + Decimal(el.left) + " " + Decimal(el.right) + " ")
  {
    var a, b := Encode(el.left), Encode(el.right);
    RenderMovesAppend(log, [pos, a, b]);
    RenderThree(pos, a, b);
    RenderEncode(el.left);
    RenderEncode(el.right);
    RenderEnd(pos, el.left);
    assert RenderMoves([pos, a, b]) == [pos] + " " + Decimal(el.left) + " " + Decimal(el.right) + " ";
  }

  /** A dynamic array of log bytes: `size` bytes in use out of a buffer of `capacity`. */
  class MoveLog {
    var data: array<char>
    var size: nat
    var capacity: nat

    /** The buffer has `capacity` slots, at least one, and the first `size` hold the log. */
    ghost predicate Valid()
      reads this
    {
      data.Length == capacity && 0 < capacity && size <= capacity
    }

    /** The bytes logged so far, in order. */
    function Contents(): (s: seq<char>)
      reads this, data
      requires Valid()
      ensures |s| == size
    {
      data[..size]
    }

    /** `create_m_vector`: an empty log with four slots. */
    constructor ()
      ensures Valid() && fresh(data)
      ensures Contents() == [] && capacity == InitialCapacity
    {
      size := 0;
      capacity := InitialCapacity;
      data := new char[InitialCapacity];
    }

    /** `resize_m_vector`: moves the bytes in use to a fresh buffer of `newCapacity` slots. */
    method Resize(newCapacity: nat)
      requires Valid()
      requires size <= newCapacity && 0 < newCapacity
      modifies this
      ensures Valid() && fresh(data)
      ensures size == old(size) && capacity == newCapacity
      ensures Contents() == old(Contents())
    {
      var newData := new char[newCapacity];
      var i := 0;
      while i < size
        modifies newData
        invariant 0 <= i <= size
        invariant forall k :: 0 <= k < i ==> newData[k] == data[k]
      {
        newData[i] := data[i];
        i := i + 1;
      }
      data := newData;
      capacity := newCapacity;
    }

    /** `_push_back_m_vector`: appends one byte, doubling a full buffer first. */
    method Push(c: char)
      requires Valid()
      modifies this, data
      ensures Valid() && (data == old(data) || fresh(data))
      ensures Contents() == old(Contents()) + [c]
      ensures capacity == GrowCapacity(old(size), old(capacity))
    {
      if size == capacity {
        Resize(size * 2);
      }
      data[size] := c;
      size := size + 1;
    }

    /** `push_back_m_vector`: logs the move of `el` to end `pos` as three bytes. */
    method PushMove(el: Tile, pos: char)
      requires Valid()
      modifies this, data
      ensures Valid() && (data == old(data) || fresh(data))
      ensures Contents() == old(Contents()) + Entry(pos, el)
    {
      Push(pos);
      Push(Encode(el.left));
      Push(Encode(el.right));
    }

    /**
     * `copy_m_vector(src, this)`: overwrites the log with `src`'s, first resizing
     * to `src.size` when this log holds fewer bytes than `src`.
     */
    method CopyFrom(src: MoveLog)
      requires Valid() && src.Valid() && src != this && src.data != data
      modifies this, data
      ensures Valid() && (data == old(data) || fresh(data))
      ensures Contents() == src.Contents()
      ensures capacity == if old(size) < src.size then src.size else old(capacity)
    {
      if size < src.size {
        Resize(src.size);
      }
      ghost var c := capacity;
      size := 0;
      var i := 0;
      while i < src.size
        invariant 0 <= i <= src.size <= c
        invariant Valid() && capacity == c && src.data != data
        invariant data == old(data) || fresh(data)
        invariant Contents() == src.Contents()[..i]
      {
        assert src.Contents()[..i + 1] == src.Contents()[..i] + [src.data[i]];
        Push(src.data[i]);
        i := i + 1;
      }
    }
  }
}
