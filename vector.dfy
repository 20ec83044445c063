/**
 * The growable tile array `vector` (lib.c, main.c lines 18-125) that backs both the
 * hand and the field, and its capacity policy: a full vector doubles before a push,
 * and a removal halves the capacity once at most half of it is in use.
 */
module Containers {
  import opened Tiles

  /** The capacity `create_vector` and `create_m_vector` start with. */
  const InitialCapacity: nat := 4

  /** Capacity left by a push onto a vector of `size` elements: a full vector is resized to `2 * size`. */
  function GrowCapacity(size: nat, capacity: nat): (c: nat)
    requires size <= capacity
    ensures capacity <= c
    ensures c == capacity || c == 2 * size
    ensures size < capacity ==> c == capacity
    ensures size < c <==> 0 < capacity
  {
    if size == capacity then 2 * size else capacity
  }

  /**
   * Capacity left by `delete_at` as written, given the size after the removal:
   * halved whenever at most half of it is in use, down to 0.
   */
  function ShrinkCapacityAsWritten(size: nat, capacity: nat): (c: nat)
    requires size <= capacity
    ensures size <= c <= capacity
    ensures c == capacity || c == capacity / 2
  {
    if size <= capacity / 2 then capacity / 2 else capacity
  }

  /**
   * Removing the four tiles of a full four-slot vector takes its capacity through
   * 4, 2, 1 and 0; a push then resizes to `2 * 0` and has no slot to write.
   */
  lemma CapacityReachesZero()
    ensures ShrinkCapacityAsWritten(3, 4) == 4
    ensures ShrinkCapacityAsWritten(2, 4) == 2
    ensures ShrinkCapacityAsWritten(1, 2) == 1
    ensures ShrinkCapacityAsWritten(0, 1) == 0
    ensures GrowCapacity(0, ShrinkCapacityAsWritten(0, 1)) == 0
  {
  }

  /** Capacity left by `delete_at` in this model: halved as written, but never below one slot. */
  function ShrinkCapacity(size: nat, capacity: nat): (c: nat)
    requires size <= capacity
    ensures size <= c <= capacity
    ensures 0 < capacity ==> 0 < c
    ensures c == capacity || c == capacity / 2
  {
    if size <= capacity / 2 && 1 < capacity then capacity / 2 else capacity
  }

  /** After a corrected removal, the next push always finds a free slot. */
  lemma ShrinkKeepsRoom(size: nat, capacity: nat)
    requires size < capacity
    ensures size < GrowCapacity(size, ShrinkCapacity(size, capacity))
  {
  }

  /**
   * Indices `delete_at` reads as written: `data[i + 1]` for every `i` from `index`
   * while `i < size`, where `size` is the size before the removal.
   */
  function DeleteAtReadsAsWritten(index: nat, size: nat): (r: seq<nat>)
    ensures |r| == if index < size then size - index else 0
    ensures forall k :: 0 <= k < |r| ==> r[k] == index + 1 + k
    decreases size - index
  {
    if index < size then [index + 1] + DeleteAtReadsAsWritten(index + 1, size) else []
  }

  /** The last read of the as-written shift is slot `size`: past the buffer when the vector is full. */
  lemma DeleteAtReadsPastEnd(index: nat, capacity: nat)
    requires index < capacity
    ensures capacity in DeleteAtReadsAsWritten(index, capacity)
    ensures exists k :: 0 <= k < |DeleteAtReadsAsWritten(index, capacity)| && DeleteAtReadsAsWritten(index, capacity)[k] >= capacity
  {
    var r := DeleteAtReadsAsWritten(index, capacity);
    assert r[|r| - 1] == capacity;
  }

  /** Indices the corrected shift reads: `data[i + 1]` only while `i + 1 < size`. */
  function DeleteAtReads(index: nat, size: nat): (r: seq<nat>)
    ensures forall k :: 0 <= k < |r| ==> index < r[k] < size
    ensures forall k :: 0 <= k < |r| ==> r[k] == index + 1 + k
    ensures |r| == if index < size then size - index - 1 else 0
    decreases size - index
  {
    if index + 1 < size then [index + 1] + DeleteAtReads(index + 1, size) else []
  }

  /** Two vectors that share neither their header nor their buffer. */
  ghost predicate Apart(a: Vector, b: Vector)
    reads a, b
  {
    a != b && a.data != b.data
  }

  /** A dynamic array of tiles: `size` tiles in use out of a buffer of `capacity` slots. */
  class Vector {
    var data: array<Tile>
    var size: nat
    var capacity: nat

    /** The buffer has `capacity` slots, at least one, and the first `size` hold the tiles. */
    ghost predicate Valid()
      reads this
    {
      data.Length == capacity && 0 < capacity && size <= capacity
    }

    /** The tiles in use, in order. */
    function Contents(): (s: seq<Tile>)
      reads this, data
      requires Valid()
      ensures |s| == size
    {
      data[..size]
    }

    /** `create_vector`: an empty vector with four slots. */
    constructor ()
      ensures Valid() && fresh(data)
      ensures Contents() == [] && capacity == InitialCapacity
    {
      size := 0;
      capacity := InitialCapacity;
      data := new Tile[InitialCapacity];
    }

    /** `resize`: moves the tiles in use to a fresh buffer of `newCapacity` slots. */
    method Resize(newCapacity: nat)
      requires Valid()
      requires size <= newCapacity && 0 < newCapacity
      modifies this
      ensures Valid() && fresh(data)
      ensures size == old(size) && capacity == newCapacity
      ensures Contents() == old(Contents())
    {
      var newData := new Tile[newCapacity];
      var i := 0;
      while i < size
        modifies newData
        invariant 0 <= i <= size
        invariant forall k :: 0 <= k < i ==> newData[k] == data[k]
      {
        newData[i] := data[i];
        i := i + 1;
      }
      data := newData;
      capacity := newCapacity;
    }

    /** `push_back`: appends `el`, doubling a full buffer first. */
    method PushBack(el: Tile)
      requires Valid()
      modifies this, data
      ensures Valid() && (data == old(data) || fresh(data))
      ensures Contents() == old(Contents()) + [el]
      ensures capacity == GrowCapacity(old(size), old(capacity))
    {
      if size == capacity {
        Resize(size * 2);
      }
      data[size] := el;
      size := size + 1;
    }

    /** `push_front`: shifts every tile one slot up, then stores `el` in slot 0. */
    method PushFront(el: Tile)
      requires Valid()
      modifies this, data
      ensures Valid() && (data == old(data) || fresh(data))
      ensures Contents() == [el] + old(Contents())
      ensures capacity == GrowCapacity(old(size), old(capacity))
    {
      if size == capacity {
        Resize(size * 2);
      }
      ghost var s := Contents();
      var i := size;
      while i > 0
        modifies data
        invariant 0 <= i <= size < data.Length
        invariant forall k :: 0 <= k < i ==> data[k] == s[k]
        invariant forall k :: i < k <= size ==> data[k] == s[k - 1]
      {
        data[i] := data[i - 1];
        i := i - 1;
      }
      size := size + 1;
      data[0] := el;
    }

    /**
     * `delete_at`: removes the tile at `index`, shifting the later ones down, then
     * halves the capacity when at most half of it is in use. An index out of range
     * is a fatal exit in the source: here `ok` is false and nothing changes.
     * `shiftReads` lists the slots the shift reads, in order.
     */
    method DeleteAt(index: nat) returns (ok: bool, ghost shiftReads: seq<nat>)
      requires Valid()
      modifies this, data
      ensures Valid() && (data == old(data) || fresh(data))
      ensures ok == (index < old(size))
      ensures shiftReads == DeleteAtReads(index, old(size))
      ensures !ok ==> size == old(size) && capacity == old(capacity) && Contents() == old(Contents())
      ensures ok ==> Contents() == old(Contents())[..index] + old(Contents())[index + 1..]
      ensures ok ==> capacity == ShrinkCapacity(old(size) - 1, old(capacity))
    {
      if index >= size {
        return false, [];
      }
      ghost var s := Contents();
      shiftReads := [];
      var i := index;
      while i + 1 < size
        modifies data
        invariant index <= i < size
        invariant forall k :: 0 <= k < index ==> data[k] == s[k]
        invariant forall k :: index <= k < i ==> data[k] == s[k + 1]
        invariant forall k :: i < k < size ==> data[k] == s[k]
        invariant shiftReads == DeleteAtReads(index, size)[..i - index]
      {
        shiftReads := shiftReads + [i + 1];
        data[i] := data[i + 1];
        i := i + 1;
      }
      assert shiftReads == DeleteAtReads(index, size);
      size := size - 1;
      assert Contents() == s[..index] + s[index + 1..];
      if size <= capacity / 2 && 1 < capacity {
        Resize(capacity / 2);
      }
      ok := true;
    }

    /** `clone`: a new vector with the same tiles and capacity and a buffer of its own. */
    method Clone() returns (c: Vector)
      requires Valid()
      ensures fresh(c) && fresh(c.data)
      ensures c.Valid() && c.Contents() == Contents() && c.capacity == capacity
    {
      c := new Vector();
      var copy := new Tile[capacity];
      forall k | 0 <= k < size {
        copy[k] := data[k];
      }
      c.data, c.size, c.capacity := copy, size, capacity;
    }

    /**
     * `copy_vector(src, this)`: overwrites the tiles with those of `src`, first
     * resizing to `src.size` when this vector holds fewer tiles than `src`.
     */
    method CopyFrom(src: Vector)
      requires Valid() && src.Valid() && Apart(src, this)
      modifies this, data
      ensures Valid() && (data == old(data) || fresh(data))
      ensures Contents() == src.Contents()
      ensures capacity == if old(size) < src.size then src.size else old(capacity)
    {
      if size < src.size {
        Resize(src.size);
      }
      ghost var c := capacity;
      size := 0;
      var i := 0;
      while i < src.size
        invariant 0 <= i <= src.size <= c
        invariant Valid() && capacity == c && Apart(src, this)
        invariant data == old(data) || fresh(data)
        invariant Contents() == src.Contents()[..i]
      {
        assert src.Contents()[..i + 1] == src.Contents()[..i] + [src.data[i]];
        PushBack(src.data[i]);
        i := i + 1;
      }
    }
  }

  /** Mutating a clone leaves the original's tiles as they were. */
  method CloneIsIndependent(v: Vector, el: Tile)
    requires v.Valid()
    ensures v.Valid() && v.Contents() == old(v.Contents())
  {
    var c := v.Clone();
    c.PushBack(el);
    var ok, shiftReads := c.DeleteAt(0);
    c.PushFront(el);
  }
}
