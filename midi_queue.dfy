/**
 * The circular buffer `Queue` of tulip/shared/py/midi.py. A queue built for
 * `m` items keeps `m + 1` cells, one of which is always spare, so that
 * `head == tail` means empty. `put` on a full queue drops the oldest item,
 * `get` takes the oldest, and `remove` deletes the first occurrence of a
 * value and closes the gap.
 */
module MidiQueue {
  import opened Wrappers

  /** `_next`: the cell after `p`, wrapping from the last cell to the first. */
  function Next(p: nat, size: nat): (r: nat)
    requires p < size
    ensures r < size
    ensures p + 1 < size ==> r == p + 1
    ensures p + 1 == size ==> r == 0
  {
    (p + 1) % size
  }

  /** `_prev`: the cell before `p`, wrapping from the first cell to the last. */
  function Prev(p: nat, size: nat): (r: nat)
    requires p < size
    ensures r < size && Next(r, size) == p
  {
    (p + size - 1) % size
  }

  /** `_prev` undoes `_next`. */
  lemma PrevNext(p: nat, size: nat)
    requires p < size
    ensures Prev(Next(p, size), size) == p
  {
    var q := Next(p, size);
    assert Next(Prev(q, size), size) == q;
  }

  /** A value below twice the ring size wraps at most once. */
  lemma WrapOnce(x: nat, size: nat)
    requires 0 < size && x < 2 * size
    ensures x % size == if x < size then x else x - size
  {
    if x >= size {
      assert x == size + (x - size);
      assert (x - size) % size == x - size;
    }
  }

  /** The cell holding the item `k` places after the head. */
  function Cell(head: nat, k: nat, size: nat): (r: nat)
    requires head < size && k < size
    ensures r < size
  {
    if head + k < size then head + k else head + k - size
  }

  /** Walking one more place from the head is one `_next`. */
  lemma CellNext(head: nat, k: nat, size: nat)
    requires head < size && k + 1 < size
    ensures Cell(head, k + 1, size) == Next(Cell(head, k, size), size)
  {
  }

  /** The number of items between `head` and `tail`. */
  function Count(head: nat, tail: nat, size: nat): (r: nat)
    requires head < size && tail < size
    ensures r < size
    ensures r == 0 <==> head == tail
    ensures Cell(head, r, size) == tail
  {
    if tail >= head then tail - head else tail + size - head
  }

  /** The cells from `head` on, `n` of them, read around the ring. */
  function Window<T>(cells: seq<T>, head: nat, n: nat): (r: seq<T>)
    requires head < |cells| && n <= |cells|
    ensures |r| == n
    ensures forall k :: 0 <= k < n ==> r[k] == cells[Cell(head, k, |cells|)]
  {
    seq(n, k requires 0 <= k < n => cells[Cell(head, k, |cells|)])
  }

  /** Writing the cell just past a window and widening it by one appends the item. */
  lemma WindowPut<T>(cells: seq<T>, head: nat, n: nat, item: T)
    requires head < |cells| && n < |cells|
    ensures Window(cells[Cell(head, n, |cells|) := item], head, n + 1) == Window(cells, head, n) + [item]
  {
  }

  /** Moving the head on by one cell drops the first item of the window. */
  lemma WindowShift<T>(cells: seq<T>, head: nat, n: nat)
    requires head < |cells| && 0 < n <= |cells|
    ensures Window(cells, Next(head, |cells|), n - 1) == Window(cells, head, n)[1..]
  {
    var h1 := Next(head, |cells|);
    forall k | 0 <= k < n - 1 ensures Cell(h1, k, |cells|) == Cell(head, k + 1, |cells|) {
    }
  }

  /**
   * Deleting the `k`-th of `n` items when its cell lies before the tail
   * cell: the cells from it up to the tail take their successor's value, and
   * the window shrinks by one.
   */
  lemma CloseBack<T>(buf: seq<T>, after: seq<T>, head: nat, n: nat, k: nat)
    requires head < |buf| && n < |buf| && k < n && |after| == |buf|
    requires Cell(head, k, |buf|) < Cell(head, n, |buf|)
    requires forall i :: Cell(head, k, |buf|) <= i < Cell(head, n, |buf|) - 1 ==> after[i] == buf[i + 1]
    requires forall i :: 0 <= i < |buf| && !(Cell(head, k, |buf|) <= i < Cell(head, n, |buf|) - 1) ==> after[i] == buf[i]
    ensures Window(after, head, n - 1) == Window(buf, head, n)[..k] + Window(buf, head, n)[k + 1..]
  {
    var w, c := Window(buf, head, n), Window(after, head, n - 1);
    forall j | 0 <= j < n - 1 ensures c[j] == (w[..k] + w[k + 1..])[j] {
      if j >= k {
        assert Cell(head, j, |buf|) + 1 == Cell(head, j + 1, |buf|);
      }
    }
  }

  /**
   * Deleting the `k`-th of `n` items when its cell lies after the tail cell:
   * the cells from the head up to it take their predecessor's value, and the
   * window starts one cell later.
   */
  lemma CloseFront<T>(buf: seq<T>, after: seq<T>, head: nat, n: nat, k: nat)
    requires head < |buf| && n < |buf| && k < n && |after| == |buf|
    requires Cell(head, k, |buf|) > Cell(head, n, |buf|)
    requires forall i :: head + 1 <= i < Cell(head, k, |buf|) + 1 ==> after[i] == buf[i - 1]
    requires forall i :: 0 <= i < |buf| && !(head + 1 <= i < Cell(head, k, |buf|) + 1) ==> after[i] == buf[i]
    ensures Window(after, Next(head, |buf|), n - 1) == Window(buf, head, n)[..k] + Window(buf, head, n)[k + 1..]
  {
    var h1 := Next(head, |buf|);
    var w, c := Window(buf, head, n), Window(after, h1, n - 1);
    forall j | 0 <= j < n - 1 ensures c[j] == (w[..k] + w[k + 1..])[j] {
      if j < k {
        assert Cell(h1, j, |buf|) == Cell(head, j, |buf|) + 1;
      } else {
        assert Cell(h1, j, |buf|) == Cell(head, j + 1, |buf|);
      }
    }
  }

  /** The last `n` items of `s` (all of them if there are fewer). */
  function LastN<T>(s: seq<T>, n: nat): (r: seq<T>)
    ensures |r| == if |s| <= n then |s| else n
    ensures r == s[|s| - |r|..]
  {
    if |s| <= n then s else s[|s| - n..]
  }

  /**
   * Since `put` keeps the last `m` items, a queue of capacity `m` always
   * holds the last `m` items ever put: putting into the last `m` items of a
   * history gives the last `m` items of the longer history.
   */
  lemma LastNPut<T>(h: seq<T>, x: T, n: nat)
    ensures LastN(LastN(h, n) + [x], n) == LastN(h + [x], n)
  {
    var l := LastN(h, n);
    if |h| > n {
      assert l + [x] == (h + [x])[|h| - n..];
      assert (h + [x])[|h| - n..][1..] == (h + [x])[|h| + 1 - n..];
    }
  }

  /** `s` without its first occurrence of `v`; `s` itself if `v` does not occur. */
  function RemoveFirst<T(==)>(s: seq<T>, v: T): (r: seq<T>)
    ensures v in s ==> |r| == |s| - 1
    ensures v !in s ==> r == s
  {
    if s == [] then []
    else if s[0] == v then s[1..]
    else [s[0]] + RemoveFirst(s[1..], v)
  }

  /** Removing the first occurrence at index `i` closes the gap there. */
  lemma {:induction false} RemoveFirstAt<T>(s: seq<T>, v: T, i: nat)
    requires i < |s| && s[i] == v
    requires forall k :: 0 <= k < i ==> s[k] != v
    ensures RemoveFirst(s, v) == s[..i] + s[i + 1..]
  {
    if i > 0 {
      RemoveFirstAt(s[1..], v, i - 1);
      assert s[1..][..i - 1] == s[1..i];
      assert s[1..][i..] == s[i + 1..];
      assert [s[0]] + s[1..i] == s[..i];
    }
  }

  /** `remove` takes out one copy of `v` and keeps every other item. */
  lemma {:induction false} RemoveFirstMultiset<T>(s: seq<T>, v: T)
    ensures multiset(RemoveFirst(s, v)) == multiset(s) - multiset{v}
  {
    if s != [] {
      assert s == [s[0]] + s[1..];
      if s[0] != v {
        RemoveFirstMultiset(s[1..], v);
      }
    }
  }

  class Queue<T(0,==)> {
    /** `maxsize`: one more than the capacity the queue was built with. */
    const maxsize: nat
    /** The list `queue` of `maxsize` cells. */
    const cells: array<T>
    var head: nat
    var tail: nat

    ghost predicate Valid()
      reads this
    {
      maxsize >= 1 && cells.Length == maxsize && head < maxsize && tail < maxsize
    }

    /** The number of items the queue keeps before it starts dropping. */
    function Capacity(): nat
      reads this
    {
      if maxsize == 0 then 0 else maxsize - 1
    }

    /** The items from oldest to newest. */
    ghost function Contents(): (r: seq<T>)
      reads this, cells
      requires Valid()
      ensures |r| <= Capacity()
    {
      Window(cells[..], head, Count(head, tail, maxsize))
    }

    /** `Queue(m)`: an empty queue of capacity `m`. */
    constructor (m: nat)
      ensures Valid() && fresh(cells) && Capacity() == m && Contents() == []
    {
      maxsize := m + 1;
      cells := new T[m + 1];
      head, tail := 0, 0;
    }

    /** `qsize`: the number of items, at most the capacity. */
    method Size() returns (n: nat)
      requires Valid()
      ensures n == |Contents()| && n <= Capacity()
    {
      n := (tail - head + maxsize) % maxsize;
      WrapOnce(tail - head + maxsize, maxsize);
    }

    /** `empty`: the head has caught up with the tail. */
    method Empty() returns (b: bool)
      requires Valid()
      ensures b <==> Contents() == []
    {
      b := head == tail;
    }

    /** `full`: the spare cell is the one just after the tail. */
    method Full() returns (b: bool)
      requires Valid()
      ensures b <==> |Contents()| == Capacity()
    {
      b := head == Next(tail, maxsize);
    }

    /**
     * `put`: the item goes in at the tail; if the queue was full, the oldest
     * item is dropped, so the queue holds the last `Capacity()` items.
     */
    method Put(item: T)
      requires Valid()
      modifies this`head, this`tail, cells
      ensures Valid()
      ensures Contents() == LastN(old(Contents()) + [item], Capacity())
    {
      ghost var c0, h0, buf0 := Contents(), head, cells[..];
      ghost var n0 := |c0|;
      cells[tail] := item;
      assert cells[..] == buf0[Cell(h0, n0, maxsize) := item];
      WindowPut(buf0, h0, n0, item);
      tail := Next(tail, maxsize);
      if tail == head {
        // the queue was full: the oldest item goes
        assert n0 == Capacity();
        head := Next(head, maxsize);
        WindowShift(cells[..], h0, n0 + 1);
        assert Count(head, tail, maxsize) == n0;
        assert Contents() == (c0 + [item])[1..];
      } else {
        assert Count(head, tail, maxsize) == n0 + 1;
        assert Contents() == c0 + [item];
      }
    }

    /** `get`: removes and returns the oldest item; `None` for the ValueError on an empty queue. */
    method Get() returns (r: Option<T>)
      requires Valid()
      modifies this`head
      ensures Valid()
      ensures old(Contents()) == [] ==> r == None && Contents() == old(Contents())
      ensures old(Contents()) != [] ==> r == Some(old(Contents())[0]) && Contents() == old(Contents())[1..]
    {
      if head == tail {
        return None;
      }
      r := Some(cells[head]);
      WindowShift(cells[..], head, Count(head, tail, maxsize));
      head := Next(head, maxsize);
    }

    /**
     * `_delete_at`: removes the `k`-th item, held in cell `pointer`, and
     * closes the gap: when the cell lies before the tail the items after it
     * move back one cell and the tail retreats; otherwise the items before it
     * move forward one cell and the head advances. The tail cell holds no item,
     * so the source's "pointer at tail" error cannot arise here.
     */
    method DeleteAt(pointer: nat, ghost k: nat)
      requires Valid() && k < |Contents()| && pointer == Cell(head, k, maxsize)
      modifies this`head, this`tail, cells
      ensures Valid()
      ensures Contents() == old(Contents())[..k] + old(Contents())[k + 1..]
    {
      ghost var n, buf := |Contents()|, cells[..];
      if tail > pointer {
        forall i | pointer <= i < tail - 1 {
          cells[i] := cells[i + 1];
        }
        CloseBack(buf, cells[..], head, n, k);
        tail := Prev(tail, maxsize);
        assert Count(head, tail, maxsize) == n - 1;
      } else {
        forall i | head + 1 <= i < pointer + 1 {
          cells[i] := cells[i - 1];
        }
        CloseFront(buf, cells[..], head, n, k);
        head := Next(head, maxsize);
        assert Count(head, tail, maxsize) == n - 1;
      }
    }

    /**
     * `remove`: scans from the head for the first cell holding `v` and
     * deletes it there. `found` is false for the ValueError raised when `v`
     * is not queued; the queue is then unchanged.
     */
    method Remove(v: T) returns (found: bool)
      requires Valid()
      modifies this`head, this`tail, cells
      ensures Valid()
      ensures found <==> v in old(Contents())
      ensures Contents() == RemoveFirst(old(Contents()), v)
    {
      ghost var c0 := Contents();
      var pointer := head;
      ghost var k: nat := 0;
      while pointer != tail
        invariant Valid() && head == old(head) && tail == old(tail) && cells[..] == old(cells[..])
        invariant k <= |c0| && pointer == Cell(head, k, maxsize)
        invariant forall j :: 0 <= j < k ==> c0[j] != v
        decreases |c0| - k
      {
        if cells[pointer] == v {
          RemoveFirstAt(c0, v, k);
          DeleteAt(pointer, k);
          return true;
        }
        CellNext(head, k, maxsize);
        pointer := Next(pointer, maxsize);
        k := k + 1;
      }
      return false;
    }
  }
}
