// The body store: a fixed-capacity buffer of slots used as a ring whose size
// is the current length (not the capacity). Segment i, counted from the head,
// lives in slot (head + i) % length.

module Ring {
  import opened Types
  import opened Arith

  /** The body as a list from head to tail: the slots from the head slot to
      the end of the ring, then the slots before the head slot. */
  function View(slots: seq<Coordinate>, head: int, length: int): (body: seq<Coordinate>)
    requires 0 <= head < length <= |slots|
  {
    slots[head..length] + slots[..head]
  }

  /** GetSnakePosition reads segment i of the view from slot (head + i) % length. */
  lemma ViewAt(slots: seq<Coordinate>, head: int, length: int, i: int)
    requires 0 <= head < length <= |slots|
    requires 0 <= i
    ensures |View(slots, head, length)| == length
    ensures View(slots, head, length)[i % length] == slots[(head + i) % length]
    ensures i < length ==> i % length == i
  {
    if i < length {
      ModUnique(i, length, 0, i);
    }
    var k := i % length;
    var s := (head + i) % length;
    assert (head + i) % length == (head + k) % length by {
      assert i == length * (i / length) + k;
      assert head + i == (head + k) + length * (i / length);
      ModShift(head + k, length, i / length);
    }
    assert 0 <= k < length;
    if head + k < length {
      ModUnique(head + k, length, 0, head + k);
    } else {
      ModUnique(head + k, length, 1, head + k - length);
    }
  }

  /** The view lists exactly the slots 0 .. length - 1, in another order. */
  lemma ViewIsRotation(slots: seq<Coordinate>, head: int, length: int)
    requires 0 <= head < length <= |slots|
    ensures multiset(View(slots, head, length)) == multiset(slots[..length])
    ensures forall c :: c in View(slots, head, length) <==> c in slots[..length]
  {
    assert slots[..length] == slots[..head] + slots[head..length];
    calc {
      multiset(slots[..length]);
      multiset(slots[..head]) + multiset(slots[head..length]);
      multiset(View(slots, head, length));
    }
    forall c ensures c in View(slots, head, length) <==> c in slots[..length] {
      assert c in View(slots, head, length) <==> c in multiset(View(slots, head, length));
      assert c in slots[..length] <==> c in multiset(slots[..length]);
    }
  }

  /** The slot MoveSnake makes the new head slot: the one before the head,
      circularly within the ring. */
  function SlideHead(head: int, length: int): (previous: int)
    requires 0 <= head < length
    ensures 0 <= previous < length
    ensures previous == (head + length - 1) % length
  {
    if head != 0 then head - 1 else length - 1
  }

  /** MoveSnake: writing the new head over the slot before the head gives
      the body [newHead] followed by the old body without its last segment. */
  lemma {:induction false} SlideView(slots: seq<Coordinate>, head: int, length: int, newHead: Coordinate)
    requires 0 <= head < length <= |slots|
    ensures View(slots[SlideHead(head, length) := newHead], SlideHead(head, length), length)
         == [newHead] + View(slots, head, length)[..length - 1]
  {
    var h := SlideHead(head, length);
    var after := slots[h := newHead];
    var old_ := View(slots, head, length);
    if head == 0 {
      assert after[h..length] == [newHead];
      assert after[..h] == slots[..length - 1];
      assert old_ == slots[..length];
    } else {
      assert after[h..length] == [newHead] + slots[head..length];
      assert after[..h] == slots[..head - 1];
      assert old_[..length - 1] == slots[head..length] + slots[..head - 1];
    }
  }

  /** The slots after ExtendSnake's loop and write: slots head .. newLength - 1
      move up by one and the new head takes slot `head`; everything else is
      untouched. */
  function Shifted(slots: seq<Coordinate>, head: int, newLength: int, newHead: Coordinate): (shifted: seq<Coordinate>)
    requires 0 <= head < newLength < |slots|
    ensures |shifted| == |slots|
  {
    slots[..head] + [newHead] + slots[head..newLength] + slots[newLength + 1..]
  }

  /** Each slot of Shifted: below the head unchanged, the head slot new, the
      slots up to newLength taken from one below, the rest unchanged. */
  lemma ShiftedAt(slots: seq<Coordinate>, head: int, newLength: int, newHead: Coordinate, j: int)
    requires 0 <= head < newLength < |slots|
    requires 0 <= j < |slots|
    ensures Shifted(slots, head, newLength, newHead)[j]
         == if j < head then slots[j]
            else if j == head then newHead
            else if j <= newLength then slots[j - 1]
            else slots[j]
  {
  }

  /** ExtendSnake: with one more slot in the ring, the body is [newHead]
      followed by the whole old body. */
  lemma {:induction false} GrowView(slots: seq<Coordinate>, head: int, length: int, newHead: Coordinate)
    requires 0 <= head < length && length + 1 < |slots|
    ensures View(Shifted(slots, head, length + 1, newHead), head, length + 1)
         == [newHead] + View(slots, head, length)
  {
    var after := Shifted(slots, head, length + 1, newHead);
    assert after[head..length + 1] == [newHead] + slots[head..length] by {
      forall k | 0 <= k < length + 1 - head
        ensures after[head..length + 1][k] == ([newHead] + slots[head..length])[k]
      {
        ShiftedAt(slots, head, length + 1, newHead, head + k);
      }
    }
    assert after[..head] == slots[..head] by {
      forall k | 0 <= k < head
        ensures after[..head][k] == slots[..head][k]
      {
        ShiftedAt(slots, head, length + 1, newHead, k);
      }
    }
  }

  /** A buffer that holds the new head in the head slot, the old slots
      head .. newLength - 1 one place up, and the old values elsewhere is
      Shifted, and its ring is the grown body. */
  lemma ShiftedFrom(after: seq<Coordinate>, slots: seq<Coordinate>, head: int, newLength: int, newHead: Coordinate)
    requires 0 <= head < newLength - 1 && newLength < |slots| && |after| == |slots|
    requires after[head] == newHead
    requires forall j :: head < j <= newLength ==> after[j] == slots[j - 1]
    requires forall j :: 0 <= j < |after| && (j < head || newLength < j) ==> after[j] == slots[j]
    ensures after == Shifted(slots, head, newLength, newHead)
    ensures View(after, head, newLength) == [newHead] + View(slots, head, newLength - 1)
  {
    forall j | 0 <= j < |after|
      ensures after[j] == Shifted(slots, head, newLength, newHead)[j]
    {
      ShiftedAt(slots, head, newLength, newHead, j);
    }
    GrowView(slots, head, newLength - 1, newHead);
  }

  /** HasCollidedWithSnake compares the head slot with every other slot of
      the ring; that is the head meeting a later segment of the body. */
  lemma SelfCollision(slots: seq<Coordinate>, head: int, length: int)
    requires 0 <= head < length <= |slots|
    ensures (exists i :: 0 <= i < length && i != head && slots[i] == slots[head])
        <==> View(slots, head, length)[0] in View(slots, head, length)[1..]
  {
    var body := View(slots, head, length);
    assert body[0] == slots[head];
    assert body[1..] == slots[head + 1..length] + slots[..head];
    if exists i :: 0 <= i < length && i != head && slots[i] == slots[head] {
      var i :| 0 <= i < length && i != head && slots[i] == slots[head];
      if i < head {
        assert body[1..][length - head - 1 + i] == slots[i];
      } else {
        assert body[1..][i - head - 1] == slots[i];
      }
    }
    if body[0] in body[1..] {
      var k :| 0 <= k < |body[1..]| && body[1..][k] == body[0];
      if k < length - head - 1 {
        assert slots[head + 1 + k] == slots[head];
      } else {
        assert slots[k - (length - head - 1)] == slots[head];
      }
    }
  }
}
