/**
 The daily-affirmation carousel: an index into a fixed list of twelve
 affirmations, stepped forwards and backwards with wrap-around, and a row of
 dots of which the one at the current index is highlighted.
 */
module Affirmations {

  /** The number of affirmations in the list. */
  const Count: nat := 12

  /** The carousel opens on the first affirmation. */
  const InitialIndex: int := 0

  predicate InRange(i: int) {
    0 <= i < Count
  }

  /** The carousel opens on a real affirmation, with its dot highlighted. */
  lemma InitialIndexValid()
    ensures InRange(InitialIndex)
    ensures ActiveDots(InitialIndex) == {InitialIndex}
  {
  }

  /** The "next" button: one step forward, modulo the number of affirmations. */
  function Next(i: int): (r: int)
    requires InRange(i)
    ensures InRange(r)
    ensures i < Count - 1 ==> r == i + 1
    ensures i == Count - 1 ==> r == 0
  {
    (i + 1) % Count
  }

  /** The "previous" button: one step back, computed by adding the length
      before taking the remainder. The dividend is never negative, so
      JavaScript's `%` and Dafny's agree here. */
  function Previous(i: int): (r: int)
    requires InRange(i)
    ensures InRange(r)
    ensures 0 < i ==> r == i - 1
    ensures i == 0 ==> r == Count - 1
  {
    (i - 1 + Count) % Count
  }

  /** The two buttons undo each other. */
  lemma PreviousUndoesNext(i: int)
    requires InRange(i)
    ensures Previous(Next(i)) == i
    ensures Next(Previous(i)) == i
  {
  }

  /** The index after pressing "next" `k` times. */
  function Forward(i: int, k: nat): (r: int)
    requires InRange(i)
    ensures InRange(r)
  {
    if k == 0 then i else Next(Forward(i, k - 1))
  }

  /** The index after pressing "previous" `k` times. */
  function Backward(i: int, k: nat): (r: int)
    requires InRange(i)
    ensures InRange(r)
  {
    if k == 0 then i else Previous(Backward(i, k - 1))
  }

  /** One "next" press on a remainder is the remainder of the successor. */
  lemma NextOfRemainder(x: int)
    ensures Next(x % Count) == (x + 1) % Count
  {
    var q, r := x / Count, x % Count;
    assert x == q * Count + r;
    if r == Count - 1 {
      assert x + 1 == (q + 1) * Count;
    } else {
      assert x + 1 == q * Count + (r + 1);
    }
  }

  /** One "previous" press on a remainder is the remainder of the predecessor. */
  lemma PreviousOfRemainder(x: int)
    ensures Previous(x % Count) == (x - 1) % Count
  {
    var q, r := x / Count, x % Count;
    assert x == q * Count + r;
    if r == 0 {
      assert x - 1 == (q - 1) * Count + (Count - 1);
    } else {
      assert x - 1 == q * Count + (r - 1);
    }
  }

  /** Pressing "next" `k` times advances the index by `k` modulo the list length. */
  lemma {:induction false} ForwardIsAddition(i: int, k: nat)
    requires InRange(i)
    ensures Forward(i, k) == (i + k) % Count
  {
    if k > 0 {
      ForwardIsAddition(i, k - 1);
      NextOfRemainder(i + k - 1);
    }
  }

  /** Pressing "previous" `k` times moves the index back by `k` modulo the list
      length (Dafny's `%` never returns a negative number). */
  lemma {:induction false} BackwardIsSubtraction(i: int, k: nat)
    requires InRange(i)
    ensures Backward(i, k) == (i - k) % Count
  {
    if k > 0 {
      BackwardIsSubtraction(i, k - 1);
      PreviousOfRemainder(i - k + 1);
    }
  }

  /** A full round of "next" presses comes back to the same affirmation. */
  lemma ForwardFullCycle(i: int)
    requires InRange(i)
    ensures Forward(i, Count) == i
  {
    ForwardIsAddition(i, Count);
  }

  /** A full round of "previous" presses comes back to the same affirmation. */
  lemma BackwardFullCycle(i: int)
    requires InRange(i)
    ensures Backward(i, Count) == i
  {
    BackwardIsSubtraction(i, Count);
  }

  /** The dots that are drawn highlighted: a dot is highlighted when its
      position is the current index, so exactly one is, the current one. */
  function ActiveDots(current: int): (r: set<int>)
    ensures InRange(current) ==> r == {current}
    ensures !InRange(current) ==> r == {}
  {
    set k | InRange(k) && k == current
  }
}
