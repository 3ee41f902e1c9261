/** internal/comet/ring.go: a ring of message slots with free-running uint64 counters. */
module Rings {
  import opened Basics
  import opened Bits
  import opened Protos

  type uint64 = x: int | 0 <= x < TWO64

  function Wrap(x: int): uint64 { x % TWO64 }

  /** The value of a ring: its counters and its slots. */
  datatype RingState = RingState(rp: uint64, wp: uint64, data: seq<Proto>)
  {
    function Len(): nat { Wrap(wp - rp) }

    /** The slot of a counter: the low bits selected by the mask. */
    function Slot(c: uint64): nat
      requires data != []
    {
      And(c, |data| - 1)
    }

    ghost predicate Valid() {
      (exists k: nat :: k <= 63 && |data| == Pow2(k)) && Len() <= |data|
    }

    /** The slot of the i-th counter from rp, wherever the counters wrap. */
    ghost function SlotAt(i: nat): (slot: nat)
      requires Valid()
      ensures slot < |data|
    {
      OffsetSlot(i);
      Slot(Wrap(rp + i))
    }

    lemma OffsetSlot(i: nat)
      requires Valid()
      ensures Slot(Wrap(rp + i)) == (rp + i) % |data|
    {
      var k: nat :| k <= 63 && |data| == Pow2(k);
      AndMask(Wrap(rp + i), k);
      Pow2Divides(k, rp + i);
    }

    /** Counters closer than the size have different slots. */
    lemma SlotsDiffer(i: nat, j: nat)
      requires Valid() && i < j < i + |data|
      ensures SlotAt(i) != SlotAt(j)
    {
      hide And, Wrap;
      OffsetSlot(i);
      OffsetSlot(j);
      NearbyDiffer(rp + i, rp + j, |data|);
    }

    lemma WriteSlot()
      requires Valid()
      ensures Slot(wp) == SlotAt(Len())
    {
      var d := wp - rp;
      ModUnique(rp + Len(), TWO64, if d < 0 then 1 else 0, wp);
    }

    lemma ReadSlot()
      requires Valid()
      ensures Slot(rp) == SlotAt(0)
    {
      assert Wrap(rp + 0) == rp;
    }

    /** The unread messages, oldest first. */
    ghost function Queue(): (q: seq<Proto>)
      requires Valid()
      ensures |q| == Len()
    {
      seq(Len(), i requires 0 <= i < Len() => data[SlotAt(i)])
    }

    predicate Full() { Len() >= |data| }

    predicate Empty() { rp == wp }

    /** A write through the slot pointer that Set or Get returned. */
    function Stored(slot: nat, p: Proto): RingState
      requires slot < |data|
    {
      this.(data := data[slot := p])
    }

    function ReadAdvanced(): RingState { this.(rp := Wrap(rp + 1)) }

    function WriteAdvanced(): RingState { this.(wp := Wrap(wp + 1)) }

    lemma EmptyIff()
      requires Valid()
      ensures Empty() <==> Queue() == []
    {
    }

    /** Get offers the oldest unread message; replacing it leaves the others. */
    lemma Head(p: Proto)
      requires Valid() && !Empty()
      ensures Slot(rp) < |data| && Queue() != [] && Queue()[0] == data[Slot(rp)]
      ensures Stored(Slot(rp), p).Valid() && Stored(Slot(rp), p).Queue() == [p] + Queue()[1..]
    {
      hide And;
      ReadSlot();
      var s := Stored(Slot(rp), p);
      forall j | 0 <= j < Len()
        ensures s.SlotAt(j) == SlotAt(j)
        ensures 0 < j ==> s.Queue()[j] == Queue()[j]
      {
        SameSlots(s, j);
        if 0 < j {
          SlotsDiffer(0, j);
        }
      }
    }

    lemma SameSlots(s: RingState, j: nat)
      requires Valid() && s.Valid() && s.rp == rp && |s.data| == |data|
      ensures s.SlotAt(j) == SlotAt(j)
    {
    }

    /** GetAdv after a successful Get removes the oldest message. */
    lemma Popped()
      requires Valid() && !Empty()
      ensures ReadAdvanced().Valid() && ReadAdvanced().Queue() == Queue()[1..]
    {
      hide And, Wrap;
      var s := ReadAdvanced();
      WrapAdd(wp - rp, -1);
      EmptyIff();
      WrapAdd(rp + 1, 0 - wp);
      WrapNegate(s.rp - wp, rp + 1 - wp);
      WrapSmall(Len() - 1);
      assert s.Len() == Len() - 1;
      forall j | 0 <= j < Len() - 1
        ensures s.Queue()[j] == Queue()[j + 1]
      {
        WrapAdd(rp + 1, j);
        assert rp + 1 + j == rp + (j + 1);
      }
    }

    /** Set offers a slot that holds no unread message. */
    lemma Tail(p: Proto)
      requires Valid() && !Full()
      ensures Slot(wp) < |data|
      ensures forall i :: 0 <= i < Len() ==> SlotAt(i) != Slot(wp)
      ensures Stored(Slot(wp), p).Valid() && Stored(Slot(wp), p).Queue() == Queue()
    {
      hide And;
      WriteSlot();
      var s := Stored(Slot(wp), p);
      forall i | 0 <= i < Len()
        ensures SlotAt(i) != Slot(wp) && s.Queue()[i] == Queue()[i]
      {
        SlotsDiffer(i, Len());
        SameSlots(s, i);
      }
    }

    /** SetAdv after a successful Set appends the message in the offered slot. */
    lemma Pushed()
      requires Valid() && !Full()
      ensures Slot(wp) < |data|
      ensures WriteAdvanced().Valid() && WriteAdvanced().Queue() == Queue() + [data[Slot(wp)]]
    {
      hide And;
      WriteSlot();
      SizeBound();
      var s := WriteAdvanced();
      ModUnique(s.wp - rp, TWO64, (wp - rp) / TWO64 - (if wp + 1 == TWO64 then 1 else 0), Len() + 1);
      forall i | 0 <= i < Len()
        ensures s.Queue()[i] == Queue()[i]
      {
        SameSlots(s, i);
      }
      SameSlots(s, Len());
    }

    lemma SizeBound()
      requires Valid()
      ensures |data| <= TWO63
    {
      var k: nat :| k <= 63 && |data| == Pow2(k);
      hide Pow2, RingState.Queue;
      Pow2Grows(k, 63);
      PowersOfTwo();
    }
  }

  lemma WrapAdd(x: int, y: int)
    ensures Wrap(Wrap(x) + y) == Wrap(x + y)
  {
    ModUnique(x + y, TWO64, x / TWO64 + (Wrap(x) + y) / TWO64, Wrap(Wrap(x) + y));
  }

  lemma WrapNegate(x: int, y: int)
    requires Wrap(x) == Wrap(y)
    ensures Wrap(-x) == Wrap(-y)
  {
    ModUnique(-x, TWO64, (-y) / TWO64 + y / TWO64 - x / TWO64, Wrap(-y));
  }

  lemma WrapSmall(x: int)
    requires 0 <= x < TWO64
    ensures Wrap(x) == x
  {
  }

  lemma Pow2Divides(k: nat, x: nat)
    requires k <= 63
    ensures Wrap(x) % Pow2(k) == x % Pow2(k)
  {
    hide Pow2;
    Pow2Sum(k, 64 - k);
    PowersOfTwo();
    ModOfMultiple(x, Pow2(64 - k), Pow2(k));
    assert TWO64 == Pow2(64 - k) * Pow2(k);
  }

  lemma {:induction false} Pow2Sum(a: nat, b: nat)
    ensures Pow2(a + b) == Pow2(a) * Pow2(b)
  {
    if a != 0 {
      Pow2Sum(a - 1, b);
    }
  }

  lemma ModOfMultiple(x: nat, m: nat, p: nat)
    requires 0 < m && 0 < p
    ensures x % (m * p) % p == x % p
  {
    var y := x % (m * p);
    var q := x / (m * p);
    assert x == q * (m * p) + y == (q * m) * p + y;
    assert y == (y / p) * p + y % p;
    assert x == (q * m + y / p) * p + y % p;
    ModUnique(x, p, q * m + y / p, y % p);
  }

  lemma NearbyDiffer(x: nat, y: nat, n: nat)
    requires 0 < n && x < y < x + n
    ensures x % n != y % n
  {
    var d := y / n - x / n;
    assert y - x == d * n + (y % n - x % n);
    assert d >= 1 ==> d * n >= n;
    assert d <= 0 ==> d * n <= 0;
  }

  ghost predicate LeastPow2(p: nat, n: nat) {
    IsPow2(p) && n <= p && forall q: nat :: IsPow2(q) && n <= q ==> p <= q
  }

  /** The start of init: clears low bits until one is left, then doubles, unless num was that
      power of two already. The shift drops the carry out of the 64th bit. */
  method RoundUp(num0: uint64) returns (num: uint64)
    ensures 1 <= num0 <= TWO63 ==> LeastPow2(num, num0)
    ensures num0 == 0 || TWO63 < num0 ==> num == 0
  {
    hide And, IsPow2, TopBit, Wrap, LeastPow2;
    num := num0;
    if And(num, Wrap(num - 1)) != 0 {
      AndZero(Wrap(-1));
      num := KeepTop(num);
      num := Wrap(2 * num);
    }
    if num0 == 0 {
      AndZero(Wrap(-1));
    } else {
      WrapSmall(num0 - 1);
      ClearLowest(num0);
      RoundedUp(num0);
    }
  }

  /** for num&(num-1) != 0 { num &= num - 1 } */
  method KeepTop(num0: uint64) returns (num: uint64)
    requires 0 < num0
    ensures num == TopBit(num0)
  {
    hide And, IsPow2, TopBit, Wrap;
    num := num0;
    ClearLowest(num);
    WrapSmall(num - 1);
    while And(num, Wrap(num - 1)) != 0
      invariant 0 < num <= num0 && TopBit(num) == TopBit(num0) && Wrap(num - 1) == num - 1
      decreases num
    {
      ClearLowest(num);
      num := And(num, Wrap(num - 1));
      WrapSmall(num - 1);
    }
    ClearLowest(num);
  }

  lemma AndZero(b: nat)
    ensures And(0, b) == 0
  {
  }

  lemma RoundedUp(n: nat)
    requires 0 < n < TWO64
    ensures !IsPow2(n) && n <= TWO63 ==> LeastPow2(2 * TopBit(n), n) && 2 * TopBit(n) == Wrap(2 * TopBit(n))
    ensures !IsPow2(n) && TWO63 < n ==> Wrap(2 * TopBit(n)) == 0
    ensures IsPow2(n) ==> LeastPow2(n, n) && n <= TWO63
  {
    var top := TopBit(n);
    TopBitIsPow2(n);
    Pow2Above63(top);
    DoubleIsPow2(top);
    forall q: nat | !IsPow2(n) && IsPow2(q) && n <= q
      ensures 2 * top <= q
    {
      NextPow2(top, q);
    }
  }

  lemma {:induction false} TopBitIsPow2(n: nat)
    requires 0 < n
    ensures IsPow2(TopBit(n))
  {
    if n != 1 {
      TopBitIsPow2(n / 2);
    }
  }

  lemma DoubleIsPow2(p: nat)
    requires IsPow2(p)
    ensures IsPow2(2 * p)
  {
  }

  /** The greatest power of two below 2^64 is 2^63, and the next one is 2^62. */
  lemma Pow2Above63(p: nat)
    requires IsPow2(p) && p < TWO64
    ensures p == TWO63 || 2 * p <= TWO63
  {
    IsPow2Iff(TWO63);
    PowersOfTwo();
    if TWO63 < p {
      NextPow2(TWO63, p);
    } else if p < TWO63 {
      NextPow2(p, TWO63);
    }
  }

  lemma {:induction false} Pow2Grows(a: nat, b: nat)
    requires a <= b
    ensures Pow2(a) <= Pow2(b)
    decreases b
  {
    if a < b {
      Pow2Grows(a, b - 1);
    }
  }

  /** A size that init accepts gives a valid ring. */
  lemma Pow63IsPow2()
    ensures IsPow2(TWO63)
  {
    hide IsPow2;
    PowersOfTwo();
    IsPow2Iff(TWO63);
  }

  lemma SizeIsValid(n: nat)
    requires IsPow2(n) && n <= TWO63
    ensures exists k: nat :: k <= 63 && n == Pow2(k)
  {
    var k := Exponent(n);
    PowersOfTwo();
    if 64 <= k {
      Pow2Grows(64, k);
    }
  }

  class Ring {
    var rp: uint64
    var num: uint64
    var mask: uint64
    var wp: uint64
    var data: array<Proto>

    ghost function State(): RingState
      reads this, data
    {
      RingState(rp, wp, data[..])
    }

    ghost predicate Valid()
      reads this, data
    {
      0 < num == data.Length && mask == num - 1 && State().Valid()
    }

    constructor (size: uint64)
      requires 1 <= size <= TWO63
      ensures Valid() && fresh(data)
      ensures State().Queue() == []
      ensures LeastPow2(num, size)
    {
      var n := RoundUp(size);
      num, mask := n, Wrap(n - 1);
      rp, wp := 0, 0;
      data := new Proto[n];
      new;
      hide IsPow2, Wrap, And, Pow2;
      Pow63IsPow2();
      SizeIsValid(n);
      WrapSmall(n - 1);
      WrapSmall(0);
      assert State().Len() == 0;
    }

    /** The slot of the oldest unread message, or none if there is no unread message. */
    method Get() returns (slot: Option<nat>)
      requires Valid()
      ensures slot.None? <==> State().Queue() == []
      ensures slot.Some? ==> slot.value < data.Length && data[slot.value] == State().Queue()[0]
      ensures slot.Some? ==> slot.value == State().Slot(rp)
    {
      hide And, Wrap;
      State().EmptyIff();
      if rp == wp {
        return None;
      }
      State().Head(EMPTY);
      slot := Some(And(rp, mask));
    }

    method GetAdv()
      requires Valid() && State().Queue() != []
      modifies this`rp
      ensures Valid() && State().Queue() == old(State().Queue())[1..]
    {
      hide And;
      State().EmptyIff();
      State().Popped();
      rp := Wrap(rp + 1);
    }

    /** A slot that holds no unread message, or none if every slot holds one. */
    method Set() returns (slot: Option<nat>)
      requires Valid()
      ensures slot.None? <==> |State().Queue()| == data.Length
      ensures slot.Some? ==> slot.value < data.Length && slot.value == State().Slot(wp)
      ensures slot.Some? ==> forall i :: 0 <= i < |State().Queue()| ==> State().SlotAt(i) != slot.value
    {
      hide And;
      if Wrap(wp - rp) >= num {
        return None;
      }
      State().Tail(EMPTY);
      slot := Some(And(wp, mask));
    }

    method SetAdv()
      requires Valid() && |State().Queue()| < data.Length
      modifies this`wp
      ensures Valid()
      ensures old(State()).Slot(old(wp)) < data.Length
      ensures State().Queue() == old(State().Queue()) + [data[old(State()).Slot(old(wp))]]
    {
      hide And;
      State().Pushed();
      wp := Wrap(wp + 1);
    }
  }
}
