/** The software receive ring: eight slots, one always left free. */
module RxRing {

  const RING_LEN := 8

  datatype Ring<T> = Ring(slots: seq<T>, head: nat, tail: nat) {

    predicate Valid() {
      |slots| == RING_LEN && head < RING_LEN && tail < RING_LEN
    }

    predicate Empty() {
      tail == head
    }

    predicate Full() {
      Up(head) == tail
    }

    function Count(): nat
      requires Valid()
    {
      (head + RING_LEN - tail) % RING_LEN
    }

    /** The stored items, oldest first. */
    function Contents(): (c: seq<T>)
      requires Valid()
      ensures |c| == Count()
    {
      seq(Count(), i requires 0 <= i < Count() => slots[(tail + i) % RING_LEN])
    }

    function Push(x: T): (r: Ring<T>)
      requires Valid()
      ensures r.Valid()
    {
      Ring(slots[head := x], Up(head), tail)
    }

    function Pop(): (r: Ring<T>)
      requires Valid()
      ensures r.Valid()
    {
      Ring(slots, head, Up(tail))
    }

    lemma PushContents(x: T)
      requires Valid() && !Full()
      ensures Push(x).Contents() == Contents() + [x] && !Push(x).Empty()
    {
      var r := Push(x);
      assert r.Count() == Count() + 1;
      assert (tail + Count()) % RING_LEN == head;
      forall i | 0 <= i < Count() ensures r.Contents()[i] == Contents()[i] {
        assert (tail + i) % RING_LEN != head;
      }
    }

    lemma PopContents()
      requires Valid() && !Empty()
      ensures Contents() == [slots[tail]] + Pop().Contents()
    {
      var r := Pop();
      assert r.Count() + 1 == Count();
      forall i | 0 <= i < r.Count() ensures r.Contents()[i] == Contents()[i + 1] {
        assert (Up(tail) + i) % RING_LEN == (tail + (i + 1)) % RING_LEN;
      }
    }

    /** Storing one after the other what there is room for. */
    function PushAll(xs: seq<T>): (r: Ring<T>)
      requires Valid()
      ensures r.Valid()
      decreases |xs|
    {
      if xs == [] then this else (if Full() then this else Push(xs[0])).PushAll(xs[1..])
    }

    function Room(): nat
      requires Valid()
    {
      RING_LEN - 1 - Count()
    }

    /** The oldest that fit are kept, in order, behind what is there. */
    lemma {:induction false} PushAllContents(xs: seq<T>)
      requires Valid()
      ensures PushAll(xs).Contents() == Contents() + xs[..if |xs| < Room() then |xs| else Room()]
      decreases |xs|
    {
      Capacity();
      if xs != [] {
        if Full() {
          PushAllContents(xs[1..]);
        } else {
          PushContents(xs[0]);
          Push(xs[0]).PushAllContents(xs[1..]);
          var n := if |xs| < Room() then |xs| else Room();
          assert xs[..n] == [xs[0]] + xs[1..][..n - 1];
        }
      }
    }

    /** A full ring holds seven frames. */
    lemma Capacity()
      requires Valid()
      ensures |Contents()| <= 7 && (Full() <==> |Contents()| == 7)
      ensures Empty() <==> Contents() == []
    {}
  }

  function Up(i: nat): nat {
    (i + 1) % RING_LEN
  }
}
