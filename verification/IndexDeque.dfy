/** The queue of `qbase/src/util/index_deque.rs`: an element keeps the index it was enqueued at. */
module IndexDeques {
  import opened Prelude

  datatype IndexDeque<+T> = IndexDeque(offset: nat, items: seq<T>) {

    /** The index the next element will get. */
    function Largest(): nat { offset + |items| }

    predicate Contains(index: nat) { offset <= index < Largest() }

    function At(index: nat): T
      requires Contains(index)
    {
      items[index - offset]
    }

    function Get(index: nat): Option<T> {
      if Contains(index) then Some(At(index)) else None
    }

    /** The caller unwraps the result, so it must stay within the index limit. */
    function PushBack(value: T): IndexDeque<T>
      requires Largest() <= VARINT_MAX
    {
      IndexDeque(offset, items + [value])
    }

    function PopFront(): IndexDeque<T>
      requires items != []
    {
      IndexDeque(offset + 1, items[1..])
    }

    function Advance(n: nat): IndexDeque<T>
      requires n <= |items|
    {
      IndexDeque(offset + n, items[n..])
    }

    /** Removes every element below `end`; an `end` outside the queue is clamped. */
    function DrainTo(end: nat): (r: IndexDeque<T>)
      ensures r.offset == Max(offset, Min(end, Largest()))
      ensures r.Largest() == Largest()
      ensures forall k: nat :: r.Get(k) == if k < r.offset then None else Get(k)
    {
      var stop := Min(Max(end, offset), Largest());
      IndexDeque(stop, items[stop - offset..])
    }

    function ResetOffset(newOffset: nat): IndexDeque<T> {
      IndexDeque(newOffset, items)
    }

    /** Stores `value` at `index`, padding the gap up to it with `pad`. */
    function Insert(index: nat, value: T, pad: T): (r: IndexDeque<T>)
      requires offset <= index <= VARINT_MAX
      ensures r.offset == offset && r.Largest() == Max(Largest(), index + 1)
      ensures forall k: nat ::
                r.Get(k) == if k == index then Some(value)
                            else if Largest() <= k < index then Some(pad)
                            else Get(k)
    {
      var position := index - offset;
      if position < |items| then
        IndexDeque(offset, items[position := value])
      else
        IndexDeque(offset, items + seq(position - |items|, _ => pad) + [value])
    }
  }
}
