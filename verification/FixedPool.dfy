/** The free-list stack of gnb_fixed_pool.c. */
module FixedPool {

  class FixedPool<T(==)> {
    const nil: T // NULL
    const slots: array<T>
    var num: nat

    ghost predicate Valid()
      reads this, slots
    {
      num <= slots.Length && forall i :: num <= i < slots.Length ==> slots[i] == nil
    }

    // The blocks that can be taken, the next one last.
    ghost function Free(): seq<T>
      requires num <= slots.Length
      reads this, slots
    {
      slots[..num]
    }

    // blocks are the addresses p, p + bsize, p + 2 * bsize, ... of the memory carved up.
    constructor (nil: T, blocks: seq<T>)
      ensures Valid() && Free() == blocks && slots.Length == |blocks| && this.nil == nil
      ensures fresh(slots)
    {
      this.nil := nil;
      num := |blocks|;
      slots := new T[|blocks|](_ => nil);
      new;
      for i := 0 to |blocks|
        invariant num == |blocks| == slots.Length && slots[..i] == blocks[..i]
      {
        slots[i] := blocks[i];
      }
    }

    method Pop() returns (block: T)
      requires Valid()
      modifies this`num, slots
      ensures Valid()
      ensures old(num) == 0 ==> block == nil && Free() == old(Free())
      ensures old(num) > 0 ==> old(Free()) == Free() + [block]
    {
      if num == 0 {
        return nil;
      }
      block := slots[num - 1];
      slots[num - 1] := nil;
      num := num - 1;
    }

    // The refusal of an occupied slot never fires: slots above num hold NULL.
    method Push(block: T) returns (n: int)
      requires Valid()
      modifies this`num, slots
      ensures Valid()
      ensures old(num) == slots.Length ==> n == 0 && Free() == old(Free())
      ensures old(num) < slots.Length ==> n == num && Free() == old(Free()) + [block]
    {
      if slots.Length == num {
        return 0;
      }
      if slots[num] != nil {
        return -1;
      }
      slots[num] := block;
      num := num + 1;
      return num;
    }
  }
}
