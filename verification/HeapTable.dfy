/** The fragment table of gnb_alloc.c: every live fragment knows the slot that names it. */
module HeapTable {
  import opened Sequences

  type uint32 = n: nat | n < 0x1_0000_0000

  const MAX_BLOCK: uint32 := 1024 * 1024 * 1024 - 1

  // A pointer to the block stands for its fragment: the block starts at a fixed offset.
  class Fragment {
    var idx: uint32
    const block: array<bv8>

    constructor (idx: uint32, size: uint32)
      ensures this.idx == idx && block.Length == size && fresh(block)
    {
      this.idx := idx;
      block := new bv8[size];
    }
  }

  datatype AllocResult = Null | Exited | Allocated(fragment: Fragment)

  class Heap {
    const list: array<Fragment?> // fragment_list, of max_fragment slots
    var nums: uint32

    // Slot i names the fragment whose idx is i.
    ghost predicate Valid()
      reads this, list, list[..]
    {
      && nums <= list.Length < 0x1_0000_0000
      && forall i :: 0 <= i < nums ==> list[i] != null && list[i].idx == i
    }

    // The live fragments in slot order.
    ghost function Table(): (t: seq<Fragment>)
      requires Valid()
      reads this, list, list[..]
      ensures |t| == nums && forall i :: 0 <= i < nums ==> t[i] == list[i]
    {
      list[..nums]
    }

    constructor (maxFragment: uint32)
      ensures Valid() && Table() == [] && list.Length == maxFragment && fresh(list)
    {
      list := new Fragment?[maxFragment](_ => null);
      nums := 0;
    }

    lemma TableDistinct()
      requires Valid()
      ensures Distinct(Table())
    {
      forall i, j | 0 <= i < j < nums ensures Table()[i] != Table()[j] {
        assert list[i].idx != list[j].idx;
      }
    }

    // granted: malloc returns memory.
    method Alloc(size: uint32, granted: bool) returns (r: AllocResult)
      requires Valid()
      modifies this, list
      ensures Valid()
      ensures r.Exited? <==> size != 0 && old(nums) == list.Length
      ensures r.Allocated? <==> 0 < size <= MAX_BLOCK && old(nums) < list.Length && granted
      ensures r.Allocated? ==> fresh(r.fragment) && r.fragment.block.Length == size && Table() == old(Table()) + [r.fragment]
      ensures !r.Allocated? ==> Table() == old(Table())
    {
      if size == 0 {
        return Null;
      }
      if list.Length == nums {
        return Exited;
      }
      if size > MAX_BLOCK {
        return Null;
      }
      if !granted {
        return Null;
      }
      var fragment := new Fragment(nums, size);
      list[nums] := fragment;
      nums := nums + 1;
      return Allocated(fragment);
    }

    // Freeing NULL does nothing; freeing a live block removes that one and no other.
    method Free(fragment: Fragment?)
      requires Valid() && (fragment != null ==> fragment in Table())
      modifies this, list, Table()
      ensures Valid()
      ensures fragment == null ==> Table() == old(Table())
      ensures fragment != null ==>
                && old(fragment.idx) < |old(Table())| && old(Table())[old(fragment.idx)] == fragment
                && Table() == SwapRemove(old(Table()), old(fragment.idx))
                && forall f :: f in Table() <==> f in old(Table()) && f != fragment
    {
      if nums == 0 {
        return;
      }
      if fragment == null {
        return;
      }
      ghost var t, k := Table(), fragment.idx;
      TableDistinct();
      SwapRemoveExact(t, k);
      var last := list[nums - 1];
      if fragment.idx > list.Length - 1 || last.idx > list.Length - 1 || (nums == 1 && fragment.idx != last.idx) {
        return;
      }
      if nums != 1 && last.idx != fragment.idx {
        last.idx := fragment.idx;
        list[last.idx] := last;
      }
      nums := nums - 1;
    }

    method Clean()
      requires Valid()
      modifies this
      ensures Valid() && Table() == []
    {
      nums := 0;
    }

    // The ledger's live serial numbers are those of the live fragments in slot order; all is every
    // fragment so far.
    ghost predicate Numbered(l: Ledger, all: seq<Fragment>)
      requires Valid()
      reads this, list, list[..]
    {
      |l.live| == nums && l.next == |all| && forall i :: 0 <= i < nums ==> l.live[i] < |all| && list[i] == all[l.live[i]]
    }

    method Serve(request: Request, ghost l: Ledger, ghost all: seq<Fragment>)
      returns (exited: bool, ghost all': seq<Fragment>)
      requires Valid() && Numbered(l, all) && !l.exited
      modifies this, list, Table()
      ensures Valid() && all <= all' && fresh(all'[|all|..])
      ensures Numbered(Record(l, list.Length, request), all') && exited == Record(l, list.Length, request).exited
      ensures forall i :: 0 <= i < nums ==> Table()[i] in old(Table()) || fresh(Table()[i])
      ensures match request
              case Ask(size, granted) =>
                if 0 < size <= MAX_BLOCK && granted && old(nums) < list.Length then
                  |all'| == |all| + 1 && Table() == old(Table()) + [all'[|all|]] && all'[|all|].block.Length == size
                else all' == all && Table() == old(Table()) && (exited <==> size != 0 && old(nums) == list.Length)
              case GiveBack(slot) =>
                && all' == all && !exited
                && Table() == if slot < old(nums) then SwapRemove(old(Table()), slot) else old(Table())
    {
      exited, all' := false, all;
      match request
      case Ask(size, granted) =>
        var r := Alloc(size, granted);
        exited := r.Exited?;
        if r.Allocated? {
          all' := all + [r.fragment];
        }
      case GiveBack(slot) =>
        if slot < nums {
          assert Table()[slot] == list[slot];
          Free(list[slot]);
        }
    }

    // Any requests in turn, up to the one that ends the program.
    method Run(requests: seq<Request>, ghost l: Ledger, ghost all: seq<Fragment>) returns (ghost all': seq<Fragment>)
      requires Valid() && Numbered(l, all) && !l.exited
      modifies this, list, Table()
      ensures Valid() && all <= all' && fresh(all'[|all|..])
      ensures Numbered(RecordAll(l, list.Length, requests), all')
      decreases |requests|
    {
      hide Valid, Numbered, Record;
      all' := all;
      if requests != [] {
        var exited;
        exited, all' := Serve(requests[0], l, all);
        if !exited {
          ghost var served := all';
          all' := Run(requests[1..], Record(l, list.Length, requests[0]), served);
          assert all'[|all|..] == served[|all|..] + all'[|served|..];
        }
      }
    }

    // From a new heap, the live fragments are after any requests exactly those that were allocated and
    // not given back, each in one slot.
    static method CreateAndRun(maxFragment: uint32, requests: seq<Request>)
      returns (heap: Heap, ghost all: seq<Fragment>, ghost l: Ledger)
      ensures heap.Valid() && l == RecordAll(Ledger([], 0, {}, false), maxFragment, requests)
      ensures |all| == l.next && heap.nums == |l.live| && forall i :: 0 <= i < heap.nums ==> l.live[i] < |all| && heap.list[i] == all[l.live[i]]
      ensures Distinct(l.live) && forall n :: n in l.live <==> 0 <= n < |all| && n !in l.returned
    {
      heap := new Heap(maxFragment);
      l := RecordAll(Ledger([], 0, {}, false), maxFragment, requests);
      all := heap.Run(requests, Ledger([], 0, {}, false), []);
      LedgerRun(Ledger([], 0, {}, false), maxFragment, requests);
    }
  }

  // An allocation, or the release of the block that a slot names; a slot that names none is passed over.
  datatype Request = Ask(size: uint32, granted: bool) | GiveBack(slot: nat)

  // Fragments numbered in order of allocation: the live ones in slot order, the next number, the ones
  // given back, and whether the program has ended.
  datatype Ledger = Ledger(live: seq<nat>, next: nat, returned: set<nat>, exited: bool)

  function Record(l: Ledger, max: nat, request: Request): Ledger {
    match request
    case Ask(size, granted) =>
      if size != 0 && |l.live| == max then l.(exited := true)
      else if 0 < size <= MAX_BLOCK && granted then l.(live := l.live + [l.next], next := l.next + 1)
      else l
    case GiveBack(slot) =>
      if slot < |l.live| then l.(live := SwapRemove(l.live, slot), returned := l.returned + {l.live[slot]}) else l
  }

  // A fragment is numbered when its request is granted, and listed as returned when its slot is given back.
  lemma RecordLaw(l: Ledger, max: nat, request: Request)
    ensures var r := Record(l, max, request);
            match request
            case Ask(size, granted) =>
              && r.returned == l.returned
              && (if 0 < size <= MAX_BLOCK && granted && |l.live| != max then r.live == l.live + [l.next] && r.next == l.next + 1
                  else r.live == l.live && r.next == l.next)
              && (r.exited <==> l.exited || (size != 0 && |l.live| == max))
            case GiveBack(slot) =>
              && r.next == l.next && r.exited == l.exited
              && (if slot < |l.live| then r.live == SwapRemove(l.live, slot) && r.returned == l.returned + {l.live[slot]}
                  else r == l)
  {
  }

  // The program ends with the request that finds the table full.
  function RecordAll(l: Ledger, max: nat, requests: seq<Request>): Ledger
    decreases |requests|
  {
    if l.exited || requests == [] then l else RecordAll(Record(l, max, requests[0]), max, requests[1..])
  }

  // Every number up to the next is live, in one slot, or has been given back.
  ghost predicate Balanced(l: Ledger, max: nat) {
    && Distinct(l.live) && |l.live| <= max
    && (forall n :: n in l.live <==> 0 <= n < l.next && n !in l.returned)
    && forall n :: n in l.returned ==> n < l.next
  }

  lemma BalancedStep(l: Ledger, max: nat, request: Request)
    requires Balanced(l, max)
    ensures Balanced(Record(l, max, request), max)
  {
    var r := Record(l, max, request);
    if request.GiveBack? && request.slot < |l.live| {
      SwapRemoveExact(l.live, request.slot);
      assert l.live[request.slot] in l.live;
    } else if r.next != l.next {
      assert forall n :: n in r.live <==> n in l.live || n == l.next;
      assert l.next !in l.live;
    }
  }

  lemma {:induction false} LedgerRun(l: Ledger, max: nat, requests: seq<Request>)
    requires Balanced(l, max)
    ensures Balanced(RecordAll(l, max, requests), max)
    decreases |requests|
  {
    hide Balanced, Record;
    if !l.exited && requests != [] {
      BalancedStep(l, max, requests[0]);
      LedgerRun(Record(l, max, requests[0]), max, requests[1..]);
    }
  }
}
