/** The arena as the probe runs it: static regions patched in place, with the heap behind them. */
module SessionArena {
  import opened Bytes
  import opened Arena

  /** One region's storage and its bump cells. */
  class BumpRegion {
    const data: array<byte>
    var used: nat
    var peak: nat
    var last: nat

    ghost function Abs(): Region
      reads this, data
    {
      Region(data[..], used, peak, last)
    }

    constructor (capacity: nat)
      ensures fresh(data) && Abs() == Wiped(Abs()) && data.Length == capacity
    {
      data := new byte[capacity](_ => 0);
      used, peak, last := 0, 0, NO_BLOCK;
    }

    /** `alloc_from`: zero the block, move the bump pointer, remember the block. */
    method Alloc(size: nat) returns (start: Option<nat>)
      requires Representable(Abs(), size)
      modifies this, data
      ensures
        match AllocFrom(old(Abs()), size)
        case None => start == None && Abs() == old(Abs())
        case Some((r, o)) => start == Some(o) && Abs() == r
    {
      var o := AlignUp(used);
      var end := o + size;
      if end > data.Length {
        return None;
      }
      forall i | o <= i < end { data[i] := 0; }
      used := end;
      last := o;
      if end > peak {
        peak := end;
      }
      assert data[..] == old(data[..o]) + Zeros(size) + old(data[end..]);
      return Some(o);
    }

    /** The reclaiming part of `free_from`. */
    method FreeOffset(offset: nat) returns (rewound: bool)
      modifies this`used, this`last
      ensures Abs() == FreeAt(old(Abs()), offset) && rewound == (old(last) == offset)
    {
      rewound := last == offset;
      if rewound {
        used := offset;
        last := NO_BLOCK;
      }
    }

    method Wipe()
      modifies this, data
      ensures Abs() == Wiped(old(Abs()))
    {
      forall i | 0 <= i < data.Length { data[i] := 0; }
      used, peak, last := 0, 0, NO_BLOCK;
    }
  }

  class Allocator {
    const poolBase: nat
    const pool: BumpRegion
    const transportBase: nat
    const transport: BumpRegion
    var armed: bool
    var frees: nat
    var rewinds: nat
    /** The blocks the external heap has handed out. */
    var heap: map<nat, seq<byte>>

    ghost predicate Valid()
    {
      pool != transport && pool.data != transport.data
    }

    ghost function Abs(): Session
      reads this, pool, pool.data, transport, transport.data
    {
      Session(poolBase, pool.Abs(), transportBase, transport.Abs(), armed, frees, rewinds, heap)
    }

    constructor (poolBase: nat, transportBase: nat)
      ensures Valid() && fresh(pool) && fresh(pool.data) && fresh(transport) && fresh(transport.data)
      ensures this.poolBase == poolBase && this.transportBase == transportBase
      ensures |Abs().pool.mem| == 1728 && Abs().pool == Wiped(Abs().pool)
      ensures |Abs().transport.mem| == 896 && Abs().transport == Wiped(Abs().transport)
      ensures !armed && frees == rewinds == 0 && heap == map[]
    {
      this.poolBase, this.transportBase := poolBase, transportBase;
      pool := new BumpRegion(POOL_SIZE);
      transport := new BumpRegion(TRANSPORT_SIZE);
      armed, frees, rewinds, heap := false, 0, 0, map[];
    }

    /** `heap_alloc`; `h` is what the heap's own `malloc` answers. */
    method HeapAlloc(size: nat, h: nat) returns (p: Option<nat>)
      requires Valid()
      modifies this`heap
      ensures
        match FromHeap(old(Abs()), size, h)
        case None => p == None && Abs() == old(Abs())
        case Some((t, q)) => p == Some(q) && Abs() == t
    {
      if h == 0 {
        return None;
      }
      heap := heap[h := Zeros(size)];
      return Some(h);
    }

    /** `pool_alloc`; `None` is the fatal exhaustion of the region or of the heap. */
    method SessionMalloc(size: nat, h: nat) returns (p: Option<nat>)
      requires Valid() && Representable(pool.Abs(), size)
      modifies this`heap, pool, pool.data
      ensures
        match Serve(old(Abs()), Malloc(size, h))
        case None => p == None && Abs() == old(Abs())
        case Some((t, q)) => p == Some(q) && Abs() == t
    {
      if size == 0 {
        return Some(0);
      }
      if !armed {
        p := HeapAlloc(size, h);
        return;
      }
      var start := pool.Alloc(size);
      match start
      case None => return None;
      case Some(o) => return Some(poolBase + o);
    }

    /** `transport_alloc`. */
    method SessionTransportAlloc(size: nat, h: nat) returns (p: Option<nat>)
      requires Valid() && Representable(transport.Abs(), size)
      modifies this`heap, transport, transport.data
      ensures
        match Serve(old(Abs()), TransportAlloc(size, h))
        case None => p == None && Abs() == old(Abs())
        case Some((t, q)) => p == Some(q) && Abs() == t
    {
      if size == 0 {
        return Some(0);
      }
      if !armed {
        p := HeapAlloc(size, h);
        return;
      }
      var start := transport.Alloc(size);
      match start
      case None => return None;
      case Some(o) => return Some(transportBase + o);
    }

    /** `swindle_session_calloc`: a product that does not fit 32 bits is answered with null. */
    method SessionCalloc(count: u32, size: u32, h: nat) returns (p: Option<nat>)
      requires Valid() && (count * size < TWO32 ==> Representable(pool.Abs(), count * size))
      modifies this`heap, pool, pool.data
      ensures
        if count * size >= TWO32 then p == Some(0) && Abs() == old(Abs())
        else match Serve(old(Abs()), Malloc(count * size, h))
             case None => p == None && Abs() == old(Abs())
             case Some((t, q)) => p == Some(q) && Abs() == t
    {
      var total := count * size;
      if total >= TWO32 {
        return Some(0);
      }
      p := SessionMalloc(total, h);
    }

    /** `swindle_session_free`. */
    method SessionFree(p: nat)
      requires Valid()
      modifies this`heap, this`frees, this`rewinds, pool`used, pool`last, transport`used, transport`last
      ensures Abs() == Free(old(Abs()), p)
    {
      if p == 0 {
        return;
      }
      if poolBase <= p < poolBase + pool.data.Length {
        frees := frees + 1;
        var rewound := pool.FreeOffset(p - poolBase);
        rewinds := if rewound then rewinds + 1 else rewinds;
      } else if transportBase <= p < transportBase + transport.data.Length {
        frees := frees + 1;
        var rewound := transport.FreeOffset(p - transportBase);
        rewinds := if rewound then rewinds + 1 else rewinds;
      } else {
        heap := heap - {p};
      }
    }

    /** `swindle_session_open`: wipe both regions and start serving. */
    method SessionOpen()
      requires Valid()
      modifies this`armed, this`frees, this`rewinds, pool, pool.data, transport, transport.data
      ensures Serve(old(Abs()), Open) == Some((Abs(), 0))
      ensures armed && JustOpened(Abs()) && heap == old(heap)
    {
      pool.Wipe();
      transport.Wipe();
      frees, rewinds := 0, 0;
      armed := true;
    }
  }
}
