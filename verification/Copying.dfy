/**
 Block copies: the plain one, and the chain of DMA descriptors that `vip_fr.c` builds in its
 place when ENABLE_DMA is defined.
 */
module Copying {
  import opened Bytes

  const MAX_BLOCK: int := 0x8000

  /** `n` bytes copied from `from` to `to`, all of them read first. */
  function Copy(mem: seq<byte>, to: int, from: int, n: nat): (m: seq<byte>)
    ensures |m| == |mem|
  {
    Splice(mem, to, n, Slice(mem, from, n))
  }

  /** `n` bytes have been moved from one place to another, and nothing else has changed. */
  ghost predicate Moved(was: seq<byte>, now: seq<byte>, to: int, from: int, n: int) {
    && |now| == |was| && 0 <= n && 0 <= to && to + n <= |was| && 0 <= from && from + n <= |was|
    && now[to..to + n] == was[from..from + n]
    && now[..to] == was[..to] && now[to + n..] == was[to + n..]
  }

  lemma CopyMoves(mem: seq<byte>, to: int, from: int, n: nat)
    requires 0 <= to && to + n <= |mem| && 0 <= from && from + n <= |mem|
    ensures Moved(mem, Copy(mem, to, from, n), to, from, n)
  {
    var now := Copy(mem, to, from, n);
    var a, b, c, d := now[to..to + n], mem[from..from + n], now[to + n..], mem[to + n..];
    forall k | 0 <= k < n ensures a[k] == b[k] {
      CopyAt(mem, to, from, n, to + k);
    }
    forall k | 0 <= k < to ensures now[..to][k] == mem[..to][k] {
      CopyAt(mem, to, from, n, k);
    }
    forall k | 0 <= k < |mem| - to - n ensures c[k] == d[k] {
      CopyAt(mem, to, from, n, to + n + k);
    }
  }

  predicate Disjoint(a: int, b: int, n: nat) {
    a + n <= b || b + n <= a
  }

  predicate Within(a: int, n: nat, len: int) {
    0 <= a && a + n <= len
  }

  /** What the two regions must be for a copy to be defined: apart, or the very same. */
  predicate Copyable(to: int, from: int, n: nat, len: int) {
    Within(to, n, len) && Within(from, n, len) && (Disjoint(to, from, n) || to == from)
  }

  method MemCpy(ram: array<byte>, to: int, from: int, n: nat)
    requires Copyable(to, from, n, ram.Length)
    modifies ram
    ensures ram[..] == Copy(old(ram[..]), to, from, n)
    ensures Moved(old(ram[..]), ram[..], to, from, n)
  {
    ghost var was := ram[..];
    CopyMoves(was, to, from, n);
    for i := 0 to n
      invariant ram[..] == Copy(was, to, from, i)
    {
      ghost var m := ram[..];
      CopySplit(was, to, from, i, 1);
      ram[to + i] := ram[from + i];
      assert Slice(m, from + i, 1)[0] == Peek(m, from + i + 0);
      IsSplice(m, ram[..], to + i, 1, Slice(m, from + i, 1));
    }
  }

  lemma CopyAt(mem: seq<byte>, to: int, from: int, n: nat, k: nat)
    requires k < |mem|
    ensures Copy(mem, to, from, n)[k] == if to <= k < to + n then Peek(mem, from + (k - to)) else mem[k]
  {
  }

  /** A copy may be cut in two when its first part does not overwrite what the second one reads. */
  lemma CopySplit(mem: seq<byte>, to: int, from: int, n: nat, m: nat)
    requires Copyable(to, from, n + m, |mem|)
    ensures Copy(Copy(mem, to, from, n), to + n, from + n, m) == Copy(mem, to, from, n + m)
  {
    var one := Copy(mem, to, from, n);
    var two := Copy(one, to + n, from + n, m);
    forall k | 0 <= k < |mem| ensures two[k] == Copy(mem, to, from, n + m)[k] {
      CopyAt(one, to + n, from + n, m, k);
      CopyAt(mem, to, from, n, k);
      CopyAt(mem, to, from, n + m, k);
      if to + n <= k < to + n + m {
        CopyAt(mem, to, from, n, from + (k - to));
      }
    }
  }

  // ----- DMA descriptors

  /**
   What the driver's `alt_avalon_sgdma_construct_mem_to_mem_desc` takes its third and fourth
   arguments to be.  Its declaration is not part of this repository.
   */
  datatype Arguments = WriteFirst | ReadFirst

  /** One transfer; `next` is the array index of the descriptor to follow, None for a null pointer. */
  datatype Descriptor = Descriptor(next: Option<nat>, to: int, from: int, bytes: nat)

  function Construct(order: Arguments, next: Option<nat>, third: int, fourth: int, bytes: nat): Descriptor {
    if order.WriteFirst? then Descriptor(next, third, fourth, bytes) else Descriptor(next, fourth, third, bytes)
  }

  /** Where a chain built to copy from `from` to `to` writes and reads. */
  function Target(order: Arguments, to: int, from: int): int {
    if order.WriteFirst? then to else from
  }

  function Origin(order: Arguments, to: int, from: int): int {
    if order.WriteFirst? then from else to
  }

  ghost predicate Linked(ds: seq<Descriptor>) {
    forall i :: 0 <= i < |ds| && ds[i].next.Some? ==> i < ds[i].next.value < |ds|
  }

  /** The memory after the controller has followed the chain from descriptor `i` to its null pointer. */
  ghost function Transfer(mem: seq<byte>, ds: seq<Descriptor>, i: nat): (m: seq<byte>)
    requires Linked(ds) && i < |ds|
    ensures |m| == |mem|
    decreases |ds| - i
  {
    var m := Copy(mem, ds[i].to, ds[i].from, ds[i].bytes);
    if ds[i].next.None? then m else Transfer(m, ds, ds[i].next.value)
  }

  function Blocks(n: nat): nat {
    (n + MAX_BLOCK - 1) / MAX_BLOCK
  }

  function BlockSize(n: nat, i: nat): int {
    if n - i * MAX_BLOCK < MAX_BLOCK then n - i * MAX_BLOCK else MAX_BLOCK
  }

  /** Consecutive blocks, each linked to the next, and only the last one to nothing. */
  ghost predicate Chain(ds: seq<Descriptor>, to: int, from: int, n: nat) {
    && |ds| == Blocks(n)
    && forall i :: 0 <= i < |ds| ==>
         && ds[i].next == (if i + 1 < |ds| then Some(i + 1) else None)
         && ds[i].to == to + i * MAX_BLOCK
         && ds[i].from == from + i * MAX_BLOCK
         && ds[i].bytes == BlockSize(n, i)
  }

  method BuildDescriptors(order: Arguments, to: int, from: int, n: nat) returns (desc: array<Descriptor>)
    requires n > 0
    ensures fresh(desc) && Chain(desc[..], Target(order, to, from), Origin(order, to, from), n)
  {
    var count := (n + MAX_BLOCK - 1) / MAX_BLOCK;
    desc := new Descriptor[count](_ => Descriptor(None, 0, 0, 0));
    var remaining, toBlock, fromBlock, index := n, to, from, 0;
    while remaining > 0
      invariant 0 <= index <= count && 0 <= remaining <= n
      invariant remaining > 0 ==> n - remaining == index * MAX_BLOCK
      invariant remaining > 0 ==> toBlock == to + index * MAX_BLOCK && fromBlock == from + index * MAX_BLOCK
      invariant remaining == 0 ==> index == count
      invariant forall i :: 0 <= i < index ==>
        && desc[i].next == (if i + 1 < count then Some(i + 1) else None)
        && desc[i].to == Target(order, to, from) + i * MAX_BLOCK
        && desc[i].from == Origin(order, to, from) + i * MAX_BLOCK
        && desc[i].bytes == BlockSize(n, i)
    {
      var block := MAX_BLOCK;
      if block > remaining {
        block := remaining;
      }
      remaining := remaining - block;
      desc[index] := Construct(order, if remaining == 0 then None else Some(index + 1), toBlock, fromBlock, block);
      toBlock, fromBlock, index := toBlock + block, fromBlock + block, index + 1;
    }
  }

  /**
   The blocks tile the region: each has between 1 and 32768 bytes, starts where the last one ended,
   and the last ends the region.
   */
  lemma BlocksTile(ds: seq<Descriptor>, to: int, from: int, n: nat)
    requires n > 0 && Chain(ds, to, from, n)
    ensures |ds| == (n + 32767) / 32768 && Linked(ds)
    ensures ds[0].to == to && ds[0].from == from
    ensures forall i :: 0 <= i < |ds| ==> 1 <= ds[i].bytes <= 32768
    ensures forall i :: 0 <= i < |ds| - 1 ==> ds[i].next == Some(i + 1)
    ensures forall i {:trigger ds[i]} :: 0 <= i < |ds| - 1 ==>
              ds[i + 1].to == ds[i].to + ds[i].bytes && ds[i + 1].from == ds[i].from + ds[i].bytes
    ensures ds[|ds| - 1].next == None
    ensures ds[|ds| - 1].to + ds[|ds| - 1].bytes == to + n && ds[|ds| - 1].from + ds[|ds| - 1].bytes == from + n
  {
  }

  lemma {:induction false} ChainFrom(mem: seq<byte>, ds: seq<Descriptor>, to: int, from: int, n: nat, i: nat)
    requires n > 0 && Chain(ds, to, from, n) && Linked(ds) && i < |ds|
    requires Copyable(to, from, n, |mem|)
    ensures i * MAX_BLOCK < n
    ensures Transfer(mem, ds, i) == Copy(mem, to + i * MAX_BLOCK, from + i * MAX_BLOCK, n - i * MAX_BLOCK)
    decreases |ds| - i
  {
    if i + 1 < |ds| {
      var m := Copy(mem, ds[i].to, ds[i].from, ds[i].bytes);
      ChainFrom(m, ds, to, from, n, i + 1);
      CopySplit(mem, to + i * MAX_BLOCK, from + i * MAX_BLOCK, MAX_BLOCK, n - (i + 1) * MAX_BLOCK);
    }
  }

  /** Following the chain leaves the memory that a single copy would. */
  lemma ChainIsCopy(mem: seq<byte>, ds: seq<Descriptor>, to: int, from: int, n: nat)
    requires n > 0 && Chain(ds, to, from, n) && Copyable(to, from, n, |mem|)
    ensures |ds| > 0 && Linked(ds) && Transfer(mem, ds, 0) == Copy(mem, to, from, n)
  {
    BlocksTile(ds, to, from, n);
    ChainFrom(mem, ds, to, from, n, 0);
  }

  /** The controller's walk along a chain. */
  method SyncTransfer(ram: array<byte>, desc: array<Descriptor>)
    requires desc.Length > 0 && Linked(desc[..])
    requires forall i :: 0 <= i < desc.Length ==> Copyable(desc[i].to, desc[i].from, desc[i].bytes, ram.Length)
    modifies ram
    ensures ram[..] == Transfer(old(ram[..]), desc[..], 0)
  {
    ghost var was := ram[..];
    var i := 0;
    while desc[i].next.Some?
      invariant 0 <= i < desc.Length
      invariant Transfer(ram[..], desc[..], i) == Transfer(was, desc[..], 0)
      decreases desc.Length - i
    {
      assert desc[..][i] == desc[i];
      MemCpy(ram, desc[i].to, desc[i].from, desc[i].bytes);
      i := desc[i].next.value;
    }
    assert desc[..][i] == desc[i];
    MemCpy(ram, desc[i].to, desc[i].from, desc[i].bytes);
  }

  /**
   The copy that is meant, if the driver takes the place to write first; if it takes the place to
   read first, the opposite one.
   */
  method DmaMemCpy(order: Arguments, ram: array<byte>, to: int, from: int, n: nat)
    requires n > 0 && Copyable(to, from, n, ram.Length)
    modifies ram
    ensures order.WriteFirst? ==> ram[..] == Copy(old(ram[..]), to, from, n)
    ensures order.ReadFirst? ==> ram[..] == Copy(old(ram[..]), from, to, n)
    ensures order.WriteFirst? ==> Moved(old(ram[..]), ram[..], to, from, n)
    ensures order.ReadFirst? ==> Moved(old(ram[..]), ram[..], from, to, n)
  {
    var desc := BuildDescriptors(order, to, from, n);
    ghost var target, origin := Target(order, to, from), Origin(order, to, from);
    BlocksTile(desc[..], target, origin, n);
    ChainIsCopy(ram[..], desc[..], target, origin, n);
    CopyMoves(ram[..], target, origin, n);
    SyncTransfer(ram, desc);
  }
}
