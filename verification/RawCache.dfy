/** CRawCache (cache.cpp): a byte queue in one block of a shared pool. */
module RawCache {

  type Block = array<char>

  /** CMemPool, by its contract: a block is at least as long as was asked for and is in nobody
      else's hands, and only a block that was handed out goes back, with its own size. Which block
      is handed out, and whether one is left, is open. */
  class MemPool {
    var free: set<Block>
    ghost var taken: set<Block>

    ghost predicate Valid()
      reads this
    {
      free !! taken
    }

    constructor ()
      ensures Valid() && taken == {} && free == {}
    {
      free, taken := {}, {};
    }

    method Allocate(size: nat) returns (mem: array?<char>, resultSize: nat)
      requires Valid()
      modifies this
      ensures Valid()
      ensures mem == null ==> taken == old(taken) && free == old(free) && resultSize == 0
      ensures mem != null ==>
                resultSize == mem.Length >= size && mem !in old(taken) && taken == old(taken) + {mem}
                && (mem in old(free) || fresh(mem)) && free <= old(free)
    {
      var fit := set b | b in free && b.Length >= size;
      if fit != {} {
        var b :| b in fit;
        mem, free := b, free - {b};
      } else if * {
        return null, 0;
      } else {
        var length :| length >= size;
        mem := new char[length];
      }
      resultSize := mem.Length;
      taken := taken + {mem};
    }

    method Recycle(mem: Block, size: nat)
      requires Valid() && mem in taken && size == mem.Length
      modifies this
      ensures Valid() && taken == old(taken) - {mem} && free == old(free) + {mem}
    {
      free := free + {mem};
      taken := taken - {mem};
    }
  }

  method Memcpy(dst: Block, at: nat, data: string)
    requires at + |data| <= dst.Length
    modifies dst
    ensures dst[..at] == old(dst[..at]) && dst[at..at + |data|] == data && dst[at + |data|..] == old(dst[at + |data|..])
  {
    forall i | 0 <= i < |data| { dst[at + i] := data[i]; }
  }

  /** The ranges may overlap. */
  method Memmove(dst: Block, from: nat, len: nat)
    requires from + len <= dst.Length
    modifies dst
    ensures dst[..len] == old(dst[from..from + len])
  {
    forall i | 0 <= i < len { dst[i] := dst[from + i]; }
  }

  // ---- The queue as a value

  datatype Op = Append(data: string) | Skip(length: nat)

  function Fifo(s: string, op: Op): string {
    match op
    case Append(data) => s + data
    case Skip(length) => if length >= |s| then "" else s[length..]
  }

  function FifoAll(s: string, ops: seq<Op>): string
    decreases |ops|
  {
    if ops == [] then s else FifoAll(Fifo(s, ops[0]), ops[1..])
  }

  /** All that was appended. */
  function Appended(ops: seq<Op>): string
    decreases |ops|
  {
    if ops == [] then "" else (if ops[0].Append? then ops[0].data else "") + Appended(ops[1..])
  }

  /** How many bytes were skipped: a skip takes no more than there are. */
  function Skipped(n: nat, ops: seq<Op>): (k: nat)
    ensures k <= n + |Appended(ops)|
    decreases |ops|
  {
    if ops == [] then 0
    else if ops[0].Append? then Skipped(n + |ops[0].data|, ops[1..])
    else
      var k := if ops[0].length >= n then n else ops[0].length;
      k + Skipped(n - k, ops[1..])
  }

  /** What is left is what was appended without as many bytes from the front as were skipped. */
  lemma {:induction false} FifoIs(s: string, ops: seq<Op>)
    ensures FifoAll(s, ops) == (s + Appended(ops))[Skipped(|s|, ops)..]
    decreases |ops|
  {
    hide Fifo;
    if ops == [] {
      assert s + "" == s;
    } else {
      var op, rest := ops[0], ops[1..];
      FifoIs(Fifo(s, op), rest);
      FifoFirst(s, op, Appended(rest), Skipped(|Fifo(s, op)|, rest));
    }
  }

  lemma FifoFirst(s: string, op: Op, more: string, n: nat)
    requires n <= |Fifo(s, op) + more|
    ensures op.Append? ==> Fifo(s, op) + more == s + (op.data + more) && |Fifo(s, op)| == |s| + |op.data|
    ensures op.Skip? ==>
              var k := if op.length >= |s| then |s| else op.length;
              |Fifo(s, op)| == |s| - k && (Fifo(s, op) + more)[n..] == (s + more)[k + n..] && s + more == s + ("" + more)
  {
    if op.Skip? {
      var k := if op.length >= |s| then |s| else op.length;
      assert Fifo(s, op) == s[k..];
      assert (s + more)[k..] == s[k..] + more;
    }
  }

  /** One run after another. */
  lemma {:induction false} FifoNext(s: string, ops: seq<Op>, n: nat)
    requires n < |ops|
    ensures FifoAll(s, ops[..n + 1]) == Fifo(FifoAll(s, ops[..n]), ops[n])
    decreases n
  {
    if n > 0 {
      FifoNext(Fifo(s, ops[0]), ops[1..], n - 1);
      assert ops[..n + 1][1..] == ops[1..][..n] && ops[..n][1..] == ops[1..][..n - 1];
    }
  }

  // ---- CRawCache

  class Cache {
    const mp: MemPool
    var block: array?<char>
    var blockSize: nat
    var dataHead: nat
    var dataLen: nat

    /** The block in this cache's hands. */
    ghost function Own(): (r: set<Block>)
      reads this`block
    {
      if block == null then {} else {block}
    }

    ghost predicate Valid()
      reads this, mp, block
    {
      mp.Valid() && Own() <= mp.taken
      && (if block == null then blockSize == dataHead == dataLen == 0
          else blockSize == block.Length && dataHead + dataLen <= blockSize)
    }

    /** The live bytes. */
    ghost function Contents(): string
      requires Valid()
      reads this, mp, block
    {
      if block == null then "" else block[dataHead..dataHead + dataLen]
    }

    constructor (pool: MemPool)
      requires pool.Valid()
      ensures Valid() && mp == pool && Contents() == "" && block == null
    {
      mp := pool;
      block, blockSize, dataHead, dataLen := null, 0, 0, 0;
    }

    /** data() and data_len(): the first live byte, or NULL (-1 here) if there is none. */
    method Data() returns (at: int, len: nat)
      requires Valid()
      ensures at == -1 <==> Contents() == ""
      ensures at != -1 ==> block != null && 0 <= at < blockSize && at + len <= blockSize && block[at..at + len] == Contents()
      ensures len == |Contents()|
    {
      if dataLen == 0 { return -1, 0; }
      return dataHead, dataLen;
    }

    /** append: false where the source throws, and then nothing is changed. */
    method Append(data: string) returns (ok: bool)
      requires Valid()
      modifies this, mp, Own(), mp.free
      ensures Valid() && Contents() == if ok then old(Contents()) + data else old(Contents())
      ensures mp.taken - Own() == old(mp.taken - Own()) && (ok ==> block != null)
      ensures fresh(mp.free + Own() - old(mp.free + Own()))
    {
      if block == null {
        ok := Start(data);
      } else if |data| + dataHead + dataLen <= blockSize {
        Memcpy(block, dataHead + dataLen, data);
        Joined(old(block[..]), block[..], dataHead, dataLen, data);
        dataLen := dataLen + |data|;
        ok := true;
      } else if |data| + dataLen > blockSize {
        ok := Reallocate(data);
      } else {
        Slide(data);
        ok := true;
      }
    }

    /** The first append takes a block. */
    method Start(data: string) returns (ok: bool)
      requires Valid() && block == null
      modifies this, mp, mp.free
      ensures Valid() && Contents() == if ok then data else ""
      ensures mp.taken - Own() == old(mp.taken - Own()) && (ok ==> block != null)
      ensures fresh(mp.free + Own() - old(mp.free + Own()))
    {
      var mem, size := mp.Allocate(|data|);
      if mem == null { return false; }
      block, blockSize := mem, size;
      Memcpy(block, 0, data);
      dataHead := 0;
      dataLen := |data|;
      return true;
    }

    /** The branch of append that makes room at the end of the block. */
    method Slide(data: string)
      requires Valid() && block != null && |data| + dataLen <= blockSize
      modifies this`dataHead, this`dataLen, block
      ensures Valid() && Contents() == old(Contents()) + data
    {
      Memmove(block, dataHead, dataLen);
      Memcpy(block, dataLen, data);
      Front(block[..], dataLen, data);
      dataHead := 0;
      dataLen := dataLen + |data|;
    }

    /** The branch of append that takes a larger block. */
    method Reallocate(data: string) returns (ok: bool)
      requires Valid() && block != null
      modifies this, mp, Own(), mp.free
      ensures Valid() && Contents() == if ok then old(Contents()) + data else old(Contents())
      ensures mp.taken - Own() == old(mp.taken - Own()) && block != null
      ensures fresh(mp.free + Own() - old(mp.free + Own()))
    {
      var mem, newBlockSize := mp.Allocate(|data| + dataLen);
      if mem == null { return false; }
      Memcpy(mem, 0, block[dataHead..dataHead + dataLen]);
      Memcpy(mem, dataLen, data);
      mp.Recycle(block, blockSize);
      assert mem[0..dataLen + |data|] == mem[..dataLen] + data;
      block := mem;
      blockSize := newBlockSize;
      dataHead := 0;
      dataLen := dataLen + |data|;
      return true;
    }

    /** skip. */
    method Skip(length: nat)
      requires Valid()
      modifies this, mp
      ensures Valid() && Contents() == Fifo(old(Contents()), Op.Skip(length))
      ensures mp.taken - Own() == old(mp.taken - Own())
      ensures mp.free + Own() == old(mp.free + Own())
    {
      if block == null { return; }
      if length >= dataLen {
        mp.Recycle(block, blockSize);
        block := null;
        blockSize, dataHead, dataLen := 0, 0, 0;
      } else {
        dataHead := dataHead + length;
        dataLen := dataLen - length;
      }
    }

    /** One call; the blocks in other hands stay there. */
    method Do(op: Op) returns (ok: bool)
      requires Valid()
      modifies this, mp, Own(), mp.free
      ensures Valid() && Contents() == if ok then Fifo(old(Contents()), op) else old(Contents())
      ensures mp.taken - Own() == old(mp.taken - Own())
      ensures fresh(mp.free + Own() - old(mp.free + Own()))
    {
      hide Valid, Contents, Own;
      if op.Append? {
        ok := Append(op.data);
      } else {
        Skip(op.length);
        ok := true;
      }
    }
  }

  lemma Front(now: string, len: nat, data: string)
    requires len + |data| <= |now| && now[len..len + |data|] == data
    ensures now[0..len + |data|] == now[..len] + data
  {
  }

  lemma Joined(before: string, after: string, head: nat, len: nat, data: string)
    requires |before| == |after| && head + len + |data| <= |before|
    requires after[..head + len] == before[..head + len] && after[head + len..head + len + |data|] == data
    ensures after[head..head + len + |data|] == before[head..head + len] + data
  {
    assert after[head..head + len] == after[..head + len][head..];
    assert before[head..head + len] == before[..head + len][head..];
  }

  // ---- The two queues of a connection

  /** ConnCache: what was received and what is to be sent, in blocks of one pool. */
  class ConnCache {
    const r: Cache
    const w: Cache

    ghost predicate Valid()
      reads this, r, w, r.mp, r.block, w.block
    {
      r.mp == w.mp && r.Valid() && w.Valid() && r != w && r.Own() !! w.Own()
    }

    constructor (pool: MemPool)
      requires pool.Valid()
      ensures Valid() && fresh(r) && fresh(w) && r.mp == pool && r.Contents() == w.Contents() == ""
      ensures r.Own() == w.Own() == {}
    {
      r := new Cache(pool);
      w := new Cache(pool);
    }

    /** One call on one queue leaves the other alone, though they share the pool. */
    method Do(read: bool, op: Op) returns (ok: bool)
      requires Valid()
      modifies r, w, r.mp, r.Own(), w.Own(), r.mp.free
      ensures Valid()
      ensures r.Contents() == if read && ok then Fifo(old(r.Contents()), op) else old(r.Contents())
      ensures w.Contents() == if !read && ok then Fifo(old(w.Contents()), op) else old(w.Contents())
      ensures r.mp.taken - r.Own() - w.Own() == old(r.mp.taken - r.Own() - w.Own())
      ensures fresh(r.mp.free + r.Own() + w.Own() - old(r.mp.free + r.Own() + w.Own()))
    {
      if read { ok := DoOne(r, w, op); } else { ok := DoOne(w, r, op); }
      assert r.mp.taken - w.Own() - r.Own() == r.mp.taken - r.Own() - w.Own();
      assert old(r.mp.taken - w.Own() - r.Own()) == old(r.mp.taken - r.Own() - w.Own());
    }

    method DoOne(c: Cache, other: Cache, op: Op) returns (ok: bool)
      requires c != other && c.mp == other.mp && c.Valid() && other.Valid() && c.Own() !! other.Own()
      modifies c, c.mp, c.Own(), c.mp.free
      ensures c.Valid() && other.Valid() && c.Own() !! other.Own()
      ensures c.Contents() == if ok then Fifo(old(c.Contents()), op) else old(c.Contents())
      ensures other.Contents() == old(other.Contents())
      ensures c.mp.taken - c.Own() - other.Own() == old(c.mp.taken - c.Own() - other.Own())
      ensures fresh(c.mp.free + c.Own() - old(c.mp.free + c.Own()))
    {
      ghost var rest := c.mp.taken - c.Own();
      assert other.Own() <= rest;
      ok := c.Do(op);
      assert c.mp.taken - c.Own() == rest;
    }

    /** Any mix of appends and skips on the two queues, up to an allocation that fails: each queue
        holds what was appended to it without as many bytes from the front as were skipped, and
        the pool has back every block but the ones in the queues' hands. */
    method Run(ops: seq<(bool, Op)>) returns (done: nat)
      requires Valid() && r.Contents() == w.Contents() == ""
      modifies r, w, r.mp, r.Own(), w.Own(), r.mp.free
      ensures Valid() && done <= |ops|
      ensures var onR, onW := Only(ops[..done], true), Only(ops[..done], false);
              r.Contents() == Appended(onR)[Skipped(0, onR)..] && w.Contents() == Appended(onW)[Skipped(0, onW)..]
      ensures r.mp.taken - r.Own() - w.Own() == old(r.mp.taken - r.Own() - w.Own())
    {
      hide Fifo, FifoAll, Only, Cache.Valid, Cache.Contents, Cache.Own, Skipped, Appended;
      done := 0;
      var ok := true;
      OnlyNone(ops);
      while done < |ops|
        invariant 0 <= done <= |ops| && Valid()
        invariant r.Contents() == FifoAll("", Only(ops[..done], true))
        invariant w.Contents() == FifoAll("", Only(ops[..done], false))
        invariant r.mp.taken - r.Own() - w.Own() == old(r.mp.taken - r.Own() - w.Own())
        invariant fresh(r.mp.free + r.Own() + w.Own() - old(r.mp.free + r.Own() + w.Own()))
      {
        ok := Do(ops[done].0, ops[done].1);
        if !ok { break; }
        OnlyNext(ops, done, true);
        OnlyNext(ops, done, false);
        done := done + 1;
      }
      FifoIs("", Only(ops[..done], true));
      FifoIs("", Only(ops[..done], false));
      Plain(Appended(Only(ops[..done], true)));
      Plain(Appended(Only(ops[..done], false)));
    }
  }

  lemma Plain(s: string)
    ensures "" + s == s
  {
  }

  /** The calls on one of the queues. */
  function Only(ops: seq<(bool, Op)>, read: bool): seq<Op>
    decreases |ops|
  {
    if ops == [] then []
    else
      var last := ops[|ops| - 1];
      Only(ops[..|ops| - 1], read) + (if last.0 == read then [last.1] else [])
  }

  lemma OnlyNone(ops: seq<(bool, Op)>)
    ensures FifoAll("", Only(ops[..0], true)) == FifoAll("", Only(ops[..0], false)) == ""
  {
  }

  lemma OnlyNext(ops: seq<(bool, Op)>, n: nat, read: bool)
    requires n < |ops|
    ensures FifoAll("", Only(ops[..n + 1], read)) ==
            (if ops[n].0 == read then Fifo(FifoAll("", Only(ops[..n], read)), ops[n].1)
             else FifoAll("", Only(ops[..n], read)))
  {
    assert ops[..n + 1][..n] == ops[..n];
    var before := Only(ops[..n], read);
    if ops[n].0 == read {
      var all := before + [ops[n].1];
      FifoNext("", all, |before|);
      assert all[..|before|] == before && all[..|before| + 1] == all;
    } else {
      assert before + [] == before;
    }
  }
}
