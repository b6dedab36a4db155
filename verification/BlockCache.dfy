/** The block cache (fs/bc.c): disk blocks are faulted into memory on first use and
    written back when flushed.  Reads and writes go through the cache. */
module BlockCache {
  import opened Common
  import opened FsImage

  /** A cached block and its PTE_D bit. */
  datatype Page = Page(data: Block, dirty: bool)

  /** The value of a block as the file server sees it. */
  function Logical(disk: seq<Block>, pages: map<nat, Page>, b: nat): Block
    requires b < |disk|
  {
    if b in pages then pages[b].data else disk[b]
  }

  function Blocks(disk: seq<Block>, pages: map<nat, Page>): seq<Block> {
    seq(|disk|, b requires 0 <= b < |disk| => Logical(disk, pages, b))
  }

  /** Block 0 is never mapped, and a clean mapped page equals its disk block. */
  ghost predicate CacheOk(disk: seq<Block>, pages: map<nat, Page>) {
    forall b :: b in pages ==> 0 < b < |disk| && (!pages[b].dirty ==> pages[b].data == disk[b])
  }

  class Cache {
    const nblocks: nat
    var disk: seq<Block>
    var pages: map<nat, Page>

    ghost predicate Valid()
      reads this
    {
      |disk| == nblocks && CacheOk(disk, pages)
    }

    constructor (image: seq<Block>)
      ensures Valid() && disk == image && pages == map[] && nblocks == |image|
    {
      nblocks := |image|;
      disk := image;
      pages := map[];
    }

    /** bc_pgfault: map a page, read the block into it, and clear the dirty bit that
        reading it has set. */
    method Fault(b: nat)
      requires Valid() && 0 < b < nblocks && b !in pages
      modifies `pages
      ensures Valid() && pages == old(pages)[b := Page(disk[b], false)]
      ensures Blocks(disk, pages) == Blocks(disk, old(pages))
    {
      pages := pages[b := Page(ZeroBlock(), false)];
      pages := pages[b := Page(disk[b], true)];
      pages := pages[b := pages[b].(dirty := false)];
    }

    method Read(b: nat) returns (x: Block)
      requires Valid() && 0 < b < nblocks
      modifies `pages
      ensures Valid() && x == old(Logical(disk, pages, b))
      ensures Blocks(disk, pages) == Blocks(disk, old(pages))
    {
      if b !in pages {
        Fault(b);
      }
      x := pages[b].data;
    }

    method Write(b: nat, x: Block)
      requires Valid() && 0 < b < nblocks
      modifies `pages
      ensures Valid() && b in pages && pages[b] == Page(x, true)
      ensures Blocks(disk, pages) == Blocks(disk, old(pages))[b := x]
    {
      if b !in pages {
        Fault(b);
      }
      pages := pages[b := Page(x, true)];
    }

    /** flush_block: write a dirty page back and clear its dirty bit. */
    method Flush(b: nat)
      requires Valid() && b < nblocks
      modifies `disk, `pages
      ensures Valid() && disk == old(disk)[b := old(Logical(disk, pages, b))]
      ensures Blocks(disk, pages) == old(Blocks(disk, pages))
    {
      if b !in pages || !pages[b].dirty {
        return;
      }
      disk := disk[b := pages[b].data];
      pages := pages[b := pages[b].(dirty := false)];
    }

    /** fs_sync: afterwards the disk alone holds every block's value. */
    method Sync()
      requires Valid() && nblocks > 0
      modifies `disk, `pages
      ensures Valid() && disk == Blocks(disk, pages) == old(Blocks(disk, pages))
    {
      for i := 1 to nblocks
        invariant Valid()
        invariant Blocks(disk, pages) == old(Blocks(disk, pages))
        invariant forall b :: 0 <= b < i ==> disk[b] == Blocks(disk, pages)[b]
      {
        Flush(i);
      }
    }
  }

  /** Reads and writes of single blocks, and what they mean on a plain disk. */
  datatype Op = ReadOp(b: nat) | WriteOp(b: nat, x: Block) | FlushOp(b: nat)

  function PlainStep(d: seq<Block>, o: Op): seq<Block> {
    match o
    case WriteOp(b, x) => if b < |d| then d[b := x] else d
    case _ => d
  }

  function Plain(d: seq<Block>, ops: seq<Op>): seq<Block>
    decreases |ops|
  {
    if ops == [] then d else Plain(PlainStep(d, ops[0]), ops[1..])
  }

  function PlainReads(d: seq<Block>, ops: seq<Op>): seq<Block>
    decreases |ops|
  {
    if ops == [] then []
    else
      var rest := PlainReads(PlainStep(d, ops[0]), ops[1..]);
      if ops[0].ReadOp? && ops[0].b < |d| then [d[ops[0].b]] + rest else rest
  }

  /** The block cache refines the plain disk: any sequence of reads, writes and flushes
      returns the blocks, and leaves the logical contents, of a disk without a cache. */
  method RunOps(c: Cache, ops: seq<Op>) returns (got: seq<Block>)
    requires c.Valid() && forall k :: 0 <= k < |ops| ==> 0 < ops[k].b < c.nblocks
    modifies c
    ensures c.Valid()
    ensures Blocks(c.disk, c.pages) == Plain(old(Blocks(c.disk, c.pages)), ops)
    ensures got == PlainReads(old(Blocks(c.disk, c.pages)), ops)
  {
    got := [];
    for k := 0 to |ops|
      invariant c.Valid()
      invariant Plain(Blocks(c.disk, c.pages), ops[k..]) == Plain(old(Blocks(c.disk, c.pages)), ops)
      invariant got + PlainReads(Blocks(c.disk, c.pages), ops[k..]) == PlainReads(old(Blocks(c.disk, c.pages)), ops)
    {
      ghost var d := Blocks(c.disk, c.pages);
      assert ops[k..][1..] == ops[k + 1..] && ops[k..][0] == ops[k];
      match ops[k] {
        case ReadOp(b) =>
          var x := c.Read(b);
          got := got + [x];
        case WriteOp(b, x) => c.Write(b, x);
        case FlushOp(b) => c.Flush(b);
      }
      assert Blocks(c.disk, c.pages) == PlainStep(d, ops[k]);
    }
  }
}
