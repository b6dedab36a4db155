/** The file server's table of open files (fs/serv.c): file identifiers, and reads and writes
    at the descriptor's offset. */
module OpenFiles {
  import opened Common
  import opened FsImage
  import opened FileSystem
  import EnvTable

  const MAXOPEN: nat := 1024
  const E_MAX_OPEN: int := 10
  const E_NO_MEM: int := 4

  /** One opentab entry with its Fd page: `refs` is pageref(o_fd), `offset` is fd_offset. */
  datatype Open = Open(id: nat, file: nat, refs: nat, offset: nat)

  /** Every entry's identifier carries its slot number. */
  predicate TableOk(table: seq<Open>) {
    |table| == MAXOPEN && forall i :: 0 <= i < MAXOPEN ==> table[i].id % 1024 == i && table[i].id < 0x1_0000_0000
  }

  /** The identifier after a slot has been handed out once more. */
  function NextId(id: nat): nat {
    (id + 1024) % 0x1_0000_0000
  }

  lemma NextIdKeepsSlot(id: nat)
    ensures NextId(id) % 1024 == id % 1024 && NextId(id) < 0x1_0000_0000
  {
    var q := (id + 1024) / 0x1_0000_0000;
    assert NextId(id) == id + 1024 - q * 0x1_0000_0000;
    SameSlot(id, 1 - q * 0x40_0000);
  }

  lemma SameSlot(id: nat, k: int)
    requires id + k * 1024 >= 0
    ensures (id + k * 1024) % 1024 == id % 1024
  {
  }

  function Reissued(id: nat, n: nat): nat
    decreases n
  {
    if n == 0 then id else NextId(Reissued(id, n - 1))
  }

  lemma NextIdOfSum(x: nat)
    ensures NextId(x % 0x1_0000_0000) == (x + 1024) % 0x1_0000_0000
  {
    var q, r := x / 0x1_0000_0000, x % 0x1_0000_0000;
    if r + 1024 < 0x1_0000_0000 {
      Residue(q, r + 1024);
    } else {
      Residue(q + 1, r + 1024 - 0x1_0000_0000);
    }
  }

  lemma {:induction false} ReissuedForm(id: nat, n: nat)
    requires id < 0x1_0000_0000
    ensures Reissued(id, n) == (id + n * 1024) % 0x1_0000_0000
  {
    if n > 0 {
      ReissuedForm(id, n - 1);
      NextIdOfSum(id + (n - 1) * 1024);
    }
  }

  /** What openfile_lookup answers. */
  function Lookup(table: seq<Open>, fileid: nat): (slot: int)
    requires |table| == MAXOPEN
    ensures -1 <= slot < MAXOPEN
  {
    var o := table[fileid % 1024];
    if o.refs <= 1 || o.id != fileid then -1 else fileid % 1024
  }

  /** A lookup finds a slot exactly when some client holds that slot open under this identifier. */
  lemma LookupExact(table: seq<Open>, fileid: nat, i: nat)
    requires TableOk(table) && i < MAXOPEN
    ensures Lookup(table, fileid) == i <==> table[i].id == fileid && table[i].refs > 1
  {
  }

  /** An identifier comes back exactly after a multiple of 2^22 reissues of its slot, and until then
      is rejected; in particular always while identifiers stay below 2^31. */
  lemma StaleFileRejected(table: seq<Open>, id: nat, n: nat)
    requires TableOk(table) && id < 0x1_0000_0000 && table[id % 1024].id == Reissued(id, n)
    ensures table[id % 1024].id == id <==> n % 0x40_0000 == 0
    ensures n % 0x40_0000 != 0 ==> Lookup(table, id) == -1
    ensures n > 0 && id + n * 1024 < 0x8000_0000 ==> Lookup(table, id) == -1
  {
    ReissuedForm(id, n);
    Cyclic(id, n);
  }

  lemma Cyclic(id: nat, n: nat)
    requires id < 0x1_0000_0000
    ensures (id + n * 1024) % 0x1_0000_0000 == id <==> n % 0x40_0000 == 0
  {
    var q, r := n / 0x40_0000, n % 0x40_0000;
    assert n == q * 0x40_0000 + r;
    var x := id + r * 1024;
    assert id + n * 1024 == q * 0x1_0000_0000 + x;
    if x < 0x1_0000_0000 {
      Residue(q, x);
    } else {
      assert id + n * 1024 == (q + 1) * 0x1_0000_0000 + (x - 0x1_0000_0000);
      Residue(q + 1, x - 0x1_0000_0000);
    }
  }

  lemma Residue(q: nat, x: nat)
    requires x < 0x1_0000_0000
    ensures (q * 0x1_0000_0000 + x) % 0x1_0000_0000 == x
  {
  }

  // ---- The request page -----------------------------------------------------------------------

  /** The byte of the disk map that lies n bytes past the start of the request page: the page is at
      0x0ffff000 and the disk map follows at 0x10000000. */
  function MapOffset(n: nat): int {
    0x0fff_f000 + n - 0x1000_0000
  }

  /** Copying n bytes to the start of the request page writes into block b of the disk map. */
  ghost predicate Hits(n: nat, b: nat) {
    exists k: nat :: k < n && b * 4096 <= MapOffset(k) < (b + 1) * 4096
  }

  /** A copy stays in its page up to 4096 bytes; the next page is block 0, which holds no file-system
      state; past 8192 bytes it overwrites the superblock, and past 12288 the bitmap. */
  lemma HitsExactly(n: nat, b: nat)
    ensures Hits(n, b) <==> n > (b + 1) * 4096
  {
    if n > (b + 1) * 4096 {
      var k := (b + 1) * 4096;
      assert k < n && b * 4096 <= MapOffset(k) < (b + 1) * 4096;
    }
  }

  /** A copy leaves the file system's blocks alone exactly up to 8192 bytes. */
  lemma StateHit(n: nat)
    ensures (exists b: nat :: b >= 1 && Hits(n, b)) <==> n > 8192
  {
    HitsExactly(n, 1);
    forall b: nat | b >= 1 && Hits(n, b) ensures n > 8192 {
      HitsExactly(n, b);
    }
  }

  /** The first bytes of `under` replaced by buf. */
  function Overlay(under: seq<Byte>, buf: seq<Byte>): (s: seq<Byte>)
    requires |buf| <= |under|
    ensures |s| == |under| && s[..|buf|] == buf && s[|buf|..] == under[|buf|..]
  {
    buf + under[|buf|..]
  }

  /** The bytes serve_write takes for the client's: the request page has 4088 after its header, and
      up to 4096 are read. */
  function Taken(page: Block, map0: Block, n: nat): (s: seq<Byte>)
    ensures |s| == Min(n, 4096) && (n <= 4088 ==> s == page[8..8 + n])
  {
    (page[8..] + map0)[..Min(n, 4096)]
  }

  /** They are the client's exactly up to 4088 bytes, whatever block 0 holds. */
  lemma TakenFromClient(page: Block, n: nat)
    ensures n <= 4088 <==> forall x: Block, y: Block :: Taken(page, x, n) == Taken(page, y, n)
  {
    if n <= 4088 {
      forall x: Block, y: Block ensures Taken(page, x, n) == Taken(page, y, n) {
        assert Taken(page, x, n) == page[8..8 + n] == Taken(page, y, n);
      }
    } else {
      var x, y := seq(4096, _ => 0), seq(4096, _ => 1);
      assert Taken(page, x, n)[4088] == x[0] == 0 && Taken(page, y, n)[4088] == y[0] == 1;
    }
  }

  /** At the server's own limit the last eight bytes stored are block 0's. */
  lemma TakenAtLimit(page: Block, map0: Block)
    ensures Taken(page, map0, 4096) == page[8..] + map0[..8]
  {
  }

  /** user/cat.c asks for 8192 bytes at a time: from a file that has them the reply is cut short and
      block 0 is overwritten; one byte more reaches the superblock. */
  lemma CatOverruns(size: nat)
    requires size > 8192
    ensures InFile(size, 0, 8192) > 4096 && Hits(InFile(size, 0, 8192), 0) && !Hits(InFile(size, 0, 8192), 1)
    ensures Hits(InFile(size, 0, 8193), 1)
  {
    HitsExactly(8192, 0);
    HitsExactly(8192, 1);
    HitsExactly(8193, 1);
  }

  /** The entry openfile_alloc takes: the first one that no client holds. */
  predicate FirstIdle(table: seq<Open>, i: nat) {
    i < |table| && table[i].refs <= 1 && forall j :: 0 <= j < i ==> table[j].refs > 1
  }

  /** buf holds the file's bytes from the descriptor's offset on: all of them up to the count and the
      file's size if the read succeeds. */
  ghost predicate ReadDone(im: Image, o: Open, n: nat, r: int, buf: seq<Byte>, free: set<nat>) {
    && o.file in im.files && buf == Slice(im, o.file, o.offset, |buf|)
    && var k := InFile(im.files[o.file].size, o.offset, n);
       |buf| <= k && (r >= 0 ==> r == |buf| == k) && Refusal(r, o.offset, k, free)
  }

  /** All of buf is stored at the descriptor's offset, or, after an error, a prefix of it. */
  ghost predicate WriteDone(was: Image, now: Image, o: Open, buf: seq<Byte>, r: int) {
    && o.file in was.files
    && Resized(was, now, o.file, Max(was.files[o.file].size, o.offset + |buf|))
    && (if r >= 0 then r == |buf| && Written(was, now, o.file, o.offset, buf)
        else PrefixWritten(was, now, o.file, o.offset, buf))
    && Refusal(r, o.offset, |buf|, now.free)
  }

  class FileServer {
    const fs: FileSystem
    var opentab: seq<Open>
    var map0: Block        // the page at DISKMAP: block 0 in memory

    ghost predicate Valid()
      reads this, fs, fs.bc
    {
      fs.Valid() && TableOk(opentab)
    }

    constructor ServeInit(fs: FileSystem)
      requires fs.Valid()
      ensures Valid() && this.fs == fs
      ensures forall i :: 0 <= i < MAXOPEN ==> opentab[i] == Open(i, 0, 0, 0)
    {
      this.fs := fs;
      var table := [];
      for i := 0 to 1024
        invariant |table| == i && forall j :: 0 <= j < i ==> table[j] == Open(j, 0, 0, 0)
      {
        table := table + [Open(i, 0, 0, 0)];
      }
      opentab := table;
      map0 := ZeroBlock();
    }

    /** The first entry no client holds gets a new identifier; `memory` says whether
        sys_page_alloc succeeds.  An identifier of 2^31 or more is returned as a negative int. */
    method OpenfileAlloc(memory: bool) returns (r: int, slot: nat)
      requires Valid()
      modifies `opentab
      ensures Valid()
      ensures slot == MAXOPEN ==>
                r == -E_MAX_OPEN && opentab == old(opentab) && forall j :: 0 <= j < MAXOPEN ==> opentab[j].refs > 1
      ensures slot != MAXOPEN ==> FirstIdle(old(opentab), slot)
      ensures slot != MAXOPEN && old(opentab)[slot].refs == 0 && !memory ==> r == -E_NO_MEM && opentab == old(opentab)
      ensures slot != MAXOPEN && (old(opentab)[slot].refs == 1 || memory) ==>
                && r == EnvTable.Int32(NextId(old(opentab)[slot].id))
                && opentab == old(opentab)[slot := old(opentab)[slot].(
                                             id := NextId(old(opentab)[slot].id), refs := 1, offset := 0)]
    {
      slot := 0;
      while slot < MAXOPEN
        invariant slot <= MAXOPEN && opentab == old(opentab)
        invariant forall j :: 0 <= j < slot ==> opentab[j].refs > 1
      {
        if opentab[slot].refs <= 1 {
          if opentab[slot].refs == 0 && !memory {
            return -E_NO_MEM, slot;
          }
          NextIdKeepsSlot(opentab[slot].id);
          opentab := opentab[slot := opentab[slot].(id := NextId(opentab[slot].id), refs := 1, offset := 0)];
          return EnvTable.Int32(opentab[slot].id), slot;
        }
        slot := slot + 1;
      }
      r := -E_MAX_OPEN;
    }

    /** A slot exactly when a client holds it open under this identifier. */
    method OpenfileLookup(fileid: nat) returns (slot: int)
      requires Valid()
      ensures slot == -E_INVAL || 0 <= slot < MAXOPEN
      ensures forall i :: 0 <= i < MAXOPEN ==> (slot == i <==> opentab[i].id == fileid && opentab[i].refs > 1)
    {
      var o := opentab[fileid % 1024];
      if o.refs <= 1 || o.id != fileid {
        return -E_INVAL;
      }
      slot := fileid % 1024;
    }

    /** The memmoves of file_read into the request page and on into the disk map. */
    method CopyOut(page: Block, buf: seq<Byte>) returns (reply: Block)
      modifies `map0
      ensures |buf| <= 8192 ==> reply + map0 == Overlay(page + old(map0), buf)
      ensures buf <= reply <==> |buf| <= 4096
    {
      if |buf| > 8192 {
        return buf[..4096];
      }
      var both := Overlay(page + map0, buf);
      reply, map0 := both[..4096], both[4096..];
      if |buf| <= 4096 {
        assert reply[..|buf|] == both[..|buf|];
      }
    }

    /** serve_read once the descriptor is found.  `buf` is what file_read copies to the start of the
        request page, without regard to the page's end. */
    method ReadSlot(i: nat, n: nat, page: Block) returns (r: int, buf: seq<Byte>, reply: Block)
      requires Valid() && i < MAXOPEN && opentab[i].file in fs.files
      modifies `opentab, `map0, fs, fs.bc
      ensures buf <= reply <==> |buf| <= 4096
      ensures |buf| <= InFile(old(fs.files)[old(opentab)[i].file].size, old(opentab)[i].offset, n)
      ensures |buf| <= 8192 ==>
                && Valid() && Unmoved(old(fs.View()), fs.View()) && reply + map0 == Overlay(page + old(map0), buf)
                && ReadDone(old(fs.View()), old(opentab)[i], n, r, buf, fs.View().free)
                && opentab == if r < 0 then old(opentab)
                              else old(opentab)[i := old(opentab)[i].(offset := old(opentab)[i].offset + r)]
    {
      r, buf := fs.FileRead(opentab[i].file, n, opentab[i].offset);
      reply := CopyOut(page, buf);
      if r >= 0 {
        opentab := opentab[i := opentab[i].(offset := opentab[i].offset + r)];
      }
    }

    /** Up to 8192 bytes the file system is intact: the request page and block 0's page after it hold
        the copy.  Past that the copy has overwritten the superblock, and nothing is promised. */
    method ServeRead(fileid: nat, n: nat, page: Block) returns (r: int, buf: seq<Byte>, reply: Block)
      requires Valid() && forall i :: 0 <= i < MAXOPEN && opentab[i].refs > 1 ==> opentab[i].file in fs.files
      modifies `opentab, `map0, fs, fs.bc
      ensures Lookup(old(opentab), fileid) < 0 ==> r == -E_INVAL && buf == [] && opentab == old(opentab)
      ensures Lookup(old(opentab), fileid) >= 0 ==>
                var o := old(opentab)[Lookup(old(opentab), fileid)];
                o.file in old(fs.files) && |buf| <= InFile(old(fs.files)[o.file].size, o.offset, n)
      ensures |buf| <= 8192 ==> Valid() && Unmoved(old(fs.View()), fs.View())
      ensures |buf| <= 8192 ==> reply + map0 == Overlay(page + old(map0), buf)
      ensures buf <= reply <==> |buf| <= 4096
      ensures |buf| <= 8192 && Lookup(old(opentab), fileid) >= 0 ==>
                var i := Lookup(old(opentab), fileid);
                var o := old(opentab)[i];
                && ReadDone(old(fs.View()), o, n, r, buf, fs.View().free)
                && opentab == if r < 0 then old(opentab) else old(opentab)[i := o.(offset := o.offset + r)]
    {
      LookupIs(opentab, fileid);
      var i := OpenfileLookup(fileid);
      if i < 0 {
        assert Overlay(page + map0, []) == page + map0;
        return -E_INVAL, [], page;
      }
      r, buf, reply := ReadSlot(i, n, page);
    }

    /** serve_write once the descriptor is found. */
    method WriteSlot(i: nat, n: nat, page: Block) returns (r: int)
      requires Valid() && i < MAXOPEN && opentab[i].file in fs.files && fs.files[opentab[i].file].size < 0x8000_0000
      requires opentab[i].offset + 4096 < 0x8000_0000
      modifies `opentab, fs, fs.bc
      ensures Valid() && WriteDone(old(fs.View()), fs.View(), old(opentab)[i], Taken(page, map0, n), r)
      ensures opentab == if r < 0 then old(opentab)
                         else old(opentab)[i := old(opentab)[i].(offset := old(opentab)[i].offset + r)]
    {
      r := fs.FileWrite(opentab[i].file, Taken(page, map0, n), opentab[i].offset);
      if r >= 0 {
        opentab := opentab[i := opentab[i].(offset := opentab[i].offset + r)];
      }
    }

    /** A write stores at most a page at the descriptor's offset and moves the offset past it: the
        client's bytes, if the request has room for them. */
    method ServeWrite(fileid: nat, n: nat, page: Block) returns (r: int)
      requires Valid() && forall i :: 0 <= i < MAXOPEN && opentab[i].refs > 1 ==>
                 && opentab[i].file in fs.files && fs.files[opentab[i].file].size < 0x8000_0000
                 && opentab[i].offset + 4096 < 0x8000_0000
      modifies `opentab, fs, fs.bc
      ensures Valid()
      ensures Lookup(old(opentab), fileid) < 0 ==>
                r == -E_INVAL && fs.View() == old(fs.View()) && opentab == old(opentab)
      ensures Lookup(old(opentab), fileid) >= 0 ==>
                var i := Lookup(old(opentab), fileid);
                var o := old(opentab)[i];
                && WriteDone(old(fs.View()), fs.View(), o, Taken(page, map0, n), r)
                && (n <= 4088 ==> WriteDone(old(fs.View()), fs.View(), o, page[8..8 + n], r))
                && opentab == if r < 0 then old(opentab) else old(opentab)[i := o.(offset := o.offset + r)]
    {
      LookupIs(opentab, fileid);
      var i := OpenfileLookup(fileid);
      if i < 0 {
        return -E_INVAL;
      }
      r := WriteSlot(i, n, page);
    }
  }

  lemma LookupIs(table: seq<Open>, fileid: nat)
    requires TableOk(table)
    ensures forall i :: 0 <= i < MAXOPEN ==>
              (Lookup(table, fileid) == i <==> table[i].id == fileid && table[i].refs > 1)
  {
    forall i | 0 <= i < MAXOPEN
      ensures Lookup(table, fileid) == i <==> table[i].id == fileid && table[i].refs > 1
    {
      LookupExact(table, fileid, i);
    }
  }

  /** A write that succeeds reads back; the read fails only for want of a block on a full disk. */
  method WriteReadsBack(fs: FileSystem, f: nat, buf: seq<Byte>, offset: nat) returns (w: int, r: int, got: seq<Byte>)
    requires fs.Valid() && f in fs.files && fs.files[f].size < 0x8000_0000 && offset + |buf| < 0x8000_0000
    modifies fs, fs.bc
    ensures fs.Valid()
    ensures w >= 0 && r >= 0 ==> got == buf
    ensures w >= 0 && r < 0 ==> fs.View().free == {}
  {
    w := fs.FileWrite(f, buf, offset);
    ghost var im := fs.View();
    r, got := fs.FileRead(f, |buf|, offset);
    if w >= 0 && r >= 0 {
      forall k | 0 <= k < |buf| ensures got[k] == buf[k] {
        SliceIndex(im, f, offset, |got|, k);
      }
    }
  }
}
