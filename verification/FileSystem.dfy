/** The file server's block allocator and file operations (fs/fs.c) over the block cache. */
module FileSystem {
  import opened Common
  import opened FsImage
  import opened BlockCache

  const E_INVAL: int := 3
  const E_NO_DISK: int := 9
  const E_NOT_FOUND: int := 11
  const MAXFILE: nat := 0x40_a000       // 4096 bytes for each direct and indirect slot

  /** Bit b of the free-block bitmap; a 32-bit word is the set of its one bits. */
  predicate IsFree(bitmap: seq<set<nat>>, b: nat) {
    b / 32 < |bitmap| && b % 32 in bitmap[b / 32]
  }

  ghost function FreeSet(bitmap: seq<set<nat>>, n: nat): set<nat> {
    set b: nat | b < n && IsFree(bitmap, b)
  }

  function SetBit(bitmap: seq<set<nat>>, b: nat): seq<set<nat>>
    requires b / 32 < |bitmap|
  {
    bitmap[b / 32 := bitmap[b / 32] + {b % 32}]
  }

  function ClearBit(bitmap: seq<set<nat>>, b: nat): seq<set<nat>>
    requires b / 32 < |bitmap|
  {
    bitmap[b / 32 := bitmap[b / 32] - {b % 32}]
  }

  lemma BitFree(bitmap: seq<set<nat>>, n: nat, b: nat)
    requires b < n <= |bitmap| * 32
    ensures b / 32 < |bitmap|
    ensures FreeSet(SetBit(bitmap, b), n) == FreeSet(bitmap, n) + {b}
    ensures FreeSet(ClearBit(bitmap, b), n) == FreeSet(bitmap, n) - {b}
  {
    forall c: nat
      ensures IsFree(SetBit(bitmap, b), c) <==> IsFree(bitmap, c) || c == b
      ensures IsFree(ClearBit(bitmap, b), c) <==> IsFree(bitmap, c) && c != b
    {
      assert c == b <==> c / 32 == b / 32 && c % 32 == b % 32;
    }
  }

  class FileSystem {
    const bc: Cache
    const reserved: nat            // the boot block, the superblock and the bitmap blocks
    var bitmap: seq<set<nat>>
    var files: map<nat, File>      // File records, as seen through the cache
    var stored: map<nat, File>     // File records, as last written to disk
    const home: map<nat, nat>      // the block each record lies in
    ghost var owner: map<nat, Site>

    ghost function View(): Image
      reads this, bc
    {
      Image(FreeSet(bitmap, bc.nblocks), Blocks(bc.disk, bc.pages), files)
    }

    ghost predicate Ready()
      reads this, bc
    {
      bc.Valid() && bc.nblocks <= |bitmap| * 32
    }

    ghost predicate Valid()
      reads this, bc
    {
      Ready() && Inv(View(), owner, reserved)
    }

    /** Mounting a well-formed image. */
    constructor Mount(bc: Cache, reserved: nat, bitmap: seq<set<nat>>, files: map<nat, File>, home: map<nat, nat>,
                      ghost owner: map<nat, Site>)
      requires bc.Valid() && bc.nblocks <= |bitmap| * 32 && files.Keys <= home.Keys
      requires Inv(Image(FreeSet(bitmap, bc.nblocks), Blocks(bc.disk, bc.pages), files), owner, reserved)
      ensures Valid() && this.bc == bc && this.reserved == reserved && this.home == home
      ensures View() == Image(FreeSet(bitmap, bc.nblocks), Blocks(bc.disk, bc.pages), files) && stored == files
    {
      this.bc, this.reserved, this.home := bc, reserved, home;
      this.bitmap, this.files, this.stored, this.owner := bitmap, files, files, owner;
    }

    // ---- The bitmap ----------------------------------------------------------------------------

    method BlockIsFree(b: nat) returns (r: bool)
      requires Ready()
      ensures r <==> b in View().free
    {
      if b >= bc.nblocks {
        return false;
      }
      r := b % 32 in bitmap[b / 32];
    }

    /** Block zero is not a block: free_block panics on it. */
    method FreeBlock(b: nat)
      requires Ready() && 0 < b < bc.nblocks
      modifies `bitmap
      ensures Ready() && View() == old(View()).(free := old(View()).free + {b})
    {
      BitFree(bitmap, bc.nblocks, b);
      bitmap := bitmap[b / 32 := bitmap[b / 32] + {b % 32}];
    }

    /** Takes the lowest-numbered free block. */
    method AllocBlock() returns (r: int)
      requires Ready() && forall b :: b in View().free ==> b >= 2
      modifies `bitmap
      ensures Ready()
      ensures r < 0 ==> r == -E_NO_DISK && old(View()).free == {} && View() == old(View())
      ensures r >= 0 ==>
                && r in old(View()).free && (forall c :: c in old(View()).free ==> r <= c)
                && View() == old(View()).(free := old(View()).free - {r})
    {
      var b := 2;
      while b < bc.nblocks
        invariant 2 <= b && bitmap == old(bitmap)
        invariant forall c :: c in View().free ==> c >= b
      {
        var free := BlockIsFree(b);
        if free {
          BitFree(bitmap, bc.nblocks, b);
          bitmap := bitmap[b / 32 := bitmap[b / 32] - {b % 32}];
          return b;
        }
        b := b + 1;
      }
      r := -E_NO_DISK;
    }

    // ---- Block numbers -----------------------------------------------------------------------------

    /** diskaddr and bc_pgfault panic on a block that is zero, out of range or free. */
    method ReadBlock(b: nat) returns (x: Block)
      requires Ready() && 0 < b < bc.nblocks && b !in View().free
      modifies bc`pages
      ensures Ready() && View() == old(View()) && x == View().blocks[b]
    {
      x := bc.Read(b);
    }

    method WriteBlock(b: nat, x: Block)
      requires Ready() && 0 < b < bc.nblocks && b !in View().free
      modifies bc`pages
      ensures Ready() && View() == SetBlock(old(View()), b, x)
    {
      bc.Write(b, x);
    }

    method GetSite(s: Site) returns (v: nat)
      requires Valid() && Exists(View(), s)
      modifies bc`pages
      ensures Ready() && View() == old(View()) && v == Val(View(), s)
    {
      match s {
        case Direct(f, i) => v := files[f].direct[i];
        case Indirect(f) => v := files[f].indirect;
        case Slot(f, j) =>
          IndirectOwned(View(), owner, reserved, f);
          var x := ReadBlock(files[f].indirect);
          v := Entry(x, j);
      }
    }

    method PutSite(s: Site, v: nat)
      requires Ready() && Exists(View(), s)
      requires s.Slot? ==> 0 < files[s.f].indirect < bc.nblocks && files[s.f].indirect !in View().free
      requires s.Direct? ==> |files[s.f].direct| == NDIRECT
      modifies `files, bc`pages
      ensures Ready() && View() == SetVal(old(View()), s, v)
    {
      match s {
        case Direct(f, i) => files := files[f := files[f].(direct := files[f].direct[i := v])];
        case Indirect(f) => files := files[f := files[f].(indirect := v)];
        case Slot(f, j) =>
          var x := ReadBlock(files[f].indirect);
          WriteBlock(files[f].indirect, SetEntry(x, j, v));
      }
    }

    /** alloc_block for a site, storing the number, and clearing and flushing the block. */
    method AttachBlock(s: Site) returns (r: int)
      requires Valid() && Exists(View(), s) && Val(View(), s) == 0
      requires Index(s) < NBlocks(files[s.f].size)
      modifies `bitmap, `files, `owner, bc
      ensures Valid()
      ensures r < 0 ==> r == -E_NO_DISK && old(View()).free == {} && View() == old(View()) && owner == old(owner)
      ensures r >= 0 ==> r in old(View()).free && View() == Attach(old(View()), s, r)
    {
      r := AllocBlock();
      if r < 0 {
        return;
      }
      AttachStep(old(View()), owner, reserved, s, r);
      if s.Slot? {
        IndirectOwned(old(View()), owner, reserved, s.f);
      }
      PutSite(s, r);
      WriteBlock(r, ZeroBlock());
      bc.Flush(r);
      owner := owner[r := s];
    }

    /** Finds the site of block i of file f; makes the indirect block if asked to. */
    method FileBlockWalk(f: nat, i: nat, alloc: bool) returns (r: int)
      requires Valid() && f in files && (alloc ==> i < NBlocks(files[f].size))
      modifies `bitmap, `files, `owner, bc
      ensures Valid() && Unmoved(old(View()), View())
      ensures !alloc || r < 0 ==> View() == old(View()) && owner == old(owner)
      ensures !alloc ==> bc.disk == old(bc.disk)
      ensures r == 0 ==> Exists(View(), SiteOf(f, i))
      ensures r == 0 || r == -E_INVAL || r == -E_NOT_FOUND || r == -E_NO_DISK
      ensures r == -E_INVAL <==> i >= NDIRECT + NINDIRECT
      ensures r == -E_NOT_FOUND <==>
                NDIRECT <= i < NDIRECT + NINDIRECT && old(files)[f].indirect == 0 && !alloc
      ensures r == -E_NO_DISK <==>
                NDIRECT <= i < NDIRECT + NINDIRECT && old(files)[f].indirect == 0 && alloc && old(View()).free == {}
    {
      if i >= NDIRECT + NINDIRECT {
        return -E_INVAL;
      }
      if i < NDIRECT {
        return 0;
      }
      if files[f].indirect == 0 {
        if !alloc {
          return -E_NOT_FOUND;
        }
        AttachUnmoved(View(), owner, reserved, Indirect(f));
        var ret := AttachBlock(Indirect(f));
        if ret < 0 {
          return -E_NO_DISK;
        }
      }
      r := 0;
    }

    /** The disk block of block i of file f, allocated if the file has a hole there.
        Callers stay below the end of the file. */
    method FileGetBlock(f: nat, i: nat) returns (r: int, b: nat)
      requires Valid() && f in files && i < NBlocks(files[f].size)
      modifies `bitmap, `files, `owner, bc
      ensures Valid() && Unmoved(old(View()), View())
      ensures r == 0 || r == -E_INVAL || r == -E_NO_DISK
      ensures r == 0 ==> b != 0 && b == BlockOf(View(), f, i)
      ensures r == -E_INVAL <==> i >= NDIRECT + NINDIRECT
      ensures r == -E_NO_DISK ==> View().free == {}
    {
      b := 0;
      r := FileBlockWalk(f, i, true);
      if r < 0 {
        return;
      }
      var s := SiteOf(f, i);
      b := GetSite(s);
      if b == 0 {
        AttachUnmoved(View(), owner, reserved, s);
        r := AttachBlock(s);
        if r < 0 {
          return;
        }
        b := r;
        r := 0;
      }
    }

    // ---- Changing the size -------------------------------------------------------------------------------

    /** Drops block i of file f, if it has one. */
    method FileFreeBlock(f: nat, i: nat) returns (r: int)
      requires Valid() && f in files
      modifies `bitmap, `files, `owner, bc
      ensures Valid()
      ensures BlockOf(old(View()), f, i) == 0 ==> View() == old(View()) && owner == old(owner)
      ensures BlockOf(old(View()), f, i) != 0 ==>
                && Exists(old(View()), SiteOf(f, i))
                && View() == Detach(old(View()), SiteOf(f, i)) && owner == old(owner) - {BlockOf(old(View()), f, i)}
      ensures r == if i >= NDIRECT + NINDIRECT then -E_INVAL
                   else if NDIRECT <= i && old(files)[f].indirect == 0 then -E_NOT_FOUND else 0
    {
      r := FileBlockWalk(f, i, false);
      if r < 0 {
        return;
      }
      var b := GetSite(SiteOf(f, i));
      if b != 0 {
        DetachBlock(f, i, b);
      }
    }

    /** free_block for block i of file f, and zero in its slot. */
    method DetachBlock(f: nat, i: nat, b: nat)
      requires Valid() && Exists(View(), SiteOf(f, i)) && b == BlockOf(View(), f, i) != 0
      modifies `bitmap, `files, `owner, bc
      ensures Valid() && View() == Detach(old(View()), SiteOf(f, i)) && owner == old(owner) - {b}
    {
      var s := SiteOf(f, i);
      DataBlock(View(), owner, reserved, f, i);
      DetachStep(View(), owner, reserved, s);
      if s.Slot? {
        IndirectOwned(View(), owner, reserved, f);
      }
      FreeBlock(b);
      PutSite(s, 0);
      owner := owner - {b};
    }

    /** The loop of file_truncate_blocks over blocks [lo, hi). */
    method FreeRange(f: nat, lo: nat, hi: nat)
      requires Valid() && f in files
      modifies `bitmap, `files, `owner, bc
      ensures Valid() && SameSizes(old(View()), View()) && |View().blocks| == |old(View()).blocks|
      ensures DroppedTo(old(View()), old(owner), View(), owner, f, lo, Max(lo, hi))
    {
      var bno := lo;
      DropStart(View(), owner, f, lo);
      while bno < hi
        invariant Valid() && SameSizes(old(View()), View()) && |View().blocks| == |old(View()).blocks|
        invariant lo <= bno <= Max(lo, hi) && DroppedTo(old(View()), old(owner), View(), owner, f, lo, bno)
      {
        DropOne(old(View()), old(owner), View(), owner, reserved, f, lo, bno);
        DetachShape(View(), SiteOf(f, bno));
        var r := FileFreeBlock(f, bno);
        bno := bno + 1;
      }
    }

    /** Frees an indirect block whose slots are all empty. */
    method FreeIndirect(f: nat)
      requires Valid() && f in files && files[f].indirect != 0
      requires forall j :: Val(View(), Slot(f, j)) == 0
      modifies `bitmap, `files, `owner, bc
      ensures Valid() && View() == Detach(old(View()), Indirect(f)) && owner == old(owner) - {old(files)[f].indirect}
    {
      var ind := files[f].indirect;
      IndirectOwned(View(), owner, reserved, f);
      DetachStep(View(), owner, reserved, Indirect(f));
      FreeBlock(ind);
      PutSite(Indirect(f), 0);
      owner := owner - {ind};
    }

    /** Frees the blocks past a file of size newsize, and the indirect block once no
        block needs it. */
    method FileTruncateBlocks(f: nat, newsize: nat)
      requires Valid() && f in files && newsize < files[f].size < 0x8000_0000
      modifies `bitmap, `files, `owner, bc
      ensures Valid() && SameSizes(old(View()), View())
      ensures Truncated(old(View()), old(owner), View(), owner, f, NBlocks(newsize))
    {
      var oldBlocks, newBlocks := NBlocks32(files[f].size), NBlocks32(newsize);
      FreeRange(f, newBlocks, oldBlocks);
      DropAll(old(View()), old(owner), View(), owner, reserved, f, newsize, Max(newBlocks, oldBlocks));
      NBlocks32Is(newsize);
      if newBlocks <= NDIRECT && files[f].indirect != 0 {
        DropIndirect(old(View()), old(owner), View(), owner, reserved, f, NBlocks(newsize));
        FreeIndirect(f);
      } else {
        KeepIndirect(old(View()), old(owner), View(), owner, reserved, f, NBlocks(newsize));
      }
    }

    /** Stores the size and flushes the record. */
    method PutSize(f: nat, newsize: nat, ghost im: Image, ghost o: map<nat, Site>)
      requires Valid() && f in files && Truncated(im, o, View(), owner, f, NBlocks(newsize))
      modifies `files, `stored
      ensures Valid() && files == old(files)[f := old(files)[f].(size := newsize)]
      ensures Truncated(im, o, View(), owner, f, NBlocks(newsize)) && SameBytes(old(View()), View())
    {
      ResizeStep(im, o, View(), owner, reserved, f, newsize);
      files := files[f := files[f].(size := newsize)];
      assert View() == SetFile(old(View()), f, old(View()).files[f].(size := newsize));
      FlushRecord(f);
    }

    /** Sets the size, truncating or extending as necessary. */
    method FileSetSize(f: nat, newsize: nat) returns (r: int)
      requires Valid() && f in files && files[f].size < 0x8000_0000 && newsize < 0x8000_0000
      modifies `bitmap, `files, `stored, `owner, bc
      ensures Valid() && r == 0
      ensures Resized(old(View()), View(), f, newsize)
      ensures Truncated(old(View()), old(owner), View(), owner, f, NBlocks(newsize))
      ensures newsize >= old(files)[f].size ==> SameBytes(old(View()), View()) && View().free == old(View()).free
    {
      if files[f].size > newsize {
        FileTruncateBlocks(f, newsize);
      } else {
        GrowNothing(View(), owner, reserved, f, newsize);
      }
      PutSize(f, newsize, old(View()), old(owner));
      r := 0;
    }

    /** flush_block on the block that holds a File record: every record in it is stored. */
    method FlushRecord(f: nat)
      requires f in files
      modifies `stored
      ensures f in stored && stored[f] == files[f]
    {
      stored := map g | g in files && (g in stored || g == f) ::
        if g == f || (g in home && f in home && home[g] == home[f]) then files[g] else stored[g];
    }

    // ---- Reading and writing -------------------------------------------------------------------------------

    /** The part of a read that lies in one block: `want` is what the file held from offset on when the
        read began, and `done` bytes of it have been read. */
    method ReadPart(f: nat, offset: nat, done: nat, bn: nat, ghost im: Image, ghost want: seq<Byte>)
      returns (r: int, part: seq<Byte>)
      requires Valid() && Unmoved(im, View()) && f in files && IsSlice(im, f, offset, want) && done + bn <= |want|
      requires offset + done < files[f].size && (offset + done) % 4096 + bn <= 4096
      modifies `bitmap, `files, `owner, bc
      ensures Valid() && Unmoved(im, View())
      ensures BlockError(r, offset + done, View().free)
      ensures r == 0 ==> part == want[done..done + bn] && offset + done + bn <= MAXFILE
    {
      var pos := offset + done;
      SlotRange(pos, bn);
      part := [];
      var b;
      r, b := FileGetBlock(f, pos / 4096);
      UnmovedTrans(im, old(View()), View());
      if r < 0 {
        return;
      }
      DataBlock(View(), owner, reserved, f, pos / 4096);
      var x := ReadBlock(b);
      part := x[pos % 4096..pos % 4096 + bn];
      BlockIsWanted(im, View(), f, offset, done, bn, want);
    }

    /** The file_read loop: n bytes that lie inside the file, or as many as it gets. */
    method ReadRange(f: nat, offset: nat, n: nat, ghost want: seq<Byte>) returns (r: int, done: nat, buf: seq<Byte>)
      requires Valid() && f in files && offset + n <= files[f].size && |want| == n && IsSlice(View(), f, offset, want)
      modifies `bitmap, `files, `owner, bc
      ensures Valid() && Unmoved(old(View()), View())
      ensures done <= n && buf == want[..done] && (done == 0 || offset + done <= MAXFILE)
      ensures BlockError(r, offset + done, View().free) || r == 0
      ensures r == 0 <==> done == n
    {
      ghost var im := View();
      buf, done, r := [], 0, 0;
      while done < n
        invariant Valid() && Unmoved(im, View()) && done <= n && buf == want[..done] && r == 0
        invariant done == 0 || offset + done <= MAXFILE
      {
        assert f in files && files[f].size == im.files[f].size;
        var bn, part := Chunk(offset + done, n - done), [];
        r, part := ReadPart(f, offset, done, bn, im, want);
        if r < 0 {
          return;
        }
        PrefixJoin(want, done, bn);
        buf, done := buf + part, done + bn;
      }
    }

    /** pread: the bytes from offset on, cut at the end of the file. */
    method FileRead(f: nat, count: nat, offset: nat) returns (r: int, buf: seq<Byte>)
      requires Valid() && f in files
      modifies `bitmap, `files, `owner, bc
      ensures Valid() && Unmoved(old(View()), View())
      ensures buf == Slice(old(View()), f, offset, |buf|) && |buf| <= InFile(old(files)[f].size, offset, count)
      ensures r >= 0 ==> r == |buf| == InFile(old(files)[f].size, offset, count)
      ensures r >= 0 && offset >= old(files)[f].size ==> r == 0
      ensures r >= 0 && offset < old(files)[f].size ==>
                r <= count && offset + r <= old(files)[f].size && (r == count || offset + r == old(files)[f].size)
      ensures Refusal(r, offset, InFile(old(files)[f].size, offset, count), View().free)
    {
      if offset >= files[f].size {
        return 0, [];
      }
      var n := Min(count, files[f].size - offset);
      ghost var want := Slice(View(), f, offset, n);
      SliceIs(View(), f, offset, n);
      var done;
      r, done, buf := ReadRange(f, offset, n, want);
      SlicePrefix(old(View()), f, offset, n, done);
      if r == 0 {
        r := n;
      }
    }

    /** The part of a write that lies in one block. */
    method WritePart(f: nat, pos: nat, part: seq<Byte>) returns (r: int)
      requires Valid() && f in files && pos < files[f].size && pos % 4096 + |part| <= 4096
      modifies `bitmap, `files, `owner, bc
      ensures Valid() && SameSizes(old(View()), View())
      ensures BlockError(r, pos, View().free)
      ensures r == 0 ==> pos + |part| <= MAXFILE
      ensures Written(old(View()), View(), f, pos, if r == 0 then part else [])
    {
      SlotRange(pos, |part|);
      var b;
      r, b := FileGetBlock(f, pos / 4096);
      if r < 0 {
        return;
      }
      DataBlock(View(), owner, reserved, f, pos / 4096);
      var x := ReadBlock(b);
      var y := x[..pos % 4096] + part + x[pos % 4096 + |part|..];
      WriteStep(View(), owner, reserved, b, y);
      PartWritten(old(View()), View(), owner, reserved, f, pos, part, y);
      WriteBlock(b, y);
    }

    /** One turn of the file_write loop.  im is the image when the write began and done the
        number of bytes written so far. */
    method WriteMore(f: nat, buf: seq<Byte>, offset: nat, done: nat, bn: nat, ghost im: Image) returns (r: int)
      requires Valid() && f in files && done + bn <= |buf| && Written(im, View(), f, offset, buf[..done])
      requires offset + done < files[f].size && (offset + done) % 4096 + bn <= 4096
      modifies `bitmap, `files, `owner, bc
      ensures Valid() && SameSizes(old(View()), View())
      ensures BlockError(r, offset + done, View().free)
      ensures r == 0 ==> offset + done + bn <= MAXFILE
      ensures Written(im, View(), f, offset, buf[..if r == 0 then done + bn else done])
    {
      r := WritePart(f, offset + done, buf[done..done + bn]);
      var n := if r == 0 then bn else 0;
      assert buf[done..done + n] == if r == 0 then buf[done..done + bn] else [];
      WrittenMore(im, old(View()), View(), f, offset, buf, done, n);
    }

    /** file_write's first step. */
    method Extend(f: nat, end: nat)
      requires Valid() && f in files && files[f].size < 0x8000_0000 && end < 0x8000_0000
      modifies `bitmap, `files, `stored, `owner, bc
      ensures Valid() && SameBytes(old(View()), View())
      ensures Resized(old(View()), View(), f, Max(old(files)[f].size, end))
    {
      if end > files[f].size {
        var _ := FileSetSize(f, end);
      }
    }

    /** The file_write loop, once the file is long enough: all of buf, or as much as it gets. */
    method WriteRange(f: nat, buf: seq<Byte>, offset: nat, ghost im: Image, ghost size: nat) returns (r: int, done: nat)
      requires Valid() && Resized(im, View(), f, size) && offset + |buf| <= size
      requires Written(im, View(), f, offset, buf[..0])
      modifies `bitmap, `files, `owner, bc
      ensures Valid() && Resized(im, View(), f, size)
      ensures done <= |buf| && Written(im, View(), f, offset, buf[..done]) && (done == 0 || offset + done <= MAXFILE)
      ensures BlockError(r, offset + done, View().free) || r == 0
      ensures r == 0 <==> done == |buf|
    {
      done, r := 0, 0;
      while done < |buf|
        invariant Valid() && done <= |buf| && (done == 0 || offset + done <= MAXFILE) && r == 0
        invariant Resized(im, View(), f, size)
        invariant Written(im, View(), f, offset, buf[..done])
      {
        var bn := Chunk(offset + done, |buf| - done);
        r := WriteMore(f, buf, offset, done, bn, im);
        if r < 0 {
          return;
        }
        done := done + bn;
      }
    }

    /** pwrite: exactly the bytes [offset, offset + |buf|) of f change.  If the disk or the
        file's block table runs out, a prefix has been written. */
    method FileWrite(f: nat, buf: seq<Byte>, offset: nat) returns (r: int)
      requires Valid() && f in files && files[f].size < 0x8000_0000 && offset + |buf| < 0x8000_0000
      modifies `bitmap, `files, `stored, `owner, bc
      ensures Valid()
      ensures Resized(old(View()), View(), f, Max(old(files)[f].size, offset + |buf|))
      ensures r >= 0 ==> r == |buf| && Written(old(View()), View(), f, offset, buf)
      ensures r < 0 ==> PrefixWritten(old(View()), View(), f, offset, buf)
      ensures Refusal(r, offset, |buf|, View().free)
    {
      ghost var im := View();
      ghost var size := Max(files[f].size, offset + |buf|);
      Extend(f, offset + |buf|);
      WrittenNothing(im, View(), f, offset, buf);
      var done;
      r, done := WriteRange(f, buf, offset, im, size);
      assert buf[..|buf|] == buf;
      if r == 0 {
        r := |buf|;
      }
    }

    // ---- Flushing -----------------------------------------------------------------------------------------

    /** What the disk alone holds. */
    ghost function OnDisk(): Image
      reads this, bc
    {
      Image(FreeSet(bitmap, bc.nblocks), bc.disk, stored)
    }

    /** One turn of the file_flush loop. */
    method FlushFileBlock(f: nat, i: nat)
      requires Valid() && f in files
      modifies `bitmap, `files, `owner, bc
      ensures Valid() && View() == old(View()) && owner == old(owner)
      ensures var b := BlockOf(View(), f, i);
              bc.disk == if b == 0 then old(bc.disk) else old(bc.disk)[b := View().blocks[b]]
    {
      var r := FileBlockWalk(f, i, false);
      if r < 0 {
        return;
      }
      var b := GetSite(SiteOf(f, i));
      if b == 0 {
        return;
      }
      DataBlock(View(), owner, reserved, f, i);
      bc.Flush(b);
    }

    /** The end of file_flush: once the record and the indirect block are on disk, the disk gives the
        file's contents exactly when it has the file's blocks. */
    method FlushIndirect(f: nat)
      requires Valid() && f in files && f in stored && stored[f] == files[f]
      modifies bc
      ensures Valid() && View() == old(View())
      ensures SameContents(OnDisk(), View(), f) <==> FlushedTo(View(), old(bc.disk), f, NBlocks(files[f].size))
      ensures forall b :: 0 <= b < bc.nblocks && b != files[f].indirect ==> bc.disk[b] == old(bc.disk)[b]
    {
      if files[f].indirect != 0 {
        IndirectOwned(View(), owner, reserved, f);
        bc.Flush(files[f].indirect);
      }
      FlushDecodes(View(), owner, reserved, old(bc.disk), OnDisk(), f);
    }

    /** Writes a file's blocks, record and indirect block to disk: afterwards the disk
        alone gives the file the contents it has through the cache.  Within 4095 bytes of
        2^31 the block count overflows and no data block is written: then it does so only if
        the disk had the data already. */
    method FileFlush(f: nat)
      requires Valid() && f in files && files[f].size < 0x8000_0000
      modifies `bitmap, `files, `stored, `owner, bc
      ensures Valid() && View() == old(View()) && f in stored && stored[f] == files[f]
      ensures SameContents(OnDisk(), View(), f) <==>
                files[f].size + 4095 < 0x8000_0000 || FlushedTo(View(), old(bc.disk), f, NBlocks(files[f].size))
      ensures files[f].size + 4095 >= 0x8000_0000 ==>
                forall b :: 0 <= b < bc.nblocks && b != files[f].indirect ==> bc.disk[b] == old(bc.disk)[b]
    {
      var n := if files[f].size + 4095 < 0x8000_0000 then (files[f].size + 4095) / 4096 else 0;
      var i := 0;
      while i < n
        invariant Valid() && View() == old(View()) && 0 <= i <= n
        invariant FlushedTo(View(), bc.disk, f, i)
        invariant n == 0 ==> bc.disk == old(bc.disk)
      {
        FlushOne(View(), owner, reserved, bc.disk, f, i);
        FlushFileBlock(f, i);
        i := i + 1;
      }
      FlushRecord(f);
      FlushIndirect(f);
    }
  }

  /** What finding the block of one position can answer: past the last slot of the indirect block
      it is out of range, and it fails for want of a block only when none is left. */
  ghost predicate BlockError(r: int, pos: nat, free: set<nat>) {
    && (r == 0 || r == -E_INVAL || r == -E_NO_DISK)
    && (r == -E_INVAL <==> pos >= MAXFILE)
    && (r == -E_NO_DISK ==> free == {})
  }

  /** How much of `left` bytes from pos on lies in the block of pos. */
  function Chunk(pos: nat, left: nat): (bn: nat)
    requires left > 0
    ensures 0 < bn <= left && pos % 4096 + bn <= 4096
  {
    Min(4096 - pos % 4096, left)
  }

  /** A position has a slot exactly below the largest file size, and a block ends there at most. */
  lemma SlotRange(pos: nat, bn: nat)
    requires pos % 4096 + bn <= 4096
    ensures pos / 4096 >= NDIRECT + NINDIRECT <==> pos >= MAXFILE
    ensures pos < MAXFILE ==> pos + bn <= MAXFILE
  {
  }

  /** What a read or write of [offset, offset + n) answers: it succeeds only inside the largest
      possible file, refuses a range for its position only if it reaches past that, and runs
      out of disk only if no block is free. */
  ghost predicate Refusal(r: int, offset: nat, n: nat, free: set<nat>) {
    && (r >= 0 || r == -E_INVAL || r == -E_NO_DISK)
    && (r >= 0 ==> n == 0 || offset + n <= MAXFILE)
    && (r == -E_INVAL ==> n > 0 && offset + n > MAXFILE)
    && (r == -E_NO_DISK ==> n > 0 && free == {})
  }

  /** How many of `count` bytes from offset on lie in a file of that size. */
  function InFile(size: nat, offset: nat, count: nat): nat {
    if offset >= size then 0 else Min(count, size - offset)
  }

  /** An indirect block is a block in use. */
  lemma IndirectOwned(im: Image, owner: map<nat, Site>, reserved: nat, f: nat)
    requires Inv(im, owner, reserved) && f in im.files && im.files[f].indirect != 0
    ensures reserved <= im.files[f].indirect < |im.blocks| && im.files[f].indirect !in im.free
    ensures im.files[f].indirect in owner && owner[im.files[f].indirect] == Indirect(f)
  {
    assert Val(im, Indirect(f)) == im.files[f].indirect;
  }

  function Min(a: int, b: int): int {
    if a < b then a else b
  }

  function Max(a: nat, b: nat): nat {
    if a < b then b else a
  }

  /** The same files with the same sizes and contents; blocks may have been allocated. */
  ghost predicate Unmoved(im: Image, im': Image) {
    SameBytes(im, im') && SameSizes(im, im')
  }

  ghost predicate SameSizes(im: Image, im': Image) {
    im'.files.Keys == im.files.Keys && forall f :: f in im.files ==> im'.files[f].size == im.files[f].size
  }

  /** File f has the given size, and the others the sizes they had. */
  ghost predicate Resized(im: Image, im': Image, f: nat, size: nat) {
    && im'.files.Keys == im.files.Keys && f in im.files && im'.files[f].size == size
    && forall g :: g in im.files && g != f ==> im'.files[g].size == im.files[g].size
  }

  /** buf has been stored at offset in file f, and no other byte of any file changed. */
  ghost predicate Written(im: Image, im': Image, f: nat, offset: nat, buf: seq<Byte>) {
    forall g, pos: nat {:trigger ByteAt(im', g, pos)} :: ByteAt(im', g, pos) ==
      if g == f && offset <= pos < offset + |buf| then buf[pos - offset] else ByteAt(im, g, pos)
  }

  /** The first so many bytes of buf have been stored. */
  ghost predicate PrefixWritten(im: Image, im': Image, f: nat, offset: nat, buf: seq<Byte>) {
    exists n :: 0 <= n <= |buf| && Written(im, im', f, offset, buf[..n])
  }

  lemma UnmovedTrans(a: Image, b: Image, c: Image)
    requires Unmoved(a, b) && Unmoved(b, c)
    ensures Unmoved(a, c)
  {
  }

  lemma AttachUnmoved(im: Image, owner: map<nat, Site>, reserved: nat, s: Site)
    requires Inv(im, owner, reserved) && Exists(im, s) && Val(im, s) == 0
    ensures forall b :: b in im.free ==> Unmoved(im, Attach(im, s, b)) && Val(Attach(im, s, b), s) == b
                                         && b != 0 && (s.Indirect? ==> Attach(im, s, b).files[s.f].indirect == b)
  {
    forall b | b in im.free
      ensures Unmoved(im, Attach(im, s, b)) && Val(Attach(im, s, b), s) == b
      ensures b != 0 && (s.Indirect? ==> Attach(im, s, b).files[s.f].indirect == b)
    {
      AttachBytes(im, owner, reserved, s, b);
      AttachSites(im, owner, reserved, s, b);
      AttachShape(im, s, b);
    }
  }

  /** A file's block is a data block in use. */
  lemma DataBlock(im: Image, owner: map<nat, Site>, reserved: nat, f: nat, i: nat)
    requires Inv(im, owner, reserved) && BlockOf(im, f, i) != 0
    ensures 0 < BlockOf(im, f, i) < |im.blocks| && BlockOf(im, f, i) !in im.free
    ensures BlockOf(im, f, i) in owner && owner[BlockOf(im, f, i)] == SiteOf(f, i)
  {
  }

  /** The bytes [pos, pos + n) of file f. */
  ghost function Slice(im: Image, f: nat, pos: nat, n: nat): (s: seq<Byte>)
    ensures |s| == n
  {
    if n == 0 then [] else Slice(im, f, pos, n - 1) + [ByteAt(im, f, pos + n - 1)]
  }

  lemma {:induction false} SliceIndex(im: Image, f: nat, pos: nat, n: nat, k: nat)
    requires k < n
    ensures Slice(im, f, pos, n)[k] == ByteAt(im, f, pos + k)
  {
    if k < n - 1 {
      SliceIndex(im, f, pos, n - 1, k);
    }
  }

  /** buf is what file f holds from pos on. */
  ghost predicate IsSlice(im: Image, f: nat, pos: nat, buf: seq<Byte>) {
    forall k :: 0 <= k < |buf| ==> buf[k] == ByteAt(im, f, pos + k)
  }

  lemma SliceIs(im: Image, f: nat, pos: nat, n: nat)
    ensures IsSlice(im, f, pos, Slice(im, f, pos, n))
  {
    forall k | 0 <= k < n ensures Slice(im, f, pos, n)[k] == ByteAt(im, f, pos + k) {
      SliceIndex(im, f, pos, n, k);
    }
  }

  lemma {:induction false} SlicePrefix(im: Image, f: nat, pos: nat, n: nat, k: nat)
    requires k <= n
    ensures Slice(im, f, pos, n)[..k] == Slice(im, f, pos, k)
  {
    if k < n {
      SlicePrefix(im, f, pos, n - 1, k);
    }
  }

  lemma PrefixJoin(s: seq<Byte>, n: nat, k: nat)
    requires n + k <= |s|
    ensures s[..n] + s[n..n + k] == s[..n + k]
  {
  }

  /** The block's bytes are the wanted ones. */
  lemma BlockIsWanted(im: Image, im': Image, f: nat, offset: nat, done: nat, bn: nat, want: seq<Byte>)
    requires SameBytes(im, im') && IsSlice(im, f, offset, want) && done + bn <= |want|
    requires (offset + done) % 4096 + bn <= 4096
    requires 0 < BlockOf(im', f, (offset + done) / 4096) < |im'.blocks|
    ensures var pos := offset + done;
            im'.blocks[BlockOf(im', f, pos / 4096)][pos % 4096..pos % 4096 + bn] == want[done..done + bn]
  {
    var pos := offset + done;
    var x, y := im'.blocks[BlockOf(im', f, pos / 4096)][pos % 4096..pos % 4096 + bn], want[done..done + bn];
    forall k | 0 <= k < bn ensures x[k] == y[k] {
      SameBlock(pos, k);
      assert want[done + k] == ByteAt(im, f, offset + (done + k));
      assert ByteAt(im', f, pos + k) == ByteAt(im, f, pos + k);
    }
  }

  lemma SameBlock(pos: nat, k: nat)
    requires pos % 4096 + k < 4096
    ensures (pos + k) / 4096 == pos / 4096 && (pos + k) % 4096 == pos % 4096 + k
  {
  }

  /** Replacing the contents of one data block changes that stretch of its file only. */
  lemma WriteBytes(im: Image, owner: map<nat, Site>, reserved: nat, f: nat, i: nat, y: Block)
    requires Inv(im, owner, reserved) && BlockOf(im, f, i) != 0
    ensures var b := BlockOf(im, f, i);
            forall g, pos: nat :: ByteAt(SetBlock(im, b, y), g, pos) ==
              if g == f && pos / 4096 == i then y[pos % 4096] else ByteAt(im, g, pos)
  {
    var b := BlockOf(im, f, i);
    DataBlock(im, owner, reserved, f, i);
    DataSites(im, owner, reserved, b, y);
    forall g, pos: nat
      ensures ByteAt(SetBlock(im, b, y), g, pos) ==
              if g == f && pos / 4096 == i then y[pos % 4096] else ByteAt(im, g, pos)
    {
      if BlockOf(im, g, pos / 4096) == b {
        assert owner[b] == SiteOf(g, pos / 4096);
      }
    }
  }

  /** What writing a part of one block does to the bytes of all files. */
  lemma PartWritten(im: Image, mid: Image, owner: map<nat, Site>, reserved: nat, f: nat, pos: nat, part: seq<Byte>,
                    y: Block)
    requires Inv(mid, owner, reserved) && SameBytes(im, mid) && pos % 4096 + |part| <= 4096
    requires 0 < BlockOf(mid, f, pos / 4096) < |mid.blocks|
    requires y == mid.blocks[BlockOf(mid, f, pos / 4096)][..pos % 4096] + part
                  + mid.blocks[BlockOf(mid, f, pos / 4096)][pos % 4096 + |part|..]
    ensures Written(im, SetBlock(mid, BlockOf(mid, f, pos / 4096), y), f, pos, part)
  {
    var b := BlockOf(mid, f, pos / 4096);
    WriteBytes(mid, owner, reserved, f, pos / 4096, y);
    forall g, p: nat
      ensures ByteAt(SetBlock(mid, b, y), g, p) ==
              if g == f && pos <= p < pos + |part| then part[p - pos] else ByteAt(im, g, p)
    {
      assert ByteAt(mid, g, p) == ByteAt(im, g, p);
      if pos <= p < pos + |part| {
        SameBlock(pos, p - pos);
      }
      if g == f && p / 4096 == pos / 4096 {
        PartByte(mid.blocks[b], y, part, pos, p);
      }
    }
  }

  lemma PartByte(x: Block, y: Block, part: seq<Byte>, pos: nat, p: nat)
    requires pos % 4096 + |part| <= 4096 && p / 4096 == pos / 4096
    requires y == x[..pos % 4096] + part + x[pos % 4096 + |part|..]
    ensures y[p % 4096] == if pos <= p < pos + |part| then part[p - pos] else x[p % 4096]
  {
    assert p - pos == p % 4096 - pos % 4096;
  }

  lemma WrittenNothing(im: Image, im': Image, f: nat, offset: nat, buf: seq<Byte>)
    requires SameBytes(im, im')
    ensures Written(im, im', f, offset, buf[..0])
  {
  }

  lemma WrittenMore(im0: Image, im: Image, im': Image, f: nat, offset: nat, buf: seq<Byte>, n: nat, bn: nat)
    requires n + bn <= |buf| && Written(im0, im, f, offset, buf[..n]) && Written(im, im', f, offset + n, buf[n..n + bn])
    ensures Written(im0, im', f, offset, buf[..n + bn])
  {
    forall g, p: nat
      ensures ByteAt(im', g, p) ==
              if g == f && offset <= p < offset + n + bn then buf[p - offset] else ByteAt(im0, g, p)
    {
      assert ByteAt(im, g, p) == if g == f && offset <= p < offset + n then buf[p - offset] else ByteAt(im0, g, p);
    }
  }

  // ---- Truncation ---------------------------------------------------------------------------------------------

  /** (size + BLKSIZE - 1) / BLKSIZE in 32-bit signed arithmetic, stored in an unsigned. */
  function NBlocks32(size: nat): nat
    requires size < 0x8000_0000
  {
    if size + 4095 < 0x8000_0000 then (size + 4095) / 4096
    else 0x1_0000_0000 - (0x1_0000_0000 - (size + 4095)) / 4096
  }

  /** Overflow only happens far past the largest file. */
  lemma NBlocks32Is(size: nat)
    requires size < 0x8000_0000
    ensures NBlocks32(size) == NBlocks(size) || (NBlocks32(size) >= 1034 && NBlocks(size) >= 1034)
  {
  }

  /** The bytes of f from block n on are zero, and no other byte of any file changed. */
  ghost predicate Dropped(im: Image, im': Image, f: nat, n: nat) {
    forall g, pos: nat :: ByteAt(im', g, pos) == if g == f && pos / 4096 >= n then 0 else ByteAt(im, g, pos)
  }

  /** Site s names one of the blocks [lo, hi) of file f. */
  predicate InRange(s: Site, f: nat, lo: nat, hi: nat) {
    s.f == f && !s.Indirect? && lo <= Index(s) < hi
  }

  ghost predicate DroppedTo(im: Image, o: map<nat, Site>, im': Image, o': map<nat, Site>, f: nat, lo: nat, hi: nat) {
    && (forall s :: Val(im', s) == if InRange(s, f, lo, hi) then 0 else Val(im, s))
    && (forall b :: (b in o' <==> b in o && !InRange(o[b], f, lo, hi)) && (b in o' ==> o'[b] == o[b]))
    && (forall g, pos: nat :: ByteAt(im', g, pos) ==
          if g == f && lo <= pos / 4096 < hi then 0 else ByteAt(im, g, pos))
  }

  lemma DropStart(im: Image, o: map<nat, Site>, f: nat, lo: nat)
    ensures DroppedTo(im, o, im, o, f, lo, lo)
  {
  }

  /** One turn of the truncation loop. */
  lemma DropOne(im0: Image, o0: map<nat, Site>, im: Image, o: map<nat, Site>, reserved: nat, f: nat, lo: nat, i: nat)
    requires Inv(im, o, reserved) && DroppedTo(im0, o0, im, o, f, lo, i) && lo <= i
    ensures BlockOf(im, f, i) == 0 ==> DroppedTo(im0, o0, im, o, f, lo, i + 1)
    ensures BlockOf(im, f, i) != 0 && Exists(im, SiteOf(f, i)) ==>
              DroppedTo(im0, o0, Detach(im, SiteOf(f, i)), o - {BlockOf(im, f, i)}, f, lo, i + 1)
  {
    var s := SiteOf(f, i);
    RangeGrows(im, o, reserved, f, lo, i);
    if BlockOf(im, f, i) == 0 {
      DropNothing(im0, o0, im, o, f, lo, i);
    } else if Exists(im, s) {
      DataBlock(im, o, reserved, f, i);
      DetachStep(im, o, reserved, s);
      DetachBytes(im, o, reserved, s);
      DropSite(im0, o0, im, o, f, lo, i);
    }
  }

  /** Only the site of block i joins the range, as far as blocks in use go. */
  lemma RangeGrows(im: Image, o: map<nat, Site>, reserved: nat, f: nat, lo: nat, i: nat)
    requires Inv(im, o, reserved) && lo <= i
    ensures forall r :: Val(im, r) != 0 ==> (InRange(r, f, lo, i + 1) <==> InRange(r, f, lo, i) || r == SiteOf(f, i))
    ensures forall b :: b in o ==> (InRange(o[b], f, lo, i + 1) <==> InRange(o[b], f, lo, i) || o[b] == SiteOf(f, i))
  {
    forall r | Val(im, r) != 0
      ensures InRange(r, f, lo, i + 1) <==> InRange(r, f, lo, i) || r == SiteOf(f, i)
    {
      SmallIndex(im, o, reserved, r);
    }
    forall b | b in o
      ensures InRange(o[b], f, lo, i + 1) <==> InRange(o[b], f, lo, i) || o[b] == SiteOf(f, i)
    {
      assert Val(im, o[b]) == b;
    }
  }

  lemma DropNothing(im0: Image, o0: map<nat, Site>, im: Image, o: map<nat, Site>, f: nat, lo: nat, i: nat)
    requires DroppedTo(im0, o0, im, o, f, lo, i) && lo <= i && BlockOf(im, f, i) == 0
    requires forall r :: Val(im, r) != 0 ==> (InRange(r, f, lo, i + 1) <==> InRange(r, f, lo, i) || r == SiteOf(f, i))
    requires forall b :: b in o ==> (InRange(o[b], f, lo, i + 1) <==> InRange(o[b], f, lo, i) || o[b] == SiteOf(f, i))
    requires forall b :: b in o ==> b != 0 && Val(im, o[b]) == b
    ensures DroppedTo(im0, o0, im, o, f, lo, i + 1)
  {
    forall g, pos: nat
      ensures ByteAt(im, g, pos) == if g == f && lo <= pos / 4096 < i + 1 then 0 else ByteAt(im0, g, pos)
    {
    }
  }

  lemma DropSite(im0: Image, o0: map<nat, Site>, im: Image, o: map<nat, Site>, f: nat, lo: nat, i: nat)
    requires DroppedTo(im0, o0, im, o, f, lo, i) && lo <= i && BlockOf(im, f, i) != 0
    requires forall r :: Val(im, r) != 0 ==> (InRange(r, f, lo, i + 1) <==> InRange(r, f, lo, i) || r == SiteOf(f, i))
    requires forall b :: b in o ==> (InRange(o[b], f, lo, i + 1) <==> InRange(o[b], f, lo, i) || o[b] == SiteOf(f, i))
    requires forall b :: b in o ==> b != 0 && Val(im, o[b]) == b
    requires BlockOf(im, f, i) in o && o[BlockOf(im, f, i)] == SiteOf(f, i)
    requires forall r :: Val(Detach(im, SiteOf(f, i)), r) == if r == SiteOf(f, i) then 0 else Val(im, r)
    requires forall g, pos: nat ::
               ByteAt(Detach(im, SiteOf(f, i)), g, pos) ==
               if SiteOf(g, pos / 4096) == SiteOf(f, i) then 0 else ByteAt(im, g, pos)
    ensures DroppedTo(im0, o0, Detach(im, SiteOf(f, i)), o - {BlockOf(im, f, i)}, f, lo, i + 1)
  {
    DropOwner(im0, o0, im, o, f, lo, i);
    DropContents(im0, o0, im, o, f, lo, i);
  }

  lemma DropOwner(im0: Image, o0: map<nat, Site>, im: Image, o: map<nat, Site>, f: nat, lo: nat, i: nat)
    requires DroppedTo(im0, o0, im, o, f, lo, i) && lo <= i && BlockOf(im, f, i) != 0
    requires forall b :: b in o ==> (InRange(o[b], f, lo, i + 1) <==> InRange(o[b], f, lo, i) || o[b] == SiteOf(f, i))
    requires forall b :: b in o ==> b != 0 && Val(im, o[b]) == b
    requires BlockOf(im, f, i) in o && o[BlockOf(im, f, i)] == SiteOf(f, i)
    ensures var o' := o - {BlockOf(im, f, i)};
            forall c :: (c in o' <==> c in o0 && !InRange(o0[c], f, lo, i + 1)) && (c in o' ==> o'[c] == o0[c])
  {
    var o' := o - {BlockOf(im, f, i)};
    forall c
      ensures (c in o' <==> c in o0 && !InRange(o0[c], f, lo, i + 1)) && (c in o' ==> o'[c] == o0[c])
    {
      assert c in o <==> c in o0 && !InRange(o0[c], f, lo, i);
    }
  }

  lemma DropContents(im0: Image, o0: map<nat, Site>, im: Image, o: map<nat, Site>, f: nat, lo: nat, i: nat)
    requires DroppedTo(im0, o0, im, o, f, lo, i) && lo <= i
    requires forall g, pos: nat ::
               ByteAt(Detach(im, SiteOf(f, i)), g, pos) ==
               if SiteOf(g, pos / 4096) == SiteOf(f, i) then 0 else ByteAt(im, g, pos)
    ensures forall g, pos: nat :: ByteAt(Detach(im, SiteOf(f, i)), g, pos) ==
                                  if g == f && lo <= pos / 4096 < i + 1 then 0 else ByteAt(im0, g, pos)
  {
    var s := SiteOf(f, i);
    forall g, pos: nat
      ensures ByteAt(Detach(im, s), g, pos) == if g == f && lo <= pos / 4096 < i + 1 then 0 else ByteAt(im0, g, pos)
    {
      assert SiteOf(g, pos / 4096) == s <==> g == f && pos / 4096 == i;
    }
  }

  /** Site s names a block at or past block n of file f. */
  predicate Past(s: Site, f: nat, n: nat) {
    s.f == f && !s.Indirect? && Index(s) >= n
  }

  ghost predicate Shed(im: Image, o: map<nat, Site>, im': Image, o': map<nat, Site>, f: nat, n: nat) {
    && (forall s :: Val(im', s) == if Past(s, f, n) then 0 else Val(im, s))
    && (forall b :: (b in o' <==> b in o && !Past(o[b], f, n)) && (b in o' ==> o'[b] == o[b]))
    && Dropped(im, im', f, n)
  }

  /** Exactly the blocks past block n of f, and its indirect block if n direct slots are
      enough, have been freed; their bytes read as zero and no other byte changed. */
  ghost predicate Truncated(im: Image, o: map<nat, Site>, im': Image, o': map<nat, Site>, f: nat, n: nat) {
    && (forall b :: b in im'.free <==> b in im.free || (b in o && o[b].f == f && Index(o[b]) >= n))
    && (forall b :: (b in o' <==> b in o && !(o[b].f == f && Index(o[b]) >= n)) && (b in o' ==> o'[b] == o[b]))
    && Dropped(im, im', f, n)
  }

  lemma SmallIndex(im: Image, o: map<nat, Site>, reserved: nat, s: Site)
    requires Inv(im, o, reserved) && Val(im, s) != 0
    ensures Index(s) < 1034 && Index(s) < NBlocks(im.files[s.f].size)
    ensures !s.Indirect? ==> s == SiteOf(s.f, Index(s))
  {
  }

  /** When the loop ends, nothing is left past the new end. */
  lemma DropAll(im0: Image, o0: map<nat, Site>, im: Image, o: map<nat, Site>, reserved: nat, f: nat, newsize: nat,
                hi: nat)
    requires Inv(im0, o0, reserved) && f in im0.files && newsize < im0.files[f].size < 0x8000_0000
    requires DroppedTo(im0, o0, im, o, f, NBlocks32(newsize), hi) && hi >= NBlocks32(im0.files[f].size)
    ensures Shed(im0, o0, im, o, f, NBlocks(newsize))
  {
    var n := NBlocks(newsize);
    NBlocks32Is(newsize);
    NBlocks32Is(im0.files[f].size);
    forall s | Val(im0, s) != 0
      ensures InRange(s, f, NBlocks32(newsize), hi) <==> Past(s, f, n)
    {
      SmallIndex(im0, o0, reserved, s);
    }
    forall b | b in o0
      ensures InRange(o0[b], f, NBlocks32(newsize), hi) <==> Past(o0[b], f, n)
    {
      assert Val(im0, o0[b]) == b;
    }
    forall g, pos: nat
      ensures ByteAt(im, g, pos) == if g == f && pos / 4096 >= n then 0 else ByteAt(im0, g, pos)
    {
      var s := SiteOf(g, pos / 4096);
      assert Val(im0, s) != 0 ==> (InRange(s, f, NBlocks32(newsize), hi) <==> Past(s, f, n));
    }
  }

  lemma KeepIndirect(im0: Image, o0: map<nat, Site>, im: Image, o: map<nat, Site>, reserved: nat, f: nat, n: nat)
    requires Inv(im0, o0, reserved) && Inv(im, o, reserved) && |im.blocks| == |im0.blocks|
    requires Shed(im0, o0, im, o, f, n) && f in im.files && f in im0.files
    requires n <= NDIRECT ==> im.files[f].indirect == 0
    ensures Truncated(im0, o0, im, o, f, n)
  {
    forall b | b in o0
      ensures Past(o0[b], f, n) <==> o0[b].f == f && Index(o0[b]) >= n
    {
      if o0[b] == Indirect(f) {
        assert Val(im, Indirect(f)) == Val(im0, Indirect(f)) == b;
      }
    }
    FreeFromOwner(im0, o0, im, o, reserved, f, n);
  }

  lemma FreeFromOwner(im0: Image, o0: map<nat, Site>, im: Image, o: map<nat, Site>, reserved: nat, f: nat, n: nat)
    requires Inv(im0, o0, reserved) && Inv(im, o, reserved) && |im.blocks| == |im0.blocks|
    requires forall b :: b in o <==> b in o0 && !(o0[b].f == f && Index(o0[b]) >= n)
    ensures forall b :: b in im.free <==> b in im0.free || (b in o0 && o0[b].f == f && Index(o0[b]) >= n)
  {
    forall b
      ensures b in im.free <==> b in im0.free || (b in o0 && o0[b].f == f && Index(o0[b]) >= n)
    {
      assert b in o <==> b in o0 && !(o0[b].f == f && Index(o0[b]) >= n);
    }
  }

  /** The indirect block goes once all its slots are empty. */
  lemma DropIndirect(im0: Image, o0: map<nat, Site>, im: Image, o: map<nat, Site>, reserved: nat, f: nat, n: nat)
    requires Inv(im0, o0, reserved) && Inv(im, o, reserved) && |im.blocks| == |im0.blocks|
    requires Shed(im0, o0, im, o, f, n) && f in im.files && n <= NDIRECT && im.files[f].indirect != 0
    ensures forall j :: Val(im, Slot(f, j)) == 0
    ensures var im', o' := Detach(im, Indirect(f)), o - {im.files[f].indirect};
            Inv(im', o', reserved) && SameSizes(im, im') && Truncated(im0, o0, im', o', f, n)
  {
    var s, ind := Indirect(f), im.files[f].indirect;
    assert Val(im, s) == ind && ind in o && o[ind] == s;
    forall j
      ensures Val(im, Slot(f, j)) == 0
    {
      assert Past(Slot(f, j), f, n);
    }
    DetachStep(im, o, reserved, s);
    DetachShape(im, s);
    DetachBytes(im, o, reserved, s);
    var im', o' := Detach(im, s), o - {ind};
    forall b
      ensures b in o' <==> b in o0 && !(o0[b].f == f && Index(o0[b]) >= n)
    {
      if b in o0 && o0[b] == s {
        assert Val(im0, s) == b == Val(im, s);
      }
    }
    FreeFromOwner(im0, o0, im', o', reserved, f, n);
  }

  /** Growing: there is nothing past the new end to drop. */
  lemma GrowNothing(im: Image, o: map<nat, Site>, reserved: nat, f: nat, newsize: nat)
    requires Inv(im, o, reserved) && f in im.files && im.files[f].size <= newsize
    ensures Truncated(im, o, im, o, f, NBlocks(newsize))
  {
    NBlocksMono(im.files[f].size, newsize);
    forall b | b in o
      ensures !(o[b].f == f && Index(o[b]) >= NBlocks(newsize))
    {
      assert Val(im, o[b]) == b;
    }
    forall pos: nat | pos / 4096 >= NBlocks(newsize)
      ensures ByteAt(im, f, pos) == 0
    {
      assert Val(im, SiteOf(f, pos / 4096)) == 0;
    }
  }

  lemma NBlocksMono(a: nat, b: nat)
    requires a <= b
    ensures NBlocks(a) <= NBlocks(b)
  {
  }

  /** With nothing past the new end, the size may change. */
  lemma ResizeStep(im0: Image, o0: map<nat, Site>, im: Image, o: map<nat, Site>, reserved: nat, f: nat, newsize: nat)
    requires Inv(im, o, reserved) && f in im.files
    requires Truncated(im0, o0, im, o, f, NBlocks(newsize))
    ensures var im' := SetFile(im, f, im.files[f].(size := newsize));
            Inv(im', o, reserved) && Truncated(im0, o0, im', o, f, NBlocks(newsize)) && SameBytes(im, im')
  {
    var im' := SetFile(im, f, im.files[f].(size := newsize));
    ResizeSites(im, f, newsize);
    forall s | Val(im', s) != 0
      ensures Index(s) < NBlocks(im'.files[s.f].size)
    {
      assert Val(im, s) in o && o[Val(im, s)] == s;
    }
  }

  lemma ResizeSites(im: Image, f: nat, newsize: nat)
    requires f in im.files
    ensures var im' := SetFile(im, f, im.files[f].(size := newsize));
            (forall s :: Val(im', s) == Val(im, s)) && SameBytes(im, im')
  {
    var im' := SetFile(im, f, im.files[f].(size := newsize));
    forall s
      ensures Val(im', s) == Val(im, s)
    {
    }
  }

  // ---- Durability -----------------------------------------------------------------------------------------------

  /** The first n blocks of file f are on disk. */
  ghost predicate FlushedTo(im: Image, disk: seq<Block>, f: nat, n: nat) {
    && |disk| == |im.blocks|
    && forall i :: 0 <= i < n ==> var b := BlockOf(im, f, i); 0 < b < |disk| ==> disk[b] == im.blocks[b]
  }

  ghost predicate SameContents(d: Image, im: Image, f: nat) {
    forall pos: nat :: ByteAt(d, f, pos) == ByteAt(im, f, pos)
  }

  lemma FlushOne(im: Image, owner: map<nat, Site>, reserved: nat, disk: seq<Block>, f: nat, i: nat)
    requires Inv(im, owner, reserved) && FlushedTo(im, disk, f, i)
    ensures var b := BlockOf(im, f, i);
            b < |disk| && FlushedTo(im, if b == 0 then disk else disk[b := im.blocks[b]], f, i + 1)
  {
    if BlockOf(im, f, i) != 0 {
      DataBlock(im, owner, reserved, f, i);
    }
  }

  /** With its record and indirect block on disk, a file reads the same from disk exactly
      when its blocks are there too. */
  lemma FlushDecodes(im: Image, owner: map<nat, Site>, reserved: nat, disk: seq<Block>, d: Image, f: nat)
    requires Inv(im, owner, reserved) && f in im.files && f in d.files && d.files[f] == im.files[f]
    requires |disk| == |im.blocks| && im.files[f].indirect < |disk|
    requires d.blocks == if im.files[f].indirect == 0 then disk
                         else disk[im.files[f].indirect := im.blocks[im.files[f].indirect]]
    ensures SameContents(d, im, f) <==> FlushedTo(im, disk, f, NBlocks(im.files[f].size))
  {
    if FlushedTo(im, disk, f, NBlocks(im.files[f].size)) {
      forall pos: nat ensures ByteAt(d, f, pos) == ByteAt(im, f, pos) {
        DecodesBlock(im, owner, reserved, disk, d, f, pos / 4096);
      }
    }
    if SameContents(d, im, f) {
      forall i: nat ensures var b := BlockOf(im, f, i); 0 < b < |disk| ==> disk[b] == im.blocks[b] {
        DecodesBlock(im, owner, reserved, disk, d, f, i);
        SameBytesSameBlock(d, im, f, i);
      }
    }
  }

  /** Block i of file f is found in the same place on disk, inside the file. */
  lemma DecodesBlock(im: Image, owner: map<nat, Site>, reserved: nat, disk: seq<Block>, d: Image, f: nat, i: nat)
    requires Inv(im, owner, reserved) && f in im.files && f in d.files && d.files[f] == im.files[f]
    requires |disk| == |im.blocks| && im.files[f].indirect < |disk|
    requires d.blocks == if im.files[f].indirect == 0 then disk
                         else disk[im.files[f].indirect := im.blocks[im.files[f].indirect]]
    ensures BlockOf(d, f, i) == BlockOf(im, f, i)
    ensures var b := BlockOf(im, f, i);
            b != 0 ==> b < |disk| && d.blocks[b] == disk[b] && i < NBlocks(im.files[f].size)
  {
    if BlockOf(im, f, i) != 0 {
      DataBlock(im, owner, reserved, f, i);
      assert Index(SiteOf(f, i)) == i;
      if im.files[f].indirect != 0 {
        IndirectOwned(im, owner, reserved, f);
      }
    }
  }

  lemma SameBytesSameBlock(d: Image, im: Image, f: nat, i: nat)
    requires SameContents(d, im, f) && BlockOf(d, f, i) == BlockOf(im, f, i) && |d.blocks| == |im.blocks|
    ensures var b := BlockOf(im, f, i); 0 < b < |im.blocks| ==> d.blocks[b] == im.blocks[b]
  {
    var b := BlockOf(im, f, i);
    if 0 < b < |im.blocks| {
      forall k | 0 <= k < 4096 ensures d.blocks[b][k] == im.blocks[b][k] {
        var pos := i * 4096 + k;
        assert pos / 4096 == i && pos % 4096 == k;
        assert ByteAt(d, f, pos) == ByteAt(im, f, pos);
      }
    }
  }

  /** A block full of ones. */
  function OnesBlock(): Block {
    seq(4096, _ => 1)
  }

  /** A well-formed image with one file of 2^31 - 1 bytes whose only block is dirty: file_flush
      leaves its data off the disk. */
  lemma NearLimitLost() returns (im: Image, owner: map<nat, Site>, disk: seq<Block>)
    ensures Inv(im, owner, 2) && 0 in im.files && im.files[0].size == 0x7fff_ffff && |disk| == |im.blocks|
    ensures !FlushedTo(im, disk, 0, NBlocks(im.files[0].size))
  {
    im := Image({}, [ZeroBlock(), ZeroBlock(), OnesBlock()],
                map[0 := File(0x7fff_ffff, [2, 0, 0, 0, 0, 0, 0, 0, 0, 0], 0)]);
    owner := map[2 := Direct(0, 0)];
    disk := [ZeroBlock(), ZeroBlock(), ZeroBlock()];
    assert Val(im, Direct(0, 0)) == 2;
    forall s | s != Direct(0, 0) ensures Val(im, s) == 0 {
    }
    assert Inv(im, owner, 2);
    assert BlockOf(im, 0, 0) == 2;
    assert disk[2][0] == 0 && im.blocks[2][0] == 1;
    assert !FlushedTo(im, disk, 0, NBlocks(im.files[0].size));
  }
}
