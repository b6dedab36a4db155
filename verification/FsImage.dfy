/** The contents of a file-system image (inc/fs.h, fs/fs.c): which blocks are free, what
    the blocks hold, the File records, and who owns which block. */
module FsImage {
  import opened Common

  const BLKSIZE: nat := 4096
  const NDIRECT: nat := 10
  const NINDIRECT: nat := 1024

  type Block = b: seq<Byte> | |b| == 4096 witness seq(4096, _ => 0)

  // ---- Block-number words inside an indirect block ---------------------------------------

  /** The little-endian number in bs. */
  function Num(bs: seq<Byte>): nat {
    if bs == [] then 0 else bs[0] + 0x100 * Num(bs[1..])
  }

  function Bytes(v: nat, n: nat): (bs: seq<Byte>)
    ensures |bs| == n
    decreases n
  {
    if n == 0 then [] else [v % 0x100] + Bytes(v / 0x100, n - 1)
  }

  function Pow256(n: nat): nat {
    if n == 0 then 1 else 0x100 * Pow256(n - 1)
  }

  lemma {:induction false} NumBytes(v: nat, n: nat)
    requires v < Pow256(n)
    ensures Num(Bytes(v, n)) == v
    decreases n
  {
    if n > 0 {
      NumBytes(v / 0x100, n - 1);
      assert Bytes(v, n)[1..] == Bytes(v / 0x100, n - 1);
    }
  }

  lemma {:induction false} NumZero(bs: seq<Byte>)
    requires forall k :: 0 <= k < |bs| ==> bs[k] == 0
    ensures Num(bs) == 0
  {
    if bs != [] {
      NumZero(bs[1..]);
    }
  }

  function Entry(b: Block, j: nat): nat
    requires j < NINDIRECT
  {
    Num(b[4 * j..4 * j + 4])
  }

  function SetEntry(b: Block, j: nat, v: nat): Block
    requires j < NINDIRECT
  {
    b[..4 * j] + Bytes(v, 4) + b[4 * j + 4..]
  }

  lemma EntrySet(b: Block, j: nat, v: nat, k: nat)
    requires j < NINDIRECT && k < NINDIRECT && v < 0x1_0000_0000
    ensures Entry(SetEntry(b, j, v), k) == if k == j then v else Entry(b, k)
  {
    var c := SetEntry(b, j, v);
    if k == j {
      assert c[4 * j..4 * j + 4] == Bytes(v, 4);
      assert Pow256(4) == 0x1_0000_0000;
      NumBytes(v, 4);
    } else {
      assert c[4 * k..4 * k + 4] == b[4 * k..4 * k + 4];
    }
  }

  function ZeroBlock(): (z: Block)
    ensures forall k :: 0 <= k < |z| ==> z[k] == 0
  {
    seq(4096, _ => 0)
  }

  lemma EntryZero(j: nat)
    requires j < NINDIRECT
    ensures Entry(ZeroBlock(), j) == 0
  {
    NumZero(ZeroBlock()[4 * j..4 * j + 4]);
  }

  // ---- Images --------------------------------------------------------------------------------

  datatype File = File(size: nat, direct: seq<nat>, indirect: nat)

  datatype Image = Image(free: set<nat>, blocks: seq<Block>, files: map<nat, File>)

  /** The places that hold a block number. */
  datatype Site = Direct(f: nat, i: nat) | Indirect(f: nat) | Slot(f: nat, j: nat)

  function Val(im: Image, s: Site): nat {
    if s.f !in im.files then 0
    else
      var r := im.files[s.f];
      match s
      case Direct(_, i) => if i < |r.direct| then r.direct[i] else 0
      case Indirect(_) => r.indirect
      case Slot(_, j) =>
        if r.indirect != 0 && r.indirect < |im.blocks| && j < NINDIRECT then Entry(im.blocks[r.indirect], j) else 0
  }

  /** The site that holds the number of block i of file f. */
  function SiteOf(f: nat, i: nat): Site {
    if i < NDIRECT then Direct(f, i) else Slot(f, i - NDIRECT)
  }

  function BlockOf(im: Image, f: nat, i: nat): nat {
    Val(im, SiteOf(f, i))
  }

  /** The contents of a file, at every position: a hole reads as zero. */
  function ByteAt(im: Image, f: nat, pos: nat): Byte {
    var b := BlockOf(im, f, pos / 4096);
    if b != 0 && b < |im.blocks| then im.blocks[b][pos % 4096] else 0
  }

  ghost predicate SameBytes(im: Image, im': Image) {
    forall f, pos: nat {:trigger ByteAt(im', f, pos)} :: ByteAt(im', f, pos) == ByteAt(im, f, pos)
  }

  /** How many blocks a file of that size spans. */
  function NBlocks(size: nat): nat {
    (size + 4095) / 4096
  }

  /** The file block a site belongs to; the indirect block counts as the first block
      that needs it. */
  function Index(s: Site): nat {
    match s
    case Direct(_, i) => i
    case Indirect(_) => NDIRECT
    case Slot(_, j) => NDIRECT + j
  }

  /** Every nonzero slot names its own block, in use and not reserved; every other block
      in use is reserved; and nothing is allocated past the end of a file. */
  ghost predicate Inv(im: Image, owner: map<nat, Site>, reserved: nat) {
    && 2 <= reserved <= |im.blocks| < 0x1_0000_0000
    && (forall b :: b in im.free ==> reserved <= b < |im.blocks|)
    && (forall f :: f in im.files ==> |im.files[f].direct| == NDIRECT)
    && (forall s :: Val(im, s) != 0 ==> Val(im, s) in owner && owner[Val(im, s)] == s)
    && (forall b :: b in owner ==> b != 0 && Val(im, owner[b]) == b)
    && (forall b :: b in owner <==> reserved <= b < |im.blocks| && b !in im.free)
    && (forall s :: Val(im, s) != 0 ==> Index(s) < NBlocks(im.files[s.f].size))
  }

  // ---- Updates -----------------------------------------------------------------------------------

  function SetFile(im: Image, f: nat, r: File): Image {
    im.(files := im.files[f := r])
  }

  /** Storing block number v at a site that exists. */
  function SetVal(im: Image, s: Site, v: nat): Image {
    if s.f !in im.files then im
    else
      var r := im.files[s.f];
      match s
      case Direct(f, i) => if i < |r.direct| then SetFile(im, f, r.(direct := r.direct[i := v])) else im
      case Indirect(f) => SetFile(im, f, r.(indirect := v))
      case Slot(f, j) =>
        if r.indirect < |im.blocks| && j < NINDIRECT
        then im.(blocks := im.blocks[r.indirect := SetEntry(im.blocks[r.indirect], j, v)]) else im
  }

  function SetBlock(im: Image, b: nat, x: Block): Image {
    if b < |im.blocks| then im.(blocks := im.blocks[b := x]) else im
  }

  /** The site can hold a number: a slot needs its indirect block. */
  predicate Exists(im: Image, s: Site) {
    && s.f in im.files
    && match s
       case Direct(_, i) => i < NDIRECT
       case Indirect(_) => true
       case Slot(_, j) => im.files[s.f].indirect != 0 && j < NINDIRECT
  }

  /** A data block may change without moving any block number. */
  lemma DataSites(im: Image, owner: map<nat, Site>, reserved: nat, b: nat, x: Block)
    requires Inv(im, owner, reserved) && (b in owner ==> !owner[b].Indirect?) && b < |im.blocks|
    ensures forall s :: Val(SetBlock(im, b, x), s) == Val(im, s)
  {
    forall s
      ensures Val(SetBlock(im, b, x), s) == Val(im, s)
    {
      if s.Slot? && s.f in im.files && im.files[s.f].indirect != 0 {
        assert Val(im, Indirect(s.f)) == im.files[s.f].indirect;
      }
    }
  }

  lemma WriteStep(im: Image, owner: map<nat, Site>, reserved: nat, b: nat, x: Block)
    requires Inv(im, owner, reserved) && (b in owner ==> !owner[b].Indirect?) && b < |im.blocks|
    ensures Inv(SetBlock(im, b, x), owner, reserved)
  {
    DataSites(im, owner, reserved, b, x);
  }

  lemma SetDirect(im: Image, f: nat, i: nat, v: nat)
    requires Exists(im, Direct(f, i)) && |im.files[f].direct| == NDIRECT
    ensures Val(SetVal(im, Direct(f, i), v), Direct(f, i)) == v
    ensures forall r :: r != Direct(f, i) ==> Val(SetVal(im, Direct(f, i), v), r) == Val(im, r)
  {
  }

  lemma SetIndirect(im: Image, f: nat, v: nat)
    requires Exists(im, Indirect(f))
    ensures Val(SetVal(im, Indirect(f), v), Indirect(f)) == v
    ensures forall r :: r != Indirect(f) && !(r.Slot? && r.f == f) ==> Val(SetVal(im, Indirect(f), v), r) == Val(im, r)
  {
  }

  /** Writing slot j of an indirect block that is nobody else's. */
  lemma SetSlot(im: Image, f: nat, j: nat, v: nat)
    requires Exists(im, Slot(f, j)) && im.files[f].indirect < |im.blocks| && v < 0x1_0000_0000
    requires forall g :: g in im.files && g != f && im.files[g].indirect != 0 ==>
                           im.files[g].indirect != im.files[f].indirect
    ensures Val(SetVal(im, Slot(f, j), v), Slot(f, j)) == v
    ensures forall r :: r != Slot(f, j) ==> Val(SetVal(im, Slot(f, j), v), r) == Val(im, r)
  {
    var n, b := SetVal(im, Slot(f, j), v), im.blocks[im.files[f].indirect];
    EntrySet(b, j, v, j);
    forall r | r != Slot(f, j) ensures Val(n, r) == Val(im, r) {
      if r.Slot? && r.f == f && r.j < NINDIRECT {
        EntrySet(b, j, v, r.j);
      }
    }
  }

  /** Storing at one site changes that site, and for an indirect block the slots in it. */
  lemma SetSites(im: Image, owner: map<nat, Site>, reserved: nat, s: Site, v: nat)
    requires Inv(im, owner, reserved) && Exists(im, s) && v < |im.blocks|
    ensures Val(SetVal(im, s, v), s) == v
    ensures forall r :: r != s && !(s.Indirect? && r.Slot? && r.f == s.f) ==> Val(SetVal(im, s, v), r) == Val(im, r)
  {
    match s
    case Direct(f, i) => SetDirect(im, f, i, v);
    case Indirect(f) => SetIndirect(im, f, v);
    case Slot(f, j) =>
      OwnIndirect(im, owner, reserved, f);
      SetSlot(im, f, j, v);
  }

  /** No two files share an indirect block. */
  lemma OwnIndirect(im: Image, owner: map<nat, Site>, reserved: nat, f: nat)
    requires Inv(im, owner, reserved) && f in im.files && im.files[f].indirect != 0
    ensures im.files[f].indirect < |im.blocks|
    ensures forall g :: g in im.files && g != f && im.files[g].indirect != 0 ==>
                          im.files[g].indirect != im.files[f].indirect
  {
    forall g | g in im.files && im.files[g].indirect != 0
      ensures im.files[g].indirect in owner && owner[im.files[g].indirect] == Indirect(g)
    {
      assert Val(im, Indirect(g)) == im.files[g].indirect;
    }
  }

  // ---- Allocating and freeing ------------------------------------------------------------------------

  /** Taking free block b for site s: mark it in use, store its number, clear it. */
  function Attach(im: Image, s: Site, b: nat): Image {
    SetBlock(SetVal(im.(free := im.free - {b}), s, b), b, ZeroBlock())
  }

  /** Giving back the block named at site s. */
  function Detach(im: Image, s: Site): Image {
    SetVal(im.(free := im.free + {Val(im, s)}), s, 0)
  }

  /** Attaching only changes the site; the slots of a new indirect block are empty. */
  lemma AttachSites(im: Image, owner: map<nat, Site>, reserved: nat, s: Site, b: nat)
    requires Inv(im, owner, reserved) && Exists(im, s) && Val(im, s) == 0 && b in im.free
    ensures forall r :: Val(Attach(im, s, b), r) == if r == s then b else Val(im, r)
  {
    SetSites(im, owner, reserved, s, b);
    var k := SetVal(im, s, b);
    var n := Attach(im, s, b);
    assert SetVal(im.(free := im.free - {b}), s, b) == k.(free := im.free - {b});
    forall r
      ensures Val(n, r) == if r == s then b else Val(im, r)
    {
      if r.Slot? && r.f in im.files {
        if s == Indirect(r.f) {
          if r.j < NINDIRECT {
            EntryZero(r.j);
          }
        } else {
          assert Val(k, Indirect(r.f)) == Val(im, Indirect(r.f)) == im.files[r.f].indirect;
          assert im.files[r.f].indirect != 0 ==> im.files[r.f].indirect in owner;
        }
      }
    }
  }

  lemma AttachStep(im: Image, owner: map<nat, Site>, reserved: nat, s: Site, b: nat)
    requires Inv(im, owner, reserved) && Exists(im, s) && Val(im, s) == 0 && b in im.free
    requires Index(s) < NBlocks(im.files[s.f].size)
    ensures Inv(Attach(im, s, b), owner[b := s], reserved)
  {
    AttachSites(im, owner, reserved, s, b);
    AttachShape(im, s, b);
    var n, o := Attach(im, s, b), owner[b := s];
    forall r | Val(n, r) != 0
      ensures Val(n, r) in o && o[Val(n, r)] == r && Index(r) < NBlocks(n.files[r.f].size)
    {
      assert r == s || Val(im, r) in owner;
    }
  }

  lemma AttachShape(im: Image, s: Site, b: nat)
    ensures Attach(im, s, b).free == im.free - {b}
    ensures |Attach(im, s, b).blocks| == |im.blocks|
    ensures Attach(im, s, b).files.Keys == im.files.Keys
    ensures forall f :: f in im.files ==>
              && Attach(im, s, b).files[f].size == im.files[f].size
              && |Attach(im, s, b).files[f].direct| == |im.files[f].direct|
  {
  }

  /** Allocating a block for a hole does not change what any file contains. */
  lemma AttachBytes(im: Image, owner: map<nat, Site>, reserved: nat, s: Site, b: nat)
    requires Inv(im, owner, reserved) && Exists(im, s) && Val(im, s) == 0 && b in im.free
    ensures SameBytes(im, Attach(im, s, b))
  {
    AttachSites(im, owner, reserved, s, b);
    AttachBlocks(im, owner, reserved, s, b);
    var n := Attach(im, s, b);
    forall f, pos: nat
      ensures ByteAt(n, f, pos) == ByteAt(im, f, pos)
    {
      var r := SiteOf(f, pos / 4096);
      if Val(im, r) != 0 {
        assert Val(im, r) in owner && !owner[Val(im, r)].Indirect?;
      }
    }
  }

  /** Only the new block, and an indirect block, change. */
  lemma AttachBlocks(im: Image, owner: map<nat, Site>, reserved: nat, s: Site, b: nat)
    requires Inv(im, owner, reserved) && Exists(im, s) && b in im.free
    ensures |Attach(im, s, b).blocks| == |im.blocks| && Attach(im, s, b).blocks[b] == ZeroBlock()
    ensures forall c :: c in owner && !owner[c].Indirect? ==> Attach(im, s, b).blocks[c] == im.blocks[c]
  {
    if s.Slot? {
      assert Val(im, Indirect(s.f)) == im.files[s.f].indirect;
    }
  }

  lemma DetachStep(im: Image, owner: map<nat, Site>, reserved: nat, s: Site)
    requires Inv(im, owner, reserved) && Exists(im, s) && Val(im, s) != 0
    requires s.Indirect? ==> forall j :: Val(im, Slot(s.f, j)) == 0
    ensures Inv(Detach(im, s), owner - {Val(im, s)}, reserved)
    ensures forall r :: Val(Detach(im, s), r) == if r == s then 0 else Val(im, r)
  {
    DetachSites(im, owner, reserved, s);
    DetachShape(im, s);
    var n, v := Detach(im, s), Val(im, s);
    forall r | Val(n, r) != 0
      ensures Val(n, r) in owner && Val(n, r) != v && owner[Val(n, r)] == r && Index(r) < NBlocks(n.files[r.f].size)
    {
      assert Val(im, r) in owner;
    }
  }

  lemma DetachSites(im: Image, owner: map<nat, Site>, reserved: nat, s: Site)
    requires Inv(im, owner, reserved) && Exists(im, s) && Val(im, s) != 0
    requires s.Indirect? ==> forall j :: Val(im, Slot(s.f, j)) == 0
    ensures forall r :: Val(Detach(im, s), r) == if r == s then 0 else Val(im, r)
  {
    SetSites(im, owner, reserved, s, 0);
    var k := SetVal(im, s, 0);
    assert Detach(im, s) == k.(free := im.free + {Val(im, s)});
    forall r
      ensures Val(Detach(im, s), r) == if r == s then 0 else Val(im, r)
    {
      assert Val(Detach(im, s), r) == Val(k, r);
      if s.Indirect? && r.Slot? && r.f == s.f {
        assert Val(im, Slot(s.f, r.j)) == 0;
      }
    }
  }

  lemma DetachShape(im: Image, s: Site)
    ensures Detach(im, s).free == im.free + {Val(im, s)}
    ensures |Detach(im, s).blocks| == |im.blocks|
    ensures Detach(im, s).files.Keys == im.files.Keys
    ensures forall f :: f in im.files ==>
              && Detach(im, s).files[f].size == im.files[f].size
              && |Detach(im, s).files[f].direct| == |im.files[f].direct|
  {
  }

  /** Freeing a file's block makes its bytes zero and changes no other byte. */
  lemma DetachBytes(im: Image, owner: map<nat, Site>, reserved: nat, s: Site)
    requires Inv(im, owner, reserved) && Exists(im, s) && Val(im, s) != 0
    requires s.Indirect? ==> forall j :: Val(im, Slot(s.f, j)) == 0
    ensures forall f, pos: nat ::
              ByteAt(Detach(im, s), f, pos) == if SiteOf(f, pos / 4096) == s then 0 else ByteAt(im, f, pos)
  {
    DetachSites(im, owner, reserved, s);
    DetachShape(im, s);
    DetachBlocks(im, owner, reserved, s);
    forall f, pos: nat
      ensures ByteAt(Detach(im, s), f, pos) == if SiteOf(f, pos / 4096) == s then 0 else ByteAt(im, f, pos)
    {
      var r := SiteOf(f, pos / 4096);
      if Val(im, r) != 0 {
        assert Val(im, r) in owner && !owner[Val(im, r)].Indirect?;
      }
    }
  }

  lemma DetachBlocks(im: Image, owner: map<nat, Site>, reserved: nat, s: Site)
    requires Inv(im, owner, reserved) && Exists(im, s)
    ensures |Detach(im, s).blocks| == |im.blocks|
    ensures forall c :: c in owner && !owner[c].Indirect? ==> Detach(im, s).blocks[c] == im.blocks[c]
  {
    if s.Slot? {
      assert Val(im, Indirect(s.f)) == im.files[s.f].indirect;
    }
  }

  /** free + owned + reserved blocks make up the disk. */
  lemma Conservation(im: Image, owner: map<nat, Site>, reserved: nat)
    requires Inv(im, owner, reserved)
    ensures |im.free| + |owner| + reserved == |im.blocks|
  {
    Counted(im.free, owner.Keys, reserved, |im.blocks|);
  }

  lemma Counted(free: set<nat>, owned: set<nat>, reserved: nat, n: nat)
    requires reserved <= n
    requires forall b :: b in free ==> reserved <= b < n
    requires forall b :: b in owned <==> reserved <= b < n && b !in free
    ensures |free| + |owned| + reserved == n
  {
    UpToIs(n);
    UpToIs(reserved);
    assert UpTo(n) == free + owned + UpTo(reserved);
    assert |free + owned| == |free| + |owned|;
    assert (free + owned) !! UpTo(reserved);
  }

  ghost function UpTo(n: nat): set<nat> {
    if n == 0 then {} else UpTo(n - 1) + {n - 1}
  }

  lemma {:induction false} UpToIs(n: nat)
    ensures (forall b: nat :: b in UpTo(n) <==> b < n) && |UpTo(n)| == n
  {
    if n > 0 {
      UpToIs(n - 1);
      assert n - 1 !in UpTo(n - 1);
    }
  }

  /** All block numbers in use are distinct, in range, allocated and not reserved. */
  lemma Ownership(im: Image, owner: map<nat, Site>, reserved: nat, r: Site, s: Site)
    requires Inv(im, owner, reserved) && r != s && Val(im, r) != 0
    ensures Val(im, r) != Val(im, s)
    ensures reserved <= Val(im, r) < |im.blocks| && Val(im, r) !in im.free
  {
    assert Val(im, r) in owner;
  }
}
