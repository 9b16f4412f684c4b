/**
 The boot blocks' UFS reader: fsread of boot/common/ufsread.c, with its one-entry
 caches of the inode, the indirect block and the data block, all read in 4 KB
 virtual blocks whatever the file system's own block and fragment sizes are.
 */
module UfsReader {
  import opened Arith

  type Bytes = seq<bv8>
  /** The drive, byte by byte. */
  type Drive = nat -> bv8

  const DEV_BSIZE: nat := 512
  const VBLKSIZE: nat := 4096
  const DBPERVBLK: nat := 8
  const NDADDR: nat := 12

  datatype Dinode = Dinode(size: nat, db: seq<nat>, ib0: nat)

  /** The superblock fields in use.  A block is `vpb` virtual blocks, a fragment `spf`
      sectors; `cgimin` is the first inode fragment of a cylinder group, and `dinode` and
      `ptr` decode the on-disk forms of inode and block pointer. */
  datatype Fs = Fs(vpb: nat, spf: nat, psize: nat, dsize: nat, ipg: nat,
                   cgimin: nat -> nat, dinode: Bytes -> Dinode, ptr: Bytes -> nat)
  {
    predicate Ok() {
      && 1 <= vpb && 1 <= spf && (vpb * 8) % spf == 0
      && (psize == 4 || psize == 8) && (dsize == 128 || dsize == 256)
      && 0 < ipg && ipg % (VBLKSIZE / dsize) == 0
    }
    function Bsize(): (b: nat)
      ensures 1 <= vpb ==> b >= VBLKSIZE
    {
      vpb * VBLKSIZE
    }
    /** lblkno and blkoff */
    function Lbn(x: nat): nat
      requires Ok()
    {
      Quot(x, Bsize())
    }
    function Off(x: nat): nat
      requires Ok()
    {
      Rem(x, Bsize())
    }
    function Fsize(): nat { spf * DEV_BSIZE }
    /** NINDIR */
    function Nindir(): nat
      requires psize > 0
    {
      Bsize() / psize
    }
    /** fsbtodb */
    function Sector(frag: nat): nat { frag * spf }
    /** INO_TO_VBA: the sector of the virtual block that holds an inode */
    function InoVba(ino: nat): nat
      requires Ok()
    {
      Sector(cgimin(Quot(ino, ipg))) + Rem(ino, ipg) / (VBLKSIZE / dsize) * DBPERVBLK
    }
    /** INO_TO_VBO, in bytes: where in that block it is */
    function InoAt(ino: nat): nat
      requires Ok()
    {
      ino % (VBLKSIZE / dsize) * dsize
    }
    /** sblksize: the last block of a small file ends at a fragment */
    function Sblksize(size: nat, lbn: nat): nat
      requires Ok()
    {
      if lbn >= NDADDR || size >= (lbn + 1) * Bsize() then Bsize() else RoundUp(Off(size), Fsize())
    }
  }

  // ----- What a file is -----

  function At(d: Drive, a: nat, n: nat): (b: Bytes)
    ensures |b| == n
  {
    seq(n, i requires 0 <= i < n => d(a + i))
  }

  /** The inode table of a cylinder group is an array of inodes. */
  function InodeOf(fs: Fs, d: Drive, ino: nat): Dinode
    requires fs.Ok()
  {
    fs.dinode(At(d, fs.Sector(fs.cgimin(ino / fs.ipg)) * DEV_BSIZE + ino % fs.ipg * fs.dsize, fs.dsize))
  }

  /** The fragment at which logical block `lbn` starts. */
  function Addr(fs: Fs, d: Drive, di: Dinode, lbn: nat): nat
    requires |di.db| == NDADDR
  {
    if lbn < NDADDR then di.db[lbn]
    else fs.ptr(At(d, fs.Sector(di.ib0) * DEV_BSIZE + (lbn - NDADDR) * fs.psize, fs.psize))
  }

  /** Byte `i` of the file. */
  function FileByte(fs: Fs, d: Drive, di: Dinode, i: nat): bv8
    requires |di.db| == NDADDR && fs.Ok()
  {
    d(fs.Sector(Addr(fs, d, di, fs.Lbn(i))) * DEV_BSIZE + fs.Off(i))
  }

  function Slice(fs: Fs, d: Drive, di: Dinode, lo: nat, hi: nat): (b: Bytes)
    requires |di.db| == NDADDR && fs.Ok() && lo <= hi
    ensures |b| == hi - lo
  {
    seq(hi - lo, i requires 0 <= i < hi - lo => FileByte(fs, d, di, lo + i))
  }

  /** A file byte's place on the drive: in the fragment that the direct block address or the
      pointer of the indirect block gives, a fragment being `spf` sectors of 512 bytes. */
  lemma FileByteAddress(fs: Fs, d: Drive, di: Dinode, i: nat, bsize: nat, fsize: nat)
    requires |di.db| == NDADDR && fs.Ok() && bsize == fs.vpb * 4096 && fsize == fs.spf * 512 && bsize > 0
    ensures var lbn, off := Quot(i, bsize), Rem(i, bsize);
            if lbn < 12 then FileByte(fs, d, di, i) == d(InUnits(di.db[lbn], fsize, off))
            else
              var ptr := fs.ptr(At(d, InUnits(di.ib0, fsize, InUnits(lbn - 12, fs.psize, 0)), fs.psize));
              FileByte(fs, d, di, i) == d(InUnits(ptr, fsize, off))
  {
    hide At, Quot, Rem;
    assert fs.Bsize() == bsize;
    FragmentAddress(fs, Addr(fs, d, di, Quot(i, bsize)));
    FragmentAddress(fs, di.ib0);
  }

  /** `k` units of some size, and an offset. */
  function InUnits(k: nat, size: nat, off: nat): nat {
    k * size + off
  }

  lemma FragmentAddress(fs: Fs, frag: nat)
    ensures fs.Sector(frag) * DEV_BSIZE == frag * (fs.spf * 512)
  {
  }

  /** An inode's place: its slot in the inode table of its cylinder group. */
  lemma InodeAddress(fs: Fs, d: Drive, ino: nat)
    requires fs.Ok()
    ensures InodeOf(fs, d, ino)
         == fs.dinode(At(d, fs.cgimin(ino / fs.ipg) * (fs.spf * 512) + ino % fs.ipg * fs.dsize, fs.dsize))
  {
    FragmentAddress(fs, fs.cgimin(ino / fs.ipg));
  }

  /** The first offset the reader cannot map: double indirection is not followed. */
  function Limit(fs: Fs): nat
    requires fs.Ok()
  {
    (NDADDR + fs.Nindir()) * fs.Bsize()
  }

  /** Virtual block `k` of logical block `lbn` lies in the mappable part of the file. */
  predicate InFile(fs: Fs, di: Dinode, lbn: nat, k: nat)
    requires fs.Ok()
  {
    k < fs.vpb && lbn < NDADDR + fs.Nindir() && lbn * fs.Bsize() + k * VBLKSIZE < di.size
  }

  function VAddr(fs: Fs, d: Drive, di: Dinode, lbn: nat, k: nat): nat
    requires |di.db| == NDADDR
  {
    fs.Sector(Addr(fs, d, di, lbn)) + k * DBPERVBLK
  }

  /** How much of a virtual block belongs to the file. */
  function VLen(fs: Fs, di: Dinode, lbn: nat, k: nat): int
    requires fs.Ok()
  {
    var n := fs.Sblksize(di.size, lbn) - k * VBLKSIZE;
    if n > VBLKSIZE then VBLKSIZE else n
  }

  /** A file the reader can be trusted with: no holes, no two virtual blocks in one place. */
  ghost predicate FileOk(fs: Fs, d: Drive, di: Dinode)
    requires fs.Ok()
  {
    && |di.db| == NDADDR && di.size < 0x1_0000_0000
    && (di.size > NDADDR * fs.Bsize() ==> di.ib0 > 0)
    && (forall lbn, k :: InFile(fs, di, lbn, k) ==> VAddr(fs, d, di, lbn, k) > 0)
    && (forall lbn, k, lbn', k' :: InFile(fs, di, lbn, k) && InFile(fs, di, lbn', k') && (lbn != lbn' || k != k') ==>
      VAddr(fs, d, di, lbn, k) != VAddr(fs, d, di, lbn', k'))
  }

  // ----- Arithmetic of blocks -----

  lemma SameBlock(fs: Fs, x: nat, j: nat)
    requires fs.Ok() && fs.Off(x) + j < fs.Bsize()
    ensures fs.Lbn(x + j) == fs.Lbn(x) && fs.Off(x + j) == fs.Off(x) + j
  {
    DivUnique(x + j, fs.Bsize(), fs.Lbn(x), fs.Off(x) + j);
  }

  /** The fragment-rounded end of the file lies beyond offset `x`, inside its block. */
  lemma BlockReaches(fs: Fs, di: Dinode, x: nat)
    requires fs.Ok() && x < di.size
    ensures var n := fs.Sblksize(di.size, fs.Lbn(x));
            fs.Off(x) < n <= fs.Bsize() && n % DEV_BSIZE == 0
  {
    var b := fs.Bsize();
    var lbn, off := fs.Lbn(x), fs.Off(x);
    BlockIsFragments(fs);
    if lbn >= NDADDR || di.size >= (lbn + 1) * b {
      assert b % DEV_BSIZE == 0;
    } else {
      assert (lbn + 1) * b == lbn * b + b;
      DivUnique(di.size, b, lbn, di.size - lbn * b);
      var tail := fs.Off(di.size);
      var n := RoundUp(tail, fs.Fsize());
      RoundUpFits(tail, fs.Fsize(), b);
      MultipleOfMultiple(n, fs.spf, DEV_BSIZE);
    }
  }

  lemma BlockIsFragments(fs: Fs)
    requires fs.Ok()
    ensures fs.Bsize() % fs.Fsize() == 0 && fs.Fsize() > 0
  {
    var k := Quot(fs.vpb * 8, fs.spf);
    assert Rem(fs.vpb * 8, fs.spf) == 0;
    assert fs.vpb * 8 == k * fs.spf;
    assert fs.Bsize() == k * fs.Fsize();
    MultipleMod(k, fs.Fsize());
  }

  lemma RoundUpFits(x: nat, y: nat, b: nat)
    requires y > 0 && b % y == 0 && x <= b
    ensures RoundUp(x, y) <= b
  {
    var r := RoundUp(x, y);
    var p, q := Quot(r, y), Quot(b, y);
    assert Rem(r, y) == 0 && Rem(b, y) == 0;
    MultipleBelow(p, q, y);
  }

  lemma MultipleOfMultiple(n: nat, s: nat, u: nat)
    requires s > 0 && u > 0 && s * u > 0 && n % (s * u) == 0
    ensures n % u == 0
  {
    var q := Quot(n, s * u);
    assert Rem(n, s * u) == 0;
    assert n == (q * s) * u;
    MultipleMod(q * s, u);
  }

  lemma PointersPerVblk(fs: Fs)
    requires fs.Ok()
    ensures Quot(fs.Nindir(), fs.vpb) == VBLKSIZE / fs.psize && fs.Nindir() == fs.vpb * (VBLKSIZE / fs.psize)
  {
    var n := VBLKSIZE / fs.psize;
    assert fs.Bsize() == (fs.vpb * n) * fs.psize;
    MultipleMod(fs.vpb * n, fs.psize);
    DivUnique(fs.vpb * n, fs.vpb, n, 0);
  }

  lemma SliceExtends(fs: Fs, d: Drive, di: Dinode, a: nat, b: nat, c: nat)
    requires fs.Ok() && |di.db| == NDADDR && a <= b <= c
    ensures Slice(fs, d, di, a, c) == Slice(fs, d, di, a, b) + Slice(fs, d, di, b, c)
  {
    hide FileByte;
  }

  lemma SlicePrefix(fs: Fs, d: Drive, di: Dinode, lo: nat, b: Bytes, n: nat)
    requires |di.db| == NDADDR && fs.Ok() && n <= |b| && b == Slice(fs, d, di, lo, lo + |b|)
    ensures b[..n] == Slice(fs, d, di, lo, lo + n)
  {
    hide FileByte, Fs.Ok;
  }

  lemma SliceEmpty(fs: Fs, d: Drive, di: Dinode, a: nat)
    requires fs.Ok() && |di.db| == NDADDR
    ensures Slice(fs, d, di, a, a) == []
  {
  }

  // ----- A sequence of reads -----

  /** Where a read of `ino` starts: at the offset left by the last one, or at the beginning
      if that was of another inode. */
  function Cursor(inomap: nat, fsOff: nat, ino: nat): nat {
    if inomap == ino then fsOff else 0
  }

  function Want(di: Dinode, p: nat, nbyte: nat): int {
    if nbyte > di.size - p then di.size - p else nbyte
  }

  /** How far a read of [p, q) gets. */
  function Reached(fs: Fs, p: nat, q: int): int
    requires fs.Ok()
  {
    if q <= Limit(fs) || q == p then q else if p < Limit(fs) then Limit(fs) else p
  }

  /** Delivered bytes of one read at `p`. */
  function Delivered(fs: Fs, d: Drive, di: Dinode, p: nat, nbyte: nat): Bytes
    requires fs.Ok() && |di.db| == NDADDR && p <= di.size
  {
    Slice(fs, d, di, p, Reached(fs, p, p + Want(di, p, nbyte)))
  }

  /** Where a read from `p` ends, in the file system's terms: after `nbyte` bytes or at the end of
      the file, whichever comes first, unless that is past the last byte which the 12 direct and
      the one indirect block can map; then there, or at `p` if that is past it already. */
  ghost predicate EndsAt(fs: Fs, p: nat, nbyte: nat, size: nat, q: int)
    requires fs.psize > 0
  {
    var end := if nbyte < size - p then p + nbyte else size;
    var mapped := (12 + fs.vpb * 4096 / fs.psize) * (fs.vpb * 4096);
    q == if end <= mapped || end == p then end else if p < mapped then mapped else p
  }

  /** The read fails exactly if it does not get to the end of the range. */
  ghost predicate Returns(p: nat, nbyte: nat, size: nat, q: int, r: int) {
    var end := if nbyte < size - p then p + nbyte else size;
    r == if q == end then end - p else -1
  }

  lemma ReachedEnds(fs: Fs, di: Dinode, p: nat, nbyte: nat)
    requires fs.Ok() && p <= di.size
    ensures fs.psize > 0 && EndsAt(fs, p, nbyte, di.size, Reached(fs, p, p + Want(di, p, nbyte)))
    ensures Want(di, p, nbyte) == if nbyte < di.size - p then nbyte else di.size - p
  {
  }

  datatype Request = Request(ino: nat, nbyte: nat)

  /** The current inode, 0 if there is none, and the offset in it. */
  datatype Position = Position(ino: nat, off: nat)

  /** The inodes asked for have their direct block addresses, and the position is in the file. */
  predicate Readable(fs: Fs, d: Drive, p: Position, ino: nat)
    requires fs.Ok()
  {
    ino != 0 ==> |InodeOf(fs, d, ino).db| == NDADDR && (p.ino == ino ==> p.off <= InodeOf(fs, d, ino).size)
  }

  /** The bytes a request is answered with, and the position after it. */
  function Answer(fs: Fs, d: Drive, p: Position, r: Request): Bytes
    requires fs.Ok() && Readable(fs, d, p, r.ino)
  {
    if r.ino == 0 then [] else Delivered(fs, d, InodeOf(fs, d, r.ino), Cursor(p.ino, p.off, r.ino), r.nbyte)
  }

  function Moved(fs: Fs, d: Drive, p: Position, r: Request): (q: Position)
    requires fs.Ok() && Readable(fs, d, p, r.ino)
    ensures q.ino != 0 && r.ino != 0 ==> q.ino == r.ino && q.off <= InodeOf(fs, d, r.ino).size
  {
    if r.ino == 0 then p
    else Position(r.ino, Cursor(p.ino, p.off, r.ino) + |Answer(fs, d, p, r)|)
  }

  /** Every inode of the requests can be read, from the start or from position `p`. */
  ghost predicate AllReadable(fs: Fs, d: Drive, p: Position, reqs: seq<Request>)
    requires fs.Ok()
  {
    forall k :: 0 <= k < |reqs| ==> Readable(fs, d, p, reqs[k].ino)
  }

  /** The position before request `k`. */
  ghost function PositionAt(fs: Fs, d: Drive, p: Position, reqs: seq<Request>, k: nat): (q: Position)
    requires fs.Ok() && AllReadable(fs, d, p, reqs) && k <= |reqs|
    ensures AllReadable(fs, d, q, reqs)
  {
    if k == 0 then p
    else
      var q := PositionAt(fs, d, p, reqs, k - 1);
      assert Readable(fs, d, q, reqs[k - 1].ino);
      Moved(fs, d, q, reqs[k - 1])
  }

  ghost function Answers(fs: Fs, d: Drive, p: Position, reqs: seq<Request>): (a: seq<Bytes>)
    requires fs.Ok() && AllReadable(fs, d, p, reqs)
    ensures |a| == |reqs|
  {
    seq(|reqs|, k requires 0 <= k < |reqs| => Answer(fs, d, PositionAt(fs, d, p, reqs, k), reqs[k]))
  }

  /** Where a read of `ino` after the first `k` requests belongs in the file, told from their
      answers alone: behind those of the requests for `ino` since another inode was read. */
  ghost function Belongs(p: Position, reqs: seq<Request>, answers: seq<Bytes>, k: nat, ino: nat): nat
    requires k <= |reqs| == |answers|
  {
    if k == 0 then Cursor(p.ino, p.off, ino)
    else if reqs[k - 1].ino == 0 then Belongs(p, reqs, answers, k - 1, ino)
    else if reqs[k - 1].ino == ino then Belongs(p, reqs, answers, k - 1, ino) + |answers[k - 1]|
    else 0
  }

  lemma AnswerAt(fs: Fs, d: Drive, p: Position, reqs: seq<Request>, k: nat)
    requires fs.Ok() && AllReadable(fs, d, p, reqs) && k < |reqs|
    ensures var q := PositionAt(fs, d, p, reqs, k);
            Readable(fs, d, q, reqs[k].ino) && Answers(fs, d, p, reqs)[k] == Answer(fs, d, q, reqs[k])
  {
    hide Answer, Readable, Fs.Ok;
    var q := PositionAt(fs, d, p, reqs, k);
    assert Readable(fs, d, q, reqs[k].ino);
  }

  lemma {:induction false} PositionBelongs(fs: Fs, d: Drive, p: Position, reqs: seq<Request>, k: nat, ino: nat)
    requires fs.Ok() && AllReadable(fs, d, p, reqs) && k <= |reqs| && ino != 0
    ensures var q := PositionAt(fs, d, p, reqs, k);
            Cursor(q.ino, q.off, ino) == Belongs(p, reqs, Answers(fs, d, p, reqs), k, ino)
  {
    hide Answer, Answers, Readable, AllReadable, Fs.Ok;
    if k > 0 {
      PositionBelongs(fs, d, p, reqs, k - 1, ino);
      AnswerAt(fs, d, p, reqs, k - 1);
    }
  }

  lemma AnswerIsSlice(fs: Fs, d: Drive, p: Position, r: Request)
    requires fs.Ok() && Readable(fs, d, p, r.ino) && r.ino != 0
    ensures var a, di, at := Answer(fs, d, p, r), InodeOf(fs, d, r.ino), Cursor(p.ino, p.off, r.ino);
            at + |a| <= di.size && |a| <= r.nbyte && a == Slice(fs, d, di, at, at + |a|)
            && fs.psize > 0 && EndsAt(fs, at, r.nbyte, di.size, at + |a|)
  {
    ReachedEnds(fs, InodeOf(fs, d, r.ino), Cursor(p.ino, p.off, r.ino), r.nbyte);
    hide Slice, InodeOf, Limit, Fs.Ok, EndsAt;
  }

  /** In any run of requests, of any sizes and with any switches between inodes, each answer is
      the slice of its own file that begins where the earlier answers from that file ended, or
      at its start after a switch: no gap and no overlap. */
  lemma ReadsAreConsecutive(fs: Fs, d: Drive, p: Position, reqs: seq<Request>, k: nat)
    requires fs.Ok() && AllReadable(fs, d, p, reqs) && k < |reqs| && reqs[k].ino != 0
    ensures |InodeOf(fs, d, reqs[k].ino).db| == NDADDR
    ensures var answers, di := Answers(fs, d, p, reqs), InodeOf(fs, d, reqs[k].ino);
            var at := Belongs(p, reqs, answers, k, reqs[k].ino);
            at + |answers[k]| <= di.size && |answers[k]| <= reqs[k].nbyte
              && answers[k] == Slice(fs, d, di, at, at + |answers[k]|)
            && fs.psize > 0 && EndsAt(fs, at, reqs[k].nbyte, di.size, at + |answers[k]|)
  {
    hide Slice, InodeOf, Limit, Fs.Ok, Answer, Answers, Belongs, EndsAt;
    PositionBelongs(fs, d, p, reqs, k, reqs[k].ino);
    AnswerAt(fs, d, p, reqs, k);
    AnswerIsSlice(fs, d, PositionAt(fs, d, p, reqs, k), reqs[k]);
  }

  // ----- The reader -----

  class Ufs {
    const fs: Fs
    const disk: Drive
    /** offset for the next read of the current inode */
    var fsOff: nat
    /** the inode in `dp`; 0 if none */
    var inomap: nat
    var dp: Dinode
    /** the sectors whose contents the buffers hold; 0 if none */
    var blkmap: nat
    var indmap: nat
    const blkbuf: array<bv8>
    const indbuf: array<bv8>
    /** which virtual block of the file `blkbuf` holds */
    ghost var cachedLbn: nat
    ghost var cachedVblk: nat

    ghost predicate Valid()
      reads this, blkbuf, indbuf
    {
      && fs.Ok() && blkbuf != indbuf && blkbuf.Length == VBLKSIZE && indbuf.Length == VBLKSIZE
      && (inomap != 0 ==> dp == InodeOf(fs, disk, inomap))
      && (blkmap != 0 ==> BlockCached())
      && (indmap != 0 ==> indbuf[..] == At(disk, indmap * DEV_BSIZE, VBLKSIZE))
    }

    ghost predicate BlockCached()
      requires fs.Ok()
      reads this`dp, this`blkmap, this`cachedLbn, this`cachedVblk, blkbuf
    {
      && |dp.db| == NDADDR && InFile(fs, dp, cachedLbn, cachedVblk)
        && blkmap == VAddr(fs, disk, dp, cachedLbn, cachedVblk)
      && 0 <= VLen(fs, dp, cachedLbn, cachedVblk) <= blkbuf.Length
      && blkbuf[..VLen(fs, dp, cachedLbn, cachedVblk)]
        == At(disk, blkmap * DEV_BSIZE, VLen(fs, dp, cachedLbn, cachedVblk))
    }

    constructor (fs: Fs, disk: Drive)
      requires fs.Ok()
      ensures Valid() && this.fs == fs && this.disk == disk && inomap == 0 && fresh(blkbuf) && fresh(indbuf)
    {
      this.fs, this.disk := fs, disk;
      fsOff, inomap, blkmap, indmap := 0, 0, 0, 0;
      dp := Dinode(0, [], 0);
      blkbuf := new bv8[VBLKSIZE];
      indbuf := new bv8[VBLKSIZE];
    }

    /** dskread */
    method DskRead(buf: array<bv8>, lba: nat, nblk: nat)
      requires nblk * DEV_BSIZE <= buf.Length
      modifies buf
      ensures buf[..nblk * DEV_BSIZE] == At(disk, lba * DEV_BSIZE, nblk * DEV_BSIZE)
    {
      var i := 0;
      while i < nblk * DEV_BSIZE
        invariant 0 <= i <= nblk * DEV_BSIZE
        invariant forall j :: 0 <= j < i ==> buf[j] == disk(lba * DEV_BSIZE + j)
      {
        buf[i] := disk(lba * DEV_BSIZE + i);
        i := i + 1;
      }
    }

    /** Makes `ino` the current inode. */
    method LoadInode(ino: nat)
      requires Valid() && ino != 0
      modifies this, blkbuf
      ensures Valid() && inomap == ino
      ensures fsOff == if old(inomap) == ino then old(fsOff) else 0
    {
      hide Fs.Ok, Fs.InoVba, Fs.InoAt, InodeOf, BlockCached, At;
      if inomap == ino {
        return;
      }
      InodeAt(fs, disk, ino);
      DskRead(blkbuf, fs.InoVba(ino), DBPERVBLK);
      var at := fs.InoAt(ino);
      assert blkbuf[..] == blkbuf[..VBLKSIZE];
      dp := fs.dinode(blkbuf[..][at..at + fs.dsize]);
      inomap := ino;
      fsOff := 0;
      blkmap, indmap := 0, 0;
    }

    /** The fragment address of block `lbn`, by way of the indirect block if need be. */
    method MapBlock(lbn: nat) returns (addr: nat)
      requires Valid() && |dp.db| == NDADDR && lbn < NDADDR + fs.Nindir() && (lbn >= NDADDR ==> dp.ib0 > 0)
      modifies this`indmap, indbuf
      ensures Valid() && addr == Addr(fs, disk, dp, lbn)
    {
      hide Fs.Ok, InodeOf, BlockCached, Fs.Bsize, Fs.Nindir, RoundUp, At, Addr;
      if lbn < NDADDR {
        DirectPointer(fs, disk, dp, lbn);
        return dp.db[lbn];
      }
      IndirectPointer(fs, disk, dp, lbn);
      var n := Quot(fs.Nindir(), fs.vpb);
      var i := lbn - NDADDR;
      var vbaddr := fs.Sector(dp.ib0) + i / n * DBPERVBLK;
      if indmap != vbaddr {
        DskRead(indbuf, vbaddr, DBPERVBLK);
        assert indbuf[..] == indbuf[..VBLKSIZE];
        indmap := vbaddr;
      }
      addr := fs.ptr(indbuf[..][i % n * fs.psize..i % n * fs.psize + fs.psize]);
    }

    /** Brings virtual block `k` of block `lbn` into `blkbuf`. */
    method LoadBlock(lbn: nat, k: nat, addr: nat)
      requires Valid() && FileOk(fs, disk, dp) && InFile(fs, dp, lbn, k) && addr == Addr(fs, disk, dp, lbn)
      requires 0 <= VLen(fs, dp, lbn, k) && VLen(fs, dp, lbn, k) % DEV_BSIZE == 0
      modifies this`blkmap, this`cachedLbn, this`cachedVblk, blkbuf
      ensures Valid() && 0 <= VLen(fs, dp, lbn, k) <= blkbuf.Length
      ensures blkbuf[..VLen(fs, dp, lbn, k)] == At(disk, VAddr(fs, disk, dp, lbn, k) * DEV_BSIZE, VLen(fs, dp, lbn, k))
    {
      hide Fs.Ok, Addr, Fs.Sblksize, InFile;
      var vbaddr := fs.Sector(addr) + k * DBPERVBLK;
      assert vbaddr == VAddr(fs, disk, dp, lbn, k) > 0;
      var n := VLen(fs, dp, lbn, k);
      if blkmap != vbaddr {
        DskRead(blkbuf, vbaddr, n / DEV_BSIZE);
        blkmap := vbaddr;
        cachedLbn, cachedVblk := lbn, k;
      } else {
        assert cachedLbn == lbn && cachedVblk == k;
      }
    }

    /** One pass of fsread's loop: copies at least one byte, unless the offset cannot be
        mapped. */
    method CopyChunk(buf: array<bv8>, s: nat, nb: nat) returns (n: nat)
      requires Valid() && inomap != 0 && FileOk(fs, disk, dp) && buf != blkbuf && buf != indbuf
      requires 0 < nb && s + nb <= buf.Length && fsOff + nb <= dp.size
      modifies this`blkmap, this`indmap, this`cachedLbn, this`cachedVblk, this`fsOff, blkbuf, indbuf, buf
      ensures Valid() && n <= nb && fsOff == old(fsOff) + n
      ensures n == 0 <==> old(fsOff) >= Limit(fs)
      ensures n > 0 ==> old(fsOff) + n <= Limit(fs)
      ensures buf[s..s + n] == Slice(fs, disk, dp, old(fsOff), old(fsOff) + n)
      ensures buf[..s] == old(buf[..s])
    {
      hide Fs.Ok, InodeOf, BlockCached, FileOk, Limit, Slice, At, Fs.Nindir;
      OkSizes(fs);
      BlockOf(fs, fsOff);
      if fs.Lbn(fsOff) >= NDADDR + fs.Nindir() {
        FileOkFacts(fs, disk, dp);
        SliceEmpty(fs, disk, dp, fsOff);
        return 0;
      }
      var vboff, len := Fetch();
      n := if len - vboff > nb then nb else len - vboff;
      Memcpy(buf, s, blkbuf, vboff, n);
      SlicePrefix(fs, disk, dp, fsOff, blkbuf[vboff..len], n);
      assert blkbuf[vboff..len][..n] == blkbuf[vboff..vboff + n];
      fsOff := fsOff + n;
    }

    /** Brings the virtual block of the current offset into `blkbuf`, where the bytes from
        `vboff` to `len` are those of the file. */
    method Fetch() returns (vboff: nat, len: nat)
      requires Valid() && FileOk(fs, disk, dp) && fsOff < dp.size && fs.Lbn(fsOff) < NDADDR + fs.Nindir()
      modifies this`blkmap, this`indmap, this`cachedLbn, this`cachedVblk, blkbuf, indbuf
      ensures Valid() && vboff < len <= blkbuf.Length && fsOff + (len - vboff) <= Limit(fs) && |dp.db| == NDADDR
      ensures blkbuf[vboff..len] == Slice(fs, disk, dp, fsOff, fsOff + (len - vboff))
    {
      hide Fs.Ok, InodeOf, BlockCached, FileOk, Addr, Fs.Sblksize, FileByte, Limit, VAddr, InFile, VLen, Slice, At;
      OkSizes(fs);
      var lbn, off := fs.Lbn(fsOff), fs.Off(fsOff);
      BlockOf(fs, fsOff);
      ChunkInFile(fs, dp, fsOff);
      FileOkFacts(fs, disk, dp);
      var addr := MapBlock(lbn);
      vboff := off % VBLKSIZE;
      LoadBlock(lbn, off / VBLKSIZE, addr);
      len := VLen(fs, dp, lbn, off / VBLKSIZE);
      ChunkBytes(fs, disk, dp, fsOff, len - vboff);
      assert blkbuf[..len][vboff..len] == blkbuf[vboff..len];
    }

    /** fsread.  The result is the number of bytes delivered, or -1 if the reader ran into
        the part of the file it cannot map; either way the bytes delivered are the next of
        the file and the offset has moved past them. */
    method Fsread(ino: nat, buf: array<bv8>, nbyte: nat) returns (r: int)
      requires Valid() && nbyte <= buf.Length && buf != blkbuf && buf != indbuf
      requires ino != 0 ==> FileOk(fs, disk, InodeOf(fs, disk, ino))
      requires ino != 0 && inomap == ino ==> fsOff <= InodeOf(fs, disk, ino).size
      modifies this, blkbuf, indbuf, buf
      ensures Valid()
      ensures ino == 0 ==> r == 0 && inomap == old(inomap) && fsOff == old(fsOff)
      ensures ino != 0 ==>
                var p, di := Cursor(old(inomap), old(fsOff), ino), InodeOf(fs, disk, ino);
                var want := Want(di, p, nbyte);
                && inomap == ino && fsOff == Reached(fs, p, p + want)
                && 0 <= fsOff - p <= nbyte && buf[..fsOff - p] == Slice(fs, disk, di, p, fsOff)
                && r == (if fsOff == p + want then want else -1)
      ensures ino != 0 ==>
                var p, di := if old(inomap) == ino then old(fsOff) else 0, InodeOf(fs, disk, ino);
                && fs.psize > 0 && EndsAt(fs, p, nbyte, di.size, fsOff) && Returns(p, nbyte, di.size, fsOff, r)
      ensures var q, req := Position(old(inomap), old(fsOff)), Request(ino, nbyte);
                && Readable(fs, disk, q, ino) && Position(inomap, fsOff) == Moved(fs, disk, q, req)
                && buf[..|Answer(fs, disk, q, req)|] == Answer(fs, disk, q, req)
    {
      hide InodeOf, FileOk, Slice, Limit, BlockCached, At, EndsAt;
      if ino == 0 {
        return 0;
      }
      LoadInode(ino);
      ReachedEnds(fs, dp, fsOff, nbyte);
      var n := dp.size - fsOff;
      var want := if nbyte > n then n else nbyte;
      var ok := CopyAll(buf, want);
      return if ok then want else -1;
    }

    /** fsread's copy loop */
    method CopyAll(buf: array<bv8>, want: nat) returns (ok: bool)
      requires Valid() && inomap != 0 && FileOk(fs, disk, dp) && buf != blkbuf && buf != indbuf
      requires want <= buf.Length && fsOff + want <= dp.size
      modifies this`blkmap, this`indmap, this`cachedLbn, this`cachedVblk, this`fsOff, blkbuf, indbuf, buf
      ensures Valid() && |dp.db| == NDADDR
      ensures fsOff == Reached(fs, old(fsOff), old(fsOff) + want) && 0 <= fsOff - old(fsOff) <= want
      ensures buf[..fsOff - old(fsOff)] == Slice(fs, disk, dp, old(fsOff), fsOff)
      ensures ok <==> fsOff == old(fsOff) + want
    {
      hide InodeOf, FileOk, Slice, Limit, BlockCached, At, Fs.Ok;
      ghost var p := fsOff;
      var nb := want;
      FileOkFacts(fs, disk, dp);
      SliceEmpty(fs, disk, dp, p);
      while nb > 0
        invariant 0 <= nb <= want && Valid() && fsOff == p + want - nb && (want - nb > 0 ==> fsOff <= Limit(fs))
        invariant buf[..want - nb] == Slice(fs, disk, dp, p, fsOff)
      {
        ghost var before := fsOff;
        var copied := CopyChunk(buf, want - nb, nb);
        if copied == 0 {
          return false;
        }
        SliceExtends(fs, disk, dp, p, before, fsOff);
        assert buf[..want - nb + copied] == buf[..want - nb] + buf[want - nb..want - nb + copied];
        nb := nb - copied;
      }
      return true;
    }

    method Memcpy(dst: array<bv8>, to: nat, src: array<bv8>, from: nat, n: nat)
      requires dst != src && to + n <= dst.Length && from + n <= src.Length
      modifies dst
      ensures dst[to..to + n] == src[from..from + n] && dst[..to] == old(dst[..to])
    {
      var i := 0;
      while i < n
        invariant 0 <= i <= n
        invariant dst[to..to + i] == src[from..from + i] && dst[..to] == old(dst[..to])
      {
        dst[to + i] := src[from + i];
        i := i + 1;
      }
    }
  }

  lemma ByteAt(fs: Fs, d: Drive, di: Dinode, x: nat, j: nat)
    requires fs.Ok() && |di.db| == NDADDR && fs.Off(x) + j < fs.Bsize()
    ensures var lbn, off := fs.Lbn(x), fs.Off(x);
            FileByte(fs, d, di, x + j) == d(VAddr(fs, d, di, lbn, off / VBLKSIZE) * DEV_BSIZE + off % VBLKSIZE + j)
  {
    hide Addr;
    SameBlock(fs, x, j);
    var lbn, off := fs.Lbn(x), fs.Off(x);
    assert fs.Sector(Addr(fs, d, di, lbn)) * DEV_BSIZE + (off + j)
        == VAddr(fs, d, di, lbn, off / VBLKSIZE) * DEV_BSIZE + off % VBLKSIZE + j;
  }

  /** The bytes of a chunk, found in its virtual block. */
  lemma ChunkBytes(fs: Fs, d: Drive, di: Dinode, x: nat, n: nat)
    requires fs.Ok() && |di.db| == NDADDR && x < di.size && fs.Lbn(x) < NDADDR + fs.Nindir()
    requires var lbn, off := fs.Lbn(x), fs.Off(x); off % VBLKSIZE + n <= VLen(fs, di, lbn, off / VBLKSIZE)
    ensures var lbn, off := fs.Lbn(x), fs.Off(x);
            var k, len := off / VBLKSIZE, VLen(fs, di, lbn, off / VBLKSIZE);
            At(d, VAddr(fs, d, di, lbn, k) * DEV_BSIZE, len)[off % VBLKSIZE..off % VBLKSIZE + n]
              == Slice(fs, d, di, x, x + n)
  {
    hide Fs.Sblksize, Addr, Fs.Ok, VAddr, FileByte;
    ChunkInFile(fs, di, x);
    var lbn, off := fs.Lbn(x), fs.Off(x);
    var k, vboff := off / VBLKSIZE, off % VBLKSIZE;
    var a := VAddr(fs, d, di, lbn, k) * DEV_BSIZE;
    AtSub(d, a, VLen(fs, di, lbn, k), vboff, n);
    var t, u := Slice(fs, d, di, x, x + n), At(d, a + vboff, n);
    forall j: nat | j < n ensures t[j] == u[j] {
      ByteAt(fs, d, di, x, j);
      assert t[j] == FileByte(fs, d, di, x + j);
    }
  }

  lemma FileOkFacts(fs: Fs, d: Drive, di: Dinode)
    requires fs.Ok() && FileOk(fs, d, di)
    ensures |di.db| == NDADDR && (di.size > NDADDR * fs.Bsize() ==> di.ib0 > 0)
  {
  }

  lemma OkSizes(fs: Fs)
    requires fs.Ok()
    ensures (fs.psize == 4 || fs.psize == 8) && 1 <= fs.vpb && 1 <= fs.spf && fs.Bsize() > 0
  {
  }

  lemma SectorPositive(fs: Fs, frag: nat)
    requires fs.Ok() && frag > 0
    ensures fs.Sector(frag) > 0
  {
    MulGrows(frag, fs.spf);
  }

  lemma DirectPointer(fs: Fs, d: Drive, di: Dinode, lbn: nat)
    requires |di.db| == NDADDR && lbn < NDADDR
    ensures Addr(fs, d, di, lbn) == di.db[lbn]
  {
  }

  /** Where the pointer to an indirect block is found, as the source works it out. */
  lemma IndirectPointer(fs: Fs, d: Drive, di: Dinode, lbn: nat)
    requires fs.Ok() && |di.db| == NDADDR && NDADDR <= lbn && di.ib0 > 0
    ensures fs.vpb > 0 && fs.psize > 0
    ensures var n, i := Quot(fs.Nindir(), fs.vpb), lbn - NDADDR;
            && n > 0 && i % n * fs.psize + fs.psize <= VBLKSIZE
            && var vbaddr := fs.Sector(di.ib0) + i / n * DBPERVBLK;
            && vbaddr > 0
            && fs.ptr(At(d, vbaddr * DEV_BSIZE, VBLKSIZE)[i % n * fs.psize..i % n * fs.psize + fs.psize])
              == Addr(fs, d, di, lbn)
  {
    hide Fs.Ok, Fs.Bsize, Fs.Nindir, At;
    OkSizes(fs);
    PointersPerVblk(fs);
    SectorPositive(fs, di.ib0);
    PointerAt(d, fs.Sector(di.ib0), fs.psize, lbn - NDADDR);
  }

  /** Where an inode is found, as the source works it out. */
  lemma InodeAt(fs: Fs, d: Drive, ino: nat)
    requires fs.Ok()
    ensures fs.InoAt(ino) + fs.dsize <= VBLKSIZE
    ensures fs.dinode(At(d, fs.InoVba(ino) * DEV_BSIZE, VBLKSIZE)[fs.InoAt(ino)..fs.InoAt(ino) + fs.dsize])
            == InodeOf(fs, d, ino)
  {
    hide At;
    var n, r := VBLKSIZE / fs.dsize, Rem(ino, fs.ipg);
    SlotInGroup(ino, fs.ipg, n);
    SlotAddress(fs.dsize, r);
    AtSub(d, fs.InoVba(ino) * DEV_BSIZE, VBLKSIZE, fs.InoAt(ino), fs.dsize);
  }

  lemma PointerAddress(psize: nat, i: nat)
    requires psize == 4 || psize == 8
    ensures var n := VBLKSIZE / psize;
            (i / n * DBPERVBLK) * DEV_BSIZE + i % n * psize == i * psize && i % n * psize + psize <= VBLKSIZE
  {
  }

  lemma PointerAt(d: Drive, sector: nat, psize: nat, i: nat)
    requires psize == 4 || psize == 8
    ensures var n := VBLKSIZE / psize;
            && i % n * psize + psize <= VBLKSIZE
            && At(d, (sector + i / n * DBPERVBLK) * DEV_BSIZE, VBLKSIZE)[i % n * psize..i % n * psize + psize]
               == At(d, sector * DEV_BSIZE + i * psize, psize)
  {
    var n := VBLKSIZE / psize;
    PointerAddress(psize, i);
    AtSub(d, (sector + i / n * DBPERVBLK) * DEV_BSIZE, VBLKSIZE, i % n * psize, psize);
  }

  /** A block is mappable exactly when its offset is below the limit. */
  lemma BlockOf(fs: Fs, x: nat)
    requires fs.Ok()
    ensures fs.Lbn(x) < NDADDR + fs.Nindir() <==> x < Limit(fs)
    ensures fs.Lbn(x) < NDADDR + fs.Nindir() ==> x - fs.Off(x) + fs.Bsize() <= Limit(fs)
  {
    hide Fs.Nindir, Fs.Bsize;
    var b, m := fs.Bsize(), NDADDR + fs.Nindir();
    if fs.Lbn(x) < m {
      MulMono(fs.Lbn(x) + 1, m, b);
      assert (fs.Lbn(x) + 1) * b == fs.Lbn(x) * b + b;
    } else {
      MulMono(m, fs.Lbn(x), b);
    }
  }

  lemma VblkInFile(fs: Fs, di: Dinode, x: nat)
    requires fs.Ok() && x < di.size && fs.Lbn(x) < NDADDR + fs.Nindir()
    ensures InFile(fs, di, fs.Lbn(x), fs.Off(x) / VBLKSIZE)
    ensures fs.Lbn(x) >= NDADDR ==> di.size > NDADDR * fs.Bsize()
  {
    var lbn, off, b := fs.Lbn(x), fs.Off(x), fs.Bsize();
    assert x == lbn * b + off;
    assert off / VBLKSIZE < fs.vpb;
    if lbn >= NDADDR {
      MulMono(NDADDR, lbn, b);
    }
  }

  lemma VblkLength(off: nat, n: nat, b: nat)
    requires off < n <= b && n % DEV_BSIZE == 0
    ensures var k := off / VBLKSIZE;
            var len := if n - k * VBLKSIZE > VBLKSIZE then VBLKSIZE else n - k * VBLKSIZE;
            off % VBLKSIZE < len <= VBLKSIZE && len % DEV_BSIZE == 0 && k * VBLKSIZE + len <= b
  {
  }

  lemma ChunkInFile(fs: Fs, di: Dinode, x: nat)
    requires fs.Ok() && x < di.size && fs.Lbn(x) < NDADDR + fs.Nindir()
    ensures var lbn, off := fs.Lbn(x), fs.Off(x);
            && InFile(fs, di, lbn, off / VBLKSIZE)
            && off % VBLKSIZE < VLen(fs, di, lbn, off / VBLKSIZE) <= VBLKSIZE
            && VLen(fs, di, lbn, off / VBLKSIZE) % DEV_BSIZE == 0
            && off / VBLKSIZE * VBLKSIZE + VLen(fs, di, lbn, off / VBLKSIZE) <= fs.Bsize()
            && (lbn >= NDADDR ==> di.size > NDADDR * fs.Bsize())
  {
    hide Fs.Sblksize, InFile, Fs.Bsize, Quot, Rem;
    BlockReaches(fs, di, x);
    VblkInFile(fs, di, x);
    VblkLength(fs.Off(x), fs.Sblksize(di.size, fs.Lbn(x)), fs.Bsize());
  }

  lemma SlotAddress(dsize: nat, r: nat)
    requires dsize == 128 || dsize == 256
    ensures var n := VBLKSIZE / dsize;
            (r / n * DBPERVBLK) * DEV_BSIZE + r % n * dsize == r * dsize && r % n * dsize + dsize <= VBLKSIZE
  {
    if dsize == 128 {
      assert VBLKSIZE / dsize == 32 && r == r / 32 * 32 + r % 32;
    } else {
      assert VBLKSIZE / dsize == 16 && r == r / 16 * 16 + r % 16;
    }
  }

  lemma AtSub(d: Drive, a: nat, n: nat, lo: nat, len: nat)
    requires lo + len <= n
    ensures At(d, a, n)[lo..lo + len] == At(d, a + lo, len)
  {
  }

  lemma SlotInGroup(ino: nat, ipg: nat, n: nat)
    requires 0 < n && 0 < ipg && ipg % n == 0
    ensures ino % n == Rem(ino, ipg) % n
  {
    var g := Quot(ipg, n);
    assert Rem(ipg, n) == 0;
    var r := Rem(ino, ipg);
    var q, t := Quot(r, n), Rem(r, n);
    assert ino == Quot(ino, ipg) * ipg + r;
    assert Quot(ino, ipg) * (g * n) == (Quot(ino, ipg) * g) * n;
    assert ino == (Quot(ino, ipg) * g + q) * n + t;
    DivUnique(ino, n, Quot(ino, ipg) * g + q, t);
  }
}
