/**
 Memory as the ELF loaders fill it, and the clearing and reading primitives of
 boot/common/misc.c.
 */
module ElfImage {

  type Bytes = seq<bv8>

  class Memory {
    /** Kernel memory, byte by byte. */
    var mem: nat -> bv8

    constructor (m: nat -> bv8)
      ensures mem == m
    {
      mem := m;
    }

    /** arch_copyin */
    method CopyIn(src: Bytes, dest: nat)
      modifies this
      ensures forall a: nat :: mem(a) == if dest <= a < dest + |src| then src[a - dest] else old(mem)(a)
    {
      var before := mem;
      mem := (a: nat) => if dest <= a < dest + |src| then src[a - dest] else before(a);
    }

    /** kern_bzero: zero a region, 256 bytes at a time */
    method Bzero(dest: nat, len: nat)
      modifies this
      ensures forall a: nat :: mem(a) == if dest <= a < dest + len then 0 else old(mem)(a)
    {
      var buf: Bytes := seq(256, _ => 0);
      var resid, at := len, dest;
      while resid > 0
        invariant 0 <= resid <= len && at == dest + len - resid
        invariant forall a: nat :: mem(a) == if dest <= a < at then 0 else old(mem)(a)
      {
        var chunk := if 256 < resid then 256 else resid;
        CopyIn(buf[..chunk], at);
        resid := resid - chunk;
        at := at + chunk;
      }
    }

    /** kern_pread: fails, with the region in an unknown state, unless the file has all of it */
    method Pread(file: Bytes, dest: nat, len: nat, off: nat) returns (ok: bool)
      modifies this
      ensures ok <==> off + len <= |file|
      ensures ok ==> forall a: nat :: mem(a) == if dest <= a < dest + len then file[off + (a - dest)] else old(mem)(a)
      ensures forall a: nat :: !(dest <= a < dest + len) ==> mem(a) == old(mem)(a)
    {
      if off + len > |file| {
        var got := if off <= |file| then file[off..] else [];
        CopyIn(got, dest);
        return false;
      }
      CopyIn(file[off..off + len], dest);
      return true;
    }
  }
}
