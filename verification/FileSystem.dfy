/**
 fs.c and filewrite of file.c, on the logical disk that the buffer cache and the
 log provide: bread reads disk, log_write changes it and adds a block to the log.
 */
module FileSystem {
  import opened Basics
  import opened Blocks
  import opened Bits
  import opened FsModel
  import opened FileModel
  import CrashModel

  const T_DEV: nat := 3
  const NDEV: nat := 10

  /** The kernel stops with a panic, or the function returns r. */
  datatype Outcome = Panic | Ret(r: int)

  /** The in-memory copy of an inode. */
  class Inode {
    const inum: nat
    var typ: nat
    var major: nat
    var minor: nat
    var nlink: nat
    var size: nat
    const addrs: array<nat>

    constructor (inum: nat)
      ensures this.inum == inum && fresh(addrs) && addrs.Length == NDIRECT + 1
    {
      this.inum := inum;
      typ, major, minor, nlink, size := 0, 0, 0, 0, 0;
      addrs := new nat[NDIRECT + 1](_ => 0);
    }

    function Value(): Dinode
      reads this, addrs
    {
      Dinode(typ, major, minor, nlink, size, addrs[..])
    }
  }

  /** A struct file of type FD_INODE. */
  class OpenFile {
    const readable: bool
    const writable: bool
    const ip: Inode
    var off: nat

    constructor (readable: bool, writable: bool, ip: Inode)
      ensures this.readable == readable && this.writable == writable && this.ip == ip && off == 0
    {
      this.readable, this.writable, this.ip, this.off := readable, writable, ip, 0;
    }
  }

  class Fs {
    const sb: Super
    const logsize: nat  // log.size
    var disk: Store
    var logged: set<nat>  // log.lh.block of the running transaction
    var open: bool        // log.outstanding > 0

    // who owns each data block in use
    ghost var owner: map<nat, Slot>
    // the disk at the begin_op of the transaction
    ghost var start: Store

    constructor (sb: Super, logsize: nat, disk: Store, ghost owner: map<nat, Slot>)
      ensures this.sb == sb && this.logsize == logsize && this.disk == disk && this.owner == owner
      ensures logged == {} && !open && start == disk
    {
      this.sb, this.logsize, this.disk, this.logged, this.open := sb, logsize, disk, {}, false;
      this.owner, this.start := owner, disk;
    }

    function V(ip: Inode): View
      reads this, ip, ip.addrs
    {
      View(sb, disk, ip.inum, ip.Value())
    }

    /** The disk and the locked inode ip fit together. */
    ghost predicate Valid(ip: Inode)
      reads this, ip, ip.addrs
    {
      ViewOk(V(ip)) && Owned(V(ip), owner, {}, {}) && Recorded(start, disk, logged)
    }

    /** No block is free. */
    ghost predicate Full()
      reads this
    {
      sb.On(disk) && forall b {:trigger IsUsed(sb, disk, b)} :: 0 <= b < sb.size ==> IsUsed(sb, disk, b)
    }

    /** log_write would panic: "too big a transaction" or "log_write outside of trans". */
    predicate Stuck()
      reads this`open, this`logged
    {
      |logged| >= CrashModel.LOGSIZE || |logged| + 1 >= logsize || !open
    }

    /** What a panic leaves: log_write had no room or no transaction, or the disk is full and all is in order. */
    ghost predicate Stopped(ip: Inode)
      reads this, ip, ip.addrs
    {
      ViewOk(V(ip)) && Recorded(start, disk, logged) && (Stuck() || (Full() && Valid(ip)))
    }

    /** log_write: false if it panics. */
    method LogWrite(b: nat, data: Block) returns (ok: bool)
      requires b in disk && Recorded(start, disk, logged)
      modifies this`disk, this`logged
      ensures ok <==> !old(Stuck())
      ensures if ok then disk == old(disk)[b := data] && logged == old(logged) + {b} else disk == old(disk) && logged == old(logged)
      ensures Recorded(start, disk, logged)
    {
      if |logged| >= CrashModel.LOGSIZE || |logged| + 1 >= logsize { return false; }
      if !open { return false; }
      disk := disk[b := data];
      logged := logged + {b};
      return true;
    }

    /** The two loops of balloc: the first free block. */
    method FindFree() returns (r: Option<nat>)
      requires sb.On(disk)
      ensures r.None? ==> Full()
      ensures r.Some? ==> r.value < sb.size && !IsUsed(sb, disk, r.value)
      ensures r.Some? ==> forall x {:trigger IsUsed(sb, disk, x)} :: 0 <= x < r.value ==> IsUsed(sb, disk, x)
    {
      hide BlockBit;
      var b := 0;
      while b < sb.size
        invariant b % BPB == 0
        invariant forall x {:trigger IsUsed(sb, disk, x)} :: 0 <= x < b && x < sb.size ==> IsUsed(sb, disk, x)
      {
        BitmapRegion(sb, b);
        var bp := disk[sb.BBlock(b)];
        var bi := 0;
        while bi < BPB && b + bi < sb.size
          invariant 0 <= bi <= BPB
          invariant forall x {:trigger IsUsed(sb, disk, x)} :: 0 <= x < b + bi && x < sb.size ==> IsUsed(sb, disk, x)
        {
          assert (b + bi) / BPB == b / BPB && (b + bi) % BPB == bi;
          if !BlockBit(bp, bi) {
            return Some(b + bi);
          }
          assert IsUsed(sb, disk, b + bi);
          bi := bi + 1;
        }
        b := b + BPB;
      }
      return None;
    }

    /** balloc: None if it panics. */
    method Balloc(ghost ip: Inode) returns (r: Option<nat>)
      requires Valid(ip)
      modifies this`disk, this`logged
      ensures ViewOk(V(ip)) && Recorded(start, disk, logged)
      ensures old(Full()) ==> r.None? && disk == old(disk) && logged == old(logged)
      ensures old(Stuck()) ==> r.None?
      ensures r.None? ==> Stopped(ip) && forall x :: x in logged - old(logged) ==> sb.InBitmap(x)
      ensures Keeps(old(V(ip)), V(ip)) && SameRefs(old(V(ip)), V(ip)) && InodeBlockKept(old(V(ip)), V(ip)) && old(logged) <= logged
      ensures r.Some? ==>
                && Owned(V(ip), owner, {r.value}, {}) && sb.datastart <= r.value < sb.size
                && r.value in disk && disk[r.value] == Zeros() && !old(IsUsed(sb, disk, r.value))
                && !old(MarkedOnDisk(sb.bmapstart, disk, r.value)) && MarkedOnDisk(sb.bmapstart, disk, r.value)
                && logged == old(logged) + {sb.BBlock(r.value), r.value}
    {
      hide IsUsed, PutBlockBit, Ref, Ino, ByteAt, Owned;
      r := FindFree();
      ghost var v := V(ip);
      KeepsSelf(v);
      InodeBlockSelf(v);
      if r.Some? {
        var b := r.value;
        BitmapRegion(sb, b);
        StoreBit(v, owner, {}, {}, b, true);
        NotInodeBlock(v, sb.BBlock(b), PutBlockBit(disk[sb.BBlock(b)], b % BPB, true));
        assert {} + {b} == {b};
        var ok := LogWrite(sb.BBlock(b), PutBlockBit(disk[sb.BBlock(b)], b % BPB, true));
        if !ok { return None; }
        ghost var v1 := V(ip);
        RefsTrans(v, v, v1);
        StoreZeros(v1, owner, {b}, {}, b);
        NotInodeBlock(v1, b, Zeros());
        ok := LogWrite(b, Zeros());  // bzero
        if !ok { return None; }
        RefsTrans(v, v1, V(ip));
        OwnedMarked(V(ip), owner, b);
        UsedIsMarked(sb, v.d, b);
      }
    }

    // ---- bmap ----

    /** The direct case of bmap, and the allocation of the indirect block: addrs[k], allocating it if it is 0. */
    method MapAddr(ip: Inode, k: nat) returns (r: Option<nat>)
      requires Valid(ip) && k <= NDIRECT
      modifies this`disk, this`logged, this`owner, ip.addrs
      ensures if r.Some? then Valid(ip) else Stopped(ip) && V(ip).ci == old(V(ip)).ci
      ensures Keeps(old(V(ip)), V(ip)) && InodeBlockKept(old(V(ip)), V(ip)) && old(logged) <= logged
      ensures r.None? ==> forall x :: x in logged - old(logged) ==> sb.InBitmap(x)
      ensures r.Some? ==> r.value == ip.addrs[k] != 0 && r.value < WORD_LIMIT && ip.addrs[..] == old(ip.addrs[..])[k := r.value]
      ensures r.Some? ==> forall x :: x in logged - old(logged) ==> x == r.value || sb.InBitmap(x)
      ensures old(ip.addrs[k]) != 0 ==> r.Some? && disk == old(disk) && logged == old(logged) && ip.addrs[..] == old(ip.addrs[..])
      ensures old(ip.addrs[k]) == 0 && old(Stuck()) ==> r.None?
    {
      ghost var v := V(ip);
      var addr := ip.addrs[k];
      if addr != 0 {
        KeepsSelf(v);
        InodeBlockSelf(v);
        return Some(addr);
      }
      r := Balloc(ip);
      if r.Some? {
        ghost var v1 := V(ip);
        BitmapRegion(sb, r.value);
        EnterAddr(v, v1, owner, k, r.value);
        hide Ref, Ino, ByteAt, Owned, IsUsed, Keeps, ViewOk, SameRefs;
        ip.addrs[k] := r.value;
        assert V(ip) == WithAddr(v1, k, r.value);
        owner := owner[r.value := if k < NDIRECT then Direct(ip.inum, k) else Indirect(ip.inum)];
      }
    }

    /** The last step of bmap: entry j of the indirect block at a, allocating it if it is 0. */
    method MapInner(ip: Inode, a: nat, j: nat) returns (r: Option<nat>)
      requires Valid(ip) && j < NINDIRECT && a == ip.addrs[NDIRECT] != 0
      modifies this`disk, this`logged, this`owner
      ensures if r.Some? then Valid(ip) else Stopped(ip)
      ensures Keeps(old(V(ip)), V(ip)) && InodeBlockKept(old(V(ip)), V(ip)) && old(logged) <= logged
      ensures r.None? ==> Partial(sb, logged - old(logged))
      ensures r.Some? ==> r.value == Ref(V(ip), Inner(ip.inum, j)) != 0
      ensures r.Some? ==> forall x :: x in logged - old(logged) ==> x == r.value || x == a || sb.InBitmap(x)
      ensures old(Ref(V(ip), Inner(ip.inum, j))) != 0 ==> r.Some? && disk == old(disk) && logged == old(logged)
      ensures old(Ref(V(ip), Inner(ip.inum, j))) == 0 && old(Stuck()) ==> r.None?
    {
      hide Word, Owned, IsUsed, Full, Recorded;
      ghost var v := V(ip);
      IndirectThere(v, owner, a);
      var addr := Word(disk[a], j);
      if addr != 0 {
        KeepsSelf(v);
        InodeBlockSelf(v);
        return Some(addr);
      }
      r := Balloc(ip);
      if r.None? {
        SomePartial(sb, logged - old(logged), a);
      } else {
        ghost var v1 := V(ip);
        BitmapRegion(sb, r.value);
        SomePartial(sb, logged - old(logged), r.value);
        EnterEntry(v, v1, owner, j, r.value);
        NotInodeBlock(v1, a, SetWord(disk[a], j, r.value));
        hide Ref, Ino, ByteAt, Owned, IsUsed, Keeps, ViewOk, SameRefs, SetWord;
        var ok := LogWrite(a, SetWord(disk[a], j, r.value));
        if !ok { return None; }
        owner := owner[r.value := Inner(ip.inum, j)];
      }
    }

    /** bmap: None if it panics. */
    method Bmap(ip: Inode, bn: nat) returns (r: Option<nat>)
      requires Valid(ip)
      modifies this`disk, this`logged, this`owner, ip.addrs
      ensures if r.Some? then Valid(ip) else bn >= MAXFILE || Stopped(ip)
      ensures ViewOk(V(ip)) && Keeps(old(V(ip)), V(ip)) && old(logged) <= logged
      ensures bn < MAXFILE && r.None? ==> NearlyRecords(V(ip), bn, logged - old(logged))
      ensures bn >= MAXFILE ==> r.None? && V(ip) == old(V(ip)) && logged == old(logged)
      ensures r.Some? ==> bn < MAXFILE && r.value == Ref(V(ip), SlotOf(ip.inum, bn)) != 0 && TookAddr(old(V(ip)), V(ip), bn)
      ensures r.Some? ==> forall x :: x in logged - old(logged) ==> BmapRecord(V(ip), bn, x)
      ensures bn < MAXFILE && old(Ref(V(ip), SlotOf(ip.inum, bn))) != 0 ==>
                r.Some? && disk == old(disk) && logged == old(logged) && V(ip) == old(V(ip))
      ensures bn < MAXFILE && old(Ref(V(ip), SlotOf(ip.inum, bn))) == 0 && !open ==> r.None?
    {
      if bn < NDIRECT {
        r := MapAddr(ip, bn);
        if r.Some? { DirectRecords(V(ip), bn, logged - old(logged)); } else { Nearly(V(ip), bn, logged - old(logged), 0); }
      } else if bn - NDIRECT < NINDIRECT {
        r := BmapIndirect(ip, bn);
      } else {
        r := None;
      }
    }

    /** bmap behind the direct blocks. */
    method BmapIndirect(ip: Inode, bn: nat) returns (r: Option<nat>)
      requires Valid(ip) && NDIRECT <= bn < MAXFILE
      modifies this`disk, this`logged, this`owner, ip.addrs
      ensures if r.Some? then Valid(ip) else Stopped(ip)
      ensures ViewOk(V(ip)) && Keeps(old(V(ip)), V(ip)) && old(logged) <= logged
      ensures r.None? ==> NearlyRecords(V(ip), bn, logged - old(logged))
      ensures r.Some? ==> r.value == Ref(V(ip), SlotOf(ip.inum, bn)) != 0 && TookAddr(old(V(ip)), V(ip), bn)
      ensures r.Some? ==> forall x :: x in logged - old(logged) ==> BmapRecord(V(ip), bn, x)
      ensures old(Ref(V(ip), SlotOf(ip.inum, bn))) != 0 ==>
                r.Some? && disk == old(disk) && logged == old(logged) && V(ip) == old(V(ip))
      ensures old(Ref(V(ip), SlotOf(ip.inum, bn))) == 0 && !open ==> r.None?
    {
      hide Owned, IsUsed, ByteAt, Ref, Ino, Keeps, BmapRecord, NearlyRecords, Partial, Full, Recorded;
      ghost var v, l := V(ip), logged;
      InnerNeedsIndirect(v, bn);
      r := MapAddr(ip, NDIRECT);
      if r.None? {
        Nearly(V(ip), bn, logged - l, 0);
      } else {
        var a := r.value;
        ghost var v1, l1 := V(ip), logged;
        r := MapInner(ip, a, bn - NDIRECT);
        KeepsTrans(v, v1, V(ip));
        if r.Some? {
          IndirectRecords(v1, V(ip), bn, a, l, l1, logged);
        } else {
          NearlyIndirect(v1, V(ip), bn, a, l, l1, logged);
        }
      }
    }

    /**
     readi.  dev is what the device's read function would return, None if it has none.
     The bytes read are those of the file; blocks are allocated where it has holes, which panics outside an operation.
     */
    method Readi(ip: Inode, off: nat, n: nat, dev: Option<int>) returns (r: Outcome, dst: seq<byte>)
      requires Valid(ip) && ip.size <= MAXFILE * BSIZE && off < WORD_LIMIT && n < WORD_LIMIT
      modifies this`disk, this`logged, this`owner, ip.addrs
      ensures if r.Ret? then Valid(ip) else Stopped(ip)
      ensures ViewOk(V(ip)) && Keeps(old(V(ip)), V(ip))
      ensures ip.typ == T_DEV ==> r == Ret(if ip.major >= NDEV || dev.None? then -1 else dev.value) && V(ip) == old(V(ip))
      ensures ip.typ != T_DEV && (off > ip.size || off + n >= WORD_LIMIT) ==> r == Ret(-1) && V(ip) == old(V(ip))
      ensures ip.typ != T_DEV && off <= ip.size && off + n < WORD_LIMIT ==>
                var m := if off + n > ip.size then ip.size - off else n;
                && (r.Ret? ==> r == Ret(m) && dst == Bytes(old(V(ip)), ip.inum, off, off + m))
                && (r.Ret? ==> forall x :: off <= x < off + m ==> dst[x - off] == ByteOnDisk(old(disk), old(ip.addrs[..]), x))
                // where the file has no holes nothing changes; where it has, blocks are allocated, or there is a panic
                && (old(Mapped(V(ip), off, off + m)) ==> r.Ret? && V(ip) == old(V(ip)) && logged == old(logged))
                && (!old(Mapped(V(ip), off, off + m)) && r.Ret? ==> Mapped(V(ip), off, off + m) && V(ip) != old(V(ip)))
                && (!open ==> (r.Panic? <==> !old(Mapped(V(ip), off, off + m))))
    {
      KeepsSelf(V(ip));
      if ip.typ == T_DEV {
        if ip.major >= NDEV || dev.None? { return Ret(-1), []; }
        return Ret(dev.value), [];
      }
      if off > ip.size || off + n >= WORD_LIMIT {
        return Ret(-1), [];
      }
      var n := if off + n > ip.size then ip.size - off else n;
      ReadOnDisk(V(ip), off, n);
      r, dst := ReadBlocks(ip, off, n);
    }

    /** bread of the block of offset off, and the m bytes that memmove takes from it. */
    method ReadPart(ip: Inode, off: nat, m: nat, ghost v0: View) returns (r: Option<seq<byte>>)
      requires Valid(ip) && ViewOk(v0) && Keeps(v0, V(ip)) && v0.cur == ip.inum
      requires off + m <= MAXFILE * BSIZE && 0 < m <= BSIZE - off % BSIZE
      modifies this`disk, this`logged, this`owner, ip.addrs
      ensures if r.Some? then Valid(ip) else Stopped(ip)
      ensures ViewOk(V(ip)) && Keeps(v0, V(ip)) && RefsGrow(old(V(ip)), V(ip))
      ensures r.Some? ==> r.value == Bytes(v0, v0.cur, off, off + m) && Ref(V(ip), SlotOf(ip.inum, off / BSIZE)) != 0
      ensures old(Ref(V(ip), SlotOf(ip.inum, off / BSIZE))) != 0 ==> r.Some? && V(ip) == old(V(ip)) && logged == old(logged)
      ensures old(Ref(V(ip), SlotOf(ip.inum, off / BSIZE))) == 0 && !open ==> r.None?
    {
      ghost var v1 := V(ip);
      hide Owned, Keeps, ViewOk, Ref, Bytes, SlotOf;
      var a := Bmap(ip, off / BSIZE);
      KeepsTrans(v0, v1, V(ip));
      KeepsGrow(v1, V(ip));
      if a.None? { return None; }
      ReadPiece(v0, V(ip), owner, off, m);
      return Some(disk[a.value][off % BSIZE..off % BSIZE + m]);
    }

    /** The loop of readi. */
    method ReadBlocks(ip: Inode, off0: nat, n: nat) returns (r: Outcome, dst: seq<byte>)
      requires Valid(ip) && off0 + n <= MAXFILE * BSIZE
      modifies this`disk, this`logged, this`owner, ip.addrs
      ensures if r.Ret? then Valid(ip) else Stopped(ip)
      ensures ViewOk(V(ip)) && Keeps(old(V(ip)), V(ip))
      ensures r == Panic || r == Ret(n)
      ensures r.Ret? ==> dst == Bytes(old(V(ip)), ip.inum, off0, off0 + n) && Mapped(V(ip), off0, off0 + n)
      ensures old(Mapped(V(ip), off0, off0 + n)) ==> r.Ret? && V(ip) == old(V(ip)) && logged == old(logged)
      ensures !open && r.Ret? ==> old(Mapped(V(ip), off0, off0 + n))
    {
      hide Owned, Keeps, Ref, Ino, ByteAt, Bytes;
      ghost var v0, mapped := V(ip), Mapped(V(ip), off0, off0 + n);
      KeepsSelf(v0);
      var tot, off := 0, off0;
      dst := [];
      NoBytes(v0, ip.inum, off0);
      while tot < n
        invariant tot <= n && off == off0 + tot && Valid(ip) && Keeps(v0, V(ip))
        invariant dst == Bytes(v0, ip.inum, off0, off) && Mapped(V(ip), off0, off)
        invariant mapped || !open ==> V(ip) == v0 && logged == old(logged)
      {
        assert mapped ==> Ref(v0, SlotOf(v0.cur, off / BSIZE)) != 0;
        var m := if n - tot < BSIZE - off % BSIZE then n - tot else BSIZE - off % BSIZE;
        ghost var v1 := V(ip);
        var part := ReadPart(ip, off, m, v0);
        if part.None? { return Panic, []; }
        BytesJoin(v0, ip.inum, off0, off, off + m);
        MappedMore(v1, V(ip), off0, off, m);
        dst := dst + part.value;
        tot, off := tot + m, off + m;
      }
      return Ret(n), dst;
    }

    // ---- writei ----

    /** iupdate: false if it panics. */
    method Iupdate(ip: Inode) returns (ok: bool)
      requires Valid(ip)
      modifies this`disk, this`logged
      ensures ok <==> !old(Stuck())
      ensures Valid(ip) && Keeps(old(V(ip)), V(ip)) && SameRefs(old(V(ip)), V(ip))
      ensures if ok then Synced(V(ip)) && logged == old(logged) + {sb.IBlock(ip.inum)} else disk == old(disk) && logged == old(logged)
      // the 64 bytes of the inode, eight to a block, and no other byte of the disk
      ensures ok ==>
                var b, o := sb.inodestart + ip.inum / 8, 64 * (ip.inum % 8);
                && b in old(disk) && disk == old(disk)[b := disk[b]] && Spells(disk[b], o, ip.Value())
                && forall i :: 0 <= i < 512 && !(o <= i < o + 64) ==> disk[b][i] == old(disk)[b][i]
    {
      ghost var v := V(ip);
      StoreInode(v, owner, {}, {});
      KeepsSelf(v);
      EncodeSpells(v.d[sb.IBlock(ip.inum)], ip.inum % IPB, v.ci);
      hide Owned, Ref, Ino, ByteAt, Decode, Encode, Spells;
      var ib := sb.IBlock(ip.inum);
      ok := LogWrite(ib, Encode(disk[ib], ip.inum % IPB, ip.Value()));
    }

    /** The body of the loop of writei: the block of offset off takes the bytes of part. */
    method WritePart(ip: Inode, off: nat, part: seq<byte>) returns (ok: bool)
      requires Valid(ip) && off + |part| <= MAXFILE * BSIZE && 0 < |part| <= BSIZE - off % BSIZE
      modifies this`disk, this`logged, this`owner, ip.addrs
      ensures if ok then Valid(ip) else Stopped(ip)
      ensures ViewOk(V(ip)) && Writes(old(V(ip)), V(ip), off, off + |part|)
      ensures !ok ==> NearlyRecords(V(ip), off / BSIZE, logged - old(logged))
      ensures ok ==> Bytes(V(ip), ip.inum, off, off + |part|) == part && Ref(V(ip), SlotOf(ip.inum, off / BSIZE)) != 0
      ensures ok ==> TookAddr(old(V(ip)), V(ip), off / BSIZE)
      ensures ok ==> forall x :: x in logged - old(logged) ==> BmapRecord(V(ip), off / BSIZE, x)
      ensures ok ==> !old(Stuck())
    {
      ghost var v0, l0 := V(ip), logged;
      hide Owned, Ref, Ino, ByteAt, Bytes, Decode, ViewOk, SlotOf, NearlyRecords, TookAddr, BmapRecord;
      var a := Bmap(ip, off / BSIZE);
      KeepsWrites(v0, V(ip), off, off + |part|);
      if a.None? {
        return false;
      }
      ghost var v1, l1 := V(ip), logged;
      WritePiece(v0, v1, owner, off, part);
      NotInodeBlock(v1, a.value, Patched(disk[a.value], off % BSIZE, part));
      ok := LogWrite(a.value, Patched(disk[a.value], off % BSIZE, part));
      if !ok {
        AllRecordsNearly(v1, off / BSIZE, logged - l0);
        return;
      }
      SizeMonotone(l0, l1);
      RecordsSame(v1, V(ip), off / BSIZE);
      TookAddrThen(v0, v1, V(ip), off / BSIZE);
    }

    /** One iteration of the loop of writei, seen from the start of the loop. */
    method WriteStep(ip: Inode, src: seq<byte>, tot: nat, m: nat, off0: nat, ghost v0: View, ghost l0: set<nat>) returns (ok: bool)
      requires Valid(ip) && ViewOk(v0) && v0.cur == ip.inum && tot + m <= |src| && off0 + |src| <= MAXFILE * BSIZE
      requires 0 < m <= BSIZE - (off0 + tot) % BSIZE
      requires WriteProgress(v0, V(ip), logged - l0, off0, off0 + tot, src[..tot])
      modifies this`disk, this`logged, this`owner, ip.addrs
      ensures if ok then Valid(ip) else Stopped(ip)
      ensures ViewOk(V(ip))
      ensures ok ==> WriteProgress(v0, V(ip), logged - l0, off0, off0 + tot + m, src[..tot + m])
      ensures !ok ==> Writes(v0, V(ip), off0, off0 + |src|) && NearlyWritten(V(ip), off0, off0 + |src|, logged - l0)
      ensures ok ==> !old(Stuck())
    {
      var off := off0 + tot;
      ghost var v1, l1 := V(ip), logged;
      hide Owned, Ref, Ino, ByteAt, Decode, ViewOk, SlotOf, WriteProgress, Writes, BmapRecord, TookAddr, Bytes, Keeps, NearlyRecords,
           NearlyWritten;
      ok := WritePart(ip, off, src[tot..tot + m]);
      if ok {
        WrittenMore(v0, v1, V(ip), l0, l1, logged, off0, off, src, tot, m);
      } else {
        WriteStopped(v0, v1, V(ip), l0, l1, logged, off0, off, off + m, off0 + |src|, src[..tot]);
      }
    }

    /** The loop of writei: false if it panics. */
    method WriteBlocks(ip: Inode, src: seq<byte>, off0: nat) returns (ok: bool)
      requires Valid(ip) && off0 + |src| <= MAXFILE * BSIZE
      modifies this`disk, this`logged, this`owner, ip.addrs
      ensures if ok then Valid(ip) else Stopped(ip)
      ensures ViewOk(V(ip)) && Writes(old(V(ip)), V(ip), off0, off0 + |src|)
      ensures if ok then WriteProgress(old(V(ip)), V(ip), logged - old(logged), off0, off0 + |src|, src)
              else |src| > 0 && NearlyWritten(V(ip), off0, off0 + |src|, logged - old(logged))
      ensures ok && |src| > 0 ==> !old(Stuck())
    {
      hide Owned, Ref, Ino, ByteAt, Decode, SlotOf, WriteProgress, Writes, NearlyWritten;
      ghost var v0, l0 := V(ip), logged;
      WriteStart(v0, off0);
      assert logged - l0 == {};
      var tot, off := 0, off0;
      while tot < |src|
        invariant tot <= |src| && off == off0 + tot && Valid(ip)
        invariant WriteProgress(v0, V(ip), logged - l0, off0, off, src[..tot])
        invariant if tot == 0 then Stuck() == old(Stuck()) else !old(Stuck())
      {
        var m := if |src| - tot < BSIZE - off % BSIZE then |src| - tot else BSIZE - off % BSIZE;
        ok := WriteStep(ip, src, tot, m, off0, v0, l0);
        if !ok { return; }
        tot, off := tot + m, off + m;
      }
      assert src[..tot] == src;
      WriteDone(v0, V(ip), logged - l0, off0, off, src);
      return true;
    }

    /**
     writei.  dev is what the device's write function would return, None if it has none.
     The file becomes its old contents with src spliced in at off, and nothing else changes.
     */
    method Writei(ip: Inode, src: seq<byte>, off: nat, dev: Option<int>) returns (r: Outcome)
      requires Valid(ip) && ip.size <= MAXFILE * BSIZE && off < WORD_LIMIT && |src| < WORD_LIMIT
      modifies this`disk, this`logged, this`owner, ip`size, ip.addrs
      ensures if r.Ret? then Valid(ip) else Stopped(ip)
      ensures ViewOk(V(ip)) && ip.size <= MAXFILE * BSIZE
      ensures ip.typ == T_DEV ==> r == Ret(if ip.major >= NDEV || dev.None? then -1 else dev.value)
      ensures ip.typ != T_DEV && !Fits(old(ip.size), off, |src|) ==> r == Ret(-1)
      ensures ip.typ == T_DEV || !Fits(old(ip.size), off, |src|) ==> V(ip) == old(V(ip)) && logged == old(logged)
      ensures ip.typ != T_DEV && Fits(old(ip.size), off, |src|) ==>
                && (r == Ret(|src|) || r == Panic)
                && Writes(old(V(ip)), V(ip), off, off + |src|)
                && (r.Ret? ==> Written(old(V(ip)), V(ip), logged - old(logged), off, src))
                // an empty write never panics, any other does outside an operation or with a full log
                && (|src| == 0 ==> r.Ret?) && (|src| > 0 && old(Stuck()) ==> r.Panic?)
                && (r.Panic? ==> NearlyWritten(V(ip), off, off + |src|, logged - old(logged)))
    {
      if ip.typ == T_DEV {
        if ip.major >= NDEV || dev.None? { return Ret(-1); }
        return Ret(dev.value);
      }
      if off > ip.size || off + |src| >= WORD_LIMIT {
        return Ret(-1);
      }
      if off + |src| > MAXFILE * BSIZE {
        return Ret(-1);
      }
      r := WriteFile(ip, src, off);
    }

    /** writei behind its guards. */
    method WriteFile(ip: Inode, src: seq<byte>, off: nat) returns (r: Outcome)
      requires Valid(ip) && ip.size <= MAXFILE * BSIZE && Fits(ip.size, off, |src|)
      modifies this`disk, this`logged, this`owner, ip`size, ip.addrs
      ensures if r.Ret? then Valid(ip) else Stopped(ip)
      ensures ViewOk(V(ip)) && ip.size <= MAXFILE * BSIZE
      ensures r == Ret(|src|) || r == Panic
      ensures Writes(old(V(ip)), V(ip), off, off + |src|)
      ensures r.Ret? ==> Written(old(V(ip)), V(ip), logged - old(logged), off, src)
      ensures (|src| == 0 ==> r.Ret?) && (|src| > 0 && old(Stuck()) ==> r.Panic?)
      ensures r.Panic? ==> NearlyWritten(V(ip), off, off + |src|, logged - old(logged))
    {
      ghost var v0, l0 := V(ip), logged;
      hide Owned, Ref, Ino, ByteAt, Decode, SlotOf, WriteProgress, Writes, Bytes, Written, Synced, ViewOk, NearlyWritten;
      var ok := WriteBlocks(ip, src, off);
      if !ok { return Panic; }
      ghost var v1, l1 := V(ip), logged;
      WriteDone(v0, v1, l1 - l0, off, off + |src|, src);
      if |src| > 0 && off + |src| > ip.size {
        ok := SetSizeTo(ip, off + |src|);
        if !ok {
          SizeNotStored(v0, v1, V(ip), l1 - l0, off, src);
          return Panic;
        }
        GrewTo(v0, v1, V(ip), l0, l1, logged, off, src);
      } else {
        StayedWithin(v0, v1, l0, l1, off, src);
      }
      return Ret(|src|);
    }

    /** ip->size = n and iupdate: false if it panics. */
    method SetSizeTo(ip: Inode, n: nat) returns (ok: bool)
      requires Valid(ip) && n < WORD_LIMIT
      modifies this`disk, this`logged, ip`size
      ensures ok <==> !old(Stuck())
      ensures Valid(ip)
      ensures if ok then Grown(old(V(ip)), V(ip), n) && logged == old(logged) + {sb.IBlock(ip.inum)}
              else V(ip) == WithSize(old(V(ip)), n) && Keeps(old(V(ip)), V(ip)) && logged == old(logged)
    {
      ghost var v := V(ip);
      SetSize(v, owner, n);
      ip.size := n;
      assert V(ip) == WithSize(v, n);
      hide Owned, Ref, Ino, ByteAt, Decode;
      ok := Iupdate(ip);
    }

    // ---- itrunc ----

    /** bfree: false if log_write panics; "freeing free block" is ruled out by ownership. */
    method Bfree(ghost ip: Inode, b: nat, ghost freed: set<nat>) returns (ok: bool)
      requires ViewOk(V(ip)) && Owned(V(ip), owner, {}, freed) && b in owner && b !in freed && Recorded(start, disk, logged)
      modifies this`disk, this`logged
      ensures ok <==> !old(Stuck())
      ensures ViewOk(V(ip)) && Owned(V(ip), owner, {}, if ok then freed + {b} else freed) && Recorded(start, disk, logged)
      ensures SameRefs(old(V(ip)), V(ip)) && SameOthers(old(V(ip)), V(ip)) && SameBytesBut(old(V(ip)), V(ip), 0, 0)
      ensures forall x :: x in old(disk) && x >= sb.datastart ==> x in disk && disk[x] == old(disk[x])
      ensures if ok then logged == old(logged) + {sb.BBlock(b)} else logged == old(logged) && disk == old(disk)
      ensures old(MarkedOnDisk(sb.bmapstart, disk, b)) && (ok ==> !MarkedOnDisk(sb.bmapstart, disk, b))
    {
      BitmapRegion(sb, b);
      assert IsUsed(sb, disk, b);
      UsedIsMarked(sb, disk, b);
      ghost var d' := disk[sb.BBlock(b) := PutBlockBit(disk[sb.BBlock(b)], b % BPB, false)];
      UsedIsMarked(sb, d', b);
      BlockBitAfterPut(disk[sb.BBlock(b)], b % BPB, false, b % BPB);
      StoreBit(V(ip), owner, {}, freed, b, false);
      KeepsSelf(V(ip));
      hide Owned, Ref, Ino, ByteAt, PutBlockBit;
      var bp := disk[sb.BBlock(b)];
      if !BlockBit(bp, b % BPB) {
        return false;  // "freeing free block"
      }
      ok := LogWrite(sb.BBlock(b), PutBlockBit(bp, b % BPB, false));
    }

    /** bfree(ip->addrs[k]) and ip->addrs[k] = 0, for a direct block. */
    method FreeAddr(ip: Inode, k: nat) returns (ok: bool)
      requires Valid(ip) && k < NDIRECT && ip.addrs[k] != 0
      modifies this`disk, this`logged, this`owner, ip.addrs
      ensures ok <==> !old(Stuck())
      ensures Valid(ip) && Shrunk(old(V(ip)), V(ip), old(owner), owner)
      ensures ip.addrs[..] == if ok then old(ip.addrs[..])[k := 0] else old(ip.addrs[..])
      ensures !ok ==> logged == old(logged)
      ensures logged == old(logged) + BitmapOf(sb, old(owner).Keys - owner.Keys)
    {
      ghost var v, o, l := V(ip), owner, logged;
      var b := ip.addrs[k];
      assert Ref(v, Direct(ip.inum, k)) == b;
      ok := Bfree(ip, b, {});
      if !ok {
        ShrunkSelf(v, o);
        NothingFreed(sb, l, o);
        return;
      }
      ghost var v1 := V(ip);
      assert {} + {b} == {b};
      LeaveDirect(v1, owner, k);
      ShrunkByOne(v, v1, WithAddr(v1, k, 0), owner, {b});
      OneFreed(sb, l, o, b);
      hide Owned, Ref, Ino, ByteAt, Shrunk, BitmapOf;
      owner := Without(owner, {b});
      ip.addrs[k] := 0;
      assert V(ip) == WithAddr(v1, k, 0);
    }

    /** The first loop of itrunc. */
    method FreeDirect(ip: Inode) returns (ok: bool)
      requires Valid(ip)
      modifies this`disk, this`logged, this`owner, ip.addrs
      ensures Valid(ip) && Shrunk(old(V(ip)), V(ip), old(owner), owner)
      ensures ok ==> forall k :: 0 <= k < NDIRECT ==> ip.addrs[k] == 0
      ensures ip.addrs[NDIRECT] == old(ip.addrs[NDIRECT])
      ensures logged == old(logged) + BitmapOf(sb, old(owner).Keys - owner.Keys)
      ensures !ok ==> Stuck()
    {
      hide Owned, Ref, Ino, ByteAt, Shrunk, BitmapOf, Recorded;
      ghost var v0, o0, l0 := V(ip), owner, logged;
      ShrunkSelf(v0, o0);
      NothingFreed(sb, l0, o0);
      var i := 0;
      ok := true;
      while i < NDIRECT
        invariant ok && i <= NDIRECT && Valid(ip) && Shrunk(v0, V(ip), o0, owner)
        invariant forall k :: 0 <= k < i ==> ip.addrs[k] == 0
        invariant ip.addrs[NDIRECT] == v0.ci.addrs[NDIRECT]
        invariant logged == l0 + BitmapOf(sb, o0.Keys - owner.Keys)
      {
        if ip.addrs[i] != 0 {
          ghost var v1, o1 := V(ip), owner;
          ok := FreeAddr(ip, i);
          ShrunkTrans(v0, v1, V(ip), o0, o1, owner);
          MoreFreed(sb, l0, v0, v1, V(ip), o0, o1, owner);
          if !ok { return; }
        }
        i := i + 1;
      }
    }

    /** The second loop of itrunc: the blocks that the indirect block a holds. */
    method FreeInner(ip: Inode, a: nat) returns (ok: bool)
      requires Valid(ip) && a == ip.addrs[NDIRECT] != 0
      modifies this`disk, this`logged
      ensures ViewOk(V(ip)) && Recorded(start, disk, logged)
      ensures SameRefs(old(V(ip)), V(ip)) && SameOthers(old(V(ip)), V(ip)) && SameBytesBut(old(V(ip)), V(ip), 0, 0)
      ensures ok ==> Owned(V(ip), owner, {}, InnerBlocks(V(ip), NINDIRECT))
      ensures ok ==> logged == old(logged) + BitmapOf(sb, InnerBlocks(V(ip), NINDIRECT))
      ensures !ok ==> Stuck() && old(logged) <= logged <= old(logged) + BitmapOf(sb, OwnedBy(owner, ip.inum))
    {
      hide Owned, Ref, Ino, ByteAt, Word, BitmapOf, OwnedBy, InnerBlocks, Keeps, Recorded;
      ghost var v0, l0 := V(ip), logged;
      InnerStart(v0, owner, a, l0);
      var data := disk[a];
      var j := 0;
      ok := true;
      while j < NINDIRECT
        invariant ok && j <= NINDIRECT && ViewOk(V(ip)) && Owned(V(ip), owner, {}, InnerBlocks(v0, j))
        invariant SameRefs(v0, V(ip)) && SameOthers(v0, V(ip)) && SameBytesBut(v0, V(ip), 0, 0)
        invariant a in disk && disk[a] == data && Recorded(start, disk, logged)
        invariant logged == l0 + BitmapOf(sb, InnerBlocks(v0, j))
      {
        InnerNext(V(ip), v0, owner, j, a);
        if Word(data, j) != 0 {
          ghost var v1 := V(ip);
          ok := Bfree(ip, Word(data, j), InnerBlocks(v0, j));
          RefsTrans(v0, v1, V(ip));
          BitmapOfMore(sb, l0, InnerBlocks(v0, j), Word(data, j));
          if !ok {
            InnerOwned(V(ip), v0, owner, j, sb, l0);
            return;
          }
        }
        j := j + 1;
      }
      SameInner(v0, V(ip));
    }

    /** The indirect half of itrunc. */
    method FreeIndirect(ip: Inode) returns (ok: bool)
      requires Valid(ip) && ip.addrs[NDIRECT] != 0
      modifies this`disk, this`logged, this`owner, ip.addrs
      ensures ViewOk(V(ip)) && Recorded(start, disk, logged)
      ensures ok ==> Valid(ip) && Shrunk(old(V(ip)), V(ip), old(owner), owner)
      ensures ok ==> ip.addrs[..] == old(ip.addrs[..])[NDIRECT := 0]
      ensures ok ==> logged == old(logged) + BitmapOf(sb, old(owner).Keys - owner.Keys)
      ensures !ok ==> Stuck() && SameFiles(old(V(ip)), V(ip))
      ensures !ok ==> old(logged) <= logged <= old(logged) + BitmapOf(sb, OwnedBy(old(owner), ip.inum))
    {
      hide Owned, Ref, Ino, ByteAt, Shrunk, InnerBlocks, BitmapOf, OwnedBy, Keeps, Recorded, SameOthers, SameBytesBut, SameFiles;
      ghost var v, o, l := V(ip), owner, logged;
      var a := ip.addrs[NDIRECT];
      ok := FreeInner(ip, a);
      ghost var v1, inner := V(ip), InnerBlocks(V(ip), NINDIRECT);
      BytesSameFiles(v, v1);
      if !ok { return; }
      IndirectNotInner(v1, o);
      ok := Bfree(ip, a, inner);
      ghost var v2, gone := V(ip), inner + {a};
      RefsTrans(v, v1, v2);
      KeepsFiles(v, v2);
      SameInner(v1, v2);
      BitmapOfMore(sb, l, inner, a);
      GoneFreed(sb, l, o, ip.inum, gone);
      if !ok { return; }
      LeaveIndirect(v2, o);
      IndirectGone(v, v2, o, gone);
      owner := Without(owner, gone);
      ip.addrs[NDIRECT] := 0;
      assert V(ip) == WithAddr(v2, NDIRECT, 0);
    }

    /** itrunc: false if log_write panics, which it does exactly if there is no operation, or no room in the log before the
        last of its writes, when the bitmap blocks of all freed blocks have been logged. */
    method Itrunc(ip: Inode) returns (ok: bool)
      requires Valid(ip)
      modifies this`disk, this`logged, this`owner, ip`size, ip.addrs
      ensures ok <==> old(open && HasRoom(logged + BitmapOf(sb, OwnedBy(owner, ip.inum))))
      ensures ViewOk(V(ip)) && Recorded(start, disk, logged) && SameFiles(old(V(ip)), V(ip))
      // exactly the blocks of this inode are free again
      ensures ok ==> Valid(ip) && Synced(V(ip)) && ip.size == 0 && owner == OthersOwn(old(owner), ip.inum)
      ensures ok ==> forall k :: 0 <= k <= NDIRECT ==> ip.addrs[k] == 0
      ensures ok ==> logged == old(logged) + BitmapOf(sb, OwnedBy(old(owner), ip.inum)) + {sb.IBlock(ip.inum)}
    {
      hide Owned, Ref, Ino, ByteAt, Shrunk, Decode, BitmapOf, OwnedBy, SameFiles, Recorded;
      ghost var v0, o0, l0 := V(ip), owner, logged;
      ok := FreeDirect(ip);
      ghost var v1, o1, l1 := V(ip), owner, logged;
      FreedWithin(sb, v0, v1, o0, o1);
      ShrunkFiles(v0, v1, o0, o1);
      if !ok {
        NoRoomLater(l1, l0 + BitmapOf(sb, OwnedBy(o0, ip.inum)));
        return;
      }
      if ip.addrs[NDIRECT] != 0 {
        ok := FreeIndirect(ip);
        if !ok {
          OwnedLess(sb, v0, v1, o0, o1);
          SameFilesTrans(v0, v1, V(ip));
          NoRoomLater(logged, l0 + BitmapOf(sb, OwnedBy(o0, ip.inum)));
          return;
        }
        MoreFreed(sb, l0, v0, v1, V(ip), o0, o1, owner);
        ShrunkTrans(v0, v1, V(ip), o0, o1, owner);
      }
      ghost var v2 := V(ip);
      AllFreed(v0, v2, o0, owner);
      ShrunkFiles(v0, v2, o0, owner);
      ok := SetSizeTo(ip, 0);
      if ok {
        NothingLeft(v0, v2, V(ip), o0, owner);
      } else {
        KeepsFiles(v2, V(ip));
        SameFilesTrans(v0, v2, V(ip));
      }
    }

    predicate HasRoom(l: set<nat>) { |l| < CrashModel.LOGSIZE && |l| + 1 < logsize }

    lemma NoRoomLater(l: set<nat>, more: set<nat>)
      requires l <= more
      ensures !HasRoom(l) ==> !HasRoom(more)
    {
      SizeMonotone(l, more);
    }

    // ---- ilock and filewrite ----

    /** ilock of an inode that is not in memory yet: false if it panics, for an inode without a type. */
    method Ilock(ip: Inode) returns (ok: bool)
      requires sb.On(disk) && ip.inum < sb.ninodes && ip.addrs.Length == NDIRECT + 1
      modifies ip, ip.addrs
      ensures V(ip) == Locked(sb, disk, ip.inum) && (ok <==> ip.typ != 0)
      // the 64 bytes of the inode, eight to a block
      ensures var b := sb.inodestart + ip.inum / 8; b in disk && Spells(disk[b], 64 * (ip.inum % 8), ip.Value())
    {
      Regions(sb, 0, ip.inum);
      DecodeSpells(disk[sb.IBlock(ip.inum)], ip.inum % IPB);
      var dip := Decode(disk[sb.IBlock(ip.inum)], ip.inum % IPB);
      ip.typ, ip.major, ip.minor, ip.nlink, ip.size := dip.typ, dip.major, dip.minor, dip.nlink, dip.size;
      forall k | 0 <= k <= NDIRECT { ip.addrs[k] := dip.addrs[k]; }
      assert ip.addrs[..] == dip.addrs;
      return ip.typ != 0;
    }

    /** fileread of an inode file, which opens no operation: while no other process has one open it panics exactly where the
        file has a hole; while one has, the hole is filled in that transaction. */
    method Fileread(f: OpenFile, n: nat) returns (r: Outcome, dst: seq<byte>)
      requires Valid(f.ip) && f.ip.size <= MAXFILE * BSIZE && f.off < WORD_LIMIT && n < WORD_LIMIT && f.ip.typ != T_DEV
      modifies this`disk, this`logged, this`owner, f`off, f.ip.addrs
      ensures if r.Ret? then Valid(f.ip) else Stopped(f.ip)
      ensures ViewOk(V(f.ip)) && Keeps(old(V(f.ip)), V(f.ip))
      ensures !f.readable || old(f.off) > f.ip.size || old(f.off) + n >= WORD_LIMIT ==> r == Ret(-1) && f.off == old(f.off)
      ensures f.readable && old(f.off) <= f.ip.size && old(f.off) + n < WORD_LIMIT ==>
                var m := if old(f.off) + n > f.ip.size then f.ip.size - old(f.off) else n;
                && (r.Ret? ==> r == Ret(m) && f.off == old(f.off) + m && dst == Bytes(old(V(f.ip)), f.ip.inum, old(f.off), f.off))
                && (!open ==> (r.Panic? <==> !old(Mapped(V(f.ip), f.off, f.off + m))))
                && (old(Mapped(V(f.ip), f.off, f.off + m)) ==> r.Ret? && V(f.ip) == old(V(f.ip)) && logged == old(logged))
                && (r.Ret? ==> Mapped(V(f.ip), old(f.off), old(f.off) + m))
      ensures old(Mapped(V(f.ip), 0, f.ip.size)) ==> r.Ret? && V(f.ip) == old(V(f.ip))
    {
      KeepsSelf(V(f.ip));
      if !f.readable { return Ret(-1), []; }
      hide Owned, Keeps, Ref, Ino, ByteAt, Bytes;
      r, dst := Readi(f.ip, f.off, n, None);
      if r.Ret? && r.r > 0 { f.off := f.off + r.r; }
    }

    /**
     filewrite of an inode file: every chunk is an operation of its own.  ops are the
     blocks that each operation logged, views what there was between them, and done is how
     much has been written.
     */
    method Filewrite(f: OpenFile, src: seq<byte>, dev: Option<int>)
      returns (r: Outcome, ghost ops: seq<set<nat>>, ghost views: seq<View>, ghost done: nat)
      requires Valid(f.ip) && f.ip.size <= MAXFILE * BSIZE && f.off + |src| < WORD_LIMIT && f.ip.typ != T_DEV
      modifies this`disk, this`logged, this`open, this`owner, this`start, f`off, f.ip`size, f.ip.addrs
      ensures if r.Ret? then Valid(f.ip) else Stopped(f.ip)
      ensures ViewOk(V(f.ip)) && f.ip.size <= MAXFILE * BSIZE && SameFiles(old(V(f.ip)), V(f.ip))
      ensures !f.writable ==> r == Ret(-1) && V(f.ip) == old(V(f.ip)) && f.off == old(f.off)
      ensures r in {Ret(|src|), Ret(-1), Panic} && done <= |src|
      // all of src has been written, or after an error a number of whole chunks
      ensures f.writable && r.Ret? ==>
                && f.off == old(f.off) + done
                && (if done == 0 then V(f.ip) == old(V(f.ip))
                    else old(f.off) <= old(f.ip.size) && File(V(f.ip)) == Splice(old(File(V(f.ip))), old(f.off), src[..done]))
                && (if r == Ret(|src|) then done == |src| else done % WRITE_MAX == 0 && Refused(V(f.ip), f.off, |src| - done))
      // each completed chunk has written its part of src
      ensures Chunks(views, ops, old(f.off), src) && views[0] == old(V(f.ip)) && done == ChunkEnd(src, |views| - 1)
      ensures r.Ret? ==> views[|views| - 1] == V(f.ip)
      // on a disk with one bitmap block no operation overfills the log, and a panic means a full disk
      ensures sb.size <= BPB ==> InBudget(ops)
      ensures sb.size <= BPB && logsize >= CrashModel.MAXOPBLOCKS && r == Panic ==> Full() && Valid(f.ip)
    {
      ghost var v0, off0 := V(f.ip), f.off;
      FilewriteStart(v0, off0, src);
      FilewriteKeeps(v0, v0, off0, src, 0);
      NoOps();
      NoChunks(v0, off0, src);
      if !f.writable { return Ret(-1), [], [v0], 0; }
      hide Owned, Ref, Ino, ByteAt, Decode, Bytes, ViewOk, SameFiles, FilewriteAt, Chunks;
      r, ops, views, done := WriteChunks(f, src, dev);
      if r.Ret? {
        FilewriteKeeps(v0, V(f.ip), off0, src, done);
      }
    }

    /** The loop of filewrite. */
    method WriteChunks(f: OpenFile, src: seq<byte>, dev: Option<int>)
      returns (r: Outcome, ghost ops: seq<set<nat>>, ghost views: seq<View>, ghost done: nat)
      requires Valid(f.ip) && f.ip.size <= MAXFILE * BSIZE && f.off + |src| < WORD_LIMIT && f.ip.typ != T_DEV
      requires FilewriteAt(V(f.ip), V(f.ip), f.off, src, 0)
      modifies this`disk, this`logged, this`open, this`owner, this`start, f`off, f.ip`size, f.ip.addrs
      ensures if r.Ret? then Valid(f.ip) else Stopped(f.ip)
      ensures ViewOk(V(f.ip)) && f.ip.size <= MAXFILE * BSIZE
      ensures r in {Ret(|src|), Ret(-1), Panic} && done <= |src|
      ensures r.Ret? ==> FilewriteAt(old(V(f.ip)), V(f.ip), old(f.off), src, done) && f.off == old(f.off) + done
      ensures r.Ret? ==> if r == Ret(|src|) then done == |src| else done % WRITE_MAX == 0 && Refused(V(f.ip), f.off, |src| - done)
      ensures SameFiles(old(V(f.ip)), V(f.ip))
      ensures Chunks(views, ops, old(f.off), src) && views[0] == old(V(f.ip)) && done == ChunkEnd(src, |views| - 1)
      ensures r.Ret? ==> views[|views| - 1] == V(f.ip)
      ensures sb.size <= BPB ==> InBudget(ops)
      ensures sb.size <= BPB && logsize >= CrashModel.MAXOPBLOCKS && r == Panic ==> Full() && Valid(f.ip)
    {
      hide Owned, Ref, Ino, ByteAt, Decode, Bytes, ViewOk, SameFiles, FilewriteAt, InBudget, Chunks, Wrote, FsModel.IsUsed;
      ops, done := [], 0;
      ghost var v0, off0 := V(f.ip), f.off;
      FilewriteKeeps(v0, v0, off0, src, 0);
      NoOps();
      NoChunks(v0, off0, src);
      views := [v0];
      var i := 0;
      while i < |src|
        invariant 0 <= i <= |src| && Valid(f.ip) && f.ip.size <= MAXFILE * BSIZE && f.off == off0 + i
        invariant FilewriteAt(v0, V(f.ip), off0, src, i)
        invariant i % WRITE_MAX == 0 || i == |src|
        invariant Chunks(views, ops, off0, src) && |ops| == |views| - 1 && views[0] == v0 && views[|views| - 1] == V(f.ip)
        invariant i == ChunkEnd(src, |views| - 1)
        invariant sb.size <= BPB ==> InBudget(ops)
      {
        var n1 := if |src| - i > WRITE_MAX then WRITE_MAX else |src| - i;
        r := Chunk(f, src, i, n1, dev, v0, off0);
        done := i;
        if r == Panic { return; }
        ChunkStarts(src, |views| - 1);
        if r == Ret(n1) {
          OneMoreChunk(views, ops, off0, src, V(f.ip), logged);
          views := views + [V(f.ip)];
        } else {
          RefusedChunk(views, ops, off0, src, logged);
        }
        if sb.size <= BPB { OneMoreOp(ops, logged); }
        ops := ops + [logged];
        open := false;  // end_op
        if r.r < 0 { break; }
        if r.r != n1 {
          r := Panic;  // "short filewrite"
          return;
        }
        i := i + r.r;
      }
      FilewriteKeeps(v0, V(f.ip), off0, src, i);
      r, done := Ret(if i == |src| then |src| else -1), i;
    }

    /** One operation of filewrite, from begin_op to end_op. */
    method Chunk(f: OpenFile, src: seq<byte>, i: nat, n1: nat, dev: Option<int>, ghost v0: View, ghost off0: nat) returns (r: Outcome)
      requires Valid(f.ip) && ViewOk(v0) && f.ip.size <= MAXFILE * BSIZE && f.ip.typ != T_DEV
      requires off0 + |src| < WORD_LIMIT && f.off == off0 + i && i + n1 <= |src| && 0 < n1 <= WRITE_MAX
      requires FilewriteAt(v0, V(f.ip), off0, src, i)
      modifies this`disk, this`logged, this`open, this`owner, this`start, f`off, f.ip`size, f.ip.addrs
      ensures if r.Ret? then Valid(f.ip) else Stopped(f.ip)
      ensures ViewOk(V(f.ip)) && f.ip.size <= MAXFILE * BSIZE
      ensures r in {Ret(n1), Ret(-1), Panic}
      ensures if r == Panic then SameFiles(v0, V(f.ip)) else FilewriteAt(v0, V(f.ip), off0, src, if r == Ret(n1) then i + n1 else i)
      ensures f.off == off0 + if r == Ret(n1) then i + n1 else i
      ensures r == Ret(n1) ==> Wrote(old(V(f.ip)), V(f.ip), logged, off0 + i, src[i..i + n1])
      ensures r == Ret(-1) ==> V(f.ip) == old(V(f.ip))
      ensures r == Ret(-1) ==> !Fits(f.ip.size, f.off, n1)
      ensures sb.size <= BPB && r != Panic ==> |logged| <= 7
      ensures sb.size <= BPB && logsize >= CrashModel.MAXOPBLOCKS && r == Panic ==> Full() && Valid(f.ip)
      ensures start == old(disk)  // so by Valid, whatever the operation has changed is logged
    {
      hide Owned, Ref, Ino, ByteAt, Decode, Bytes, Writes, Written, ViewOk, SameFiles, FilewriteAt, NearlyWritten, Full;
      ghost var v1 := V(f.ip);
      FilewriteKeeps(v0, v1, off0, src, i);
      logged, start, open := {}, disk, true;  // begin_op, after every earlier transaction has been committed
      r := Writei(f.ip, src[i..i + n1], f.off, dev);
      assert logged - {} == logged;
      if r == Ret(n1) {
        ChunkWritten(v0, v1, V(f.ip), logged - {}, off0, src, i, n1);
        f.off := f.off + r.r;
      } else {
        ChunkFailed(v0, v1, V(f.ip), off0, src, i, n1, r == Panic);
        if r == Panic && sb.size <= BPB { NearlyBounded(V(f.ip), logged, f.off, f.off + n1); }
      }
    }
  }
}
