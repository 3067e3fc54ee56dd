/** Open files: seeking, reading and writing (rdcf2.c). Any sequence of them
    refines a byte sequence with a position. */
module FatFile {
  import opened Arith
  import opened FatCache
  import opened FatChains
  import opened FatAlloc
  import opened FatData

  /** Every cluster of a chain in order is in range. */
  lemma ChainInRange(v: Volume, k: nat)
    requires VolumeOk(v) && k < |v.chains|
    ensures InRange(v.g, v.chains[k]) && Distinct(v.chains[k]) && DiskOk(v.g, v.logical)
    ensures |v.fat| == v.g.maxCluster + 1 && IsChain(v.fat, v.chains[k])
  {
    ChainIn(v.fat, v.chains, v.reserved, v.firstPossiblyEmpty, k);
    v.Facts();
  }

  /** The cursor of a file: the cluster of the position, or, behind the last
      cluster, an end mark and the chain's tail to append to. */
  ghost predicate CursorAt(g: Geometry, ch: seq<nat>, position: nat, cluster: nat, last: nat)
    requires GeometryOk(g)
  {
    && (ch == [] ==> last == EMPTY_CLUSTER)
    && if Index(g, position) < |ch| then cluster == ch[Index(g, position)]
       else
         && Index(g, position) == |ch| && position % ClusterBytes(g) == 0
         && last == Last(ch) && if ch == [] then cluster == EMPTY_CLUSTER else cluster >= LAST_MARK
  }

  /** The cluster before the one at index i, and the FAT entry that follows it. */
  lemma NextEntry(v: Volume, k: nat, i: nat)
    requires VolumeOk(v) && k < |v.chains| && i < |v.chains[k]|
    ensures 2 <= v.chains[k][i] <= v.g.maxCluster && |v.fat| == v.g.maxCluster + 1
    ensures var x := v.fat[v.chains[k][i]];
      if i + 1 < |v.chains[k]| then x == v.chains[k][i + 1] && x < LAST_MARK else x >= LAST_MARK
  {
    ChainInRange(v, k);
    v.Facts();
  }

  /** The cluster of the last byte of a file. */
  ghost predicate InLastRead(g: Geometry, ch: seq<nat>, size: nat, cluster: nat)
    requires GeometryOk(g)
  {
    size > 0 && Index(g, size - 1) < |ch| && cluster == ch[Index(g, size - 1)]
  }

  /** A file of one cluster, read to its end: the cursor that the read leaves is not
      the cursor that a write needs, which would be an end mark. */
  lemma ReadToTheEnd(last: nat)
    ensures var g := Geometry(1, 16, 33, 65, 1, 4080);
            && GeometryOk(g) && Holds(g, [2], 512) && InLastRead(g, [2], 512, 2)
            && !CursorAt(g, [2], 512, 2, last) && CursorAt(g, [2], 512, LAST_MARK, 2)
  {
  }

  class File {
    const v: Volume
    ghost const k: nat
    var firstCluster: nat
    var size: nat
    var position: nat
    var cluster: nat
    var lastCluster: nat
    var readable: bool
    var writable: bool
    var append: bool
    var written: bool

    ghost function Chain(): seq<nat>
      requires k < |v.chains|
      reads v
    {
      v.chains[k]
    }

    /** The file's data structures fit its volume. */
    ghost predicate Ok()
      reads this, v
    {
      && VolumeOk(v) && k < |v.chains| && GeometryOk(v.g)
      && firstCluster == First(v.chains[k]) && Holds(v.g, v.chains[k], size) && position <= size
    }

    ghost predicate Cursor()
      requires k < |v.chains| && GeometryOk(v.g)
      reads this, v
    {
      CursorAt(v.g, v.chains[k], position, cluster, lastCluster)
    }

    /** The file's contents. */
    ghost function Bytes(): (s: seq<nat>)
      requires Ok()
      reads this, v
      ensures |s| == size
    {
      ChainInRange(v, k);
      Content(v.g, v.logical, v.chains[k], size)
    }

    /** The setup at the end of rdcf_open, for a file just created or truncated or one
        that is opened as it is. */
    constructor (v: Volume, ghost k: nat, firstCluster: nat, size: nat, readable: bool, writable: bool, append: bool,
                 written: bool)
      requires VolumeOk(v) && k < |v.chains| && GeometryOk(v.g)
      requires firstCluster == First(v.chains[k]) && Holds(v.g, v.chains[k], size)
      ensures Ok() && Cursor() && this.v == v && this.k == k && this.size == size && position == 0
      ensures this.readable == readable && this.writable == writable && this.append == append
      ensures this.written == written
    {
      this.v, this.k, this.firstCluster, this.size := v, k, firstCluster, size;
      position, cluster, lastCluster := 0, firstCluster, EMPTY_CLUSTER;
      this.readable, this.writable, this.append, this.written := readable, writable, append, written;
      new;
      IndexZero(v.g);
    }

    /** rdcf_seek. */
    method Seek(offset: nat) returns (err: Error)
      requires Ok() && (v.chains[k] == [] ==> lastCluster == EMPTY_CLUSTER) && v.status != Dirty
      modifies v, `position, `cluster, `lastCluster
      ensures Ok() && v.status != Dirty && v.logical == old(v.logical) && v.chains == old(v.chains)
      ensures v.reserved == old(v.reserved)
      ensures err == if offset > size then BadOffset else NoError
      ensures err == NoError ==> position == offset && Cursor()
      ensures err == NoError ==> v.status == Empty || v.sectorInBuffer < v.g.firstDirectory
      ensures err != NoError ==> position == old(position) && cluster == old(cluster) && lastCluster == old(lastCluster)
    {
      hide VolumeOk, Volume.Valid, InOrder, Holds, ClusterBytes;
      if offset > size {
        return BadOffset;
      }
      err := Rewind(offset);
      position := offset;
    }

    /** Follow the chain to the cluster of an offset. */
    method Rewind(offset: nat) returns (err: Error)
      requires Ok() && offset <= size && (v.chains[k] == [] ==> lastCluster == EMPTY_CLUSTER) && v.status != Dirty
      modifies v, `cluster, `lastCluster
      ensures VolumeOk(v) && v.status != Dirty && v.logical == old(v.logical) && v.chains == old(v.chains)
      ensures v.reserved == old(v.reserved)
      ensures v.status == Empty || v.sectorInBuffer < v.g.firstDirectory
      ensures err == NoError && CursorAt(v.g, v.chains[k], offset, cluster, lastCluster)
    {
      hide Volume.Valid, InOrder, ClusterBytes, Holds, Index, IsChain;
      ghost var ch := v.chains[k];
      OffsetBound(v.g, ch, size, offset);
      v.ForgetBuffer();
      var c: nat := firstCluster;
      var i := offset / (v.g.perCluster * SECTOR_SIZE);
      SameDivisor(v.g, offset);
      ghost var steps := 0;
      StartOfChain(ch, lastCluster);
      while i > 0
        invariant i >= 0 && steps >= 0 && steps + i == Index(v.g, offset)
        invariant VolumeOk(v) && v.status != Dirty && v.logical == old(v.logical) && v.chains == old(v.chains)
        invariant v.reserved == old(v.reserved) && (v.status == Empty || v.sectorInBuffer < v.g.firstDirectory)
        invariant v.chains[k] == ch && Follows(ch, steps, c, lastCluster)
      {
        NextEntry(v, k, steps);
        var x;
        err, x := v.FatEntry(c);
        if x >= LAST_MARK {
          lastCluster := c;
        }
        c := x;
        i := i - 1;
        steps := steps + 1;
      }
      cluster := c;
      err := NoError;
    }

    // ----- Reading -----

    /** While there is more to read, the cursor is where the position is. */
    ghost predicate ReadCursor()
      requires k < |v.chains| && GeometryOk(v.g)
      reads this, v
    {
      ReadAt(v.g, v.chains[k], size, position, cluster)
    }

    lemma CursorReads()
      requires Ok() && Cursor()
      ensures ReadCursor()
    {
      hide Index, ClusterBytes, InOrder;
      if position < size {
        HoldsPosition(v.g, v.chains[k], size, position);
      }
    }

    lemma CursorTail()
      requires k < |v.chains| && GeometryOk(v.g) && Cursor()
      ensures v.chains[k] == [] ==> lastCluster == EMPTY_CLUSTER
    {
    }

    /** A stretch of one sector. */
    method ReadChunk(pos: nat, n: nat) returns (chunk: seq<nat>)
      requires Ok() && pos < size && 0 < n <= SECTOR_SIZE - pos % SECTOR_SIZE && pos + n <= size
      requires ReadAt(v.g, v.chains[k], size, pos, cluster) && v.status != Dirty
      modifies v`disk, v`buf, v`status, v`sectorInBuffer
      ensures VolumeOk(v) && v.status != Dirty && chunk == old(Bytes())[pos..pos + n]
    {
      hide InOrder, Holds, Index, Within, SectorAt, IsChain;
      ChainInRange(v, k);
      ghost var g, ch := v.g, v.chains[k];
      HoldsPosition(g, ch, size, pos);
      ChunkOf(g, v.logical, ch, size, pos, n);
      SectorExists(g, ch[Index(g, pos)], Within(g, pos));
      var sector := v.g.firstData + (cluster - 2) * v.g.perCluster + (pos / SECTOR_SIZE) % v.g.perCluster;
      SectorComputed(g, cluster, pos);
      if pos % SECTOR_SIZE == 0 && n == SECTOR_SIZE {
        chunk := v.disk[sector];
        assert chunk[0..SECTOR_SIZE] == chunk;
      } else {
        v.ReadBuffer(sector);
        chunk := v.buf[pos % SECTOR_SIZE..pos % SECTOR_SIZE + n];
      }
    }

    lemma OkFacts()
      requires Ok()
      ensures v.Valid() && k < |v.chains| && GeometryOk(v.g) && position <= size && Holds(v.g, v.chains[k], size)
    {
    }

    /** Forget the buffer, as every operation does when it begins. */
    method Begin()
      requires Ok() && v.status != Dirty
      modifies v`status
      ensures Ok() && v.status == Empty
    {
      hide InOrder;
      v.ForgetBuffer();
    }

    method MoveTo(pos: nat)
      requires Ok() && pos <= size
      modifies `position
      ensures Ok() && position == pos
    {
      position := pos;
    }

    /** A stretch of one sector, and the cursor moved on. */
    method ReadStep(pos: nat, n: nat) returns (chunk: seq<nat>)
      requires Ok() && pos < size && 0 < n <= SECTOR_SIZE - pos % SECTOR_SIZE && pos + n <= size
      requires ReadAt(v.g, v.chains[k], size, pos, cluster) && v.status != Dirty
      modifies v`disk, v`buf, v`status, v`sectorInBuffer, `cluster, `lastCluster
      ensures Ok() && v.status != Dirty && ReadAt(v.g, v.chains[k], size, pos + n, cluster)
      ensures pos + n == size ==> InLastRead(v.g, v.chains[k], size, cluster)
      ensures Bytes() == old(Bytes()) && chunk == Bytes()[pos..pos + n]
    {
      hide Volume.Valid, InOrder, Holds, IsChain, ReadAt, Content, InLastRead;
      chunk := ReadChunk(pos, n);
      StepTo(pos, n);
    }

    /** rdcf_read. */
    method Read(count: nat) returns (err: Error, data: seq<nat>)
      requires Ok() && ReadCursor() && v.status != Dirty
      modifies this, v
      ensures Ok() && v.status != Dirty && v.logical == old(v.logical) && v.chains == old(v.chains) && size == old(size)
      ensures err == if readable then NoError else BadMode
      ensures err == NoError ==>
        && position == old(position) + Least(count, size - old(position)) && ReadCursor()
        && data == old(Bytes())[old(position)..position]
      ensures err != NoError ==> position == old(position) && data == []
      ensures readable == old(readable) && writable == old(writable) && append == old(append)
      ensures old(Cursor()) ==>
        (Cursor() <==> !(position == size && position > old(position) && position % ClusterBytes(v.g) == 0))
    {
      hide File.Ok, ReadAt, VolumeOk, Content, Volume.Valid, CursorAt, InLastRead, ClusterBytes;
      OkFacts();
      data := [];
      if !readable {
        return BadMode, [];
      }
      Begin();
      var unread: nat := count;
      var pos: nat := position;
      ghost var all := Bytes();
      assert all[position..pos] == [];
      while unread > 0
        invariant old(position) <= pos <= size && pos - old(position) + unread == count
        invariant Ok() && v.status != Dirty && Bytes() == all && k < |v.chains| && GeometryOk(v.g)
        invariant ReadAt(v.g, v.chains[k], size, pos, cluster) && data == all[old(position)..pos]
        invariant v.logical == old(v.logical) && v.chains == old(v.chains) && size == old(size)
        invariant position == old(position)
        invariant readable == old(readable) && writable == old(writable) && append == old(append)
        invariant pos == old(position) ==> cluster == old(cluster) && lastCluster == old(lastCluster)
        invariant pos > old(position) && pos == size ==> InLastRead(v.g, v.chains[k], size, cluster)
        decreases unread
      {
        var n := unread;
        var restOfSector := SECTOR_SIZE - pos % SECTOR_SIZE;
        if size < pos + n {
          n := size - pos;
        }
        if n == 0 {
          break;
        }
        if n > restOfSector {
          n := restOfSector;
        }
        var chunk := ReadStep(pos, n);
        assert all[old(position)..pos] + all[pos..pos + n] == all[old(position)..pos + n];
        data := data + chunk;
        pos := pos + n;
        unread := unread - n;
      }
      MoveTo(pos);
      err := NoError;
      if pos > old(position) {
        CursorAfterRead();
      }
    }

    /** After something was read the cursor serves a write too, unless the end of the
        file was reached at the end of a cluster: it then lies in the last cluster,
        not behind it. */
    lemma CursorAfterRead()
      requires Ok() && ReadCursor() && position > 0
      requires position == size ==> InLastRead(v.g, v.chains[k], size, cluster)
      ensures Cursor() <==> !(position == size && position % ClusterBytes(v.g) == 0)
    {
      hide Volume.Valid, Index, ClusterBytes;
      ChainInRange(v, k);
      Advance(v.g, position - 1, 1);
      if position < size {
        HoldsPosition(v.g, v.chains[k], size, position);
      }
    }

    /** Move the cursor on, into the next cluster when the position enters it. */
    method StepTo(pos: nat, n: nat)
      requires Ok() && 0 < n <= SECTOR_SIZE - pos % SECTOR_SIZE && pos + n <= size
      requires ReadAt(v.g, v.chains[k], size, pos, cluster) && v.status != Dirty
      modifies v`disk, v`buf, v`status, v`sectorInBuffer, `cluster, `lastCluster
      ensures VolumeOk(v) && v.status != Dirty && ReadAt(v.g, v.chains[k], size, pos + n, cluster)
      ensures pos + n == size ==> InLastRead(v.g, v.chains[k], size, cluster)
    {
      hide File.Ok, ReadAt, InLastRead, Volume.Valid, InOrder, Holds, Index, IsChain, ClusterBytes, Follows;
      StepFacts(pos, n);
      SameDivisor(v.g, pos + n);
      if (pos + n) % (v.g.perCluster * SECTOR_SIZE) == 0 && pos + n < size {
        var err, next := v.FatEntry(cluster);
        if next >= LAST_MARK {
          lastCluster := cluster;
        }
        cluster := next;
        NowAt(v.g, v.chains[k], size, pos + n, next);
      }
    }

    lemma StepFacts(pos: nat, n: nat)
      requires Ok() && 0 < n <= SECTOR_SIZE - pos % SECTOR_SIZE && pos + n <= size
      requires ReadAt(v.g, v.chains[k], size, pos, cluster)
      ensures VolumeOk(v) && GeometryOk(v.g) && k < |v.chains| && 2 <= cluster <= v.g.maxCluster < |v.fat|
      ensures pos + n == size || (pos + n) % ClusterBytes(v.g) != 0 ==> ReadAt(v.g, v.chains[k], size, pos + n, cluster)
      ensures pos + n == size ==> InLastRead(v.g, v.chains[k], size, cluster)
      ensures pos + n < size && (pos + n) % ClusterBytes(v.g) == 0 ==>
        Index(v.g, pos + n) < |v.chains[k]| && v.fat[cluster] == v.chains[k][Index(v.g, pos + n)]
    {
      hide Volume.Valid, InOrder, Holds, Index, IsChain, ClusterBytes;
      Advance(v.g, pos, n);
      SameSector(v.g, pos, pos + n - 1);
      HoldsPosition(v.g, v.chains[k], size, pos);
      NextEntry(v, k, Index(v.g, pos));
      if pos + n < size {
        HoldsPosition(v.g, v.chains[k], size, pos + n);
      }
    }

    // ----- Writing -----

    /** A file as a write in progress sees it: the new position and size are kept
        locally, and no data sector from the position on is in the buffer. */
    ghost predicate Writing(pos: nat, sz: nat)
      reads this, v
    {
      && VolumeOk(v) && k < |v.chains| && GeometryOk(v.g)
      && firstCluster == First(v.chains[k]) && Holds(v.g, v.chains[k], sz) && pos <= sz
      && CursorAt(v.g, v.chains[k], pos, cluster, lastCluster)
      && Behind(v.g, v.status, v.sectorInBuffer, v.chains[k], pos)
    }

    ghost function Contents(sz: nat): (s: seq<nat>)
      requires VolumeOk(v) && k < |v.chains| && GeometryOk(v.g) && Holds(v.g, v.chains[k], sz)
      reads v
      ensures |s| == sz
    {
      ChainInRange(v, k);
      Content(v.g, v.logical, v.chains[k], sz)
    }

    /** Get a cluster for the position if it is behind the last one; EMPTY_CLUSTER
        means the volume is full. */
    method EnsureCluster(pos: nat, ghost sz: nat) returns (full: bool)
      requires Writing(pos, sz)
      modifies v, `cluster, `lastCluster, `firstCluster
      ensures Writing(pos, sz) && Contents(sz) == old(Contents(sz))
      ensures v.reserved == old(v.reserved) && old(v.chains[k]) <= v.chains[k]
      ensures v.chains == old(v.chains)[k := v.chains[k]]
      ensures SameData(v.g, old(v.logical), v.logical)
      ensures if full then FreeClusters(v.fat) == {} else Index(v.g, pos) < |v.chains[k]|
    {
      hide Volume.Valid, InOrder, Index, Content, SameData, FreeClusters, Holds, CursorAt, Behind, UsedThrough;
      full := false;
      SameIsSame(v.g, v.logical);
      CursorCases(pos, sz);
      ghost var ch, d := v.chains[k], v.logical;
      ChainInRange(v, k);
      if cluster == EMPTY_CLUSTER || cluster >= LAST_MARK {
        var n := AddNewCluster(v, lastCluster, k);
        ChainInRange(v, k);
        ContentGrown(v.g, d, v.logical, ch, v.chains[k], sz);
        if v.status == Empty || v.sectorInBuffer < v.g.firstDirectory {
          FatBehind(v.g, v.status, v.sectorInBuffer, v.chains[k], pos);
        }
        if n == EMPTY_CLUSTER {
          full := true;
        } else {
          UseCluster(n, ch, pos);
        }
      }
    }

    /** Take the new cluster as the current and the last one. */
    method UseCluster(n: nat, ghost ch: seq<nat>, ghost pos: nat)
      requires VolumeOk(v) && k < |v.chains| && GeometryOk(v.g) && v.chains[k] == ch + [n]
      requires UsedThrough(v.fat, n) && n >= 2 && Index(v.g, pos) == |ch|
      requires firstCluster == First(ch) && (firstCluster == EMPTY_CLUSTER <==> ch == [])
      modifies v`firstPossiblyEmpty, `cluster, `lastCluster, `firstCluster
      ensures VolumeOk(v) && firstCluster == First(v.chains[k])
      ensures CursorAt(v.g, v.chains[k], pos, cluster, lastCluster) && Index(v.g, pos) < |v.chains[k]|
      ensures v.firstPossiblyEmpty == n + 1
    {
      hide Volume.Valid, InOrder, Index, UsedThrough, CursorAt;
      HintMoved(v.fat, v.chains, v.reserved, v.firstPossiblyEmpty, n + 1);
      v.firstPossiblyEmpty := n + 1;
      cluster, lastCluster := n, n;
      if firstCluster == EMPTY_CLUSTER {
        firstCluster := n;
      }
      CursorNew(v.g, ch, n, pos);
    }

    lemma CursorCases(pos: nat, sz: nat)
      requires Writing(pos, sz)
      ensures (cluster == EMPTY_CLUSTER || cluster >= LAST_MARK) <==> Index(v.g, pos) == |v.chains[k]|
      ensures Index(v.g, pos) <= |v.chains[k]|
      ensures Index(v.g, pos) == |v.chains[k]| ==> lastCluster == Last(v.chains[k])
      ensures Index(v.g, pos) < |v.chains[k]| ==>
        cluster == v.chains[k][Index(v.g, pos)] && 2 <= cluster <= v.g.maxCluster
      ensures firstCluster == EMPTY_CLUSTER <==> v.chains[k] == []
    {
      hide Index, InOrder, IsChain, Behind, Holds;
      ChainInRange(v, k);
      v.Facts();
    }

    /** Put a stretch of one sector: whole sectors, and stretches that reach the
        end of the file, past the buffer; the rest through it. What lies behind
        the data in memory may follow it to the disk, where it is behind the end
        of the file. */
    method PutChunk(pos: nat, sz: nat, n: nat, rest: seq<nat>, beyond: seq<nat>)
      requires Writing(pos, sz) && Index(v.g, pos) < |v.chains[k]|
      requires 0 < n <= |rest| && n <= SECTOR_SIZE - pos % SECTOR_SIZE
      requires n == |rest| || n == SECTOR_SIZE - pos % SECTOR_SIZE
      requires AllBytes(rest) && AllBytes(beyond) && |beyond| >= SECTOR_SIZE
      modifies v`disk, v`buf, v`status, v`sectorInBuffer, v`logical
      ensures VolumeOk(v) && Holds(v.g, v.chains[k], Larger(sz, pos + n))
      ensures Contents(Larger(sz, pos + n)) == Spliced(old(Contents(sz)), pos, rest[..n])
      ensures Behind(v.g, v.status, v.sectorInBuffer, v.chains[k], pos + n)
      ensures OthersKept(v.g, old(v.logical), v.logical, v.chains[k])
    {
      hide Volume.Valid, InOrder, Content, Holds, CursorAt, SectorOf, Patched, Spliced, OthersKept, IsChain, Index,
        Behind, Distinct, InRange, DiskOk, AllBytes;
      ChainInRange(v, k);
      CursorCases(pos, sz);
      v.Facts();
      ghost var g, ch, d := v.g, v.chains[k], v.logical;
      var sector := v.g.firstData + (cluster - 2) * v.g.perCluster + (pos / SECTOR_SIZE) % v.g.perCluster;
      SectorIs(g, d, ch, cluster, pos);
      if pos % SECTOR_SIZE == 0 {
        NotBuffered(g, v.status, v.sectorInBuffer, ch, pos);
      }
      ghost var after := PutSector(sector, pos, sz, n, rest, beyond);
      Wrote(g, d, ch, sz, pos, rest[..n], after, old(v.status), old(v.sectorInBuffer), v.status, v.sectorInBuffer);
    }

    method PutSector(sector: nat, pos: nat, sz: nat, n: nat, rest: seq<nat>, beyond: seq<nat>)
      returns (ghost after: Sector)
      requires v.Valid() && v.g.firstDirectory <= sector < |v.logical|
      requires pos % SECTOR_SIZE == 0 ==> v.status == Empty || v.sectorInBuffer != sector
      requires 0 < n <= |rest| && n <= SECTOR_SIZE - pos % SECTOR_SIZE
      requires AllBytes(rest) && AllBytes(beyond) && |beyond| >= SECTOR_SIZE
      modifies v`disk, v`buf, v`status, v`sectorInBuffer, v`logical
      ensures v.Valid() && v.logical == old(v.logical)[sector := after]
      ensures Patched(old(v.logical)[sector], after, pos % SECTOR_SIZE, rest[..n], pos + n < sz)
      ensures (v.status == old(v.status) && v.sectorInBuffer == old(v.sectorInBuffer)) || v.sectorInBuffer == sector
    {
      hide Volume.Valid, Patched;
      v.Facts();
      var o := pos % SECTOR_SIZE;
      if o == 0 && (n == SECTOR_SIZE || pos + n >= sz) {
        var image := Image(rest, beyond);
        ImagePatches(v.logical[sector], rest, beyond, n, pos + n < sz);
        v.WriteData(sector, image);
        after := image;
      } else {
        v.ReadBuffer(sector);
        OverlayPatches(v.buf, o, rest[..n], pos + n < sz);
        var image := Overlay(v.buf, o, rest[..n]);
        v.ChangeData(image);
        after := image;
      }
    }

    /** Move the cursor on after a write. */
    method MoveOn(pos: nat, n: nat)
      requires VolumeOk(v) && k < |v.chains| && GeometryOk(v.g) && Index(v.g, pos) < |v.chains[k]|
      requires CursorAt(v.g, v.chains[k], pos, cluster, lastCluster) && 0 < n <= SECTOR_SIZE - pos % SECTOR_SIZE
      requires Behind(v.g, v.status, v.sectorInBuffer, v.chains[k], pos + n)
      modifies v`disk, v`buf, v`status, v`sectorInBuffer, `cluster, `lastCluster
      ensures VolumeOk(v) && CursorAt(v.g, v.chains[k], pos + n, cluster, lastCluster)
      ensures Behind(v.g, v.status, v.sectorInBuffer, v.chains[k], pos + n)
    {
      hide Volume.Valid, InOrder, Index, IsChain, Behind, ClusterBytes;
      Advance(v.g, pos, n);
      SameDivisor(v.g, pos + n);
      NextEntry(v, k, Index(v.g, pos));
      ChainInRange(v, k);
      if (pos + n) % (v.g.perCluster * SECTOR_SIZE) == 0 {
        var err, next := v.FatEntry(cluster);
        if next >= LAST_MARK {
          lastCluster := cluster;
        }
        cluster := next;
        FatBehind(v.g, v.status, v.sectorInBuffer, v.chains[k], pos + n);
      }
    }

    /** One round of the writing loop. */
    method WriteStep(pos: nat, sz: nat, rest: seq<nat>, beyond: seq<nat>) returns (full: bool, n: nat)
      requires Writing(pos, sz) && rest != [] && AllBytes(rest) && AllBytes(beyond) && |beyond| >= SECTOR_SIZE
      modifies v, `cluster, `lastCluster, `firstCluster
      ensures v.reserved == old(v.reserved) && k < |v.chains| && old(v.chains[k]) <= v.chains[k]
      ensures v.chains == old(v.chains)[k := v.chains[k]]
      ensures if full then n == 0 && FreeClusters(v.fat) == {} else 0 < n <= |rest|
      ensures Writing(pos + n, Larger(sz, pos + n))
      ensures Contents(Larger(sz, pos + n)) == Spliced(old(Contents(sz)), pos, rest[..n])
      ensures InRange(v.g, v.chains[k]) && OthersKept(v.g, old(v.logical), v.logical, v.chains[k])
    {
      hide VolumeOk, Volume.Valid, Content, Holds, Spliced, OthersKept, OwnSector, Index, Behind, CursorAt,
        FreeClusters, InRange, AllBytes, SameData;
      n := SECTOR_SIZE - pos % SECTOR_SIZE;
      if |rest| < n {
        n := |rest|;
      }
      ghost var d := v.logical;
      full := EnsureCluster(pos, sz);
      ChainInRange(v, k);
      DataKept(v.g, d, v.logical, v.chains[k]);
      if full {
        n := 0;
        SplicedNothing(Contents(sz), pos);
        assert rest[..0] == [];
        return;
      }
      ghost var d1 := v.logical;
      PutChunk(pos, sz, n, rest, beyond);
      ghost var d2 := v.logical;
      MoveOn(pos, n);
      KeptTwice(v.g, d, d1, d2, v.chains[k], v.chains[k]);
    }

    lemma OkVolume()
      requires Ok()
      ensures VolumeOk(v)
    {
    }

    /** The position a write begins at: the end of the file when appending. */
    method StartWrite() returns (err: Error)
      requires Ok() && v.status == Empty
      requires if append then v.chains[k] == [] ==> lastCluster == EMPTY_CLUSTER else Cursor()
      modifies v, `position, `cluster, `lastCluster
      ensures err == NoError && v.logical == old(v.logical) && v.chains == old(v.chains)
      ensures v.reserved == old(v.reserved)
      ensures Ok() && position == if append then size else old(position)
      ensures Writing(position, size) && Contents(size) == old(Bytes()) == Bytes()
    {
      hide Volume.Valid, InOrder, Content, Holds, Behind, CursorAt, IsChain, Distinct, InRange;
      err := NoError;
      ChainInRange(v, k);
      if append {
        err := Seek(size);
      }
      ChainInRange(v, k);
      FatBehind(v.g, v.status, v.sectorInBuffer, v.chains[k], position);
    }

    /** The buffer is flushed and the new position and size are kept. */
    method FinishWrite(pos: nat, sz: nat)
      requires Writing(pos, sz)
      modifies v`disk, v`status, `position, `size, `written
      ensures Ok() && Cursor() && v.status != Dirty && position == pos && size == sz && written
      ensures Bytes() == old(Contents(sz))
    {
      hide Volume.Valid, InOrder, Content, Holds, Behind, CursorAt;
      v.FlushBuffer();
      position, size, written := pos, sz, true;
    }

    /** The writing loop, from the start the caller has set up. */
    method WriteAll(data: seq<nat>, beyond: seq<nat>) returns (count: nat, pos: nat, sz: nat)
      requires Writing(position, size) && AllBytes(data) && AllBytes(beyond) && |beyond| >= SECTOR_SIZE
      modifies v, `cluster, `lastCluster, `firstCluster
      ensures v.reserved == old(v.reserved) && k < |v.chains| && old(v.chains[k]) <= v.chains[k]
      ensures v.chains == old(v.chains)[k := v.chains[k]]
      ensures InRange(v.g, v.chains[k]) && OthersKept(v.g, old(v.logical), v.logical, v.chains[k])
      ensures count <= |data| && (count < |data| ==> FreeClusters(v.fat) == {})
      ensures Writing(pos, sz) && pos == position + count
      ensures Contents(sz) == Spliced(old(Contents(size)), position, data[..count])
    {
      hide VolumeOk, Volume.Valid, Content, Holds, Spliced, OthersKept, Behind, CursorAt, FreeClusters, InRange,
        AllBytes, IsChain, Distinct, Index;
      ChainInRange(v, k);
      NothingElse(v.g, v.logical, v.chains[k]);
      count, pos, sz := 0, position, size;
      ghost var all := Contents(size);
      SplicedNothing(all, position);
      assert data[..0] == [];
      while count < |data|
        invariant count <= |data| && Writing(pos, sz) && pos == position + count
        invariant v.reserved == old(v.reserved) && old(v.chains[k]) <= v.chains[k]
        invariant v.chains == old(v.chains)[k := v.chains[k]]
        invariant InRange(v.g, v.chains[k]) && OthersKept(v.g, old(v.logical), v.logical, v.chains[k])
        invariant Contents(sz) == Spliced(all, position, data[..count])
        decreases |data| - count
      {
        ghost var d0, ch0 := v.logical, v.chains[k];
        RestBytes(data, count);
        var full, n := WriteStep(pos, sz, data[count..], beyond);
        KeptTwice(v.g, old(v.logical), d0, v.logical, ch0, v.chains[k]);
        RoundDone(all, position, data, count, n);
        if full {
          assert Larger(sz, pos) == sz;
          break;
        }
        pos := pos + n;
        sz := Larger(sz, pos);
        count := count + n;
      }
    }

    /** rdcf_write, up to its close on failure: overwrites from the position on,
        or from the end when appending, and extends the file as far as the
        volume has room. */
    method Write(data: seq<nat>, beyond: seq<nat>) returns (err: Error, count: nat)
      requires Ok() && v.status != Dirty
      requires if append then v.chains[k] == [] ==> lastCluster == EMPTY_CLUSTER else Cursor()
      requires AllBytes(data) && AllBytes(beyond) && |beyond| >= SECTOR_SIZE
      modifies this, v
      ensures Ok() && v.status != Dirty && err == (if writable then NoError else BadMode)
      ensures v.reserved == old(v.reserved) && old(v.chains[k]) <= v.chains[k]
      ensures v.chains == old(v.chains)[k := v.chains[k]]
      ensures InRange(v.g, v.chains[k]) && OthersKept(v.g, old(v.logical), v.logical, v.chains[k])
      ensures err == NoError ==>
        && count <= |data| && (count < |data| ==> FreeClusters(v.fat) == {})
        && var at := if append then old(size) else old(position);
           && position == at + count && Cursor() && written
           && Bytes() == Spliced(old(Bytes()), at, data[..count])
      ensures err != NoError ==>
        count == 0 && Bytes() == old(Bytes()) && position == old(position) && written == old(written)
      ensures readable == old(readable) && writable == old(writable) && append == old(append)
    {
      hide VolumeOk, Volume.Valid, Content, Holds, Spliced, OthersKept, Behind, CursorAt, FreeClusters, InRange,
        AllBytes, File.Ok, File.Writing, IsChain, Distinct;
      OkFacts();
      OkVolume();
      ChainInRange(v, k);
      NothingElse(v.g, v.logical, v.chains[k]);
      Begin();
      if !writable {
        return BadMode, 0;
      }
      err := StartWrite();
      var pos, sz;
      count, pos, sz := WriteAll(data, beyond);
      FinishWrite(pos, sz);
    }

    /** rdcf_open with O_CREAT and O_TRUNC on a file that exists: its clusters are
        released and it starts over empty. */
    method Truncate() returns (err: Error)
      requires Ok() && v.status != Dirty
      modifies this, v
      ensures err == NoError && Ok() && Cursor() && v.status != Dirty
      ensures v.chains == old(v.chains)[k := []] && v.reserved == old(v.reserved)
      ensures size == 0 && position == 0 && written && SameData(v.g, old(v.logical), v.logical)
      ensures readable == old(readable) && writable == old(writable) && append == old(append)
    {
      hide InOrder, Volume.Valid, SameData, Index, ClusterBytes;
      Begin();
      err := ReleaseFatEntries(v, firstCluster, k);
      firstCluster, size := EMPTY_CLUSTER, 0;
      v.FlushBuffer();
      written := true;
      position, cluster, lastCluster := 0, EMPTY_CLUSTER, EMPTY_CLUSTER;
      IndexZero(v.g);
    }
  }

  lemma SplicedPart(s: seq<nat>, at: nat, data: seq<nat>)
    requires at <= |s|
    ensures Spliced(s, at, data)[at..at + |data|] == data
  {
  }

  /** What is written at an offset is read back from there. */
  method WriteAndReadBack(f: File, offset: nat, data: seq<nat>, beyond: seq<nat>) returns (count: nat, back: seq<nat>)
    requires f.Ok() && (f.v.chains[f.k] == [] ==> f.lastCluster == EMPTY_CLUSTER) && f.v.status != Dirty
    requires f.readable && f.writable && !f.append && offset <= f.size
    requires AllBytes(data) && AllBytes(beyond) && |beyond| >= SECTOR_SIZE
    modifies f, f.v
    ensures f.Ok() && count <= |data| && back == data[..count]
    ensures f.Bytes() == Spliced(old(f.Bytes()), offset, data[..count])
  {
    hide File.Ok, VolumeOk, Volume.Valid, Content, Holds, Index, CursorAt, InOrder, FreeClusters, ReadAt, OthersKept,
      InRange, AllBytes;
    ghost var all := f.Bytes();
    f.OkFacts();
    var err := f.Seek(offset);
    f.OkFacts();
    err, count := f.Write(data, beyond);
    f.OkFacts();
    f.CursorTail();
    err := f.Seek(offset);
    f.OkFacts();
    f.CursorReads();
    SplicedPart(all, offset, data[..count]);
    err, back := f.Read(count);
  }

  lemma RestBytes(data: seq<nat>, i: nat)
    requires AllBytes(data) && i <= |data|
    ensures AllBytes(data[i..])
  {
  }

  /** The bytes of one round behind those of the earlier ones. */
  lemma RoundDone(all: seq<nat>, at: nat, data: seq<nat>, i: nat, n: nat)
    requires at <= |all| && i + n <= |data|
    ensures at + i <= |Spliced(all, at, data[..i])|
    ensures Spliced(Spliced(all, at, data[..i]), at + i, data[i..][..n]) == Spliced(all, at, data[..i + n])
  {
    hide Spliced;
    SplicedTwice(all, at, data[..i], data[i..][..n]);
    assert data[..i] + data[i..][..n] == data[..i + n];
  }

  lemma NothingElse(g: Geometry, d: Disk, ch: seq<nat>)
    requires InRange(g, ch)
    ensures OthersKept(g, d, d, ch)
  {
  }

  lemma DataKept(g: Geometry, d: Disk, d': Disk, ch: seq<nat>)
    requires SameData(g, d, d') && InRange(g, ch)
    ensures OthersKept(g, d, d', ch)
  {
    hide OwnSector;
  }

  lemma KeptTwice(g: Geometry, a: Disk, b: Disk, c: Disk, ch: seq<nat>, ch': seq<nat>)
    requires InRange(g, ch) && InRange(g, ch') && ch <= ch' && OthersKept(g, a, b, ch) && OthersKept(g, b, c, ch')
    ensures OthersKept(g, a, c, ch')
  {
    hide OwnSector;
    forall s: nat | g.firstDirectory <= s < |a| && !OwnSector(g, ch', s)
      ensures c[s] == a[s]
    {
      if OwnSector(g, ch, s) {
        OwnGrows(g, ch, ch', s);
      }
    }
  }

  predicate AllBytes(s: seq<nat>)
  {
    forall i :: 0 <= i < |s| ==> s[i] < 256
  }

  /** The 512 bytes that follow a place in memory. */
  function Image(rest: seq<nat>, beyond: seq<nat>): (s: Sector)
    requires AllBytes(rest) && AllBytes(beyond) && |beyond| >= SECTOR_SIZE
  {
    (rest + beyond)[..SECTOR_SIZE]
  }

  function Overlay(s: Sector, o: nat, data: seq<nat>): (t: Sector)
    requires o + |data| <= SECTOR_SIZE && AllBytes(data)
  {
    s[..o] + data + s[o + |data|..]
  }

  lemma ImagePatches(before: Sector, rest: seq<nat>, beyond: seq<nat>, n: nat, more: bool)
    requires AllBytes(rest) && AllBytes(beyond) && |beyond| >= SECTOR_SIZE && n <= |rest| && n <= SECTOR_SIZE
    requires n == SECTOR_SIZE || !more
    ensures Patched(before, Image(rest, beyond), 0, rest[..n], more)
  {
  }

  lemma OverlayPatches(before: Sector, o: nat, data: seq<nat>, more: bool)
    requires o + |data| <= SECTOR_SIZE && AllBytes(data)
    ensures Patched(before, Overlay(before, o, data), o, data, more)
  {
  }

  lemma OneSectorKept(g: Geometry, d: Disk, ch: seq<nat>, sector: nat, after: Sector)
    requires InRange(g, ch) && sector < |d| && OwnSector(g, ch, sector)
    ensures OthersKept(g, d, d[sector := after], ch)
  {
    hide OwnSector;
  }

  lemma SectorIs(g: Geometry, d: Disk, ch: seq<nat>, cluster: nat, pos: nat)
    requires DiskOk(g, d) && InRange(g, ch) && Index(g, pos) < |ch| && cluster == ch[Index(g, pos)]
    ensures cluster >= 2
    ensures g.firstData + (cluster - 2) * g.perCluster + (pos / SECTOR_SIZE) % g.perCluster == SectorOf(g, ch, pos)
    ensures g.firstDirectory <= SectorOf(g, ch, pos) < |d|
  {
    hide Index;
    SectorComputed(g, cluster, pos);
  }

  /** Everything a patched sector means. */
  lemma Wrote(g: Geometry, d: Disk, ch: seq<nat>, sz: nat, pos: nat, data: seq<nat>, after: Sector,
              status0: BufferStatus, sector0: nat, status: BufferStatus, sector: nat)
    requires DiskOk(g, d) && InRange(g, ch) && Distinct(ch) && Holds(g, ch, sz) && pos <= sz && Index(g, pos) < |ch|
    requires data != []
    requires Patched(d[SectorOf(g, ch, pos)], after, pos % SECTOR_SIZE, data, pos + |data| < sz)
    requires Behind(g, status0, sector0, ch, pos)
    requires (status == status0 && sector == sector0) || sector == SectorOf(g, ch, pos)
    ensures DiskOk(g, d[SectorOf(g, ch, pos) := after]) && Holds(g, ch, Larger(sz, pos + |data|))
    ensures Content(g, d[SectorOf(g, ch, pos) := after], ch, Larger(sz, pos + |data|)) ==
      Spliced(Content(g, d, ch, sz), pos, data)
    ensures OthersKept(g, d, d[SectorOf(g, ch, pos) := after], ch)
    ensures Behind(g, status, sector, ch, pos + |data|)
  {
    hide Index, Content, Holds, Patched, Spliced, OthersKept, OwnSector, Behind, SectorOf;
    WroteChunk(g, d, ch, sz, pos, data, after);
    OwnOfPosition(g, ch, pos);
    OneSectorKept(g, d, ch, SectorOf(g, ch, pos), after);
    BehindLater(g, status0, sector0, ch, pos, |data|);
    BehindOwn(g, status, ch, pos, |data|);
  }

  lemma NotBuffered(g: Geometry, status: BufferStatus, sector: nat, ch: seq<nat>, pos: nat)
    requires Behind(g, status, sector, ch, pos) && Index(g, pos) < |ch| && pos % SECTOR_SIZE == 0
    ensures status == Empty || sector != SectorOf(g, ch, pos)
  {
    hide SectorAt, Within, Index;
  }

  lemma BehindLater(g: Geometry, status: BufferStatus, sector: nat, ch: seq<nat>, pos: nat, n: nat)
    requires Behind(g, status, sector, ch, pos)
    ensures Behind(g, status, sector, ch, pos + n)
  {
    hide SectorOf, Index;
  }

  /** The sector just written in part lies before the position that follows. */
  lemma BehindOwn(g: Geometry, status: BufferStatus, ch: seq<nat>, pos: nat, n: nat)
    requires InRange(g, ch) && Distinct(ch) && Index(g, pos) < |ch| && n > 0
    ensures Behind(g, status, SectorOf(g, ch, pos), ch, pos + n)
  {
    hide SectorAt, Within, Index;
    forall p: nat | pos + n <= p && p % SECTOR_SIZE == 0 && Index(g, p) < |ch|
      ensures SectorOf(g, ch, pos) != SectorOf(g, ch, p)
    {
      if SectorOf(g, ch, pos) == SectorOf(g, ch, p) {
        SectorOfInjective(g, ch, pos, p);
      }
    }
  }

  lemma NowAt(g: Geometry, ch: seq<nat>, size: nat, position: nat, cluster: nat)
    requires GeometryOk(g) && Index(g, position) < |ch| && cluster == ch[Index(g, position)]
    ensures ReadAt(g, ch, size, position, cluster)
  {
  }

  /** The buffer holds no data sector that starts at the position or later. */
  ghost predicate Behind(g: Geometry, status: BufferStatus, sector: nat, ch: seq<nat>, pos: nat)
  {
    && InRange(g, ch)
    && (status != Empty && sector >= g.firstDirectory ==>
          forall p: nat :: pos <= p && p % SECTOR_SIZE == 0 && Index(g, p) < |ch| ==> sector != SectorOf(g, ch, p))
  }

  lemma FatBehind(g: Geometry, status: BufferStatus, sector: nat, ch: seq<nat>, pos: nat)
    requires InRange(g, ch) && (status == Empty || sector < g.firstDirectory)
    ensures Behind(g, status, sector, ch, pos)
  {
  }

  lemma HintMoved(fat: Fat, chains: seq<seq<nat>>, reserved: set<nat>, hint: nat, hint': nat)
    requires InOrder(fat, chains, reserved, hint) && hint' >= 3 && UsedThrough(fat, hint' - 1)
    ensures InOrder(fat, chains, reserved, hint')
  {
  }

  lemma CursorNew(g: Geometry, ch: seq<nat>, n: nat, pos: nat)
    requires GeometryOk(g) && Index(g, pos) == |ch|
    ensures CursorAt(g, ch + [n], pos, n, n)
  {
  }

  function Least(a: nat, b: nat): nat
  {
    if a < b then a else b
  }

  ghost predicate ReadAt(g: Geometry, ch: seq<nat>, size: nat, position: nat, cluster: nat)
    requires GeometryOk(g)
  {
    position < size ==> Index(g, position) < |ch| && cluster == ch[Index(g, position)]
  }

  lemma SectorComputed(g: Geometry, cluster: nat, pos: nat)
    requires GeometryOk(g) && cluster >= 2
    ensures g.firstData + (cluster - 2) * g.perCluster + (pos / SECTOR_SIZE) % g.perCluster ==
      SectorAt(g, cluster, Within(g, pos))
  {
  }

  lemma ByteOf(g: Geometry, d: Disk, ch: seq<nat>, size: nat, pos: nat, i: nat)
    requires DiskOk(g, d) && InRange(g, ch) && Holds(g, ch, size) && pos + i < size
    requires i < SECTOR_SIZE - pos % SECTOR_SIZE && Index(g, pos) < |ch|
    ensures Content(g, d, ch, size)[pos + i] == d[SectorOf(g, ch, pos)][pos % SECTOR_SIZE + i]
  {
    hide Index, Within, SectorAt, Holds;
    HoldsPosition(g, ch, size, pos + i);
    SameSectorRange(pos, i);
    SameSector(g, pos, pos + i);
  }

  /** The bytes of a stretch of one sector. */
  lemma ChunkOf(g: Geometry, d: Disk, ch: seq<nat>, size: nat, pos: nat, n: nat)
    requires DiskOk(g, d) && InRange(g, ch) && Holds(g, ch, size) && pos + n <= size
    requires 0 < n <= SECTOR_SIZE - pos % SECTOR_SIZE && Index(g, pos) < |ch|
    ensures Content(g, d, ch, size)[pos..pos + n] == d[SectorOf(g, ch, pos)][pos % SECTOR_SIZE..pos % SECTOR_SIZE + n]
  {
    hide Index, SectorOf, Holds, Content;
    var a, b := Content(g, d, ch, size)[pos..pos + n],
      d[SectorOf(g, ch, pos)][pos % SECTOR_SIZE..pos % SECTOR_SIZE + n];
    forall i | 0 <= i < |a|
      ensures a[i] == b[i]
    {
      ByteOf(g, d, ch, size, pos, i);
    }
    assert |a| == |b|;
  }

  /** Where following a chain has come to after some steps. */
  ghost predicate Follows(ch: seq<nat>, steps: nat, c: nat, last: nat)
  {
    && (ch == [] ==> last == EMPTY_CLUSTER)
    && if steps < |ch| then c == ch[steps]
       else steps == |ch| && last == Last(ch) && if ch == [] then c == EMPTY_CLUSTER else c >= LAST_MARK
  }

  lemma StartOfChain(ch: seq<nat>, last: nat)
    requires ch == [] ==> last == EMPTY_CLUSTER
    ensures Follows(ch, 0, First(ch), last)
  {
  }

  lemma SameDivisor(g: Geometry, p: nat)
    requires GeometryOk(g)
    ensures p / (g.perCluster * SECTOR_SIZE) == Index(g, p) && g.perCluster * SECTOR_SIZE == ClusterBytes(g)
  {
  }

  lemma OffsetBound(g: Geometry, ch: seq<nat>, size: nat, offset: nat)
    requires GeometryOk(g) && Holds(g, ch, size) && offset <= size
    ensures Index(g, offset) <= |ch|
    ensures Index(g, offset) == |ch| ==> offset % ClusterBytes(g) == 0
  {
    var b := ClusterBytes(g);
    DivMod(offset, b);
    var i := Index(g, offset);
    assert b * |ch| == |ch| * b;
    if i > |ch| {
      MulLess(b, |ch|, i);
    }
  }

  lemma IndexZero(g: Geometry)
    requires GeometryOk(g)
    ensures Index(g, 0) == 0 && 0 % ClusterBytes(g) == 0
  {
    UniqueQuotient(0, ClusterBytes(g), 0, 0);
  }
}
