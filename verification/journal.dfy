/** The journal object and the commit of a transaction. */
module Journaling {
  import opened Bytes
  import opened Device
  import opened JournalFormat
  import opened JournalLog
  import opened JournalCrash

  // ---------------------------------------------------------------- byte buffers

  method PutUint32(buf: array<Byte>, pos: nat, v: U32)
    requires pos + 4 <= buf.Length
    modifies buf
    ensures buf[..] == PutBE32(old(buf[..]), pos, v)
  {
    buf[pos] := Byte3(v);
    buf[pos + 1] := Byte2(v);
    buf[pos + 2] := Byte1(v);
    buf[pos + 3] := Byte0(v);
  }

  method PutHeader(h: Header, buf: array<Byte>)
    requires buf.Length >= 12
    modifies buf
    ensures buf[..] == EncodeHeader(h, old(buf[..]))
  {
    hide PutBE32;
    PutUint32(buf, 0, h.magic);
    PutUint32(buf, 4, h.kind);
    PutUint32(buf, 8, h.sequence);
  }

  method NewBuffer() returns (buf: array<Byte>)
    ensures fresh(buf) && buf[..] == Zero()
  {
    buf := new Byte[BLOCK_SIZE](_ => 0);
    assert buf[..] == Zero();
  }

  lemma PutTagsEmpty(b: seq<Byte>, pos: nat)
    requires pos <= |b|
    ensures PutTags(b, pos, []) == b
  {
  }

  lemma PutTagsSnoc(b: seq<Byte>, pos: nat, addrs: seq<U32>, v: U32)
    requires pos + 4 * |addrs| + 4 <= |b|
    ensures PutTags(b, pos, addrs + [v]) == PutBE32(PutTags(b, pos, addrs), pos + 4 * |addrs|, v)
  {
    hide PutBE32;
    assert (addrs + [v])[..|addrs|] == addrs;
  }

  /** Descriptor block d: header, the count in the first block, and as many addresses as fit. */
  method FillDescriptor(sequence: U32, addrs: seq<U32>, d: nat, index: nat) returns (buf: array<Byte>, next: nat)
    requires index == ChunkStart(d) <= |addrs| < 0x1_0000_0000
    ensures fresh(buf) && buf[..] == DescriptorBlock(sequence, addrs, d)
    ensures next == Min(|addrs|, ChunkStart(d + 1))
  {
    hide PutBE32, EncodeHeader, Zero, PutTags;
    buf := NewBuffer();
    PutHeader(Header(MAGIC, DESCRIPTOR, sequence), buf);
    assert buf[..] == HeaderBlock(DESCRIPTOR, sequence);
    var pos, capacity := OTHER_TAGS, OTHER_CAPACITY;
    if d == 0 {
      PutUint32(buf, COUNT_OFFSET, |addrs|);
      pos, capacity := FIRST_TAGS, FIRST_CAPACITY;
    }
    ghost var base := DescriptorBase(sequence, |addrs|, d);
    assert buf[..] == base;
    PutTagsEmpty(base, TagsOffset(d));
    assert addrs[index..index] == [];
    var n := |addrs| - index;
    if n > capacity { n := capacity; }
    next := index;
    var i := 0;
    while i < n
      invariant 0 <= i <= n && next == index + i && pos == TagsOffset(d) + 4 * i && fresh(buf) && buf.Length == BLOCK_SIZE
      invariant buf[..] == PutTags(base, TagsOffset(d), addrs[index..index + i])
    {
      PutTagsSnoc(base, TagsOffset(d), addrs[index..index + i], addrs[next]);
      assert addrs[index..index + i + 1] == addrs[index..index + i] + [addrs[next]];
      PutUint32(buf, pos, addrs[next]);
      pos := pos + 4;
      next := next + 1;
      i := i + 1;
    }
  }

  // ---------------------------------------------------------------- the journal

  class Journal {
    const dev: BlockDevice
    const start: nat
    const length: nat
    const crc: Crc
    var sequence: U32
    var head: nat

    ghost predicate Valid()
      reads this, dev
    {
      dev.Valid() && head <= length && start + length <= |dev.data|
    }

    function Cfg(): Config { Config(crc, start, length) }

    constructor (dev: BlockDevice, start: nat, length: nat, crc: Crc)
      requires dev.Valid() && start + length <= |dev.data|
      ensures Valid() && this.dev == dev && Cfg() == Config(crc, start, length)
      ensures head == 0 && sequence == 1
    {
      this.dev, this.start, this.length, this.crc := dev, start, length, crc;
      sequence, head := 1, 0;
    }

    /** Formats the journal region with zero blocks and restarts the head. */
    method Init() returns (r: Result<()>)
      requires Valid()
      modifies this`head, this`sequence, dev`data, dev`dirty
      ensures Valid()
      ensures r.Ok? ==> head == 0 && HoldsLog(Cfg(), dev.data, []) && SameHome(Cfg(), dev.data, old(dev.data))
      ensures !dev.faulty ==> r.Ok?
    {
      var i := 0;
      while i < length
        invariant 0 <= i <= length && Valid() && |dev.data| == |old(dev.data)|
        invariant forall a :: start <= a < start + i ==> dev.data[a] == Zero()
        invariant SameHome(Cfg(), dev.data, old(dev.data))
      {
        r := dev.WriteBlock(start + i, Zero());
        if r.Err? { return; }
        i := i + 1;
      }
      head, sequence := 0, 1;
      r := Ok(());
    }

    method OpenTransaction() returns (t: JournalTransaction)
      modifies this`sequence
      ensures sequence == (old(sequence) + 1) % 0x1_0000_0000
      ensures fresh(t) && t.journal == this && t.sequence == sequence && t.blocks == []
    {
      sequence := (sequence + 1) % 0x1_0000_0000;
      t := new JournalTransaction(this, sequence);
    }

    /** Reserves n consecutive journal blocks; the head goes back to 0 when they do not fit behind it. */
    method AllocBlocks(n: nat) returns (r: Result<nat>)
      requires Valid()
      modifies this`head
      ensures Valid()
      ensures r.Ok? <==> n <= length
      ensures r.Err? ==> head == old(head)
      ensures r.Ok? ==> r.value == (if old(head) + n > length then 0 else old(head)) && head == r.value + n
    {
      if n > length { return Err(TooLarge); }
      if head + n > length { head := 0; }
      r := Ok(head);
      head := head + n;
    }

    /** The first k journal blocks of tx are in place behind img0. */
    ghost predicate Written(img0: Image, tx: Tx, off: nat, k: nat)
      reads this, dev
    {
      && Valid() && Loggable(tx) && off + Needed(|tx.blocks|) <= length
      && k <= Needed(|tx.blocks|) && |img0| == |dev.data|
      && dev.data == ApplyWrites(img0, JournalWrites(Cfg(), tx, off)[..k])
    }

    method WriteJournalBlock(tx: Tx, off: nat, k: nat, blk: Block, ghost img0: Image) returns (r: Result<()>)
      requires Written(img0, tx, off, k) && k < Needed(|tx.blocks|) && blk == TxImage(crc, tx)[k]
      modifies dev`data, dev`dirty
      ensures r.Ok? ==> Written(img0, tx, off, k + 1)
      ensures r.Err? ==> Written(img0, tx, off, k)
      ensures !dev.faulty ==> r.Ok?
    {
      hide TxImage;
      ghost var ws := JournalWrites(Cfg(), tx, off);
      r := dev.WriteBlock(start + off + k, blk);
      assert ws[..k + 1][..k] == ws[..k] && ws[..k + 1][k] == ws[k];
    }

    method WriteDescriptors(tx: Tx, off: nat) returns (r: Result<()>, ghost m: nat)
      requires Loggable(tx) && Written(dev.data, tx, off, 0)
      modifies dev`data, dev`dirty
      ensures r.Ok? ==> m == DescriptorBlocksFor(|tx.blocks|)
      ensures r.Err? ==> m < Needed(|tx.blocks|)
      ensures Written(old(dev.data), tx, off, m)
      ensures !dev.faulty ==> r.Ok?
    {
      hide Written, TxImage, DescriptorBlock;
      var descBlocks := DescriptorBlocksFor(|tx.blocks|);
      var addrs := Addrs(tx.blocks);
      var d, index := 0, 0;
      m := 0;
      while d < descBlocks
        invariant 0 <= d <= descBlocks && m == d
        invariant index == Min(|addrs|, ChunkStart(d))
        invariant Written(old(dev.data), tx, off, d)
      {
        ChunksCover(|addrs|, d);
        TxImageDescriptor(crc, tx, d);
        var buf, next := FillDescriptor(tx.sequence, addrs, d, index);
        r := WriteJournalBlock(tx, off, d, buf[..], old(dev.data));
        if r.Err? { return; }
        index := next;
        d := d + 1;
        m := m + 1;
      }
      r := Ok(());
    }

    method WriteData(tx: Tx, off: nat, ghost img0: Image) returns (r: Result<U32>, ghost m: nat)
      requires Loggable(tx) && Written(img0, tx, off, DescriptorBlocksFor(|tx.blocks|))
      modifies dev`data, dev`dirty
      ensures r.Ok? ==> m == Needed(|tx.blocks|) - 1 && r.value == Checksum(crc, Datas(tx.blocks))
      ensures r.Err? ==> m < Needed(|tx.blocks|)
      ensures Written(img0, tx, off, m)
      ensures !dev.faulty ==> r.Ok?
    {
      hide Written, TxImage;
      var descBlocks := DescriptorBlocksFor(|tx.blocks|);
      var sum: U32 := 0;
      var i := 0;
      m := descBlocks;
      while i < |tx.blocks|
        invariant 0 <= i <= |tx.blocks| && m == descBlocks + i
        invariant Written(img0, tx, off, descBlocks + i)
        invariant sum == Checksum(crc, Datas(tx.blocks)[..i])
      {
        TxImageData(crc, tx, i);
        var w := WriteJournalBlock(tx, off, descBlocks + i, tx.blocks[i].data, img0);
        if w.Err? { return Err(w.error), m; }
        assert Datas(tx.blocks)[..i + 1][..i] == Datas(tx.blocks)[..i];
        sum := crc(sum, tx.blocks[i].data);
        i := i + 1;
        m := m + 1;
      }
      assert Datas(tx.blocks)[..i] == Datas(tx.blocks);
      r := Ok(sum);
    }

    method WriteCommitBlock(tx: Tx, off: nat, sum: U32, ghost img0: Image) returns (r: Result<()>)
      requires Loggable(tx) && Written(img0, tx, off, Needed(|tx.blocks|) - 1) && sum == Checksum(crc, Datas(tx.blocks))
      modifies dev`data, dev`dirty
      ensures r.Ok? ==> Written(img0, tx, off, Needed(|tx.blocks|))
      ensures r.Err? ==> Written(img0, tx, off, Needed(|tx.blocks|) - 1)
      ensures !dev.faulty ==> r.Ok?
    {
      hide Written, TxImage, EncodeHeader, PutBE32, Zero, Checksum;
      var buf := NewBuffer();
      PutHeader(Header(MAGIC, COMMIT, tx.sequence), buf);
      assert buf[..] == HeaderBlock(COMMIT, tx.sequence);
      PutUint32(buf, 12, sum);
      assert buf[..] == CommitBlock(tx.sequence, sum);
      TxImageCommit(crc, tx);
      r := WriteJournalBlock(tx, off, Needed(|tx.blocks|) - 1, buf[..], img0);
    }

    /** Writes the descriptors, the data and the commit block behind each other. */
    method WriteLog(tx: Tx, off: nat) returns (r: Result<()>, ghost m: nat)
      requires Valid() && Loggable(tx) && off + Needed(|tx.blocks|) <= length
      modifies dev`data, dev`dirty
      ensures r.Ok? ==> m == Needed(|tx.blocks|)
      ensures r.Err? ==> m < Needed(|tx.blocks|)
      ensures Written(old(dev.data), tx, off, m)
      ensures !dev.faulty ==> r.Ok?
    {
      hide TxImage;
      assert Written(dev.data, tx, off, 0);
      r, m := WriteDescriptors(tx, off);
      if r.Err? { return; }
      var w;
      w, m := WriteData(tx, off, old(dev.data));
      if w.Err? { return Err(w.error), m; }
      r := WriteCommitBlock(tx, off, w.value, old(dev.data));
      if r.Ok? { m := m + 1; }
    }
  }

  lemma TxImageDescriptor(crc: Crc, tx: Tx, d: nat)
    requires Loggable(tx) && d < DescriptorBlocksFor(|tx.blocks|)
    ensures ChunkStart(d) <= |tx.blocks|
    ensures TxImage(crc, tx)[d] == DescriptorBlock(tx.sequence, Addrs(tx.blocks), d)
  {
    ChunksCover(|tx.blocks|, d);
  }

  lemma TxImageData(crc: Crc, tx: Tx, i: nat)
    requires Loggable(tx) && i < |tx.blocks|
    ensures TxImage(crc, tx)[DescriptorBlocksFor(|tx.blocks|) + i] == tx.blocks[i].data
  {
    hide Checksum, CommitBlock;
  }

  lemma TxImageCommit(crc: Crc, tx: Tx)
    requires Loggable(tx)
    ensures TxImage(crc, tx)[Needed(|tx.blocks|) - 1] == CommitBlock(tx.sequence, Checksum(crc, Datas(tx.blocks)))
  {
    hide Checksum, CommitBlock;
  }

  class JournalTransaction {
    const journal: Journal
    const sequence: U32
    var blocks: seq<TxBlock>

    constructor (journal: Journal, sequence: U32)
      ensures this.journal == journal && this.sequence == sequence && blocks == []
    {
      this.journal, this.sequence := journal, sequence;
      blocks := [];
    }

    function View(): Tx
      reads this
    {
      Tx(sequence, blocks)
    }

    method LogBlock(addr: U32, data: seq<Byte>) returns (r: Result<()>)
      modifies this
      ensures r.Ok? <==> |data| == BLOCK_SIZE
      ensures blocks == if |data| == BLOCK_SIZE then old(blocks) + [TxBlock(addr, data)] else old(blocks)
    {
      if |data| != BLOCK_SIZE { return Err(BadLength); }
      blocks := blocks + [TxBlock(addr, data)];
      r := Ok(());
    }

    /** What the disk looks like when a commit at offset off stops after m device operations; inside a sync
        the file may hold any mixture. */
    ghost predicate StoppedAt(d0: Disk, tx: Tx, off: nat, m: nat)
      reads journal, journal.dev
    {
      && Loggable(tx) && |d0.vol| == |d0.dur|
      && var d := DiskAt(journal.Cfg(), d0, tx, off, m);
         && journal.dev.data == d.vol
         && (journal.dev.file == d.dur
             || (Syncing(tx, m) && exists p: set<nat> :: IsPersist(d.dur, d.vol, journal.dev.file, p)))
    }

    method WriteHome(ghost d0: Disk, ghost off: nat) returns (r: Result<()>, ghost m: nat)
      requires journal.Valid() && Loggable(View())
      requires StoppedAt(d0, View(), off, Needed(|blocks|) + 1) && journal.dev.file == journal.dev.data
      modifies journal.dev`data, journal.dev`dirty
      ensures journal.Valid()
      ensures Needed(|blocks|) < m <= Needed(|blocks|) + 1 + |blocks|
      ensures r.Ok? ==> m == Needed(|blocks|) + 1 + |blocks|
      ensures r.Err? ==> m < Needed(|blocks|) + 1 + |blocks|
      ensures journal.dev.data == DiskAt(journal.Cfg(), d0, View(), off, m).vol
      ensures journal.dev.file == DiskAt(journal.Cfg(), d0, View(), off, m).dur
      ensures !journal.dev.faulty && GoodTx(journal.Cfg(), |journal.dev.data|, View()) ==> r.Ok?
    {
      hide TxImage, Needed;
      ghost var ws := HomeWrites(View());
      ghost var logged := LoggedImage(journal.Cfg(), d0, View(), off);
      assert ws[..0] == [];
      var i := 0;
      while i < |blocks|
        invariant 0 <= i <= |blocks| && journal.Valid() && |journal.dev.data| == |old(journal.dev.data)|
        invariant journal.dev.data == ApplyWrites(logged, ws[..i])
      {
        r := journal.dev.WriteBlock(blocks[i].addr, blocks[i].data);
        if r.Err? { return r, Needed(|blocks|) + 1 + i; }
        assert ws[..i + 1][..i] == ws[..i] && ws[..i + 1][i] == ws[i];
        i := i + 1;
      }
      return Ok(()), Needed(|blocks|) + 1 + |blocks|;
    }

    /** A commit that succeeds has performed all its device operations; one that fails stopped after m of them. */
    method Commit() returns (r: Result<()>, ghost off: nat, ghost m: nat)
      requires journal.Valid() && |blocks| < 0x1_0000_0000
      modifies journal`head, journal.dev`data, journal.dev`file, journal.dev`dirty
      ensures journal.Valid() && |journal.dev.data| == |old(journal.dev.data)|
      ensures blocks == [] || Needed(|blocks|) > journal.length ==>
                && (r.Ok? <==> blocks == []) && journal.head == old(journal.head)
                && journal.dev.data == old(journal.dev.data) && journal.dev.file == old(journal.dev.file)
      ensures blocks != [] && Needed(|blocks|) <= journal.length ==>
                && off == (if old(journal.head) + Needed(|blocks|) > journal.length then 0 else old(journal.head))
                && journal.head == off + Needed(|blocks|)
                && m <= CommitSteps(View()) && (r.Ok? <==> m == CommitSteps(View()))
                && StoppedAt(Disk(old(journal.dev.data), old(journal.dev.file)), View(), off, m)
      ensures r.Ok? && blocks != [] ==> journal.dev.data == journal.dev.file
      ensures !journal.dev.faulty && Needed(|blocks|) <= journal.length && GoodTx(journal.Cfg(), |journal.dev.data|, View()) ==> r.Ok?
    {
      hide TxImage, ApplyWrites;
      off, m := 0, 0;
      if |blocks| == 0 { return Ok(()), off, m; }
      ghost var d0 := Disk(journal.dev.data, journal.dev.file);
      var tx := Tx(sequence, blocks);
      var a := journal.AllocBlocks(DescriptorBlocksFor(|blocks|) + |blocks| + 1);
      if a.Err? { return Err(a.error), off, m; }
      off := a.value;
      r, m := journal.WriteLog(tx, a.value);
      if r.Err? { return; }
      r := journal.dev.Sync();
      if r.Err? { return; }
      AllWritten(journal.Cfg(), d0, tx, off);
      m := m + 1;
      r, m := WriteHome(d0, off);
      if r.Err? { return; }
      r := journal.dev.Sync();
      if r.Err? { return; }
      AllApplied(journal.Cfg(), d0, tx, off);
      m := m + 1;
    }
  }

  lemma AllWritten(c: Config, d: Disk, tx: Tx, off: nat)
    requires Loggable(tx)
    ensures var j := Needed(|tx.blocks|);
            && DiskAt(c, d, tx, off, j).vol == LoggedImage(c, d, tx, off)
            && DiskAt(c, d, tx, off, j + 1) == Disk(LoggedImage(c, d, tx, off), LoggedImage(c, d, tx, off))
  {
    hide TxImage;
    var ws := JournalWrites(c, tx, off);
    assert ws[..|ws|] == ws;
    assert HomeWrites(tx)[..0] == [];
  }

  lemma AllApplied(c: Config, d: Disk, tx: Tx, off: nat)
    requires Loggable(tx)
    ensures DiskAt(c, d, tx, off, CommitSteps(tx) - 1).vol == DiskAt(c, d, tx, off, CommitSteps(tx)).vol
                                                        == DiskAt(c, d, tx, off, CommitSteps(tx)).dur
  {
    hide TxImage, ApplyWrites;
    assert HomeWrites(tx)[..|tx.blocks|] == HomeWrites(tx);
  }

  /** A commit that stopped after m device operations left on disk what a crash at that point leaves: the failures
      Commit reports are the crashes of a run. */
  lemma FailedCommitIsCrash(c: Config, d0: Disk, tx: Tx, off: nat, m: nat, file: Image)
    requires Loggable(tx) && |d0.vol| == |d0.dur|
    requires var d := DiskAt(c, d0, tx, off, m);
             file == d.dur || (Syncing(tx, m) && exists p: set<nat> :: IsPersist(d.dur, d.vol, file, p))
    ensures exists p: set<nat> :: file == CrashImage(DiskAt(c, d0, tx, off, m), tx, m, p)
  {
    hide DiskAt;
    var d := DiskAt(c, d0, tx, off, m);
    if Syncing(tx, m) && file != d.dur {
      var p: set<nat> :| IsPersist(d.dur, d.vol, file, p);
      assert file == CrashImage(d, tx, m, p);
    } else {
      assert Syncing(tx, m) ==> Persist(d.dur, d.vol, {}) == d.dur;
      assert file == CrashImage(d, tx, m, {});
    }
  }
}
