/** RunMutation: a closure's block writes become one journal transaction, or leave no trace. */
module Mutation {
  import opened Bytes
  import opened Device
  import opened JournalFormat
  import opened JournalRuns
  import opened JournalLog
  import opened JournalCrash
  import opened Journaling

  const SUPERBLOCK_ADDR: nat := 1

  // ---------------------------------------------------------------- diff, restore, replay

  /** The addresses outside the journal whose block differs between the two images, in ascending order. */
  ghost predicate IsDiff(c: Config, before: Image, after: Image, addrs: seq<nat>) {
    && |before| == |after|
    && (forall i, j :: 0 <= i < j < |addrs| ==> addrs[i] < addrs[j])
    && (forall a: nat :: a in addrs <==> a < |after| && !InJournal(c, a) && before[a] != after[a])
  }

  /** The transaction logs exactly these addresses, each with its block of the image. */
  ghost predicate Logs(tx: Tx, addrs: seq<nat>, img: Image) {
    && |tx.blocks| == |addrs|
    && forall i :: 0 <= i < |addrs| ==> addrs[i] < |img| && tx.blocks[i].addr == addrs[i] && tx.blocks[i].data == img[addrs[i]]
  }

  /** Writes that all copy from one image leave that image's blocks where they went. */
  lemma {:induction false} CopyWrites(img: Image, from: Image, ws: seq<Write>, x: nat)
    requires x < |img| == |from|
    requires forall i :: 0 <= i < |ws| ==> ws[i].addr < |from| && ws[i].data == from[ws[i].addr]
    ensures ApplyWrites(img, ws)[x] == if Touches(ws, x) then from[x] else img[x]
  {
    if ws != [] {
      var front, last := ws[..|ws| - 1], ws[|ws| - 1];
      CopyWrites(img, from, front, x);
      if last.addr != x {
        assert Touches(ws, x) <==> Touches(front, x) by {
          assert forall i :: 0 <= i < |front| ==> front[i] == ws[i];
        }
      } else {
        assert ws[|ws| - 1].addr == x;
      }
    }
  }

  /** Taking the difference, going back to the image before, and replaying the difference gives the image after. */
  lemma DiffReplays(c: Config, before: Image, after: Image, restored: Image, addrs: seq<nat>, tx: Tx)
    requires IsDiff(c, before, after, addrs) && Logs(tx, addrs, after) && SameHome(c, restored, before)
    ensures SameHome(c, ApplyWrites(restored, HomeWrites(tx)), after)
  {
    hide ApplyWrites, HomeWrites;
    var ws := HomeWrites(tx);
    forall x: nat | x < |after| && !InJournal(c, x) ensures ApplyWrites(restored, ws)[x] == after[x] {
      CopyWrites(restored, after, ws, x);
      if before[x] != after[x] {
        assert x in addrs;
        var i :| 0 <= i < |addrs| && addrs[i] == x;
        assert ws[i].addr == x;
      }
    }
  }

  lemma DiffIsGood(c: Config, before: Image, after: Image, addrs: seq<nat>, tx: Tx)
    requires IsDiff(c, before, after, addrs) && Logs(tx, addrs, after) && addrs != [] && |after| <= MAX_BLOCKS
    ensures GoodTx(c, |after|, tx)
  {
    DiffIsShort(addrs, |after|);
    forall i | 0 <= i < |tx.blocks| ensures tx.blocks[i].addr < |after| && !InJournal(c, tx.blocks[i].addr) {
      assert addrs[i] in addrs;
    }
  }

  lemma {:induction false} DiffIsShort(addrs: seq<nat>, n: nat)
    requires forall i, j :: 0 <= i < j < |addrs| ==> addrs[i] < addrs[j]
    requires forall i :: 0 <= i < |addrs| ==> addrs[i] < n
    ensures |addrs| <= n
  {
    if addrs != [] {
      DiffIsShort(addrs[..|addrs| - 1], addrs[|addrs| - 1]);
    }
  }

  // ---------------------------------------------------------------- the filesystem object

  class Filesystem {
    const dev: BlockDevice
    const journal: Journal

    ghost predicate Valid()
      reads this, journal, dev
    {
      journal.dev == dev && journal.Valid() && dev.Valid()
    }

    constructor (dev: BlockDevice, journal: Journal)
      requires journal.dev == dev && journal.Valid() && dev.Valid()
      ensures Valid() && this.dev == dev && this.journal == journal
    {
      this.dev, this.journal := dev, journal;
    }

    /** The block writes of code this model does not look into. */
    method Perform(ws: seq<Write>) returns (r: Result<()>)
      requires Valid()
      modifies dev`data, dev`dirty
      ensures Valid() && |dev.data| == |old(dev.data)|
      ensures r.Ok? ==> dev.data == ApplyWrites(old(dev.data), ws)
      ensures r.Ok? ==> InRange(dev.data, ws)
      ensures !dev.faulty && InRange(dev.data, ws) ==> r.Ok?
    {
      var i := 0;
      assert ws[..0] == [];
      while i < |ws|
        invariant 0 <= i <= |ws| && Valid() && |dev.data| == |old(dev.data)|
        invariant dev.data == ApplyWrites(old(dev.data), ws[..i])
        invariant forall k :: 0 <= k < i ==> ws[k].addr < |dev.data|
      {
        r := dev.WriteBlock(ws[i].addr, ws[i].data);
        if r.Err? { return; }
        assert ws[..i + 1][..i] == ws[..i] && ws[..i + 1][i] == ws[i];
        i := i + 1;
      }
      assert ws[..i] == ws;
      r := Ok(());
    }

    /** The changed addresses outside the journal. */
    method ChangedHome(snapshot: Image) returns (changed: seq<nat>)
      requires Valid() && |snapshot| == |dev.data|
      ensures IsDiff(journal.Cfg(), snapshot, dev.data, changed)
    {
      var all := dev.ChangedBlocks(snapshot);
      changed := [];
      var i := 0;
      while i < |all.value|
        invariant 0 <= i <= |all.value|
        invariant forall k :: 0 <= k < |changed| ==> i < |all.value| ==> changed[k] < all.value[i]
        invariant forall k, j :: 0 <= k < j < |changed| ==> changed[k] < changed[j]
        invariant forall a: nat :: a in changed <==> a in all.value[..i] && !InJournal(journal.Cfg(), a)
      {
        assert all.value[..i + 1] == all.value[..i] + [all.value[i]];
        if !(journal.start <= all.value[i] < journal.start + journal.length) {
          changed := changed + [all.value[i]];
        }
        i := i + 1;
      }
      assert all.value[..i] == all.value;
    }

    /** The final content of each changed block, read back from the device. */
    method ReadFinal(addrs: seq<nat>) returns (r: Result<map<nat, Block>>)
      requires Valid() && forall i :: 0 <= i < |addrs| ==> addrs[i] < |dev.data|
      ensures r.Ok? ==> forall i :: 0 <= i < |addrs| ==> addrs[i] in r.value && r.value[addrs[i]] == dev.data[addrs[i]]
      ensures !dev.faulty ==> r.Ok?
    {
      var blocks: map<nat, Block> := map[];
      var i := 0;
      while i < |addrs|
        invariant 0 <= i <= |addrs|
        invariant forall a :: a in blocks ==> a < |dev.data| && blocks[a] == dev.data[a]
        invariant forall k :: 0 <= k < i ==> addrs[k] in blocks
      {
        var rd := dev.ReadBlock(addrs[i]);
        if rd.Err? { return Err(rd.error); }
        blocks := blocks[addrs[i] := rd.value];
        i := i + 1;
      }
      return Ok(blocks);
    }

    /** Logs the final content of each changed block. */
    method LogChanges(addrs: seq<nat>, blocks: map<nat, Block>, ghost final: Image) returns (t: JournalTransaction)
      requires Valid() && |final| <= MAX_BLOCKS && forall i :: 0 <= i < |addrs| ==> addrs[i] < |final|
      requires forall i :: 0 <= i < |addrs| ==> addrs[i] in blocks && blocks[addrs[i]] == final[addrs[i]]
      modifies journal`sequence
      ensures fresh(t) && t.journal == journal && Logs(t.View(), addrs, final)
    {
      t := journal.OpenTransaction();
      var i := 0;
      while i < |addrs|
        invariant 0 <= i <= |addrs| && fresh(t) && t.journal == journal && |t.blocks| == i
        invariant forall k :: 0 <= k < i ==> t.blocks[k] == TxBlock(addrs[k], final[addrs[k]])
      {
        var logged := t.LogBlock(addrs[i], blocks[addrs[i]]);
        i := i + 1;
      }
    }

    /** The image the closure, the cache flushes and the superblock write are meant to produce. */
    ghost function Target(img: Image, fn: seq<Write>, flush: seq<Write>, sb: Block): Image {
      ApplyWrites(img, fn + flush + [Write(SUPERBLOCK_ADDR, sb)])
    }

    /** How the commit of changes ended, from memory `before` its restoration and file `file0`. */
    ghost predicate CommitEnded(end: Ending, snapshot: Image, final: Image, file0: Image, tx: Tx, off: nat, n: nat)
      reads this, journal, dev
    {
      && Loggable(tx) && |tx.blocks| == n && |snapshot| == |file0| == |final|
      && (end.Committed? ==> dev.data == dev.file && SameHome(journal.Cfg(), dev.data, final))
      && (end.Committed? && SameJournal(journal.Cfg(), snapshot, final) ==>
            Disk(dev.data, dev.file) == DiskAt(journal.Cfg(), Disk(snapshot, file0), tx, off, CommitSteps(tx)))
      && (end.Stopped? ==> dev.data == dev.file && end.m < CommitSteps(tx))
      && (end.Stopped? && SameJournal(journal.Cfg(), snapshot, final) ==>
            exists p: set<nat> :: dev.file == CrashImage(DiskAt(journal.Cfg(), Disk(snapshot, file0), tx, off, end.m), tx, end.m, p))
      && (end.RolledBack? ==> dev.data == dev.file == file0)
      && (end.Unrestored? ==> dev.data == final && dev.file == file0)
      && !end.SyncFailed?
    }

    /** Reads the changed blocks, puts the old ones back, logs the changes and commits. */
    method CommitChanges(snapshot: Image, changed: seq<nat>) returns (r: Result<()>, ghost tx: Tx, ghost off: nat, ghost end: Ending)
      requires Valid() && |snapshot| == |dev.data|
      requires changed != [] && IsDiff(journal.Cfg(), snapshot, dev.data, changed)
      modifies journal`head, journal`sequence, dev`data, dev`file, dev`dirty
      ensures Valid() && |dev.data| == |old(dev.data)|
      ensures Logs(tx, changed, old(dev.data)) && GoodTx(journal.Cfg(), |dev.data|, tx)
      ensures CommitEnded(end, snapshot, old(dev.data), old(dev.file), tx, off, |changed|)
      ensures (r.Ok? <==> end.Committed?) && (r.Ok? ==> Needed(|changed|) <= journal.length)
      ensures !dev.faulty ==> end == if Needed(|changed|) <= journal.length then Committed else RolledBack
      ensures if end.Committed? || end.Stopped? then
                && off == (if old(journal.head) + Needed(|changed|) > journal.length then 0 else old(journal.head))
                && journal.head == off + Needed(|changed|)
              else journal.head == old(journal.head)
    {
      hide ApplyWrites, DiskAt, TxImage, SameHome, SameJournal, CrashImage, GoodTx, Needed;
      ghost var c, final := journal.Cfg(), dev.data;
      forall i | 0 <= i < |changed| ensures changed[i] < |dev.data| { assert changed[i] in changed; }
      off := 0;
      tx := LoggedTx(journal.sequence, changed, final);
      DiffIsGood(c, snapshot, final, changed, tx);
      GoodIsLoggable(c, |final|, tx);
      var blocks := ReadFinal(changed);
      if blocks.Err? { return Err(blocks.error), tx, off, Unrestored; }
      var restored := dev.RestoreBlocks(snapshot, changed);
      ghost var before := dev.data;
      RestoredHome(c, snapshot, final, before, changed);
      var t := LogChanges(changed, blocks.value, final);
      tx := t.View();
      DiffIsGood(c, snapshot, final, changed, tx);
      GoodIsLoggable(c, |final|, tx);
      ghost var m;
      r, off, m := t.Commit();
      if r.Err? {
        if Needed(|changed|) <= journal.length { FailedCommitIsCrash(c, Disk(before, old(dev.file)), tx, off, m, dev.file); }
        dev.Reload();
        end := if Needed(|changed|) <= journal.length then Stopped(m) else RolledBack;
        return;
      }
      end := Committed;
      CommitsHome(c, Disk(before, old(dev.file)), tx, off);
      DiffReplays(c, snapshot, final, before, changed, tx);
      HomeTrans(c, dev.data, ApplyWrites(before, HomeWrites(tx)), final);
    }

    /** The closure, the cache flushes and the superblock write, as far as they get. */
    method ApplyChanges(fn: seq<Write>, outcome: Result<()>, flush: seq<Write>, sb: Block) returns (done: Result<()>)
      requires Valid() && SUPERBLOCK_ADDR < |dev.data|
      modifies dev`data, dev`dirty
      ensures Valid() && |dev.data| == |old(dev.data)|
      ensures done.Ok? ==>
                && outcome.Ok? && InRange(old(dev.data), fn) && InRange(old(dev.data), flush)
                && dev.data == Target(old(dev.data), fn, flush, sb)
      ensures !dev.faulty && outcome.Ok? && InRange(old(dev.data), fn) && InRange(old(dev.data), flush) ==> done.Ok?
    {
      hide ApplyWrites;
      ghost var snapshot := dev.data;
      done := Perform(fn);
      if done.Ok? && outcome.Err? { done := outcome; }
      if done.Err? { return; }
      done := Perform(flush);
      if done.Err? { return; }
      done := dev.WriteBlock(SUPERBLOCK_ADDR, sb);
      TargetSteps(snapshot, fn, flush, sb);
    }

    /** All or nothing, faults included. Success means that memory and disk agree, every home block is the one the
        closure, the flushes and the superblock write asked for, and the logged set is exactly the changed home
        blocks. Without a fault the mutation fails exactly when the closure does, when a write falls off the device
        or when the changed blocks do not fit the journal, and then memory goes back to the durable image. A fault
        can also stop the commit, which leaves what a crash at that point leaves; end in a failed sync; or, when a
        changed block cannot be read back, leave the changes in memory. */
    method RunMutation(fn: seq<Write>, outcome: Result<()>, flush: seq<Write>, sb: Block)
      returns (r: Result<()>, ghost changed: seq<nat>, ghost tx: Tx, ghost off: nat, ghost end: Ending)
      requires Valid() && SUPERBLOCK_ADDR < |dev.data|
      modifies journal`head, journal`sequence, dev`data, dev`file, dev`dirty
      ensures Valid() && |dev.data| == |old(dev.data)|
      ensures r.Ok? <==> end.Committed?
      ensures end.RolledBack? ==> dev.data == dev.file == old(dev.file) && journal.head == old(journal.head)
      ensures outcome.Err? || !InRange(old(dev.data), fn) || !InRange(old(dev.data), flush) ==> end.RolledBack?
      ensures !end.RolledBack? ==> IsDiff(journal.Cfg(), old(dev.data), Target(old(dev.data), fn, flush, sb), changed)
      ensures !end.RolledBack? && changed != [] ==>
                && Logs(tx, changed, Target(old(dev.data), fn, flush, sb)) && GoodTx(journal.Cfg(), |dev.data|, tx)
                && CommitEnded(end, old(dev.data), Target(old(dev.data), fn, flush, sb), old(dev.file), tx, off, |changed|)
      ensures (end.Committed? || end.Stopped?) && changed != [] ==>
                && Needed(|changed|) <= journal.length && journal.head == off + Needed(|changed|)
                && off == (if old(journal.head) + Needed(|changed|) > journal.length then 0 else old(journal.head))
      ensures !end.RolledBack? && changed == [] ==>
                && dev.data == Target(old(dev.data), fn, flush, sb) && journal.head == old(journal.head)
                && if end.Committed? then dev.file == dev.data
                   else end.SyncFailed? && exists p: set<nat> :: IsPersist(old(dev.file), dev.data, dev.file, p)
      ensures !dev.faulty && outcome.Ok? && InRange(old(dev.data), fn) && InRange(old(dev.data), flush) ==>
                && IsDiff(journal.Cfg(), old(dev.data), Target(old(dev.data), fn, flush, sb), changed)
                && end == if changed == [] || Needed(|changed|) <= journal.length then Committed else RolledBack
      ensures !dev.faulty ==> end.Committed? || end.RolledBack?
    {
      hide ApplyWrites, DiskAt, TxImage, IsDiff, Logs, GoodTx, CommitEnded, Needed, InRange, Target;
      changed, tx, off, end := [], Tx(0, []), 0, RolledBack;
      var snapshot := dev.Snapshot();
      var done := ApplyChanges(fn, outcome, flush, sb);
      if done.Err? {
        dev.Reload();
        return done, changed, tx, off, end;
      }
      ghost var final := Target(snapshot, fn, flush, sb);
      var addrs := ChangedHome(snapshot);
      changed := addrs;
      if |addrs| == 0 {
        r := dev.Sync();
        end := if r.Ok? then Committed else SyncFailed;
        return;
      }
      r, tx, off, end := CommitChanges(snapshot, addrs);
      EndedRolledBack(this, end, snapshot, final, old(dev.file), tx, off, |changed|);
    }
  }

  /** How a mutation ended: done; undone; with its changes left in memory; with a sync that failed; or with a
      commit that stopped after m device operations. */
  datatype Ending = Committed | RolledBack | Unrestored | SyncFailed | Stopped(m: nat)

  /** The transaction that logs these addresses with the blocks of an image. */
  ghost function LoggedTx(sequence: U32, addrs: seq<nat>, img: Image): (tx: Tx)
    requires |img| <= MAX_BLOCKS && forall i :: 0 <= i < |addrs| ==> addrs[i] < |img|
    ensures Logs(tx, addrs, img)
  {
    Tx(sequence, seq(|addrs|, i requires 0 <= i < |addrs| => TxBlock(addrs[i], img[addrs[i]])))
  }

  lemma GoodIsLoggable(c: Config, size: nat, tx: Tx)
    requires GoodTx(c, size, tx)
    ensures Loggable(tx)
  {
  }

  lemma HomeTrans(c: Config, a: Image, b: Image, d: Image)
    requires SameHome(c, a, b) && SameHome(c, b, d)
    ensures SameHome(c, a, d)
  {
  }

  lemma EndedRolledBack(fs: Filesystem, end: Ending, snapshot: Image, final: Image, file0: Image, tx: Tx, off: nat, n: nat)
    requires fs.CommitEnded(end, snapshot, final, file0, tx, off, n)
    ensures !end.SyncFailed? && (end.RolledBack? ==> fs.dev.data == fs.dev.file == file0)
  {
    hide DiskAt, CrashImage, SameHome, SameJournal;
  }

  lemma TargetSteps(img: Image, fn: seq<Write>, flush: seq<Write>, sb: Block)
    requires SUPERBLOCK_ADDR < |img|
    ensures ApplyWrites(img, fn + flush + [Write(SUPERBLOCK_ADDR, sb)])
         == ApplyWrites(ApplyWrites(img, fn), flush)[SUPERBLOCK_ADDR := sb]
  {
    ApplyAppend(img, fn, flush);
    ApplyAppend(img, fn + flush, [Write(SUPERBLOCK_ADDR, sb)]);
  }

  /** A mutation that succeeds on a consistent engine, before the head wraps, is one completed commit of the run. */
  lemma MutationIsCommit(c: Config, img0: Image, s: State, log: seq<Segment>, tx: Tx, after: Disk)
    requires Inv(c, img0, s, log) && GoodTx(c, |s.disk.dur|, tx) && s.head + Needed(|tx.blocks|) <= c.length
    requires after == DiskAt(c, s.disk, tx, s.head, CommitSteps(tx))
    ensures Inv(c, img0, State(after, s.head + Needed(|tx.blocks|)), log + [Logged(tx)])
    ensures ApplyLog(img0, log + [Logged(tx)], |log| + 1)
         == ApplyWrites(ApplyLog(img0, log, |log|), HomeWrites(tx))
  {
    hide Inv, GoodTx, DiskAt, ApplyWrites, HomeWrites, Needed;
    CommitCompletes(c, img0, s, log, tx);
    PrefixStable(img0, log, [Logged(tx)], |log|);
  }

  /** The transactions of mutations list their addresses in ascending order, so a torn one of any length is told from
      a whole one: with the journal where the layout puts it, only data that looks like a descriptor or a colliding
      checksum could deceive recovery. */
  lemma MutationDetectable(c: Config, before: Image, after: Image, changed: seq<nat>, tx: Tx, kept: set<nat>)
    requires IsDiff(c, before, after, changed) && Logs(tx, changed, after) && Loggable(tx)
    requires c.start <= FIRST_CAPACITY && Needed(|changed|) <= c.length
    requires TornImage(c.crc, tx, kept) != TxImage(c.crc, tx)
    requires forall i :: 0 <= i < |changed| ==> changed[i] < |after| && !IsDescriptor(after[changed[i]])
    requires var d, n := DescriptorBlocksFor(|changed|), |changed|;
             var torn := TornImage(c.crc, tx, kept);
             |tx.blocks| == n && NoCollision(c.crc, torn[d..d + n], Datas(tx.blocks))
    ensures Detectable(c, tx, kept)
  {
    hide TornImage, TxImage, IsDescriptor, Checksum, DescriptorBlocksFor, ChainsBreak;
    forall i | 0 <= i < |tx.blocks| ensures !InJournal(c, tx.blocks[i].addr) {
      assert changed[i] in changed;
    }
    AscendingChainsBreak(c, tx);
  }

  lemma RestoredHome(c: Config, snapshot: Image, final: Image, before: Image, changed: seq<nat>)
    requires IsDiff(c, snapshot, final, changed) && |before| == |final|
    requires forall a :: 0 <= a < |before| ==> before[a] == if a in changed then snapshot[a] else final[a]
    ensures SameHome(c, before, snapshot)
    ensures SameJournal(c, snapshot, final) ==> before == snapshot
  {
    forall a: nat | a < |before| && !InJournal(c, a) ensures before[a] == snapshot[a] {
      if a !in changed { assert snapshot[a] == final[a]; }
    }
    if SameJournal(c, snapshot, final) {
      forall a: nat | a < |before| ensures before[a] == snapshot[a] {
        if InJournal(c, a) { assert a !in changed; }
      }
    }
  }

  /** A completed commit changes the home blocks as the transaction says. */
  lemma CommitsHome(c: Config, d: Disk, tx: Tx, off: nat)
    requires GoodTx(c, |d.vol|, tx) && off + Needed(|tx.blocks|) <= c.length && c.start + c.length <= |d.vol|
    ensures SameHome(c, DiskAt(c, d, tx, off, CommitSteps(tx)).vol, ApplyWrites(d.vol, HomeWrites(tx)))
  {
    hide TxImage, ApplyWrites, LoggedImage;
    LoggedImageBlocks(c, d, tx, off);
    forall x: nat | x < |d.vol| && !InJournal(c, x)
      ensures AppliedImage(c, d, tx, off)[x] == ApplyWrites(d.vol, HomeWrites(tx))[x]
    {
      ApplyOverwrites(LoggedImage(c, d, tx, off), d.vol, HomeWrites(tx), x);
    }
  }
}
