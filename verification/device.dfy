/** The block device: a volatile image in memory over a durable backing file. */
module Device {
  import opened Bytes

  /** Keeps every 32-bit block address sum of the engine free of wrap-around (4 GiB of blocks). */
  const MAX_BLOCKS: nat := 0x10_0000

  // ---------------------------------------------------------------- block writes as values

  datatype Write = Write(addr: nat, data: Block)

  ghost predicate InRange(img: Image, ws: seq<Write>) {
    forall i :: 0 <= i < |ws| ==> ws[i].addr < |img|
  }

  /** The image after the writes, in order; a write outside the image has no effect. */
  function ApplyWrites(img: Image, ws: seq<Write>): (r: Image)
    ensures |r| == |img|
  {
    if ws == [] then img
    else
      var w := ws[|ws| - 1];
      var before := ApplyWrites(img, ws[..|ws| - 1]);
      if w.addr < |img| then before[w.addr := w.data] else before
  }

  ghost predicate Touches(ws: seq<Write>, addr: nat) {
    exists i :: 0 <= i < |ws| && ws[i].addr == addr
  }

  lemma {:induction false} ApplyAppend(img: Image, a: seq<Write>, b: seq<Write>)
    ensures ApplyWrites(img, a + b) == ApplyWrites(ApplyWrites(img, a), b)
    decreases |b|
  {
    if b == [] {
      assert a + b == a;
    } else {
      assert (a + b)[..|a + b| - 1] == a + b[..|b| - 1];
      ApplyAppend(img, a, b[..|b| - 1]);
    }
  }

  /** A block no write names keeps its content. */
  lemma {:induction false} ApplyFrame(img: Image, ws: seq<Write>, addr: nat)
    requires addr < |img| && !Touches(ws, addr)
    ensures ApplyWrites(img, ws)[addr] == img[addr]
  {
    if ws != [] {
      var front := ws[..|ws| - 1];
      assert forall i :: 0 <= i < |front| ==> front[i] == ws[i];
      ApplyFrame(img, front, addr);
      assert ws[|ws| - 1].addr != addr;
    }
  }

  /** A block some write names ends with the same content whatever the image held before. */
  lemma {:induction false} ApplyOverwrites(a: Image, b: Image, ws: seq<Write>, addr: nat)
    requires addr < |a| == |b| && (Touches(ws, addr) || a[addr] == b[addr])
    ensures ApplyWrites(a, ws)[addr] == ApplyWrites(b, ws)[addr]
  {
    if ws != [] && ws[|ws| - 1].addr != addr {
      var front := ws[..|ws| - 1];
      if Touches(ws, addr) {
        var i :| 0 <= i < |ws| && ws[i].addr == addr;
        assert front[i].addr == addr;
      }
      ApplyOverwrites(a, b, front, addr);
    }
  }

  /** Each block of the result comes from one of the two images: what a crash inside a sync leaves. */
  function Persist(old_: Image, new_: Image, persisted: set<nat>): (r: Image)
    requires |old_| == |new_|
    ensures |r| == |old_|
    ensures forall i :: 0 <= i < |r| ==> r[i] == if i in persisted then new_[i] else old_[i]
  {
    seq(|old_|, i requires 0 <= i < |old_| => if i in persisted then new_[i] else old_[i])
  }

  ghost predicate IsPersist(old_: Image, new_: Image, r: Image, persisted: set<nat>) {
    |old_| == |new_| && r == Persist(old_, new_, persisted)
  }

  // ---------------------------------------------------------------- the device object

  class BlockDevice {
    var data: Image
    var file: Image
    var dirty: bool
    /** True while a fault injector is registered; without one no block operation fails in range. */
    var faulty: bool
    /** The blocks an interrupted sync still persists. */
    var tear: set<nat>

    ghost predicate Valid()
      reads this
    {
      && |data| == |file| <= MAX_BLOCKS
      && (!dirty ==> data == file)
    }

    constructor (size: nat)
      requires 0 < size <= MAX_BLOCKS
      ensures Valid() && |data| == size && !faulty
      ensures data == file == seq(size, _ => Zero())
    {
      data := seq(size, _ => Zero());
      file := seq(size, _ => Zero());
      dirty, faulty, tear := false, false, {};
    }

    method ReadBlock(addr: nat) returns (r: Result<Block>)
      requires Valid()
      ensures r.Ok? ==> addr < |data| && r.value == data[addr]
      ensures !faulty && addr < |data| ==> r.Ok?
    {
      if faulty {
        if * { return Err(IOError); }
      }
      if addr >= |data| { return Err(OutOfRange); }
      return Ok(data[addr]);
    }

    method WriteBlock(addr: nat, blk: seq<Byte>) returns (r: Result<()>)
      requires Valid()
      modifies this`data, this`dirty
      ensures Valid()
      ensures r.Err? ==> data == old(data)
      ensures r.Ok? ==> addr < |old(data)| && |blk| == BLOCK_SIZE && data == old(data)[addr := blk]
      ensures !faulty && addr < |old(data)| && |blk| == BLOCK_SIZE ==> r.Ok?
    {
      if faulty {
        if * { return Err(IOError); }
      }
      if addr >= |data| { return Err(OutOfRange); }
      if |blk| != BLOCK_SIZE { return Err(BadLength); }
      data := data[addr := blk];
      dirty := true;
      return Ok(());
    }

    /** On an error the file may hold any mixture of old and new blocks. */
    method Sync() returns (r: Result<()>)
      requires Valid()
      modifies this`file, this`dirty
      ensures Valid()
      ensures r.Ok? ==> file == data
      ensures !faulty ==> r.Ok?
      ensures r.Err? ==> exists p: set<nat> :: IsPersist(old(file), data, file, p)
    {
      assert IsPersist(file, data, file, {});
      if faulty {
        if * { return Err(IOError); }
      }
      if !dirty { return Ok(()); }
      if faulty {
        // The backing file could not be written completely.
        if * {
          file := Persist(file, data, tear);
          assert IsPersist(old(file), data, file, tear);
          return Err(IOError);
        }
      }
      file := data;
      dirty := false;
      return Ok(());
    }

    method Reload()
      requires Valid()
      modifies this`data, this`dirty
      ensures Valid() && data == file && !dirty
    {
      data := file;
      dirty := false;
    }

    method Snapshot() returns (s: Image)
      ensures s == data
    {
      s := data;
    }

    /** The addresses, in ascending order, whose block differs from the snapshot. */
    method ChangedBlocks(snapshot: Image) returns (r: Result<seq<nat>>)
      ensures r.Ok? <==> |snapshot| == |data|
      ensures r.Ok? ==> forall i, j :: 0 <= i < j < |r.value| ==> r.value[i] < r.value[j]
      ensures r.Ok? ==> forall a: nat :: a in r.value <==> a < |data| && snapshot[a] != data[a]
    {
      if |snapshot| != |data| { return Err(BadLength); }
      var changed: seq<nat> := [];
      var i := 0;
      while i < |data|
        invariant 0 <= i <= |data|
        invariant forall k :: 0 <= k < |changed| ==> changed[k] < i
        invariant forall k, j :: 0 <= k < j < |changed| ==> changed[k] < changed[j]
        invariant forall a: nat :: a in changed <==> a < i && snapshot[a] != data[a]
      {
        if snapshot[i] != data[i] {
          assert forall a: nat :: a in changed + [i] <==> a in changed || a == i;
          changed := changed + [i];
        }
        i := i + 1;
      }
      return Ok(changed);
    }

    method RestoreBlocks(snapshot: Image, addrs: seq<nat>) returns (r: Result<()>)
      requires Valid()
      modifies this`data, this`dirty
      ensures r.Ok? ==> Valid()
      ensures r.Ok? <==> |snapshot| == |old(data)| && forall i :: 0 <= i < |addrs| ==> addrs[i] < |old(data)|
      ensures r.Ok? ==> forall a :: 0 <= a < |data| ==>
                  data[a] == if a in addrs then snapshot[a] else old(data)[a]
    {
      if |snapshot| != |data| { return Err(BadLength); }
      var i := 0;
      while i < |addrs|
        invariant 0 <= i <= |addrs|
        invariant |data| == |old(data)|
        invariant forall k :: 0 <= k < i ==> addrs[k] < |data|
        invariant forall a :: 0 <= a < |data| ==>
                    data[a] == if a in addrs[..i] then snapshot[a] else old(data)[a]
      {
        if addrs[i] >= |data| { return Err(OutOfRange); }
        assert addrs[..i + 1] == addrs[..i] + [addrs[i]];
        data := data[addrs[i] := snapshot[addrs[i]]];
        i := i + 1;
      }
      assert addrs[..i] == addrs;
      dirty := true;
      return Ok(());
    }
  }
}
