/** Journal recovery: the scan of the journal region and the replay of what it finds. */
module JournalRecovery {
  import opened Bytes
  import opened Device
  import opened JournalFormat
  import opened JournalReplay

  // ---------------------------------------------------------------- what recovery computes

  datatype Chain = Whole | Broken | Cut

  /** Descriptor blocks d .. count-1 of the chain at base: headers all match, one does not, or the device ends first. */
  function CheckChain(img: Image, base: nat, sequence: U32, d: nat, count: nat): (r: Chain)
    ensures r.Whole? && d < count ==> base + count <= |img|
    decreases count - d
  {
    if d >= count then Whole
    else if base + d >= |img| then Cut
    else if DecodeHeader(img[base + d]) != Header(MAGIC, DESCRIPTOR, sequence) then Broken
    else CheckChain(img, base, sequence, d + 1, count)
  }

  function Writes(addrs: seq<U32>, data: seq<Block>): (r: seq<Write>)
    requires |addrs| == |data|
    ensures |r| == |data|
    ensures forall i :: 0 <= i < |r| ==> r[i] == Write(addrs[i], data[i])
  {
    seq(|data|, i requires 0 <= i < |data| => Write(addrs[i], data[i]))
  }

  /** What the scan decides at journal offset off. */
  function ScanAt(crc: Crc, img: Image, start: nat, length: nat, off: nat): (r: Scan)
    ensures r.Replay? ==> off + r.needed <= length && r.ws != []
  {
    var base := start + off;
    if base >= |img| then Unreadable
    else if !IsDescriptor(img[base]) then Skip
    else
      var total := GetBE32(img[base], COUNT_OFFSET);
      if total == 0 then Skip
      else match CheckChain(img, base, DecodeHeader(img[base]).sequence, 1, DescriptorBlocksFor(total))
        case Cut => Unreadable
        case Broken => Skip
        case Whole => ScanBody(crc, img, base, length, off, total)
  }

  /** The data and commit blocks behind a whole descriptor chain. */
  function ScanBody(crc: Crc, img: Image, base: nat, length: nat, off: nat, total: nat): (r: Scan)
    requires total >= 1 && base + DescriptorBlocksFor(total) <= |img|
    ensures r.Replay? ==> off + r.needed <= length && r.ws != []
  {
    if off + Needed(total) > length then Stop
    else if base + Needed(total) > |img| then Unreadable
    else
      var lo := base + DescriptorBlocksFor(total);
      if Committed(crc, DecodeHeader(img[base]).sequence, img[lo..lo + total], img[lo + total])
      then Replay(Writes(Tags(img, base, total), img[lo..lo + total]), Needed(total))
      else Skip
  }

  predicate Committed(crc: Crc, sequence: U32, data: seq<Block>, commit: Block) {
    IsCommitOf(commit, sequence) && GetBE32(commit, 12) == Checksum(crc, data)
  }

  /** scan is the journal scan of the given region. */
  ghost predicate IsScanner(scan: Scanner, crc: Crc, start: nat, length: nat) {
    forall img: Image, off: nat {:trigger ScanAt(crc, img, start, length, off)} ::
      scan(img, off) == ScanAt(crc, img, start, length, off)
  }

  function JournalScanner(crc: Crc, start: nat, length: nat): (scan: Scanner)
    ensures IsScanner(scan, crc, start, length)
  {
    (img: Image, off: nat) => ScanAt(crc, img, start, length, off)
  }

  // ---------------------------------------------------------------- the recovery procedure

  datatype Option<T> = None | Some(value: T)

  lemma ChunkOfUnique(i: nat, d: nat)
    requires ChunkStart(d) <= i < ChunkStart(d + 1)
    ensures ChunkOf(i) == d
  {
  }

  /** The addresses of one descriptor block, appended until the block or the list is full. */
  method ReadTags(desc: Block, d: nat, total: nat, prefix: seq<U32>) returns (addrs: seq<U32>)
    requires |prefix| == ChunkStart(d) < total
    ensures |addrs| == Min(total, ChunkStart(d + 1)) && prefix <= addrs
    ensures forall i :: |prefix| <= i < |addrs| ==> ChunkOf(i) == d && addrs[i] == GetBE32(desc, TagPos(i))
  {
    addrs := prefix;
    var pos := if d == 0 then FIRST_TAGS else OTHER_TAGS;
    while pos + 4 <= BLOCK_SIZE && |addrs| < total
      invariant |prefix| <= |addrs| <= Min(total, ChunkStart(d + 1)) && prefix <= addrs
      invariant pos == TagsOffset(d) + 4 * (|addrs| - |prefix|)
      invariant forall i :: |prefix| <= i < |addrs| ==> ChunkOf(i) == d && addrs[i] == GetBE32(desc, TagPos(i))
    {
      ChunkOfUnique(|addrs|, d);
      addrs := addrs + [GetBE32(desc, pos)];
      pos := pos + 4;
    }
  }

  /** Follows the descriptor chain at base: its addresses, or None when a link does not match. */
  method ReadChain(dev: BlockDevice, base: nat, blk: Block, total: nat) returns (r: Result<Option<seq<U32>>>)
    requires dev.Valid() && base < |dev.data| && blk == dev.data[base] && total >= 1
    ensures r.Err? && !dev.faulty ==>
              CheckChain(dev.data, base, DecodeHeader(blk).sequence, 1, DescriptorBlocksFor(total)).Cut?
    ensures r.Ok? && r.value.None? ==>
              CheckChain(dev.data, base, DecodeHeader(blk).sequence, 1, DescriptorBlocksFor(total)).Broken?
    ensures r.Ok? && r.value.Some? ==>
              && CheckChain(dev.data, base, DecodeHeader(blk).sequence, 1, DescriptorBlocksFor(total)).Whole?
              && base + DescriptorBlocksFor(total) <= |dev.data|
              && r.value.value == Tags(dev.data, base, total)
  {
    hide GetBE32;
    var seqno := DecodeHeader(blk).sequence;
    var count := DescriptorBlocksFor(total);
    var addrs: seq<U32> := [];
    var d := 0;
    while d < count
      invariant 0 <= d <= count
      invariant |addrs| == Min(total, ChunkStart(d))
      invariant d > 0 ==> base + d <= |dev.data|
      invariant CheckChain(dev.data, base, seqno, 1, count)
             == CheckChain(dev.data, base, seqno, if d == 0 then 1 else d, count)
      invariant forall i :: 0 <= i < |addrs| ==> ChunkOf(i) < d && addrs[i] == TagAt(dev.data, base, i)
    {
      var desc := blk;
      if d > 0 {
        var rd := dev.ReadBlock(base + d);
        if rd.Err? { return Err(rd.error); }
        desc := rd.value;
        if DecodeHeader(desc) != Header(MAGIC, DESCRIPTOR, seqno) { return Ok(None); }
      }
      ChunksCover(total, d);
      addrs := ReadTags(desc, d, total, addrs);
      d := d + 1;
    }
    ChunksCover(total, d);
    assert addrs == Tags(dev.data, base, total);
    return Ok(Some(addrs));
  }

  /** Reads the logged data blocks while accumulating their checksum. */
  method ReadData(crc: Crc, dev: BlockDevice, lo: nat, n: nat) returns (r: Result<(seq<Block>, U32)>)
    requires dev.Valid()
    ensures r.Ok? ==> lo + n <= |dev.data| || n == 0
    ensures r.Ok? && n > 0 ==> r.value == (dev.data[lo..lo + n], Checksum(crc, dev.data[lo..lo + n]))
    ensures !dev.faulty && lo + n <= |dev.data| ==> r.Ok?
  {
    var data: seq<Block> := [];
    var sum: U32 := 0;
    var i := 0;
    while i < n
      invariant 0 <= i <= n
      invariant i > 0 ==> lo + i <= |dev.data| && data == dev.data[lo..lo + i]
      invariant |data| == i && sum == Checksum(crc, data)
    {
      var rd := dev.ReadBlock(lo + i);
      if rd.Err? { return Err(rd.error); }
      assert (data + [rd.value])[..|data|] == data;
      data := data + [rd.value];
      sum := crc(sum, rd.value);
      i := i + 1;
    }
    return Ok((data, sum));
  }

  /** Writes a transaction to its home addresses; stops at the first write that fails. */
  method ReplayWrites(dev: BlockDevice, ws: seq<Write>) returns (r: Result<()>, ghost k: nat)
    requires dev.Valid()
    modifies dev`data, dev`dirty
    ensures dev.Valid()
    ensures k <= |ws| && dev.data == ApplyWrites(old(dev.data), ws[..k])
    ensures r.Ok? ==> k == |ws| == GoodPrefix(|old(dev.data)|, ws)
    ensures r.Err? ==> k < |ws| && k <= GoodPrefix(|old(dev.data)|, ws)
    ensures r.Err? && !dev.faulty ==> k == GoodPrefix(|old(dev.data)|, ws)
  {
    k := 0;
    var i := 0;
    while i < |ws|
      invariant 0 <= i <= |ws| && i == k && dev.Valid()
      invariant dev.data == ApplyWrites(old(dev.data), ws[..i])
      invariant forall j :: 0 <= j < i ==> ws[j].addr < |old(dev.data)|
    {
      r := dev.WriteBlock(ws[i].addr, ws[i].data);
      if r.Err? { return; }
      assert ws[..i + 1][..i] == ws[..i];
      i := i + 1;
      k := k + 1;
    }
    r := Ok(());
  }

  /** The blocks behind a whole chain: data, checksum and commit record. */
  method ScanTail(crc: Crc, dev: BlockDevice, base: nat, length: nat, off: nat, addrs: seq<U32>) returns (r: Result<Scan>)
    requires dev.Valid() && addrs != [] && base + DescriptorBlocksFor(|addrs|) <= |dev.data|
    requires addrs == Tags(dev.data, base, |addrs|)
    ensures r.Ok? ==> r.value == ScanBody(crc, dev.data, base, length, off, |addrs|) && !r.value.Unreadable?
    ensures r.Err? && !dev.faulty ==> ScanBody(crc, dev.data, base, length, off, |addrs|).Unreadable?
  {
    hide GetBE32, Tags, Checksum;
    var needed := Needed(|addrs|);
    if off + needed > length { return Ok(Stop); }
    var lo := base + DescriptorBlocksFor(|addrs|);
    var body := ReadData(crc, dev, lo, |addrs|);
    if body.Err? { return Err(body.error); }
    var rc := dev.ReadBlock(lo + |addrs|);
    if rc.Err? { return Err(rc.error); }
    if !IsCommitOf(rc.value, DecodeHeader(dev.data[base]).sequence) { return Ok(Skip); }
    if GetBE32(rc.value, 12) != body.value.1 { return Ok(Skip); }
    return Ok(Replay(Writes(addrs, body.value.0), needed));
  }

  /** One position of the scan, read from the device. */
  method ScanStep(crc: Crc, dev: BlockDevice, start: nat, length: nat, off: nat, ghost scan: Scanner)
    returns (r: Result<Scan>)
    requires dev.Valid() && off < length && IsScanner(scan, crc, start, length)
    ensures r.Ok? ==> r.value == scan(dev.data, off) && !r.value.Unreadable?
    ensures r.Err? && !dev.faulty ==> scan(dev.data, off).Unreadable?
  {
    assert scan(dev.data, off) == ScanAt(crc, dev.data, start, length, off);
    var base := start + off;
    var rd := dev.ReadBlock(base);
    if rd.Err? { return Err(rd.error); }
    if !IsDescriptor(rd.value) { return Ok(Skip); }
    var total: nat := GetBE32(rd.value, COUNT_OFFSET);
    if total == 0 { return Ok(Skip); }
    var chain := ReadChain(dev, base, rd.value, total);
    if chain.Err? { return Err(chain.error); }
    if chain.value.None? { return Ok(Skip); }
    r := ScanTail(crc, dev, base, length, off, chain.value.value);
  }

  /** A run without a fault leaves the full recovery; a fault leaves the recovery stopped after k home writes. */
  method Recover(crc: Crc, dev: BlockDevice, start: nat, length: nat, ghost scan: Scanner)
    returns (r: Result<()>, ghost k: nat)
    requires dev.Valid() && IsScanner(scan, crc, start, length)
    modifies dev`data, dev`dirty
    ensures dev.Valid()
    ensures r.Ok? || !dev.faulty ==>
              Outcome(dev.data, r.Ok?) == RecoverFrom(scan, old(dev.data), length, 0, Unlimited)
    ensures r.Err? ==>
              dev.data == RecoverFrom(scan, old(dev.data), length, 0, Limited(k)).img
  {
    hide RecoverFrom;
    var off := 0;
    k := 0;
    while off < length
      invariant 0 <= off && dev.Valid()
      invariant Resumes(scan, old(dev.data), length, dev.data, off, k)
      decreases length - off
    {
      var step := ScanStep(crc, dev, start, length, off, scan);
      ResumeEnd(scan, old(dev.data), length, dev.data, off, k);
      if step.Err? { return Err(step.error), k; }
      if step.value.Stop? { return Ok(()), k; }
      if step.value.Skip? {
        ResumeSkip(scan, old(dev.data), length, dev.data, off, k);
        off := off + 1;
      } else {
        ghost var j;
        r, j := ReplayOne(dev, step.value.ws, step.value.needed, scan, old(dev.data), length, off, k);
        k := k + j;
        if r.Err? { return r, k; }
        off := off + step.value.needed;
      }
    }
    ResumeEnd(scan, old(dev.data), length, dev.data, off, k);
    r := Ok(());
  }

  /** The home writes of one committed transaction, as a step of the whole recovery. */
  method ReplayOne(dev: BlockDevice, ws: seq<Write>, needed: Positive,
                   ghost scan: Scanner, ghost img0: Image, ghost length: nat, ghost off: nat, ghost k: nat)
    returns (r: Result<()>, ghost j: nat)
    requires dev.Valid() && off < length && Resumes(scan, img0, length, dev.data, off, k)
    requires scan(dev.data, off) == Replay(ws, needed)
    modifies dev`data, dev`dirty
    ensures dev.Valid()
    ensures r.Ok? ==> Resumes(scan, img0, length, dev.data, off + needed, k + j)
    ensures r.Err? ==> RecoverFrom(scan, img0, length, 0, Limited(k + j)).img == dev.data
    ensures r.Err? && !dev.faulty ==> RecoverFrom(scan, img0, length, 0, Unlimited) == Outcome(dev.data, false)
  {
    ghost var before := dev.data;
    r, j := ReplayWrites(dev, ws);
    if r.Err? {
      ResumePart(scan, img0, length, before, off, k, ws, needed, j);
    } else {
      assert ws[..j] == ws;
      ResumeWhole(scan, img0, length, before, off, k, ws, needed);
    }
  }
}
