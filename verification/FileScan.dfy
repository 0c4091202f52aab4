/** fw_img_hw_rev.c over a file: the same search with a moving cursor and reads that may come up short. */
module FileScan {
  import opened Bytes
  import opened TlvScan
  import opened FlashScan

  /** A file and the seeks and reads the file system refuses. */
  datatype FileImage = FileImage(contents: seq<byte>, seekFaults: set<int>, readFaults: set<(int, int)>)
  {
    predicate SeekOk(off: int) {
      0 <= off < OFF_T_LIMIT && off !in seekFaults
    }

    predicate ReadFails(pos: int, len: nat) {
      (pos, len) in readFaults
    }

    /** The number of bytes a read of `len` bytes at `pos` delivers. */
    function Available(pos: nat, len: nat): (n: nat)
      ensures n <= len && (n > 0 ==> pos + n <= |contents|)
    {
      if pos >= |contents| then 0 else if |contents| - pos < len then |contents| - pos else len
    }

    /** The buffer after such a read: bytes beyond a short read keep their old values. */
    function ReadInto(pos: nat, buf: seq<byte>, len: nat): (s: seq<byte>)
      requires len <= |buf|
      ensures |s| == |buf|
    {
      var n := Available(pos, len);
      (if n == 0 then [] else contents[pos..pos + n]) + buf[n..]
    }
  }

  // The search as a function: `tlv` is the header buffer, which outlives an iteration

  function HandleAt(rt: RuuviTypes, img: FileImage, pos: nat, tlv: seq<byte>, r: Rev): Outcome
    requires |tlv| == TLV_HEADER_SIZE
  {
    var len := TlvLen(tlv);
    if TlvType(tlv) == rt.id then
      if len != HW_REV_NUM_SIZE || HasNum(r) || img.ReadFails(pos, len) then Outcome(false, r)
      else Outcome(true, r.(num := Be32(img.ReadInto(pos, [0, 0, 0, 0], len))))
    else if TlvType(tlv) == rt.name then
      if len >= HW_REV_NAME_SIZE || HasName(r) || img.ReadFails(pos, len) then Outcome(false, r)
      else Outcome(true, r.(name := img.ReadInto(pos, r.name, len)[len := 0]))
    else Outcome(true, r)
  }

  datatype Round = Round(outcome: Outcome, tlv: seq<byte>)

  /** One round of the search: seek, read the header over the previous one, handle the record. */
  function FileRound(rt: RuuviTypes, img: FileImage, off: nat, tlv: seq<byte>, r: Rev): (round: Round)
    requires |tlv| == TLV_HEADER_SIZE
    ensures |round.tlv| == TLV_HEADER_SIZE
  {
    if !img.SeekOk(off) || img.ReadFails(off, TLV_HEADER_SIZE) then Round(Outcome(false, r), tlv)
    else
      var tlv' := img.ReadInto(off, tlv, TLV_HEADER_SIZE);
      Round(HandleAt(rt, img, off + img.Available(off, TLV_HEADER_SIZE), tlv', r), tlv')
  }

  function ScanFrom(rt: RuuviTypes, img: FileImage, off: nat, end: nat, tlv: seq<byte>, r: Rev): Outcome
    requires |tlv| == TLV_HEADER_SIZE
    decreases end - off
  {
    if off + TLV_HEADER_SIZE > end then Outcome(false, r)
    else
      var round := FileRound(rt, img, off, tlv, r);
      var h := round.outcome;
      if !h.ok || Complete(h.rev) then h
      else ScanFrom(rt, img, off + TLV_HEADER_SIZE + TlvLen(round.tlv), end, round.tlv, h.rev)
  }

  /** The file search after a round with outcome h: it goes on unless it has failed or is complete. */
  lemma FileStep(
    rt: RuuviTypes, img: FileImage, off: nat, end: nat, tlv: seq<byte>, r: Rev, h: Outcome, next: nat, hdr: seq<byte>)
    requires |tlv| == |hdr| == TLV_HEADER_SIZE && off + TLV_HEADER_SIZE <= end
    requires FileRound(rt, img, off, tlv, r) == Round(h, hdr) && next == off + TLV_HEADER_SIZE + TlvLen(hdr)
    ensures h.ok ==> off < OFF_T_LIMIT
    ensures h.ok && !Complete(h.rev) ==>
      ScanFrom(rt, img, off, end, tlv, r) == ScanFrom(rt, img, next, end, hdr, h.rev)
    ensures !h.ok || Complete(h.rev) ==> ScanFrom(rt, img, off, end, tlv, r) == h
  {
    var round := FileRound(rt, img, off, tlv, r);
    assert round.outcome == h && round.tlv == hdr;
  }

  /** it_tlv_tot at `start`, when the info header there, zero-filled if short, has this magic. */
  function FileTotalOf(img: FileImage, magic: u16, start: nat): Option<u16> {
    if !img.SeekOk(start) || img.ReadFails(start, TLV_HEADER_SIZE) then None
    else
      var info := img.ReadInto(start, [0, 0, 0, 0], TLV_HEADER_SIZE);
      if TlvType(info) == magic then Some(TlvLen(info)) else None
  }

  function FileTotal(img: FileImage, start: nat): Option<u16> {
    FileTotalOf(img, IMAGE_TLV_PROT_INFO_MAGIC, start)
  }

  /** Where the image ends according to its header, when all of the header can be read. */
  function FileImageEnd(img: FileImage): Option<u32> {
    if !img.SeekOk(0) || img.ReadFails(0, IMAGE_HEADER_SIZE) || |img.contents| < IMAGE_HEADER_SIZE then None
    else Some(ImageEnd(img.contents[..IMAGE_HEADER_SIZE]))
  }

  function FindInFileFrom(rt: RuuviTypes, img: FileImage, start: u32, r: Rev): Outcome {
    match FileTotal(img, start)
    case None => Outcome(false, r)
    case Some(tot) => ScanFrom(rt, img, start + 4, start + 4 + tot, [0, 0, 0, 0], r)
  }

  /** The search from the image end on, with the bounds of the scan worked out. */
  lemma FileFromTotal(rt: RuuviTypes, img: FileImage, start: u32, tot: u16, first: nat, end: nat, r: Rev)
    requires FileTotal(img, start) == Some(tot) && first == start + 4 && end == first + tot
    ensures FindInFileFrom(rt, img, start, r) == ScanFrom(rt, img, first, end, [0, 0, 0, 0], r)
  {
    assert FindInFileFrom(rt, img, start, r) == match Some(tot)
      case None => Outcome(false, r)
      case Some(tot) => ScanFrom(rt, img, start + 4, start + 4 + tot, [0, 0, 0, 0], r);
  }

  function FindInFileImage(rt: RuuviTypes, img: FileImage, r: Rev): Outcome {
    match FileImageEnd(img)
    case None => Outcome(false, Clear(r))
    case Some(start) => FindInFileFrom(rt, img, start, Clear(r))
  }

  // The code

  /** fs_file_t: an open file with its cursor. */
  class FsFile {
    const img: FileImage
    var pos: nat

    constructor (img: FileImage)
      ensures this.img == img && pos == 0
    {
      this.img := img;
      pos := 0;
    }

    /** fs_seek(p_file, off, FS_SEEK_SET) */
    method Seek(off: u32) returns (rc: int)
      modifies this
      ensures rc == 0 <==> img.SeekOk(AsOffT(off))
      ensures pos == if rc == 0 then off else old(pos)
    {
      if img.SeekOk(AsOffT(off)) {
        pos := off;
        rc := 0;
      } else {
        rc := -22;
      }
    }

    /** fs_read: the number of bytes delivered, possibly fewer than asked for, or a negative error. */
    method Read(dst: array<byte>, len: nat) returns (rc: int)
      requires len <= dst.Length
      modifies this, dst
      ensures rc < 0 <==> old(img.ReadFails(pos, len))
      ensures rc >= 0 ==> rc == img.Available(old(pos), len) && pos == old(pos) + rc
      ensures rc < 0 ==> pos == old(pos)
      ensures dst[..] == if rc < 0 then old(dst[..]) else img.ReadInto(old(pos), old(dst[..]), len)
    {
      if img.ReadFails(pos, len) {
        return -5;
      }
      var n := img.Available(pos, len);
      forall i | 0 <= i < n {
        dst[i] := img.contents[pos + i];
      }
      pos := pos + n;
      rc := n;
    }
  }

  method FindTlvsInFile(file: FsFile, magic: u16, startOffset: u32) returns (ok: bool, tlvsStart: u32, tlvsEnd: u32)
    modifies file
    ensures ok <==> FileTotalOf(file.img, magic, startOffset).Some?
    ensures ok ==> tlvsStart == startOffset + 4
    ensures ok ==> tlvsEnd == startOffset + 4 + FileTotalOf(file.img, magic, startOffset).value
  {
    tlvsStart, tlvsEnd := 0, 0;
    var tlvInfo := new byte[4](_ => 0);
    assert tlvInfo[..] == [0, 0, 0, 0];
    var rc := file.Seek(startOffset);
    if rc != 0 {
      return false, tlvsStart, tlvsEnd;
    }
    rc := file.Read(tlvInfo, 4);
    if rc < 0 {
      return false, tlvsStart, tlvsEnd;
    }
    if TlvType(tlvInfo[..]) != magic {
      return false, tlvsStart, tlvsEnd;
    }
    tlvsStart := Add32(startOffset, 4);
    tlvsEnd := Add32(tlvsStart, TlvLen(tlvInfo[..]));
    ok := true;
  }

  /** The value is read wherever the cursor stands. */
  method HandleTlvInFile(rt: RuuviTypes, tlv: array<byte>, file: FsFile, hw: HwRev) returns (ok: bool)
    requires hw.Valid() && tlv.Length == TLV_HEADER_SIZE && tlv != hw.name
    modifies file, hw, hw.name
    ensures Outcome(ok, hw.Value()) == HandleAt(rt, file.img, old(file.pos), tlv[..], old(hw.Value()))
  {
    ghost var before, at := hw.Value(), file.pos;
    var itType, itLen := TlvType(tlv[..]), TlvLen(tlv[..]);
    if itType == rt.id {
      if itLen != HW_REV_NUM_SIZE {
        return false;
      }
      if hw.num != 0 {
        return false;
      }
      var buf := new byte[4](_ => 0);
      assert buf[..] == [0, 0, 0, 0];
      var rc := file.Read(buf, 4);
      if rc < 0 {
        return false;
      }
      hw.num := U32FromBytesBe(buf);
    }
    if itType == rt.name {
      if itLen >= HW_REV_NAME_SIZE {
        return false;
      }
      if hw.name[0] != 0 {
        return false;
      }
      var rc := file.Read(hw.name, itLen);
      if rc < 0 {
        return false;
      }
      hw.name[itLen] := 0;
      assert hw.name[..] == file.img.ReadInto(at, before.name, itLen)[itLen := 0];
    }
    return true;
  }

  /** The body of the scan loop up to the test for completion. */
  method SeekReadAndHandle(rt: RuuviTypes, file: FsFile, dataOff: u32, tlv: array<byte>, hw: HwRev) returns (ok: bool)
    requires hw.Valid() && tlv.Length == TLV_HEADER_SIZE && tlv != hw.name
    modifies file, tlv, hw, hw.name
    ensures Round(Outcome(ok, hw.Value()), tlv[..]) == FileRound(rt, file.img, dataOff, old(tlv[..]), old(hw.Value()))
  {
    var rc := file.Seek(dataOff);
    if rc != 0 {
      return false;
    }
    rc := file.Read(tlv, 4);
    if rc < 0 {
      return false;
    }
    ok := HandleTlvInFile(rt, tlv, file, hw);
  }

  /** The scan loop of fw_img_hw_rev_find_in_file; `rounds` counts its iterations. */
  method ScanTlvsInFile(rt: RuuviTypes, file: FsFile, tlvsStart: u32, tlvsEnd: u32, hw: HwRev)
    returns (isSuccess: bool, ghost rounds: nat)
    requires hw.Valid() && tlvsStart + 4 < U32_MOD && tlvsStart <= tlvsEnd
    modifies file, hw, hw.name
    ensures Outcome(isSuccess, hw.Value())
         == ScanFrom(rt, file.img, tlvsStart, tlvsEnd, [0, 0, 0, 0], old(hw.Value()))
    ensures 4 * rounds <= tlvsEnd - tlvsStart
  {
    isSuccess, rounds := false, 0;
    ghost var all := ScanFrom(rt, file.img, tlvsStart, tlvsEnd, [0, 0, 0, 0], hw.Value());
    var dataOff := tlvsStart;
    var tlv := new byte[4](_ => 0);
    assert tlv[..] == [0, 0, 0, 0];
    while Add32(dataOff, 4) <= tlvsEnd
      invariant fresh(tlv) && tlv.Length == 4
      invariant dataOff + 4 < U32_MOD && tlvsStart + 4 * rounds <= dataOff
      invariant 4 * rounds <= tlvsEnd - tlvsStart
      invariant all == ScanFrom(rt, file.img, dataOff, tlvsEnd, tlv[..], hw.Value())
      decreases U32_MOD - dataOff
    {
      rounds := rounds + 1;
      ghost var tlvBefore, revBefore := tlv[..], hw.Value();
      var ok := SeekReadAndHandle(rt, file, dataOff, tlv, hw);
      ghost var h, next := Outcome(ok, hw.Value()), dataOff + 4 + TlvLen(tlv[..]);
      FileStep(rt, file.img, dataOff, tlvsEnd, tlvBefore, revBefore, h, next, tlv[..]);
      if !ok {
        return;
      }
      if hw.name[0] != 0 && hw.num != 0 {
        isSuccess := true;
        return;
      }
      dataOff := Add32(dataOff, 4 + TlvLen(tlv[..]) as int);
      assert dataOff == next;
    }
  }

  /** The first part of fw_img_hw_rev_find_in_file: the image header. */
  method ReadImageEnd(file: FsFile) returns (ok: bool, start: u32)
    modifies file
    ensures ok <==> FileImageEnd(file.img).Some?
    ensures ok ==> start == FileImageEnd(file.img).value
    ensures ok <==> file.img.SeekOk(0) && !file.img.ReadFails(0, 32) && |file.img.contents| >= 32
    ensures ok ==> start == AnnouncedEnd(file.img.contents)
  {
    var rc := file.Seek(0);
    if rc != 0 {
      return false, 0;
    }
    var imgHdr := new byte[IMAGE_HEADER_SIZE](_ => 0);
    rc := file.Read(imgHdr, IMAGE_HEADER_SIZE);
    if rc < 0 {
      return false, 0;
    }
    if rc != IMAGE_HEADER_SIZE {
      return false, 0;
    }
    assert imgHdr[..] == file.img.contents[..IMAGE_HEADER_SIZE];
    ImageEndInBytes(file.img.contents);
    return true, ImageEnd(imgHdr[..]);
  }

  /** The rest of fw_img_hw_rev_find_in_file: the protected TLVs. */
  method FindInTlvsOfFile(rt: RuuviTypes, file: FsFile, start: u32, hw: HwRev) returns (isSuccess: bool)
    requires hw.Valid()
    modifies file, hw, hw.name
    ensures Outcome(isSuccess, hw.Value()) == FindInFileFrom(rt, file.img, start, old(hw.Value()))
  {
    var found, tlvsStart, tlvsEnd := FindTlvsInFile(file, IMAGE_TLV_PROT_INFO_MAGIC, start);
    if !found {
      return false;
    }
    ghost var tot := FileTotal(file.img, start).value;
    FileFromTotal(rt, file.img, start, tot, tlvsStart, tlvsEnd, hw.Value());
    ghost var rounds;
    isSuccess, rounds := ScanTlvsInFile(rt, file, tlvsStart, tlvsEnd, hw);
  }

  /** fw_img_hw_rev_find_in_file */
  method FindInFile(rt: RuuviTypes, file: FsFile, hw: HwRev) returns (isSuccess: bool)
    requires hw.Valid()
    modifies file, hw, hw.name
    ensures Outcome(isSuccess, hw.Value()) == FindInFileImage(rt, file.img, old(hw.Value()))
    ensures 0 in hw.name[..]
  {
    ghost var before := hw.Value();
    FileTerminated(rt, file.img, before);
    hw.num := 0;
    hw.name[0] := 0;
    assert hw.Value() == Clear(before);
    var ok, start := ReadImageEnd(file);
    if !ok {
      return false;
    }
    isSuccess := FindInTlvsOfFile(rt, file, start, hw);
  }

  // Refinement

  /** The value of this entry is read by the flash search. */
  predicate ReadsValue(rt: RuuviTypes, e: Entry, r: Rev) {
    || (IsId(rt, e) && e.len == HW_REV_NUM_SIZE && !HasNum(r))
    || (IsName(rt, e) && e.len < HW_REV_NAME_SIZE && !HasName(r))
  }

  /** Every read the flash search makes from `off` on lies inside the area and succeeds. */
  ghost predicate ReadsInside(rt: RuuviTypes, area: FlashArea, off: nat, end: nat, r: Rev)
    decreases end - off
  {
    off + TLV_HEADER_SIZE <= end ==>
      && area.ReadOk(off, TLV_HEADER_SIZE)
      && var e := EntryAt(area, off);
      && var h := Handle(rt, e, r);
      && (ReadsValue(rt, e, r) ==> e.value.Some?)
      && (h.ok && !Complete(h.rev) ==> ReadsInside(rt, area, Next(area, off), end, h.rev))
  }

  ghost predicate SameBytes(area: FlashArea, img: FileImage) {
    && area.contents == img.contents
    && img.readFaults == {}
    && img.seekFaults == {}
  }

  /** A read that is not short. */
  lemma ReadWhole(img: FileImage, pos: nat, buf: seq<byte>, len: nat)
    requires len <= |buf| && pos + len <= |img.contents|
    ensures img.Available(pos, len) == len
    ensures img.ReadInto(pos, buf, len) == img.contents[pos..pos + len] + buf[len..]
  {}

  lemma SameHeader(area: FlashArea, img: FileImage, off: nat, tlv: seq<byte>)
    requires SameBytes(area, img) && area.ReadOk(off, TLV_HEADER_SIZE) && |tlv| == TLV_HEADER_SIZE
    ensures img.SeekOk(off) && img.Available(off, TLV_HEADER_SIZE) == TLV_HEADER_SIZE
    ensures img.ReadInto(off, tlv, TLV_HEADER_SIZE) == area.contents[off..off + TLV_HEADER_SIZE]
  {
    ReadWhole(img, off, tlv, TLV_HEADER_SIZE);
    assert tlv[TLV_HEADER_SIZE..] == [];
  }

  /** One entry, with the cursor four bytes past the record's start. */
  lemma SameHandling(rt: RuuviTypes, area: FlashArea, img: FileImage, off: nat, r: Rev)
    requires SameBytes(area, img) && area.ReadOk(off, TLV_HEADER_SIZE)
    requires ReadsValue(rt, EntryAt(area, off), r) ==> EntryAt(area, off).value.Some?
    ensures Handle(rt, EntryAt(area, off), r)
         == HandleAt(rt, img, off + TLV_HEADER_SIZE, area.contents[off..off + TLV_HEADER_SIZE], r)
  {
    var e := EntryAt(area, off);
    if ReadsValue(rt, e, r) {
      var buf := if e.typ == rt.id then [0, 0, 0, 0] else r.name;
      ReadWhole(img, off + 4, buf, e.len);
      if e.typ == rt.id {
        assert e.value.value + buf[e.len..] == e.value.value;
      } else {
        StoreNameByUpdate(r.name, e.value.value);
      }
    }
  }

  lemma {:induction false} SameScan(
    rt: RuuviTypes, area: FlashArea, img: FileImage, off: nat, end: nat, tlv: seq<byte>, r: Rev)
    requires SameBytes(area, img) && |tlv| == TLV_HEADER_SIZE
    requires ReadsInside(rt, area, off, end, r)
    ensures ScanFrom(rt, img, off, end, tlv, r) == Scan(rt, Entries(area, off, end), r)
    decreases end - off
  {
    if off + TLV_HEADER_SIZE <= end {
      SameHeader(area, img, off, tlv);
      SameHandling(rt, area, img, off, r);
      ScanRound(rt, area, off, end, r);
      var h := Handle(rt, EntryAt(area, off), r);
      var hdr := area.contents[off..off + TLV_HEADER_SIZE];
      if h.ok && !Complete(h.rev) {
        SameScan(rt, area, img, Next(area, off), end, hdr, h.rev);
      }
    }
  }

  /** A search that succeeds over flash has made only reads that succeed. */
  lemma {:induction false} SuccessReadsInside(rt: RuuviTypes, area: FlashArea, off: nat, end: nat, r: Rev)
    requires Scan(rt, Entries(area, off, end), r).ok
    ensures ReadsInside(rt, area, off, end, r)
    decreases end - off
  {
    assert off + TLV_HEADER_SIZE <= end;
    ScanRound(rt, area, off, end, r);
    var h := Handle(rt, EntryAt(area, off), r);
    if !Complete(h.rev) {
      SuccessReadsInside(rt, area, Next(area, off), end, h.rev);
    }
  }

  lemma SameStart(area: FlashArea, img: FileImage)
    requires SameBytes(area, img) && area.LoadedEnd().Some?
    ensures FileImageEnd(img) == area.LoadedEnd()
  {}

  lemma SameTotal(area: FlashArea, img: FileImage, start: nat)
    requires SameBytes(area, img) && area.ReadOk(start, TLV_HEADER_SIZE)
    ensures FileTotal(img, start) == ProtectedTotal(area, start)
  {
    SameHeader(area, img, start, [0, 0, 0, 0]);
  }

  /** All reads of the flash search: image header, TLV info header, records and values. */
  ghost predicate TouchesInside(rt: RuuviTypes, area: FlashArea, r: Rev) {
    && area.LoadedEnd().Some?
    && TouchesInsideFrom(rt, area, area.LoadedEnd().value, r)
  }

  ghost predicate TouchesInsideFrom(rt: RuuviTypes, area: FlashArea, start: u32, r: Rev) {
    && area.ReadOk(start, TLV_HEADER_SIZE)
    && match ProtectedTotal(area, start)
       case None => true
       case Some(tot) => ReadsInside(rt, area, start + 4, start + 4 + tot, r)
  }

  /**
   * The cursor-based search returns what the offset-based one does and leaves the same ID and the same
   * sixteen name bytes, found or not found, when every read of the latter is inside the area.
   */
  lemma FileRefinesFlash(rt: RuuviTypes, area: FlashArea, img: FileImage, r: Rev)
    requires SameBytes(area, img) && TouchesInside(rt, area, Clear(r))
    ensures FindInFileImage(rt, img, r) == FindInFlash(rt, area, Clear(r))
  {
    SameStart(area, img);
    SameFrom(rt, area, img, area.LoadedEnd().value, Clear(r));
  }

  lemma FlashFromTotal(rt: RuuviTypes, area: FlashArea, start: u32, tot: u16, first: nat, end: nat, r: Rev)
    requires ProtectedTotal(area, start) == Some(tot) && first == start + 4 && end == first + tot
    ensures FindInFlashFrom(rt, area, start, r) == Scan(rt, Entries(area, first, end), r)
  {}

  lemma SameFrom(rt: RuuviTypes, area: FlashArea, img: FileImage, start: u32, r: Rev)
    requires SameBytes(area, img) && TouchesInsideFrom(rt, area, start, r)
    ensures FindInFileFrom(rt, img, start, r) == FindInFlashFrom(rt, area, start, r)
  {
    SameTotal(area, img, start);
    match ProtectedTotal(area, start)
    case None =>
    case Some(tot) =>
      var first, end := start + 4, start + 4 + tot;
      SameScan(rt, area, img, first, end, [0, 0, 0, 0], r);
      FileFromTotal(rt, img, start, tot, first, end, r);
      FlashFromTotal(rt, area, start, tot, first, end, r);
  }

  lemma SuccessTouchesInside(rt: RuuviTypes, area: FlashArea, start: u32, r: Rev)
    requires FindInFlashFrom(rt, area, start, r).ok
    ensures TouchesInsideFrom(rt, area, start, r)
  {
    match ProtectedTotal(area, start)
    case None =>
    case Some(tot) => SuccessReadsInside(rt, area, start + 4, start + 4 + tot, r);
  }

  /** What the flash search finds, the file search finds: here no condition on the offsets is needed. */
  lemma FlashSuccessCarriesOver(rt: RuuviTypes, area: FlashArea, img: FileImage, r: Rev)
    requires SameBytes(area, img) && FindInFlash(rt, area, Clear(r)).ok
    ensures FindInFileImage(rt, img, r) == FindInFlash(rt, area, Clear(r))
  {
    SuccessTouchesInside(rt, area, area.LoadedEnd().value, Clear(r));
    FileRefinesFlash(rt, area, img, r);
  }

  // Short reads

  /** The name buffer holds a NUL whatever the file holds, also after a short read. */
  lemma {:induction false} ScanFromTerminated(
    rt: RuuviTypes, img: FileImage, off: nat, end: nat, tlv: seq<byte>, r: Rev)
    requires |tlv| == TLV_HEADER_SIZE && 0 in r.name
    ensures 0 in ScanFrom(rt, img, off, end, tlv, r).rev.name
    decreases end - off
  {
    if off + TLV_HEADER_SIZE <= end {
      var round := FileRound(rt, img, off, tlv, r);
      RoundTerminated(rt, img, off, tlv, r);
      FileStep(rt, img, off, end, tlv, r, round.outcome, off + TLV_HEADER_SIZE + TlvLen(round.tlv), round.tlv);
      if round.outcome.ok && !Complete(round.outcome.rev) {
        ScanFromTerminated(rt, img, off + TLV_HEADER_SIZE + TlvLen(round.tlv), end, round.tlv, round.outcome.rev);
      }
    }
  }

  lemma RoundTerminated(rt: RuuviTypes, img: FileImage, off: nat, tlv: seq<byte>, r: Rev)
    requires |tlv| == TLV_HEADER_SIZE && 0 in r.name
    ensures 0 in FileRound(rt, img, off, tlv, r).outcome.rev.name
  {
    var len, pos := TlvLen(FileRound(rt, img, off, tlv, r).tlv), off + img.Available(off, TLV_HEADER_SIZE);
    if len < HW_REV_NAME_SIZE {
      assert img.ReadInto(pos, r.name, len)[len := 0][len] == 0;
    }
  }

  lemma FileTerminated(rt: RuuviTypes, img: FileImage, r: Rev)
    ensures 0 in FindInFileImage(rt, img, r).rev.name
  {
    assert Clear(r).name[0] == 0;
    match FileImageEnd(img)
    case None =>
    case Some(start) => FileFromTerminated(rt, img, start, Clear(r));
  }

  lemma FileFromTerminated(rt: RuuviTypes, img: FileImage, start: u32, r: Rev)
    requires 0 in r.name
    ensures 0 in FindInFileFrom(rt, img, start, r).rev.name
  {
    match FileTotal(img, start)
    case None =>
    case Some(tot) => ScanFromTerminated(rt, img, start + 4, start + 4 + tot, [0, 0, 0, 0], r);
  }
}
