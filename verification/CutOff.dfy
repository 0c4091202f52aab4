/**
 * Where the search over a file and the search over flash part: exactly at a wanted value that the end of the
 * image cuts short. The one rejects it, the other takes the bytes it gets.
 */
module CutOff {
  import opened Bytes
  import opened TlvScan
  import opened FlashScan
  import opened FileScan
  import opened TlvTheorems

  /** The same ID and the same name string. */
  predicate SameContents(a: Rev, b: Rev) {
    a.num == b.num && CStr(a.name) == CStr(b.name)
  }

  predicate Same(a: Outcome, b: Outcome) {
    a.ok == b.ok && SameContents(a.rev, b.rev)
  }

  /** What the file search makes of the bytes that are left of a value at `pos`. */
  function Remains(rt: RuuviTypes, img: FileImage, pos: nat, e: Entry, r: Rev): Rev
    requires e.Entry?
    requires IsId(rt, e) ==> e.len == HW_REV_NUM_SIZE
    requires IsName(rt, e) ==> e.len < HW_REV_NAME_SIZE
  {
    if IsId(rt, e) then r.(num := Be32(img.ReadInto(pos, [0, 0, 0, 0], e.len)))
    else if IsName(rt, e) then r.(name := img.ReadInto(pos, r.name, e.len)[e.len := 0])
    else r
  }

  /**
   * The flash search reaches a value that it wants and cannot read, and what is left of the value is a nonzero
   * ID or a nonempty name: the structure with that in it.
   */
  function CutShort(rt: RuuviTypes, area: FlashArea, img: FileImage, off: nat, end: nat, r: Rev): Option<Rev>
    decreases end - off
  {
    if off + TLV_HEADER_SIZE > end || !area.ReadOk(off, TLV_HEADER_SIZE) then None
    else
      var e := EntryAt(area, off);
      if ReadsValue(rt, e, r) && e.value.None? then
        var rest := Remains(rt, img, off + TLV_HEADER_SIZE, e, r);
        if SameContents(rest, r) then None else Some(rest)
      else
        var h := Handle(rt, e, r);
        if !h.ok || Complete(h.rev) then None
        else CutShort(rt, area, img, Next(area, off), end, h.rev)
  }

  // Past the end

  lemma NoBytes(img: FileImage, pos: nat, buf: seq<byte>, len: nat)
    requires pos >= |img.contents| && len <= |buf|
    ensures img.ReadInto(pos, buf, len) == buf
  {}

  /** A round at the end of the file or past it changes nothing that shows, whatever the stale header says. */
  lemma PastEndRound(rt: RuuviTypes, img: FileImage, off: nat, tlv: seq<byte>, r: Rev)
    requires |tlv| == TLV_HEADER_SIZE
    requires off + TLV_HEADER_SIZE > |img.contents| || off >= OFF_T_LIMIT
    ensures SameContents(FileRound(rt, img, off, tlv, r).outcome.rev, r)
  {
    if off >= OFF_T_LIMIT {
      return;
    }
    var n := img.Available(off, TLV_HEADER_SIZE);
    var tlv' := img.ReadInto(off, tlv, TLV_HEADER_SIZE);
    var len := TlvLen(tlv');
    if TlvType(tlv') == rt.id && len == HW_REV_NUM_SIZE {
      NoBytes(img, off + n, [0, 0, 0, 0], len);
    } else if TlvType(tlv') == rt.name && len < HW_REV_NAME_SIZE {
      NoBytes(img, off + n, r.name, len);
    }
  }

  lemma SameHas(a: Rev, b: Rev)
    requires SameContents(a, b)
    ensures (HasNum(a) <==> HasNum(b)) && (HasName(a) <==> HasName(b))
  {}

  /** Where no record header fits any more, the file search finds nothing and leaves what it has. */
  lemma {:induction false} PastEnd(
    rt: RuuviTypes, img: FileImage, off: nat, end: nat, tlv: seq<byte>, r: Rev)
    requires |tlv| == TLV_HEADER_SIZE && !Complete(r)
    requires off + TLV_HEADER_SIZE > |img.contents| || off >= OFF_T_LIMIT
    ensures !ScanFrom(rt, img, off, end, tlv, r).ok
    ensures SameContents(ScanFrom(rt, img, off, end, tlv, r).rev, r)
    decreases end - off
  {
    if off + TLV_HEADER_SIZE <= end {
      var round := FileRound(rt, img, off, tlv, r);
      var h, hdr := round.outcome, round.tlv;
      var next := off + TLV_HEADER_SIZE + TlvLen(hdr);
      FileStep(rt, img, off, end, tlv, r, h, next, hdr);
      PastEndRound(rt, img, off, tlv, r);
      SameHas(h.rev, r);
      if h.ok {
        PastEnd(rt, img, next, end, hdr, h.rev);
      }
    }
  }

  /** How two results compare, given what is cut short. */
  predicate Compared(found: Outcome, flash: Outcome, cut: Option<Rev>) {
    match cut
    case None => Same(found, flash)
    case Some(rest) =>
      && !flash.ok && (found.ok <==> Complete(rest))
      && SameContents(found.rev, rest) && !SameContents(flash.rev, rest)
  }

  // The two loops

  /** A fault-free area and a file with its bytes. */
  ghost predicate SameHealthy(area: FlashArea, img: FileImage) {
    SameBytes(area, img) && area.faults == {}
  }

  /** A round at a wanted value that is cut short. */
  lemma RemainsRound(rt: RuuviTypes, area: FlashArea, img: FileImage, off: nat, tlv: seq<byte>, r: Rev, e: Entry)
    requires SameBytes(area, img) && |tlv| == TLV_HEADER_SIZE && area.ReadOk(off, TLV_HEADER_SIZE)
    requires EntryAt(area, off) == e && ReadsValue(rt, e, r)
    ensures FileRound(rt, img, off, tlv, r)
         == Round(Outcome(true, Remains(rt, img, off + TLV_HEADER_SIZE, e, r)),
                  area.contents[off..off + TLV_HEADER_SIZE])
  {
    SameHeader(area, img, off, tlv);
  }

  /** The file search at such a value. */
  lemma TakesRemains(
    rt: RuuviTypes, area: FlashArea, img: FileImage, off: nat, end: nat, tlv: seq<byte>, r: Rev, e: Entry, rest: Rev)
    requires SameHealthy(area, img) && |tlv| == TLV_HEADER_SIZE && !Complete(r)
    requires off + TLV_HEADER_SIZE <= end && area.ReadOk(off, TLV_HEADER_SIZE)
    requires EntryAt(area, off) == e && ReadsValue(rt, e, r) && e.value.None?
    requires rest == Remains(rt, img, off + TLV_HEADER_SIZE, e, r)
    ensures ScanFrom(rt, img, off, end, tlv, r).ok <==> Complete(rest)
    ensures SameContents(ScanFrom(rt, img, off, end, tlv, r).rev, rest)
  {
    var hdr := area.contents[off..off + TLV_HEADER_SIZE];
    var next := off + TLV_HEADER_SIZE + TlvLen(hdr);
    RemainsRound(rt, area, img, off, tlv, r, e);
    FileStep(rt, img, off, end, tlv, r, Outcome(true, rest), next, hdr);
    if !Complete(rest) {
      assert next > |img.contents| || next >= OFF_T_LIMIT;
      PastEnd(rt, img, next, end, hdr, rest);
    }
  }

  /** A round in which every read of the flash search succeeds. */
  lemma SameRound(rt: RuuviTypes, area: FlashArea, img: FileImage, off: nat, tlv: seq<byte>, r: Rev)
    requires SameBytes(area, img) && |tlv| == TLV_HEADER_SIZE && area.ReadOk(off, TLV_HEADER_SIZE)
    requires ReadsValue(rt, EntryAt(area, off), r) ==> EntryAt(area, off).value.Some?
    ensures FileRound(rt, img, off, tlv, r)
         == Round(Handle(rt, EntryAt(area, off), r), area.contents[off..off + TLV_HEADER_SIZE])
  {
    SameHeader(area, img, off, tlv);
    SameHandling(rt, area, img, off, r);
  }

  lemma CutShortStep(
    rt: RuuviTypes, area: FlashArea, img: FileImage, off: nat, end: nat, r: Rev, h: Outcome, next: nat)
    requires off + TLV_HEADER_SIZE <= end && area.ReadOk(off, TLV_HEADER_SIZE)
    requires ReadsValue(rt, EntryAt(area, off), r) ==> EntryAt(area, off).value.Some?
    requires h == Handle(rt, EntryAt(area, off), r) && next == Next(area, off)
    ensures h.ok && !Complete(h.rev) ==>
      CutShort(rt, area, img, off, end, r) == CutShort(rt, area, img, next, end, h.rev)
    ensures !h.ok || Complete(h.rev) ==> CutShort(rt, area, img, off, end, r) == None
  {}

  lemma ComparedAtCut(
    rt: RuuviTypes, area: FlashArea, img: FileImage, off: nat, end: nat, tlv: seq<byte>, r: Rev)
    requires SameHealthy(area, img) && |tlv| == TLV_HEADER_SIZE && !Complete(r)
    requires off + TLV_HEADER_SIZE <= end && area.ReadOk(off, TLV_HEADER_SIZE)
    requires ReadsValue(rt, EntryAt(area, off), r) && EntryAt(area, off).value.None?
    ensures Compared(
      ScanFrom(rt, img, off, end, tlv, r), Scan(rt, Entries(area, off, end), r), CutShort(rt, area, img, off, end, r))
  {
    var e := EntryAt(area, off);
    var rest := Remains(rt, img, off + TLV_HEADER_SIZE, e, r);
    TakesRemains(rt, area, img, off, end, tlv, r, e, rest);
    ScanRound(rt, area, off, end, r);
    assert CutShort(rt, area, img, off, end, r) == if SameContents(rest, r) then None else Some(rest);
    assert Scan(rt, Entries(area, off, end), r) == Outcome(false, r);
    if SameContents(rest, r) {
      SameHas(rest, r);
    }
  }

  lemma ComparedPastEnd(
    rt: RuuviTypes, area: FlashArea, img: FileImage, off: nat, end: nat, tlv: seq<byte>, r: Rev)
    requires SameHealthy(area, img) && |tlv| == TLV_HEADER_SIZE && !Complete(r)
    requires off + TLV_HEADER_SIZE > end || !area.ReadOk(off, TLV_HEADER_SIZE)
    ensures Compared(
      ScanFrom(rt, img, off, end, tlv, r), Scan(rt, Entries(area, off, end), r), CutShort(rt, area, img, off, end, r))
  {
    if off + TLV_HEADER_SIZE <= end {
      PastEnd(rt, img, off, end, tlv, r);
      ScanRound(rt, area, off, end, r);
    }
  }

  /** Loop against loop, on every content: the file search departs from the flash search at CutShort. */
  lemma {:induction false} LoopsCompared(
    rt: RuuviTypes, area: FlashArea, img: FileImage, off: nat, end: nat, tlv: seq<byte>, r: Rev)
    requires SameHealthy(area, img) && |tlv| == TLV_HEADER_SIZE && !Complete(r)
    ensures Compared(
      ScanFrom(rt, img, off, end, tlv, r), Scan(rt, Entries(area, off, end), r), CutShort(rt, area, img, off, end, r))
    decreases end - off
  {
    if off + TLV_HEADER_SIZE > end || !area.ReadOk(off, TLV_HEADER_SIZE) {
      ComparedPastEnd(rt, area, img, off, end, tlv, r);
    } else if ReadsValue(rt, EntryAt(area, off), r) && EntryAt(area, off).value.None? {
      ComparedAtCut(rt, area, img, off, end, tlv, r);
    } else {
      var h, next := Handle(rt, EntryAt(area, off), r), Next(area, off);
      var hdr := area.contents[off..off + TLV_HEADER_SIZE];
      SameRound(rt, area, img, off, tlv, r);
      FileStep(rt, img, off, end, tlv, r, h, next, hdr);
      FlashStep(rt, area, off, end, r, h, next);
      CutShortStep(rt, area, img, off, end, r, h, next);
      if h.ok && !Complete(h.rev) {
        LoopsCompared(rt, area, img, next, end, hdr, h.rev);
      }
    }
  }

  lemma Be32Nonzero(s: seq<byte>)
    requires |s| == 4
    ensures Be32(s) != 0 <==> exists i | 0 <= i < 4 :: s[i] != 0
  {
    if Be32(s) != 0 {
      assert s[0] != 0 || s[1] != 0 || s[2] != 0 || s[3] != 0;
    }
  }

  lemma IdShows(img: FileImage, pos: nat)
    ensures Be32(img.ReadInto(pos, [0, 0, 0, 0], HW_REV_NUM_SIZE)) != 0
       <==> exists k | pos <= k < pos + HW_REV_NUM_SIZE && k < |img.contents| :: img.contents[k] != 0
  {
    var n, buf := img.Available(pos, HW_REV_NUM_SIZE), img.ReadInto(pos, [0, 0, 0, 0], HW_REV_NUM_SIZE);
    assert forall i | 0 <= i < 4 :: buf[i] == if i < n then img.contents[pos + i] else 0;
    Be32Nonzero(buf);
    if k :| pos <= k < pos + HW_REV_NUM_SIZE && k < |img.contents| && img.contents[k] != 0 {
      assert buf[k - pos] != 0;
    }
  }

  lemma NameShows(img: FileImage, pos: nat, len: nat, name: seq<byte>)
    requires len < |name| && name[0] == 0
    ensures CStr(name) == []
    ensures CStr(img.ReadInto(pos, name, len)[len := 0]) != []
       <==> len > 0 && pos < |img.contents| && img.contents[pos] != 0
  {
    var n := img.Available(pos, len);
    assert img.ReadInto(pos, name, len)[0] == if n > 0 then img.contents[pos] else name[0];
  }

  /** What shows of the remains, in bytes: any nonzero byte of an ID, a nonzero first byte of a name. */
  lemma RemainsExactly(rt: RuuviTypes, img: FileImage, pos: nat, e: Entry, r: Rev)
    requires ReadsValue(rt, e, r)
    ensures IsId(rt, e) ==>
      (!SameContents(Remains(rt, img, pos, e, r), r)
       <==> exists k | pos <= k < pos + HW_REV_NUM_SIZE && k < |img.contents| :: img.contents[k] != 0)
    ensures IsName(rt, e) ==>
      (!SameContents(Remains(rt, img, pos, e, r), r)
       <==> e.len > 0 && pos < |img.contents| && img.contents[pos] != 0)
    ensures !SameContents(Remains(rt, img, pos, e, r), r) ==>
      (Complete(Remains(rt, img, pos, e, r)) <==> if IsId(rt, e) then HasName(r) else HasNum(r))
  {
    if IsId(rt, e) {
      IdShows(img, pos);
    } else {
      NameShows(img, pos, e.len, r.name);
    }
  }

  /** One family: a nonempty name cut off by the end of the file, with the ID already found. */
  lemma CutOffNameParts(rt: RuuviTypes, area: FlashArea, img: FileImage, off: nat, end: nat, tlv: seq<byte>, r: Rev)
    requires SameBytes(area, img) && |tlv| == TLV_HEADER_SIZE && HasNum(r) && !HasName(r)
    requires off + TLV_HEADER_SIZE <= end && area.ReadOk(off, TLV_HEADER_SIZE)
    requires IsName(rt, EntryAt(area, off)) && EntryAt(area, off).len < HW_REV_NAME_SIZE
    requires off + TLV_HEADER_SIZE < |area.contents| < Next(area, off)
    requires area.contents[off + TLV_HEADER_SIZE] != 0
    ensures !Scan(rt, Entries(area, off, end), r).ok
    ensures ScanFrom(rt, img, off, end, tlv, r).ok
  {
    ScanRound(rt, area, off, end, r);
    SameHeader(area, img, off, tlv);
    var e := EntryAt(area, off);
    assert img.Available(off + 4, e.len) > 0;
    var name := img.ReadInto(off + 4, r.name, e.len)[e.len := 0];
    assert name[0] == area.contents[off + 4];
    var round := FileRound(rt, img, off, tlv, r);
    FileStep(rt, img, off, end, tlv, r, round.outcome, off + TLV_HEADER_SIZE + TlvLen(round.tlv), round.tlv);
  }

  /** The other: an ID of which at least one nonzero byte is left, with the name already found. */
  lemma CutOffIdParts(rt: RuuviTypes, area: FlashArea, img: FileImage, off: nat, end: nat, tlv: seq<byte>, r: Rev)
    requires SameBytes(area, img) && |tlv| == TLV_HEADER_SIZE && !HasNum(r) && HasName(r)
    requires off + TLV_HEADER_SIZE <= end && area.ReadOk(off, TLV_HEADER_SIZE)
    requires IsId(rt, EntryAt(area, off)) && EntryAt(area, off).len == HW_REV_NUM_SIZE
    requires off + TLV_HEADER_SIZE < |area.contents| < Next(area, off)
    requires area.contents[off + TLV_HEADER_SIZE] != 0
    ensures !Scan(rt, Entries(area, off, end), r).ok
    ensures ScanFrom(rt, img, off, end, tlv, r).ok && ScanFrom(rt, img, off, end, tlv, r).rev.num >= 0x100_0000
  {
    ScanRound(rt, area, off, end, r);
    SameHeader(area, img, off, tlv);
    assert img.Available(off + 4, 4) > 0;
    var buf := img.ReadInto(off + 4, [0, 0, 0, 0], 4);
    assert buf[0] == area.contents[off + 4];
    var round := FileRound(rt, img, off, tlv, r);
    FileStep(rt, img, off, end, tlv, r, round.outcome, off + TLV_HEADER_SIZE + TlvLen(round.tlv), round.tlv);
  }

  // The two searches

  /** CutShort over the protected TLVs of an image, if it has any. */
  function CutShortFrom(rt: RuuviTypes, area: FlashArea, img: FileImage, start: u32, r: Rev): Option<Rev> {
    match ProtectedTotal(area, start)
    case None => None
    case Some(tot) => CutShort(rt, area, img, start + 4, start + 4 + tot, r)
  }

  lemma CutShortFromTotal(
    rt: RuuviTypes, area: FlashArea, img: FileImage, start: u32, tot: u16, first: nat, end: nat, r: Rev)
    requires ProtectedTotal(area, start) == Some(tot) && first == start + 4 && end == first + tot
    ensures CutShortFrom(rt, area, img, start, r) == CutShort(rt, area, img, first, end, r)
  {}

  function CutShortIn(rt: RuuviTypes, area: FlashArea, img: FileImage, r: Rev): Option<Rev> {
    match area.LoadedEnd()
    case None => None
    case Some(start) => CutShortFrom(rt, area, img, start, r)
  }

  /** Without an info header inside the image, neither search finds anything. */
  lemma NoInfoHeader(rt: RuuviTypes, area: FlashArea, img: FileImage, start: u32, r: Rev)
    requires SameHealthy(area, img) && !Complete(r) && !area.ReadOk(start, TLV_HEADER_SIZE)
    ensures !FindInFileFrom(rt, img, start, r).ok && SameContents(FindInFileFrom(rt, img, start, r).rev, r)
  {
    match FileTotal(img, start)
    case None =>
      assert FindInFileFrom(rt, img, start, r) == Outcome(false, r);
    case Some(tot) =>
      var first, end := start + 4, start + 4 + tot;
      FileFromTotal(rt, img, start, tot, first, end, r);
      PastEnd(rt, img, first, end, [0, 0, 0, 0], r);
  }

  lemma FromCompared(rt: RuuviTypes, area: FlashArea, img: FileImage, start: u32, r: Rev)
    requires SameHealthy(area, img) && !Complete(r)
    ensures Compared(
      FindInFileFrom(rt, img, start, r), FindInFlashFrom(rt, area, start, r), CutShortFrom(rt, area, img, start, r))
  {
    if !area.ReadOk(start, TLV_HEADER_SIZE) {
      NoInfoHeader(rt, area, img, start, r);
    } else {
      SameTotal(area, img, start);
      match ProtectedTotal(area, start)
      case None =>
      case Some(tot) =>
        var first, end := start + 4, start + 4 + tot;
        FileFromTotal(rt, img, start, tot, first, end, r);
        FlashFromTotal(rt, area, start, tot, first, end, r);
        CutShortFromTotal(rt, area, img, start, tot, first, end, r);
        LoopsCompared(rt, area, img, first, end, [0, 0, 0, 0], r);
    }
  }

  lemma SearchesCompared(rt: RuuviTypes, area: FlashArea, img: FileImage, r: Rev)
    requires SameHealthy(area, img) && area.headerAccepted
    ensures Compared(
      FindInFileImage(rt, img, r), FindInFlash(rt, area, Clear(r)), CutShortIn(rt, area, img, Clear(r)))
  {
    match area.LoadedEnd()
    case None =>
      assert |area.contents| < IMAGE_HEADER_SIZE;
    case Some(start) =>
      SameStart(area, img);
      FromCompared(rt, area, img, start, Clear(r));
  }

  /**
   * For every image whose header is accepted, and without I/O errors: the two searches return the same and
   * leave the same ID and name if and only if no wanted value is cut short; and the file search succeeds if
   * and only if the flash search does or the remains of a value complete the pair.
   */
  lemma SearchesAgreeExactly(rt: RuuviTypes, area: FlashArea, img: FileImage, r: Rev)
    requires SameHealthy(area, img) && area.headerAccepted
    ensures var found, flash := FindInFileImage(rt, img, r), FindInFlash(rt, area, Clear(r));
      var cut := CutShortIn(rt, area, img, Clear(r));
      && (Same(found, flash) <==> cut.None?)
      && (found.ok <==> flash.ok || (cut.Some? && Complete(cut.value)))
  {
    SearchesCompared(rt, area, img, r);
  }

  // Images that end too early

  /** The TLV header of t. */
  function HeadOf(t: Tlv): (s: seq<byte>)
    ensures |s| == TLV_HEADER_SIZE
  {
    Le16Bytes(t.typ) + Le16Bytes(|t.payload|)
  }

  /** The area ends with an info header for two protected TLVs, the first of them, and a part of the second. */
  predicate EndsWithin(area: FlashArea, start: nat, first: Tlv, second: Tlv, part: seq<byte>) {
    && |part| < |second.payload| && |TlvBytes(first)| + |TlvBytes(second)| + 4 < 0x1_0000
    && At(area.contents, start,
          InfoHeader(IMAGE_TLV_PROT_INFO_MAGIC, |TlvBytes(first)| + |TlvBytes(second)| + 4))
    && At(area.contents, start + 4, TlvBytes(first))
    && At(area.contents, start + 4 + |TlvBytes(first)|, HeadOf(second) + part)
    && start + 4 + |TlvBytes(first)| + 4 + |part| == |area.contents|
  }

  lemma DecodeCutShort(area: FlashArea, off: nat, t: Tlv, part: seq<byte>)
    requires Healthy(area) && At(area.contents, off, HeadOf(t) + part)
    requires |part| < |t.payload| && off + TLV_HEADER_SIZE + |part| == |area.contents|
    ensures EntryAt(area, off) == Entry(t.typ, |t.payload|, None)
  {
    AtSplit(area.contents, off, HeadOf(t), part);
    DecodeHeader(t.typ, |t.payload|, HeadOf(t));
  }

  /** What the flash search decodes there. */
  lemma DecodeTwoCutShort(area: FlashArea, start: nat, first: Tlv, second: Tlv, part: seq<byte>)
    requires Healthy(area) && EndsWithin(area, start, first, second, part)
    ensures ProtectedTotal(area, start) == Some(|TlvBytes(first)| + |TlvBytes(second)| + 4)
    ensures EntryAt(area, start + 4) == EntryOf(first) && Next(area, start + 4) == start + 4 + |TlvBytes(first)|
    ensures EntryAt(area, start + 4 + |TlvBytes(first)|) == Entry(second.typ, |second.payload|, None)
  {
    TotalOfImage(area, start, |TlvBytes(first)| + |TlvBytes(second)| + 4);
    DecodeTlv(area, start + 4, first);
    DecodeCutShort(area, start + 4 + |TlvBytes(first)|, second, part);
  }

  /** An area with one record that is handled and one that is cut short. */
  lemma CutShortAfter(
    rt: RuuviTypes, area: FlashArea, img: FileImage, start: u32, tot: u16, next: nat, r: Rev,
    d: Entry, h: Outcome, e: Entry, rest: Rev)
    requires SameBytes(area, img) && ProtectedTotal(area, start) == Some(tot)
    requires start + 4 + TLV_HEADER_SIZE <= next && next + TLV_HEADER_SIZE <= start + 4 + tot
    requires EntryAt(area, start + 4) == d && d.Entry? && d.value.Some? && next == Next(area, start + 4)
    requires h == Handle(rt, d, r) && h.ok && !Complete(h.rev)
    requires EntryAt(area, next) == e && e.Entry? && e.value.None?
    requires ReadsValue(rt, e, h.rev) && !SameContents(rest, h.rev)
    requires rest == Remains(rt, img, next + TLV_HEADER_SIZE, e, h.rev)
    ensures CutShortFrom(rt, area, img, start, r) == Some(rest)
  {
    var off, end := start + 4, start + 4 + tot;
    CutShortFromTotal(rt, area, img, start, tot, off, end, r);
    assert CutShort(rt, area, img, next, end, h.rev) == Some(rest);
    CutShortStep(rt, area, img, off, end, r, h, next);
  }

  /** The area, and a file with the same bytes, hold such an image; boot_image_load_header accepts it. */
  ghost predicate HoldsCutShort(
    area: FlashArea, img: FileImage, start: u32, first: Tlv, second: Tlv, part: seq<byte>)
  {
    && Healthy(area) && SameBytes(area, img) && area.headerAccepted
    && |area.contents| >= IMAGE_HEADER_SIZE && AnnouncedEnd(area.contents) == start
    && EndsWithin(area, start, first, second, part)
  }

  lemma StartOfCutShort(
    area: FlashArea, img: FileImage, start: u32, first: Tlv, second: Tlv, part: seq<byte>)
    requires HoldsCutShort(area, img, start, first, second, part)
    ensures area.LoadedEnd() == Some(start)
  {
    LoadedEndInBytes(area);
  }

  lemma SearchesCutShort(rt: RuuviTypes, area: FlashArea, img: FileImage, start: u32, r: Rev, rest: Rev)
    requires SameHealthy(area, img) && area.headerAccepted && area.LoadedEnd() == Some(start)
    requires CutShortFrom(rt, area, img, start, Clear(r)) == Some(rest)
    ensures !FindInFlash(rt, area, Clear(r)).ok
    ensures FindInFileImage(rt, img, r).ok <==> Complete(rest)
    ensures SameContents(FindInFileImage(rt, img, r).rev, rest)
  {
    SearchesCompared(rt, area, img, r);
  }

  /** What the two searches make of it. */
  lemma CutShortFound(
    rt: RuuviTypes, area: FlashArea, img: FileImage, start: u32, first: Tlv, second: Tlv, part: seq<byte>,
    r: Rev, h: Outcome, e: Entry, pos: nat, rest: Rev)
    requires HoldsCutShort(area, img, start, first, second, part)
    requires h == Handle(rt, EntryOf(first), Clear(r)) && h.ok && !Complete(h.rev)
    requires e == Entry(second.typ, |second.payload|, None) && ReadsValue(rt, e, h.rev)
    requires pos == start + 4 + |TlvBytes(first)| + TLV_HEADER_SIZE
    requires rest == Remains(rt, img, pos, e, h.rev) && !SameContents(rest, h.rev)
    ensures !FindInFlash(rt, area, Clear(r)).ok
    ensures FindInFileImage(rt, img, r).ok <==> Complete(rest)
    ensures SameContents(FindInFileImage(rt, img, r).rev, rest)
  {
    var next, tot := start + 4 + |TlvBytes(first)|, |TlvBytes(first)| + |TlvBytes(second)| + 4;
    DecodeTwoCutShort(area, start, first, second, part);
    assert EntryAt(area, next) == e;
    CutShortAfter(rt, area, img, start, tot, next, Clear(r), EntryOf(first), h, e, rest);
    StartOfCutShort(area, img, start, first, second, part);
    SearchesCutShort(rt, area, img, start, r, rest);
  }

  /** The bytes that are left, over what the buffer held. */
  lemma PartRead(img: FileImage, pos: nat, part: seq<byte>, buf: seq<byte>, len: nat)
    requires |part| < len <= |buf| && At(img.contents, pos, part) && pos + |part| == |img.contents|
    ensures img.ReadInto(pos, buf, len) == part + buf[|part|..]
  {}

  lemma PartAt(
    area: FlashArea, img: FileImage, start: u32, first: Tlv, second: Tlv, part: seq<byte>, pos: nat)
    requires HoldsCutShort(area, img, start, first, second, part)
    requires pos == start + 4 + |TlvBytes(first)| + TLV_HEADER_SIZE
    ensures At(img.contents, pos, part) && pos + |part| == |img.contents|
  {
    AtSplit(area.contents, start + 4 + |TlvBytes(first)|, HeadOf(second), part);
  }

  /**
   * A name cut short after an ID: the flash search fails, and the file search returns what is left of the
   * name, followed by what the buffer held before.
   */
  lemma NameCutShort(
    rt: RuuviTypes, area: FlashArea, img: FileImage, start: u32, num: u32, name: seq<byte>, part: seq<byte>, r: Rev)
    requires |name| < HW_REV_NAME_SIZE && [] < part < name && part[0] != 0 && num != 0
    requires HoldsCutShort(area, img, start, RawTlv(rt.id, Be32Bytes(num)), RawTlv(rt.name, name), part)
    ensures !FindInFlash(rt, area, Clear(r)).ok
    ensures var found := FindInFileImage(rt, img, r);
      && found.ok && found.rev.num == num
      && CStr(found.rev.name) == CStr((part + r.name[|part|..])[|name| := 0])
  {
    var id: Tlv, nm: Tlv := RawTlv(rt.id, Be32Bytes(num)), RawTlv(rt.name, name);
    var h, e: Entry := Handle(rt, EntryOf(id), Clear(r)), Entry(rt.name, |name|, None);
    var pos := start + 4 + |TlvBytes(id)| + TLV_HEADER_SIZE;
    PartAt(area, img, start, id, nm, part, pos);
    PartRead(img, pos, part, h.rev.name, |name|);
    assert Clear(r).name[|part|..] == r.name[|part|..];
    CutShortFound(rt, area, img, start, id, nm, part, r, h, e, pos, Remains(rt, img, pos, e, h.rev));
  }

  lemma IdRemains(rt: RuuviTypes, img: FileImage, pos: nat, part: seq<byte>, e: Entry, h: Rev, got: u32)
    requires IsId(rt, e) && e.len == HW_REV_NUM_SIZE && |part| < HW_REV_NUM_SIZE
    requires At(img.contents, pos, part) && pos + |part| == |img.contents|
    requires got == Be32(part + [0, 0, 0, 0][|part|..])
    ensures Remains(rt, img, pos, e, h) == h.(num := got)
  {
    PartRead(img, pos, part, [0, 0, 0, 0], HW_REV_NUM_SIZE);
  }

  /** The structure after a record with a name. */
  lemma NameHandled(rt: RuuviTypes, name: seq<byte>, r: Rev, h: Outcome)
    requires Cleared(r) && 0 < |name| < HW_REV_NAME_SIZE && name[0] != 0
    requires h == Handle(rt, EntryOf(RawTlv(rt.name, name)), r)
    ensures h.ok && h.rev.num == 0 && HasName(h.rev) && CStr(h.rev.name) == CStr(name)
  {
    StoreNameString(r.name, name);
  }

  /**
   * An ID cut short after a name: the flash search fails, and the file search returns an ID of what is left
   * and zeros.
   */
  lemma IdCutShort(
    rt: RuuviTypes, area: FlashArea, img: FileImage, start: u32, num: u32, name: seq<byte>, part: seq<byte>,
    got: u32, r: Rev)
    requires 0 < |name| < HW_REV_NAME_SIZE && name[0] != 0 && part < Be32Bytes(num)
    requires got == Be32(part + [0, 0, 0, 0][|part|..]) && got != 0
    requires HoldsCutShort(area, img, start, RawTlv(rt.name, name), RawTlv(rt.id, Be32Bytes(num)), part)
    ensures !FindInFlash(rt, area, Clear(r)).ok
    ensures var found := FindInFileImage(rt, img, r);
      found.ok && found.rev.num == got && CStr(found.rev.name) == CStr(name)
  {
    var id: Tlv, nm: Tlv := RawTlv(rt.id, Be32Bytes(num)), RawTlv(rt.name, name);
    var h, e: Entry := Handle(rt, EntryOf(nm), Clear(r)), Entry(rt.id, HW_REV_NUM_SIZE, None);
    var pos := start + 4 + |TlvBytes(nm)| + TLV_HEADER_SIZE;
    NameHandled(rt, name, Clear(r), h);
    PartAt(area, img, start, nm, id, part, pos);
    IdRemains(rt, img, pos, part, e, h.rev, got);
    CutShortFound(rt, area, img, start, nm, id, part, r, h, e, pos, h.rev.(num := got));
  }

  // Two whole images

  /** The contents of a small image that ends within the second of two TLVs. */
  function SmallImage(first: Tlv, second: Tlv, part: seq<byte>): seq<byte>
    requires |TlvBytes(first)| + |TlvBytes(second)| + 4 < 0x1_0000
  {
    SmallBody() + (InfoHeader(IMAGE_TLV_PROT_INFO_MAGIC, |TlvBytes(first)| + |TlvBytes(second)| + 4)
                   + (TlvBytes(first) + (HeadOf(second) + part)))
  }

  lemma SmallImageHolds(first: Tlv, second: Tlv, part: seq<byte>) returns (area: FlashArea, img: FileImage)
    requires |part| < |second.payload| && |TlvBytes(first)| + |TlvBytes(second)| + 4 < 0x1_0000
    ensures area == FlashArea(SmallImage(first, second, part), {}, true)
    ensures img == FileImage(SmallImage(first, second, part), {}, {})
    ensures HoldsCutShort(area, img, SMALL_BODY_SIZE, first, second, part)
  {
    var s := SmallImage(first, second, part);
    area, img := FlashArea(s, {}, true), FileImage(s, {}, {});
    var info := InfoHeader(IMAGE_TLV_PROT_INFO_MAGIC, |TlvBytes(first)| + |TlvBytes(second)| + 4);
    var rest := HeadOf(second) + part;
    assert s[..SMALL_BODY_SIZE] == SmallBody();
    assert AnnouncedEnd(s) == AnnouncedEnd(SmallBody());
    assert s[SMALL_BODY_SIZE..] == info + (TlvBytes(first) + rest);
    assert At(s, SMALL_BODY_SIZE, info + (TlvBytes(first) + rest));
    AtSplit(s, SMALL_BODY_SIZE, info, TlvBytes(first) + rest);
    AtSplit(s, SMALL_BODY_SIZE + 4, TlvBytes(first), rest);
  }

  lemma FirstLetter(c: byte, buf: seq<byte>)
    requires |buf| > 2 && c != 0 && buf[1] == 0
    ensures CStr(([c] + buf[1..])[2 := 0]) == [c]
  {
    var left := ([c] + buf[1..])[2 := 0];
    assert left == [c] + [0] + left[2..];
    CStrOfTerminated([c], left[2..]);
    CStrOfNulFree([c]);
  }

  /** An image with ID 1 and a name of two letters that has lost its last byte: only the file search accepts it. */
  lemma LostByteOfName(rt: RuuviTypes, c: byte, d: byte, r: Rev) returns (area: FlashArea, img: FileImage)
    requires c != 0 && r.name[1] == 0
    ensures SameHealthy(area, img) && area.headerAccepted
    ensures !FindInFlash(rt, area, Clear(r)).ok
    ensures FindInFileImage(rt, img, r).ok && CStr(FindInFileImage(rt, img, r).rev.name) == [c]
  {
    var name, part: seq<byte> := [c, d], [c];
    area, img := SmallImageHolds(RawTlv(rt.id, Be32Bytes(1)), RawTlv(rt.name, name), part);
    NameCutShort(rt, area, img, SMALL_BODY_SIZE, 1, name, part, r);
    FirstLetter(c, r.name);
  }

  /**
   * An image with name "a" and ID 0x01020304 that has lost two bytes: only the file search accepts it, with
   * ID 0x01020000.
   */
  lemma LostBytesOfId(rt: RuuviTypes, r: Rev) returns (area: FlashArea, img: FileImage)
    ensures SameHealthy(area, img) && area.headerAccepted
    ensures !FindInFlash(rt, area, Clear(r)).ok
    ensures FindInFileImage(rt, img, r).ok && FindInFileImage(rt, img, r).rev.num == 0x0102_0000
  {
    var name: seq<byte>, part: seq<byte> := [97], [1, 2];
    var num: u32 := 0x0102_0304;
    assert Be32Bytes(num) == [1, 2, 3, 4];
    var id: Tlv, nm: Tlv := RawTlv(rt.id, Be32Bytes(num)), RawTlv(rt.name, name);
    area, img := SmallImageHolds(nm, id, part);
    assert part + [0, 0, 0, 0][2..] == [1, 2, 0, 0];
    IdCutShort(rt, area, img, SMALL_BODY_SIZE, num, name, part, 0x0102_0000, r);
  }
}
