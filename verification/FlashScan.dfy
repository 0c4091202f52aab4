/** fw_img_hw_rev.c over flash: the search with explicit 32-bit offsets, filling a structure in place. */
module FlashScan {
  import opened Bytes
  import opened TlvScan

  /**
   * A flash area: immutable contents, the reads the driver refuses, and whether boot_image_load_header
   * accepts the image header.
   */
  datatype FlashArea = FlashArea(contents: seq<byte>, faults: set<(int, int)>, headerAccepted: bool)
  {
    /** flash_area_read succeeds: a nonnegative off_t, inside the area, no device error. */
    predicate ReadOk(off: int, len: nat) {
      0 <= off < OFF_T_LIMIT && off + len <= |contents| && (off, len) !in faults
    }

    /** Where the image ends according to its header, when boot_image_load_header returns it. */
    function LoadedEnd(): Option<u32> {
      if headerAccepted && ReadOk(0, IMAGE_HEADER_SIZE) then Some(ImageEnd(contents[..IMAGE_HEADER_SIZE])) else None
    }
  }

  /** ih_hdr_size + ih_img_size, added as uint32_t. */
  function ImageEnd(header: seq<byte>): u32
    requires |header| == IMAGE_HEADER_SIZE
  {
    Add32(Le16(header[8..10]), Le32(header[12..16]))
  }

  /** The same sum in the bytes of the header: ih_hdr_size at 8 and ih_img_size at 12, both little-endian. */
  function AnnouncedEnd(h: seq<byte>): nat
    requires |h| >= IMAGE_HEADER_SIZE
  {
    var hdrSize := h[8] as int + h[9] as int * 0x100;
    var imgSize := h[12] as int + h[13] as int * 0x100 + h[14] as int * 0x1_0000 + h[15] as int * 0x100_0000;
    (hdrSize + imgSize) % U32_MOD
  }

  lemma ImageEndInBytes(s: seq<byte>)
    requires |s| >= IMAGE_HEADER_SIZE
    ensures ImageEnd(s[..IMAGE_HEADER_SIZE]) == AnnouncedEnd(s)
  {
    var h := s[..IMAGE_HEADER_SIZE];
    assert h[8..10] == s[8..10] && h[12..16] == s[12..16];
  }

  /** The flash search looks for the TLV info header where the bytes of the image header say. */
  lemma LoadedEndInBytes(area: FlashArea)
    ensures area.LoadedEnd().Some? <==> area.headerAccepted && area.ReadOk(0, IMAGE_HEADER_SIZE)
    ensures area.LoadedEnd().Some? ==> area.LoadedEnd().value == AnnouncedEnd(area.contents)
  {
    if area.LoadedEnd().Some? {
      ImageEndInBytes(area.contents);
    }
  }

  // Decoding

  function TlvType(bytes: seq<byte>): u16
    requires |bytes| == TLV_HEADER_SIZE
  {
    Le16(bytes[..2])
  }

  function TlvLen(bytes: seq<byte>): u16
    requires |bytes| == TLV_HEADER_SIZE
  {
    Le16(bytes[2..])
  }

  /** A record header in its bytes: type and length, both little-endian. */
  lemma HeaderInBytes(h: seq<byte>)
    requires |h| == TLV_HEADER_SIZE
    ensures TlvType(h) == h[0] as int + h[1] as int * 256 && TlvLen(h) == h[2] as int + h[3] as int * 256
  {}

  function ValueAt(area: FlashArea, at: nat, len: nat): (v: Option<seq<byte>>)
    ensures v.Some? ==> |v.value| == len
  {
    if area.ReadOk(at, len) then Some(area.contents[at..at + len]) else None
  }

  function EntryAt(area: FlashArea, off: nat): Entry {
    if !area.ReadOk(off, TLV_HEADER_SIZE) then Unreadable
    else
      var hdr := area.contents[off..off + TLV_HEADER_SIZE];
      Entry(TlvType(hdr), TlvLen(hdr), ValueAt(area, off + TLV_HEADER_SIZE, TlvLen(hdr)))
  }

  function Next(area: FlashArea, off: nat): (next: nat)
    requires EntryAt(area, off).Entry?
    ensures next >= off + TLV_HEADER_SIZE
  {
    off + TLV_HEADER_SIZE + EntryAt(area, off).len
  }

  /** The records between two offsets, up to the first whose header cannot be read. */
  function Entries(area: FlashArea, off: nat, end: nat): seq<Entry>
    decreases end - off
  {
    if off + TLV_HEADER_SIZE > end then []
    else if !area.ReadOk(off, TLV_HEADER_SIZE) then [Unreadable]
    else [EntryAt(area, off)] + Entries(area, Next(area, off), end)
  }

  /** it_tlv_tot of the TLV info header with this magic at `start`, if there is one. */
  function TotalOf(area: FlashArea, magic: u16, start: nat): Option<u16> {
    if area.ReadOk(start, TLV_HEADER_SIZE) && TlvType(area.contents[start..start + 4]) == magic
    then Some(TlvLen(area.contents[start..start + 4]))
    else None
  }

  function ProtectedTotal(area: FlashArea, start: nat): Option<u16> {
    TotalOf(area, IMAGE_TLV_PROT_INFO_MAGIC, start)
  }

  /** The protected TLV info header in its bytes: the magic 0x6908, then the total. */
  lemma ProtectedTotalInBytes(area: FlashArea, start: nat)
    ensures ProtectedTotal(area, start).Some? <==>
      area.ReadOk(start, 4) && area.contents[start] == 0x08 && area.contents[start + 1] == 0x69
    ensures ProtectedTotal(area, start).Some? ==>
      ProtectedTotal(area, start).value == area.contents[start + 2] as int + area.contents[start + 3] as int * 256
  {
    if area.ReadOk(start, 4) {
      HeaderInBytes(area.contents[start..start + 4]);
    }
  }

  /** The records of the protected TLV area that starts at `start`, if there is one. */
  function ProtectedEntries(area: FlashArea, start: nat): Option<seq<Entry>> {
    match ProtectedTotal(area, start)
    case None => None
    case Some(tot) => Some(Entries(area, start + 4, start + 4 + tot))
  }

  function FindInFlashFrom(rt: RuuviTypes, area: FlashArea, start: u32, r: Rev): Outcome {
    match ProtectedEntries(area, start)
    case None => Outcome(false, r)
    case Some(es) => Scan(rt, es, r)
  }

  /** The whole search as a function of the area and the structure's contents. */
  function FindInFlash(rt: RuuviTypes, area: FlashArea, r: Rev): Outcome {
    match area.LoadedEnd()
    case None => Outcome(false, r)
    case Some(start) => FindInFlashFrom(rt, area, start, r)
  }

  /** One round of the search at an offset. */
  lemma ScanRound(rt: RuuviTypes, area: FlashArea, off: nat, end: nat, r: Rev)
    requires off + TLV_HEADER_SIZE <= end
    ensures Scan(rt, Entries(area, off, end), r)
         == (var h := Handle(rt, EntryAt(area, off), r);
             if !h.ok || Complete(h.rev) then h
             else Scan(rt, Entries(area, Next(area, off), end), h.rev))
  {
    var es := Entries(area, off, end);
    assert es[0] == EntryAt(area, off);
    if area.ReadOk(off, TLV_HEADER_SIZE) {
      assert es[1..] == Entries(area, Next(area, off), end);
    }
  }

  /** The search after a round with outcome h: it goes on unless it has failed or is complete. */
  lemma FlashStep(rt: RuuviTypes, area: FlashArea, off: nat, end: nat, r: Rev, h: Outcome, next: nat)
    requires off + TLV_HEADER_SIZE <= end && h == Handle(rt, EntryAt(area, off), r)
    requires h.ok ==> EntryAt(area, off).Entry? && next == Next(area, off)
    ensures h.ok && !Complete(h.rev) ==>
      Scan(rt, Entries(area, off, end), r) == Scan(rt, Entries(area, next, end), h.rev)
    ensures !h.ok || Complete(h.rev) ==> Scan(rt, Entries(area, off, end), r) == h
  {
    ScanRound(rt, area, off, end, r);
  }

  // The code

  /** fw_image_hw_rev_t */
  class HwRev {
    var num: u32
    const name: array<byte>

    constructor ()
      ensures name.Length == HW_REV_NAME_SIZE && fresh(name)
    {
      num := 0;
      name := new byte[HW_REV_NAME_SIZE];
    }

    predicate Valid()
      reads this
    {
      name.Length == HW_REV_NAME_SIZE
    }

    function Value(): Rev
      reads this, name
      requires Valid()
    {
      RawRev(num, name[..])
    }
  }

  /** flash_area_read: all of the bytes, or an error that leaves the buffer alone. */
  method FlashAreaRead(area: FlashArea, off: u32, dst: array<byte>, len: nat) returns (rc: int)
    requires len <= dst.Length
    modifies dst
    ensures rc == 0 <==> area.ReadOk(AsOffT(off), len)
    ensures dst[..] == if rc == 0 then area.contents[off..off + len] + old(dst[len..]) else old(dst[..])
  {
    if area.ReadOk(AsOffT(off), len) {
      forall i | 0 <= i < len {
        dst[i] := area.contents[off + i];
      }
      rc := 0;
    } else {
      rc := -5;
    }
  }

  method FindTlvsInFlashArea(area: FlashArea, magic: u16, startOffset: u32)
    returns (ok: bool, tlvsStart: u32, tlvsEnd: u32)
    ensures ok <==> TotalOf(area, magic, startOffset).Some?
    ensures ok ==> tlvsStart == startOffset + 4
    ensures ok ==> tlvsEnd == startOffset + 4 + TotalOf(area, magic, startOffset).value
  {
    tlvsStart, tlvsEnd := 0, 0;
    var tlvInfo := new byte[4](_ => 0);
    var rc := FlashAreaRead(area, startOffset, tlvInfo, 4);
    if rc != 0 {
      return false, tlvsStart, tlvsEnd;
    }
    assert tlvInfo[..] == area.contents[startOffset..startOffset + 4];
    if TlvType(tlvInfo[..]) != magic {
      return false, tlvsStart, tlvsEnd;
    }
    tlvsStart := Add32(startOffset, 4);
    tlvsEnd := Add32(tlvsStart, TlvLen(tlvInfo[..]));
    ok := true;
  }

  method HandleTlvInFlashArea(rt: RuuviTypes, itType: u16, itLen: u16, area: FlashArea, dataOff: u32, hw: HwRev)
    returns (ok: bool)
    requires hw.Valid() && dataOff + 4 < U32_MOD
    modifies hw, hw.name
    ensures Outcome(ok, hw.Value())
         == Handle(rt, Entry(itType, itLen, ValueAt(area, dataOff + 4, itLen)), old(hw.Value()))
  {
    ghost var value, before := ValueAt(area, dataOff + 4, itLen), hw.name[..];
    ghost var handled := Handle(rt, Entry(itType, itLen, value), hw.Value());
    if itType == rt.id {
      if itLen != HW_REV_NUM_SIZE {
        return false;
      }
      if hw.num != 0 {
        return false;
      }
      var buf := new byte[4](_ => 0);
      var rc := FlashAreaRead(area, Add32(dataOff, 4), buf, 4);
      if rc != 0 {
        return false;
      }
      hw.num := U32FromBytesBe(buf);
      assert buf[..] == value.value;
      assert handled == Outcome(true, hw.Value());
    }
    if itType == rt.name {
      if itLen >= HW_REV_NAME_SIZE {
        return false;
      }
      if hw.name[0] != 0 {
        return false;
      }
      var rc := FlashAreaRead(area, Add32(dataOff, 4), hw.name, itLen);
      if rc != 0 {
        return false;
      }
      hw.name[itLen] := 0;
      StoreNameByUpdate(before, value.value);
      assert handled == Outcome(true, hw.Value());
    }
    return true;
  }

  /** The body of the scan loop up to the test for completion. */
  method ReadAndHandle(rt: RuuviTypes, area: FlashArea, dataOff: u32, tlv: array<byte>, hw: HwRev)
    returns (ok: bool, itLen: u16)
    requires hw.Valid() && dataOff + 4 < U32_MOD && tlv.Length == TLV_HEADER_SIZE && tlv != hw.name
    modifies tlv, hw, hw.name
    ensures Outcome(ok, hw.Value()) == Handle(rt, EntryAt(area, dataOff), old(hw.Value()))
    ensures ok ==> area.ReadOk(dataOff, TLV_HEADER_SIZE) && Next(area, dataOff) == dataOff + 4 + itLen as int
  {
    var rc := FlashAreaRead(area, dataOff, tlv, 4);
    if rc != 0 {
      return false, 0;
    }
    assert tlv[..] == area.contents[dataOff..dataOff + 4];
    itLen := TlvLen(tlv[..]);
    ok := HandleTlvInFlashArea(rt, TlvType(tlv[..]), itLen, area, dataOff, hw);
  }

  /** The scan loop of fw_img_hw_rev_find_in_flash_area_internal; `rounds` counts its iterations. */
  method ScanTlvsInFlashArea(rt: RuuviTypes, area: FlashArea, tlvsStart: u32, tlvsEnd: u32, hw: HwRev)
    returns (isSuccess: bool, ghost rounds: nat)
    requires hw.Valid()
    requires tlvsStart + 4 < U32_MOD && tlvsStart <= tlvsEnd
    modifies hw, hw.name
    ensures Outcome(isSuccess, hw.Value()) == Scan(rt, Entries(area, tlvsStart, tlvsEnd), old(hw.Value()))
    ensures 4 * rounds <= tlvsEnd - tlvsStart
  {
    isSuccess, rounds := false, 0;
    ghost var all := Scan(rt, Entries(area, tlvsStart, tlvsEnd), hw.Value());
    var dataOff := tlvsStart;
    var tlv := new byte[4](_ => 0);
    while Add32(dataOff, 4) <= tlvsEnd
      invariant fresh(tlv)
      invariant dataOff + 4 < U32_MOD && tlvsStart + 4 * rounds <= dataOff
      invariant 4 * rounds <= tlvsEnd - tlvsStart
      invariant all == Scan(rt, Entries(area, dataOff, tlvsEnd), hw.Value())
      decreases U32_MOD - dataOff
    {
      rounds := rounds + 1;
      ghost var before := hw.Value();
      var ok, itLen := ReadAndHandle(rt, area, dataOff, tlv, hw);
      ghost var h, next := Outcome(ok, hw.Value()), dataOff + 4 + itLen as int;
      FlashStep(rt, area, dataOff, tlvsEnd, before, h, next);
      if !ok {
        return;
      }
      if hw.name[0] != 0 && hw.num != 0 {
        isSuccess := true;
        return;
      }
      dataOff := Add32(dataOff, 4 + itLen as int);
      assert dataOff == next;
    }
  }

  method FindInFlashAreaInternal(rt: RuuviTypes, area: FlashArea, hw: HwRev) returns (isSuccess: bool)
    requires hw.Valid()
    modifies hw, hw.name
    ensures Outcome(isSuccess, hw.Value()) == FindInFlash(rt, area, old(hw.Value()))
  {
    var loaded := area.LoadedEnd();
    if loaded.None? {
      return false;
    }
    var start := loaded.value;
    var found, tlvsStart, tlvsEnd := FindTlvsInFlashArea(area, IMAGE_TLV_PROT_INFO_MAGIC, start);
    if !found {
      return false;
    }
    ghost var rounds;
    isSuccess, rounds := ScanTlvsInFlashArea(rt, area, tlvsStart, tlvsEnd, hw);
  }

  /** fw_img_hw_rev_find_in_flash_area: clears the structure, opens the area, searches it. */
  method FindInFlashArea(rt: RuuviTypes, target: Option<FlashArea>, hw: HwRev) returns (isSuccess: bool)
    requires hw.Valid()
    modifies hw, hw.name
    ensures isSuccess <==> target.Some? && exists i: nat, n: nat :: DeclaresIn(rt, target.value, i, n)
    ensures isSuccess ==> hw.num != 0 && hw.name[0] != 0
    ensures 0 in hw.name[..]
    ensures isSuccess ==> forall i: nat, n: nat | DeclaresIn(rt, target.value, i, n) ::
              && hw.num == Be32(AreaEntries(target.value).value[i].value.value)
              && CStr(hw.name[..]) == CStr(AreaEntries(target.value).value[n].value.value)
    ensures target.None? || AreaEntries(target.value).None? ==> hw.Value() == Clear(old(hw.Value()))
    ensures !isSuccess && target.Some? && AreaEntries(target.value).Some? ==>
              exists k: nat :: FailsAt(rt, AreaEntries(target.value).value, k, hw.Value())
    ensures Outcome(isSuccess, hw.Value()) ==
              match target
              case None => Outcome(false, Clear(old(hw.Value())))
              case Some(area) => FindInFlash(rt, area, Clear(old(hw.Value())))
  {
    ghost var before := hw.Value();
    hw.num := 0;
    hw.name[0] := 0;
    ghost var cleared := hw.Value();
    assert cleared == Clear(before);
    assert cleared.name[0] == 0;
    match target
    case None =>
      return false;
    case Some(area) =>
      isSuccess := FindInFlashAreaInternal(rt, area, hw);
      FlashCharacterised(rt, area, cleared);
      FlashTerminated(rt, area, cleared);
      FlashFailureLeaves(rt, area, cleared);
  }

  // The declarative meaning of the search

  /** The records of the area's protected TLVs. */
  function AreaEntries(area: FlashArea): Option<seq<Entry>> {
    match area.LoadedEnd()
    case None => None
    case Some(start) => ProtectedEntries(area, start)
  }

  /** Records i and n of the area are the ID and the name that it declares. */
  ghost predicate DeclaresIn(rt: RuuviTypes, area: FlashArea, i: nat, n: nat) {
    AreaEntries(area).Some? && Declares(rt, AreaEntries(area).value, i, n)
  }

  /** For every content of the area: success, the ID and the name are what its records declare. */
  lemma FlashCharacterised(rt: RuuviTypes, area: FlashArea, r: Rev)
    requires Cleared(r)
    ensures FindInFlash(rt, area, r).ok <==> exists i: nat, n: nat :: DeclaresIn(rt, area, i, n)
    ensures FindInFlash(rt, area, r).ok ==>
              Complete(FindInFlash(rt, area, r).rev)
    ensures forall i: nat, n: nat | DeclaresIn(rt, area, i, n) ::
              && FindInFlash(rt, area, r).rev.num == Be32(AreaEntries(area).value[i].value.value)
              && CStr(FindInFlash(rt, area, r).rev.name) == CStr(AreaEntries(area).value[n].value.value)
  {
    match AreaEntries(area)
    case None =>
    case Some(es) =>
      assert FindInFlash(rt, area, r) == Scan(rt, es, r);
      ScanCharacterised(rt, es, r);
      assert forall i: nat, n: nat :: Declares(rt, es, i, n) <==> DeclaresIn(rt, area, i, n);
      SuccessIsComplete(rt, es, r);
  }

  /**
   * What a failed search over these records leaves: it has stopped at k, with the ID and the name of the first
   * nonzero ID and the first nonempty name before k, each cleared where there is none.
   */
  ghost predicate FailsAt(rt: RuuviTypes, es: seq<Entry>, k: nat, rev: Rev) {
    && StopsAt(rt, es, BLANK, k) && LeavesId(rt, es, BLANK, k, rev) && LeavesName(rt, es, BLANK, k, rev)
  }

  lemma FlashFailureLeaves(rt: RuuviTypes, area: FlashArea, r: Rev)
    requires Cleared(r)
    ensures AreaEntries(area).None? ==> FindInFlash(rt, area, r) == Outcome(false, r)
    ensures AreaEntries(area).Some? && !FindInFlash(rt, area, r).ok ==>
      exists k: nat :: FailsAt(rt, AreaEntries(area).value, k, FindInFlash(rt, area, r).rev)
  {
    match AreaEntries(area)
    case None =>
    case Some(es) =>
      if !Scan(rt, es, r).ok {
        var k := FailureLeaves(rt, es, r);
        FromBlank(rt, es, r, k, Scan(rt, es, r).rev);
        assert FailsAt(rt, es, k, Scan(rt, es, r).rev);
      }
  }

  lemma FlashTerminated(rt: RuuviTypes, area: FlashArea, r: Rev)
    requires 0 in r.name
    ensures 0 in FindInFlash(rt, area, r).rev.name
  {
    match AreaEntries(area)
    case None =>
    case Some(es) => ScanTerminated(rt, es, r);
  }
}
