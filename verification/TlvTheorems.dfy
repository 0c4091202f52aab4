/** What the search over an area does not depend on, and the round trip through a serialised TLV area. */
module TlvTheorems {
  import opened Bytes
  import opened TlvScan
  import opened FlashScan

  predicate IsRuuviEntry(rt: RuuviTypes, e: Entry) { e.Unreadable? || IsRuuvi(rt, e.typ) }

  // Order and foreign entries

  function RuuviOnly(rt: RuuviTypes, es: seq<Entry>): seq<Entry> {
    if es == [] then []
    else if IsRuuviEntry(rt, es[0]) then [es[0]] + RuuviOnly(rt, es[1..])
    else RuuviOnly(rt, es[1..])
  }

  /** Foreign entries are transparent: the search depends on the Ruuvi entries alone, on every list. */
  lemma {:induction false} ForeignTransparent(rt: RuuviTypes, es: seq<Entry>, r: Rev)
    requires !Complete(r)
    ensures Scan(rt, es, r) == Scan(rt, RuuviOnly(rt, es), r)
  {
    if es != [] {
      var h := Handle(rt, es[0], r);
      if IsRuuviEntry(rt, es[0]) {
        assert RuuviOnly(rt, es)[1..] == RuuviOnly(rt, es[1..]);
      }
      if h.ok && !Complete(h.rev) {
        ForeignTransparent(rt, es[1..], h.rev);
      }
    }
  }

  /** Two lists with the same Ruuvi entries in the same order are searched alike. */
  lemma ForeignInsertion(rt: RuuviTypes, es: seq<Entry>, es': seq<Entry>, r: Rev)
    requires !Complete(r) && RuuviOnly(rt, es) == RuuviOnly(rt, es')
    ensures Scan(rt, es, r) == Scan(rt, es', r)
  {
    ForeignTransparent(rt, es, r);
    ForeignTransparent(rt, es', r);
  }

  lemma {:induction false} RuuviOnlyCounts(rt: RuuviTypes, es: seq<Entry>)
    ensures forall e: Entry :: multiset(RuuviOnly(rt, es))[e] == if IsRuuviEntry(rt, e) then multiset(es)[e] else 0
  {
    if es != [] {
      RuuviOnlyCounts(rt, es[1..]);
      assert es == [es[0]] + es[1..];
    }
  }

  /** What the pair leaves in the structure. */
  function Paired(r: Rev, id: Entry, name: Entry): Rev
    requires id.Entry? && id.len == HW_REV_NUM_SIZE && id.value.Some?
    requires name.Entry? && name.len < HW_REV_NAME_SIZE && name.value.Some?
  {
    RawRev(Be32(id.value.value), StoreName(r.name, name.value.value))
  }

  lemma PairScans(rt: RuuviTypes, id: Entry, name: Entry, r: Rev)
    requires Cleared(r) && NonzeroId(rt, id) && NonemptyName(rt, name)
    ensures Scan(rt, [id, name], r) == Outcome(true, Paired(r, id, name)) == Scan(rt, [name, id], r)
  {
    StoreNameString(r.name, name.value.value);
    assert [id, name][1..] == [name] && [name, id][1..] == [id];
    assert Scan(rt, [name], r.(num := Be32(id.value.value))).ok;
    assert Scan(rt, [id], r.(name := StoreName(r.name, name.value.value))).ok;
  }

  lemma SeqOfPair(s: seq<Entry>, a: Entry, b: Entry)
    requires multiset(s) == multiset{a, b}
    ensures s == [a, b] || s == [b, a]
  {
    assert |s| == |multiset(s)| == 2;
    assert s == [s[0], s[1]];
    assert multiset(s) == multiset{s[0], s[1]};
    assert s[0] in multiset{a, b} && s[1] in multiset{a, b};
    if s[0] == a {
      assert multiset{s[1]} == multiset(s) - multiset{a} == multiset{b};
      assert s[1] in multiset{b};
    } else {
      assert multiset{s[1]} == multiset(s) - multiset{b} == multiset{a};
      assert s[1] in multiset{a};
    }
  }

  /** A list whose only Ruuvi entries are one valid ID and one valid name yields them, wherever they stand. */
  lemma SinglePairFound(rt: RuuviTypes, es: seq<Entry>, id: Entry, name: Entry, r: Rev)
    requires Cleared(r) && NonzeroId(rt, id) && NonemptyName(rt, name)
    requires multiset(RuuviOnly(rt, es)) == multiset{id, name}
    ensures Scan(rt, es, r) == Outcome(true, Paired(r, id, name))
  {
    SeqOfPair(RuuviOnly(rt, es), id, name);
    PairScans(rt, id, name, r);
    ForeignTransparent(rt, es, r);
  }

  /** Any reordering of such a list leaves the result as it was. */
  lemma PermutationInvariant(rt: RuuviTypes, es: seq<Entry>, es': seq<Entry>, id: Entry, name: Entry, r: Rev)
    requires Cleared(r) && NonzeroId(rt, id) && NonemptyName(rt, name)
    requires multiset(RuuviOnly(rt, es)) == multiset{id, name}
    requires multiset(es') == multiset(es)
    ensures Scan(rt, es', r) == Scan(rt, es, r) == Outcome(true, Paired(r, id, name))
  {
    RuuviOnlyCounts(rt, es);
    RuuviOnlyCounts(rt, es');
    assert multiset(RuuviOnly(rt, es')) == multiset(RuuviOnly(rt, es));
    SinglePairFound(rt, es, id, name, r);
    SinglePairFound(rt, es', id, name, r);
  }

  /** Entries after the one that decides the search do not matter. */
  lemma {:induction false} SuffixIrrelevant(rt: RuuviTypes, es: seq<Entry>, more: seq<Entry>, r: Rev)
    requires Scan(rt, es, r).ok
    ensures Scan(rt, es + more, r) == Scan(rt, es, r)
  {
    assert (es + more)[0] == es[0] && (es + more)[1..] == es[1..] + more;
    var h := Handle(rt, es[0], r);
    if !Complete(h.rev) {
      SuffixIrrelevant(rt, es[1..], more, h.rev);
    }
  }

  /** Foreign entries at the end change nothing, found or not found. */
  lemma {:induction false} ForeignSuffixIrrelevant(rt: RuuviTypes, es: seq<Entry>, more: seq<Entry>, r: Rev)
    requires !Complete(r) && RuuviOnly(rt, more) == []
    ensures Scan(rt, es + more, r) == Scan(rt, es, r)
  {
    RuuviOnlyOfSum(rt, es, more);
    assert RuuviOnly(rt, es) + [] == RuuviOnly(rt, es);
    ForeignInsertion(rt, es + more, es, r);
  }

  lemma {:induction false} RuuviOnlyOfSum(rt: RuuviTypes, a: seq<Entry>, b: seq<Entry>)
    ensures RuuviOnly(rt, a + b) == RuuviOnly(rt, a) + RuuviOnly(rt, b)
  {
    if a == [] {
      assert a + b == b;
    } else {
      assert (a + b)[0] == a[0] && (a + b)[1..] == a[1..] + b;
      RuuviOnlyOfSum(rt, a[1..], b);
    }
  }

  // Locality over bytes

  /** The offset just past the value of the entry that completes the pair. */
  ghost function CompletedAt(rt: RuuviTypes, area: FlashArea, off: nat, end: nat, r: Rev): nat
    requires Scan(rt, Entries(area, off, end), r).ok
    decreases end - off
  {
    ScanRound(rt, area, off, end, r);
    var h := Handle(rt, EntryAt(area, off), r);
    if Complete(h.rev) then Next(area, off)
    else CompletedAt(rt, area, Next(area, off), end, h.rev)
  }

  /** Both areas hold the same bytes before `limit` and accept the same reads there. */
  ghost predicate AgreeBefore(a: FlashArea, b: FlashArea, limit: nat) {
    && limit <= |a.contents| && limit <= |b.contents|
    && a.contents[..limit] == b.contents[..limit]
    && a.faults == b.faults
  }

  lemma AgreeOnSlice(a: FlashArea, b: FlashArea, limit: nat, from: nat, to: nat)
    requires AgreeBefore(a, b, limit) && from <= to <= limit
    ensures a.contents[from..to] == b.contents[from..to]
  {
    assert a.contents[from..to] == a.contents[..limit][from..to];
    assert b.contents[from..to] == b.contents[..limit][from..to];
  }

  lemma AgreeOnEntry(a: FlashArea, b: FlashArea, limit: nat, off: nat)
    requires AgreeBefore(a, b, limit) && EntryAt(a, off).Entry? && Next(a, off) <= limit
    ensures EntryAt(a, off) == EntryAt(b, off)
  {
    AgreeOnSlice(a, b, limit, off, off + 4);
    AgreeOnSlice(a, b, limit, off + 4, Next(a, off));
  }

  lemma {:induction false} CompletedBeyond(rt: RuuviTypes, area: FlashArea, off: nat, end: nat, r: Rev)
    requires Scan(rt, Entries(area, off, end), r).ok
    ensures off + TLV_HEADER_SIZE <= end && EntryAt(area, off).Entry?
    ensures CompletedAt(rt, area, off, end, r) >= Next(area, off)
    decreases end - off
  {
    ScanRound(rt, area, off, end, r);
    var h := Handle(rt, EntryAt(area, off), r);
    if !Complete(h.rev) {
      CompletedBeyond(rt, area, Next(area, off), end, h.rev);
    }
  }

  /** No byte past the entry that completes the pair affects the search. */
  lemma {:induction false} LaterBytesIrrelevant(rt: RuuviTypes, a: FlashArea, b: FlashArea, off: nat, end: nat, r: Rev)
    requires Scan(rt, Entries(a, off, end), r).ok
    requires AgreeBefore(a, b, CompletedAt(rt, a, off, end, r))
    ensures Scan(rt, Entries(b, off, end), r) == Scan(rt, Entries(a, off, end), r)
    decreases end - off
  {
    CompletedBeyond(rt, a, off, end, r);
    AgreeOnEntry(a, b, CompletedAt(rt, a, off, end, r), off);
    ScanRound(rt, a, off, end, r);
    ScanRound(rt, b, off, end, r);
    var h := Handle(rt, EntryAt(a, off), r);
    if !Complete(h.rev) {
      LaterBytesIrrelevant(rt, a, b, Next(a, off), end, h.rev);
    }
  }

  // Serialisation and the round trip

  datatype RawTlv = RawTlv(typ: u16, payload: seq<byte>)

  type Tlv = t: RawTlv | |t.payload| < 0x1_0000 witness RawTlv(0, [])

  function EntryOf(t: Tlv): Entry {
    Entry(t.typ, |t.payload|, Some(t.payload))
  }

  function EntriesOf(ts: seq<Tlv>): (es: seq<Entry>)
    ensures |es| == |ts|
  {
    if ts == [] then [] else [EntryOf(ts[0])] + EntriesOf(ts[1..])
  }

  function TlvBytes(t: Tlv): (s: seq<byte>)
    ensures |s| == TLV_HEADER_SIZE + |t.payload|
  {
    Le16Bytes(t.typ) + Le16Bytes(|t.payload|) + t.payload
  }

  function Serialise(ts: seq<Tlv>): seq<byte> {
    if ts == [] then [] else TlvBytes(ts[0]) + Serialise(ts[1..])
  }

  /** The TLV info header; MCUboot counts its own four bytes in the total. */
  function InfoHeader(magic: u16, total: u16): (s: seq<byte>)
    ensures |s| == TLV_HEADER_SIZE
  {
    Le16Bytes(magic) + Le16Bytes(total)
  }

  /** An image: a body whose header announces its length, its protected TLV area, and what follows. */
  function Image(body: seq<byte>, ts: seq<Tlv>, rest: seq<byte>): seq<byte>
    requires |Serialise(ts)| + 4 < 0x1_0000
  {
    body + InfoHeader(IMAGE_TLV_PROT_INFO_MAGIC, |Serialise(ts)| + 4) + Serialise(ts) + rest
  }

  lemma DecodeHeader(typ: u16, len: u16, s: seq<byte>)
    requires s == Le16Bytes(typ) + Le16Bytes(len)
    ensures TlvType(s) == typ && TlvLen(s) == len
  {
    assert s[..2] == Le16Bytes(typ) && s[2..] == Le16Bytes(len);
  }

  /** A fault-free area whose offsets all fit off_t. */
  predicate Healthy(area: FlashArea) {
    area.faults == {} && |area.contents| <= OFF_T_LIMIT
  }

  /** The bytes at an offset. */
  predicate At(s: seq<byte>, off: nat, part: seq<byte>) {
    off + |part| <= |s| && s[off..off + |part|] == part
  }

  lemma AtSplit(s: seq<byte>, off: nat, a: seq<byte>, b: seq<byte>)
    requires At(s, off, a + b)
    ensures At(s, off, a) && At(s, off + |a|, b)
  {
    var whole := s[off..off + |a + b|];
    assert s[off..off + |a|] == whole[..|a|] == a;
    assert s[off + |a|..off + |a| + |b|] == whole[|a|..] == b;
  }

  lemma DecodeTlv(area: FlashArea, off: nat, t: Tlv)
    requires Healthy(area) && At(area.contents, off, TlvBytes(t)) && off + 4 + |t.payload| < OFF_T_LIMIT
    ensures EntryAt(area, off) == EntryOf(t)
  {
    var hdr := Le16Bytes(t.typ) + Le16Bytes(|t.payload|);
    AtSplit(area.contents, off, hdr, t.payload);
    DecodeHeader(t.typ, |t.payload|, hdr);
  }

  lemma EntriesStep(area: FlashArea, off: nat, end: nat)
    requires off + TLV_HEADER_SIZE <= end && EntryAt(area, off).Entry?
    ensures Entries(area, off, end) == [EntryAt(area, off)] + Entries(area, Next(area, off), end)
  {}

  lemma Glue(whole: seq<Entry>, a: seq<Entry>, mid: seq<Entry>, b: seq<Entry>, c: seq<Entry>)
    requires whole == a + mid && mid == b + c
    ensures whole == (a + b) + c
  {}

  /** One TLV, with more bytes after it. */
  lemma DecodeFirst(area: FlashArea, off: nat, t: Tlv, more: seq<byte>, end: nat)
    requires Healthy(area) && At(area.contents, off, TlvBytes(t) + more)
    requires off + |TlvBytes(t)| <= end && off + |TlvBytes(t)| < OFF_T_LIMIT
    ensures Entries(area, off, end) == [EntryOf(t)] + Entries(area, off + |TlvBytes(t)|, end)
    ensures At(area.contents, off + |TlvBytes(t)|, more)
  {
    AtSplit(area.contents, off, TlvBytes(t), more);
    DecodeTlv(area, off, t);
    EntriesStep(area, off, end);
  }

  /** Decoding what was serialised gives the TLVs back, followed by whatever the bytes after them decode to. */
  lemma {:induction false} DecodeSerialised(area: FlashArea, off: nat, ts: seq<Tlv>, at: nat, end: nat)
    requires Healthy(area) && At(area.contents, off, Serialise(ts))
    requires off + |Serialise(ts)| == at <= end && at < OFF_T_LIMIT
    ensures Entries(area, off, end) == EntriesOf(ts) + Entries(area, at, end)
    decreases |ts|
  {
    if ts != [] {
      var t, tail := ts[0], ts[1..];
      DecodeFirst(area, off, t, Serialise(tail), end);
      var next := off + |TlvBytes(t)|;
      DecodeSerialised(area, next, tail, at, end);
      Glue(Entries(area, off, end), [EntryOf(t)], Entries(area, next, end), EntriesOf(tail), Entries(area, at, end));
    }
  }

  /** The area holds this image, whose header bytes announce where its body ends, and its header is accepted. */
  ghost predicate Holds(area: FlashArea, body: seq<byte>, ts: seq<Tlv>, rest: seq<byte>) {
    && Healthy(area) && area.headerAccepted
    && |body| >= IMAGE_HEADER_SIZE && AnnouncedEnd(body) == |body|
    && |Serialise(ts)| + 4 < 0x1_0000
    && area.contents == Image(body, ts, rest)
    && |body| + 4 + |Serialise(ts)| < OFF_T_LIMIT
  }

  /** Does the record header that the code examines past the protected area carry a Ruuvi type? */
  predicate RuuviFollows(rt: RuuviTypes, rest: seq<byte>) {
    |rest| >= 4 && IsRuuvi(rt, Le16(rest[..2]))
  }

  /** Where the parts of the image lie. */
  lemma PartsOfImage(area: FlashArea, body: seq<byte>, ts: seq<Tlv>, rest: seq<byte>)
    requires Holds(area, body, ts, rest)
    ensures At(area.contents, |body|, InfoHeader(IMAGE_TLV_PROT_INFO_MAGIC, |Serialise(ts)| + 4))
    ensures At(area.contents, |body| + 4, Serialise(ts))
    ensures At(area.contents, |body| + 4 + |Serialise(ts)|, rest)
    ensures |body| + 4 + |Serialise(ts)| + |rest| == |area.contents|
  {}

  lemma StartOfImage(area: FlashArea, body: seq<byte>)
    requires Healthy(area) && area.headerAccepted && body <= area.contents
    requires |body| >= IMAGE_HEADER_SIZE && AnnouncedEnd(body) == |body|
    ensures area.LoadedEnd() == Some(|body|)
  {
    LoadedEndInBytes(area);
    assert AnnouncedEnd(area.contents) == AnnouncedEnd(body);
  }

  lemma TotalOfImage(area: FlashArea, start: nat, total: u16)
    requires Healthy(area) && start < OFF_T_LIMIT
    requires At(area.contents, start, InfoHeader(IMAGE_TLV_PROT_INFO_MAGIC, total))
    ensures ProtectedTotal(area, start) == Some(total)
  {
    DecodeHeader(IMAGE_TLV_PROT_INFO_MAGIC, total, InfoHeader(IMAGE_TLV_PROT_INFO_MAGIC, total));
  }

  /** The records of a protected TLV area: those put in, and the header examined past them. */
  lemma EntriesOfProtected(area: FlashArea, start: nat, ts: seq<Tlv>, at: nat)
    requires Healthy(area) && ProtectedTotal(area, start) == Some(|Serialise(ts)| + 4)
    requires At(area.contents, start + 4, Serialise(ts)) && at == start + 4 + |Serialise(ts)| < OFF_T_LIMIT
    ensures ProtectedEntries(area, start) == Some(EntriesOf(ts) + [EntryAt(area, at)])
  {
    DecodeSerialised(area, start + 4, ts, at, at + 4);
    LastRecord(area, at);
  }

  lemma StartOfHeld(area: FlashArea, body: seq<byte>, ts: seq<Tlv>, rest: seq<byte>)
    requires Holds(area, body, ts, rest)
    ensures area.LoadedEnd() == Some(|body|)
  {
    assert body <= area.contents;
    StartOfImage(area, body);
  }

  lemma ProtectedOfHeld(area: FlashArea, body: seq<byte>, ts: seq<Tlv>, rest: seq<byte>)
    requires Holds(area, body, ts, rest)
    ensures ProtectedEntries(area, |body|)
         == Some(EntriesOf(ts) + [EntryAt(area, |body| + 4 + |Serialise(ts)|)])
  {
    var start, total, at := |body|, |Serialise(ts)| + 4, |body| + 4 + |Serialise(ts)|;
    PartsOfImage(area, body, ts, rest);
    TotalOfImage(area, start, total);
    EntriesOfProtected(area, start, ts, at);
  }

  lemma EntriesOfImage(area: FlashArea, body: seq<byte>, ts: seq<Tlv>, rest: seq<byte>)
    requires Holds(area, body, ts, rest)
    ensures AreaEntries(area) == Some(EntriesOf(ts) + [EntryAt(area, |body| + 4 + |Serialise(ts)|)])
  {
    StartOfHeld(area, body, ts, rest);
    ProtectedOfHeld(area, body, ts, rest);
    assert AreaEntries(area) == ProtectedEntries(area, |body|);
  }

  /** Four bytes hold exactly one record header. */
  lemma LastRecord(area: FlashArea, at: nat)
    ensures Entries(area, at, at + 4) == [EntryAt(area, at)]
  {}

  /**
   * The header examined past the protected TLVs never changes a successful search, and changes a failing
   * one only if it carries a Ruuvi type: the search over the image is the search over the TLVs put in.
   */
  lemma ExtraHeaderHarmless(rt: RuuviTypes, area: FlashArea, body: seq<byte>, ts: seq<Tlv>, rest: seq<byte>, r: Rev)
    requires Holds(area, body, ts, rest) && Cleared(r)
    requires Scan(rt, EntriesOf(ts), r).ok || !RuuviFollows(rt, rest)
    ensures FindInFlash(rt, area, r) == Scan(rt, EntriesOf(ts), r)
  {
    var es, extra := EntriesOf(ts), EntryAt(area, |body| + 4 + |Serialise(ts)|);
    EntriesOfImage(area, body, ts, rest);
    ExtraOfImage(rt, area, body, ts, rest, extra);
    ExtraEntryHarmless(rt, es, extra, r);
    assert FindInFlash(rt, area, r) == Scan(rt, es + [extra], r);
  }

  lemma ExtraOfImage(
    rt: RuuviTypes, area: FlashArea, body: seq<byte>, ts: seq<Tlv>, rest: seq<byte>, extra: Entry)
    requires Holds(area, body, ts, rest) && extra == EntryAt(area, |body| + 4 + |Serialise(ts)|)
    ensures RuuviFollows(rt, rest) || extra.Unreadable? || !IsRuuvi(rt, extra.typ)
  {
    PartsOfImage(area, body, ts, rest);
    TypeFollowing(area, |body| + 4 + |Serialise(ts)|, rest);
  }

  lemma TypeFollowing(area: FlashArea, at: nat, rest: seq<byte>)
    requires At(area.contents, at, rest) && at + |rest| == |area.contents|
    ensures EntryAt(area, at).Entry? ==> |rest| >= 4 && EntryAt(area, at).typ == Le16(rest[..2])
  {
    if EntryAt(area, at).Entry? {
      assert area.ReadOk(at, TLV_HEADER_SIZE) && |rest| >= 4;
      assert rest == rest[..4] + rest[4..];
      AtSplit(area.contents, at, rest[..4], rest[4..]);
      assert rest[..4][..2] == rest[..2];
    }
  }

  lemma ExtraEntryHarmless(rt: RuuviTypes, es: seq<Entry>, extra: Entry, r: Rev)
    requires !Complete(r)
    requires Scan(rt, es, r).ok || extra.Unreadable? || !IsRuuvi(rt, extra.typ)
    ensures Scan(rt, es + [extra], r) == Scan(rt, es, r)
  {
    if Scan(rt, es, r).ok {
      SuffixIrrelevant(rt, es, [extra], r);
    } else if extra.Unreadable? {
      UnreadableSuffixIrrelevant(rt, es, r);
    } else {
      assert RuuviOnly(rt, [extra]) == [];
      ForeignSuffixIrrelevant(rt, es, [extra], r);
    }
  }

  lemma {:induction false} UnreadableSuffixIrrelevant(rt: RuuviTypes, es: seq<Entry>, r: Rev)
    requires !Complete(r)
    ensures Scan(rt, es + [Unreadable], r) == Scan(rt, es, r)
  {
    var all := es + [Unreadable];
    if es != [] {
      assert all[0] == es[0] && all[1..] == es[1..] + [Unreadable];
      var h := Handle(rt, es[0], r);
      if h.ok && !Complete(h.rev) {
        UnreadableSuffixIrrelevant(rt, es[1..], h.rev);
      }
    }
  }

  // When the extra header matters

  /** The structure after all entries, when each has been handled and an item is still missing. */
  function Unfinished(rt: RuuviTypes, es: seq<Entry>, r: Rev): Option<Rev> {
    if es == [] then Some(r)
    else
      var h := Handle(rt, es[0], r);
      if !h.ok || Complete(h.rev) then None else Unfinished(rt, es[1..], h.rev)
  }

  /** A search goes on into later entries exactly if it is unfinished. */
  lemma {:induction false} ScanOfSum(rt: RuuviTypes, es: seq<Entry>, more: seq<Entry>, r: Rev)
    ensures Scan(rt, es + more, r) ==
      match Unfinished(rt, es, r)
      case None => Scan(rt, es, r)
      case Some(s) => Scan(rt, more, s)
    ensures Unfinished(rt, es, r).Some? ==> !Scan(rt, es, r).ok
    ensures Unfinished(rt, es, r).Some? && !Complete(r) ==>
      !Complete(Unfinished(rt, es, r).value)
  {
    if es == [] {
      assert es + more == more;
    } else {
      assert (es + more)[0] == es[0] && (es + more)[1..] == es[1..] + more;
      var h := Handle(rt, es[0], r);
      if h.ok && !Complete(h.rev) {
        ScanOfSum(rt, es[1..], more, h.rev);
      }
    }
  }

  /** The entry is a valid one for the one item that is missing. */
  predicate Supplies(rt: RuuviTypes, e: Entry, r: Rev) {
    (HasNum(r) && NonemptyName(rt, e)) || (HasName(r) && NonzeroId(rt, e))
  }

  lemma LastEntry(rt: RuuviTypes, e: Entry, r: Rev)
    requires !Complete(r)
    ensures Scan(rt, [e], r).ok <==> Supplies(rt, e, r)
  {
    assert [e][1..] == [];
    if GoodName(rt, e) {
      StoreNameString(r.name, e.value.value);
    }
  }

  /**
   * The header examined past the protected TLVs makes a difference to the answer if and only if every TLV is
   * handled, one item is then missing, and the extra record is readable and valid for that item.
   */
  lemma ExtraHeaderExactly(rt: RuuviTypes, area: FlashArea, body: seq<byte>, ts: seq<Tlv>, rest: seq<byte>, r: Rev)
    requires Holds(area, body, ts, rest) && Cleared(r)
    ensures var unfinished, extra := Unfinished(rt, EntriesOf(ts), r), EntryAt(area, |body| + 4 + |Serialise(ts)|);
      (FindInFlash(rt, area, r).ok != Scan(rt, EntriesOf(ts), r).ok)
      <==> unfinished.Some? && Supplies(rt, extra, unfinished.value)
  {
    var es, extra := EntriesOf(ts), EntryAt(area, |body| + 4 + |Serialise(ts)|);
    EntriesOfImage(area, body, ts, rest);
    assert FindInFlash(rt, area, r) == Scan(rt, es + [extra], r);
    ScanOfSum(rt, es, [extra], r);
    match Unfinished(rt, es, r)
    case None =>
    case Some(s) => LastEntry(rt, extra, s);
  }

  function Zeros(n: nat): (s: seq<byte>)
    ensures |s| == n
  {
    seq(n, _ => 0)
  }

  const SMALL_BODY_SIZE := 0x1200

  /** A body of zeros but for its sizes: ih_hdr_size is 0x200, ih_img_size is 0x1000. */
  function SmallBody(): (s: seq<byte>)
    ensures |s| == SMALL_BODY_SIZE && AnnouncedEnd(s) == SMALL_BODY_SIZE
  {
    var s := Zeros(8) + [0, 2] + [0, 0] + [0, 16, 0, 0] + Zeros(SMALL_BODY_SIZE - 16);
    assert s[8..10] == [0, 2] && s[12..16] == [0, 16, 0, 0];
    assert s[8] == 0 && s[9] == 2 && s[12] == 0 && s[13] == 16 && s[14] == 0 && s[15] == 0;
    s
  }

  lemma OneTlv(t: Tlv)
    ensures Serialise([t]) == TlvBytes(t) && EntriesOf([t]) == [EntryOf(t)]
  {
    var ts := [t];
    assert ts[1..] == [];
    assert Serialise(ts) == TlvBytes(t) + Serialise([]);
    assert EntriesOf(ts) == [EntryOf(t)] + EntriesOf([]);
  }

  /** An image whose name TLV stands behind the protected area, and is found there all the same. */
  lemma ExtraHeaderMatters(rt: RuuviTypes, num: u32, name: seq<byte>, r: Rev) returns (area: FlashArea)
    requires num != 0 && 0 < |name| < HW_REV_NAME_SIZE && name[0] != 0 && Cleared(r)
    ensures var id, nm := RawTlv(rt.id, Be32Bytes(num)), RawTlv(rt.name, name);
      && Holds(area, SmallBody(), [id], TlvBytes(nm))
      && !Scan(rt, EntriesOf([id]), r).ok && FindInFlash(rt, area, r).ok
  {
    var id: Tlv, nm: Tlv := RawTlv(rt.id, Be32Bytes(num)), RawTlv(rt.name, name);
    OneTlv(id);
    area := FlashArea(Image(SmallBody(), [id], TlvBytes(nm)), {}, true);
    assert area.contents[..SMALL_BODY_SIZE] == SmallBody();
    PartsOfImage(area, SmallBody(), [id], TlvBytes(nm));
    var at := SMALL_BODY_SIZE + 4 + |TlvBytes(id)|;
    DecodeTlv(area, at, nm);
    LastEntry(rt, EntryOf(id), r);
    assert Unfinished(rt, [EntryOf(id)], r) == Some(r.(num := num));
    ExtraHeaderExactly(rt, area, SmallBody(), [id], TlvBytes(nm), r);
  }

  function RuuviTlvs(rt: RuuviTypes, ts: seq<Tlv>): seq<Tlv> {
    if ts == [] then []
    else if IsRuuvi(rt, ts[0].typ) then [ts[0]] + RuuviTlvs(rt, ts[1..])
    else RuuviTlvs(rt, ts[1..])
  }

  lemma {:induction false} RuuviOnlyOfTlvs(rt: RuuviTypes, ts: seq<Tlv>)
    ensures RuuviOnly(rt, EntriesOf(ts)) == EntriesOf(RuuviTlvs(rt, ts))
  {
    if ts != [] {
      assert EntriesOf(ts)[1..] == EntriesOf(ts[1..]);
      RuuviOnlyOfTlvs(rt, ts[1..]);
      if IsRuuvi(rt, ts[0].typ) {
        assert RuuviTlvs(rt, ts)[1..] == RuuviTlvs(rt, ts[1..]);
      }
    }
  }

  /**
   * Round trip: one ID and one name, among any other TLVs and before any bytes, come back as they were put
   * in, the name up to its first NUL.
   */
  lemma RoundTrip(
    rt: RuuviTypes, area: FlashArea, body: seq<byte>, ts: seq<Tlv>, rest: seq<byte>, num: u32, name: seq<byte>, r: Rev)
    requires Holds(area, body, ts, rest) && Cleared(r)
    requires num != 0 && 0 < |name| < HW_REV_NAME_SIZE && name[0] != 0
    requires var id, nm := RawTlv(rt.id, Be32Bytes(num)), RawTlv(rt.name, name);
      RuuviTlvs(rt, ts) == [id, nm] || RuuviTlvs(rt, ts) == [nm, id]
    ensures FindInFlash(rt, area, r).ok
    ensures FindInFlash(rt, area, r).rev.num == num
    ensures CStr(FindInFlash(rt, area, r).rev.name) == CStr(name)
    ensures 0 !in name ==> CStr(FindInFlash(rt, area, r).rev.name) == name
  {
    var id: Tlv, nm: Tlv := RawTlv(rt.id, Be32Bytes(num)), RawTlv(rt.name, name);
    RuuviOnlyOfTlvs(rt, ts);
    EntriesOfTwo(id, nm);
    EntriesOfTwo(nm, id);
    SinglePairFound(rt, EntriesOf(ts), EntryOf(id), EntryOf(nm), r);
    ExtraHeaderHarmless(rt, area, body, ts, rest, r);
    StoreNameString(r.name, name);
    if 0 !in name {
      CStrOfNulFree(name);
    }
  }

  lemma EntriesOfTwo(a: Tlv, b: Tlv)
    ensures EntriesOf([a, b]) == [EntryOf(a), EntryOf(b)]
  {
    assert [a, b][1..] == [b] && [b][1..] == [];
    assert EntriesOf([b]) == [EntryOf(b)];
  }
}
