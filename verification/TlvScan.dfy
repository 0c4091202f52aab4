/**
 * The protected TLV area of an MCUboot image, as a list of decoded entries, and what a search for the two
 * Ruuvi hardware revision TLVs means over such a list.
 */
module TlvScan {
  import opened Bytes

  // Layout of MCUboot's image header and TLV records (32-bit little-endian target)
  const IMAGE_HEADER_SIZE := 32
  const TLV_HEADER_SIZE := 4
  const IMAGE_TLV_PROT_INFO_MAGIC: u16 := 0x6908

  const HW_REV_NUM_SIZE := 4
  const HW_REV_NAME_SIZE := 16

  datatype TypePair = TypePair(id: u16, name: u16)

  /** IMAGE_TLV_RUUVI_HW_REV_ID and IMAGE_TLV_RUUVI_HW_REV_NAME: any two distinct type numbers. */
  type RuuviTypes = t: TypePair | t.id != t.name witness TypePair(0, 1)

  predicate IsRuuvi(rt: RuuviTypes, typ: u16) {
    typ == rt.id || typ == rt.name
  }

  /** One decoded record; `value` is None when the bytes of the value cannot be read. */
  datatype RawEntry =
    | Unreadable
    | Entry(typ: u16, len: u16, value: Option<seq<byte>>)

  type Entry = e: RawEntry | e.Entry? && e.value.Some? ==> |e.value.value| == e.len witness Unreadable

  /** The contents of a fw_image_hw_rev_t. */
  datatype RawRev = RawRev(num: u32, name: seq<byte>)

  type Rev = r: RawRev | |r.name| == HW_REV_NAME_SIZE
    witness RawRev(0, [0, 0, 0, 0, 0, 0, 0, 0, 0, 0, 0, 0, 0, 0, 0, 0])

  predicate HasNum(r: Rev) { r.num != 0 }

  predicate HasName(r: Rev) { r.name[0] != 0 }

  predicate Complete(r: Rev) { HasNum(r) && HasName(r) }

  predicate Cleared(r: Rev) { !HasNum(r) && !HasName(r) }

  /** What a search returns and what it leaves in the result structure. */
  datatype Outcome = Outcome(ok: bool, rev: Rev)

  /** The name buffer after a value of at most 15 bytes is stored in it and terminated. */
  function StoreName(name: seq<byte>, value: seq<byte>): seq<byte>
    requires |name| == HW_REV_NAME_SIZE && |value| < HW_REV_NAME_SIZE
  {
    value + [0] + name[|value| + 1..]
  }

  /** Writing the value over the buffer and then the terminator stores the name. */
  lemma StoreNameByUpdate(name: seq<byte>, value: seq<byte>)
    requires |name| == HW_REV_NAME_SIZE && |value| < HW_REV_NAME_SIZE
    ensures (value + name[|value|..])[|value| := 0] == StoreName(name, value)
  {}

  /** One entry: fails on a bad length, a second ID or name, and an unreadable value. */
  function Handle(rt: RuuviTypes, e: Entry, r: Rev): Outcome {
    if e.Unreadable? then Outcome(false, r)
    else if e.typ == rt.id then
      if e.len != HW_REV_NUM_SIZE || HasNum(r) || e.value.None? then Outcome(false, r)
      else Outcome(true, r.(num := Be32(e.value.value)))
    else if e.typ == rt.name then
      if e.len >= HW_REV_NAME_SIZE || HasName(r) || e.value.None? then Outcome(false, r)
      else Outcome(true, r.(name := StoreName(r.name, e.value.value)))
    else Outcome(true, r)
  }

  /** The search over the entries: stops at the first failure and at the entry that completes the pair. */
  function Scan(rt: RuuviTypes, es: seq<Entry>, r: Rev): Outcome {
    if es == [] then Outcome(false, r)
    else
      var h := Handle(rt, es[0], r);
      if !h.ok then h
      else if Complete(h.rev) then h
      else Scan(rt, es[1..], h.rev)
  }

  lemma SuccessIsComplete(rt: RuuviTypes, es: seq<Entry>, r: Rev)
    ensures Scan(rt, es, r).ok ==> Complete(Scan(rt, es, r).rev)
  {}

  /** The name buffer holds a NUL whatever the entries are. */
  lemma {:induction false} ScanTerminated(rt: RuuviTypes, es: seq<Entry>, r: Rev)
    requires 0 in r.name
    ensures 0 in Scan(rt, es, r).rev.name
  {
    if es != [] {
      var h := Handle(rt, es[0], r);
      if GoodName(rt, es[0]) {
        assert StoreName(r.name, es[0].value.value)[es[0].len] == 0;
      }
      if h.ok && !Complete(h.rev) {
        ScanTerminated(rt, es[1..], h.rev);
      }
    }
  }

  // What the search is for, stated over indices of the list

  predicate IsId(rt: RuuviTypes, e: Entry) { e.Entry? && e.typ == rt.id }

  predicate IsName(rt: RuuviTypes, e: Entry) { e.Entry? && e.typ == rt.name }

  /** An ID entry of the right length whose value can be read. */
  predicate GoodId(rt: RuuviTypes, e: Entry) { IsId(rt, e) && e.len == HW_REV_NUM_SIZE && e.value.Some? }

  /** A name entry that leaves room for the terminator and whose value can be read. */
  predicate GoodName(rt: RuuviTypes, e: Entry) { IsName(rt, e) && e.len < HW_REV_NAME_SIZE && e.value.Some? }

  predicate NonzeroId(rt: RuuviTypes, e: Entry) { GoodId(rt, e) && Be32(e.value.value) != 0 }

  predicate NonemptyName(rt: RuuviTypes, e: Entry) { GoodName(rt, e) && e.value.value != [] && e.value.value[0] != 0 }

  predicate Malformed(rt: RuuviTypes, e: Entry) {
    e.Unreadable? || (IsId(rt, e) && !GoodId(rt, e)) || (IsName(rt, e) && !GoodName(rt, e))
  }

  /**
   * i is the first nonzero ID, n the first nonempty name, nothing up to the later of the two is malformed,
   * and no further ID or name lies between either of them and that point. Index -1 means that the structure
   * already held the item before the first entry.
   */
  ghost predicate DeclaresFrom(rt: RuuviTypes, es: seq<Entry>, i: int, n: int) {
    var k := if i < n then n else i;
    && -1 <= i < |es| && -1 <= n < |es|
    && (i >= 0 ==> NonzeroId(rt, es[i]))
    && (n >= 0 ==> NonemptyName(rt, es[n]))
    && (forall j | 0 <= j < i :: !NonzeroId(rt, es[j]))
    && (forall j | 0 <= j < n :: !NonemptyName(rt, es[j]))
    && (forall j | 0 <= j <= k :: !Malformed(rt, es[j]))
    && (forall j | 0 <= j <= k && i < j :: !IsId(rt, es[j]))
    && (forall j | 0 <= j <= k && n < j :: !IsName(rt, es[j]))
  }

  ghost predicate Declares(rt: RuuviTypes, es: seq<Entry>, i: nat, n: nat) {
    DeclaresFrom(rt, es, i, n)
  }

  function Shift(i: int): int { if i <= 0 then -1 else i - 1 }

  lemma StoreNameString(name: seq<byte>, value: seq<byte>)
    requires |name| == HW_REV_NAME_SIZE && |value| < HW_REV_NAME_SIZE
    ensures |StoreName(name, value)| == HW_REV_NAME_SIZE
    ensures CStr(StoreName(name, value)) == CStr(value)
    ensures StoreName(name, value)[0] != 0 <==> value != [] && value[0] != 0
  {
    CStrOfTerminated(value, name[|value| + 1..]);
  }

  /** Soundness, from any partly filled structure: a successful search exhibits the two entries. */
  lemma {:induction false} ScanExhibits(rt: RuuviTypes, es: seq<Entry>, r: Rev) returns (i: int, n: int)
    requires !Complete(r) && Scan(rt, es, r).ok
    ensures DeclaresFrom(rt, es, i, n)
    ensures (i == -1 <==> HasNum(r)) && (n == -1 <==> HasName(r))
  {
    var h := Handle(rt, es[0], r);
    if GoodName(rt, es[0]) {
      StoreNameString(r.name, es[0].value.value);
    }
    if Complete(h.rev) {
      i, n := if HasNum(r) then -1 else 0, if HasName(r) then -1 else 0;
    } else {
      var i', n' := ScanExhibits(rt, es[1..], h.rev);
      i := if HasNum(r) then -1 else i' + 1;
      n := if HasName(r) then -1 else n' + 1;
      Unshift(rt, es, i, n);
    }
  }

  /** DeclaresFrom on a list in terms of its head and its tail. */
  lemma Unshift(rt: RuuviTypes, es: seq<Entry>, i: int, n: int)
    requires es != [] && -1 <= i < |es| && -1 <= n < |es| && (i > 0 || n > 0)
    requires DeclaresFrom(rt, es[1..], Shift(i), Shift(n))
    requires !Malformed(rt, es[0])
    requires i == 0 ==> NonzeroId(rt, es[0])
    requires n == 0 ==> NonemptyName(rt, es[0])
    requires i > 0 ==> !NonzeroId(rt, es[0])
    requires n > 0 ==> !NonemptyName(rt, es[0])
    requires i < 0 ==> !IsId(rt, es[0])
    requires n < 0 ==> !IsName(rt, es[0])
    ensures DeclaresFrom(rt, es, i, n)
  {
    var t := es[1..];
    assert forall j | 0 < j < |es| :: es[j] == t[j - 1];
  }

  /** Completeness, from any partly filled structure, with what the structure holds afterwards. */
  lemma {:induction false} DeclaredScans(rt: RuuviTypes, es: seq<Entry>, r: Rev, i: int, n: int)
    requires !Complete(r) && DeclaresFrom(rt, es, i, n)
    requires (i == -1 <==> HasNum(r)) && (n == -1 <==> HasName(r))
    ensures Scan(rt, es, r).ok
    ensures Scan(rt, es, r).rev.num == if i == -1 then r.num else Be32(es[i].value.value)
    ensures CStr(Scan(rt, es, r).rev.name) == CStr(if n == -1 then r.name else es[n].value.value)
  {
    var h := Handle(rt, es[0], r);
    assert !Malformed(rt, es[0]);
    if GoodName(rt, es[0]) {
      StoreNameString(r.name, es[0].value.value);
    }
    if !Complete(h.rev) {
      var t := es[1..];
      assert forall j | 0 < j < |es| :: es[j] == t[j - 1];
      DeclaredScans(rt, t, h.rev, Shift(i), Shift(n));
    }
  }

  /** Success is declared by the entries alone: both directions. */
  lemma ScanCharacterised(rt: RuuviTypes, es: seq<Entry>, r: Rev)
    requires Cleared(r)
    ensures Scan(rt, es, r).ok <==> exists i: nat, n: nat :: Declares(rt, es, i, n)
    ensures forall i: nat, n: nat | Declares(rt, es, i, n) ::
              && Scan(rt, es, r).rev.num == Be32(es[i].value.value)
              && CStr(Scan(rt, es, r).rev.name) == CStr(es[n].value.value)
  {
    if Scan(rt, es, r).ok {
      var i, n := ScanExhibits(rt, es, r);
      assert Declares(rt, es, i, n);
    }
    forall i: nat, n: nat | Declares(rt, es, i, n)
      ensures Scan(rt, es, r).ok
      ensures Scan(rt, es, r).rev.num == Be32(es[i].value.value)
      ensures CStr(Scan(rt, es, r).rev.name) == CStr(es[n].value.value)
    {
      DeclaredScans(rt, es, r, i, n);
    }
  }

  // A search that fails

  /** The structure as both searches set it before they begin. */
  function Clear(r: Rev): Rev {
    RawRev(0, r.name[0 := 0])
  }

  ghost predicate HeldId(rt: RuuviTypes, es: seq<Entry>, r: Rev, j: nat)
    requires j <= |es|
  {
    HasNum(r) || exists i | 0 <= i < j :: NonzeroId(rt, es[i])
  }

  ghost predicate HeldName(rt: RuuviTypes, es: seq<Entry>, r: Rev, j: nat)
    requires j <= |es|
  {
    HasName(r) || exists n | 0 <= n < j :: NonemptyName(rt, es[n])
  }

  /** Entry j is malformed, or an ID or a name while that item is held already. */
  ghost predicate Rejected(rt: RuuviTypes, es: seq<Entry>, r: Rev, j: nat)
    requires j < |es|
  {
    || Malformed(rt, es[j])
    || (IsId(rt, es[j]) && HeldId(rt, es, r, j))
    || (IsName(rt, es[j]) && HeldName(rt, es, r, j))
  }

  /** k is the first entry that is rejected, or the end of the list. */
  ghost predicate StopsAt(rt: RuuviTypes, es: seq<Entry>, r: Rev, k: nat) {
    && k <= |es|
    && (forall j | 0 <= j < k :: !Rejected(rt, es, r, j))
    && (k < |es| ==> Rejected(rt, es, r, k))
  }

  ghost predicate FirstId(rt: RuuviTypes, es: seq<Entry>, i: nat) {
    i < |es| && NonzeroId(rt, es[i]) && forall j | 0 <= j < i :: !NonzeroId(rt, es[j])
  }

  ghost predicate FirstName(rt: RuuviTypes, es: seq<Entry>, n: nat) {
    n < |es| && NonemptyName(rt, es[n]) && forall j | 0 <= j < n :: !NonemptyName(rt, es[j])
  }

  /** The ID is that of the first nonzero ID entry before k, or what r held. */
  ghost predicate LeavesId(rt: RuuviTypes, es: seq<Entry>, r: Rev, k: nat, rev: Rev) {
    && k <= |es|
    && (forall i: nat | i < k && !HasNum(r) && FirstId(rt, es, i) :: rev.num == Be32(es[i].value.value))
    && (HasNum(r) || !HeldId(rt, es, r, k) ==> rev.num == r.num)
  }

  /** The name is that of the first nonempty name entry before k, or what r held. */
  ghost predicate LeavesName(rt: RuuviTypes, es: seq<Entry>, r: Rev, k: nat, rev: Rev) {
    && k <= |es|
    && (forall n: nat | n < k && !HasName(r) && FirstName(rt, es, n) :: CStr(rev.name) == CStr(es[n].value.value))
    && (HasName(r) || !HeldName(rt, es, r, k) ==> CStr(rev.name) == CStr(r.name))
  }

  /** One entry that is handled: what the rest of the list sees. */
  lemma HeldAfter(rt: RuuviTypes, es: seq<Entry>, r: Rev, h: Outcome, j: nat)
    requires es != [] && h == Handle(rt, es[0], r) && h.ok && 1 <= j <= |es|
    ensures HeldId(rt, es, r, j) <==> HeldId(rt, es[1..], h.rev, j - 1)
    ensures HeldName(rt, es, r, j) <==> HeldName(rt, es[1..], h.rev, j - 1)
  {
    var t := es[1..];
    assert forall i | 0 < i < |es| :: es[i] == t[i - 1];
    if GoodName(rt, es[0]) {
      StoreNameString(r.name, es[0].value.value);
    }
    assert HasNum(h.rev) <==> HasNum(r) || NonzeroId(rt, es[0]);
    assert HasName(h.rev) <==> HasName(r) || NonemptyName(rt, es[0]);
    if i :| 0 <= i < j && NonzeroId(rt, es[i]) && i > 0 {
      assert NonzeroId(rt, t[i - 1]);
    }
    if i :| 0 <= i < j - 1 && NonzeroId(rt, t[i]) {
      assert NonzeroId(rt, es[i + 1]);
    }
    if n :| 0 <= n < j && NonemptyName(rt, es[n]) && n > 0 {
      assert NonemptyName(rt, t[n - 1]);
    }
    if n :| 0 <= n < j - 1 && NonemptyName(rt, t[n]) {
      assert NonemptyName(rt, es[n + 1]);
    }
  }

  lemma StopsAfter(rt: RuuviTypes, es: seq<Entry>, r: Rev, h: Outcome, k: nat)
    requires es != [] && h == Handle(rt, es[0], r) && h.ok && StopsAt(rt, es[1..], h.rev, k)
    ensures StopsAt(rt, es, r, k + 1)
  {
    var t := es[1..];
    forall j | 1 <= j < |es|
      ensures Rejected(rt, es, r, j) <==> Rejected(rt, t, h.rev, j - 1)
    {
      HeldAfter(rt, es, r, h, j);
    }
  }

  lemma LeavesIdAfter(rt: RuuviTypes, es: seq<Entry>, r: Rev, h: Outcome, k: nat, rev: Rev)
    requires es != [] && h == Handle(rt, es[0], r) && h.ok && LeavesId(rt, es[1..], h.rev, k, rev)
    ensures LeavesId(rt, es, r, k + 1, rev)
  {
    HeldAfter(rt, es, r, h, k + 1);
    forall i: nat | i < k + 1 && !HasNum(r) && FirstId(rt, es, i)
      ensures rev.num == Be32(es[i].value.value)
    {
      if i > 0 {
        FirstIdAfter(rt, es, i);
      }
    }
  }

  lemma FirstIdAfter(rt: RuuviTypes, es: seq<Entry>, i: nat)
    requires 0 < i && FirstId(rt, es, i)
    ensures FirstId(rt, es[1..], i - 1) && !NonzeroId(rt, es[0])
  {
    assert forall j | 0 <= j < i - 1 :: es[1..][j] == es[j + 1];
  }

  lemma LeavesNameAfter(rt: RuuviTypes, es: seq<Entry>, r: Rev, h: Outcome, k: nat, rev: Rev)
    requires es != [] && h == Handle(rt, es[0], r) && h.ok && LeavesName(rt, es[1..], h.rev, k, rev)
    ensures LeavesName(rt, es, r, k + 1, rev)
  {
    HeldAfter(rt, es, r, h, k + 1);
    if GoodName(rt, es[0]) {
      StoreNameString(r.name, es[0].value.value);
      CStrEmpty(r.name);
      CStrEmpty(h.rev.name);
    }
    forall n: nat | n < k + 1 && !HasName(r) && FirstName(rt, es, n)
      ensures CStr(rev.name) == CStr(es[n].value.value)
    {
      if n > 0 {
        FirstNameAfter(rt, es, n);
      }
    }
  }

  lemma CStrEmpty(s: seq<byte>)
    requires s != []
    ensures CStr(s) == [] <==> s[0] == 0
  {}

  lemma FirstNameAfter(rt: RuuviTypes, es: seq<Entry>, n: nat)
    requires 0 < n && FirstName(rt, es, n)
    ensures FirstName(rt, es[1..], n - 1) && !NonemptyName(rt, es[0])
  {
    assert forall j | 0 <= j < n - 1 :: es[1..][j] == es[j + 1];
  }

  /** Where a search that fails has stopped, and what it leaves. */
  lemma {:induction false} FailureLeaves(rt: RuuviTypes, es: seq<Entry>, r: Rev) returns (k: nat)
    requires !Complete(r) && !Scan(rt, es, r).ok
    ensures StopsAt(rt, es, r, k) && !(HeldId(rt, es, r, k) && HeldName(rt, es, r, k))
    ensures LeavesId(rt, es, r, k, Scan(rt, es, r).rev) && LeavesName(rt, es, r, k, Scan(rt, es, r).rev)
  {
    k := 0;
    if es != [] {
      var h := Handle(rt, es[0], r);
      if h.ok {
        var k' := FailureLeaves(rt, es[1..], h.rev);
        k := k' + 1;
        HeldAfter(rt, es, r, h, k);
        StopsAfter(rt, es, r, h, k');
        LeavesIdAfter(rt, es, r, h, k', Scan(rt, es, r).rev);
        LeavesNameAfter(rt, es, r, h, k', Scan(rt, es, r).rev);
      }
    }
  }

  /** Every cleared structure is as good as a blank one. */
  const BLANK: Rev := RawRev(0, [0, 0, 0, 0, 0, 0, 0, 0, 0, 0, 0, 0, 0, 0, 0, 0])

  lemma FromBlank(rt: RuuviTypes, es: seq<Entry>, r: Rev, k: nat, rev: Rev)
    requires Cleared(r) && StopsAt(rt, es, r, k) && LeavesId(rt, es, r, k, rev) && LeavesName(rt, es, r, k, rev)
    ensures StopsAt(rt, es, BLANK, k) && LeavesId(rt, es, BLANK, k, rev) && LeavesName(rt, es, BLANK, k, rev)
  {
    CStrEmpty(r.name);
    CStrEmpty(BLANK.name);
    assert forall j | 0 <= j < |es| :: Rejected(rt, es, BLANK, j) <==> Rejected(rt, es, r, j);
  }

  /** There is one such place. */
  lemma StopsOnce(rt: RuuviTypes, es: seq<Entry>, r: Rev, k: nat, k': nat)
    requires StopsAt(rt, es, r, k) && StopsAt(rt, es, r, k')
    ensures k == k'
  {}
}
