/** fwloader_fw_ver.c: moving the build part of a version string before its extra part. */
module SemVer {
  const NUL := '\0'

  /** What a const char* to a NUL-terminated string denotes: the characters before the NUL. */
  type CString = s: string | NUL !in s

  datatype StringPtr = NullPtr | Ptr(str: CString)

  // Where the markers are

  /** strchr(s + from, c) - s, or |s| where strchr returns NULL. */
  function Find(s: string, c: char, from: nat): (n: nat)
    requires from <= |s|
    ensures from <= n <= |s|
    ensures forall k | from <= k < n :: s[k] != c
    ensures n < |s| ==> s[n] == c
    decreases |s| - from
  {
    if from == |s| || s[from] == c then from else Find(s, c, from + 1)
  }

  /** strcspn(s, "-+"): the length of the prefix without a marker. */
  function CoreLen(s: string): (n: nat)
    ensures n <= |s|
    ensures forall k | 0 <= k < n :: s[k] != '-' && s[k] != '+'
    ensures n < |s| ==> s[n] == '-' || s[n] == '+'
  {
    var dash, plus := Find(s, '-', 0), Find(s, '+', 0);
    if dash < plus then dash else plus
  }

  /** core-EXTRA+BUILD: a dash before the first plus. */
  predicate ExtraFirst(s: string) {
    var core := CoreLen(s);
    Find(s, '-', core) < Find(s, '+', core) < |s|
  }

  predicate HasBoth(s: string) {
    Find(s, '-', CoreLen(s)) < |s| && Find(s, '+', CoreLen(s)) < |s|
  }

  /** The three parts of a core-EXTRA+BUILD string. */
  datatype Parts = Parts(core: string, extra: string, build: string)

  function PartsOf(s: string): Parts
    requires ExtraFirst(s)
  {
    var core := CoreLen(s);
    var plus := Find(s, '+', core);
    Parts(s[..core], s[core + 1..plus], s[plus + 1..])
  }

  /** core+BUILD-EXTRA */
  function BuildFirst(core: string, build: string, extra: string): string {
    core + "+" + build + "-" + extra
  }

  function Rearranged(s: string): string {
    if ExtraFirst(s) then
      var p := PartsOf(s);
      BuildFirst(p.core, p.build, p.extra)
    else s
  }

  // The code

  /** memcpy(p, src, |src|); p += |src| */
  method Append(dst: array<char>, p: nat, src: string) returns (next: nat)
    requires p + |src| <= dst.Length
    modifies dst
    ensures next == p + |src|
    ensures dst[..next] == old(dst[..p]) + src
    ensures dst[next..] == old(dst[next..])
  {
    next := p + |src|;
    forall i | 0 <= i < |src| {
      dst[p + i] := src[i];
    }
    assert dst[..p] == old(dst[..p]) && dst[p..next] == src;
    assert dst[..next] == dst[..p] + dst[p..next];
  }

  /** strncpy(p_out_buf, src, n): the string, then NULs up to n characters. */
  method StrNCpy(dst: array<char>, src: CString, n: nat)
    requires |src| <= n <= dst.Length
    modifies dst
    ensures dst[..|src|] == src
    ensures forall i | |src| <= i < n :: dst[i] == NUL
    ensures dst[n..] == old(dst[n..])
  {
    forall i | 0 <= i < n {
      dst[i] := if i < |src| then src[i] else NUL;
    }
  }

  /** The copy of a string without both markers: strncpy, then a NUL in the last place. */
  method CopyTerminated(dst: array<char>, src: CString, size: nat)
    requires |src| < size <= dst.Length
    modifies dst
    ensures dst[..|src|] == src
    ensures forall i | |src| <= i < size :: dst[i] == NUL
    ensures dst[size..] == old(dst[size..])
  {
    StrNCpy(dst, src, size - 1);
    assert dst[size..] == dst[size - 1..][1..] == old(dst[size - 1..])[1..] == old(dst[size..]);
    dst[size - 1] := NUL;
  }

  /** The three parts behind one another, through a moving write position. */
  method WriteParts(dst: array<char>, core: string, build: string, extra: string) returns (p: nat)
    requires |core| + 1 + |build| + 1 + |extra| + 1 <= dst.Length
    modifies dst
    ensures p == |core| + |build| + |extra| + 2
    ensures dst[..p] == BuildFirst(core, build, extra) && dst[p] == NUL
    ensures dst[p + 1..] == old(dst[p + 1..])
  {
    ghost var before, end := dst[..], |core| + |build| + |extra| + 3;
    p := Append(dst, 0, core);
    assert dst[..p] == core && dst[end..] == before[end..];
    p := Append(dst, p, "+");
    assert dst[end..] == before[end..];
    p := Append(dst, p, build);
    assert dst[end..] == before[end..];
    p := Append(dst, p, "-");
    assert dst[end..] == before[end..];
    p := Append(dst, p, extra);
    assert p + 1 == end && dst[end..] == before[end..];
    dst[p] := NUL;
    assert dst[end..] == before[end..];
  }

  /**
   * semver_move_build_before_extra: succeeds on non-null arguments exactly when the buffer holds the string
   * and its NUL; a failing call leaves the buffer alone, and a rearranging one touches nothing past the NUL.
   */
  method MoveBuildBeforeExtra(orig: StringPtr, out: array?<char>, outSize: nat) returns (ok: bool)
    requires out != null ==> outSize <= out.Length
    modifies out
    ensures ok <==> orig.Ptr? && out != null && |orig.str| + 1 <= outSize
    ensures out != null && !ok ==> out[..] == old(out[..])
    ensures ok ==> out[..|orig.str|] == Rearranged(orig.str) && out[|orig.str|] == NUL
    ensures ok && HasBoth(orig.str) ==> out[|orig.str| + 1..] == old(out[|orig.str| + 1..])
    ensures ok && !HasBoth(orig.str) ==>
      (forall i | |orig.str| <= i < outSize :: out[i] == NUL) && out[outSize..] == old(out[outSize..])
  {
    if orig.NullPtr? || out == null || outSize == 0 {
      return false;
    }
    var s := orig.str;
    var coreLen := CoreLen(s);
    var dash, plus := Find(s, '-', coreLen), Find(s, '+', coreLen);
    if dash < |s| && plus < |s| {
      var ext, bld: string;
      if dash < plus {
        ext, bld := s[dash + 1..plus], s[plus + 1..];
      } else {
        bld, ext := s[plus + 1..dash], s[dash + 1..];
      }
      PartsInOrder(s, coreLen, dash, plus);
      var need := coreLen + 1 + |bld| + 1 + |ext| + 1;
      assert need == |s| + 1;
      if outSize < need {
        return false;
      }
      var p := WriteParts(out, s[..coreLen], bld, ext);
      assert p == |s|;
    } else {
      if outSize < |s| + 1 {
        return false;
      }
      MarkerMissing(s);
      CopyTerminated(out, s, outSize);
    }
    return true;
  }

  lemma PlusAtCore(s: string, core: nat, dash: nat)
    requires core < dash < |s| && s[core] == '+' && s[dash] == '-'
    ensures BuildFirst(s[..core], s[core + 1..dash], s[dash + 1..]) == s
  {}

  lemma DashAtCore(s: string, core: nat, plus: nat)
    requires core == CoreLen(s) < plus == Find(s, '+', core) < |s| && s[core] == '-'
    ensures Find(s, '-', core) == core
    ensures ExtraFirst(s) && PartsOf(s) == Parts(s[..core], s[core + 1..plus], s[plus + 1..])
  {}

  /** The parts in output order, whichever marker comes first. */
  lemma PartsInOrder(s: string, core: nat, dash: nat, plus: nat)
    requires core == CoreLen(s) && dash == Find(s, '-', core) < |s| && plus == Find(s, '+', core) < |s|
    ensures HasBoth(s)
    ensures dash < plus ==> Rearranged(s) == BuildFirst(s[..core], s[plus + 1..], s[dash + 1..plus])
    ensures plus < dash ==> Rearranged(s) == BuildFirst(s[..core], s[plus + 1..dash], s[dash + 1..])
  {
    if dash < plus {
      assert s[core] == '-';
      DashAtCore(s, core, plus);
    } else {
      assert s[core] == '+';
      PlusAtCore(s, core, dash);
    }
  }

  lemma MarkerMissing(s: string)
    requires !HasBoth(s)
    ensures Rearranged(s) == s
  {}

  // What the rearrangement is

  lemma SplitParts(s: string)
    requires ExtraFirst(s)
    ensures var p := PartsOf(s); s == p.core + "-" + p.extra + "+" + p.build
  {}

  /** The output has the input's length and characters. */
  lemma Rearrangement(s: string)
    ensures |Rearranged(s)| == |s|
    ensures multiset(Rearranged(s)) == multiset(s)
  {
    if ExtraFirst(s) {
      SplitParts(s);
      var p := PartsOf(s);
      assert multiset(p.core + "-" + p.extra + "+" + p.build)
          == multiset(p.core) + multiset{'-'} + multiset(p.extra) + multiset{'+'} + multiset(p.build);
      assert multiset(Rearranged(s))
          == multiset(p.core) + multiset{'+'} + multiset(p.build) + multiset{'-'} + multiset(p.extra);
    }
  }

  /** A marker-free prefix followed by a marker is the core. */
  lemma CoreLenOf(core: string, t: string)
    requires '-' !in core && '+' !in core
    requires |core| < |t| && t[..|core|] == core && (t[|core|] == '-' || t[|core|] == '+')
    ensures CoreLen(t) == |core|
  {
    assert forall k | 0 <= k < |core| :: t[k] == core[k];
  }

  /** The first occurrence of c after a prefix without it. */
  lemma FindAt(s: string, c: char, from: nat, n: nat)
    requires from <= n < |s| && s[n] == c && forall k | from <= k < n :: s[k] != c
    ensures Find(s, c, from) == n
  {}

  lemma Concatenation(a: string, m: char, b: string, n: char, c: string, t: string)
    requires t == a + [m] + b + [n] + c
    ensures |t| == |a| + 1 + |b| + 1 + |c|
    ensures t[..|a|] == a && t[|a|] == m
    ensures t[|a| + 1..|a| + 1 + |b|] == b
    ensures t[|a| + 1 + |b|] == n && t[|a| + 1 + |b| + 1..] == c
  {}

  /** Where the parts of a rearranged string lie. */
  lemma Layout(s: string)
    requires ExtraFirst(s)
    ensures var p, t := PartsOf(s), Rearranged(s);
      var core, cut := |p.core|, |p.core| + 1 + |p.build|;
      && core == CoreLen(s) && |t| == |s| == cut + 1 + |p.extra|
      && t[..core] == p.core && t[core] == '+' && t[core + 1..cut] == p.build
      && t[cut] == '-' && t[cut + 1..] == p.extra
  {
    var p := PartsOf(s);
    Concatenation(p.core, '+', p.build, '-', p.extra, Rearranged(s));
  }

  lemma PlusFirst(t: string, core: string)
    requires '-' !in core && '+' !in core
    requires |core| < |t| && t[..|core|] == core && t[|core|] == '+'
    ensures CoreLen(t) == |core| && !ExtraFirst(t)
  {
    CoreLenOf(core, t);
  }

  lemma RearrangedShape(s: string)
    requires ExtraFirst(s)
    ensures CoreLen(Rearranged(s)) == CoreLen(s)
    ensures !ExtraFirst(Rearranged(s))
  {
    Layout(s);
    PlusFirst(Rearranged(s), PartsOf(s).core);
  }

  lemma Idempotent(s: string)
    ensures Rearranged(Rearranged(s)) == Rearranged(s)
  {
    if ExtraFirst(s) {
      RearrangedShape(s);
    }
  }

  /** The strings the rearrangement leaves as they are: '+' first, or a marker missing. */
  lemma IdentityExactly(s: string)
    ensures Rearranged(s) == s <==> !ExtraFirst(s)
  {
    if ExtraFirst(s) {
      RearrangedShape(s);
    }
  }

  // Undoing it

  /** Every dash of a build part is followed by a later plus; without a plus in it, the build has no dash. */
  predicate NoLateDash(build: string) {
    forall k | 0 <= k < |build| && build[k] == '-' :: exists j | k < j < |build| :: build[j] == '+'
  }

  function LastPlus(t: string): (n: int)
    ensures -1 <= n < |t|
    ensures n >= 0 ==> t[n] == '+'
    ensures forall k | n < k < |t| :: t[k] != '+'
  {
    if t == [] then -1 else if t[|t| - 1] == '+' then |t| - 1 else LastPlus(t[..|t| - 1])
  }

  /** Back from core+BUILD-EXTRA, cutting at the first dash after the last plus. */
  function Undone(t: string): string {
    var core, plus := CoreLen(t), LastPlus(t);
    if core <= plus && Find(t, '-', plus) < |t| then
      var dash := Find(t, '-', plus);
      t[..core] + "-" + t[dash + 1..] + "+" + t[core + 1..dash]
    else t
  }

  /** The cut is found where it was made, or at a dash of BUILD that no plus follows. */
  lemma CutFound(s: string)
    requires ExtraFirst(s)
    ensures var t, p := Rearranged(s), PartsOf(s);
      var core, cut := |p.core|, |p.core| + 1 + |p.build|;
      && CoreLen(t) == core <= LastPlus(t) < cut
      && Find(t, '-', LastPlus(t)) <= cut
      && (Find(t, '-', LastPlus(t)) == cut <==> NoLateDash(p.build))
  {
    Layout(s);
    RearrangedShape(s);
    var p := PartsOf(s);
    assert '+' !in p.extra;
    CutIn(Rearranged(s), p.core, p.build, p.extra);
  }

  lemma CutIn(t: string, core: string, build: string, extra: string)
    requires t == BuildFirst(core, build, extra) && '+' !in extra
    ensures var cut := |core| + 1 + |build|;
      && |core| <= LastPlus(t) < cut
      && Find(t, '-', LastPlus(t)) <= cut
      && (Find(t, '-', LastPlus(t)) == cut <==> NoLateDash(build))
  {
    Concatenation(core, '+', build, '-', extra, t);
    var cut, plus := |core| + 1 + |build|, LastPlus(t);
    assert forall k | cut < k < |t| :: t[k] == extra[k - cut - 1];
    assert t[|core|] == '+';
    LateDashIn(t, core, build, plus);
  }

  lemma LateDashIn(t: string, core: string, build: string, plus: nat)
    requires |core| <= plus < |core| + 1 + |build| < |t|
    requires t[plus] == '+' && t[|core| + 1 + |build|] == '-'
    requires t[|core| + 1..|core| + 1 + |build|] == build
    requires forall k | plus < k < |t| :: t[k] != '+'
    ensures Find(t, '-', plus) == |core| + 1 + |build| <==> NoLateDash(build)
  {
    var first, cut := |core| + 1, |core| + 1 + |build|;
    assert forall j | 0 <= j < |build| :: build[j] == t[first + j];
    var dash := Find(t, '-', plus);
    if dash < cut {
      assert build[dash - first] == '-';
    } else {
      forall k | 0 <= k < |build| && build[k] == '-'
        ensures exists j | k < j < |build| :: build[j] == '+'
      {
        assert t[first + k] == '-';
        assert build[plus - first] == '+';
      }
    }
  }

  /** Undone on a rearranged string, with the cut where it was made. */
  lemma UndoneAtCut(t: string, core: string, build: string, extra: string)
    requires t == BuildFirst(core, build, extra) && CoreLen(t) == |core| <= LastPlus(t)
    requires Find(t, '-', LastPlus(t)) == |core| + 1 + |build|
    ensures Undone(t) == core + "-" + extra + "+" + build
  {
    Concatenation(core, '+', build, '-', extra, t);
  }

  /** And with an early cut: the plus of the original stands where a character after the last plus is put. */
  lemma UndoneTooEarly(t: string, core: string, build: string, extra: string)
    requires t == BuildFirst(core, build, extra) && CoreLen(t) == |core| <= LastPlus(t)
    requires Find(t, '-', LastPlus(t)) < |core| + 1 + |build|
    ensures Undone(t) != core + "-" + extra + "+" + build
  {
    Concatenation(core, '+', build, '-', extra, t);
    var dash, at := Find(t, '-', LastPlus(t)), |core| + 1 + |extra|;
    var u := t[..|core|] + "-" + t[dash + 1..] + "+" + t[|core| + 1..dash];
    assert Undone(t) == u;
    assert u[at] == t[dash + 1..][|extra|] == t[dash + 1 + |extra|] != '+';
    assert (core + "-" + extra + "+" + build)[at] == '+';
  }

  /** The inverse recovers a core-EXTRA+BUILD string exactly when every dash of BUILD has a plus after it. */
  lemma UndoneExactly(s: string)
    requires ExtraFirst(s)
    ensures Undone(Rearranged(s)) == s <==> NoLateDash(PartsOf(s).build)
  {
    var t, p := Rearranged(s), PartsOf(s);
    CutFound(s);
    SplitParts(s);
    if NoLateDash(p.build) {
      UndoneAtCut(t, p.core, p.build, p.extra);
    } else {
      UndoneTooEarly(t, p.core, p.build, p.extra);
    }
  }

  lemma Injective(s: string, s': string)
    requires ExtraFirst(s) && NoLateDash(PartsOf(s).build)
    requires ExtraFirst(s') && NoLateDash(PartsOf(s').build)
    requires Rearranged(s) == Rearranged(s')
    ensures s == s'
  {
    UndoneExactly(s);
    UndoneExactly(s');
  }

  /** What becomes of a string put together from its parts. */
  lemma RearrangedOf(core: string, extra: string, build: string)
    requires '-' !in core && '+' !in core && '+' !in extra
    ensures var s := core + "-" + extra + "+" + build;
      && ExtraFirst(s) && PartsOf(s) == Parts(core, extra, build)
      && Rearranged(s) == core + "+" + build + "-" + extra
  {
    var s, plus := core + "-" + extra + "+" + build, |core| + 1 + |extra|;
    Concatenation(core, '-', extra, '+', build, s);
    CoreLenOf(core, s);
    assert forall k | |core| < k < plus :: s[k] == extra[k - |core| - 1];
    FindAt(s, '-', |core|, |core|);
    FindAt(s, '+', |core|, plus);
  }

  /** Two cuts of the same text, at a dash and at a later dash. */
  lemma SameText(core: string, build: string, mid: string, extra: string)
    ensures BuildFirst(core, build + "-" + mid, extra) == BuildFirst(core, build, mid + "-" + extra)
  {}

  /** A dash can move between the parts: the string with the shorter BUILD and the one with the longer collide. */
  lemma Collision(core: string, build: string, mid: string, extra: string)
    requires '-' !in core && '+' !in core && '+' !in mid && '+' !in extra
    ensures
      var long := core + "-" + extra + "+" + (build + "-" + mid);
      var short := core + "-" + (mid + "-" + extra) + "+" + build;
      && ExtraFirst(long) && ExtraFirst(short) && long != short
      && Rearranged(long) == Rearranged(short)
  {
    RearrangedOf(core, extra, build + "-" + mid);
    RearrangedOf(core, mid + "-" + extra, build);
    SameText(core, build, mid, extra);
  }

  lemma PlusFree(s: string)
    requires ExtraFirst(s)
    ensures '-' !in PartsOf(s).core && '+' !in PartsOf(s).core && '+' !in PartsOf(s).extra
  {}

  ghost predicate Collides(s: string) {
    exists s' :: s' != s && ExtraFirst(s') && Rearranged(s') == Rearranged(s)
  }

  lemma LateDashCollides(s: string, k: nat)
    requires ExtraFirst(s) && k < |PartsOf(s).build| && PartsOf(s).build[k] == '-'
    requires forall j | k < j < |PartsOf(s).build| :: PartsOf(s).build[j] != '+'
    ensures Collides(s)
  {
    var p := PartsOf(s);
    PlusFree(s);
    SplitParts(s);
    var front, mid := p.build[..k], p.build[k + 1..];
    assert p.build == front + "-" + mid;
    Collision(p.core, front, mid, p.extra);
    assert s == p.core + "-" + p.extra + "+" + (front + "-" + mid);
  }

  lemma DashInExtraCollides(s: string, k: nat)
    requires ExtraFirst(s) && k < |PartsOf(s).extra| && PartsOf(s).extra[k] == '-'
    ensures Collides(s)
  {
    var p := PartsOf(s);
    PlusFree(s);
    SplitParts(s);
    var mid, rest := p.extra[..k], p.extra[k + 1..];
    assert p.extra == mid + "-" + rest;
    Collision(p.core, p.build, mid, rest);
    assert s == p.core + "-" + (mid + "-" + rest) + "+" + p.build;
  }

  /** Without a dash in the last part, a text is cut no later than at its last dash. */
  lemma SameCut(p: Parts, q: Parts)
    requires BuildFirst(p.core, p.build, p.extra) == BuildFirst(q.core, q.build, q.extra)
    requires |p.core| == |q.core| && |p.build| <= |q.build| && '-' !in p.extra
    ensures p == q
  {
    var t := BuildFirst(p.core, p.build, p.extra);
    Concatenation(p.core, '+', p.build, '-', p.extra, t);
    Concatenation(q.core, '+', q.build, '-', q.extra, t);
    var cut := |p.core| + 1 + |p.build|;
    assert forall k | cut < k < |t| :: t[k] == p.extra[k - cut - 1];
  }

  lemma OnlyCut(s: string, s': string)
    requires ExtraFirst(s) && NoLateDash(PartsOf(s).build) && '-' !in PartsOf(s).extra
    requires ExtraFirst(s') && Rearranged(s') == Rearranged(s)
    ensures s' == s
  {
    CutFound(s);
    CutFound(s');
    SameCut(PartsOf(s), PartsOf(s'));
    SplitParts(s);
    SplitParts(s');
  }

  /** A core-EXTRA+BUILD string shares its rearrangement with another exactly if EXTRA or a late BUILD has a dash. */
  lemma CollidesExactly(s: string)
    requires ExtraFirst(s)
    ensures Collides(s) <==> !NoLateDash(PartsOf(s).build) || '-' in PartsOf(s).extra
  {
    var p := PartsOf(s);
    if !NoLateDash(p.build) {
      var k :| 0 <= k < |p.build| && p.build[k] == '-' && forall j | k < j < |p.build| :: p.build[j] != '+';
      LateDashCollides(s, k);
    } else if '-' in p.extra {
      var k :| 0 <= k < |p.extra| && p.extra[k] == '-';
      DashInExtraCollides(s, k);
    } else {
      forall s' | ExtraFirst(s') && Rearranged(s') == Rearranged(s)
        ensures s' == s
      {
        OnlyCut(s, s');
      }
    }
  }

  /** A dash in BUILD, which item 10 of Semantic Versioning 2.0.0 allows: 1-a+b-c and 1-c-a+b collide. */
  lemma DashInBuildCollides() returns (s: string, s': string)
    ensures s == "1" + "-" + "a" + "+" + ("b" + "-" + "c")
    ensures s' == "1" + "-" + ("c" + "-" + "a") + "+" + "b"
    ensures ExtraFirst(s) && ExtraFirst(s') && s != s' && Rearranged(s) == Rearranged(s')
  {
    s := "1" + "-" + "a" + "+" + ("b" + "-" + "c");
    s' := "1" + "-" + ("c" + "-" + "a") + "+" + "b";
    Collision("1", "b", "c", "a");
  }

  // The shell's use of the result (shell_cmd_ruuvi.c)

  const PROD_SUFFIX := "-prod"

  predicate EndsWith(s: string, suffix: string) {
    |s| >= |suffix| && s[|s| - |suffix|..] == suffix
  }

  /** is_prod in cmd_ruuvi_version_info */
  predicate IsProd(version: string) {
    EndsWith(version, PROD_SUFFIX)
  }

  /** The suffix test on the rearranged version is a test of EXTRA alone, whatever core and build are. */
  lemma IsProdExactly(s: string)
    requires ExtraFirst(s)
    ensures var extra := PartsOf(s).extra;
      IsProd(Rearranged(s)) <==> extra == "prod" || EndsWith(extra, PROD_SUFFIX)
  {
    var p := PartsOf(s);
    SuffixAfterDash(p.core + "+" + p.build, p.extra);
  }

  lemma SuffixAfterDash(before: string, extra: string)
    ensures IsProd(before + "-" + extra) <==> extra == "prod" || EndsWith(extra, PROD_SUFFIX)
  {
    var t := before + "-" + extra;
    if |extra| >= 5 {
      assert t[|t| - 5..] == extra[|extra| - 5..];
    } else if |extra| == 4 {
      assert t[|t| - 5..] == "-" + extra;
      assert t[|t| - 5..][1..] == extra && PROD_SUFFIX[1..] == "prod";
    } else {
      // the dash before EXTRA falls on a letter of the suffix
      var k := 4 - |extra|;
      assert |t| >= 5 ==> t[|t| - 5..][k] == '-';
      assert PROD_SUFFIX[k] != '-';
    }
  }
}
