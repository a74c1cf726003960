/**
 The page-table walker of the kernel extension, and the pass that gives user code all rights to every page
 that is mapped: a change of permissions that leaves every translation as it was.  Descriptors are 32-bit
 words laid out as in section B4.7 of the ARM Architecture Reference Manual.
 */
module Mmu {
  datatype DescType = TranslationFault | CoarsePageTable | Section | Supersection | Reserved | LargePage | SmallPage

  // ---------- descriptors ----------

  function L1Type(d: bv32): DescType {
    if d & 3 == 0 then TranslationFault
    else if d & 3 == 1 then CoarsePageTable
    else if d & 3 == 2 then (if d & 0x4_0000 == 0 then Section else Supersection)
    else Reserved
  }

  function L2Type(d: bv32): DescType {
    if d & 3 == 1 then LargePage
    else if d & 2 == 2 then SmallPage
    else TranslationFault
  }

  /** Where the second-level table of a coarse descriptor lies: a field of 21 bits. */
  function TableOf(d: bv32): nat { ((d >> 10) & 0x1F_FFFF) as nat }

  /** A first-level descriptor made executable and writable for the user. */
  function Rwx1(d: bv32): bv32 {
    match L1Type(d)
    case Section => RwxSection(d)
    case Supersection => RwxSuper(d)
    case _ => d
  }

  function RwxSection(d: bv32): bv32 { (d & 0xFFFF_FFEF & 0xFFFF_7FFF) | 0xC00 }
  function RwxSuper(d: bv32): bv32 { (d & 0xFFFF_FFEF) | 0xC00 }

  /** A second-level descriptor made executable and writable for the user. */
  function Rwx2(d: bv32): bv32 {
    match L2Type(d)
    case LargePage => RwxLarge(d)
    case SmallPage => RwxSmall(d)
    case _ => d
  }

  function RwxLarge(d: bv32): bv32 { (d & 0xFFFF_7FFF & 0xFFFF_FDFF) | 0x30 }
  function RwxSmall(d: bv32): bv32 { (d & 0xFFFF_FFFE & 0xFFFF_FDFF) | 0x30 }

  function LargePa(d: bv32, va: bv32): bv32 { (d >> 16 << 16) | (va & 0xFFFF) }
  function SmallPa(d: bv32, va: bv32): bv32 { (d >> 12 << 12) | (va & 0xFFF) }
  function SectionPa(d: bv32, va: bv32): bv32 { (d >> 20 << 20) | (va << 12 >> 12) }
  function SuperPa(d: bv32, va: bv32): bv32 { (d >> 24 << 24) | (va << 8 >> 8) }

  /** Physical address, 0 where nothing is mapped. */
  function Pa2(d: bv32, va: bv32): bv32 {
    match L2Type(d)
    case LargePage => LargePa(d, va)
    case SmallPage => SmallPa(d, va)
    case _ => 0
  }

  function Pa1(d: bv32, va: bv32): bv32 {
    match L1Type(d)
    case Section => SectionPa(d, va)
    case Supersection => SuperPa(d, va)
    case _ => 0
  }

  /** Read, write and execute as bits 0, 1 and 2, from the fields of a descriptor. */
  function Rights(ap: bv32, apx: bv32, xn: bv32): bv32 {
    var perm := ap >> 1;
    if perm == 0 then 0
    else perm | (if apx == 0 && ap & 1 == 1 then 2 else 0) | (if xn == 0 then 4 else 0)
  }

  function Perm2(d: bv32): bv32 {
    match L2Type(d)
    case LargePage => Rights((d >> 4) & 3, (d >> 9) & 1, (d >> 15) & 1)
    case SmallPage => Rights((d >> 4) & 3, (d >> 9) & 1, d & 1)
    case _ => 0
  }

  function Perm1(d: bv32): bv32 {
    match L1Type(d)
    case Section => Rights((d >> 10) & 3, (d >> 15) & 1, (d >> 4) & 1)
    case Supersection => Rights((d >> 10) & 3, 0, (d >> 4) & 1)
    case _ => 0
  }

  lemma SectionBits(d: bv32)
    requires d & 3 == 2
    ensures var r := RwxSection(d);
      r & 3 == 2 && r & 0x4_0000 == d & 0x4_0000 && r >> 20 == d >> 20 && RwxSection(r) == r
  {
  }

  lemma SuperBits(d: bv32)
    requires d & 3 == 2
    ensures var r := RwxSuper(d);
      r & 3 == 2 && r & 0x4_0000 == d & 0x4_0000 && r >> 24 == d >> 24 && RwxSuper(r) == r
  {
  }

  /** Only the bits above the offset of a descriptor matter for the address. */
  lemma SamePa1(d: bv32, e: bv32, va: bv32)
    ensures d >> 20 == e >> 20 ==> SectionPa(d, va) == SectionPa(e, va)
    ensures d >> 24 == e >> 24 ==> SuperPa(d, va) == SuperPa(e, va)
  {
  }

  lemma Rwx1Keeps(d: bv32, va: bv32)
    ensures L1Type(Rwx1(d)) == L1Type(d) && Pa1(Rwx1(d), va) == Pa1(d, va)
    ensures L1Type(d) == CoarsePageTable ==> TableOf(Rwx1(d)) == TableOf(d)
    ensures Rwx1(Rwx1(d)) == Rwx1(d)
  {
    hide RwxSection, RwxSuper, TableOf, SectionPa, SuperPa;
    if d & 3 == 2 {
      SectionBits(d);
      SuperBits(d);
      SamePa1(d, RwxSection(d), va);
      SamePa1(d, RwxSuper(d), va);
    }
  }

  lemma LargePageBits(d: bv32)
    ensures RwxLarge(d) & 3 == d & 3 && RwxLarge(d) >> 16 == d >> 16 && RwxLarge(RwxLarge(d)) == RwxLarge(d)
  {
  }

  lemma SmallPageBits(d: bv32)
    requires d & 2 == 2
    ensures var r := RwxSmall(d); r & 3 == 2 && r & 2 == 2 && r >> 12 == d >> 12 && RwxSmall(r) == r
  {
  }

  lemma Rwx2Keeps(d: bv32, va: bv32)
    ensures L2Type(Rwx2(d)) == L2Type(d) && Pa2(Rwx2(d), va) == Pa2(d, va)
    ensures Rwx2(Rwx2(d)) == Rwx2(d)
  {
    hide RwxLarge, RwxSmall;
    LargePageBits(d);
    if d & 2 == 2 {
      SmallPageBits(d);
    }
  }

  lemma Rwx1Gives(d: bv32)
    ensures Perm1(Rwx1(d)) == if L1Type(d) == Section || L1Type(d) == Supersection then 7 else 0
  {
  }

  lemma Rwx2Gives(d: bv32)
    ensures Perm2(Rwx2(d)) == if L2Type(d) == LargePage || L2Type(d) == SmallPage then 7 else 0
  {
  }

  // ---------- tables ----------

  /** The first-level table and the second-level ones, these by what a coarse descriptor says of their place. */
  datatype Tables = Tables(l1: seq<bv32>, l2: map<nat, seq<bv32>>)

  /** Number of first-level entries of user memory, which ends at 0x4000_0000. */
  const USER := 1024

  /** Every coarse descriptor leads to a second-level table. */
  predicate Complete(t: Tables) {
    && |t.l1| >= USER && (forall k | k in t.l2 :: |t.l2[k]| == 256)
    && forall i | 0 <= i < |t.l1| :: L1Type(t.l1[i]) == CoarsePageTable ==> TableOf(t.l1[i]) in t.l2
  }

  function Index1(va: bv32): nat { (va >> 20) as nat }
  function Index2(va: bv32): nat { (va << 12 >> 24) as nat }

  lemma Index1Bound(va: bv32)
    ensures Index1(va) < 4096
  {
  }

  lemma Index2Bound(va: bv32)
    ensures Index2(va) < 256
  {
  }

  lemma UserBound(va: bv32)
    requires va < 0x4000_0000
    ensures Index1(va) < 1024
  {
    assert va >> 20 < 1024;
  }

  lemma IndexBounds(va: bv32)
    ensures Index1(va) < 4096 && Index2(va) < 256
    ensures va < 0x4000_0000 ==> Index1(va) < USER
  {
    hide Index1, Index2;
    Index1Bound(va);
    Index2Bound(va);
    if va < 0x4000_0000 {
      UserBound(va);
    }
  }

  /** The address is covered by the first-level table. */
  predicate Covered(t: Tables, va: bv32) { Index1(va) < |t.l1| }

  function Desc1(t: Tables, va: bv32): bv32
    requires Covered(t, va)
  {
    t.l1[Index1(va)]
  }

  /** The second-level descriptor for an address below a coarse one. */
  function Desc2(t: Tables, va: bv32): bv32
    requires Complete(t) && Covered(t, va) && L1Type(Desc1(t, va)) == CoarsePageTable
  {
    IndexBounds(va);
    t.l2[TableOf(Desc1(t, va))][Index2(va)]
  }

  function Pa(t: Tables, va: bv32): bv32
    requires Complete(t) && Covered(t, va)
  {
    if L1Type(Desc1(t, va)) == CoarsePageTable then Pa2(Desc2(t, va), va) else Pa1(Desc1(t, va), va)
  }

  function UserPerm(t: Tables, va: bv32): bv32
    requires Complete(t) && Covered(t, va)
  {
    if L1Type(Desc1(t, va)) == CoarsePageTable then Perm2(Desc2(t, va)) else Perm1(Desc1(t, va))
  }

  /** The address is mapped: by a section, or by a page. */
  predicate Mapped(t: Tables, va: bv32)
    requires Complete(t) && Covered(t, va)
  {
    match L1Type(Desc1(t, va))
    case Section => true
    case Supersection => true
    case CoarsePageTable => L2Type(Desc2(t, va)) != TranslationFault
    case _ => false
  }

  function Rwx2All(s: seq<bv32>): (r: seq<bv32>)
    ensures |r| == |s|
  {
    seq(|s|, i requires 0 <= i < |s| => Rwx2(s[i]))
  }

  /** Some of the first n entries of the first-level table leads to this second-level table. */
  predicate Refers(l1: seq<bv32>, n: nat, k: nat)
    requires n <= |l1|
  {
    exists i | 0 <= i < n :: L1Type(l1[i]) == CoarsePageTable && TableOf(l1[i]) == k
  }

  function NewTable(t: Tables, n: nat, k: nat): (r: seq<bv32>)
    requires n <= |t.l1| && k in t.l2
    ensures |r| == |t.l2[k]|
  {
    if Refers(t.l1, n, k) then Rwx2All(t.l2[k]) else t.l2[k]
  }

  /** The tables after the first n first-level entries have been dealt with. */
  function RwxUpTo(t: Tables, n: nat): Tables
    requires n <= |t.l1|
  {
    Tables(seq(|t.l1|, i requires 0 <= i < |t.l1| => if i < n then Rwx1(t.l1[i]) else t.l1[i]),
           map k | k in t.l2 :: NewTable(t, n, k))
  }

  // ---------- what the pass does ----------

  lemma PassIsComplete(t: Tables, n: nat)
    requires Complete(t) && n <= |t.l1|
    ensures Complete(RwxUpTo(t, n))
  {
    hide Rwx1, L1Type, TableOf, Refers, Rwx2;
    var r := RwxUpTo(t, n);
    forall i | 0 <= i < |r.l1|
      ensures L1Type(r.l1[i]) == L1Type(t.l1[i])
      ensures L1Type(r.l1[i]) == CoarsePageTable ==> TableOf(r.l1[i]) == TableOf(t.l1[i])
    {
      Rwx1Keeps(t.l1[i], 0);
    }
    assert forall k | k in r.l2 :: |r.l2[k]| == 256;
    assert forall i | 0 <= i < |r.l1| :: L1Type(r.l1[i]) == CoarsePageTable ==> TableOf(r.l1[i]) in t.l2;
    assert r.l2.Keys == t.l2.Keys;
  }

  /** The pass changes no translation: descriptor types and physical addresses stay, for every address. */
  lemma PassKeepsTranslation(t: Tables, n: nat, va: bv32)
    requires Complete(t) && n <= |t.l1| && Covered(t, va)
    ensures Complete(RwxUpTo(t, n)) && L1Type(Desc1(RwxUpTo(t, n), va)) == L1Type(Desc1(t, va))
    ensures L1Type(Desc1(t, va)) == CoarsePageTable ==> L2Type(Desc2(RwxUpTo(t, n), va)) == L2Type(Desc2(t, va))
    ensures Pa(RwxUpTo(t, n), va) == Pa(t, va)
  {
    hide Rwx1, Rwx2, L1Type, L2Type, TableOf, Refers, Pa1, Pa2, Index1, Index2;
    PassIsComplete(t, n);
    IndexBounds(va);
    Rwx1Keeps(Desc1(t, va), va);
    if L1Type(Desc1(t, va)) == CoarsePageTable {
      Rwx2Keeps(Desc2(t, va), va);
    }
  }

  /** After the pass over user memory every mapped user address has all rights, and no other has any. */
  lemma PassGivesRights(t: Tables, va: bv32)
    requires Complete(t) && va < 0x4000_0000 && Covered(t, va)
    ensures Complete(RwxUpTo(t, USER)) && UserPerm(RwxUpTo(t, USER), va) == if Mapped(t, va) then 7 else 0
  {
    hide Rwx1, Rwx2, L1Type, L2Type, TableOf, Perm1, Perm2, Index1, Index2;
    PassIsComplete(t, USER);
    IndexBounds(va);
    var d := Desc1(t, va);
    Rwx1Keeps(d, va);
    Rwx1Gives(d);
    if L1Type(d) == CoarsePageTable {
      assert Refers(t.l1, USER, TableOf(d));
      Rwx2Gives(Desc2(t, va));
      L2Types(Desc2(t, va));
    }
  }

  /** The pass spares all that no address below 0x40000000 goes through. */
  lemma PassSparesRest(t: Tables, va: bv32)
    requires Complete(t) && va >= 0x4000_0000 && Covered(t, va)
    ensures Complete(RwxUpTo(t, USER)) && Desc1(RwxUpTo(t, USER), va) == Desc1(t, va)
    ensures L1Type(Desc1(t, va)) == CoarsePageTable && !Refers(t.l1, 1024, TableOf(Desc1(t, va))) ==>
      Desc2(RwxUpTo(t, USER), va) == Desc2(t, va)
  {
    hide Rwx1, Rwx2, L1Type, TableOf, Index1, Index2, Refers;
    PassIsComplete(t, USER);
    IndexBounds(va);
    KernelBound(va);
  }

  lemma KernelBound(va: bv32)
    requires va >= 0x4000_0000
    ensures Index1(va) >= 1024
  {
    assert va >> 20 >= 1024;
  }

  lemma L2Types(d: bv32)
    ensures L2Type(d) == TranslationFault || L2Type(d) == LargePage || L2Type(d) == SmallPage
  {
  }

  // ---------- what a translation means, in arithmetic on 32-bit words ----------

  /** The descriptor that decides about an address; second tells that it is one of the second level. */
  function Deciding(t: Tables, va: bv32): (r: (bool, bv32))
    requires Complete(t) && Covered(t, va)
  {
    if L1Type(Desc1(t, va)) == CoarsePageTable then (true, Desc2(t, va)) else (false, Desc1(t, va))
  }

  /** Bytes that a descriptor maps: sections and supersections, large and small pages; 0 for none. */
  function Size(second: bool, d: bv32): bv32 {
    if second then (if d % 4 == 1 then 0x1_0000 else if d % 4 == 0 then 0 else 0x1000)
    else if d % 4 == 2 then (if d / 0x4_0000 % 2 == 0 then 0x10_0000 else 0x100_0000)
    else 0
  }

  lemma TypeNumbers(d: bv32)
    ensures L1Type(d) == CoarsePageTable <==> d % 4 == 1
    ensures L1Type(d) == Section <==> Size(false, d) == 0x10_0000
    ensures L1Type(d) == Supersection <==> Size(false, d) == 0x100_0000
    ensures L2Type(d) == LargePage <==> Size(true, d) == 0x1_0000
    ensures L2Type(d) == SmallPage <==> Size(true, d) == 0x1000
  {
  }

  /** The indices are address bits 20 to 31 and 12 to 19; bits 10 to 30 of a coarse descriptor tell its table. */
  lemma IndexNumbers(va: bv32, d: bv32)
    ensures Index1(va) == (va / 0x10_0000) as nat && Index2(va) == (va / 0x1000 % 0x100) as nat
    ensures TableOf(d) == (d / 0x400 % 0x20_0000) as nat
  {
    assert va >> 20 == va / 0x10_0000;
    assert va << 12 >> 24 == va / 0x1000 % 0x100;
    assert (d >> 10) & 0x1F_FFFF == d / 0x400 % 0x20_0000;
  }

  predicate IsSum(s: bv32, a: bv32, b: bv32) { s == a + b }

  /** p and q are as far apart as va and vb. */
  predicate AsFarApart(p: bv32, q: bv32, va: bv32, vb: bv32) { q - p == vb - va }

  lemma Difference(p: bv32, q: bv32, va: bv32, vb: bv32, f: bv32, w: bv32, a: bv32, b: bv32)
    requires IsSum(p, f, a) && IsSum(q, f, b) && IsSum(va, w, a) && IsSum(vb, w, b)
    ensures AsFarApart(p, q, va, vb)
  {
  }

  // Frames of 0x1000 bytes: the one that the descriptor names, and the offset of the address, without a carry.
  function SmallFrame(x: bv32): bv32 { x / 0x1000 * 0x1000 }
  function SmallOffset(x: bv32): bv32 { x % 0x1000 }
  predicate SameSmall(va: bv32, vb: bv32) { va / 0x1000 == vb / 0x1000 }
  predicate InSmall(pa: bv32, d: bv32, va: bv32) { IsSum(pa, SmallFrame(d), SmallOffset(va)) && SameSmall(pa, d) }

  lemma SmallParts(d: bv32, va: bv32)
    ensures IsSum(SmallPa(d, va), SmallFrame(d), SmallOffset(va))
  {
  }

  lemma SmallStays(d: bv32, va: bv32)
    ensures SameSmall(SmallPa(d, va), d)
  {
  }

  lemma SmallSum(d: bv32, va: bv32)
    ensures InSmall(SmallPa(d, va), d, va)
  {
    hide SmallPa, SmallFrame, SmallOffset, SameSmall, IsSum;
    SmallParts(d, va);
    SmallStays(d, va);
  }

  lemma SmallSplit(x: bv32)
    ensures IsSum(x, SmallFrame(x), SmallOffset(x))
  {
  }

  lemma SmallSame(va: bv32, vb: bv32)
    requires SameSmall(va, vb)
    ensures SmallFrame(va) == SmallFrame(vb)
  {
  }

  lemma SmallApart(p: bv32, q: bv32, d: bv32, va: bv32, vb: bv32)
    requires InSmall(p, d, va) && InSmall(q, d, vb) && SameSmall(va, vb)
    ensures AsFarApart(p, q, va, vb)
  {
    hide SmallFrame, SmallOffset, SameSmall, IsSum, AsFarApart;
    SmallSame(va, vb);
    SmallSplit(va);
    SmallSplit(vb);
    Difference(p, q, va, vb, SmallFrame(d), SmallFrame(va), SmallOffset(va), SmallOffset(vb));
  }
  // Frames of 0x1_0000 bytes: the one that the descriptor names, and the offset of the address, without a carry.
  function LargeFrame(x: bv32): bv32 { x / 0x1_0000 * 0x1_0000 }
  function LargeOffset(x: bv32): bv32 { x % 0x1_0000 }
  predicate SameLarge(va: bv32, vb: bv32) { va / 0x1_0000 == vb / 0x1_0000 }
  predicate InLarge(pa: bv32, d: bv32, va: bv32) { IsSum(pa, LargeFrame(d), LargeOffset(va)) && SameLarge(pa, d) }

  lemma LargeParts(d: bv32, va: bv32)
    ensures IsSum(LargePa(d, va), LargeFrame(d), LargeOffset(va))
  {
  }

  lemma LargeStays(d: bv32, va: bv32)
    ensures SameLarge(LargePa(d, va), d)
  {
  }

  lemma LargeSum(d: bv32, va: bv32)
    ensures InLarge(LargePa(d, va), d, va)
  {
    hide LargePa, LargeFrame, LargeOffset, SameLarge, IsSum;
    LargeParts(d, va);
    LargeStays(d, va);
  }

  lemma LargeSplit(x: bv32)
    ensures IsSum(x, LargeFrame(x), LargeOffset(x))
  {
  }

  lemma LargeSame(va: bv32, vb: bv32)
    requires SameLarge(va, vb)
    ensures LargeFrame(va) == LargeFrame(vb)
  {
  }

  lemma LargeApart(p: bv32, q: bv32, d: bv32, va: bv32, vb: bv32)
    requires InLarge(p, d, va) && InLarge(q, d, vb) && SameLarge(va, vb)
    ensures AsFarApart(p, q, va, vb)
  {
    hide LargeFrame, LargeOffset, SameLarge, IsSum, AsFarApart;
    LargeSame(va, vb);
    LargeSplit(va);
    LargeSplit(vb);
    Difference(p, q, va, vb, LargeFrame(d), LargeFrame(va), LargeOffset(va), LargeOffset(vb));
  }
  lemma LargeCoarser(va: bv32, vb: bv32)
    requires SameSmall(va, vb)
    ensures SameLarge(va, vb)
  {
  }

  // Frames of 0x10_0000 bytes: the one that the descriptor names, and the offset of the address, without a carry.
  function SectionFrame(x: bv32): bv32 { x / 0x10_0000 * 0x10_0000 }
  function SectionOffset(x: bv32): bv32 { x % 0x10_0000 }
  predicate SameSection(va: bv32, vb: bv32) { va / 0x10_0000 == vb / 0x10_0000 }
  predicate InSection(pa: bv32, d: bv32, va: bv32) {
    IsSum(pa, SectionFrame(d), SectionOffset(va)) && SameSection(pa, d)
  }


  lemma SectionParts(d: bv32, va: bv32)
    ensures IsSum(SectionPa(d, va), SectionFrame(d), SectionOffset(va))
  {
  }

  lemma SectionStays(d: bv32, va: bv32)
    ensures SameSection(SectionPa(d, va), d)
  {
  }

  lemma SectionSum(d: bv32, va: bv32)
    ensures InSection(SectionPa(d, va), d, va)
  {
    hide SectionPa, SectionFrame, SectionOffset, SameSection, IsSum;
    SectionParts(d, va);
    SectionStays(d, va);
  }

  lemma SectionSplit(x: bv32)
    ensures IsSum(x, SectionFrame(x), SectionOffset(x))
  {
  }

  lemma SectionSame(va: bv32, vb: bv32)
    requires SameSection(va, vb)
    ensures SectionFrame(va) == SectionFrame(vb)
  {
  }

  lemma SectionApart(p: bv32, q: bv32, d: bv32, va: bv32, vb: bv32)
    requires InSection(p, d, va) && InSection(q, d, vb) && SameSection(va, vb)
    ensures AsFarApart(p, q, va, vb)
  {
    hide SectionFrame, SectionOffset, SameSection, IsSum, AsFarApart;
    SectionSame(va, vb);
    SectionSplit(va);
    SectionSplit(vb);
    Difference(p, q, va, vb, SectionFrame(d), SectionFrame(va), SectionOffset(va), SectionOffset(vb));
  }
  lemma SectionCoarser(va: bv32, vb: bv32)
    requires SameSmall(va, vb)
    ensures SameSection(va, vb)
  {
  }

  // Frames of 0x100_0000 bytes: the one that the descriptor names, and the offset of the address, without a carry.
  function SuperFrame(x: bv32): bv32 { x / 0x100_0000 * 0x100_0000 }
  function SuperOffset(x: bv32): bv32 { x % 0x100_0000 }
  predicate SameSuper(va: bv32, vb: bv32) { va / 0x100_0000 == vb / 0x100_0000 }
  predicate InSuper(pa: bv32, d: bv32, va: bv32) { IsSum(pa, SuperFrame(d), SuperOffset(va)) && SameSuper(pa, d) }

  lemma SuperParts(d: bv32, va: bv32)
    ensures IsSum(SuperPa(d, va), SuperFrame(d), SuperOffset(va))
  {
  }

  lemma SuperStays(d: bv32, va: bv32)
    ensures SameSuper(SuperPa(d, va), d)
  {
  }

  lemma SuperSum(d: bv32, va: bv32)
    ensures InSuper(SuperPa(d, va), d, va)
  {
    hide SuperPa, SuperFrame, SuperOffset, SameSuper, IsSum;
    SuperParts(d, va);
    SuperStays(d, va);
  }

  lemma SuperSplit(x: bv32)
    ensures IsSum(x, SuperFrame(x), SuperOffset(x))
  {
  }

  lemma SuperSame(va: bv32, vb: bv32)
    requires SameSuper(va, vb)
    ensures SuperFrame(va) == SuperFrame(vb)
  {
  }

  lemma SuperApart(p: bv32, q: bv32, d: bv32, va: bv32, vb: bv32)
    requires InSuper(p, d, va) && InSuper(q, d, vb) && SameSuper(va, vb)
    ensures AsFarApart(p, q, va, vb)
  {
    hide SuperFrame, SuperOffset, SameSuper, IsSum, AsFarApart;
    SuperSame(va, vb);
    SuperSplit(va);
    SuperSplit(vb);
    Difference(p, q, va, vb, SuperFrame(d), SuperFrame(va), SuperOffset(va), SuperOffset(vb));
  }
  lemma SuperCoarser(va: bv32, vb: bv32)
    requires SameSmall(va, vb)
    ensures SameSuper(va, vb)
  {
  }

  predicate Placed(pa: bv32, d: bv32, va: bv32, size: bv32) {
    if size == 0x1000 then InSmall(pa, d, va)
    else if size == 0x1_0000 then InLarge(pa, d, va)
    else if size == 0x10_0000 then InSection(pa, d, va)
    else size == 0x100_0000 && InSuper(pa, d, va)
  }

  /** Both addresses lie in the same frame of this size. */
  predicate SameFrame(va: bv32, vb: bv32, size: bv32) {
    if size == 0x1000 then SameSmall(va, vb)
    else if size == 0x1_0000 then SameLarge(va, vb)
    else if size == 0x10_0000 then SameSection(va, vb)
    else size == 0x100_0000 && SameSuper(va, vb)
  }

  lemma Sizes(second: bool, d: bv32)
    ensures if second then Size(second, d) == 0 || Size(second, d) == 0x1000 || Size(second, d) == 0x1_0000
            else Size(second, d) == 0 || Size(second, d) == 0x10_0000 || Size(second, d) == 0x100_0000
  {
  }

  /**
   An address is mapped exactly when its descriptor maps some bytes, and then the physical address is the frame of the
   descriptor and the offset of the address, without a carry; the others go to 0.
   */
  lemma FrameAndOffset(t: Tables, va: bv32)
    requires Complete(t) && Covered(t, va)
    ensures var (second, d) := Deciding(t, va);
      && (Mapped(t, va) <==> Size(second, d) != 0)
      && if Mapped(t, va) then Placed(Pa(t, va), d, va, Size(second, d)) else Pa(t, va) == 0
  {
    hide L1Type, L2Type, Size, SmallPa, LargePa, SectionPa, SuperPa, Index1, Index2, TableOf;
    hide InSmall, InLarge, InSection, InSuper;
    var (second, d) := Deciding(t, va);
    TypeNumbers(Desc1(t, va));
    TypeNumbers(d);
    L2Types(d);
    Sizes(second, d);
    SmallSum(d, va);
    LargeSum(d, va);
    SectionSum(d, va);
    SuperSum(d, va);
  }

  lemma PlacedApart(p: bv32, q: bv32, d: bv32, va: bv32, vb: bv32, size: bv32)
    requires Placed(p, d, va, size) && Placed(q, d, vb, size) && SameFrame(va, vb, size)
    ensures AsFarApart(p, q, va, vb)
  {
    hide InSmall, InLarge, InSection, InSuper, SameSmall, SameLarge, SameSection, SameSuper, AsFarApart;
    if size == 0x1000 {
      SmallApart(p, q, d, va, vb);
    } else if size == 0x1_0000 {
      LargeApart(p, q, d, va, vb);
    } else if size == 0x10_0000 {
      SectionApart(p, q, d, va, vb);
    } else {
      SuperApart(p, q, d, va, vb);
    }
  }

  /** Two addresses of one frame under the same descriptor differ physically by what they differ virtually. */
  lemma SameDistance(t: Tables, va: bv32, vb: bv32)
    requires Complete(t) && Covered(t, va) && Covered(t, vb) && Mapped(t, va)
    requires Deciding(t, va) == Deciding(t, vb) && SameFrame(va, vb, Size(Deciding(t, va).0, Deciding(t, va).1))
    ensures Mapped(t, vb) && AsFarApart(Pa(t, va), Pa(t, vb), va, vb)
  {
    hide Deciding, Size, Placed, SameFrame, Pa, Mapped, Covered, Complete, AsFarApart;
    FrameAndOffset(t, va);
    FrameAndOffset(t, vb);
    var (second, d) := Deciding(t, va);
    PlacedApart(Pa(t, va), Pa(t, vb), d, va, vb, Size(second, d));
  }

  lemma FourKilobytes(va: bv32, vb: bv32, size: bv32)
    requires SameSmall(va, vb) && (size == 0x1000 || size == 0x1_0000 || size == 0x10_0000 || size == 0x100_0000)
    ensures SameFrame(va, vb, size)
  {
    hide SameSmall, SameLarge, SameSection, SameSuper;
    LargeCoarser(va, vb);
    SectionCoarser(va, vb);
    SuperCoarser(va, vb);
  }

  lemma SameIndices(va: bv32, vb: bv32)
    requires SameSmall(va, vb)
    ensures Index1(va) == Index1(vb) && Index2(va) == Index2(vb)
  {
    SameIndexBits(va, vb);
  }

  lemma SameIndexBits(va: bv32, vb: bv32)
    requires SameSmall(va, vb)
    ensures va >> 20 == vb >> 20 && va << 12 >> 24 == vb << 12 >> 24
  {
  }

  /** So do all addresses of the same 4 KB, whatever maps them. */
  lemma SamePage(t: Tables, va: bv32, vb: bv32)
    requires Complete(t) && Covered(t, va) && Mapped(t, va) && va / 0x1000 == vb / 0x1000
    ensures Covered(t, vb) && Mapped(t, vb) && AsFarApart(Pa(t, va), Pa(t, vb), va, vb)
  {
    hide L1Type, L2Type, TableOf, SameFrame, Size, Pa, Mapped, Index1, Index2, Placed, AsFarApart;
    assert SameSmall(va, vb);
    SameIndices(va, vb);
    var (second, d) := Deciding(t, va);
    FrameAndOffset(t, va);
    Sizes(second, d);
    FourKilobytes(va, vb, Size(second, d));
    SameDistance(t, va, vb);
  }

  /** Read, write and execute from the access field (two bits), the read-only bit and the bit against execution. */
  predicate Means(perm: bv32, ap: bv32, apx: bv32, xn: bv32) {
    && perm < 8 && (perm % 2 == 1 <==> ap >= 2) && (perm / 2 % 2 == 1 <==> ap == 3 && apx == 0)
    && (perm / 4 % 2 == 1 <==> ap >= 2 && xn == 0)
  }

  lemma RightsMean(ap: bv32, apx: bv32, xn: bv32)
    requires ap < 4 && apx < 2 && xn < 2
    ensures Means(Rights(ap, apx, xn), ap, apx, xn)
  {
  }

  /** The fields of a descriptor that maps memory: access, read-only, and not to be executed. */
  function Fields(size: bv32, d: bv32): (bv32, bv32, bv32) {
    if size == 0x1000 then (d / 0x10 % 4, d / 0x200 % 2, d % 2)
    else if size == 0x1_0000 then (d / 0x10 % 4, d / 0x200 % 2, d / 0x8000 % 2)
    else if size == 0x10_0000 then (d / 0x400 % 4, d / 0x8000 % 2, d / 0x10 % 2)
    else (d / 0x400 % 4, 0, d / 0x10 % 2)
  }

  lemma FieldNumbers(d: bv32)
    ensures Fields(0x1000, d) == ((d >> 4) & 3, (d >> 9) & 1, d & 1)
    ensures Fields(0x1_0000, d) == ((d >> 4) & 3, (d >> 9) & 1, (d >> 15) & 1)
    ensures Fields(0x10_0000, d) == ((d >> 10) & 3, (d >> 15) & 1, (d >> 4) & 1)
    ensures Fields(0x100_0000, d) == ((d >> 10) & 3, 0, (d >> 4) & 1)
  {
  }

  lemma FieldBounds(size: bv32, d: bv32)
    ensures var (ap, apx, xn) := Fields(size, d); ap < 4 && apx < 2 && xn < 2
  {
  }

  /** What the user may do at an address goes by the fields of its descriptor; where nothing is mapped, nothing. */
  lemma RightsOfDescriptor(t: Tables, va: bv32)
    requires Complete(t) && Covered(t, va)
    ensures var (second, d) := Deciding(t, va);
      if Mapped(t, va) then
        var (ap, apx, xn) := Fields(Size(second, d), d); Means(UserPerm(t, va), ap, apx, xn)
      else UserPerm(t, va) == 0
  {
    hide L1Type, L2Type, Size, Fields, Means, Index1, Index2, TableOf, Rights;
    var (second, d) := Deciding(t, va);
    TypeNumbers(Desc1(t, va));
    TypeNumbers(d);
    L2Types(d);
    Sizes(second, d);
    FieldNumbers(d);
    var (ap, apx, xn) := Fields(Size(second, d), d);
    FieldBounds(Size(second, d), d);
    RightsMean(ap, apx, xn);
  }

  // r is d with access field 3 and the other two fields 0.
  predicate OpenSection(d: bv32, r: bv32) { r & 0x8C10 == 0xC00 && r & 0xFFFF_73EF == d & 0xFFFF_73EF }
  predicate OpenSuper(d: bv32, r: bv32) { r & 0xC10 == 0xC00 && r & 0xFFFF_F3EF == d & 0xFFFF_F3EF }
  predicate OpenLarge(d: bv32, r: bv32) { r & 0x8230 == 0x30 && r & 0xFFFF_7DCF == d & 0xFFFF_7DCF }
  predicate OpenSmall(d: bv32, r: bv32) { r & 0x231 == 0x30 && r & 0xFFFF_FDCE == d & 0xFFFF_FDCE }

  lemma OpensSection(d: bv32)
    ensures OpenSection(d, RwxSection(d))
  {
  }

  lemma OpensSuper(d: bv32)
    ensures OpenSuper(d, RwxSuper(d))
  {
  }

  lemma OpensLarge(d: bv32)
    ensures OpenLarge(d, RwxLarge(d))
  {
  }

  lemma OpensSmall(d: bv32)
    ensures OpenSmall(d, RwxSmall(d))
  {
  }

  /** The pass opens each descriptor that maps memory and leaves all its other bits, and all other descriptors. */
  lemma PassWrites(d: bv32)
    ensures if Size(false, d) == 0x10_0000 then OpenSection(d, Rwx1(d))
            else if Size(false, d) == 0x100_0000 then OpenSuper(d, Rwx1(d))
            else Rwx1(d) == d
    ensures if Size(true, d) == 0x1000 then OpenSmall(d, Rwx2(d))
            else if Size(true, d) == 0x1_0000 then OpenLarge(d, Rwx2(d))
            else Rwx2(d) == d
  {
    hide Size, OpenSection, OpenSuper, OpenLarge, OpenSmall, RwxSection, RwxSuper, RwxLarge, RwxSmall, L1Type, L2Type;
    TypeNumbers(d);
    L2Types(d);
    Sizes(false, d);
    Sizes(true, d);
    OpensSection(d);
    OpensSuper(d);
    OpensLarge(d);
    OpensSmall(d);
  }

  lemma Rwx2AllTwice(s: seq<bv32>)
    ensures Rwx2All(Rwx2All(s)) == Rwx2All(s)
  {
    hide Rwx2;
    forall i | 0 <= i < |s|
      ensures Rwx2(Rwx2(s[i])) == Rwx2(s[i])
    {
      Rwx2Keeps(s[i], 0);
    }
  }

  lemma SameRefers(t: Tables, n: nat, m: nat, k: nat)
    requires n <= |t.l1| && m <= |t.l1|
    ensures Refers(RwxUpTo(t, n).l1, m, k) <==> Refers(t.l1, m, k)
  {
    hide Rwx1, L1Type, TableOf;
    var r := RwxUpTo(t, n).l1;
    forall i | 0 <= i < |r|
      ensures L1Type(r[i]) == L1Type(t.l1[i])
      ensures L1Type(t.l1[i]) == CoarsePageTable ==> TableOf(r[i]) == TableOf(t.l1[i])
    {
      Rwx1Keeps(t.l1[i], 0);
    }
  }

  /** A second pass changes nothing. */
  lemma PassTwice(t: Tables)
    requires Complete(t)
    ensures RwxUpTo(RwxUpTo(t, USER), USER) == RwxUpTo(t, USER)
  {
    hide Rwx1, Rwx2All, Refers;
    var r := RwxUpTo(t, USER);
    var rr := RwxUpTo(r, USER);
    forall i | 0 <= i < |t.l1|
      ensures rr.l1[i] == r.l1[i]
    {
      Rwx1Keeps(t.l1[i], 0);
    }
    forall k | k in t.l2
      ensures rr.l2[k] == r.l2[k]
    {
      SameRefers(t, USER, USER, k);
      Rwx2AllTwice(t.l2[k]);
    }
    assert rr.l1 == r.l1 && rr.l2 == r.l2;
  }

  // ---------- the pass, step by step ----------

  lemma RefersStep(t: Tables, n: nat, k: nat)
    requires n < |t.l1|
    ensures Refers(t.l1, n + 1, k) <==>
      Refers(t.l1, n, k) || (L1Type(t.l1[n]) == CoarsePageTable && TableOf(t.l1[n]) == k)
  {
    hide L1Type, TableOf;
    if Refers(t.l1, n + 1, k) && !(L1Type(t.l1[n]) == CoarsePageTable && TableOf(t.l1[n]) == k) {
      var i :| 0 <= i < n + 1 && L1Type(t.l1[i]) == CoarsePageTable && TableOf(t.l1[i]) == k;
      assert i < n;
    }
  }

  /** The entry at n leads to a table: that table is dealt with, perhaps once more. */
  lemma CoarseStep(t: Tables, n: nat)
    requires Complete(t) && n < |t.l1| && L1Type(t.l1[n]) == CoarsePageTable
    ensures var k, now := TableOf(t.l1[n]), RwxUpTo(t, n);
      k in now.l2 && RwxUpTo(t, n + 1) == now.(l2 := now.l2[k := Rwx2All(now.l2[k])])
  {
    hide Rwx2All, Refers, TableOf;
    var k, now, next := TableOf(t.l1[n]), RwxUpTo(t, n), RwxUpTo(t, n + 1);
    Rwx2AllTwice(t.l2[k]);
    assert Rwx1(t.l1[n]) == t.l1[n];
    assert next.l1 == now.l1;
    forall j | j in t.l2
      ensures next.l2[j] == if j == k then Rwx2All(now.l2[j]) else now.l2[j]
    {
      RefersStep(t, n, j);
    }
    assert next.l2 == now.l2[k := Rwx2All(now.l2[k])];
  }

  lemma PlainStep(t: Tables, n: nat)
    requires Complete(t) && n < |t.l1| && L1Type(t.l1[n]) != CoarsePageTable
    ensures var now := RwxUpTo(t, n); RwxUpTo(t, n + 1) == now.(l1 := now.l1[n := Rwx1(t.l1[n])])
  {
    hide Rwx2All, Refers, TableOf, Rwx1;
    var now, next := RwxUpTo(t, n), RwxUpTo(t, n + 1);
    assert next.l1 == now.l1[n := Rwx1(t.l1[n])];
    forall j | j in t.l2
      ensures next.l2[j] == now.l2[j]
    {
      RefersStep(t, n, j);
    }
    assert next.l2 == now.l2;
  }

  lemma NoStep(t: Tables)
    requires Complete(t)
    ensures RwxUpTo(t, 0) == t
  {
    hide Rwx2All, TableOf, Rwx1;
    assert RwxUpTo(t, 0).l1 == t.l1;
    forall j | j in t.l2
      ensures RwxUpTo(t, 0).l2[j] == t.l2[j]
    {
    }
    assert RwxUpTo(t, 0).l2 == t.l2;
  }

  // ---------- the tables in memory ----------

  /** L2MMUTable__GetPAFromVA. */
  method L2GetPAFromVA(table: array<bv32>, va: bv32) returns (pa: bv32)
    requires table.Length == 256
    ensures Index2(va) < 256 && pa == Pa2(table[Index2(va)], va)
  {
    hide L2Type, Index2, LargePa, SmallPa;
    Index2Bound(va);
    var d := table[Index2(va)];
    match L2Type(d) {
      case LargePage => pa := LargePa(d, va);
      case SmallPage => pa := SmallPa(d, va);
      case _ => pa := 0;
    }
  }

  /** L2MMUTable__GetAddressUserPerm. */
  method L2GetAddressUserPerm(table: array<bv32>, va: bv32) returns (perm: bv32)
    requires table.Length == 256
    ensures Index2(va) < 256 && perm == Perm2(table[Index2(va)])
  {
    hide L2Type, Index2, Rights;
    Index2Bound(va);
    var d := table[Index2(va)];
    match L2Type(d) {
      case LargePage => perm := Rights((d >> 4) & 3, (d >> 9) & 1, (d >> 15) & 1);
      case SmallPage => perm := Rights((d >> 4) & 3, (d >> 9) & 1, d & 1);
      case _ => perm := 0;
    }
  }

  /** L2MMUTable__RWXForAll. */
  method L2RwxForAll(table: array<bv32>)
    requires table.Length == 256
    modifies table
    ensures table[..] == Rwx2All(old(table[..]))
  {
    hide L2Type, RwxLarge, RwxSmall;
    var i := 0;
    while i < 256
      invariant 0 <= i <= 256
      invariant forall j | 0 <= j < 256 :: table[j] == if j < i then Rwx2(old(table[j])) else old(table[j])
    {
      match L2Type(table[i]) {
        case LargePage => table[i] := RwxLarge(table[i]);
        case SmallPage => table[i] := RwxSmall(table[i]);
        case _ =>
      }
      i := i + 1;
    }
  }

  /** The tables of a process: the first-level one, and the others by their place. */
  class PageTables {
    const l1: array<bv32>
    const l2: map<nat, array<bv32>>

    constructor (l1: array<bv32>, l2: map<nat, array<bv32>>)
      requires l1.Length >= USER && forall k | k in l2 :: l2[k].Length == 256 && l2[k] != l1
      requires forall j, k | j in l2 && k in l2 && j != k :: l2[j] != l2[k]
      ensures this.l1 == l1 && this.l2 == l2 && Separate()
    {
      this.l1, this.l2 := l1, l2;
    }

    /** No two tables overlap. */
    ghost predicate Separate() {
      && l1.Length >= USER && (forall k | k in l2 :: l2[k].Length == 256 && l2[k] != l1)
      && forall j, k | j in l2 && k in l2 && j != k :: l2[j] != l2[k]
    }

    ghost function State(): Tables
      reads l1, l2.Values
    {
      Tables(l1[..], map k | k in l2 :: l2[k][..])
    }

    method SetEntry(i: nat, d: bv32)
      requires Separate() && i < l1.Length
      modifies l1
      ensures State() == old(State()).(l1 := old(State()).l1[i := d])
    {
      ghost var before := State();
      l1[i] := d;
      assert State().l1 == before.l1[i := d] && State().l2 == before.l2;
    }

    method OpenTable(k: nat)
      requires Separate() && k in l2
      modifies l2[k]
      ensures State() == old(State()).(l2 := old(State()).l2[k := Rwx2All(old(State()).l2[k])])
    {
      hide Rwx2All;
      ghost var before := State();
      L2RwxForAll(l2[k]);
      assert State().l1 == before.l1 && State().l2 == before.l2[k := Rwx2All(before.l2[k])];
    }

    /** One round of L1MMUTable__RWXForAll. */
    method RwxEntry(i: nat, ghost t: Tables)
      requires Separate() && Complete(t) && i < USER <= |t.l1| && State() == RwxUpTo(t, i)
      modifies l1, l2.Values
      ensures State() == RwxUpTo(t, i + 1)
    {
      hide L1Type, TableOf, RwxUpTo, Rwx2All, Complete, RwxSection, RwxSuper;
      Untouched(t, i);
      ghost var before := State();
      var d := l1[i];
      assert d == before.l1[i] == t.l1[i];
      match L1Type(d) {
        case CoarsePageTable =>
          CoarseStep(t, i);
          assert TableOf(d) in before.l2;
          OpenTable(TableOf(d));
        case Section =>
          PlainStep(t, i);
          SetEntry(i, RwxSection(d));
        case Supersection =>
          PlainStep(t, i);
          SetEntry(i, RwxSuper(d));
        case _ =>
          PlainStep(t, i);
          assert before.l1 == before.l1[i := d];
      }
    }

    /** L1MMUTable__RWXForAll. */
    method RwxForAll()
      requires Separate() && Complete(State())
      modifies l1, l2.Values
      ensures State() == RwxUpTo(old(State()), USER)
    {
      hide RwxUpTo, Complete, PageTables.State;
      ghost var t := State();
      NoStep(t);
      CompleteLength(t);
      var i := 0;
      while i < USER
        invariant 0 <= i <= USER && State() == RwxUpTo(t, i)
      {
        RwxEntry(i, t);
        i := i + 1;
      }
    }

    /** L1MMUTable__GetPAFromVA. */
    method GetPAFromVA(va: bv32) returns (pa: bv32)
      requires Separate() && Complete(State()) && Covered(State(), va)
      ensures pa == Pa(State(), va)
    {
      hide L1Type, Index1, Index2, Pa2, TableOf, SectionPa, SuperPa;
      var d := l1[Index1(va)];
      assert d == Desc1(State(), va);
      match L1Type(d) {
        case CoarsePageTable =>
          assert TableOf(d) in State().l2;
          pa := L2GetPAFromVA(l2[TableOf(d)], va);
        case Section => pa := SectionPa(d, va);
        case Supersection => pa := SuperPa(d, va);
        case _ => pa := 0;
      }
    }

    /** L1MMUTable__GetAddressUserPerm. */
    method GetAddressUserPerm(va: bv32) returns (perm: bv32)
      requires Separate() && Complete(State()) && Covered(State(), va)
      ensures perm == UserPerm(State(), va)
    {
      hide L1Type, Index1, Index2, Perm2, TableOf, Rights;
      var d := l1[Index1(va)];
      assert d == Desc1(State(), va);
      match L1Type(d) {
        case CoarsePageTable =>
          assert TableOf(d) in State().l2;
          perm := L2GetAddressUserPerm(l2[TableOf(d)], va);
        case Section => perm := Rights((d >> 10) & 3, (d >> 15) & 1, (d >> 4) & 1);
        case Supersection => perm := Rights((d >> 10) & 3, 0, (d >> 4) & 1);
        case _ => perm := 0;
      }
    }
  }

  lemma CompleteLength(t: Tables)
    requires Complete(t)
    ensures |t.l1| >= USER
  {
  }

  lemma Untouched(t: Tables, n: nat)
    requires n < |t.l1|
    ensures |RwxUpTo(t, n).l1| == |t.l1| && RwxUpTo(t, n).l1[n] == t.l1[n]
  {
  }
}
