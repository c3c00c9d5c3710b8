/** Page-table entries: address and flag packing (Kernel/Memory/PageTableEntry.hpp, Kernel/Arch/x86_64/VMM.cpp). */
module PageEntry {
  import opened Bits

  const PTE_PRESENT: nat := 0x1
  const PTE_WRITEABLE: nat := 0x2
  const PTE_USER_SUPER: nat := 0x4
  const PTE_PWT: nat := 0x8
  const PTE_PCD: nat := 0x10
  const PTE_LPAGE: nat := 0x80
  const PTE_PAT4K: nat := 0x80
  const PTE_GLOBAL: nat := 0x100
  const PTE_NOEXEC: nat := 0x8000_0000_0000_0000
  const PTE_ADDRESS_MASK: nat := 0x000f_ffff_ffff_f000
  const DEFAULT_PTE_FLAGS: nat := 0x7

  const PAGE_SIZE: nat := 0x1000

  // Attribute bits of `PageAttributes`.
  const READ: nat := 0x1
  const WRITE: nat := 0x2
  const EXECUTABLE: nat := 0x4
  const USER: nat := 0x8
  const GLOBAL: nat := 0x10
  const LPAGE: nat := 0x20
  const LLPAGE: nat := 0x40
  const WRITE_COMBINING: nat := 0x80
  const UNCACHEABLE_STRONG: nat := 0x100
  const WRITE_THROUGH: nat := 0x200
  const WRITE_PROTECTED: nat := 0x280
  const WRITE_BACK: nat := 0x300
  const UNCACHEABLE: nat := 0x380

  predicate Has(attribs: nat, flag: nat) {
    And(attribs, flag) != 0
  }

  /** The attributes ask for a 4 KiB page. */
  predicate SmallPage(attribs: nat) {
    !Has(attribs, LPAGE) && !Has(attribs, LLPAGE)
  }

  function OrIf(flags: nat, condition: bool, flag: nat): nat {
    if condition then Or(flags, flag) else flags
  }

  /** The caching part of `ToNativeFlags`, for 4 KiB pages. */
  function CacheFlags(attribs: nat, flags: nat): nat {
    if Has(attribs, WRITE_COMBINING) then AndNot(Or(flags, Or(PTE_PCD, PTE_PWT)), PTE_PAT4K)
    else if Has(attribs, WRITE_THROUGH) then Or(flags, PTE_PAT4K)
    else if Has(attribs, WRITE_PROTECTED) then Or(flags, Or(PTE_PAT4K, PTE_PWT))
    else if Has(attribs, WRITE_BACK) then Or(flags, Or(PTE_PAT4K, PTE_PCD))
    else if Has(attribs, UNCACHEABLE) then Or(flags, Or(Or(PTE_PAT4K, PTE_PCD), PTE_PWT))
    else flags
  }

  /** `ToNativeFlags` for attributes that ask for a 4 KiB page. */
  function ToNativeFlags(attribs: nat): nat {
    var f0 := OrIf(PTE_PRESENT, Has(attribs, WRITE), PTE_WRITEABLE);
    var f1 := OrIf(f0, !Has(attribs, EXECUTABLE), PTE_NOEXEC);
    var f2 := OrIf(f1, Has(attribs, USER), PTE_USER_SUPER);
    var f3 := OrIf(f2, Has(attribs, GLOBAL), PTE_GLOBAL);
    CacheFlags(attribs, OrIf(f3, Has(attribs, UNCACHEABLE_STRONG), PTE_PCD))
  }

  // ----- The entry operations -----

  function Address(e: nat): nat {
    And(e, PTE_ADDRESS_MASK)
  }

  function Flags(e: nat): nat {
    AndNot(e, PTE_ADDRESS_MASK)
  }

  predicate IsValid(e: nat) {
    And(e, PTE_PRESENT) != 0
  }

  predicate IsLarge(e: nat) {
    And(e, PTE_LPAGE) != 0
  }

  function SetAddress(e: nat, address: nat): nat {
    Or(AndNot(e, PTE_ADDRESS_MASK), address)
  }

  function SetFlags(e: nat, flags: nat): nat {
    Or(e, flags)
  }

  /** A page-aligned physical address below 2^52. */
  predicate IsFrame(a: nat) {
    a < 0x10_0000_0000_0000 && a % PAGE_SIZE == 0
  }

  /** Flags that stay outside the address field. */
  ghost predicate OutsideAddress(flags: nat) {
    forall k: nat :: 12 <= k < 52 ==> !Bit(flags, k)
  }

  lemma MaskBit(k: nat)
    ensures Bit(PTE_ADDRESS_MASK, k) <==> 12 <= k < 52
  {
    Pow2Values();
    Pow2Add(16, 16);
    Pow2Add(32, 8);
    BitShl(Pow2(40) - 1, 12, k);
    if k >= 12 {
      BitOnes(40, k - 12);
    }
  }

  lemma FrameBit(a: nat, k: nat)
    requires IsFrame(a)
    ensures Bit(a, k) ==> 12 <= k < 52
  {
    Pow2Values();
    Pow2Add(16, 16);
    Pow2Add(32, 16);
    Pow2Add(48, 4);
    if k >= 52 {
      BitAbove(a, 52, k);
    } else {
      assert a == Shl(a / 0x1000, 12);
      BitShl(a / 0x1000, 12, k);
    }
  }

  lemma SmallFlag(f: nat)
    requires f < 0x1000
    ensures OutsideAddress(f)
  {
    Pow2Values();
    forall k: nat | 12 <= k
      ensures !Bit(f, k)
    {
      BitAbove(f, 12, k);
    }
  }

  /** Masks share a bit exactly when their conjunction is not zero. */
  lemma HasIff(attribs: nat, mask: nat)
    ensures Has(attribs, mask) <==> exists k: nat :: Bit(attribs, k) && Bit(mask, k)
  {
    var x := And(attribs, mask);
    forall k: nat
      ensures Bit(x, k) <==> Bit(attribs, k) && Bit(mask, k)
      ensures !Bit(0, k)
    {
      BitAnd(attribs, mask, k);
      BitZero(k);
    }
    if k: nat :| Bit(attribs, k) && Bit(mask, k) {
      BitAnd(attribs, mask, k);
      BitZero(k);
      assert x != 0;
    } else {
      SameBits(x, 0);
    }
  }

  lemma HasOne(attribs: nat, n: nat)
    ensures Has(attribs, Pow2(n)) <==> Bit(attribs, n)
  {
    AndFlag(attribs, n);
  }

  /** A mask of two bits. */
  lemma HasTwo(attribs: nat, m: nat, n: nat, mask: nat)
    requires mask == Or(Pow2(m), Pow2(n))
    ensures Has(attribs, mask) <==> Bit(attribs, m) || Bit(attribs, n)
  {
    hide Or, Bit, Pow2;
    forall k: nat
      ensures Bit(mask, k) <==> k == m || k == n
    {
      BitOr(Pow2(m), Pow2(n), k);
      BitPow2(m, k);
      BitPow2(n, k);
    }
    HasIff(attribs, mask);
  }

  lemma OrIfBit(f: nat, condition: bool, n: nat, k: nat)
    ensures Bit(OrIf(f, condition, Pow2(n)), k) <==> Bit(f, k) || (condition && k == n)
  {
    BitOr(f, Pow2(n), k);
    BitPow2(n, k);
  }

  /** Bit `k` of the native flags of a 4 KiB page, by the positions of section 4.5 of the Intel SDM, volume 3A. */
  predicate NativeBit(attribs: nat, k: nat) {
    match k
    case 0 => true
    case 1 => Bit(attribs, 1)
    case 2 => Bit(attribs, 3)
    case 3 => Bit(attribs, 7)
    case 4 => Bit(attribs, 7) || Bit(attribs, 8)
    case 7 => !Bit(attribs, 7) && (Bit(attribs, 8) || Bit(attribs, 9))
    case 8 => Bit(attribs, 4)
    case 63 => !Bit(attribs, 2)
    case _ => false
  }

  /** The caching attributes as `CacheFlags` tests them, one after the other. */
  lemma CacheTests(attribs: nat)
    ensures Has(attribs, WRITE_COMBINING) <==> Bit(attribs, 7)
    ensures Has(attribs, WRITE_THROUGH) <==> Bit(attribs, 9)
    ensures Has(attribs, WRITE_PROTECTED) <==> Bit(attribs, 9) || Bit(attribs, 7)
    ensures Has(attribs, WRITE_BACK) <==> Bit(attribs, 9) || Bit(attribs, 8)
    ensures Has(attribs, UNCACHEABLE) <==> Bit(attribs, 9) || Bit(attribs, 8) || Bit(attribs, 7)
    ensures Has(attribs, UNCACHEABLE_STRONG) <==> Bit(attribs, 8)
  {
    hide And, Or, Bit, Has, Pow2;
    CacheMasks();
    HasOne(attribs, 7);
    HasOne(attribs, 8);
    HasOne(attribs, 9);
    HasTwo(attribs, 9, 7, WRITE_PROTECTED);
    HasTwo(attribs, 9, 8, WRITE_BACK);
    HasThree(attribs, 9, 8, 7, UNCACHEABLE);
  }

  lemma CacheMasks()
    ensures WRITE_COMBINING == Pow2(7) && UNCACHEABLE_STRONG == Pow2(8) && WRITE_THROUGH == Pow2(9)
    ensures WRITE_PROTECTED == Or(Pow2(9), Pow2(7)) && WRITE_BACK == Or(Pow2(9), Pow2(8))
    ensures UNCACHEABLE == Or(Or(Pow2(9), Pow2(8)), Pow2(7))
  {
    hide Or;
    Pow2Values();
    OrAdd(2, 0x80, 8);
    OrAdd(1, 0x100, 9);
    OrAdd(3, 0x80, 8);
  }

  lemma HasThree(attribs: nat, l: nat, m: nat, n: nat, mask: nat)
    requires mask == Or(Or(Pow2(l), Pow2(m)), Pow2(n))
    ensures Has(attribs, mask) <==> Bit(attribs, l) || Bit(attribs, m) || Bit(attribs, n)
  {
    hide Or, Bit, Pow2;
    forall k: nat
      ensures Bit(mask, k) <==> k == l || k == m || k == n
    {
      BitOr(Or(Pow2(l), Pow2(m)), Pow2(n), k);
      BitOr(Pow2(l), Pow2(m), k);
      BitPow2(l, k);
      BitPow2(m, k);
      BitPow2(n, k);
    }
    HasIff(attribs, mask);
  }

  lemma CacheFlagsBit(attribs: nat, flags: nat, k: nat)
    requires !Bit(flags, 7) && !Bit(flags, 3) && (Bit(flags, 4) <==> Bit(attribs, 8))
    ensures Bit(CacheFlags(attribs, flags), k) <==>
            if k == 3 || k == 4 || k == 7 then NativeBit(attribs, k) else Bit(flags, k)
  {
    hide And, Or, AndNot, Bit, Has;
    CacheTests(attribs);
    Pow2Values();
    var both := Or(PTE_PCD, PTE_PWT);
    BitOr(PTE_PCD, PTE_PWT, k);
    BitOr(flags, both, k);
    BitAndNot(Or(flags, both), PTE_PAT4K, k);
    BitOr(flags, PTE_PAT4K, k);
    BitOr(flags, Or(PTE_PAT4K, PTE_PCD), k);
    BitOr(PTE_PAT4K, PTE_PCD, k);
    BitPow2(3, k);
    BitPow2(4, k);
    BitPow2(7, k);
  }

  lemma BaseFlagsBit(attribs: nat, k: nat)
    ensures var f0 := OrIf(PTE_PRESENT, Has(attribs, WRITE), PTE_WRITEABLE);
            var f1 := OrIf(f0, !Has(attribs, EXECUTABLE), PTE_NOEXEC);
            var f2 := OrIf(f1, Has(attribs, USER), PTE_USER_SUPER);
            var f3 := OrIf(f2, Has(attribs, GLOBAL), PTE_GLOBAL);
            Bit(OrIf(f3, Has(attribs, UNCACHEABLE_STRONG), PTE_PCD), k) <==>
            if k == 3 || k == 7 then false else if k == 4 then Bit(attribs, 8) else NativeBit(attribs, k)
  {
    hide And, Or, Bit, Has, OrIf;
    Pow2Values();
    Pow2Add(16, 16);
    Pow2Add(32, 16);
    Pow2Add(48, 15);
    HasOne(attribs, 1);
    HasOne(attribs, 2);
    HasOne(attribs, 3);
    HasOne(attribs, 4);
    HasOne(attribs, 8);
    var f0 := OrIf(PTE_PRESENT, Has(attribs, WRITE), PTE_WRITEABLE);
    var f1 := OrIf(f0, !Has(attribs, EXECUTABLE), PTE_NOEXEC);
    var f2 := OrIf(f1, Has(attribs, USER), PTE_USER_SUPER);
    var f3 := OrIf(f2, Has(attribs, GLOBAL), PTE_GLOBAL);
    BitPow2(0, k);
    OrIfBit(PTE_PRESENT, Has(attribs, WRITE), 1, k);
    OrIfBit(f0, !Has(attribs, EXECUTABLE), 63, k);
    OrIfBit(f1, Has(attribs, USER), 2, k);
    OrIfBit(f2, Has(attribs, GLOBAL), 8, k);
    OrIfBit(f3, Has(attribs, UNCACHEABLE_STRONG), 4, k);
  }

  /** Every bit of the native flags of a 4 KiB page. */
  lemma NativeFlagBits(attribs: nat, k: nat)
    ensures Bit(ToNativeFlags(attribs), k) <==> NativeBit(attribs, k)
  {
    hide And, Or, Bit, Has, OrIf, CacheFlags;
    BaseFlagsBit(attribs, 3);
    BaseFlagsBit(attribs, 4);
    BaseFlagsBit(attribs, 7);
    BaseFlagsBit(attribs, k);
    var f0 := OrIf(PTE_PRESENT, Has(attribs, WRITE), PTE_WRITEABLE);
    var f1 := OrIf(f0, !Has(attribs, EXECUTABLE), PTE_NOEXEC);
    var f2 := OrIf(f1, Has(attribs, USER), PTE_USER_SUPER);
    var f3 := OrIf(f2, Has(attribs, GLOBAL), PTE_GLOBAL);
    CacheFlagsBit(attribs, OrIf(f3, Has(attribs, UNCACHEABLE_STRONG), PTE_PCD), k);
  }

  /** In particular they are present and never reach into the address field. */
  lemma NativeFlags(attribs: nat)
    ensures OutsideAddress(ToNativeFlags(attribs)) && Bit(ToNativeFlags(attribs), 0)
  {
    hide ToNativeFlags, Bit;
    NativeFlagBits(attribs, 0);
    forall k: nat | 12 <= k < 52
      ensures !Bit(ToNativeFlags(attribs), k)
    {
      NativeFlagBits(attribs, k);
    }
  }

  /** An entry gives back the address and the flags it was packed from. */
  lemma PackedFields(a: nat, flags: nat)
    requires IsFrame(a) && OutsideAddress(flags)
    ensures Address(Or(a, flags)) == a && Flags(Or(a, flags)) == flags
    ensures IsValid(Or(a, flags)) <==> Bit(flags, 0)
    ensures IsLarge(Or(a, flags)) <==> Bit(flags, 7)
  {
    var e := Or(a, flags);
    forall k: nat
      ensures Bit(Address(e), k) == Bit(a, k)
      ensures Bit(Flags(e), k) == Bit(flags, k)
    {
      BitOr(a, flags, k);
      BitAnd(e, PTE_ADDRESS_MASK, k);
      BitAndNot(e, PTE_ADDRESS_MASK, k);
      MaskBit(k);
      FrameBit(a, k);
    }
    SameBits(Address(e), a);
    SameBits(Flags(e), flags);
    Pow2Values();
    AndFlag(e, 0);
    AndFlag(e, 7);
    BitOr(a, flags, 0);
    BitOr(a, flags, 7);
    FrameBit(a, 0);
    FrameBit(a, 7);
  }

  /** The entry that `NextLevel` writes for a new table at `a`. */
  function TableEntry(a: nat): nat {
    Or(a, DEFAULT_PTE_FLAGS)
  }

  lemma TableEntryFields(a: nat)
    requires IsFrame(a)
    ensures SetFlags(SetAddress(0, a), DEFAULT_PTE_FLAGS) == TableEntry(a)
    ensures Address(TableEntry(a)) == a && IsValid(TableEntry(a)) && !IsLarge(TableEntry(a))
    ensures Bit(TableEntry(a), 1) && Bit(TableEntry(a), 2) && !Bit(TableEntry(a), 63)
  {
    SmallFlag(DEFAULT_PTE_FLAGS);
    PackedFields(a, DEFAULT_PTE_FLAGS);
    Pow2Values();
    BitAbove(DEFAULT_PTE_FLAGS, 3, 7);
    BitAbove(DEFAULT_PTE_FLAGS, 3, 63);
    FrameBit(a, 63);
    BitOr(a, DEFAULT_PTE_FLAGS, 1);
    BitOr(a, DEFAULT_PTE_FLAGS, 2);
    BitOr(a, DEFAULT_PTE_FLAGS, 63);
    BitOnes(3, 1);
    BitOnes(3, 2);
  }

  /** The entry that `InternalMap` writes for a 4 KiB page. */
  function LeafEntry(phys: nat, attribs: nat): nat {
    Or(phys, ToNativeFlags(attribs))
  }

  lemma LeafEntryFields(phys: nat, attribs: nat)
    requires IsFrame(phys)
    ensures SetFlags(SetAddress(0, phys), ToNativeFlags(attribs)) == LeafEntry(phys, attribs)
    ensures Address(LeafEntry(phys, attribs)) == phys && IsValid(LeafEntry(phys, attribs))
    ensures Flags(LeafEntry(phys, attribs)) == ToNativeFlags(attribs)
  {
    NativeFlags(attribs);
    PackedFields(phys, ToNativeFlags(attribs));
  }
}
