/**
 The shadow checks of Kernel/Debug/Kasan.cpp: one shadow byte describes a granule of eight bytes,
 and checks specialised by width stand for a scan byte by byte.
 */
module Kasan {
  import opened Wrappers

  const WORD: nat := 0x1_0000_0000_0000_0000
  const GRANULE: nat := 8

  type Byte = x: nat | x < 256
  type Address = a: nat | a < WORD

  /** Shadow bytes by granule number. */
  type Shadow = map<nat, Byte>

  function ShadowAt(shadow: Shadow, g: nat): Byte {
    if g in shadow then shadow[g] else 0
  }

  /** How the shadow byte enters the comparison. The code compares an `i8` with a `u8`: unsigned. */
  datatype Comparison = Unsigned | Signed

  function Level(c: Comparison, b: Byte): int {
    if c.Signed? && b >= 128 then b - 256 else b
  }

  /** Outcome of a check; a fault carries the shadow byte it reports. */
  datatype Verdict = Pass | Fault(shadow: Byte)

  function Offset(a: Address, n: nat): Address {
    (a + n) % WORD
  }

  /** The comparison all widths end in: the shadow of granule `g` against the offset of the last byte. */
  function VerifyIn(c: Comparison, shadow: Shadow, g: nat, last: Address): Verdict {
    var b := ShadowAt(shadow, g);
    if b == 0 || last % GRANULE + 1 <= Level(c, b) then Pass else Fault(b)
  }

  function Check1(c: Comparison, shadow: Shadow, a: Address): Verdict {
    VerifyIn(c, shadow, a / GRANULE, a)
  }

  function Check2(c: Comparison, shadow: Shadow, a: Address): Verdict {
    if a / GRANULE != Offset(a, 1) / GRANULE then
      var first := Check1(c, shadow, a);
      if first.Pass? then Check1(c, shadow, Offset(a, 1)) else first
    else
      VerifyIn(c, shadow, a / GRANULE, Offset(a, 1))
  }

  function Check4(c: Comparison, shadow: Shadow, a: Address): Verdict {
    if a / GRANULE != Offset(a, 3) / GRANULE then
      var first := Check2(c, shadow, a);
      if first.Pass? then Check2(c, shadow, Offset(a, 2)) else first
    else
      VerifyIn(c, shadow, a / GRANULE, Offset(a, 3))
  }

  function Check8(c: Comparison, shadow: Shadow, a: Address): Verdict {
    if a / GRANULE != Offset(a, 7) / GRANULE then
      var first := Check4(c, shadow, a);
      if first.Pass? then Check4(c, shadow, Offset(a, 4)) else first
    else
      VerifyIn(c, shadow, a / GRANULE, Offset(a, 7))
  }

  /** The reference: test the bytes one by one and report the first that fails. */
  function Scan(c: Comparison, shadow: Shadow, a: Address, n: nat): Verdict
    decreases n
  {
    if n == 0 then Pass
    else if Check1(c, shadow, a).Fault? then Check1(c, shadow, a)
    else Scan(c, shadow, Offset(a, 1), n - 1)
  }

  /** The scan passes exactly when every byte of the access does. */
  lemma {:induction false} ScanPasses(c: Comparison, shadow: Shadow, a: Address, n: nat)
    ensures Scan(c, shadow, a, n).Pass? <==> forall i: nat :: i < n ==> Check1(c, shadow, Offset(a, i)).Pass?
    decreases n
  {
    hide VerifyIn;
    if n > 0 {
      var b := Offset(a, 1);
      ScanPasses(c, shadow, b, n - 1);
      assert Offset(a, 0) == a;
      assert forall i: nat {:trigger Offset(b, i)} :: Offset(b, i) == Offset(a, i + 1);
      assert forall i: nat {:trigger Offset(a, i)} :: i > 0 ==> Offset(a, i) == Offset(b, i - 1);
    }
  }

  lemma {:induction false} ScanSplit(c: Comparison, shadow: Shadow, a: Address, m: nat, n: nat)
    ensures Scan(c, shadow, a, m + n) ==
            if Scan(c, shadow, a, m).Pass? then Scan(c, shadow, Offset(a, m), n) else Scan(c, shadow, a, m)
    decreases m
  {
    hide VerifyIn;
    if m > 0 {
      ScanSplit(c, shadow, Offset(a, 1), m - 1, n);
      assert Offset(Offset(a, 1), m - 1) == Offset(a, m);
    } else {
      assert Offset(a, 0) == a;
    }
  }

  /** Inside one granule a rejected byte makes all later bytes rejected, with the same report. */
  lemma {:induction false} ScanGranule(c: Comparison, shadow: Shadow, a: Address, n: nat)
    requires 1 <= n && a % GRANULE + n <= GRANULE
    ensures Offset(a, n - 1) == a + n - 1 && Offset(a, n - 1) / GRANULE == a / GRANULE
    ensures Scan(c, shadow, a, n) == VerifyIn(c, shadow, a / GRANULE, Offset(a, n - 1))
    decreases n
  {
    assert a + n - 1 < WORD;
    if n > 1 {
      assert Offset(a, 1) == a + 1;
      ScanGranule(c, shadow, Offset(a, 1), n - 1);
    } else {
      assert Scan(c, shadow, Offset(a, 1), 0) == Pass;
    }
  }

  /** Whether an access of `n` bytes stays in one granule, as the code tests it. */
  lemma SameGranule(a: Address, n: nat)
    requires 1 <= n <= GRANULE
    ensures a / GRANULE == Offset(a, n - 1) / GRANULE <==> a % GRANULE + n <= GRANULE
  {
    var g, r := a / GRANULE, a % GRANULE;
    assert WORD == 0x2000_0000_0000_0000 * GRANULE;
    if a + n - 1 >= WORD {
      assert Offset(a, n - 1) == a + n - 1 - WORD;
    }
  }

  lemma Check2Scans(c: Comparison, shadow: Shadow, a: Address)
    ensures Check2(c, shadow, a) == Scan(c, shadow, a, 2)
  {
    hide VerifyIn;
    SameGranule(a, 2);
    if a % GRANULE + 2 <= GRANULE {
      ScanGranule(c, shadow, a, 2);
    } else {
      ScanSplit(c, shadow, a, 1, 1);
      ScanOne(c, shadow, a);
      ScanOne(c, shadow, Offset(a, 1));
    }
  }

  lemma ScanOne(c: Comparison, shadow: Shadow, a: Address)
    ensures Scan(c, shadow, a, 1) == Check1(c, shadow, a)
  {
    assert Scan(c, shadow, Offset(a, 1), 0) == Pass;
  }

  lemma Check4Scans(c: Comparison, shadow: Shadow, a: Address)
    ensures Check4(c, shadow, a) == Scan(c, shadow, a, 4)
  {
    hide VerifyIn, Check2, Scan;
    SameGranule(a, 4);
    if a % GRANULE + 4 <= GRANULE {
      ScanGranule(c, shadow, a, 4);
    } else {
      ScanSplit(c, shadow, a, 2, 2);
      Check2Scans(c, shadow, a);
      Check2Scans(c, shadow, Offset(a, 2));
    }
  }

  lemma Check8Scans(c: Comparison, shadow: Shadow, a: Address)
    ensures Check8(c, shadow, a) == Scan(c, shadow, a, 8)
  {
    hide VerifyIn, Check4, Scan;
    SameGranule(a, 8);
    if a % GRANULE + 8 <= GRANULE {
      ScanGranule(c, shadow, a, 8);
    } else {
      ScanSplit(c, shadow, a, 4, 4);
      Check4Scans(c, shadow, a);
      Check4Scans(c, shadow, Offset(a, 4));
    }
  }

  /** Bytes up to a granule boundary, then whole granules, then the rest: the same as the scan. */
  method CheckN(c: Comparison, shadow: Shadow, address: Address, size: nat) returns (verdict: Verdict)
    ensures verdict == Scan(c, shadow, address, size)
  {
    hide Check1, Check8;
    var a, n := address, size;
    while a % 8 != 0 && n > 0
      invariant Scan(c, shadow, a, n) == Scan(c, shadow, address, size)
      decreases n
    {
      verdict := Check1(c, shadow, a);
      if verdict.Fault? {
        return;
      }
      a, n := Offset(a, 1), n - 1;
    }
    while n >= 8
      invariant Scan(c, shadow, a, n) == Scan(c, shadow, address, size)
      decreases n
    {
      verdict := Check8(c, shadow, a);
      Check8Scans(c, shadow, a);
      ScanSplit(c, shadow, a, 8, n - 8);
      if verdict.Fault? {
        return;
      }
      a, n := Offset(a, 8), n - 8;
    }
    while n > 0
      invariant Scan(c, shadow, a, n) == Scan(c, shadow, address, size)
      decreases n
    {
      verdict := Check1(c, shadow, a);
      if verdict.Fault? {
        return;
      }
      a, n := Offset(a, 1), n - 1;
    }
    verdict := Pass;
  }

  // ----- Marking a region -----

  function Filled(shadow: Shadow, g: nat, n: nat, b: Byte): (r: Shadow)
    ensures forall k: nat {:trigger ShadowAt(r, k)} :: ShadowAt(r, k) == if g <= k < g + n then b
            else ShadowAt(shadow, k)
  {
    if n == 0 then shadow
    else
      var rest := Filled(shadow, g, n - 1, b);
      var r := rest[g + n - 1 := b];
      assert forall k: nat {:trigger ShadowAt(r, k)} :: ShadowAt(r, k) == if k == g + n - 1 then b
             else ShadowAt(rest, k);
      r
  }

  function RoundUp(n: nat): nat {
    (n + 7) / GRANULE * GRANULE
  }

  /** The shadow of a region whose first `valid` of `total` bytes may be used. */
  ghost predicate Marked(before: Shadow, after: Shadow, address: Address, valid: nat, total: nat, b: Byte) {
    && (forall k: nat {:trigger ShadowAt(after, k)} :: address / GRANULE <= k < address / GRANULE + total / GRANULE ==>
          ShadowAt(after, k) == RegionByte(valid, k - address / GRANULE, b))
    && (forall k: nat {:trigger ShadowAt(after, k)} ::
          k < address / GRANULE || address / GRANULE + total / GRANULE <= k ==>
            ShadowAt(after, k) == ShadowAt(before, k))
  }

  /** The i-th shadow byte of such a region: how many bytes of the granule are valid, 0 for all. */
  function RegionByte(valid: nat, i: nat, b: Byte): Byte {
    if (i + 1) * GRANULE <= valid then 0
    else if i * GRANULE < valid then valid - i * GRANULE
    else b
  }

  /** Poison is rejected if it compares as a negative number, and accepted if it does not. */
  lemma MarkedAccepts(c: Comparison, before: Shadow, after: Shadow, address: Address, valid: nat, total: nat, b: Byte,
                      i: nat)
    requires Marked(before, after, address, valid, total, b) && b >= 128
    requires address % GRANULE == 0 && total % GRANULE == 0 && address + total <= WORD && i < total
    ensures Check1(c, after, Offset(address, i)).Pass? <==> i < valid || (c.Unsigned? && RoundUp(valid) <= i)
  {
    var k, r := i / GRANULE, i % GRANULE;
    var g := address / GRANULE;
    assert Offset(address, i) == address + i;
    assert (address + i) / GRANULE == g + k && (address + i) % GRANULE == r;
    assert k < total / GRANULE;
    assert ShadowAt(after, g + k) == RegionByte(valid, k, b);
  }

  ghost predicate KeepsPromise(c: Comparison, shadow: Shadow, address: Address, valid: nat, total: nat) {
    forall i: nat :: i < total ==> (Check1(c, shadow, Offset(address, i)).Pass? <==> i < valid)
  }

  /**
   The marked region admits exactly its valid bytes if and only if the comparison is signed or the
   region has no poisoned granule at all.
   */
  lemma PromiseIff(c: Comparison, before: Shadow, after: Shadow, address: Address, valid: nat, total: nat, b: Byte)
    requires Marked(before, after, address, valid, total, b) && b >= 128
    requires address % GRANULE == 0 && total % GRANULE == 0 && address + total <= WORD && RoundUp(valid) <= total
    ensures KeepsPromise(c, after, address, valid, total) <==> c.Signed? || RoundUp(valid) == total
  {
    hide Check1, Marked;
    forall i: nat | i < total
      ensures Check1(c, after, Offset(address, i)).Pass? <==> i < valid || (c.Unsigned? && RoundUp(valid) <= i)
    {
      MarkedAccepts(c, before, after, address, valid, total, b, i);
    }
    var i := RoundUp(valid);
    assert valid <= i;
    if c.Unsigned? && i < total {
      assert Check1(c, after, Offset(address, i)).Pass? && valid <= i;
    }
  }

  /** As coded, a write just past an eight-byte object with a redzone goes unreported. */
  lemma RedzoneExample(before: Shadow, address: Address, b: Byte)
    requires address % GRANULE == 0 && address + 16 <= WORD && b >= 128
    ensures var after := Filled(Filled(before, address / GRANULE, 1, 0), address / GRANULE + 1, 1, b);
            Check1(Unsigned, after, Offset(address, 8)).Pass? && Check1(Signed, after, Offset(address, 8)) == Fault(b)
  {
    assert Offset(address, 8) == address + 8;
    assert (address + 8) / GRANULE == address / GRANULE + 1 && (address + 8) % GRANULE == 0;
  }

  /** Full granules, then the partly valid one if there is one, then poison. */
  lemma MarkedByFills(before: Shadow, after: Shadow, address: Address, valid: nat, total: nat, b: Byte)
    requires address % GRANULE == 0 && total % GRANULE == 0 && RoundUp(valid) <= total
    requires var g, whole, rest := address / GRANULE, valid / GRANULE, valid % GRANULE;
             var full := Filled(before, g, whole, 0);
             var part := if rest != 0 then full[g + whole := rest] else full;
             after == Filled(part, g + whole + (if rest != 0 then 1 else 0), (total - RoundUp(valid)) / GRANULE, b)
    ensures Marked(before, after, address, valid, total, b)
  {
    var g, whole, rest := address / GRANULE, valid / GRANULE, valid % GRANULE;
    var full := Filled(before, g, whole, 0);
    var part := if rest != 0 then full[g + whole := rest] else full;
    var first := whole + if rest != 0 then 1 else 0;
    assert RoundUp(valid) == first * GRANULE && first + (total - RoundUp(valid)) / GRANULE == total / GRANULE;
    forall k: nat
      ensures ShadowAt(after, k) == if g <= k < g + total / GRANULE then RegionByte(valid, k - g, b)
              else ShadowAt(before, k)
    {
      if g <= k < g + total / GRANULE {
        RegionByteIs(valid, k - g, b);
      }
      assert ShadowAt(part, k) == if rest != 0 && k == g + whole then rest else ShadowAt(full, k);
    }
  }

  lemma RegionByteIs(valid: nat, i: nat, b: Byte)
    ensures RegionByte(valid, i, b) ==
            if i < valid / GRANULE then 0 else if i == valid / GRANULE && valid % GRANULE != 0 then valid % GRANULE
              else b
  {
  }

  class Sanitizer {
    var shadow: Shadow
    var initialized: bool
    const higherHalf: Address
    const shadowBase: Address

    constructor (higherHalf: Address, shadowBase: Address)
      ensures this.higherHalf == higherHalf && this.shadowBase == shadowBase && initialized && shadow == map[]
    {
      this.higherHalf, this.shadowBase := higherHalf, shadowBase;
      shadow, initialized := map[], true;
    }

    method FillShadow(address: Address, size: nat, b: Byte)
      requires address % GRANULE == 0 && size % GRANULE == 0
      modifies this`shadow
      ensures if initialized then Marked(old(shadow), shadow, address, 0, size, b) else shadow == old(shadow)
    {
      if initialized {
        shadow := Filled(shadow, address / GRANULE, size / GRANULE, b);
      }
    }

    method MarkRegion(address: Address, valid: nat, total: nat, b: Byte)
      requires address % GRANULE == 0 && total % GRANULE == 0 && RoundUp(valid) <= total
      modifies this`shadow
      ensures if initialized then Marked(old(shadow), shadow, address, valid, total, b) else shadow == old(shadow)
    {
      if !initialized {
        return;
      }
      hide Filled;
      var g := address / GRANULE;
      var whole := valid / GRANULE;
      ghost var before := shadow;
      shadow := Filled(shadow, g, whole, 0);
      var rest := valid % GRANULE;
      if rest != 0 {
        shadow := shadow[g + whole := rest];
      }
      var poisoned := (total - RoundUp(valid)) / GRANULE;
      shadow := Filled(shadow, g + whole + (if rest != 0 then 1 else 0), poisoned, b);
      MarkedByFills(before, shadow, address, valid, total, b);
    }

    /** The shadow byte to report, or nothing. Only the first address decides whether to look at all. */
    method CheckShadowBytes(c: Comparison, address: Address, size: nat) returns (violation: Option<Byte>)
      ensures violation.Some? <==>
              && initialized && higherHalf <= address < shadowBase
              && exists i: nat :: i < size && Check1(c, shadow, Offset(address, i)).Fault?
      ensures violation.Some? ==> Scan(c, shadow, address, size) == Fault(violation.value)
    {
      hide Check1, Check2, Check4, Check8, Scan;
      ScanPasses(c, shadow, address, size);
      if size == 0 || !initialized || address < higherHalf || address >= shadowBase {
        return None;
      }
      var verdict: Verdict;
      if size == 1 {
        verdict := Check1(c, shadow, address);
        ScanOne(c, shadow, address);
      } else if size == 2 {
        verdict := Check2(c, shadow, address);
        Check2Scans(c, shadow, address);
      } else if size == 4 {
        verdict := Check4(c, shadow, address);
        Check4Scans(c, shadow, address);
      } else if size == 8 {
        verdict := Check8(c, shadow, address);
        Check8Scans(c, shadow, address);
      } else {
        verdict := CheckN(c, shadow, address, size);
      }
      violation := if verdict.Pass? then None else Some(verdict.shadow);
    }
  }
}
