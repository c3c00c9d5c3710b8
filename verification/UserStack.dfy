/**
 The initial stack of a user program (Kernel/Library/ExecutableProgram.cpp, `PrepareStack`),
 and the reader that section 3.4.1 of the System V AMD64 psABI prescribes for it.
 */
module UserStack {

  type Byte = x: nat | x < 256
  type Str = seq<Byte>

  const WORD: nat := 0x1_0000_0000_0000_0000

  // ----- Words in memory -----

  /** `n` bytes of `v`, least significant first. */
  function ToBytes(v: nat, n: nat): (s: seq<Byte>)
    ensures |s| == n
  {
    if n == 0 then [] else [v % 256] + ToBytes(v / 256, n - 1)
  }

  function FromBytes(s: seq<Byte>): nat {
    if s == [] then 0 else s[0] + 256 * FromBytes(s[1..])
  }

  function Pow256(n: nat): nat {
    if n == 0 then 1 else 256 * Pow256(n - 1)
  }

  lemma {:induction false} BytesRoundTrip(v: nat, n: nat)
    requires v < Pow256(n)
    ensures FromBytes(ToBytes(v, n)) == v
  {
    if n > 0 {
      BytesRoundTrip(v / 256, n - 1);
      assert ToBytes(v, n)[1..] == ToBytes(v / 256, n - 1);
    }
  }

  /** The bytes of consecutive 64-bit words. */
  function Serialize(ws: seq<nat>): (s: seq<Byte>)
    ensures |s| == 8 * |ws|
  {
    if ws == [] then [] else ToBytes(ws[0], 8) + Serialize(ws[1..])
  }

  function ReadWord(m: seq<Byte>, i: nat): nat
    requires i + 8 <= |m|
  {
    FromBytes(m[i..i + 8])
  }

  lemma {:induction false} SerializeAt(ws: seq<nat>, k: nat)
    requires k < |ws|
    ensures Serialize(ws)[8 * k..8 * k + 8] == ToBytes(ws[k], 8)
  {
    if k > 0 {
      SerializeAt(ws[1..], k - 1);
      var s := Serialize(ws);
      assert s[8..] == Serialize(ws[1..]);
      assert s[8 * k..8 * k + 8] == s[8..][8 * (k - 1)..8 * (k - 1) + 8];
    }
  }

  lemma {:induction false} SerializeAppend(a: seq<nat>, b: seq<nat>)
    ensures Serialize(a + b) == Serialize(a) + Serialize(b)
  {
    if a == [] {
      assert a + b == b;
    } else {
      hide ToBytes;
      SerializeAppend(a[1..], b);
      assert (a + b)[1..] == a[1..] + b;
      assert ToBytes(a[0], 8) + (Serialize(a[1..]) + Serialize(b)) == (ToBytes(a[0], 8) + Serialize(a[1..])) +
             Serialize(b);
    }
  }

  // ----- Strings in memory -----

  predicate NulFree(s: Str) {
    forall i :: 0 <= i < |s| ==> s[i] != 0
  }

  /** Strings pushed one below the other, each followed by a NUL. */
  function StringArea(ss: seq<Str>): seq<Byte> {
    if ss == [] then [] else ss[|ss| - 1] + [0] + StringArea(ss[..|ss| - 1])
  }

  /** The bytes up to the next NUL. */
  function ReadString(m: seq<Byte>, i: nat): Str
    requires i <= |m|
    decreases |m| - i
  {
    if i == |m| || m[i] == 0 then [] else [m[i]] + ReadString(m, i + 1)
  }

  lemma {:induction false} ReadStringAt(m: seq<Byte>, i: nat, s: Str)
    requires i + |s| < |m| && m[i..i + |s|] == s && m[i + |s|] == 0 && NulFree(s)
    ensures ReadString(m, i) == s
    decreases |s|
  {
    if s != [] {
      assert m[i] == s[0];
      assert m[i + 1..i + 1 + |s[1..]|] == s[1..];
      ReadStringAt(m, i + 1, s[1..]);
    }
  }

  // ----- The layout -----

  /** What the auxiliary vector reports about the program image. */
  datatype Image = Image(entryPoint: nat, headerAddress: nat, headerEntrySize: nat, headerCount: nat)

  const AT_PHDR: nat := 3
  const AT_PHENT: nat := 4
  const AT_PHNUM: nat := 5
  const AT_ENTRY: nat := 9

  function AuxWords(image: Image): seq<nat> {
    [AT_PHNUM, image.headerCount, AT_PHENT, image.headerEntrySize,
     AT_PHDR, image.headerAddress, AT_ENTRY, image.entryPoint, 0, 0]
  }

  /** The virtual address of the string pushed last. */
  function LastAddress(top: nat, ss: seq<Str>): nat
    requires |StringArea(ss)| <= top
  {
    top - |StringArea(ss)|
  }

  /** The addresses of the strings `ss`, pushed below the strings `above`. */
  function Pointers(top: nat, above: seq<Str>, ss: seq<Str>): (ps: seq<nat>)
    requires |StringArea(above + ss)| <= top
    ensures |ps| == |ss|
    decreases ss
  {
    if ss == [] then []
    else
      var rest := ss[..|ss| - 1];
      AreaSnoc(above, ss);
      Pointers(top, above, rest) + [LastAddress(top, above + ss)]
  }

  lemma AreaSnoc(above: seq<Str>, ss: seq<Str>)
    requires ss != []
    ensures StringArea(above + ss) == ss[|ss| - 1] + [0] + StringArea(above + ss[..|ss| - 1])
  {
    assert (above + ss)[..|above + ss| - 1] == above + ss[..|ss| - 1];
  }

  /** The words of the pointer area, lowest address first. */
  function StackWords(top: nat, argv: seq<Str>, envp: seq<Str>, image: Image): seq<nat>
    requires |StringArea(envp + argv)| <= top
  {
    AreaPrefix(envp, argv);
    assert [] + envp == envp;
    [|argv|] + Pointers(top, envp, argv) + [0] + Pointers(top, [], envp) + [0] + AuxWords(image)
  }

  lemma {:induction false} AreaPrefix(above: seq<Str>, ss: seq<Str>)
    ensures |StringArea(above)| <= |StringArea(above + ss)|
    decreases ss
  {
    if ss == [] {
      assert above + ss == above;
    } else {
      AreaSnoc(above, ss);
      AreaPrefix(above, ss[..|ss| - 1]);
    }
  }

  // ----- Writing -----

  /** Stores one 64-bit word. */
  method WriteWord(mem: array<Byte>, pos: nat, w: nat)
    requires pos + 8 <= mem.Length
    modifies mem
    ensures mem[pos..pos + 8] == ToBytes(w, 8)
    ensures mem[..pos] == old(mem[..pos]) && mem[pos + 8..] == old(mem[pos + 8..])
  {
    ghost var bytes := ToBytes(w, 8);
    var v := w;
    for j := 0 to 8
      invariant forall i :: 0 <= i < j ==> mem[pos + i] == bytes[i]
      invariant bytes[j..] == ToBytes(v, 8 - j)
      invariant mem[..pos] == old(mem[..pos]) && mem[pos + 8..] == old(mem[pos + 8..])
    {
      assert bytes[j] == bytes[j..][0] && bytes[j + 1..] == bytes[j..][1..];
      mem[pos + j] := v % 256;
      v := v / 256;
    }
  }

  /** The memory from `pos` up to `end` holds the words `ws`. */
  ghost predicate Holds(mem: array<Byte>, pos: nat, end: nat, ws: seq<nat>)
    reads mem
  {
    pos + 8 * |ws| == end <= mem.Length && mem[pos..end] == Serialize(ws)
  }

  lemma UpperKept(mem: array<Byte>, pos: nat, end: nat, upper: seq<Byte>)
    requires pos <= end <= mem.Length && mem[pos..] == upper
    ensures mem[pos..end] == upper[..end - pos] && mem[end..] == upper[end - pos..]
  {
    assert mem[pos..] == mem[pos..end] + mem[end..];
  }

  /** `*(--stack) = w` below the words `ws`. */
  method PushWord(mem: array<Byte>, pos: nat, w: nat, ghost end: nat, ghost ws: seq<nat>) returns (next: nat)
    requires Holds(mem, pos, end, ws) && pos >= 8
    modifies mem
    ensures next == pos - 8 && Holds(mem, next, end, [w] + ws) && mem[end..] == old(mem[end..])
  {
    hide ToBytes;
    ghost var upper := mem[pos..];
    UpperKept(mem, pos, end, upper);
    next := pos - 8;
    WriteWord(mem, next, w);
    UpperKept(mem, pos, end, upper);
    assert mem[next..end] == mem[next..pos] + mem[pos..end];
    assert ([w] + ws)[1..] == ws;
  }

  /** Copies one string below the strings `above`; its NUL is a byte that was never written. */
  method PushString(mem: array<Byte>, pos: nat, s: Str, ghost above: seq<Str>) returns (next: nat)
    requires |s| + 1 <= pos <= mem.Length && mem[pos..] == StringArea(above)
    requires forall i :: 0 <= i < pos ==> mem[i] == 0
    modifies mem
    ensures next == pos - |s| - 1 && mem[next..] == StringArea(above + [s])
    ensures forall i :: 0 <= i < next ==> mem[i] == 0
  {
    ghost var area := mem[pos..];
    next := pos - |s| - 1;
    for j := 0 to |s|
      invariant forall i :: 0 <= i < j ==> mem[next + i] == s[i]
      invariant forall i :: next + j <= i < pos ==> mem[i] == 0
      invariant forall i :: 0 <= i < next ==> mem[i] == 0
      invariant forall i :: pos <= i < mem.Length ==> mem[i] == area[i - pos]
    {
      mem[next + j] := s[j];
    }
    assert (above + [s])[..|above|] == above;
    assert mem[next..] == s + [0] + area;
  }

  lemma AreaStep(above: seq<Str>, ss: seq<Str>, k: nat)
    requires k < |ss|
    ensures above + ss[..k + 1] == above + ss[..k] + [ss[k]]
    ensures |StringArea(above + ss[..k + 1])| == |StringArea(above + ss[..k])| + |ss[k]| + 1
    ensures |StringArea(above + ss[..k + 1])| <= |StringArea(above + ss)|
  {
    var prefix := ss[..k + 1];
    AreaPrefix(above + prefix, ss[k + 1..]);
    assert above + ss == above + prefix + ss[k + 1..];
    assert prefix[..k] == ss[..k];
    AreaSnoc(above, prefix);
  }

  /** Copies the strings `ss`, one below the other, below the strings `above`. */
  method PushStrings(mem: array<Byte>, pos: nat, ss: seq<Str>, ghost above: seq<Str>) returns (next: nat)
    requires pos <= mem.Length && mem[pos..] == StringArea(above)
    requires forall i :: 0 <= i < pos ==> mem[i] == 0
    requires |StringArea(above + ss)| <= mem.Length
    modifies mem
    ensures next + |StringArea(above + ss)| == mem.Length && mem[next..] == StringArea(above + ss)
    ensures forall i :: 0 <= i < next ==> mem[i] == 0
  {
    hide StringArea;
    next := pos;
    assert above + ss[..0] == above;
    for k := 0 to |ss|
      invariant next <= mem.Length && mem[next..] == StringArea(above + ss[..k])
      invariant forall i :: 0 <= i < next ==> mem[i] == 0
    {
      AreaStep(above, ss, k);
      next := PushString(mem, next, ss[k], above + ss[..k]);
    }
    assert ss[..|ss|] == ss;
  }

  lemma NoWords(mem: array<Byte>, pos: nat)
    requires pos <= mem.Length
    ensures Holds(mem, pos, pos, [])
  {
  }

  lemma PointerStep(top: nat, above: seq<Str>, ss: seq<Str>, k: nat)
    requires k < |ss| && |StringArea(above + ss)| <= top
    ensures |StringArea(above + ss[..k + 1])| == |StringArea(above + ss[..k])| + |ss[k]| + 1 <= top
    ensures var address := top - |StringArea(above + ss[..k + 1])|;
            Pointers(top, above, ss[..k + 1]) == Pointers(top, above, ss[..k]) + [address]
  {
    hide StringArea;
    AreaStep(above, ss, k);
    assert ss[..k + 1][..k] == ss[..k];
  }

  /** Stores `w` behind the words `ws`. */
  method AppendWord(mem: array<Byte>, pos: nat, p: nat, w: nat, ghost limit: nat, ghost ws: seq<nat>)
    requires Holds(mem, pos, p, ws) && p + 8 <= limit <= mem.Length
    modifies mem
    ensures Holds(mem, pos, p + 8, ws + [w]) && mem[limit..] == old(mem[limit..])
  {
    hide ToBytes;
    ghost var front, back := mem[..p], mem[p + 8..];
    assert mem[pos..p] == front[pos..] && mem[limit..] == back[limit - p - 8..];
    WriteWord(mem, p, w);
    assert mem[pos..p] == front[pos..] && mem[limit..] == back[limit - p - 8..];
    assert mem[pos..p + 8] == mem[pos..p] + mem[p..p + 8];
    SerializeAppend(ws, [w]);
    assert [w][1..] == [];
  }

  /** Fills the words from `pos` on with the addresses of `ss`, and returns the address of the last one. */
  method WritePointers(mem: array<Byte>, pos: nat, start: nat, ss: seq<Str>, ghost top: nat, ghost above: seq<Str>)
    returns (stackPointer: nat)
    requires pos + 8 * |ss| <= mem.Length
    requires |StringArea(above + ss)| <= top && start == top - |StringArea(above)|
    modifies mem
    ensures stackPointer == top - |StringArea(above + ss)|
    ensures Holds(mem, pos, pos + 8 * |ss|, Pointers(top, above, ss))
    ensures mem[pos + 8 * |ss|..] == old(mem[pos + 8 * |ss|..])
  {
    stackPointer := start;
    ghost var upper := mem[pos + 8 * |ss|..];
    assert above + ss[..0] == above;
    hide StringArea, Pointers, ToBytes, Serialize;
    assert Holds(mem, pos, pos, Pointers(top, above, ss[..0])) by {
      NoWords(mem, pos);
    }
    for k := 0 to |ss|
      invariant |StringArea(above + ss[..k])| <= top
      invariant stackPointer == top - |StringArea(above + ss[..k])|
      invariant Holds(mem, pos, pos + 8 * k, Pointers(top, above, ss[..k]))
      invariant mem[pos + 8 * |ss|..] == upper
    {
      PointerStep(top, above, ss, k);
      stackPointer := stackPointer - (|ss[k]| + 1);
      AppendWord(mem, pos, pos + 8 * k, stackPointer, pos + 8 * |ss|, Pointers(top, above, ss[..k]));
    }
    assert ss[..|ss|] == ss;
  }

  /** `stack -= ss.Size()` and the loop that stores the addresses, below the words `ws`. */
  method PushPointers(mem: array<Byte>, pos: nat, start: nat, ss: seq<Str>, ghost top: nat, ghost above: seq<Str>,
                      ghost end: nat, ghost ws: seq<nat>) returns (next: nat, stackPointer: nat)
    requires Holds(mem, pos, end, ws) && 8 * |ss| <= pos
    requires |StringArea(above + ss)| <= top && start == top - |StringArea(above)|
    modifies mem
    ensures next == pos - 8 * |ss| && stackPointer == top - |StringArea(above + ss)|
    ensures Holds(mem, next, end, Pointers(top, above, ss) + ws) && mem[end..] == old(mem[end..])
  {
    hide StringArea, Pointers, Serialize;
    ghost var upper := mem[pos..];
    UpperKept(mem, pos, end, upper);
    next := pos - 8 * |ss|;
    stackPointer := WritePointers(mem, next, start, ss, top, above);
    UpperKept(mem, pos, end, upper);
    assert mem[next..end] == mem[next..pos] + mem[pos..end];
    SerializeAppend(Pointers(top, above, ss), ws);
  }

  /** One entry of the auxiliary vector. */
  method PushPair(mem: array<Byte>, pos: nat, kind: nat, value: nat, ghost end: nat, ghost ws: seq<nat>)
    returns (next: nat)
    requires Holds(mem, pos, end, ws) && pos >= 16
    modifies mem
    ensures next == pos - 16 && Holds(mem, next, end, [kind, value] + ws) && mem[end..] == old(mem[end..])
  {
    next := PushWord(mem, pos, value, end, ws);
    next := PushWord(mem, next, kind, end, [value] + ws);
    assert [kind] + ([value] + ws) == [kind, value] + ws;
  }

  method PushAux(mem: array<Byte>, pos: nat, image: Image) returns (next: nat)
    requires 80 <= pos <= mem.Length
    modifies mem
    ensures next == pos - 80 && Holds(mem, next, pos, AuxWords(image)) && mem[pos..] == old(mem[pos..])
  {
    hide Serialize;
    NoWords(mem, pos);
    ghost var ws: seq<nat> := [0];
    assert ws + [] == ws;
    next := PushWord(mem, pos, 0, pos, []);
    next := PushWord(mem, next, 0, pos, ws);
    ws := [0] + ws;
    next := PushPair(mem, next, AT_ENTRY, image.entryPoint, pos, ws);
    ws := [AT_ENTRY, image.entryPoint] + ws;
    next := PushPair(mem, next, AT_PHDR, image.headerAddress, pos, ws);
    ws := [AT_PHDR, image.headerAddress] + ws;
    next := PushPair(mem, next, AT_PHENT, image.headerEntrySize, pos, ws);
    ws := [AT_PHENT, image.headerEntrySize] + ws;
    next := PushPair(mem, next, AT_PHNUM, image.headerCount, pos, ws);
    assert [AT_PHNUM, image.headerCount] + ws == AuxWords(image);
  }

  /** Where the pointer area ends: aligned, and shifted by one word when the word count is odd. */
  function AreaEnd(pos: nat, argc: nat, envc: nat): int {
    var aligned := pos - pos % 16;
    if (argc + envc + 1) % 2 == 1 then aligned - 8 else aligned
  }

  predicate Room(size: nat, argv: seq<Str>, envp: seq<Str>) {
    |StringArea(envp + argv)| + 24 + 8 * (13 + |argv| + |envp|) <= size
  }

  /** The memory holds the strings at its end and, below them, the words of the pointer area at `pos`. */
  ghost predicate LaidOut(m: seq<Byte>, pos: nat, top: nat, argv: seq<Str>, envp: seq<Str>, image: Image)
    requires |StringArea(envp + argv)| <= |m| && |m| <= top
  {
    var area := StringArea(envp + argv);
    var ws := StackWords(top, argv, envp, image);
    var end := AreaEnd(|m| - |area|, |argv|, |envp|);
    && pos + 8 * |ws| == end <= |m| - |area|
    && m[pos..end] == Serialize(ws)
    && m[|m| - |area|..] == area
  }

  /** Builds the initial stack in zeroed memory and returns the stack pointer of the new program. */
  method PrepareStack(mem: array<Byte>, stackTopVirt: nat, argv: seq<Str>, envp: seq<Str>, image: Image)
    returns (sp: nat)
    requires mem.Length % 0x1000 == 0 && stackTopVirt % 0x1000 == 0 && mem.Length < stackTopVirt < WORD
    requires Room(mem.Length, argv, envp)
    requires forall i :: 0 <= i < mem.Length ==> mem[i] == 0
    modifies mem
    ensures stackTopVirt - mem.Length <= sp <= stackTopVirt && sp % 16 == 0
    ensures LaidOut(mem[..], sp - (stackTopVirt - mem.Length), stackTopVirt, argv, envp, image)
  {
    hide StringArea, Serialize, StackWords, AreaEnd;
    var bottom := PushArguments(mem, argv, envp);
    var end := bottom - bottom % 16;
    if (|argv| + |envp| + 1) % 2 == 1 {
      end := end - 8;
    }
    StackAligned(mem.Length, stackTopVirt, bottom, |argv|, |envp|);
    ghost var upper := mem[end..];
    assert mem[bottom..] == upper[bottom - end..];
    var stack := PushPointerArea(mem, end, stackTopVirt, argv, envp, image);
    assert mem[bottom..] == mem[end..][bottom - end..];
    assert mem[..][stack..end] == mem[stack..end] && mem[..][bottom..] == mem[bottom..];
    sp := stackTopVirt - (mem.Length - stack);
  }

  /** The parity rule keeps the stack pointer 16-byte aligned for all numbers of strings. */
  lemma StackAligned(size: nat, top: nat, pos: nat, argc: nat, envc: nat)
    requires size % 0x1000 == 0 && top % 0x1000 == 0 && size < top
    requires 24 + 8 * (13 + argc + envc) <= pos <= size
    ensures var aligned := pos - pos % 16;
            AreaEnd(pos, argc, envc) == if (argc + envc + 1) % 2 == 1 then aligned - 8 else aligned
    ensures 8 * (13 + argc + envc) <= AreaEnd(pos, argc, envc) <= pos
    ensures (top - (size - (AreaEnd(pos, argc, envc) - 8 * (13 + argc + envc)))) % 16 == 0
  {
    EndParity(pos / 16, pos % 16, argc + envc);
    var q := pos / 16 - 7 - (argc + envc) / 2;
    MultipleOf16(top / 0x1000, size / 0x1000, q);
  }

  lemma EndParity(p: nat, r: nat, n: nat)
    requires r < 16
    ensures (if (n + 1) % 2 == 1 then 16 * p - 8 else 16 * p) - 8 * (13 + n) == 16 * (p - 7 - n / 2)
  {
  }

  lemma MultipleOf16(a: int, b: int, q: int)
    ensures (0x1000 * a - (0x1000 * b - 16 * q)) % 16 == 0
  {
    assert 0x1000 * a - (0x1000 * b - 16 * q) == 16 * (256 * a - 256 * b + q);
  }

  method PushArguments(mem: array<Byte>, argv: seq<Str>, envp: seq<Str>) returns (stack: nat)
    requires |StringArea(envp + argv)| <= mem.Length
    requires forall i :: 0 <= i < mem.Length ==> mem[i] == 0
    modifies mem
    ensures stack == mem.Length - |StringArea(envp + argv)| && mem[stack..] == StringArea(envp + argv)
  {
    AreaPrefix(envp, argv);
    assert [] + envp == envp;
    stack := PushStrings(mem, mem.Length, envp, []);
    stack := PushStrings(mem, stack, argv, envp);
  }

  /** Pushes the auxiliary vector, the two pointer lists and the argument count. */
  method PushPointerArea(mem: array<Byte>, end: nat, top: nat, argv: seq<Str>, envp: seq<Str>, image: Image)
    returns (stack: nat)
    requires |StringArea(envp + argv)| <= top && 8 * (13 + |argv| + |envp|) <= end <= mem.Length
    modifies mem
    ensures stack == end - 8 * (13 + |argv| + |envp|)
    ensures Holds(mem, stack, end, StackWords(top, argv, envp, image)) && mem[end..] == old(mem[end..])
  {
    AreaPrefix(envp, argv);
    assert [] + envp == envp;
    assert |StringArea([])| == 0;
    hide StringArea, Serialize, Pointers, AuxWords, Holds;
    stack := PushAux(mem, end, image);
    ghost var ws := AuxWords(image);
    stack := PushWord(mem, stack, 0, end, ws);
    ws := [0] + ws;
    var stackPointer := top;
    stack, stackPointer := PushPointers(mem, stack, stackPointer, envp, top, [], end, ws);
    ws := Pointers(top, [], envp) + ws;
    stack := PushWord(mem, stack, 0, end, ws);
    ws := [0] + ws;
    stack, stackPointer := PushPointers(mem, stack, stackPointer, argv, top, envp, end, ws);
    ws := Pointers(top, envp, argv) + ws;
    stack := PushWord(mem, stack, |argv|, end, ws);
    ws := [|argv|] + ws;
    WordsAssociate([|argv|], Pointers(top, envp, argv), [0], Pointers(top, [], envp), [0], AuxWords(image));
  }

  lemma WordsAssociate(a: seq<nat>, b: seq<nat>, c: seq<nat>, d: seq<nat>, e: seq<nat>, f: seq<nat>)
    ensures a + (b + (c + (d + (e + f)))) == a + b + c + d + e + f
  {
    assert a + (b + (c + (d + (e + f)))) == a + b + (c + (d + (e + f)));
    assert a + b + (c + (d + (e + f))) == a + b + c + (d + (e + f));
    assert a + b + c + (d + (e + f)) == a + b + c + d + (e + f);
  }

  // ----- Reading -----

  /** What a program finds on its initial stack. */
  datatype Startup = Startup(argc: nat, argv: seq<Str>, envp: seq<Str>, aux: seq<(nat, nat)>)

  /** The words from `i` on, up to a null word. */
  function ReadUntilNull(m: seq<Byte>, i: nat): seq<nat>
    decreases |m| - i
  {
    if i + 8 > |m| then []
    else
      var w := ReadWord(m, i);
      if w == 0 then [] else [w] + ReadUntilNull(m, i + 8)
  }

  /** The pairs of the auxiliary vector, up to a null type. */
  function ReadAux(m: seq<Byte>, i: nat): seq<(nat, nat)>
    decreases |m| - i
  {
    if i + 16 > |m| then []
    else
      var kind := ReadWord(m, i);
      if kind == 0 then [] else [(kind, ReadWord(m, i + 8))] + ReadAux(m, i + 16)
  }

  /** The string at a virtual address, in memory that starts at the virtual address `base`. */
  function StringAt(m: seq<Byte>, base: nat, address: nat): Str {
    if base <= address <= base + |m| then ReadString(m, address - base) else []
  }

  function StringsAt(m: seq<Byte>, base: nat, addresses: seq<nat>): seq<Str> {
    seq(|addresses|, i requires 0 <= i < |addresses| => StringAt(m, base, addresses[i]))
  }

  /** The stack as section 3.4.1 of the psABI lays it out: count, arguments, null, environment, null, pairs. */
  function ReadStartup(m: seq<Byte>, base: nat, sp: nat): Startup
    requires base <= sp && sp - base + 8 <= |m|
  {
    var i := sp - base;
    var argc := ReadWord(m, i);
    var argv := ReadUntilNull(m, i + 8);
    var envp := ReadUntilNull(m, i + 8 * (argc + 2));
    Startup(argc, StringsAt(m, base, argv), StringsAt(m, base, envp),
            ReadAux(m, i + 8 * (argc + 2 + |envp| + 1)))
  }

  lemma Pow256Word()
    ensures Pow256(8) == WORD
  {
    assert Pow256(2) == 0x1_0000;
    assert Pow256(4) == 0x1_0000 * Pow256(2);
    assert Pow256(6) == 0x1_0000 * Pow256(4);
    assert Pow256(8) == 0x1_0000 * Pow256(6);
  }

  lemma SliceSlice(m: seq<Byte>, a: nat, b: nat, c: nat, d: nat)
    requires a <= b <= |m| && c <= d <= b - a
    ensures m[a..b][c..d] == m[a + c..a + d]
  {
    var x := m[a..b];
    var y, z := x[c..d], m[a + c..a + d];
    forall i | 0 <= i < d - c
      ensures y[i] == z[i]
    {
      assert y[i] == x[c + i];
      assert x[c + i] == m[a + (c + i)];
    }
  }

  /** The memory from `pos` on holds the words `ws`. */
  ghost predicate WordsAt(m: seq<Byte>, pos: nat, ws: seq<nat>) {
    pos + 8 * |ws| <= |m| && m[pos..pos + 8 * |ws|] == Serialize(ws)
  }

  lemma WordAt(m: seq<Byte>, pos: nat, ws: seq<nat>, k: nat)
    requires WordsAt(m, pos, ws) && k < |ws| && ws[k] < WORD
    ensures pos + 8 * k + 8 <= |m| && ReadWord(m, pos + 8 * k) == ws[k]
  {
    hide Serialize, ToBytes, FromBytes, Pow256;
    SerializeAt(ws, k);
    SliceSlice(m, pos, pos + 8 * |ws|, 8 * k, 8 * k + 8);
    assert m[pos + 8 * k..pos + 8 * k + 8] == ToBytes(ws[k], 8);
    Pow256Word();
    BytesRoundTrip(ws[k], 8);
  }

  /** A run of non-null words ended by a null word is read back. */
  lemma {:induction false} UntilNull(m: seq<Byte>, pos: nat, ws: seq<nat>, k: nat, xs: seq<nat>)
    requires WordsAt(m, pos, ws) && k + |xs| < |ws| && ws[k + |xs|] == 0
    requires forall j :: 0 <= j < |xs| ==> ws[k + j] == xs[j] && 0 < xs[j] < WORD
    ensures ReadUntilNull(m, pos + 8 * k) == xs
    decreases |xs|
  {
    hide WordsAt, ReadWord;
    if xs == [] {
      WordAt(m, pos, ws, k);
    } else {
      assert ws[k + 0] == xs[0];
      WordAt(m, pos, ws, k);
      UntilNull(m, pos, ws, k + 1, xs[1..]);
      assert pos + 8 * k + 8 == pos + 8 * (k + 1);
    }
  }

  lemma {:induction false} PointersAt(top: nat, above: seq<Str>, ss: seq<Str>, k: nat)
    requires |StringArea(above + ss)| <= top && k < |ss|
    ensures |StringArea(above + ss[..k + 1])| <= top
    ensures Pointers(top, above, ss)[k] == top - |StringArea(above + ss[..k + 1])|
    decreases ss
  {
    var rest := ss[..|ss| - 1];
    AreaSnoc(above, ss);
    if k == |rest| {
      assert ss[..k + 1] == ss;
    } else {
      PointersAt(top, above, rest, k);
      assert rest[..k + 1] == ss[..k + 1];
    }
  }

  /** The area of the strings pushed first lies at the end. */
  lemma {:induction false} AreaSuffix(a: seq<Str>, b: seq<Str>)
    ensures |StringArea(a)| <= |StringArea(a + b)|
    ensures StringArea(a + b)[|StringArea(a + b)| - |StringArea(a)|..] == StringArea(a)
    decreases b
  {
    if b == [] {
      assert a + b == a;
    } else {
      AreaSnoc(a, b);
      AreaSuffix(a, b[..|b| - 1]);
    }
  }

  lemma StringInSuffix(m: seq<Byte>, i: nat, s: Str, rest: seq<Byte>)
    requires i <= |m| && m[i..] == s + [0] + rest && NulFree(s)
    ensures ReadString(m, i) == s
  {
    assert m[i..][..|s|] == s && m[i..][|s|] == 0;
    assert m[i..i + |s|] == m[i..][..|s|];
    ReadStringAt(m, i, s);
  }

  /** Each pointer leads to its string. */
  lemma PointerReads(m: seq<Byte>, top: nat, above: seq<Str>, ss: seq<Str>, below: seq<Str>, k: nat)
    requires |StringArea(above + ss + below)| <= |m| <= top && k < |ss| && NulFree(ss[k])
    requires m[|m| - |StringArea(above + ss + below)|..] == StringArea(above + ss + below)
    requires |StringArea(above + ss)| <= top
    ensures StringAt(m, top - |m|, Pointers(top, above, ss)[k]) == ss[k]
  {
    var a, b := above + ss[..k + 1], ss[k + 1..] + below;
    assert above + ss + below == a + b;
    AreaSuffix(a, b);
    PointersAt(top, above, ss, k);
    var n := |StringArea(a)|;
    var all := StringArea(a + b);
    var i := |m| - n;
    assert m[i..] == m[|m| - |all|..][|all| - n..];
    assert ss[..k + 1][..k] == ss[..k];
    AreaSnoc(above, ss[..k + 1]);
    hide StringArea, Pointers;
    StringInSuffix(m, i, ss[k], StringArea(above + ss[..k]));
  }

  lemma PointersRead(m: seq<Byte>, top: nat, above: seq<Str>, ss: seq<Str>, below: seq<Str>)
    requires |StringArea(above + ss + below)| <= |m| < top < WORD
    requires forall k :: 0 <= k < |ss| ==> NulFree(ss[k])
    requires m[|m| - |StringArea(above + ss + below)|..] == StringArea(above + ss + below)
    ensures |StringArea(above + ss)| <= top
    ensures StringsAt(m, top - |m|, Pointers(top, above, ss)) == ss
    ensures forall k :: 0 <= k < |ss| ==> 0 < Pointers(top, above, ss)[k] < WORD
  {
    hide StringArea, StringAt, Pointers;
    AreaPrefix(above + ss, below);
    forall k: nat | k < |ss|
      ensures StringAt(m, top - |m|, Pointers(top, above, ss)[k]) == ss[k]
      ensures 0 < Pointers(top, above, ss)[k] < WORD
    {
      PointerReads(m, top, above, ss, below, k);
      PointersAt(top, above, ss, k);
      AreaNonEmpty(above, ss, k);
      AreaPrefix(above + ss[..k + 1], ss[k + 1..] + below);
      assert above + ss[..k + 1] + (ss[k + 1..] + below) == above + ss + below;
    }
  }

  lemma AreaNonEmpty(above: seq<Str>, ss: seq<Str>, k: nat)
    requires k < |ss|
    ensures |StringArea(above + ss[..k + 1])| > 0
  {
    AreaSnoc(above, ss[..k + 1]);
  }

  /** The auxiliary vector that the program reads: AT_PHNUM, AT_PHENT, AT_PHDR and AT_ENTRY. */
  function AuxPairs(image: Image): seq<(nat, nat)> {
    [(5, image.headerCount), (4, image.headerEntrySize), (3, image.headerAddress), (9, image.entryPoint)]
  }

  predicate ValidImage(image: Image) {
    image.entryPoint < WORD && image.headerAddress < WORD && image.headerEntrySize < WORD && image.headerCount < WORD
  }

  lemma AuxReads(m: seq<Byte>, pos: nat, ws: seq<nat>, k: nat, image: Image)
    requires WordsAt(m, pos, ws) && ValidImage(image)
    requires k + 10 == |ws| && forall j :: 0 <= j < 10 ==> ws[k + j] == AuxWords(image)[j]
    ensures ReadAux(m, pos + 8 * k) == AuxPairs(image)
  {
    hide WordsAt, ReadWord;
    var p := pos + 8 * k;
    AuxWordAt(m, pos, ws, k, image, 0);
    AuxWordAt(m, pos, ws, k, image, 1);
    AuxWordAt(m, pos, ws, k, image, 2);
    AuxWordAt(m, pos, ws, k, image, 3);
    AuxWordAt(m, pos, ws, k, image, 4);
    AuxWordAt(m, pos, ws, k, image, 5);
    AuxWordAt(m, pos, ws, k, image, 6);
    AuxWordAt(m, pos, ws, k, image, 7);
    AuxWordAt(m, pos, ws, k, image, 8);
    assert ReadAux(m, p + 64) == [];
    assert ReadAux(m, p + 48) == [(AT_ENTRY, image.entryPoint)];
    assert ReadAux(m, p + 32) == [(AT_PHDR, image.headerAddress), (AT_ENTRY, image.entryPoint)];
  }

  lemma AuxWordAt(m: seq<Byte>, pos: nat, ws: seq<nat>, k: nat, image: Image, j: nat)
    requires WordsAt(m, pos, ws) && ValidImage(image) && j < 10
    requires k + 10 == |ws| && ws[k + j] == AuxWords(image)[j]
    ensures pos + 8 * k + 8 * j + 8 <= |m| && ReadWord(m, pos + 8 * k + 8 * j) == AuxWords(image)[j]
  {
    hide WordsAt, ReadWord;
    WordAt(m, pos, ws, k + j);
    assert pos + 8 * (k + j) == pos + 8 * k + 8 * j;
  }

  lemma AuxLength(image: Image)
    ensures |AuxWords(image)| == 10
  {
  }

  /** The pointer area, word by word. */
  ghost predicate WordsShape(ws: seq<nat>, ap: seq<nat>, ep: seq<nat>, aux: seq<nat>) {
    && |ws| == 3 + |ap| + |ep| + |aux|
    && ws[0] == |ap| && ws[1 + |ap|] == 0 && ws[2 + |ap| + |ep|] == 0
    && (forall j :: 0 <= j < |ap| ==> ws[1 + j] == ap[j])
    && (forall j :: 0 <= j < |ep| ==> ws[2 + |ap| + j] == ep[j])
    && (forall j :: 0 <= j < |aux| ==> ws[3 + |ap| + |ep| + j] == aux[j])
  }

  lemma ConcatShape(ap: seq<nat>, ep: seq<nat>, aux: seq<nat>)
    ensures WordsShape([|ap|] + ap + [0] + ep + [0] + aux, ap, ep, aux)
  {
  }

  lemma WordsRead(m: seq<Byte>, pos: nat, ws: seq<nat>, ap: seq<nat>, ep: seq<nat>, image: Image)
    requires WordsAt(m, pos, ws) && WordsShape(ws, ap, ep, AuxWords(image)) && |ap| < WORD && ValidImage(image)
    requires forall k :: 0 <= k < |ap| ==> 0 < ap[k] < WORD
    requires forall k :: 0 <= k < |ep| ==> 0 < ep[k] < WORD
    ensures pos + 8 <= |m| && ReadWord(m, pos) == |ap| && ReadUntilNull(m, pos + 8) == ap
    ensures ReadUntilNull(m, pos + 8 * (|ap| + 2)) == ep
    ensures ReadAux(m, pos + 8 * (|ap| + 2 + |ep| + 1)) == AuxPairs(image)
  {
    hide *;
    ArgumentWords(m, pos, ws, ap, ep, AuxWords(image));
    EnvironmentWords(m, pos, ws, ap, ep, AuxWords(image));
    AuxiliaryWords(m, pos, ws, ap, ep, image);
  }

  lemma ArgumentWords(m: seq<Byte>, pos: nat, ws: seq<nat>, ap: seq<nat>, ep: seq<nat>, aux: seq<nat>)
    requires WordsAt(m, pos, ws) && WordsShape(ws, ap, ep, aux) && |ap| < WORD
    requires forall k :: 0 <= k < |ap| ==> 0 < ap[k] < WORD
    ensures pos + 8 <= |m| && ReadWord(m, pos) == |ap| && ReadUntilNull(m, pos + 8) == ap
  {
    hide WordsAt, ReadWord, ReadUntilNull;
    WordAt(m, pos, ws, 0);
    UntilNull(m, pos, ws, 1, ap);
  }

  lemma EnvironmentWords(m: seq<Byte>, pos: nat, ws: seq<nat>, ap: seq<nat>, ep: seq<nat>, aux: seq<nat>)
    requires WordsAt(m, pos, ws) && WordsShape(ws, ap, ep, aux)
    requires forall k :: 0 <= k < |ep| ==> 0 < ep[k] < WORD
    ensures ReadUntilNull(m, pos + 8 * (|ap| + 2)) == ep
  {
    hide WordsAt, ReadUntilNull;
    UntilNull(m, pos, ws, 2 + |ap|, ep);
  }

  lemma AuxiliaryWords(m: seq<Byte>, pos: nat, ws: seq<nat>, ap: seq<nat>, ep: seq<nat>, image: Image)
    requires WordsAt(m, pos, ws) && WordsShape(ws, ap, ep, AuxWords(image)) && ValidImage(image)
    ensures ReadAux(m, pos + 8 * (|ap| + 2 + |ep| + 1)) == AuxPairs(image)
  {
    hide WordsAt, ReadAux, AuxPairs, AuxWords, ValidImage;
    AuxLength(image);
    AuxReads(m, pos, ws, 3 + |ap| + |ep|, image);
  }

  /**
   Reading the stack that `PrepareStack` lays out gives back the arguments, the environment and
   the auxiliary vector.
   */
  lemma ReadBack(m: seq<Byte>, pos: nat, top: nat, argv: seq<Str>, envp: seq<Str>, image: Image)
    requires |StringArea(envp + argv)| <= |m| < top < WORD && LaidOut(m, pos, top, argv, envp, image)
    requires ValidImage(image) && |argv| < WORD
    requires forall k :: 0 <= k < |argv| ==> NulFree(argv[k])
    requires forall k :: 0 <= k < |envp| ==> NulFree(envp[k])
    ensures pos + 8 <= |m|
    ensures ReadStartup(m, top - |m|, top - |m| + pos) == Startup(|argv|, argv, envp, AuxPairs(image))
  {
    hide Serialize, StringArea, Pointers, AuxWords, StringsAt, ReadWord, ReadUntilNull, ReadAux, AuxPairs, LaidOut,
         StackWords, WordsAt, WordsShape, NulFree, ValidImage;
    assert envp + argv + [] == envp + argv;
    assert [] + envp + argv == envp + argv;
    LaidOutWords(m, pos, top, argv, envp, image);
    PointersRead(m, top, envp, argv, []);
    PointersRead(m, top, [], envp, argv);
    WordsRead(m, pos, StackWords(top, argv, envp, image), Pointers(top, envp, argv), Pointers(top, [], envp), image);
  }

  lemma LaidOutWords(m: seq<Byte>, pos: nat, top: nat, argv: seq<Str>, envp: seq<Str>, image: Image)
    requires |StringArea(envp + argv)| <= |m| <= top && LaidOut(m, pos, top, argv, envp, image)
    ensures m[|m| - |StringArea(envp + argv)|..] == StringArea(envp + argv)
    ensures |StringArea([] + envp)| <= top
    ensures WordsAt(m, pos, StackWords(top, argv, envp, image))
    ensures WordsShape(StackWords(top, argv, envp, image), Pointers(top, envp, argv), Pointers(top, [], envp),
                       AuxWords(image))
  {
    hide Serialize, Pointers, AuxWords, AreaEnd, StringArea;
    AreaPrefix(envp, argv);
    assert [] + envp == envp;
    ConcatShape(Pointers(top, envp, argv), Pointers(top, [], envp), AuxWords(image));
  }
}
