/**
 * The initial user stack that argument_passing builds for main(argc, argv),
 * following the i386 System V ABI processor supplement, chapter 3: from the
 * top of the stack down, the argument strings (last argument highest), the
 * padding that word-aligns them, a NULL sentinel, the argv[i] pointers,
 * argv, argc and a zero return address. Memory is an array of bytes indexed
 * by virtual address; the stack pointer is an index into it.
 */
module Args {
  import opened Bytes

  /** argument_passing records argument addresses in a local `char *address[100]`. */
  const MAX_ARGS: nat := 100

  /** A C string's characters: no NUL inside, so strlen gives its length. */
  predicate NoNul(a: seq<byte>) {
    forall j | 0 <= j < |a| :: a[j] != 0
  }

  /** The bytes of a C string as stored: its characters and the terminating NUL. */
  function CStr(a: seq<byte>): (c: seq<byte>)
    ensures |c| == |a| + 1 && c[..|a|] == a && c[|a|] == 0
  {
    a + [0]
  }

  /** The four bytes an i386 store of the C int or pointer x writes (x taken modulo 2^32). */
  function Int32(x: int): (b: seq<byte>)
    ensures |b| == 4
  {
    Word(x % WORD_LIMIT)
  }

  /** A stored value that fits in 32 bits reads back unchanged. */
  lemma Int32RoundTrip(x: int)
    requires 0 <= x < WORD_LIMIT
    ensures U32At(Int32(x), 0) == x
  {
    assert x % WORD_LIMIT == x;
    WordRoundTrip(x);
  }

  /** The argument strings as they lie in memory, first argument lowest. */
  function Strings(args: seq<seq<byte>>): seq<byte> {
    if args == [] then [] else CStr(args[0]) + Strings(args[1..])
  }

  /** word_align: the padding that brings `total` string bytes to a multiple of four. */
  function WordAlign(total: nat): (pad: nat)
    ensures pad < 4 && (total + pad) % 4 == 0
  {
    var w := 4 - total % 4;
    if w == 4 then 0 else w
  }

  /** The address each argument string starts at, when the strings end at `top`. */
  function ArgAddrs(args: seq<seq<byte>>, top: int): (addrs: seq<int>)
    ensures |addrs| == |args|
  {
    if args == [] then [] else [top - |Strings(args)|] + ArgAddrs(args[1..], top)
  }

  /** The argv[] array as stored: one pointer per address, argv[0] lowest. */
  function PointerWords(addrs: seq<int>): (b: seq<byte>)
    ensures |b| == 4 * |addrs|
  {
    if addrs == [] then [] else Int32(addrs[0]) + PointerWords(addrs[1..])
  }

  /** How far argument_passing moves the stack pointer down. */
  function StackSize(args: seq<seq<byte>>): nat {
    |Strings(args)| + WordAlign(|Strings(args)|) + 4 * (|args| + 1) + 12
  }

  /**
   * The bytes argument_passing leaves between the final stack pointer and
   * `top`, lowest first: return address 0, argc, argv, argv[0 .. argc-1],
   * the NULL sentinel, the padding (`pad`: the padding bytes are skipped,
   * not written, so they keep what memory held) and the strings.
   */
  function StackImage(args: seq<seq<byte>>, top: int, pad: seq<byte>): (s: seq<byte>)
    ensures |s| == 16 + 4 * |args| + |pad| + |Strings(args)|
    ensures s[|s| - |Strings(args)| ..] == Strings(args)
  {
    var esp := top - StackSize(args);
    Int32(0) + (Int32(|args|) + (Int32(esp + 12) + (PointerWords(ArgAddrs(args, top)) + (Int32(0) + (pad + Strings(args))))))
  }

  /** StackImage spelled out for a given argv value and list of argument addresses. */
  lemma StackImageIs(args: seq<seq<byte>>, top: int, pad: seq<byte>, address: seq<int>, argv: int)
    requires address == ArgAddrs(args, top) && argv == top - StackSize(args) + 12
    ensures StackImage(args, top, pad)
         == Int32(0) + (Int32(|args|) + (Int32(argv) + (PointerWords(address) + (Int32(0) + (pad + Strings(args))))))
  {
  }

  /** What memory m holds at the padding below the strings pushed down from `top`. */
  function PadOf(args: seq<seq<byte>>, top: nat, m: seq<byte>): (pad: seq<byte>)
    requires |Strings(args)| + WordAlign(|Strings(args)|) <= top <= |m|
    ensures |pad| == WordAlign(|Strings(args)|)
  {
    m[top - |Strings(args)| - WordAlign(|Strings(args)|) .. top - |Strings(args)|]
  }

  /** Memory m with the bytes c stored from address `at` up. */
  function Poke(m: seq<byte>, at: nat, c: seq<byte>): (r: seq<byte>)
    requires at + |c| <= |m|
    ensures |r| == |m| && r[at .. at + |c|] == c
    ensures r[..at] == m[..at] && r[at + |c| ..] == m[at + |c| ..]
  {
    m[..at] + c + m[at + |c| ..]
  }

  /** Storing c2 just below an earlier store of c1 is one store of c2 + c1. */
  lemma PokeBelow(m: seq<byte>, at: nat, c1: seq<byte>, c2: seq<byte>)
    requires |c2| <= at && at + |c1| <= |m|
    ensures Poke(Poke(m, at, c1), at - |c2|, c2) == Poke(m, at - |c2|, c2 + c1)
  {
    var r1 := Poke(m, at, c1);
    assert r1[at - |c2| + |c2| ..] == c1 + m[at + |c1| ..];
  }

  /** Storing back the bytes already there changes nothing. */
  lemma PokeSame(m: seq<byte>, at: nat, n: nat)
    requires at + n <= |m|
    ensures Poke(m, at, m[at .. at + n]) == m
  {
    assert m == m[..at] + m[at .. at + n] + m[at + n ..];
  }

  /** Moving the stack pointer down over bytes without writing them is a store of what they already hold. */
  lemma SkipKeeps(m: seq<byte>, at: nat, c: seq<byte>, n: nat)
    requires n <= at && at + |c| <= |m|
    ensures Poke(m, at, c) == Poke(m, at - n, m[at - n .. at] + c)
  {
    var m1 := Poke(m, at, c);
    assert m1[at - n .. at] == m[at - n .. at];
    PokeSame(m1, at - n, n);
    PokeBelow(m, at, c, m[at - n .. at]);
  }

  /**
   * Store the bytes c just below sp, last byte first, as the byte-by-byte
   * pushes do. The stack so far is `above`, stored at sp over the memory
   * `base`; afterwards it is c + above, stored at the new stack pointer.
   */
  method PushBytes(mem: array<byte>, sp: nat, c: seq<byte>, ghost base: seq<byte>, ghost above: seq<byte>)
    returns (sp': nat)
    requires |c| <= sp && sp + |above| <= |base|
    requires mem[..] == Poke(base, sp, above)
    modifies mem
    ensures sp' == sp - |c|
    ensures mem[..] == Poke(base, sp', c + above)
  {
    ghost var m := mem[..];
    sp' := sp;
    var j := |c|;
    while j > 0
      invariant 0 <= j <= |c| && sp' == sp - (|c| - j)
      invariant forall k | sp' <= k < sp :: mem[k] == c[k - sp' + j]
      invariant forall k | 0 <= k < mem.Length && !(sp' <= k < sp) :: mem[k] == m[k]
    {
      j := j - 1;
      sp' := sp' - 1;
      mem[sp'] := c[j];
    }
    assert mem[..] == Poke(m, sp', c) by {
      forall k | 0 <= k < mem.Length ensures mem[k] == Poke(m, sp', c)[k] {
        if k < sp' {
          assert Poke(m, sp', c)[..sp'][k] == m[..sp'][k];
        } else if k >= sp {
          assert Poke(m, sp', c)[sp..][k - sp] == m[sp..][k - sp];
        }
      }
    }
    PokeBelow(base, sp, above, c);
  }

  /** The first loop of argument_passing: the strings, last argument first, recording where each starts. */
  method PushStrings(args: seq<seq<byte>>, mem: array<byte>, esp0: nat) returns (sp: nat, address: seq<int>)
    requires |Strings(args)| <= esp0 <= mem.Length
    modifies mem
    ensures sp == esp0 - |Strings(args)|
    ensures mem[..] == Poke(old(mem[..]), sp, Strings(args))
    ensures address == ArgAddrs(args, esp0)
  {
    ghost var base := mem[..];
    sp := esp0;
    address := [];
    var i := |args|;
    assert args[i..] == [];
    assert Poke(base, sp, []) == base;
    while i > 0
      invariant 0 <= i <= |args|
      invariant |Strings(args[i..])| <= |Strings(args)|
      invariant sp == esp0 - |Strings(args[i..])|
      invariant mem[..] == Poke(base, sp, Strings(args[i..]))
      invariant address == ArgAddrs(args[i..], esp0)
    {
      i := i - 1;
      StringsSplit(args, i);
      assert args[i..][1..] == args[i + 1..];
      sp := PushBytes(mem, sp, CStr(args[i]), base, Strings(args[i + 1..]));
      address := [sp] + address;
    }
    assert args[0..] == args;
  }

  /** The second loop of argument_passing: argv[count-1] down to argv[0], above the stack so far. */
  method PushPointers(address: seq<int>, mem: array<byte>, sp0: nat, ghost base: seq<byte>, ghost above: seq<byte>)
    returns (sp: nat)
    requires 4 * |address| <= sp0 && sp0 + |above| <= |base|
    requires mem[..] == Poke(base, sp0, above)
    modifies mem
    ensures sp == sp0 - 4 * |address|
    ensures mem[..] == Poke(base, sp, PointerWords(address) + above)
  {
    sp := sp0;
    var i := |address|;
    assert address[i..] == [];
    assert PointerWords(address[i..]) + above == above;
    while i > 0
      invariant 0 <= i <= |address|
      invariant sp == sp0 - 4 * (|address| - i)
      invariant mem[..] == Poke(base, sp, PointerWords(address[i..]) + above)
    {
      i := i - 1;
      assert address[i..][1..] == address[i + 1..];
      assert PointerWords(address[i..]) + above == Int32(address[i]) + (PointerWords(address[i + 1..]) + above);
      sp := PushBytes(mem, sp, Int32(address[i]), base, PointerWords(address[i + 1..]) + above);
    }
    assert address[0..] == address;
  }

  /**
   * The first part of argument_passing: the strings, the padding to a word
   * boundary, the NULL sentinel and argv[count-1] down to argv[0].
   */
  method PushArguments(args: seq<seq<byte>>, mem: array<byte>, esp0: nat) returns (sp: nat, address: seq<int>)
    requires StackSize(args) <= esp0 <= mem.Length
    modifies mem
    ensures sp == esp0 - StackSize(args) + 12
    ensures address == ArgAddrs(args, esp0)
    ensures mem[..] == Poke(old(mem[..]), sp,
      PointerWords(address) + (Int32(0) + (PadOf(args, esp0, old(mem[..])) + Strings(args))))
  {
    ghost var m0 := mem[..];
    ghost var pad := PadOf(args, esp0, m0);
    sp, address := PushStrings(args, mem, esp0);
    var total := esp0 - sp;
    var wordAlign := WordAlign(total);
    ghost var strs := sp;
    sp := sp - wordAlign;
    assert pad == m0[sp .. strs];
    SkipKeeps(m0, strs, Strings(args), wordAlign);
    sp := PushBytes(mem, sp, Int32(0), m0, pad + Strings(args));
    sp := PushPointers(address, mem, sp, m0, Int32(0) + (pad + Strings(args)));
  }

  /**
   * argument_passing: pushes the argument strings, the padding, the NULL
   * sentinel, argv[count-1] down to argv[0], argv, argc and the return
   * address. The layout has to fit below esp0; the source does not check
   * that it does. Everything outside the frame keeps its old contents, and
   * so do the padding bytes inside it, which are skipped rather than written.
   */
  method ArgumentPassing(args: seq<seq<byte>>, mem: array<byte>, esp0: nat) returns (esp: nat)
    requires |args| <= MAX_ARGS
    requires forall i | 0 <= i < |args| :: NoNul(args[i])
    requires StackSize(args) <= esp0 <= mem.Length && esp0 < WORD_LIMIT
    modifies mem
    ensures esp == esp0 - StackSize(args)
    ensures mem[..] == Poke(old(mem[..]), esp, StackImage(args, esp0, PadOf(args, esp0, old(mem[..]))))
  {
    ghost var m0 := mem[..];
    var sp, address := PushArguments(args, mem, esp0);
    ghost var pad := PadOf(args, esp0, m0);
    esp := PushFrame(mem, sp, |args|, m0, PointerWords(address) + (Int32(0) + (pad + Strings(args))));
    StackImageIs(args, esp0, pad, address, sp);
  }

  /**
   * The last three pushes of argument_passing: argv, argc and the return
   * address 0. The argv value stored is the stack pointer before the push,
   * which is the address of argv[0].
   */
  method PushFrame(mem: array<byte>, sp0: nat, argc: nat, ghost base: seq<byte>, ghost above: seq<byte>)
    returns (sp: nat)
    requires 12 <= sp0 && sp0 + |above| <= |base|
    requires mem[..] == Poke(base, sp0, above)
    modifies mem
    ensures sp == sp0 - 12
    ensures mem[..] == Poke(base, sp, Int32(0) + (Int32(argc) + (Int32(sp0) + above)))
  {
    sp := PushBytes(mem, sp0, Int32(sp0), base, above);
    sp := PushBytes(mem, sp, Int32(argc), base, Int32(sp0) + above);
    sp := PushBytes(mem, sp, Int32(0), base, Int32(argc) + (Int32(sp0) + above));
  }

  /** The strings of a split argument list are the strings of the two parts. */
  lemma {:induction false} StringsSplit(args: seq<seq<byte>>, i: nat)
    requires i <= |args|
    ensures Strings(args) == Strings(args[..i]) + Strings(args[i..])
    ensures i < |args| ==> Strings(args[i..]) == CStr(args[i]) + Strings(args[i + 1..])
    decreases i
  {
    if i > 0 {
      StringsSplit(args[1..], i - 1);
      assert args[1..][..i - 1] == args[..i][1..];
      assert args[1..][i - 1..] == args[i..];
    } else {
      assert args[..0] == [];
      assert args[0..] == args;
    }
    if i < |args| {
      assert args[i..][1..] == args[i + 1..];
    }
  }

  /** Argument i starts where the strings of the arguments after it end. */
  lemma {:induction false} ArgAddrAt(args: seq<seq<byte>>, top: int, i: nat)
    requires i < |args|
    ensures ArgAddrs(args, top)[i] == top - |Strings(args[i..])|
    decreases i
  {
    if i > 0 {
      ArgAddrAt(args[1..], top, i - 1);
      assert args[1..][i - 1..] == args[i..];
    } else {
      assert args[0..] == args;
    }
  }

  /** A 32-bit value stored inside a longer byte string reads back at its position. */
  lemma Int32At(pre: seq<byte>, x: int, post: seq<byte>)
    requires 0 <= x < WORD_LIMIT
    ensures U32At(pre + Int32(x) + post, |pre|) == x
  {
    assert x % WORD_LIMIT == x;
    WordAt(pre, x, post);
  }

  /** The pointer array splits around entry i. */
  lemma {:induction false} PointerWordsSplit(addrs: seq<int>, i: nat)
    requires i < |addrs|
    ensures PointerWords(addrs) == PointerWords(addrs[..i]) + Int32(addrs[i]) + PointerWords(addrs[i + 1..])
    decreases i
  {
    if i > 0 {
      PointerWordsSplit(addrs[1..], i - 1);
      assert addrs[1..][..i - 1] == addrs[..i][1..];
      assert addrs[1..][i..] == addrs[i + 1..];
    } else {
      assert addrs[..0] == [];
      assert addrs[1..] == addrs[i + 1..];
    }
  }

  /** Reading argv[i] back out of the stored pointer array. */
  lemma PointerWordAt(addrs: seq<int>, i: nat)
    requires i < |addrs| && 0 <= addrs[i] < WORD_LIMIT
    ensures U32At(PointerWords(addrs), 4 * i) == addrs[i]
  {
    PointerWordsSplit(addrs, i);
    Int32At(PointerWords(addrs[..i]), addrs[i], PointerWords(addrs[i + 1..]));
  }

  /** The word at the stack pointer is the return address, 0. */
  lemma FrameReturnAddress(args: seq<seq<byte>>, top: int, pad: seq<byte>)
    ensures U32At(StackImage(args, top, pad), 0) == 0
  {
    var s := StackImage(args, top, pad);
    assert s[0..4] == Int32(0);
    U32AtSlice(s, 0);
    Int32RoundTrip(0);
  }

  /** The next word is argc, the number of arguments. */
  lemma FrameArgc(args: seq<seq<byte>>, top: int, pad: seq<byte>)
    requires |args| <= MAX_ARGS
    ensures U32At(StackImage(args, top, pad), 4) == |args|
  {
    var s := StackImage(args, top, pad);
    assert s[4..8] == Int32(|args|);
    U32AtSlice(s, 4);
    Int32RoundTrip(|args|);
  }

  /** The next word is argv, which points just past itself, at argv[0]. */
  lemma FrameArgv(args: seq<seq<byte>>, top: int, pad: seq<byte>)
    requires StackSize(args) <= top < WORD_LIMIT
    ensures U32At(StackImage(args, top, pad), 8) == top - StackSize(args) + 12
  {
    var s := StackImage(args, top, pad);
    var esp := top - StackSize(args);
    assert s[8..12] == Int32(esp + 12);
    U32AtSlice(s, 8);
    Int32RoundTrip(esp + 12);
  }

  /** argv[argc], just above the last argument pointer, is the NULL sentinel. */
  lemma FrameSentinel(args: seq<seq<byte>>, top: int, pad: seq<byte>)
    ensures 16 + 4 * |args| <= |StackImage(args, top, pad)|
    ensures U32At(StackImage(args, top, pad), 12 + 4 * |args|) == 0
  {
    var s := StackImage(args, top, pad);
    var n := 12 + 4 * |args|;
    assert s[n .. n + 4] == Int32(0);
    U32AtSlice(s, n);
    Int32RoundTrip(0);
  }

  /** The frame is a whole number of words, so a word-aligned top leaves a word-aligned stack pointer. */
  lemma StackAligned(args: seq<seq<byte>>, top: int)
    ensures StackSize(args) % 4 == 0
    ensures top % 4 == 0 ==> (top - StackSize(args)) % 4 == 0
  {
    var k := |Strings(args)| + WordAlign(|Strings(args)|);
    var q := k / 4;
    assert k == 4 * q;
    assert StackSize(args) == 4 * (q + |args| + 4);
    if top % 4 == 0 {
      var t := top / 4;
      assert top == 4 * t;
      assert top - StackSize(args) == 4 * (t - q - |args| - 4);
    }
  }

  /** The word at argv + 4i is the address of argument i's string. */
  lemma ArgvEntry(args: seq<seq<byte>>, top: int, pad: seq<byte>, i: nat)
    requires |pad| == WordAlign(|Strings(args)|)
    requires StackSize(args) <= top < WORD_LIMIT && i < |args|
    ensures 0 <= ArgAddrs(args, top)[i] < WORD_LIMIT
    ensures U32At(StackImage(args, top, pad), 12 + 4 * i) == ArgAddrs(args, top)[i]
  {
    var s := StackImage(args, top, pad);
    var addrs := ArgAddrs(args, top);
    var ptrs := PointerWords(addrs);
    StringsSplit(args, i);
    ArgAddrAt(args, top, i);
    PointerWordAt(addrs, i);
    StackImagePointers(args, top, pad);
    assert s[12 + 4 * i .. 16 + 4 * i] == ptrs[4 * i .. 4 * i + 4];
    U32AtSlice(s, 12 + 4 * i);
    U32AtSlice(ptrs, 4 * i);
  }

  /** The frame holds argv[0 .. argc-1] from offset 12 on. */
  lemma StackImagePointers(args: seq<seq<byte>>, top: int, pad: seq<byte>)
    ensures StackImage(args, top, pad)[12 .. 12 + 4 * |args|] == PointerWords(ArgAddrs(args, top))
  {
  }

  /** The frame s holds the characters of a and their NUL at offset `at`. */
  predicate HoldsCStr(s: seq<byte>, at: int, a: seq<byte>) {
    0 <= at && at + |a| + 1 <= |s| && s[at .. at + |a| + 1] == CStr(a)
  }

  /** Argument i's characters and NUL lie in the frame at its address. */
  lemma ArgStringAt(args: seq<seq<byte>>, top: int, pad: seq<byte>, i: nat)
    requires |pad| == WordAlign(|Strings(args)|)
    requires StackSize(args) <= top && i < |args|
    ensures HoldsCStr(StackImage(args, top, pad), ArgAddrs(args, top)[i] - (top - StackSize(args)), args[i])
  {
    var s := StackImage(args, top, pad);
    StringsSplit(args, i);
    ArgAddrAt(args, top, i);
    var strs := |s| - |Strings(args)|;
    var before := strs + |Strings(args[..i])|;
    assert ArgAddrs(args, top)[i] - (top - StackSize(args)) == before;
    assert s[before .. before + |args[i]| + 1] == Strings(args)[|Strings(args[..i])| .. |Strings(args[..i])| + |args[i]| + 1];
  }

  /**
   * argv[i] points at argument i's characters followed by its NUL: the
   * pointer read back from the frame, taken relative to the stack pointer,
   * locates CStr(args[i]) inside the frame.
   */
  lemma ArgvPointsAtArgument(args: seq<seq<byte>>, top: int, pad: seq<byte>, i: nat)
    requires |pad| == WordAlign(|Strings(args)|)
    requires StackSize(args) <= top < WORD_LIMIT && i < |args|
    ensures var s := StackImage(args, top, pad);
      HoldsCStr(s, U32At(s, 12 + 4 * i) - (top - StackSize(args)), args[i])
  {
    ArgvEntry(args, top, pad, i);
    ArgStringAt(args, top, pad, i);
  }
}
