/**
  The launch-parameter buffer of a GPU kernel launch. The arguments are
  packed back to back, each at the next offset aligned for its type; the
  buffer starts with the five launch words (buffer-pointer tag, argument
  pointer, buffer-size tag, size pointer, end tag), then the byte count of
  the packed arguments as a `size_t`, then the packed arguments, aligned
  for the first argument. Arguments are described by their size and
  alignment only; pointers and `size_t` are 8 bytes wide.
 */
module KernelArgs {
  /** `sizeof(void *)`. */
  const PointerSize: nat := 8
  /** `sizeof(size_t)`. */
  const SizeTSize: nat := 8
  /** `alignof(size_t)`. */
  const SizeTAlignment: nat := 8
  /** The number of launch words at the head of the buffer. */
  const LaunchWords: nat := 5

  /** The size and alignment of one argument's type. */
  datatype ArgType = ArgType(size: nat, alignment: nat)

  /** Every type has a positive alignment. */
  predicate ValidArgs(args: seq<ArgType>)
  {
    forall i :: 0 <= i < |args| ==> args[i].alignment > 0
  }

  /** `utils::roundUp`: the least multiple of `a` that is at least `x`. */
  function RoundUp(x: nat, a: nat): (r: nat)
    requires a > 0
    ensures r % a == 0
    ensures x <= r < x + a
  {
    if x % a == 0 then x
    else
      MultipleAbove(x, a);
      x + (a - x % a)
  }

  /** Padding `x` up by `a - x % a` lands on a multiple of `a`. */
  lemma MultipleAbove(x: nat, a: nat)
    requires a > 0
    ensures (x + (a - x % a)) % a == 0
  {
    var q := x / a;
    var y := x + (a - x % a);
    assert y == a * q + a;
    MultipleMod(q + 1, a);
    assert a * (q + 1) == a * q + a;
  }

  /** A multiple of `a` leaves no remainder. */
  lemma MultipleMod(k: nat, a: nat)
    requires a > 0
    ensures (a * k) % a == 0
  {
    var q := (a * k) / a;
    var r := (a * k) % a;
    assert a * k == a * q + r;
    if q < k {
      MulMonotone(q + 1, k, a);
      assert false;
    } else if k < q {
      MulMonotone(k + 1, q, a);
      assert false;
    }
  }

  /** Scaling by a natural number preserves order. */
  lemma MulMonotone(m: int, n: int, a: nat)
    requires m <= n
    ensures a * m <= a * n
  {
    assert a * n - a * m == a * (n - m);
  }

  /** `utils::divideRoundUp`: the least count of `d`-sized units that covers `x`. */
  function DivideRoundUp(x: nat, d: nat): (r: nat)
    requires d > 0
    ensures x <= r * d < x + d
  {
    var q := x / d;
    assert x == q * d + x % d;
    if x % d == 0 then q
    else
      assert (q + 1) * d == q * d + d;
      q + 1
  }

  /** The running offset after the first `n` arguments have been placed. */
  function PackedEnd(args: seq<ArgType>, n: nat): nat
    requires ValidArgs(args) && n <= |args|
  {
    if n == 0 then 0
    else RoundUp(PackedEnd(args, n - 1), args[n - 1].alignment) + args[n - 1].size
  }

  /** Where argument `i` starts, relative to the start of the argument region. */
  function Placement(args: seq<ArgType>, i: nat): nat
    requires ValidArgs(args) && i < |args|
  {
    RoundUp(PackedEnd(args, i), args[i].alignment)
  }

  /** The byte offset of the `size_t` holding the argument byte count: after the launch words. */
  function ArgSizePtrOffset(): nat
  {
    RoundUp(LaunchWords * PointerSize, SizeTAlignment)
  }

  /** The byte offset of the argument region: after the byte count, aligned for the first argument. */
  function ArgPtrOffset(args: seq<ArgType>): nat
    requires ValidArgs(args) && |args| > 0
  {
    RoundUp(ArgSizePtrOffset() + SizeTSize, args[0].alignment)
  }

  /** The bytes the buffer must hold. */
  function TotalBufSize(args: seq<ArgType>): nat
    requires ValidArgs(args) && |args| > 0
  {
    ArgPtrOffset(args) + PackedEnd(args, |args|)
  }

  /** The pointer-sized slots allocated for the buffer. */
  function NumSlots(args: seq<ArgType>): nat
    requires ValidArgs(args) && |args| > 0
  {
    DivideRoundUp(TotalBufSize(args), PointerSize)
  }

  /**
    One pointer-sized slot of the buffer, as the launch reads it: a tag, a
    null pointer, the address of a byte of this buffer, a `size_t` value,
    or a slot the model does not track (it holds argument bytes, or nothing).
   */
  datatype LaunchWord =
    | Untracked
    | BufferPointerTag
    | BufferSizeTag
    | EndTag
    | NullPointer
    | BufferAddress(byteOffset: nat)
    | SizeWord(value: nat)

  /**
    Builds the launch-parameter buffer for arguments of the given types.
    With no arguments: six slots, the byte count 0 in slot 0, and the launch
    words after it, the size pointer addressing slot 0. Otherwise: the
    launch words in slots 0 to 4, the packed byte count in the slot at the
    size offset, and each argument copied at the argument offset plus its
    placement; the size pass and the copy pass agree, so the last argument
    ends exactly at the declared byte count.
   */
  method MakeKernelArgBuffer(args: seq<ArgType>) returns (argBuffer: array<LaunchWord>, argOffsets: seq<nat>)
    requires ValidArgs(args)
    ensures fresh(argBuffer)
    ensures |argOffsets| == |args|
    ensures args == [] ==>
      && argBuffer.Length == 6
      && argBuffer[0] == SizeWord(0) && argBuffer[1] == BufferPointerTag && argBuffer[2] == NullPointer
      && argBuffer[3] == BufferSizeTag && argBuffer[4] == BufferAddress(0) && argBuffer[5] == EndTag
    ensures args != [] ==>
      && argBuffer.Length == NumSlots(args)
      && argBuffer.Length > LaunchWords
      && argBuffer[0] == BufferPointerTag && argBuffer[1] == BufferAddress(ArgPtrOffset(args))
      && argBuffer[2] == BufferSizeTag && argBuffer[3] == BufferAddress(ArgSizePtrOffset())
      && argBuffer[4] == EndTag && argBuffer[LaunchWords] == SizeWord(PackedEnd(args, |args|))
      && (forall i :: 0 <= i < |args| ==> argOffsets[i] == ArgPtrOffset(args) + Placement(args, i))
      && argOffsets[|args| - 1] + args[|args| - 1].size == ArgPtrOffset(args) + PackedEnd(args, |args|)
  {
    if |args| == 0 {
      argBuffer := new LaunchWord[6](_ => Untracked);
      argBuffer[0] := SizeWord(0);
      argBuffer[1] := BufferPointerTag;
      argBuffer[2] := NullPointer;
      argBuffer[3] := BufferSizeTag;
      argBuffer[4] := BufferAddress(0);
      argBuffer[5] := EndTag;
      argOffsets := [];
      return;
    }

    var numArgBytes := SizeArgs(args);

    var arg0Alignment := args[0].alignment;

    var totalBufSize := PointerSize * LaunchWords;
    var argSizePtrOffset := RoundUp(totalBufSize, SizeTAlignment);
    totalBufSize := argSizePtrOffset + SizeTSize;
    var argPtrOffset := RoundUp(totalBufSize, arg0Alignment);
    totalBufSize := argPtrOffset + numArgBytes;

    HeaderLayout(args);
    assert argSizePtrOffset == ArgSizePtrOffset() == LaunchWords * PointerSize;
    assert argPtrOffset == ArgPtrOffset(args);
    assert totalBufSize == TotalBufSize(args);
    BufferHoldsArguments(args);
    argBuffer := new LaunchWord[DivideRoundUp(totalBufSize, PointerSize)](_ => Untracked);
    assert argSizePtrOffset / PointerSize == LaunchWords;
    argBuffer[argSizePtrOffset / PointerSize] := SizeWord(numArgBytes);

    var curArgOffset;
    argOffsets, curArgOffset := CopyArgs(args, argPtrOffset);

    argBuffer[0] := BufferPointerTag;
    argBuffer[1] := BufferAddress(argPtrOffset);
    argBuffer[2] := BufferSizeTag;
    argBuffer[3] := BufferAddress(argSizePtrOffset);
    argBuffer[4] := EndTag;
    assert Placement(args, |args| - 1) + args[|args| - 1].size == PackedEnd(args, |args|);
  }

  /** The size pass: packs every argument in turn and returns the packed byte count. */
  method SizeArgs(args: seq<ArgType>) returns (numArgBytes: nat)
    requires ValidArgs(args)
    ensures numArgBytes == PackedEnd(args, |args|)
  {
    numArgBytes := 0;
    var i := 0;
    while i < |args|
      invariant 0 <= i <= |args|
      invariant numArgBytes == PackedEnd(args, i)
    {
      numArgBytes := RoundUp(numArgBytes, args[i].alignment);
      numArgBytes := numArgBytes + args[i].size;
      i := i + 1;
    }
  }

  /**
    The copy pass: places every argument in turn, recording the buffer
    offset it is copied to, and returns the final running offset, which is
    the packed byte count of the size pass.
   */
  method CopyArgs(args: seq<ArgType>, argStart: nat) returns (argOffsets: seq<nat>, curArgOffset: nat)
    requires ValidArgs(args)
    ensures |argOffsets| == |args|
    ensures forall k :: 0 <= k < |args| ==> argOffsets[k] == argStart + Placement(args, k)
    ensures curArgOffset == PackedEnd(args, |args|)
  {
    curArgOffset := 0;
    argOffsets := [];
    var i := 0;
    while i < |args|
      invariant 0 <= i <= |args|
      invariant curArgOffset == PackedEnd(args, i)
      invariant |argOffsets| == i
      invariant forall k :: 0 <= k < i ==> argOffsets[k] == argStart + Placement(args, k)
    {
      curArgOffset := RoundUp(curArgOffset, args[i].alignment);
      argOffsets := argOffsets + [argStart + curArgOffset];
      curArgOffset := curArgOffset + args[i].size;
      i := i + 1;
    }
  }

  /**
    The fixed part of the layout: the byte count sits in slot 5, right after
    the launch words; the argument region starts after it, aligned for the
    first argument and no more than one alignment step later.
   */
  lemma HeaderLayout(args: seq<ArgType>)
    requires ValidArgs(args) && |args| > 0
    ensures ArgSizePtrOffset() == LaunchWords * PointerSize
    ensures ArgSizePtrOffset() % PointerSize == 0
    ensures ArgSizePtrOffset() + SizeTSize <= ArgPtrOffset(args)
    ensures ArgPtrOffset(args) < ArgSizePtrOffset() + SizeTSize + args[0].alignment
    ensures ArgPtrOffset(args) % args[0].alignment == 0
  {
    assert (LaunchWords * PointerSize) % SizeTAlignment == 0;
  }

  /** The running offset never decreases. */
  lemma {:induction false} PackedEndMonotone(args: seq<ArgType>, m: nat, n: nat)
    requires ValidArgs(args) && m <= n <= |args|
    ensures PackedEnd(args, m) <= PackedEnd(args, n)
    decreases n - m
  {
    if m < n {
      PackedEndMonotone(args, m, n - 1);
    }
  }

  /** Each argument starts at an offset aligned for its type, after the arguments before it. */
  lemma PlacementAligned(args: seq<ArgType>, i: nat)
    requires ValidArgs(args) && i < |args|
    ensures Placement(args, i) % args[i].alignment == 0
    ensures PackedEnd(args, i) <= Placement(args, i) < PackedEnd(args, i) + args[i].alignment
  {
  }

  /** Arguments do not overlap: each one ends before any later one starts. */
  lemma PlacementsDisjoint(args: seq<ArgType>, i: nat, j: nat)
    requires ValidArgs(args) && i < j < |args|
    ensures Placement(args, i) + args[i].size <= Placement(args, j)
  {
    PackedEndMonotone(args, i + 1, j);
  }

  /** Every argument lies inside the packed region, whose end is the declared byte count. */
  lemma PlacementWithinPacked(args: seq<ArgType>, i: nat)
    requires ValidArgs(args) && i < |args|
    ensures Placement(args, i) + args[i].size <= PackedEnd(args, |args|)
  {
    PackedEndMonotone(args, i + 1, |args|);
  }

  /**
    The buffer holds the whole layout: its slots cover every byte up to the
    end of the argument region (and less than one slot more), and the byte
    count, the launch words and the arguments occupy disjoint ranges.
   */
  lemma BufferHoldsArguments(args: seq<ArgType>)
    requires ValidArgs(args) && |args| > 0
    ensures ArgPtrOffset(args) + PackedEnd(args, |args|) <= NumSlots(args) * PointerSize
    ensures NumSlots(args) * PointerSize < ArgPtrOffset(args) + PackedEnd(args, |args|) + PointerSize
    ensures LaunchWords * PointerSize <= ArgSizePtrOffset()
    ensures ArgSizePtrOffset() + SizeTSize <= ArgPtrOffset(args)
    ensures NumSlots(args) > LaunchWords
  {
    HeaderLayout(args);
  }

  /** Arguments that need no padding are packed with no gaps: the byte count is the sum of the sizes. */
  lemma {:induction false} UnpaddedPacking(args: seq<ArgType>, n: nat)
    requires ValidArgs(args) && n <= |args|
    requires forall i :: 0 <= i < |args| ==> args[i].alignment == 1
    ensures PackedEnd(args, n) == SumSizes(args, n)
  {
    if n > 0 {
      UnpaddedPacking(args, n - 1);
    }
  }

  /** The sum of the first `n` argument sizes. */
  function SumSizes(args: seq<ArgType>, n: nat): nat
    requires n <= |args|
  {
    if n == 0 then 0 else SumSizes(args, n - 1) + args[n - 1].size
  }

  /** Padding never shrinks the packing: the byte count is at least the sum of the sizes. */
  lemma {:induction false} PackedAtLeastSizes(args: seq<ArgType>, n: nat)
    requires ValidArgs(args) && n <= |args|
    ensures SumSizes(args, n) <= PackedEnd(args, n)
  {
    if n > 0 {
      PackedAtLeastSizes(args, n - 1);
    }
  }

  /**
    A 4-byte count followed by an 8-byte pointer: the count at 0, the
    pointer padded to 8, sixteen bytes in all, the arguments from byte 48,
    and eight slots.
   */
  lemma CountAndPointerExample()
    ensures PackedEnd([ArgType(4, 4), ArgType(8, 8)], 2) == 16
    ensures Placement([ArgType(4, 4), ArgType(8, 8)], 1) == 8
    ensures ArgPtrOffset([ArgType(4, 4), ArgType(8, 8)]) == 48
    ensures NumSlots([ArgType(4, 4), ArgType(8, 8)]) == 8
  {
    var args := [ArgType(4, 4), ArgType(8, 8)];
    assert PackedEnd(args, 1) == 4;
  }
}
