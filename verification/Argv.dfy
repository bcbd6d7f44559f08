/** Moving an argument vector into the kernel and out to a new stack (exec.c). */
module Argv {
  import opened Chains
  import opened CopyInOut
  import Words
  import Blocks

  const ARG_MAX: nat := 65536

  /** The strings one after another, each with its terminator. */
  function Flat(args: seq<seq<Byte>>): seq<Byte> {
    if args == [] then [] else Flat(args[..|args| - 1]) + args[|args| - 1] + [0]
  }

  /** Where the k-th string starts. */
  function Offset(args: seq<seq<Byte>>, k: nat): nat
    requires k <= |args|
  {
    |Flat(args[..k])|
  }

  lemma OffsetNext(args: seq<seq<Byte>>, k: nat)
    requires k < |args|
    ensures Flat(args[..k + 1]) == Flat(args[..k]) + (args[k] + [0])
    ensures Offset(args, k + 1) == Offset(args, k) + |args[k]| + 1
  {
    assert args[..k + 1][..k] == args[..k];
    assert Flat(args[..k]) + args[k] + [0] == Flat(args[..k]) + (args[k] + [0]);
  }

  lemma {:induction false} FlatPrefix(args: seq<seq<Byte>>, k: nat)
    requires k <= |args|
    ensures Flat(args[..k]) <= Flat(args) && Offset(args, k) <= |Flat(args)| - (|args| - k)
    decreases |args| - k
  {
    if k == |args| {
      assert args[..k] == args;
    } else {
      FlatPrefix(args, k + 1);
      OffsetNext(args, k);
    }
  }

  /** The k-th string and its terminator, inside the whole. */
  lemma FlatPiece(args: seq<seq<Byte>>, k: nat)
    requires k < |args|
    ensures Offset(args, k) + |args[k]| + 1 <= |Flat(args)|
    ensures Flat(args)[Offset(args, k)..Offset(args, k) + |args[k]| + 1] == args[k] + [0]
  {
    OffsetNext(args, k);
    FlatPrefix(args, k + 1);
  }

  /** The same, in a buffer that starts with the whole. */
  lemma BufferPiece(all: seq<Byte>, len: nat, args: seq<seq<Byte>>, k: nat)
    requires k < |args| && len <= |all| && all[..len] == Flat(args)
    ensures Offset(args, k) + |args[k]| + 1 <= len
    ensures all[Offset(args, k)..Offset(args, k) + |args[k]| + 1] == args[k] + [0]
  {
    var lo, hi := Offset(args, k), Offset(args, k) + |args[k]| + 1;
    FlatPiece(args, k);
    assert all[..len][lo..hi] == all[lo..hi];
  }

  /** From there on the buffer starts with the k-th string. */
  lemma BufferRest(all: seq<Byte>, len: nat, args: seq<seq<Byte>>, k: nat, rest: seq<Byte>)
    requires k < |args| && len <= |all| && all[..len] == Flat(args) && 0 !in args[k]
    requires Offset(args, k) <= len && rest == all[Offset(args, k)..len]
    ensures |args[k]| < |rest| && TextLength(rest) == |args[k]| && rest[..|args[k]| + 1] == args[k] + [0]
  {
    BufferPiece(all, len, args, k);
    assert rest[..|args[k]| + 1] == all[Offset(args, k)..Offset(args, k) + |args[k]| + 1];
    TextLengthIs(rest, args[k]);
  }

  // ------------------------------------------------------------------------
  // Argument vectors in user memory
  // ------------------------------------------------------------------------

  /** At a lies a null-terminated array of pointers to the given strings. */
  ghost predicate ArgvAt(mem: Memory, a: nat, ptrs: seq<nat>, args: seq<seq<Byte>>) {
    && |ptrs| == |args|
    && (forall k :: 0 <= k < |args| ==> PointerAt(mem, a + 4 * k, ptrs[k]) && ptrs[k] != 0)
    && (forall k :: 0 <= k < |args| ==> StringAt(mem, ptrs[k], args[k]))
    && PointerAt(mem, a + 4 * |args|, 0)
  }

  /** Memory determines the vector it holds. */
  lemma ArgvUnique(mem: Memory, a: nat, ptrs: seq<nat>, args: seq<seq<Byte>>, ptrs': seq<nat>, args': seq<seq<Byte>>)
    requires ArgvAt(mem, a, ptrs, args) && ArgvAt(mem, a, ptrs', args')
    ensures args == args' && ptrs == ptrs'
  {
    if |args| < |args'| {
      PointerUnique(mem, a + 4 * |args|, 0, ptrs'[|args|]);
    } else if |args'| < |args| {
      PointerUnique(mem, a + 4 * |args'|, 0, ptrs[|args'|]);
    }
    forall k | 0 <= k < |args| ensures ptrs[k] == ptrs'[k] && args[k] == args'[k] {
      PointerUnique(mem, a + 4 * k, ptrs[k], ptrs'[k]);
      StringUnique(mem, ptrs[k], args[k], args'[k]);
    }
  }

  // ------------------------------------------------------------------------
  // The buffer
  // ------------------------------------------------------------------------

  class ArgBuf {
    const data: array<Byte>
    var len: nat
    var nargs: nat
    ghost var args: seq<seq<Byte>>

    ghost predicate Valid()
      reads this, data
    {
      && len <= data.Length <= ARG_MAX
      && nargs == |args| && data[..len] == Flat(args)
      && (forall k :: 0 <= k < |args| ==> 0 !in args[k])
    }

    /** argbuf_allocate. */
    constructor (size: nat)
      requires size <= ARG_MAX
      ensures Valid() && fresh(data) && data.Length == size && args == [] && len == 0
    {
      data := new Byte[size](_ => 0);
      len, nargs, args := 0, 0, [];
    }

    /**
     * argbuf_copyin, for whatever lies in user memory: the buffer takes the strings one
     * by one until the null pointer, or until one of them cannot be taken.
     */
    method CopyIn(mem: Memory, uargv: nat) returns (err: Option<Errno>, ghost slots: seq<Slot>)
      requires Valid() && args == [] && len == 0 && uargv < WRAP
      modifies this, data
      ensures Valid() && SlotsAt(mem, uargv, slots) && Stopped(slots, data.Length, args, err)
    {
      err := None;
      slots := [];
      var finished, at := false, uargv;
      while !finished && err == None
        invariant Valid() && at == uargv + 4 * nargs && SlotsAt(mem, uargv, slots) && |slots| >= |args|
        invariant !finished && err == None ==> at < WRAP && Taken(slots, args)
        invariant finished || err != None ==> Stopped(slots, data.Length, args, err)
        decreases !finished && err == None, data.Length - len
      {
        ghost var was := args;
        ghost var slot;
        err, finished, slot := CopyInOne(mem, at);
        SlotsMore(mem, uargv, slots, slot);
        slots := slots + [slot];
        if err == None && !finished {
          at := at + 4;
        }
      }
    }

    /** One turn of its loop: the pointer at the given place and, unless that is null, its string. */
    method CopyInOne(mem: Memory, at: nat) returns (err: Option<Errno>, finished: bool, ghost slot: Slot)
      requires Valid() && at < WRAP
      modifies this, data
      ensures Valid() && SlotAt(mem, at, slot) && err == SlotError(slot, data.Length - old(len))
      ensures finished <==> slot == Null
      ensures err != None || finished ==> args == old(args) && len == old(len)
      ensures err == None && !finished ==> slot.Str? && args == old(args) + [slot.s] && len > old(len)
      ensures err == None ==> at + 4 <= USERSPACETOP
    {
      var thisarg := CopyInPointer(mem, at);
      if thisarg == None {
        return Some(EFAULT), false, Unreadable;
      }
      if thisarg.value == 0 {
        return None, true, Null;
      }
      err, slot := Append(mem, thisarg.value);
      finished := false;
    }

    /** One string, after those already in the buffer. */
    method Append(mem: Memory, src: nat) returns (err: Option<Errno>, ghost slot: Slot)
      requires Valid() && 0 < src < WRAP
      modifies this, data
      ensures Valid() && StringSlot(mem, src, slot) && err == SlotError(slot, data.Length - old(len))
      ensures err != None ==> args == old(args) && len == old(len)
      ensures err == None ==> slot.Str? && args == old(args) + [slot.s] && len > old(len)
    {
      slot := SomeSlot(mem, src);
      ghost var kept := data[..len];
      var result, thisarglen, s := CopyInStr(mem, src, data, len, data.Length - len);
      assert data[..len] == kept;
      FetchSlot(mem, src, slot, data.Length - len);
      if result != None {
        return if result == Some(ENAMETOOLONG) then Some(E2BIG) else result, slot;
      }
      StringUnique(mem, src, s, slot.s);
      Extend(thisarglen, s);
      return None, slot;
    }

    /** The string just fetched becomes the last argument. */
    method Extend(thisarglen: nat, ghost s: seq<Byte>)
      requires Valid() && thisarglen == |s| + 1 <= data.Length - len && data[len..len + thisarglen] == s + [0]
          && 0 !in s
      modifies this
      ensures Valid() && args == old(args) + [s] && len == old(len) + |s| + 1
    {
      assert data[..len + thisarglen] == data[..len] + data[len..len + thisarglen];
      FlatSnoc(args, s);
      len, nargs, args := len + thisarglen, nargs + 1, args + [s];
    }

    /** Writes the next pointer. */
    method PutPointer(space: UserSpace, ghost base: nat, ghost strings: nat,
                      ghost was: Memory, ghost ptrs: seq<seq<Byte>>, target: nat, uargv: nat)
      returns (err: Option<Errno>, ghost b: seq<Byte>)
      requires |ptrs| < |args| && target == strings + Offset(args, |ptrs|) < WRAP && uargv == base + 4 * |ptrs| < WRAP
      requires Layout(base, strings, args) && Partway(was, space.mem, base, strings, args, ptrs)
      modifies space
      ensures err == None <==> Fits(was, uargv, 4)
      ensures err == None ==> Halfway(was, space.mem, base, strings, args, ptrs, b)
    {
      err, b := space.CopyOutPointer(target, uargv);
      if err == None {
        assert Laid(was, old(space.mem), base, ptrs + [b], |ptrs|, strings, args, |ptrs|);
        LaidPointer(was, old(space.mem), base, ptrs + [b], strings, args, |ptrs|);
      }
    }

    /** copyoutstr of the k-th string, with the rest of the buffer as its limit. */
    method SendString(space: UserSpace, strings: nat, pos: nat, ghost k: nat)
      returns (err: Option<Errno>, thisarglen: nat)
      requires Valid() && k < |args| && pos == Offset(args, k) && strings + len < WRAP
      modifies space
      ensures err == None <==> Fits(old(space.mem), strings + pos, |args[k]| + 1)
      ensures err == None ==> thisarglen == |args[k]| + 1
      ensures err == None ==> space.mem == Write(old(space.mem), strings + pos, args[k] + [0])
    {
      BufferPiece(data[..], len, args, k);
      ghost var rest := data[pos..pos + (len - pos)];
      assert rest == data[..][pos..len];
      BufferRest(data[..], len, args, k, rest);
      err, thisarglen := space.CopyOutStr(data, pos, strings + pos, len - pos);
    }

    /** Writes the string it points to. */
    method PutString(space: UserSpace, ghost base: nat, strings: nat, pos: nat,
                     ghost was: Memory, ghost ptrs: seq<seq<Byte>>, ghost b: seq<Byte>)
      returns (err: Option<Errno>, thisarglen: nat)
      requires Valid() && |ptrs| < |args| && pos == Offset(args, |ptrs|) && strings + len < WRAP
      requires Layout(base, strings, args) && Halfway(was, space.mem, base, strings, args, ptrs, b)
      modifies space
      ensures err == None <==> Fits(was, strings + pos, |args[|ptrs|]| + 1)
      ensures err == None ==> thisarglen == |args[|ptrs|]| + 1 && pos + thisarglen == Offset(args, |ptrs| + 1)
      ensures err == None ==> Partway(was, space.mem, base, strings, args, ptrs + [b])
    {
      OffsetNext(args, |ptrs|);
      err, thisarglen := SendString(space, strings, pos, |ptrs|);
      if err == None {
        PartwayNext(was, old(space.mem), base, strings, args, ptrs, b);
      }
    }

    /**
     * The loop of argbuf_copyout and the null after it, at addresses computed
     * without wrapping, or else too high for user space.
     */
    method LayOut(space: UserSpace, base: nat, strings: nat) returns (err: Option<Errno>)
      requires Valid() && base < WRAP && strings < WRAP
      requires base >= USERSPACETOP || (Layout(base, strings, args) && strings + len < WRAP)
      modifies space
      ensures err == None <==> base < USERSPACETOP && Fits(old(space.mem), base, strings + len - base)
      ensures err == None ==> Copied(old(space.mem), space.mem, base, strings, args)
    {
      if base >= USERSPACETOP {
        // The first copyout, of a pointer or of the null, is refused.
        ghost var b;
        err, b := space.CopyOutPointer(if len > 0 then strings else 0, base);
        return;
      }
      ghost var was := space.mem;
      ghost var ptrs: seq<seq<Byte>> := [];
      var pos, uargv := 0, base;
      while pos < len
        invariant |ptrs| <= |args| && pos == Offset(args, |ptrs|) && uargv == base + 4 * |ptrs|
        invariant Partway(was, space.mem, base, strings, args, ptrs)
        decreases len - pos
      {
        OffsetEnd(args, |ptrs|);
        var thisarglen;
        err, thisarglen, ptrs := LayOutOne(space, base, strings, pos, uargv, was, ptrs);
        if err != None {
          return;
        }
        pos, uargv := pos + thisarglen, uargv + 4;
      }
      OffsetEnd(args, |ptrs|);
      assert pos == len && |ptrs| == |args|;
      err := PutNull(space, base, strings, was, ptrs, uargv);
    }

    /** One turn of the loop. */
    method LayOutOne(space: UserSpace, ghost base: nat, strings: nat, pos: nat, uargv: nat,
                     ghost was: Memory, ghost ptrs: seq<seq<Byte>>)
      returns (err: Option<Errno>, thisarglen: nat, ghost ptrs': seq<seq<Byte>>)
      requires Valid() && |ptrs| < |args| && pos == Offset(args, |ptrs|) && uargv == base + 4 * |ptrs|
      requires Layout(base, strings, args) && strings + len < WRAP && Partway(was, space.mem, base, strings, args, ptrs)
      modifies space
      ensures err == None ==> |ptrs'| == |ptrs| + 1 && Partway(was, space.mem, base, strings, args, ptrs')
      ensures err == None ==> thisarglen == |args[|ptrs|]| + 1 && pos + thisarglen == Offset(args, |ptrs'|)
      ensures err != None ==> !Fits(was, base, strings + len - base)
    {
      OffsetEnd(args, |ptrs|);
      PartsFit(was, base, strings, args, |ptrs|);
      thisarglen, ptrs' := 0, ptrs;
      ghost var b;
      err, b := PutPointer(space, base, strings, was, ptrs, strings + pos, uargv);
      if err == None {
        ptrs' := ptrs + [b];
        err, thisarglen := PutString(space, base, strings, pos, was, ptrs, b);
      }
    }

    /** Writes the null after the last pointer. */
    method PutNull(space: UserSpace, base: nat, strings: nat, ghost was: Memory, ghost ptrs: seq<seq<Byte>>, uargv: nat)
      returns (err: Option<Errno>)
      requires Valid() && |ptrs| == |args| && uargv == base + 4 * |args| < WRAP
      requires Layout(base, strings, args) && Partway(was, space.mem, base, strings, args, ptrs)
      modifies space
      ensures err == None <==> Fits(was, base, strings + len - base)
      ensures err == None ==> Copied(was, space.mem, base, strings, args)
    {
      OffsetEnd(args, |args|);
      ghost var b;
      err, b := space.CopyOutPointer(0, uargv);
      if err == None {
        LaidNull(was, old(space.mem), base, ptrs, strings, args, b);
        CopiedFrom(was, space.mem, base, ptrs, strings, args, b);
      }
    }

    /**
     * argbuf_copyout: the strings go below the old stack pointer, then the pointers
     * below them, and the new stack pointer is the address of the pointers.
     */
    method CopyOut(space: UserSpace, stack: nat) returns (err: Option<Errno>, newStack: nat, argc: nat, uargv: nat)
      requires Valid() && stack < WRAP
      modifies space
      ensures err == None <==>
                && Reserved(stack, args)
                && Fits(old(space.mem), Base(stack, args), Top(stack, args) - Base(stack, args))
      ensures err == None ==> newStack == uargv == Base(stack, args) && argc == |args|
      ensures err == None ==> Copied(old(space.mem), space.mem, uargv, Strings(stack, args), args)
    {
      var strings, ustack := StackSpace(stack, len, nargs, args);
      newStack, argc, uargv := stack, 0, 0;
      err := LayOut(space, ustack, strings);
      if err == None {
        newStack, argc, uargv := ustack, nargs, ustack;
      }
    }
  }

  // ------------------------------------------------------------------------
  // When a vector is taken
  // ------------------------------------------------------------------------

  datatype Vector = Vector(ptrs: seq<nat>, args: seq<seq<Byte>>)

  /** A vector at a whose pointers and strings all lie below the top of user space. */
  ghost predicate Readable(mem: Memory, a: nat, v: Vector) {
    && ArgvAt(mem, a, v.ptrs, v.args) && a + 4 * |v.args| + 4 <= USERSPACETOP
    && (forall k :: 0 <= k < |v.args| ==> v.ptrs[k] + |v.args[k]| < USERSPACETOP)
  }

  /** A string that ends below the top of user space. */
  ghost predicate StringInUser(mem: Memory, a: nat, s: seq<Byte>) {
    StringAt(mem, a, s) && a + |s| < USERSPACETOP
  }

  /** What becomes of one string when len bytes of max are taken. */
  function Refusal(len: nat, s: seq<Byte>, max: nat): Option<Errno> {
    if len + |s| + 1 <= max then None else if len == max then Some(EFAULT) else Some(E2BIG)
  }

  /** The first refusal of a vector, if any, when every string is appended in turn. */
  function VerdictFrom(args: seq<seq<Byte>>, k: nat, max: nat): Option<Errno>
    requires k <= |args|
    decreases |args| - k
  {
    if k == |args| then None
    else if Refusal(Offset(args, k), args[k], max) != None then Refusal(Offset(args, k), args[k], max)
    else VerdictFrom(args, k + 1, max)
  }

  function Verdict(args: seq<seq<Byte>>, max: nat): Option<Errno> {
    VerdictFrom(args, 0, max)
  }

  /** The strings fit, or one of them starts exactly at the end of the buffer, or neither. */
  lemma {:induction false} VerdictFromIs(args: seq<seq<Byte>>, k: nat, max: nat)
    requires k <= |args| && Offset(args, k) <= max
    ensures VerdictFrom(args, k, max) == None <==> |Flat(args)| <= max
    ensures VerdictFrom(args, k, max) == Some(EFAULT) <==> exists j :: k <= j < |args| && Offset(args, j) == max
    decreases |args| - k
  {
    FlatPrefix(args, k);
    if k == |args| {
      assert args[..k] == args;
    } else {
      OffsetNext(args, k);
      FlatPrefix(args, k + 1);
      if Refusal(Offset(args, k), args[k], max) == None {
        VerdictFromIs(args, k + 1, max);
      } else {
        forall j | k < j < |args| ensures Offset(args, j) > max {
          OffsetMonotone(args, k + 1, j);
        }
      }
    }
  }

  lemma {:induction false} OffsetMonotone(args: seq<seq<Byte>>, j: nat, k: nat)
    requires j <= k <= |args|
    ensures Offset(args, j) <= Offset(args, k)
    decreases k - j
  {
    if j < k {
      OffsetNext(args, j);
      OffsetMonotone(args, j + 1, k);
    }
  }

  lemma VerdictIs(args: seq<seq<Byte>>, max: nat)
    ensures Verdict(args, max) == None <==> |Flat(args)| <= max
    ensures Verdict(args, max) == Some(EFAULT) <==> exists j :: 0 <= j < |args| && Offset(args, j) == max
    ensures Verdict(args, max) in {None, Some(EFAULT), Some(E2BIG)}
  {
    VerdictFromIs(args, 0, max);
    VerdictCodes(args, 0, max);
  }

  lemma {:induction false} VerdictCodes(args: seq<seq<Byte>>, k: nat, max: nat)
    requires k <= |args|
    ensures VerdictFrom(args, k, max) in {None, Some(EFAULT), Some(E2BIG)}
    decreases |args| - k
  {
    if k < |args| {
      VerdictCodes(args, k + 1, max);
    }
  }

  // ------------------------------------------------------------------------
  // Reading a vector slot by slot
  // ------------------------------------------------------------------------

  /**
   * What one slot of a vector comes to: a pointer that cannot be read, the null, a
   * string in user space, or that many bytes without the end of a string.
   */
  datatype Slot = Unreadable | Null | Str(s: seq<Byte>) | Runaway(run: nat)

  /** What the pointer src points to. */
  ghost predicate StringSlot(mem: Memory, src: nat, slot: Slot) {
    match slot
    case Str(s) => StringInUser(mem, src, s)
    case Runaway(n) => n == RunLength(mem, src) && forall s :: !StringInUser(mem, src, s)
    case _ => false
  }

  ghost predicate PointerInUser(mem: Memory, at: nat) {
    at + 4 <= USERSPACETOP && Mapped(mem, at, 4)
  }

  ghost predicate SlotAt(mem: Memory, at: nat, slot: Slot) {
    if !PointerInUser(mem, at) then slot == Unreadable
    else if Word(mem, at) == 0 then slot == Null
    else StringSlot(mem, Word(mem, at), slot)
  }

  ghost function SomeSlot(mem: Memory, src: nat): (slot: Slot)
    ensures StringSlot(mem, src, slot)
  {
    if s :| StringInUser(mem, src, s) then Str(s) else Runaway(RunLength(mem, src))
  }

  /** Memory determines what a slot comes to. */
  lemma SlotUnique(mem: Memory, at: nat, slot: Slot, slot': Slot)
    requires SlotAt(mem, at, slot) && SlotAt(mem, at, slot')
    ensures slot == slot'
  {
    if slot.Str? && slot'.Str? {
      StringUnique(mem, Word(mem, at), slot.s, slot'.s);
    }
  }

  /** What becomes of a slot when room bytes are left. */
  function SlotError(slot: Slot, room: nat): Option<Errno> {
    match slot
    case Unreadable => Some(EFAULT)
    case Null => None
    case Str(s) => if |s| < room then None else if room == 0 then Some(EFAULT) else Some(E2BIG)
    case Runaway(n) => if 0 < room <= n then Some(E2BIG) else Some(EFAULT)
  }

  /** That is what copyinstr makes of it. */
  lemma FetchSlot(mem: Memory, src: nat, slot: Slot, room: nat)
    requires StringSlot(mem, src, slot) && src != 0 && room <= ARG_MAX
    ensures SlotError(slot, room) ==
              if StringError(mem, src, room) == Some(ENAMETOOLONG) then Some(E2BIG) else StringError(mem, src, room)
  {
    match slot {
      case Str(s) => FetchString(mem, src, s, room);
      case Runaway(n) => FetchRunaway(mem, src, room);
    }
  }

  lemma FetchString(mem: Memory, src: nat, s: seq<Byte>, room: nat)
    requires StringInUser(mem, src, s) && src != 0 && room <= ARG_MAX
    ensures StringError(mem, src, room) ==
              if |s| < room then None else if room == 0 then Some(EFAULT) else Some(ENAMETOOLONG)
  {
    HoldsAll(mem, src, s + [0]);
    if |s| < room {
      assert |s| < Words.Min(room, USERSPACETOP - src);
    } else {
      forall t | StringAt(mem, src, t) ensures |t| >= room {
        StringUnique(mem, src, s, t);
      }
      forall x | src <= x < src + room ensures x in mem && mem[x] != 0 {
        assert mem[x] == (s + [0])[x - src] == s[x - src];
      }
    }
  }

  lemma FetchRunaway(mem: Memory, src: nat, room: nat)
    requires src != 0 && room <= ARG_MAX && forall s :: !StringInUser(mem, src, s)
    ensures StringError(mem, src, room) ==
              Some(if 0 < room <= RunLength(mem, src) then ENAMETOOLONG else EFAULT)
  {
    RunIs(mem, src);
    var n := RunLength(mem, src);
    forall t | StringAt(mem, src, t) ensures src + |t| >= USERSPACETOP {
      assert !StringInUser(mem, src, t);
    }
    if n < room && src + room <= USERSPACETOP {
      if src + n in mem {
        NoString(mem, src, n);
      }
    }
  }

  /** A run that a zero ends is a string. */
  lemma NoString(mem: Memory, src: nat, n: nat)
    requires forall x :: src <= x < src + n ==> x in mem && mem[x] != 0
    requires src + n in mem && src + n < USERSPACETOP && forall s :: !StringInUser(mem, src, s)
    ensures mem[src + n] != 0
  {
    if mem[src + n] == 0 {
      var s: seq<Byte> := seq(n, i requires 0 <= i < n => mem[src + i]);
      AllHolds(mem, src, s + [0]);
      assert StringInUser(mem, src, s);
    }
  }

  ghost predicate SlotsAt(mem: Memory, a: nat, slots: seq<Slot>) {
    forall k :: 0 <= k < |slots| ==> SlotAt(mem, a + 4 * k, slots[k])
  }

  lemma SlotsMore(mem: Memory, a: nat, slots: seq<Slot>, slot: Slot)
    requires SlotsAt(mem, a, slots) && SlotAt(mem, a + 4 * |slots|, slot)
    ensures SlotsAt(mem, a, slots + [slot])
  {
  }

  /** The slots are the given strings. */
  ghost predicate Taken(slots: seq<Slot>, args: seq<seq<Byte>>) {
    |slots| == |args| && forall k :: 0 <= k < |args| ==> slots[k] == Str(args[k])
  }

  lemma TakenIsString(slots: seq<Slot>, args: seq<seq<Byte>>, k: nat)
    requires Taken(slots, args) && k < |args|
    ensures slots[k].Str?
  {
  }

  /** All slots but the last were taken into a buffer of max bytes, and that one ends the reading. */
  ghost predicate Stopped(slots: seq<Slot>, max: nat, args: seq<seq<Byte>>, err: Option<Errno>) {
    && |slots| == |args| + 1 && Taken(slots[..|args|], args) && |Flat(args)| <= max
    && err == SlotError(slots[|args|], max - |Flat(args)|) && (err == None ==> slots[|args|] == Null)
  }

  /** Memory determines what is read and how it ends. */
  lemma StoppedUnique(mem: Memory, a: nat, max: nat, slots: seq<Slot>, args: seq<seq<Byte>>, err: Option<Errno>,
                      slots': seq<Slot>, args': seq<seq<Byte>>, err': Option<Errno>)
    requires SlotsAt(mem, a, slots) && Stopped(slots, max, args, err)
    requires SlotsAt(mem, a, slots') && Stopped(slots', max, args', err')
    ensures slots == slots' && args == args' && err == err'
  {
    forall k | 0 <= k < |slots| && k < |slots'| ensures slots[k] == slots'[k] {
      SlotUnique(mem, a + 4 * k, slots[k], slots'[k]);
    }
    if |slots| <= |slots'| {
      SameStop(max, slots, args, err, slots', args', err');
    } else {
      SameStop(max, slots', args', err', slots, args, err);
    }
  }

  lemma SameStop(max: nat, slots: seq<Slot>, args: seq<seq<Byte>>, err: Option<Errno>,
                 slots': seq<Slot>, args': seq<seq<Byte>>, err': Option<Errno>)
    requires Stopped(slots, max, args, err) && Stopped(slots', max, args', err') && |slots| <= |slots'|
    requires forall k :: 0 <= k < |slots| ==> slots[k] == slots'[k]
    ensures slots == slots' && args == args' && err == err'
  {
    var n := |args|;
    forall k | 0 <= k < n ensures args[k] == args'[k] {
      assert slots[..n][k] == Str(args[k]) && slots'[..|args'|][k] == Str(args'[k]);
    }
    assert args'[..n] == args;
    if n < |args'| {
      assert slots'[..|args'|][n] == Str(args'[n]);
      NextFits(args', n, max);
    }
  }

  lemma NextFits(args: seq<seq<Byte>>, k: nat, max: nat)
    requires k < |args| && |Flat(args)| <= max
    ensures |Flat(args[..k])| + |args[k]| + 1 <= max
  {
    OffsetNext(args, k);
    FlatPrefix(args, k + 1);
  }

  /** The slots of a vector. */
  function SlotsOf(args: seq<seq<Byte>>): seq<Slot> {
    seq(|args|, i requires 0 <= i < |args| => Str(args[i])) + [Null]
  }

  lemma ReadableSlots(mem: Memory, a: nat, v: Vector)
    requires Readable(mem, a, v)
    ensures SlotsAt(mem, a, SlotsOf(v.args))
  {
    forall k | 0 <= k <= |v.args| ensures SlotAt(mem, a + 4 * k, SlotsOf(v.args)[k]) {
      WordIs(mem, a + 4 * k, if k < |v.args| then v.ptrs[k] else 0);
    }
  }

  /** A vector that lies wholly in user space is taken, or refused, as its strings decide. */
  lemma StoppedVerdict(mem: Memory, a: nat, max: nat, slots: seq<Slot>, args: seq<seq<Byte>>, err: Option<Errno>,
                       v: Vector)
    requires SlotsAt(mem, a, slots) && Stopped(slots, max, args, err) && Readable(mem, a, v)
    ensures err == Verdict(v.args, max)
  {
    ReadableSlots(mem, a, v);
    forall k | 0 <= k < |slots| && k <= |v.args| ensures slots[k] == SlotsOf(v.args)[k] {
      SlotUnique(mem, a + 4 * k, slots[k], SlotsOf(v.args)[k]);
    }
    VerdictOfStop(max, slots, args, err, v.args);
  }

  lemma VerdictOfStop(max: nat, slots: seq<Slot>, args: seq<seq<Byte>>, err: Option<Errno>, all: seq<seq<Byte>>)
    requires Stopped(slots, max, args, err)
    requires forall k :: 0 <= k < |slots| && k <= |all| ==> slots[k] == SlotsOf(all)[k]
    ensures err == Verdict(all, max)
  {
    var n := |args|;
    if n > |all| {
      TakenIsString(slots[..n], args, |all|);
    } else {
      forall k | 0 <= k < n ensures args[k] == all[k] {
        assert slots[..n][k] == Str(args[k]) && SlotsOf(all)[k] == Str(all[k]);
      }
      assert all[..n] == args;
      VerdictSkip(all, n, max);
    }
  }

  lemma {:induction false} VerdictSkip(args: seq<seq<Byte>>, k: nat, max: nat)
    requires k <= |args| && Offset(args, k) <= max
    ensures Verdict(args, max) == VerdictFrom(args, k, max)
    decreases k
  {
    if k > 0 {
      OffsetNext(args, k - 1);
      VerdictSkip(args, k - 1, max);
    }
  }

  /** What was read to its null is a vector in user space. */
  lemma StoppedReadable(mem: Memory, a: nat, max: nat, slots: seq<Slot>, args: seq<seq<Byte>>) returns (v: Vector)
    requires SlotsAt(mem, a, slots) && Stopped(slots, max, args, None)
    ensures Readable(mem, a, v) && v.args == args
  {
    var n := |args|;
    var ptrs: seq<nat> := seq(n, k requires 0 <= k => PointerValue(mem, a + 4 * k));
    v := Vector(ptrs, args);
    forall k | 0 <= k < n
      ensures PointerAt(mem, a + 4 * k, ptrs[k]) && ptrs[k] != 0 && StringInUser(mem, ptrs[k], args[k])
    {
      assert slots[..n][k] == Str(args[k]) && SlotAt(mem, a + 4 * k, slots[k]);
      WordAt(mem, a + 4 * k);
    }
    assert SlotAt(mem, a + 4 * n, slots[n]);
    WordAt(mem, a + 4 * n);
  }

  ghost function PointerValue(mem: Memory, a: nat): nat {
    if Mapped(mem, a, 4) then Word(mem, a) else 0
  }

  lemma FlatSnoc(args: seq<seq<Byte>>, s: seq<Byte>)
    ensures Flat(args + [s]) == Flat(args) + (s + [0])
  {
    assert (args + [s])[..|args|] == args;
  }

  /** What argbuf_fromuser returns: the small buffer's verdict, unless that is E2BIG, then the large one's. */
  function FromUserVerdict(args: seq<seq<Byte>>): Option<Errno> {
    if Verdict(args, Blocks.PAGE_SIZE) == Some(E2BIG) then Verdict(args, ARG_MAX) else Verdict(args, Blocks.PAGE_SIZE)
  }

  /**
   * argbuf_fromuser takes a vector exactly when its strings fit ARG_MAX and none of
   * them starts at byte PAGE_SIZE: there the small buffer is full to the byte,
   * copycheck refuses the empty remainder, and the large buffer is never tried.
   */
  lemma FromUserTakes(args: seq<seq<Byte>>)
    ensures FromUserVerdict(args) == None <==>
              |Flat(args)| <= ARG_MAX && forall j :: 0 <= j < |args| ==> Offset(args, j) != Blocks.PAGE_SIZE
  {
    VerdictIs(args, Blocks.PAGE_SIZE);
    VerdictIs(args, ARG_MAX);
    forall j | 0 <= j < |args| ensures Offset(args, j) < |Flat(args)| {
      FlatPrefix(args, j);
    }
  }

  /**
   * argbuf_fromuser, for whatever lies in user memory: a small buffer first and, only
   * if that was too small, a large one.
   */
  method FromUser(mem: Memory, uargv: nat)
    returns (err: Option<Errno>, buf: ArgBuf, ghost slots: seq<Slot>, ghost first: Option<Errno>,
             ghost small: seq<seq<Byte>>)
    requires uargv < WRAP
    ensures buf.Valid() && fresh(buf) && fresh(buf.data) && SlotsAt(mem, uargv, slots)
    ensures if first != Some(E2BIG) then err == first && Stopped(slots, Blocks.PAGE_SIZE, buf.args, err)
            else Stopped(slots, ARG_MAX, buf.args, err)
    ensures exists s :: SlotsAt(mem, uargv, s) && Stopped(s, Blocks.PAGE_SIZE, small, first)
    ensures forall v :: Readable(mem, uargv, v) ==> err == FromUserVerdict(v.args)
  {
    buf := new ArgBuf(Blocks.PAGE_SIZE);
    err, slots := buf.CopyIn(mem, uargv);
    first, small := err, buf.args;
    ghost var s := slots;
    if err == Some(E2BIG) {
      buf := new ArgBuf(ARG_MAX);
      err, slots := buf.CopyIn(mem, uargv);
    }
    forall v | Readable(mem, uargv, v) ensures err == FromUserVerdict(v.args) {
      StoppedVerdict(mem, uargv, Blocks.PAGE_SIZE, s, small, first, v);
      if first == Some(E2BIG) {
        StoppedVerdict(mem, uargv, ARG_MAX, slots, buf.args, err, v);
      }
    }
  }

  /** A page-long first argument followed by an empty one. */
  function RefusedVector(): Vector {
    Vector([32, 32 + Blocks.PAGE_SIZE], [seq(Blocks.PAGE_SIZE - 1, _ => 1), []])
  }

  /** A memory that holds it at address 16. */
  function RefusedMemory(): Memory {
    map a | 0 <= a < 32 + Blocks.PAGE_SIZE + 1 :: RefusedByte(a)
  }

  function RefusedByte(a: nat): Byte {
    if a == 19 || a == 23 then 32 else if a == 22 then 16 else if 32 <= a < 32 + Blocks.PAGE_SIZE - 1 then 1 else 0
  }

  lemma RefusedStrings()
    ensures StringAt(RefusedMemory(), 32, RefusedVector().args[0])
    ensures StringAt(RefusedMemory(), 32 + Blocks.PAGE_SIZE, [])
  {
    AllHolds(RefusedMemory(), 32, RefusedVector().args[0] + [0]);
    AllHolds(RefusedMemory(), 32 + Blocks.PAGE_SIZE, [0]);
  }

  lemma RefusedPointer(a: nat, b: seq<Byte>)
    requires a in {16, 20, 24} && |b| == 4 && forall i :: 0 <= i < 4 ==> RefusedMemory()[a + i] == b[i]
    ensures PointerAt(RefusedMemory(), a, BytesWord(b[0], b[1], b[2], b[3]))
  {
    AllHolds(RefusedMemory(), a, b);
    WordOfBytes(b);
  }

  lemma RefusedPointers()
    ensures PointerAt(RefusedMemory(), 16, 32) && PointerAt(RefusedMemory(), 20, 32 + Blocks.PAGE_SIZE)
    ensures PointerAt(RefusedMemory(), 24, 0)
  {
    RefusedPointer(16, [0, 0, 0, 32]);
    RefusedPointer(20, [0, 0, 16, 32]);
    RefusedPointer(24, [0, 0, 0, 0]);
  }

  lemma TwoArguments(mem: Memory, a: nat, p: nat, q: nat, s: seq<Byte>, t: seq<Byte>)
    requires PointerAt(mem, a, p) && PointerAt(mem, a + 4, q) && PointerAt(mem, a + 8, 0) && p != 0 && q != 0
    requires StringInUser(mem, p, s) && StringInUser(mem, q, t) && a + 12 <= USERSPACETOP
    ensures Readable(mem, a, Vector([p, q], [s, t]))
  {
  }

  lemma RefusedReadable()
    ensures Readable(RefusedMemory(), 16, RefusedVector())
  {
    RefusedStrings();
    RefusedPointers();
    var v := RefusedVector();
    TwoArguments(RefusedMemory(), 16, v.ptrs[0], v.ptrs[1], v.args[0], v.args[1]);
  }

  lemma RefusedVerdict()
    ensures |Flat(RefusedVector().args)| <= ARG_MAX && FromUserVerdict(RefusedVector().args) == Some(EFAULT)
  {
    var args := RefusedVector().args;
    OffsetNext(args, 0);
    OffsetNext(args, 1);
    assert args[..2] == args;
    assert Offset(args, 1) == Blocks.PAGE_SIZE;
    VerdictIs(args, Blocks.PAGE_SIZE);
  }

  /** It lies in user space, fits ARG_MAX and is refused. */
  method FromUserRefuses() returns (err: Option<Errno>)
    ensures Readable(RefusedMemory(), 16, RefusedVector()) && |Flat(RefusedVector().args)| <= ARG_MAX
    ensures err == Some(EFAULT)
  {
    RefusedReadable();
    RefusedVerdict();
    var buf;
    ghost var slots, first, small;
    err, buf, slots, first, small := FromUser(RefusedMemory(), 16);
  }

  // ------------------------------------------------------------------------
  // Laying a vector out on a stack
  // ------------------------------------------------------------------------

  /** Where the pointers start: room for all of them and the null, just below the strings. */
  ghost predicate Layout(base: nat, strings: nat, args: seq<seq<Byte>>) {
    base + 4 * (|args| + 1) == strings
  }

  ghost predicate Fours(ptrs: seq<seq<Byte>>) {
    forall j :: 0 <= j < |ptrs| ==> |ptrs[j]| == 4
  }

  /** The first pointers of the new vector. */
  ghost predicate Encodings(ptrs: seq<seq<Byte>>, strings: nat, args: seq<seq<Byte>>) {
    |ptrs| <= |args| && forall j :: 0 <= j < |ptrs| ==> Encodes(ptrs[j], strings + Offset(args, j))
  }

  /**
   * The first p pointers, from base on, and the first k strings, from strings on,
   * have been written over was, and nothing else changed.
   */
  ghost predicate Laid(was: Memory, mem: Memory, base: nat, ptrs: seq<seq<Byte>>, p: nat,
                       strings: nat, args: seq<seq<Byte>>, k: nat)
  {
    && p <= |ptrs| && k <= |args| && mem.Keys == was.Keys
    && Holds(mem, strings, Flat(args[..k]))
    && (forall j :: 0 <= j < p ==> Holds(mem, base + 4 * j, ptrs[j]))
    && (forall x :: x in was && !(base <= x < base + 4 * p) && !(strings <= x < strings + Offset(args, k)) ==>
          mem[x] == was[x])
  }

  /** The region lies in user space and is mapped. */
  ghost predicate Fits(mem: Memory, a: nat, n: nat) {
    a + n <= USERSPACETOP && Mapped(mem, a, n)
  }

  /** As many strings as pointers have been written, all of them to mapped user memory. */
  ghost predicate Partway(was: Memory, mem: Memory, base: nat, strings: nat, args: seq<seq<Byte>>,
                          ptrs: seq<seq<Byte>>) {
    var k := |ptrs|;
    && Fours(ptrs) && Encodings(ptrs, strings, args) && Laid(was, mem, base, ptrs, k, strings, args, k)
    && (k > 0 ==> Fits(was, base, 4 * k) && Fits(was, strings, Offset(args, k)))
  }

  /** The pointer b follows, and the string it points to is still to be written. */
  ghost predicate Halfway(was: Memory, mem: Memory, base: nat, strings: nat, args: seq<seq<Byte>>,
                          ptrs: seq<seq<Byte>>, b: seq<Byte>)
  {
    var k := |ptrs|;
    && k < |args| && Fours(ptrs) && Encodings(ptrs, strings, args) && Encodes(b, strings + Offset(args, k))
    && Laid(was, mem, base, ptrs + [b], k + 1, strings, args, k) && Fits(was, base + 4 * k, 4)
    && (k > 0 ==> Fits(was, base, 4 * k) && Fits(was, strings, Offset(args, k)))
  }

  /** The k-th pointer and string are part of the whole. */
  lemma PartsFit(was: Memory, base: nat, strings: nat, args: seq<seq<Byte>>, k: nat)
    requires Layout(base, strings, args) && k < |args|
    ensures Fits(was, base, strings + |Flat(args)| - base) ==>
              Fits(was, base + 4 * k, 4) && Fits(was, strings + Offset(args, k), |args[k]| + 1)
  {
    FlatPiece(args, k);
  }

  lemma LaidPointer(was: Memory, mem: Memory, base: nat, ptrs: seq<seq<Byte>>, strings: nat, args: seq<seq<Byte>>,
                    k: nat)
    requires Layout(base, strings, args) && Fours(ptrs) && k < |ptrs| <= |args|
    requires Laid(was, mem, base, ptrs, k, strings, args, k)
    requires Mapped(was, base + 4 * k, 4)
    ensures Laid(was, Write(mem, base + 4 * k, ptrs[k]), base, ptrs, k + 1, strings, args, k)
  {
    var mem' := Write(mem, base + 4 * k, ptrs[k]);
    WriteHolds(mem, base + 4 * k, ptrs[k]);
    WriteElsewhere(mem, base + 4 * k, ptrs[k], strings, Flat(args[..k]));
    forall j | 0 <= j < k ensures Holds(mem', base + 4 * j, ptrs[j]) {
      WriteElsewhere(mem, base + 4 * k, ptrs[k], base + 4 * j, ptrs[j]);
    }
  }

  lemma HoldsConcat(mem: Memory, a: nat, s: seq<Byte>, t: seq<Byte>)
    requires Holds(mem, a, s) && Holds(mem, a + |s|, t)
    ensures Holds(mem, a, s + t)
  {
    HoldsAll(mem, a, s);
    HoldsAll(mem, a + |s|, t);
    AllHolds(mem, a, s + t);
  }

  lemma LaidString(was: Memory, mem: Memory, base: nat, ptrs: seq<seq<Byte>>, strings: nat, args: seq<seq<Byte>>,
                   k: nat)
    requires Layout(base, strings, args) && Fours(ptrs) && k < |ptrs| <= |args|
    requires Laid(was, mem, base, ptrs, k + 1, strings, args, k)
    requires Mapped(was, strings + Offset(args, k), |args[k]| + 1)
    ensures Laid(was, Write(mem, strings + Offset(args, k), args[k] + [0]), base, ptrs, k + 1, strings, args, k + 1)
  {
    var a, z := strings + Offset(args, k), args[k] + [0];
    var mem' := Write(mem, a, z);
    OffsetNext(args, k);
    WriteHolds(mem, a, z);
    WriteElsewhere(mem, a, z, strings, Flat(args[..k]));
    HoldsConcat(mem', strings, Flat(args[..k]), z);
    forall j | 0 <= j <= k ensures Holds(mem', base + 4 * j, ptrs[j]) {
      WriteElsewhere(mem, a, z, base + 4 * j, ptrs[j]);
    }
  }

  /** Once the string the pointer points to is written as well. */
  lemma PartwayNext(was: Memory, mem: Memory, base: nat, strings: nat, args: seq<seq<Byte>>,
                    ptrs: seq<seq<Byte>>, b: seq<Byte>)
    requires Layout(base, strings, args) && |ptrs| < |args| && Halfway(was, mem, base, strings, args, ptrs, b)
    requires Fits(was, strings + Offset(args, |ptrs|), |args[|ptrs|]| + 1)
    ensures var k := |ptrs|;
            Partway(was, Write(mem, strings + Offset(args, k), args[k] + [0]), base, strings, args, ptrs + [b])
  {
    LaidString(was, mem, base, ptrs + [b], strings, args, |ptrs|);
    assert Encodings(ptrs + [b], strings, args);
    RegionsFit(was, base, strings, args, |ptrs|);
  }

  lemma RegionsFit(was: Memory, base: nat, strings: nat, args: seq<seq<Byte>>, k: nat)
    requires k < |args| && (k > 0 ==> Fits(was, base, 4 * k) && Fits(was, strings, Offset(args, k)))
    requires Fits(was, base + 4 * k, 4) && Fits(was, strings + Offset(args, k), |args[k]| + 1)
    ensures Fits(was, base, 4 * (k + 1)) && Fits(was, strings, Offset(args, k + 1))
  {
    OffsetNext(args, k);
    assert k == 0 ==> Offset(args, 0) == 0;
  }

  lemma HoldsSlice(mem: Memory, a: nat, s: seq<Byte>, lo: nat, hi: nat)
    requires Holds(mem, a, s) && lo <= hi <= |s|
    ensures Holds(mem, a + lo, s[lo..hi])
  {
    HoldsAll(mem, a, s);
    AllHolds(mem, a + lo, s[lo..hi]);
  }

  lemma StringOfFlat(mem: Memory, strings: nat, args: seq<seq<Byte>>, k: nat)
    requires Holds(mem, strings, Flat(args)) && k < |args| && 0 !in args[k]
    ensures StringAt(mem, strings + Offset(args, k), args[k])
  {
    FlatPiece(args, k);
    HoldsSlice(mem, strings, Flat(args), Offset(args, k), Offset(args, k) + |args[k]| + 1);
  }

  /** The null goes after the last pointer; everything written before it stays. */
  lemma LaidNull(was: Memory, mem: Memory, base: nat, ptrs: seq<seq<Byte>>, strings: nat, args: seq<seq<Byte>>,
                 null4: seq<Byte>)
    requires Layout(base, strings, args) && Fours(ptrs) && |null4| == 4 && |ptrs| == |args|
    requires Laid(was, mem, base, ptrs, |args|, strings, args, |args|)
    requires Mapped(was, base + 4 * |args|, 4)
    ensures var mem' := Write(mem, base + 4 * |args|, null4);
            && Holds(mem', strings, Flat(args)) && Holds(mem', base + 4 * |args|, null4)
            && (forall k :: 0 <= k < |args| ==> Holds(mem', base + 4 * k, ptrs[k]))
            && (forall x :: x in was && !(base <= x < strings + |Flat(args)|) ==> mem'[x] == was[x])
  {
    var n := |args|;
    assert args[..n] == args;
    var mem' := Write(mem, base + 4 * n, null4);
    WriteHolds(mem, base + 4 * n, null4);
    WriteElsewhere(mem, base + 4 * n, null4, strings, Flat(args));
    forall k | 0 <= k < n ensures Holds(mem', base + 4 * k, ptrs[k]) {
      WriteElsewhere(mem, base + 4 * n, null4, base + 4 * k, ptrs[k]);
    }
  }

  // ------------------------------------------------------------------------
  // Addresses on the stack
  // ------------------------------------------------------------------------

  /** Where the strings start, and the pointers, as unbounded numbers. */
  function Strings(stack: nat, args: seq<seq<Byte>>): int {
    (stack - |Flat(args)|) - (stack - |Flat(args)|) % 4
  }

  function Base(stack: nat, args: seq<seq<Byte>>): int {
    Strings(stack, args) - 4 * (|args| + 1)
  }

  function Top(stack: nat, args: seq<seq<Byte>>): int {
    Strings(stack, args) + |Flat(args)|
  }

  /** The stack is deep enough for the strings and the pointers. */
  predicate Reserved(stack: nat, args: seq<seq<Byte>>) {
    Base(stack, args) >= 0
  }

  /** All of the vector lies aligned between the new stack pointer and the old. */
  lemma WithinStack(stack: nat, args: seq<seq<Byte>>)
    ensures Base(stack, args) % 4 == 0 && Strings(stack, args) % 4 == 0
    ensures Base(stack, args) < Strings(stack, args) <= Top(stack, args) <= stack
    ensures stack - Base(stack, args) <= |Flat(args)| + 4 * (|args| + 1) + 3
  {
  }

  /**
   * The addresses argbuf_copyout computes, in 32-bit arithmetic: these, or else the
   * pointers end up above user space.
   */
  method StackSpace(stack: nat, len: nat, nargs: nat, ghost args: seq<seq<Byte>>) returns (strings: nat, base: nat)
    requires stack < WRAP && len == |Flat(args)| <= ARG_MAX && nargs == |args|
    ensures strings < WRAP && base < WRAP
    ensures if Reserved(stack, args) then strings == Strings(stack, args) && base == Base(stack, args)
            else base >= USERSPACETOP
  {
    FlatPrefix(args, 0);
    var ustack := Subtract(stack, len);
    strings := ustack - ustack % 4;
    base := Subtract(strings, 4 * (nargs + 1));
  }

  /** Subtraction of 32-bit addresses. */
  function Subtract(a: nat, b: nat): (r: nat)
    requires a < WRAP && b < WRAP
    ensures r < WRAP && r == if b <= a then a - b else a + WRAP - b
  {
    Words.DivModUnique(a - b, WRAP, if b <= a then 0 else -1, if b <= a then a - b else a + WRAP - b);
    (a - b) % WRAP
  }

  // ------------------------------------------------------------------------
  // The vector on the new stack
  // ------------------------------------------------------------------------

  /** Only the last string ends where all of them end. */
  lemma OffsetEnd(args: seq<seq<Byte>>, k: nat)
    requires k <= |args|
    ensures Offset(args, k) <= |Flat(args)|
    ensures Offset(args, k) < |Flat(args)| <==> k < |args|
  {
    FlatPrefix(args, k);
    if k == |args| {
      assert args[..k] == args;
    }
  }

  /** The pointers of the new vector. */
  function Pointers(strings: nat, args: seq<seq<Byte>>): seq<nat> {
    seq(|args|, k requires 0 <= k < |args| => strings + Offset(args, k))
  }

  /**
   * The vector lies at base, its strings in order from strings on, and memory
   * outside the two is as it was.
   */
  ghost predicate Copied(was: Memory, mem: Memory, base: nat, strings: nat, args: seq<seq<Byte>>) {
    && ArgvAt(mem, base, Pointers(strings, args), args)
    && Holds(mem, strings, Flat(args))
    && mem.Keys == was.Keys
    && (forall x :: x in was && !(base <= x < strings + |Flat(args)|) ==> mem[x] == was[x])
  }

  lemma PointerFrom(mem: Memory, a: nat, b: seq<Byte>, p: nat)
    requires Encodes(b, p) && Holds(mem, a, b)
    ensures PointerAt(mem, a, p)
  {
  }

  lemma CopiedFrom(was: Memory, mem: Memory, base: nat, ptrs: seq<seq<Byte>>, strings: nat, args: seq<seq<Byte>>,
                   null4: seq<Byte>)
    requires strings > 0 && |ptrs| == |args| && Encodings(ptrs, strings, args) && Encodes(null4, 0)
    requires forall k :: 0 <= k < |args| ==> 0 !in args[k]
    requires Holds(mem, strings, Flat(args)) && Holds(mem, base + 4 * |args|, null4)
    requires forall k :: 0 <= k < |args| ==> Holds(mem, base + 4 * k, ptrs[k])
    requires mem.Keys == was.Keys
    requires forall x :: x in was && !(base <= x < strings + |Flat(args)|) ==> mem[x] == was[x]
    ensures Copied(was, mem, base, strings, args)
  {
    var p := Pointers(strings, args);
    PointerFrom(mem, base + 4 * |args|, null4, 0);
    forall k | 0 <= k < |args| ensures PointerAt(mem, base + 4 * k, p[k]) && StringAt(mem, p[k], args[k]) {
      PointerFrom(mem, base + 4 * k, ptrs[k], p[k]);
      StringOfFlat(mem, strings, args, k);
    }
  }

  /** A vector execv can pass on: it is taken, and the new stack has mapped room for it. */
  ghost predicate Passable(from: Memory, uargv: nat, mem: Memory, stack: nat, v: Vector) {
    && Readable(from, uargv, v) && FromUserVerdict(v.args) == None && Reserved(stack, v.args)
    && Fits(mem, Base(stack, v.args), Top(stack, v.args) - Base(stack, v.args))
  }

  /**
   * What execv does with its arguments, for whatever lies in the two memories.  It
   * succeeds exactly when there is a vector it can pass on, and then that vector
   * lies on the new stack, string for string.
   */
  method PassArguments(from: Memory, uargv: nat, space: UserSpace, stack: nat)
    returns (err: Option<Errno>, newStack: nat, argc: nat, newArgv: nat)
    requires uargv < WRAP && stack < WRAP
    modifies space
    ensures err == None <==> exists v :: Passable(from, uargv, old(space.mem), stack, v)
    ensures err == None ==> forall p, v :: ArgvAt(from, uargv, p, v) ==>
              && argc == |v| && newStack == newArgv == Base(stack, v)
              && ArgvAt(space.mem, newArgv, Pointers(Strings(stack, v), v), v)
  {
    newStack, argc, newArgv := stack, 0, 0;
    var buf;
    ghost var slots, first, small;
    err, buf, slots, first, small := FromUser(from, uargv);
    if err != None {
      return;
    }
    ghost var max := if first == Some(E2BIG) then ARG_MAX else Blocks.PAGE_SIZE;
    ghost var vec := StoppedReadable(from, uargv, max, slots, buf.args);
    err, newStack, argc, newArgv := buf.CopyOut(space, stack);
    assert err == None <==> Passable(from, uargv, old(space.mem), stack, vec);
    forall p, v | ArgvAt(from, uargv, p, v) ensures v == vec.args {
      ArgvUnique(from, uargv, vec.ptrs, vec.args, p, v);
    }
  }
}
