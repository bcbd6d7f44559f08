/**
 * Copying between kernel and user memory (copyinout.c).  User memory is the map
 * of its mapped bytes; touching an unmapped one is the fault that ends in EFAULT.
 */
module CopyInOut {
  import opened Chains
  import Words

  type Byte = b: nat | b < 256

  type Memory = map<nat, Byte>

  const WRAP: nat := 0x1_0000_0000
  const USERSPACETOP: nat := 0x8000_0000

  datatype Errno = EFAULT | ENAMETOOLONG | E2BIG

  /** copycheck in 32-bit arithmetic: how much may be copied, or nothing for EFAULT. */
  function CopyCheck(bot: nat, len: nat): Option<nat> {
    var top := (bot + len - 1) % WRAP;
    if top < bot then None
    else if bot >= USERSPACETOP then None
    else if top >= USERSPACETOP then Some(USERSPACETOP - bot)
    else Some(len)
  }

  /**
   * A region that is not empty passes when it starts in user space and does not
   * wrap; its part in user space may be copied.
   */
  lemma CopyCheckNonempty(bot: nat, len: nat)
    requires bot < WRAP && 0 < len < WRAP
    ensures CopyCheck(bot, len) == None <==> bot >= USERSPACETOP || bot + len > WRAP
    ensures CopyCheck(bot, len) != None ==>
              CopyCheck(bot, len).value == if bot + len <= USERSPACETOP then len else USERSPACETOP - bot
  {
    if bot + len <= WRAP {
      Words.DivModUnique(bot + len - 1, WRAP, 0, bot + len - 1);
    } else {
      Words.DivModUnique(bot + len - 1, WRAP, 1, bot + len - 1 - WRAP);
    }
  }

  /** An empty region is refused, whatever its address, except at address zero. */
  lemma CopyCheckEmpty(bot: nat)
    requires bot < WRAP
    ensures CopyCheck(bot, 0) == if bot == 0 then Some(USERSPACETOP) else None
  {
    if bot == 0 {
      Words.DivModUnique(-1, WRAP, -1, WRAP - 1);
    } else {
      Words.DivModUnique(bot - 1, WRAP, 0, bot - 1);
    }
  }

  // ------------------------------------------------------------------------
  // Memory contents
  // ------------------------------------------------------------------------

  ghost predicate Mapped(mem: Memory, a: nat, n: nat) {
    forall x :: a <= x < a + n ==> x in mem
  }

  /** The given bytes lie at address a. */
  ghost predicate Holds(mem: Memory, a: nat, bytes: seq<Byte>)
    decreases |bytes|
  {
    bytes == [] || (a in mem && mem[a] == bytes[0] && Holds(mem, a + 1, bytes[1..]))
  }

  lemma {:induction false} HoldsAll(mem: Memory, a: nat, bytes: seq<Byte>)
    requires Holds(mem, a, bytes)
    ensures forall x :: a <= x < a + |bytes| ==> x in mem && mem[x] == bytes[x - a]
    decreases |bytes|
  {
    if bytes != [] {
      HoldsAll(mem, a + 1, bytes[1..]);
    }
  }

  lemma {:induction false} AllHolds(mem: Memory, a: nat, bytes: seq<Byte>)
    requires forall x :: a <= x < a + |bytes| ==> x in mem && mem[x] == bytes[x - a]
    ensures Holds(mem, a, bytes)
    decreases |bytes|
  {
    if bytes != [] {
      AllHolds(mem, a + 1, bytes[1..]);
    }
  }

  lemma HoldsSnoc(mem: Memory, a: nat, bytes: seq<Byte>)
    requires Holds(mem, a, bytes) && a + |bytes| in mem
    ensures Holds(mem, a, bytes + [mem[a + |bytes|]])
  {
    HoldsAll(mem, a, bytes);
    AllHolds(mem, a, bytes + [mem[a + |bytes|]]);
  }

  function Write(mem: Memory, a: nat, bytes: seq<Byte>): Memory {
    map x | x in mem :: if a <= x < a + |bytes| then bytes[x - a] else mem[x]
  }

  lemma WriteSnoc(mem: Memory, a: nat, bytes: seq<Byte>, b: Byte)
    requires a + |bytes| in mem
    ensures Write(mem, a, bytes)[a + |bytes| := b] == Write(mem, a, bytes + [b])
  {
  }

  lemma WriteHolds(mem: Memory, a: nat, bytes: seq<Byte>)
    requires Mapped(mem, a, |bytes|)
    ensures Holds(Write(mem, a, bytes), a, bytes)
  {
    AllHolds(Write(mem, a, bytes), a, bytes);
  }

  lemma WriteElsewhere(mem: Memory, a: nat, bytes: seq<Byte>, b: nat, other: seq<Byte>)
    requires Holds(mem, b, other) && (b + |other| <= a || a + |bytes| <= b)
    ensures Holds(Write(mem, a, bytes), b, other)
  {
    HoldsAll(mem, b, other);
    AllHolds(Write(mem, a, bytes), b, other);
  }

  /** A string without its terminator, which follows it in memory. */
  ghost predicate StringAt(mem: Memory, a: nat, s: seq<Byte>) {
    Holds(mem, a, s + [0]) && 0 !in s
  }

  lemma StringUnique(mem: Memory, a: nat, s: seq<Byte>, s': seq<Byte>)
    requires StringAt(mem, a, s) && StringAt(mem, a, s')
    ensures s == s'
  {
    HoldsAll(mem, a, s + [0]);
    HoldsAll(mem, a, s' + [0]);
    var n := if |s| < |s'| then |s| else |s'|;
    assert mem[a + n] == (s + [0])[n] && mem[a + n] == (s' + [0])[n];
    forall i | 0 <= i < n ensures s[i] == s'[i] {
      assert mem[a + i] == (s + [0])[i] && mem[a + i] == (s' + [0])[i];
    }
  }

  /** How many bytes of user space, from a on, are mapped and not zero. */
  ghost function RunLength(mem: Memory, a: nat): nat
    decreases USERSPACETOP - a
  {
    if a < USERSPACETOP && a in mem && mem[a] != 0 then 1 + RunLength(mem, a + 1) else 0
  }

  lemma {:induction false} RunIs(mem: Memory, a: nat)
    ensures forall x :: a <= x < a + RunLength(mem, a) ==> x in mem && mem[x] != 0
    ensures RunLength(mem, a) > 0 ==> a + RunLength(mem, a) <= USERSPACETOP
    ensures var end := a + RunLength(mem, a); end < USERSPACETOP && end in mem ==> mem[end] == 0
    decreases USERSPACETOP - a
  {
    if a < USERSPACETOP && a in mem && mem[a] != 0 {
      RunIs(mem, a + 1);
    }
  }

  // ------------------------------------------------------------------------
  // Pointers
  // ------------------------------------------------------------------------

  /** Four bytes, the most significant first, make up the word w. */
  ghost predicate Encodes(b: seq<Byte>, w: nat) {
    |b| == 4 && Words.Val(b, 256) == w
  }

  function BytesWord(b0: nat, b1: nat, b2: nat, b3: nat): nat {
    ((b0 * 256 + b1) * 256 + b2) * 256 + b3
  }

  lemma WordOfBytes(b: seq<Byte>)
    requires |b| == 4
    ensures Encodes(b, BytesWord(b[0], b[1], b[2], b[3])) && BytesWord(b[0], b[1], b[2], b[3]) < WRAP
  {
    var b0: int, b1: int, b2: int := b[0], b[1], b[2];
    var c, d, e := b[..3], b[..3][..2], b[..3][..2][..1];
    assert c[2] == b[2] && d[1] == b[1] && e[0] == b[0] && e[..0] == [];
    assert Words.Val(e, 256) == b0;
    assert Words.Val(d, 256) == b0 * 256 + b1;
    assert Words.Val(c, 256) == (b0 * 256 + b1) * 256 + b2;
  }

  function WordBytes(w: nat): seq<Byte>
    requires w < WRAP
  {
    [w / 256 / 256 / 256, w / 256 / 256 % 256, w / 256 % 256, w % 256]
  }

  lemma WordBytesEncode(w: nat)
    requires w < WRAP
    ensures Encodes(WordBytes(w), w)
  {
    var b := WordBytes(w);
    WordOfBytes(b);
    var b0: int, b1: int, b2: int := b[0], b[1], b[2];
    assert w / 256 / 256 == b0 * 256 + b1;
    assert w / 256 == (b0 * 256 + b1) * 256 + b2;
  }

  ghost predicate PointerAt(mem: Memory, a: nat, w: nat) {
    exists b :: Encodes(b, w) && Holds(mem, a, b)
  }

  lemma HoldsUnique(mem: Memory, a: nat, b: seq<Byte>, b': seq<Byte>)
    requires |b| == |b'| && Holds(mem, a, b) && Holds(mem, a, b')
    ensures b == b'
  {
    HoldsAll(mem, a, b);
    HoldsAll(mem, a, b');
    forall i | 0 <= i < |b| ensures b[i] == b'[i] {
      assert mem[a + i] == b[i];
    }
  }

  lemma PointerUnique(mem: Memory, a: nat, w: nat, w': nat)
    requires PointerAt(mem, a, w) && PointerAt(mem, a, w')
    ensures w == w'
  {
    var b :| Encodes(b, w) && Holds(mem, a, b);
    var b' :| Encodes(b', w') && Holds(mem, a, b');
    HoldsUnique(mem, a, b, b');
  }

  /** The word that lies at a. */
  ghost function Word(mem: Memory, a: nat): nat
    requires Mapped(mem, a, 4)
  {
    BytesWord(mem[a], mem[a + 1], mem[a + 2], mem[a + 3])
  }

  lemma WordAt(mem: Memory, a: nat)
    requires Mapped(mem, a, 4)
    ensures PointerAt(mem, a, Word(mem, a))
  {
    var b := [mem[a], mem[a + 1], mem[a + 2], mem[a + 3]];
    WordOfBytes(b);
    AllHolds(mem, a, b);
  }

  lemma WordIs(mem: Memory, a: nat, w: nat)
    requires PointerAt(mem, a, w)
    ensures Mapped(mem, a, 4) && Word(mem, a) == w
  {
    var b :| Encodes(b, w) && Holds(mem, a, b);
    HoldsAll(mem, a, b);
    WordOfBytes(b);
  }

  // ------------------------------------------------------------------------
  // Copying
  // ------------------------------------------------------------------------

  /** copyin of one pointer. */
  method CopyInPointer(mem: Memory, src: nat) returns (w: Option<nat>)
    requires src < WRAP
    ensures w != None <==> src + 4 <= USERSPACETOP && Mapped(mem, src, 4)
    ensures w != None ==> PointerAt(mem, src, w.value) && w.value == Word(mem, src) < WRAP
  {
    CopyCheckNonempty(src, 4);
    var stoplen := CopyCheck(src, 4);
    if stoplen != Some(4) {
      return None;
    }
    if src !in mem || src + 1 !in mem || src + 2 !in mem || src + 3 !in mem {
      return None;
    }
    ghost var b := [mem[src], mem[src + 1], mem[src + 2], mem[src + 3]];
    WordOfBytes(b);
    AllHolds(mem, src, b);
    w := Some(BytesWord(mem[src], mem[src + 1], mem[src + 2], mem[src + 3]));
  }

  /** len bytes from a on are mapped, and none of them ends a string. */
  ghost predicate LongRun(mem: Memory, a: nat, len: nat) {
    forall x :: a <= x < a + len ==> x in mem && mem[x] != 0
  }

  ghost predicate StringWithin(mem: Memory, a: nat, n: nat) {
    exists s :: StringAt(mem, a, s) && |s| < n
  }

  /** What copystr from user memory comes to: a whole string, one that is too long, or a fault. */
  ghost function FetchError(mem: Memory, src: nat, len: nat, stoplen: nat): Option<Errno> {
    if StringWithin(mem, src, Words.Min(len, stoplen)) then None
    else if len <= stoplen && LongRun(mem, src, len) then Some(ENAMETOOLONG)
    else Some(EFAULT)
  }

  /**
   * What copyinstr comes to.  Nothing may be asked for past the end of the address
   * space, nor nothing at all, except that this is too long a string at address zero.
   */
  ghost function StringError(mem: Memory, src: nat, len: nat): Option<Errno> {
    if len == 0 then
      Some(if src == 0 then ENAMETOOLONG else EFAULT)
    else if src < USERSPACETOP && src + len <= WRAP && StringWithin(mem, src, Words.Min(len, USERSPACETOP - src)) then
      None
    else
      Some(if src + len <= USERSPACETOP && LongRun(mem, src, len) then ENAMETOOLONG else EFAULT)
  }

  /** copyinstr, for whatever lies in user memory. */
  method CopyInStr(mem: Memory, src: nat, dest: array<Byte>, off: nat, len: nat)
    returns (err: Option<Errno>, gotlen: nat, ghost s: seq<Byte>)
    requires src < WRAP && off + len <= dest.Length && len < WRAP
    modifies dest
    ensures err == StringError(mem, src, len)
    ensures err == None ==> StringAt(mem, src, s) && gotlen == |s| + 1 <= len && src + gotlen <= USERSPACETOP
    ensures err == None ==> dest[off..off + gotlen] == s + [0]
    ensures forall k :: 0 <= k < off ==> dest[k] == old(dest[k])
  {
    gotlen, s := 0, [];
    if len > 0 {
      CopyCheckNonempty(src, len);
    } else {
      CopyCheckEmpty(src);
    }
    var check := CopyCheck(src, len);
    if check == None {
      return Some(EFAULT), gotlen, s;
    }
    err, gotlen, s := FetchStr(mem, src, dest, off, len, check.value);
  }

  /** copystr from user memory: byte by byte up to the terminator, a fault or the limit. */
  method FetchStr(mem: Memory, src: nat, dest: array<Byte>, off: nat, len: nat, stoplen: nat)
    returns (err: Option<Errno>, gotlen: nat, ghost s: seq<Byte>)
    requires off + len <= dest.Length
    modifies dest
    ensures err == FetchError(mem, src, len, stoplen)
    ensures err == None ==> StringAt(mem, src, s) && gotlen == |s| + 1 <= len && gotlen <= stoplen
    ensures err == None ==> dest[off..off + gotlen] == s + [0]
    ensures forall k :: 0 <= k < off ==> dest[k] == old(dest[k])
  {
    var outcome;
    outcome, gotlen, s := Scan(mem, src, dest, off, len, stoplen);
    HoldsAll(mem, src, s);
    if outcome == Terminated {
      return None, gotlen, s;
    }
    StringGoesOn(mem, src, s);
    return Some(if outcome == Faulted || stoplen < len then EFAULT else ENAMETOOLONG), gotlen, s;
  }

  datatype Outcome = Terminated | Faulted | LimitReached

  /** The loop of copystr: what has been read, and why it ended. */
  method Scan(mem: Memory, src: nat, dest: array<Byte>, off: nat, len: nat, stoplen: nat)
    returns (outcome: Outcome, gotlen: nat, ghost s: seq<Byte>)
    requires off + len <= dest.Length
    modifies dest
    ensures Holds(mem, src, s) && 0 !in s && |s| <= len && |s| <= stoplen
    ensures outcome == Terminated ==> gotlen == |s| + 1 <= len && gotlen <= stoplen && StringAt(mem, src, s)
    ensures outcome == Terminated ==> dest[off..off + gotlen] == s + [0]
    ensures outcome == Faulted ==> src + |s| !in mem && |s| < len && |s| < stoplen
    ensures outcome == LimitReached ==> |s| == len || |s| == stoplen
    ensures forall k :: 0 <= k < off ==> dest[k] == old(dest[k])
  {
    gotlen, s := 0, [];
    var i := 0;
    while i < len && i < stoplen
      invariant i <= len && i <= stoplen && |s| == i && 0 !in s && Holds(mem, src, s) && dest[off..off + i] == s
      invariant forall k :: 0 <= k < off ==> dest[k] == old(dest[k])
    {
      if src + i !in mem {
        return Faulted, gotlen, s;
      }
      dest[off + i] := mem[src + i];
      assert dest[off..off + i] == s;
      assert dest[off..off + i + 1] == s + [mem[src + i]];
      HoldsSnoc(mem, src, s);
      if mem[src + i] == 0 {
        return Terminated, i + 1, s;
      }
      s := s + [mem[src + i]];
      i := i + 1;
    }
    return LimitReached, gotlen, s;
  }

  /** A string that starts with a run of bytes without a zero goes on at least one byte past it. */
  lemma StringGoesOn(mem: Memory, src: nat, s: seq<Byte>)
    requires Holds(mem, src, s) && 0 !in s
    ensures forall t :: StringAt(mem, src, t) ==> |t| >= |s| && src + |s| in mem
  {
    HoldsAll(mem, src, s);
    forall t | StringAt(mem, src, t) ensures |t| >= |s| && src + |s| in mem {
      HoldsAll(mem, src, t + [0]);
      assert mem[src + |t|] == (t + [0])[|t|];
    }
  }

  class UserSpace {
    var mem: Memory

    constructor (mem: Memory)
      ensures this.mem == mem
    {
      this.mem := mem;
    }

    /** Stores one byte, or faults. */
    method Poke(a: nat, b: Byte) returns (fault: bool)
      modifies this
      ensures fault <==> a !in old(mem)
      ensures mem == if fault then old(mem) else old(mem)[a := b]
    {
      if a !in mem {
        return true;
      }
      mem := mem[a := b];
      return false;
    }

    /** copyout of one pointer. */
    method CopyOutPointer(w: nat, dest: nat) returns (err: Option<Errno>, ghost b: seq<Byte>)
      requires w < WRAP && dest < WRAP
      modifies this
      ensures err == None <==> dest + 4 <= USERSPACETOP && Mapped(old(mem), dest, 4)
      ensures err == None ==> Encodes(b, w) && mem == Write(old(mem), dest, b)
      ensures mem.Keys == old(mem).Keys
    {
      CopyCheckNonempty(dest, 4);
      WordBytesEncode(w);
      b := WordBytes(w);
      var stoplen := CopyCheck(dest, 4);
      if stoplen != Some(4) {
        return Some(EFAULT), b;
      }
      err := Blast(WordBytes(w), dest);
    }

    /** memcpy to user memory. */
    method Blast(bytes: seq<Byte>, dest: nat) returns (err: Option<Errno>)
      modifies this
      ensures err == None <==> Mapped(old(mem), dest, |bytes|)
      ensures err == None ==> mem == Write(old(mem), dest, bytes)
      ensures mem.Keys == old(mem).Keys
    {
      var i := 0;
      while i < |bytes|
        invariant i <= |bytes| && Mapped(old(mem), dest, i) && mem == Write(old(mem), dest, bytes[..i])
      {
        var fault := Poke(dest + i, bytes[i]);
        if fault {
          return Some(EFAULT);
        }
        WriteSnoc(old(mem), dest, bytes[..i], bytes[i]);
        assert bytes[..i + 1] == bytes[..i] + [bytes[i]];
        i := i + 1;
      }
      assert bytes[..i] == bytes;
      return None;
    }

    /**
     * copyoutstr of what starts at src[pos].  It succeeds exactly when that ends within
     * the limit, fits user space and has all of its destination mapped; it is too long
     * exactly when it does not end there and all of the limit could be written.
     */
    method CopyOutStr(src: array<Byte>, pos: nat, dest: nat, len: nat) returns (err: Option<Errno>, gotlen: nat)
      requires dest < WRAP && len < WRAP && pos + len <= src.Length
      modifies this
      ensures var b := old(src[pos..pos + len]);
              var n := TextLength(b);
              && (err == None <==>
                    n < len && dest + len <= WRAP && dest + n + 1 <= USERSPACETOP && Mapped(old(mem), dest, n + 1))
              && (err == Some(ENAMETOOLONG) <==>
                    && n == len && (if len == 0 then dest == 0 else dest + len <= USERSPACETOP)
                    && Mapped(old(mem), dest, len))
              && (err == None ==> gotlen == n + 1 && mem == Write(old(mem), dest, b[..n + 1]))
      ensures err in {None, Some(EFAULT), Some(ENAMETOOLONG)} && mem.Keys == old(mem).Keys
    {
      gotlen := 0;
      if len > 0 {
        CopyCheckNonempty(dest, len);
      } else {
        CopyCheckEmpty(dest);
      }
      var check := CopyCheck(dest, len);
      if check == None {
        return Some(EFAULT), gotlen;
      }
      err, gotlen := StoreStr(src, pos, dest, len, check.value);
    }

    /** copystr to user memory: byte by byte up to the terminator, a fault or the limit. */
    method StoreStr(src: array<Byte>, pos: nat, dest: nat, len: nat, stoplen: nat)
      returns (err: Option<Errno>, gotlen: nat)
      requires pos + len <= src.Length
      modifies this
      ensures var b := old(src[pos..pos + len]);
              var n := TextLength(b);
              && (err == None <==> n < len && n < stoplen && Mapped(old(mem), dest, n + 1))
              && (err == Some(ENAMETOOLONG) <==> n == len <= stoplen && Mapped(old(mem), dest, len))
              && (err == None ==> gotlen == n + 1 && mem == Write(old(mem), dest, b[..n + 1]))
      ensures err in {None, Some(EFAULT), Some(ENAMETOOLONG)} && mem.Keys == old(mem).Keys
    {
      ghost var b := src[pos..pos + len];
      var outcome, i := Put(src, pos, dest, len, stoplen, b);
      if outcome == Terminated {
        return None, i + 1;
      }
      return Some(if outcome == Faulted || stoplen < len then EFAULT else ENAMETOOLONG), 0;
    }

    /** The loop of copystr: how far it got, and why it ended. */
    method Put(src: array<Byte>, pos: nat, dest: nat, len: nat, stoplen: nat, ghost b: seq<Byte>)
      returns (outcome: Outcome, i: nat)
      requires pos + len <= src.Length && b == src[pos..pos + len]
      modifies this
      ensures i <= len && i <= stoplen && Mapped(old(mem), dest, i) && mem.Keys == old(mem).Keys
      ensures forall k :: 0 <= k < i ==> b[k] != 0
      ensures outcome == Terminated ==> i < len && i < stoplen && b[i] == 0 && dest + i in old(mem)
      ensures outcome == Terminated ==> mem == Write(old(mem), dest, b[..i + 1])
      ensures outcome == Faulted ==> i < len && i < stoplen && dest + i !in old(mem)
      ensures outcome == LimitReached ==> i == len || i == stoplen
    {
      i := 0;
      while i < len && i < stoplen
        invariant i <= len && i <= stoplen && Mapped(old(mem), dest, i)
        invariant forall k :: 0 <= k < i ==> b[k] != 0
        invariant mem == Write(old(mem), dest, b[..i])
      {
        var fault := Poke(dest + i, src[pos + i]);
        if fault {
          return Faulted, i;
        }
        assert src[pos + i] == b[i];
        WriteSnoc(old(mem), dest, b[..i], b[i]);
        assert b[..i + 1] == b[..i] + [b[i]];
        if src[pos + i] == 0 {
          return Terminated, i;
        }
        i := i + 1;
      }
      return LimitReached, i;
    }
  }

  /** How many bytes come before the first zero, or all of them. */
  function TextLength(b: seq<Byte>): (n: nat)
    ensures n <= |b| && (n < |b| ==> b[n] == 0) && forall i :: 0 <= i < n ==> b[i] != 0
  {
    if b == [] || b[0] == 0 then 0 else 1 + TextLength(b[1..])
  }

  lemma TextLengthIs(b: seq<Byte>, s: seq<Byte>)
    requires |s| < |b| && b[..|s| + 1] == s + [0] && 0 !in s
    ensures TextLength(b) == |s|
  {
    assert forall i :: 0 <= i <= |s| ==> b[i] == b[..|s| + 1][i];
    assert b[|s|] == 0;
  }
}
