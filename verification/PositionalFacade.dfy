/** The block-buffering adapter: arbitrary reads and writes cut into whole blocks, with a carry buffer.
    The derived class's block operations are function-valued fields. */
module PositionalFacade {
  import opened Bytes

  // ----- Whole blocks

  /** n is a whole number of blocks of size b. */
  predicate Whole(n: nat, b: nat)
    requires b > 0
  {
    n == 0 || (n >= b && Whole(n - b, b))
  }

  lemma {:induction false} WholeSum(m: nat, n: nat, b: nat)
    requires b > 0 && Whole(m, b) && Whole(n, b)
    ensures Whole(m + n, b)
    decreases m
  {
    if m != 0 {
      WholeSum(m - b, n, b);
    }
  }

  lemma {:induction false} WholeMultiple(k: nat, b: nat)
    requires b > 0
    ensures k * b >= 0 && Whole(k * b, b)
  {
    if k != 0 {
      WholeMultiple(k - 1, b);
      assert k * b == (k - 1) * b + b;
    }
  }

  /** n/b*b, the octets of the whole blocks among n. */
  function WholePart(n: nat, b: nat): (q: nat)
    requires b > 0
    ensures q <= n < q + b && Whole(q, b)
    ensures n < b ==> q == 0
  {
    WholeMultiple(n / b, b);
    n / b * b
  }

  /** f treats its input block by block. */
  ghost predicate Blockwise<Out(!new)>(f: seq<byte> -> seq<Out>, b: nat)
    requires b > 0
  {
    && f([]) == []
    && forall x, y {:trigger f(x + y)} :: Whole(|x|, b) && Whole(|y|, b) ==> f(x + y) == f(x) + f(y)
  }

  // ----- Writing

  /** Octets written and octets still to be written, with the cut moved forward. */
  lemma CutAt(written: seq<byte>, rest: seq<byte>, amt: nat)
    requires amt <= |rest|
    ensures written + rest[..amt] + rest[amt..] == written + rest
    ensures rest[amt..] == [] ==> written + rest[..amt] == written + rest
  {
    assert rest[..amt] + rest[amt..] == rest;
  }

  class OutputFacade<Out(!new)> {
    const buffer: array<byte>
    const blockSize: nat
    var count: nat
    const writeBlocks: seq<byte> -> seq<Out>      // what write_blocks emits for whole blocks
    const closeWithFlush: seq<byte> -> seq<Out>   // what close_with_flush emits for the rest
    var sink: seq<Out>
    ghost var handed: seq<byte>                   // every octet passed to write_blocks, in order

    ghost predicate Valid()
      reads this, buffer
    {
      && 1 <= blockSize <= buffer.Length
      && count < blockSize
      && Blockwise(writeBlocks, blockSize)
      && Whole(|handed|, blockSize)
      && sink == writeBlocks(handed)
    }

    /** Every octet written so far. */
    ghost function Contents(): seq<byte>
      requires Valid()
      reads this, buffer
    {
      handed + buffer[..count]
    }

    constructor (maxBlockSize: nat, size: nat, blocks: seq<byte> -> seq<Out>, flush: seq<byte> -> seq<Out>)
      requires 1 <= size <= maxBlockSize && Blockwise(blocks, size)
      ensures Valid() && fresh(buffer) && blockSize == size && writeBlocks == blocks && closeWithFlush == flush
      ensures Contents() == [] && count == 0
    {
      buffer := new byte[maxBlockSize];
      blockSize, count := size, 0;
      writeBlocks, closeWithFlush := blocks, flush;
      sink, handed := [], [];
    }

    method WriteBlocks(s: seq<byte>)
      requires blockSize > 0 && Blockwise(writeBlocks, blockSize)
      requires Whole(|s|, blockSize) && Whole(|handed|, blockSize) && sink == writeBlocks(handed)
      modifies this`sink, this`handed
      ensures handed == old(handed) + s && Whole(|handed|, blockSize) && sink == writeBlocks(handed)
    {
      WholeSum(|handed|, |s|, blockSize);
      sink := sink + writeBlocks(s);
      handed := handed + s;
    }

    /** Copies s into the buffer from position at. */
    method Copy(s: seq<byte>, at: nat)
      requires at + |s| <= buffer.Length
      modifies buffer
      ensures buffer[..at + |s|] == old(buffer[..at]) + s
    {
      forall i | 0 <= i < |s| {
        buffer[at + i] := s[i];
      }
    }

    /** The full buffer is one block. */
    method HandOver()
      requires 1 <= blockSize <= buffer.Length && count == blockSize && Blockwise(writeBlocks, blockSize)
      requires Whole(|handed|, blockSize) && sink == writeBlocks(handed)
      modifies this`count, this`sink, this`handed
      ensures Valid() && count == 0 && Contents() == old(handed + buffer[..count])
    {
      WholeMultiple(1, blockSize);
      WriteBlocks(buffer[..blockSize]);
      count := 0;
      assert buffer[..0] == [] && handed + [] == handed;
    }

    /** Tops up a started block from the front of s and hands it over once it is full. */
    method FinishBlock(s: seq<byte>) returns (amt: nat)
      requires Valid() && count != 0
      modifies this`count, this`sink, this`handed, buffer
      ensures Valid() && amt <= |s| && (count == 0 || amt == |s|)
      ensures Contents() == old(Contents()) + s[..amt]
    {
      amt := if |s| < blockSize - count then |s| else blockSize - count;
      Associative(handed, buffer[..count], s[..amt]);
      Copy(s[..amt], count);
      count := count + amt;
      if count == blockSize {
        HandOver();
      }
    }

    /** Hands over the whole blocks at the front of s without copying them. */
    method PassBlocks(s: seq<byte>) returns (amt: nat)
      requires Valid() && |s| >= blockSize
      requires count == 0
      modifies this`sink, this`handed
      ensures Valid() && |s| - blockSize < amt <= |s|
      ensures Contents() == old(Contents()) + s[..amt]
    {
      var request := |s| / blockSize;
      assert WholePart(|s|, blockSize) == request * blockSize;
      amt := request * blockSize;
      WriteBlocks(s[..amt]);
    }

    /** Keeps the start of a block for the next write. */
    method KeepRest(s: seq<byte>)
      requires Valid() && count == 0 && |s| < blockSize
      modifies this`count, buffer
      ensures Valid() && Contents() == old(Contents()) + s
    {
      Copy(s, 0);
      count := |s|;
      assert buffer[..|s|] == s;
    }

    method Write(s: seq<byte>) returns (total: int)
      requires Valid()
      modifies this`count, this`sink, this`handed, buffer
      ensures Valid()
      ensures Contents() == old(Contents()) + s
      ensures total == if s == [] then -1 else |s|
    {
      total := 0;
      var rest := s;
      if count != 0 {
        var amt := FinishBlock(rest);
        CutAt(old(Contents()), rest, amt);
        rest := rest[amt..];
        total := total + amt;
      }
      ghost var before := Contents();
      if |rest| >= blockSize {
        var amt := PassBlocks(rest);
        CutAt(before, rest, amt);
        rest := rest[amt..];
        total := total + amt;
      }
      if |rest| != 0 {
        KeepRest(rest);
        total := total + |rest|;
      }
      total := if total != 0 then total else -1;
    }

    method Close()
      requires Valid()
      modifies this`sink
      ensures sink == writeBlocks(handed) + closeWithFlush(buffer[..count])
    {
      assert count < blockSize;
      sink := sink + closeWithFlush(buffer[..count]);
    }
  }

  // ----- Reading

  /** What read_blocks does: octets (none at the end of the source) or an exception. */
  datatype BlockOutcome<Src> = Blocks(bytes: seq<byte>, rest: Src) | BadSequence

  /** What read returns: octets, -1, or the exception that escapes it. */
  datatype ReadResult = Bytes(bytes: seq<byte>) | EndOfFile | Failed

  function Returned(r: ReadResult): seq<byte> {
    if r.Bytes? then r.bytes else []
  }

  function Front(s: seq<byte>, n: nat): seq<byte> {
    if n <= |s| then s[..n] else s
  }

  function Back(s: seq<byte>, n: nat): seq<byte> {
    if n <= |s| then s[n..] else []
  }

  /** read never returns more than k blocks; from a sound source it returns the next k blocks of its
      contents, or everything left when there is less, and the source stays sound. */
  ghost predicate DeliversBlocks<Src(!new)>(read: (Src, nat) -> BlockOutcome<Src>, sound: Src -> bool,
                                            contents: Src -> seq<byte>, b: nat)
  {
    forall src, k: nat {:trigger read(src, k)} ::
      && (read(src, k).Blocks? ==> |read(src, k).bytes| <= k * b)
      && (sound(src) ==>
            && read(src, k).Blocks?
            && read(src, k).bytes == Front(contents(src), k * b)
            && sound(read(src, k).rest)
            && contents(read(src, k).rest) == Back(contents(src), k * b))
  }

  /** The last read_blocks of a request for n octets, with carried octets in the buffer and left octets in
      the source, would fetch part of a block into the buffer: it meets a final block shorter than b. */
  predicate MeetsShortBlock(n: nat, carried: nat, left: nat, b: nat)
    requires b > 0
  {
    n > carried &&
    var q := WholePart(n - carried, b);
    n - carried != q && 0 < left - q < b
  }

  /** What the source still holds: a request takes whole blocks from it, rounded up. */
  ghost function AfterRequest(carried: nat, left: seq<byte>, n: nat, b: nat): seq<byte>
    requires b > 0
  {
    if n <= carried then left
    else
      var q := WholePart(n - carried, b);
      Back(left, if q == n - carried then q else q + b)
  }

  /** The octets of the carry buffer's previous contents that fill up a short final block. */
  function Filler(n: nat, carried: nat, left: nat, b: nat): nat
    requires b > 0
  {
    if MeetsShortBlock(n, carried, left, b) then WholePart(n - carried, b) + b - left else 0
  }

  /** What a request for n octets makes of the octets left: bytes are returned, remaining is still to be
      read. Together they are the octets left and the filler, cut after n. */
  ghost predicate Accounts(left: seq<byte>, carried: nat, n: nat, b: nat, bytes: seq<byte>, remaining: seq<byte>)
    requires b > 0 && carried <= |left|
  {
    && left <= bytes + remaining
    && |bytes| + |remaining| == |left| + Filler(n, carried, |left| - carried, b)
    && (|bytes| == n || (|bytes| < n && remaining == []))
  }

  /** Without a short block the request returns the next octets and leaves the others. */
  lemma AccountsInOrder(left: seq<byte>, carried: nat, n: nat, b: nat, bytes: seq<byte>, remaining: seq<byte>)
    requires b > 0 && carried <= |left| && Accounts(left, carried, n, b, bytes, remaining)
    ensures !MeetsShortBlock(n, carried, |left| - carried, b) <==> bytes == Front(left, n) && remaining == Back(left, n)
  {
    if !MeetsShortBlock(n, carried, |left| - carried, b) {
      assert left == bytes + remaining;
    }
  }

  lemma AccountsFront(left: seq<byte>, n: nat, b: nat, m: nat)
    requires b > 0 && Filler(n, 0, |left|, b) == 0 && (m == n || |left| <= m < n)
    ensures Accounts(left, 0, n, b, Front(left, m), Back(left, m))
  {
    if m < |left| {
      assert left[..m] + left[m..] == left;
    } else {
      assert left + [] == left;
    }
  }

  /** The source ran out within the whole blocks of a request, or the request was for whole blocks only. */
  lemma AccountsWhole(left: seq<byte>, n: nat, b: nat)
    requires b > 0 && (|left| < WholePart(n, b) || n == WholePart(n, b))
    ensures Accounts(left, 0, n, b, Front(left, WholePart(n, b)), Back(left, WholePart(n, b)))
  {
    AccountsFront(left, n, b, WholePart(n, b));
  }

  /** A block fetched for the end of a request is split between the caller and the buffer. */
  lemma AccountsPart(left: seq<byte>, n: nat, b: nat, whole: seq<byte>, part: seq<byte>, carried: seq<byte>)
    requires b > 0 && n > |whole| == WholePart(n, b) && |left| > |whole| && whole == left[..|whole|]
    requires |part| == n - |whole| && |part| + |carried| == b && Front(left[|whole|..], b) <= part + carried
    ensures Accounts(left, 0, n, b, whole + part, carried + Back(left[|whole|..], b))
  {
    var rest := left[|whole|..];
    assert left == whole + rest;
    assert whole + part + (carried + Back(rest, b)) == whole + (part + carried + Back(rest, b));
    if |rest| >= b {
      assert part + carried == rest[..b] && rest == rest[..b] + rest[b..];
    } else {
      assert part + carried + [] == part + carried;
    }
  }

  /** A request that finds nothing left after its whole blocks. */
  lemma AccountsNone(left: seq<byte>, n: nat, b: nat)
    requires b > 0 && n > WholePart(n, b) == |left|
    ensures Accounts(left, 0, n, b, left, [])
  {
    assert left + [] == left;
  }

  /** A request that starts with carried octets is a request for the others after them. */
  lemma AccountsAfter(carried: seq<byte>, left: seq<byte>, n: nat, b: nat, bytes: seq<byte>, remaining: seq<byte>)
    requires b > 0 && n >= |carried| && Accounts(left, 0, n - |carried|, b, bytes, remaining)
    ensures Accounts(carried + left, |carried|, n, b, carried + bytes, remaining)
  {
    assert carried + (bytes + remaining) == carried + bytes + remaining;
  }

  /** A request that carried octets alone can answer. */
  lemma AccountsCarried(carried: seq<byte>, left: seq<byte>, n: nat, b: nat)
    requires b > 0 && n <= |carried|
    ensures Accounts(carried + left, |carried|, n, b, carried[..n], carried[n..] + left)
  {
    assert carried[..n] + (carried[n..] + left) == carried + left;
  }

  lemma RequestAfterCarried(carried: seq<byte>, left: seq<byte>, n: nat, b: nat, bytes: seq<byte>,
                            remaining: seq<byte>)
    requires b > 0 && n > |carried| && Accounts(left, 0, n - |carried|, b, bytes, remaining)
    ensures Accounts(carried + left, |carried|, n, b, carried + bytes, remaining)
    ensures AfterRequest(0, left, n - |carried|, b) == AfterRequest(|carried|, left, n, b)
  {
    AccountsAfter(carried, left, n, b, bytes, remaining);
  }

  lemma FrontInFull(left: seq<byte>, q: nat)
    ensures |Front(left, q)| >= q ==> |left| >= q && Front(left, q) == left[..q] && Back(left, q) == left[q..]
  {
  }

  lemma CutInside(s: seq<byte>, from: nat, cut: nat, to: nat)
    requires from <= cut <= to <= |s|
    ensures s[from..cut] == s[from..to][..cut - from] && s[cut..to] == s[from..to][cut - from..]
  {
  }

  class InputFacade<Src(!new)> {
    const buffer: array<byte>
    const blockSize: nat
    var count: nat
    const readBlocks: (Src, nat) -> BlockOutcome<Src>
    var source: Src
    ghost const sound: Src -> bool
    ghost const contents: Src -> seq<byte>

    ghost predicate Valid()
      reads this, buffer
    {
      && 1 <= blockSize <= buffer.Length
      && count < blockSize
      && DeliversBlocks(readBlocks, sound, contents, blockSize)
    }

    ghost function Carried(): seq<byte>
      requires Valid()
      reads this, buffer
    {
      buffer[blockSize - count..blockSize]
    }

    /** The octets still to be read. */
    ghost function Remaining(): seq<byte>
      requires Valid()
      reads this, buffer
    {
      Carried() + contents(source)
    }

    constructor (maxBlockSize: nat, size: nat, blocks: (Src, nat) -> BlockOutcome<Src>, from: Src,
                 ghost soundSource: Src -> bool, ghost contentsOf: Src -> seq<byte>)
      requires 1 <= size <= maxBlockSize && DeliversBlocks(blocks, soundSource, contentsOf, size)
      ensures Valid() && fresh(buffer) && blockSize == size && readBlocks == blocks && source == from
      ensures sound == soundSource && contents == contentsOf && count == 0
    {
      buffer := new byte[maxBlockSize];
      blockSize, count := size, 0;
      readBlocks, source := blocks, from;
      sound, contents := soundSource, contentsOf;
    }

    method TakeCarried(n: nat) returns (out: seq<byte>)
      requires Valid()
      modifies this`count
      ensures Valid()
      ensures out == Front(old(Carried()), n) && Carried() == Back(old(Carried()), n)
    {
      var amt := if n < count then n else count;
      var start := blockSize - count;
      CutInside(buffer[..], start, start + amt, blockSize);
      out := buffer[start..start + amt];
      count := count - amt;
    }

    /** The whole blocks of a request, straight to the caller. */
    method ReadWhole(n: nat) returns (ok: bool, bytes: seq<byte>)
      requires Valid() && n >= blockSize
      modifies this`source
      ensures Valid() && |bytes| <= WholePart(n, blockSize)
      ensures sound(old(source)) ==>
                && ok && sound(source)
                && bytes == Front(contents(old(source)), WholePart(n, blockSize))
                && contents(source) == Back(contents(old(source)), WholePart(n, blockSize))
    {
      var request := n / blockSize;
      assert WholePart(n, blockSize) == request * blockSize;
      var res := readBlocks(source, request);
      if res.BadSequence? {
        return false, [];
      }
      source := res.rest;
      return true, res.bytes;
    }

    /** The part of a block at the end of a request: the block goes through the buffer. */
    method ReadPart(n: nat) returns (ok: bool, bytes: seq<byte>)
      requires Valid() && count == 0 && 0 < n < blockSize
      modifies this`count, this`source, buffer
      ensures Valid() && (bytes == [] || |bytes| == n)
      ensures sound(old(source)) ==> ok && sound(source) && contents(source) == Back(contents(old(source)), blockSize)
      ensures sound(old(source)) && contents(old(source)) == [] ==> bytes == [] && count == 0
      ensures sound(old(source)) && contents(old(source)) != [] ==> |bytes| == n && count == blockSize - n
      ensures sound(old(source)) && contents(old(source)) != [] ==>
                Front(contents(old(source)), blockSize) <= bytes + Carried()
    {
      var res := readBlocks(source, 1);
      if res.BadSequence? {
        return false, [];
      }
      source := res.rest;
      bytes := [];
      if |res.bytes| > 0 {
        forall i | 0 <= i < |res.bytes| {
          buffer[i] := res.bytes[i];
        }
        bytes := buffer[..n];
        count := blockSize - n;
        assert bytes + Carried() == buffer[..blockSize];
        assert buffer[..|res.bytes|] == res.bytes;
      }
      ok := true;
    }

    /** What follows the whole blocks of a request. */
    method ReadRest(ghost n: nat, rest: nat, whole: seq<byte>, ghost left: seq<byte>, ghost tracked: bool)
        returns (ok: bool, bytes: seq<byte>)
      requires Valid() && count == 0 && |whole| == WholePart(n, blockSize) && rest == n - |whole|
      requires tracked ==>
        sound(source) && |left| >= |whole| && whole == left[..|whole|] && contents(source) == left[|whole|..]
      modifies this`count, this`source, buffer
      ensures Valid()
      ensures tracked ==>
                && ok && sound(source)
                && Accounts(left, 0, n, blockSize, bytes, Remaining())
                && contents(source) == AfterRequest(0, left, n, blockSize)
    {
      ok, bytes := true, whole;
      if rest != 0 {
        var part;
        ok, part := ReadPart(rest);
        bytes := bytes + part;
        if tracked && |left| > |whole| {
          AccountsPart(left, n, blockSize, whole, part, Carried());
        } else if tracked {
          assert left == whole && part == [] && bytes == left && Remaining() == [];
          AccountsNone(left, n, blockSize);
        }
      } else if tracked {
        AccountsWhole(left, n, blockSize);
      }
    }

    /** A request that finds the buffer empty: whole blocks first, then part of one. */
    method ReadFromSource(n: nat) returns (ok: bool, bytes: seq<byte>)
      requires Valid() && count == 0
      modifies this`count, this`source, buffer
      ensures Valid()
      ensures sound(old(source)) ==>
                && ok && sound(source)
                && Accounts(contents(old(source)), 0, n, blockSize, bytes, Remaining())
                && contents(source) == AfterRequest(0, contents(old(source)), n, blockSize)
    {
      ghost var left, q := contents(source), WholePart(n, blockSize);
      var rest := n;
      bytes := [];
      if rest >= blockSize {
        ok, bytes := ReadWhole(rest);
        assert q == rest / blockSize * blockSize;
        if !ok || |bytes| < rest / blockSize * blockSize {
          if sound(old(source)) {
            AccountsWhole(left, n, blockSize);
          }
          return;
        }
        rest := rest - |bytes|;
        FrontInFull(left, q);
      } else {
        assert q == 0 && left[..0] == [] && left[0..] == left;
      }
      ok, bytes := ReadRest(n, rest, bytes, left, sound(old(source)));
    }

    /** A sound source is read in order without loss. Only a request that meets a short final block adds
        octets that were never there, after all the others: those that fill up the block. */
    method Read(n: nat) returns (r: ReadResult)
      requires Valid()
      modifies this`count, this`source, buffer
      ensures Valid()
      ensures sound(old(source)) ==> sound(source) && !r.Failed?
      ensures r.Bytes? ==> r.bytes != []
      ensures sound(old(source)) ==>
                Accounts(old(Remaining()), old(count), n, blockSize, Returned(r), Remaining())
      ensures sound(old(source)) ==>
                contents(source) == AfterRequest(old(count), contents(old(source)), n, blockSize)
    {
      var out, rest := [], n;
      if count != 0 {
        out := TakeCarried(rest);
        rest := rest - |out|;
      }
      ghost var carried, left := old(Carried()), contents(source);
      assert out == Front(carried, n) && (rest == 0 <==> n <= |carried|);
      if rest != 0 {
        var ok, bytes := ReadFromSource(rest);
        if !ok {
          return Failed;
        }
        if sound(old(source)) {
          RequestAfterCarried(carried, left, n, blockSize, bytes, Remaining());
        }
        out := out + bytes;
      } else {
        AccountsCarried(carried, left, n, blockSize);
      }
      r := if out != [] then Bytes(out) else EndOfFile;
    }
  }
}
