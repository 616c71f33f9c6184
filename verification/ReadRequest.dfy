/** The completion condition of listenForPayload. The asynchronous read calls it first with 0 and then,
    after each transfer, with the total transferred so far; the read completes when it returns 0. */
module ReadRequest {
  const MODULUS: nat := 0x1_0000_0000   // std::size_t of the 32-bit target
  const BUFFER_SIZE: nat := 16 * 1024

  function SizeAfter(size: nat, transferred: nat): nat {
    (size - transferred) % MODULUS
  }

  class ReadRequest {
    var mCurrentMessageSize: nat

    constructor (iNumberOfBytes: nat)
      requires iNumberOfBytes < MODULUS
      ensures mCurrentMessageSize == iNumberOfBytes
    {
      mCurrentMessageSize := iNumberOfBytes;
    }

    method CompletionCondition(iError: bool, iBytesTransfered: nat) returns (more: nat)
      modifies this
      ensures mCurrentMessageSize ==
              if iError then old(mCurrentMessageSize)
              else (old(mCurrentMessageSize) - iBytesTransfered) % 0x1_0000_0000
      ensures more == if iError then 0 else mCurrentMessageSize
    {
      if !iError {
        mCurrentMessageSize := (mCurrentMessageSize - iBytesTransfered) % MODULUS;
        more := mCurrentMessageSize;
      } else {
        more := 0;
      }
    }
  }

  function Total(transfers: seq<nat>): nat {
    if transfers == [] then 0 else Total(transfers[..|transfers| - 1]) + transfers[|transfers| - 1]
  }

  /** The counter of a request for n octets after these transfers, none of which failed. */
  function Counter(n: nat, transfers: seq<nat>): nat {
    if transfers == [] then SizeAfter(n, 0)
    else SizeAfter(Counter(n, transfers[..|transfers| - 1]), Total(transfers))
  }

  /** The read completes with the last of these transfers, not before. */
  ghost predicate CompletesWith(n: nat, transfers: seq<nat>) {
    && Counter(n, transfers) == 0
    && forall k :: 0 <= k < |transfers| ==> Counter(n, transfers[..k]) != 0
  }

  function SumOfTotals(transfers: seq<nat>): nat {
    if transfers == [] then 0 else SumOfTotals(transfers[..|transfers| - 1]) + Total(transfers)
  }

  lemma Reduced(a: int, t: int)
    ensures (a % MODULUS - t) % MODULUS == (a - t) % MODULUS
  {
    assert a == MODULUS * (a / MODULUS) + a % MODULUS;
  }

  lemma {:induction false} CounterIsRemainder(n: nat, transfers: seq<nat>)
    requires n < MODULUS
    ensures Counter(n, transfers) == (n - SumOfTotals(transfers)) % MODULUS
  {
    if transfers != [] {
      var init := transfers[..|transfers| - 1];
      CounterIsRemainder(n, init);
      var a, t := n - SumOfTotals(init), Total(transfers);
      Reduced(a, t);
    }
  }

  lemma {:induction false} TotalsGrow(transfers: seq<nat>)
    requires forall i :: 0 <= i < |transfers| ==> transfers[i] > 0
    ensures |transfers| <= Total(transfers)
    ensures Total(transfers) <= BUFFER_SIZE ==> SumOfTotals(transfers) <= BUFFER_SIZE * |transfers|
    ensures transfers != [] ==> transfers[0] <= Total(transfers) <= SumOfTotals(transfers)
  {
    if transfers != [] {
      TotalsGrow(transfers[..|transfers| - 1]);
    }
  }

  lemma Negative(sum: int)
    requires 0 < sum < MODULUS
    ensures (0 - sum) % MODULUS == MODULUS - sum
  {
  }

  /** Once the total has been subtracted for more than one transfer, the counter has passed zero. */
  lemma LaterTransfersOvershoot(n: nat, transfers: seq<nat>)
    requires n <= BUFFER_SIZE
    requires |transfers| > 1 && forall i :: 0 <= i < |transfers| ==> transfers[i] > 0
    requires Total(transfers) == n
    ensures Counter(n, transfers) != 0
  {
    var sum: int := SumOfTotals(transfers[..|transfers| - 1]);
    TotalsGrow(transfers[..|transfers| - 1]);
    CounterIsRemainder(n, transfers);
    assert n - SumOfTotals(transfers) == 0 - sum;
    Negative(sum);
  }

  lemma FirstTransfer(n: nat, t: nat)
    requires n < MODULUS
    ensures Total([t]) == t && Counter(n, [t]) == SizeAfter(n, t)
  {
    assert [t][..0] == [];
    assert Counter(n, []) == n;
  }

  /** A request of at most the buffer size completes with exactly the octets asked for if and only if the
      first transfer already brings all of them. */
  lemma ExactIffFilledAtOnce(n: nat, transfers: seq<nat>)
    requires 0 < n <= BUFFER_SIZE
    requires transfers != [] && forall i :: 0 <= i < |transfers| ==> transfers[i] > 0
    requires CompletesWith(n, transfers)
    ensures Total(transfers) == n <==> transfers[0] == n
  {
    FirstTransfer(n, transfers[0]);
    assert transfers[..1] == [transfers[0]];
    if |transfers| == 1 {
      assert transfers == transfers[..1];
    } else {
      assert Counter(n, transfers[..1]) != 0;
      if Total(transfers) == n {
        LaterTransfersOvershoot(n, transfers);
      }
    }
  }

  /** Three transfers of a read of ten octets, and two that pass zero: the counter wraps round. */
  lemma CounterExamples()
    ensures Counter(10, [1]) == 9 && Counter(10, [1, 2]) == 6 && Counter(10, [1, 2, 3]) == 0
    ensures Counter(2, [1, 3]) == 0xFFFF_FFFD
  {
    assert [1, 2, 3][..2] == [1, 2] && [1, 2][..1] == [1] && [1][..0] == [] && [1, 3][..1] == [1];
    assert Total([1]) == 1 && Total([1, 2]) == 3 && Total([1, 2, 3]) == 6 && Total([1, 3]) == 4;
    assert Counter(10, []) == 10 && Counter(2, []) == 2 && Counter(2, [1]) == 1;
  }

  /** A request can even complete short: four octets asked for, one and then two transferred. */
  lemma CompletesShort()
    ensures CompletesWith(4, [1, 2]) && Total([1, 2]) == 3
  {
    assert [1, 2][..1] == [1] && [1, 2][..0] == [] && [1][..0] == [];
    assert Total([1]) == 1 && Counter(4, []) == 4 && Counter(4, [1]) == 3;
  }

  lemma PrefixOfPrefix(transfers: seq<nat>, k: nat)
    requires k < |transfers|
    ensures transfers[..k + 1][..k] == transfers[..k] && transfers[..k + 1][k] == transfers[k]
  {
  }

  /** The read itself, over the transfers that could take place: the condition is called with 0 and then with
      the total after each transfer, until it returns 0. */
  method Read(n: nat, transfers: seq<nat>) returns (completed: bool, used: nat)
    requires n < MODULUS
    ensures used <= |transfers|
    ensures completed <==> CompletesWith(n, transfers[..used])
    ensures !completed ==> used == |transfers| && forall k :: 0 <= k <= |transfers| ==> Counter(n, transfers[..k]) != 0
  {
    var request := new ReadRequest(n);
    var more := request.CompletionCondition(false, 0);
    var total := 0;
    used := 0;
    while more != 0 && used < |transfers|
      invariant fresh(request) && used <= |transfers| && total == Total(transfers[..used])
      invariant more == request.mCurrentMessageSize == Counter(n, transfers[..used])
      invariant forall k :: 0 <= k < used ==> Counter(n, transfers[..k]) != 0
      decreases |transfers| - used
    {
      PrefixOfPrefix(transfers, used);
      total := total + transfers[used];
      more := request.CompletionCondition(false, total);
      used := used + 1;
    }
    completed := more == 0;
    assert forall k :: 0 <= k < used ==> transfers[..used][..k] == transfers[..k];
  }

  /** A read that completes, seen from outside: it is exact if and only if its first transfer fills it. */
  method ReadExactly(n: nat, transfers: seq<nat>) returns (completed: bool, used: nat)
    requires 0 < n <= BUFFER_SIZE && forall i :: 0 <= i < |transfers| ==> transfers[i] > 0
    ensures used <= |transfers| && (completed ==> used > 0)
    ensures completed ==> (Total(transfers[..used]) == n <==> transfers[0] == n)
  {
    completed, used := Read(n, transfers);
    if completed {
      assert Counter(n, []) == n && transfers[..0] == [];
      ExactIffFilledAtOnce(n, transfers[..used]);
    }
  }
}
