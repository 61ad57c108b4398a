/**
 * The identifier generator of utils/id_generator.go: a timestamp in the high
 * bits and a per-millisecond sequence number in the low 22 bits.
 *
 * The clock reading `time.Now().UnixNano() / 1000000` is a parameter `now`.
 * Go's `int64` fields are the subset type Int64; `uint64(x)` is `x` modulo
 * 2^64. The composition `(uint64(now) << 22) | (uint64(seq) & 0x3FFFFF)`
 * ORs two disjoint bit fields, so it equals their sum, which is how
 * ComposeId writes it; a left shift by 22 of a 64-bit value keeps the low 42
 * bits of that value (ShiftKeepsLowBits).
 */
module IdGenerator {

  const INT64_MIN: int := -0x8000_0000_0000_0000
  const INT64_MAX: int := 0x7FFF_FFFF_FFFF_FFFF
  const TWO_22: nat := 0x40_0000
  const TWO_42: nat := 0x400_0000_0000
  const TWO_64: nat := 0x1_0000_0000_0000_0000

  type Int64 = x: int | INT64_MIN <= x <= INT64_MAX

  /** Go's `uint64(x)` conversion of a signed value. */
  function Uint64(x: int): (u: nat)
    ensures u < TWO_64
  {
    x % TWO_64
  }

  /** Go's `sequence++` on an int64: wraps from the largest value to the smallest. */
  function Inc64(x: Int64): (y: Int64)
    ensures (y - x - 1) % TWO_64 == 0
    ensures x < INT64_MAX ==> y == x + 1
  {
    if x == INT64_MAX then INT64_MIN else x + 1
  }

  /** `(uint64(now) << 22) | (uint64(sequence) & 0x3FFFFF)` as a number below 2^64. */
  function ComposeId(now: Int64, sequence: Int64): (id: nat)
    ensures id < TWO_64
  {
    (Uint64(now) % TWO_42) * TWO_22 + Uint64(sequence) % TWO_22
  }

  /** `u << 22` on a uint64 is `u * 2^22` modulo 2^64, which is what ComposeId keeps of `u`. */
  lemma ShiftKeepsLowBits(u: nat)
    requires u < TWO_64
    ensures (u * TWO_22) % TWO_64 == (u % TWO_42) * TWO_22
  {
    var q, r := u / TWO_42, u % TWO_42;
    assert u * TWO_22 == q * TWO_64 + r * TWO_22;
    assert 0 <= r * TWO_22 < TWO_64;
  }

  /** The generator's two fields. */
  datatype GenState = GenState(lastTimestamp: Int64, sequence: Int64)

  /** The state after one call at clock reading `now` (lines 20-25). */
  function Next(g: GenState, now: Int64): (h: GenState)
    ensures h.lastTimestamp == now
  {
    if now == g.lastTimestamp then GenState(g.lastTimestamp, Inc64(g.sequence))
    else GenState(now, 0)
  }

  /** The id one call at `now` returns from state `g` (line 28). */
  function IssuedId(g: GenState, now: Int64): nat
  {
    ComposeId(now, Next(g, now).sequence)
  }

  /** The state after a series of calls at the clock readings `nows`, in order. */
  function After(g: GenState, nows: seq<Int64>): GenState
    decreases |nows|
  {
    if nows == [] then g else Next(After(g, nows[..|nows| - 1]), nows[|nows| - 1])
  }

  /** The ids a series of calls returns, one per clock reading. */
  function Issued(g: GenState, nows: seq<Int64>): (ids: seq<nat>)
    ensures |ids| == |nows|
    decreases |nows|
  {
    if nows == [] then []
    else
      var prefix := nows[..|nows| - 1];
      Issued(g, prefix) + [IssuedId(After(g, prefix), nows[|nows| - 1])]
  }

  /** `n` clock readings all equal to `t`. */
  function Repeat(t: Int64, n: nat): (s: seq<Int64>)
    ensures |s| == n && forall k :: 0 <= k < n ==> s[k] == t
  {
    seq(n, _ => t)
  }

  /**
   * The shared generator object (`generator` at line 13). Its fields are
   * updated in place by every call.
   */
  class IDGenerator {
    var lastTimestamp: Int64
    var sequence: Int64

    function State(): GenState
      reads this
    {
      GenState(lastTimestamp, sequence)
    }

    /** Go zero-initialises the package-level generator. */
    constructor ()
      ensures State() == GenState(0, 0)
    {
      lastTimestamp := 0;
      sequence := 0;
    }

    /** GenerateID with the clock reading passed in. */
    method GenerateID(now: Int64) returns (id: nat)
      modifies this
      ensures now == old(lastTimestamp) ==>
                lastTimestamp == old(lastTimestamp) && sequence == Inc64(old(sequence))
      ensures now != old(lastTimestamp) ==> lastTimestamp == now && sequence == 0
      ensures id == ComposeId(now, sequence) && id < TWO_64
      ensures State() == Next(old(State()), now) && id == IssuedId(old(State()), now)
    {
      if now == lastTimestamp {
        sequence := Inc64(sequence);
      } else {
        sequence := 0;
        lastTimestamp := now;
      }
      id := ComposeId(now, sequence);
    }
  }

  /**
   * For a timestamp that fits in 42 bits, the id decodes back: the high bits
   * are `now` and the low 22 bits are `sequence & 0x3FFFFF`.
   */
  lemma ComposeIdDecodes(now: Int64, sequence: Int64)
    requires 0 <= now < TWO_42
    ensures ComposeId(now, sequence) / TWO_22 == now
    ensures ComposeId(now, sequence) % TWO_22 == sequence % TWO_22
    ensures ComposeId(now, sequence) == now * TWO_22 + sequence % TWO_22
  {
    var low := Uint64(sequence) % 0x40_0000;
    assert Uint64(sequence) == sequence % TWO_64;
    assert low == sequence % TWO_22;
    assert now * 0x40_0000 < TWO_64;
    assert Uint64(now) == now;
    assert ComposeId(now, sequence) == now * 0x40_0000 + low;
  }

  /** Every id issued at `now` lies in `now`'s block of 2^22 ids. */
  lemma ComposeIdInBlock(now: Int64, sequence: Int64)
    requires 0 <= now < TWO_42
    ensures now * TWO_22 <= ComposeId(now, sequence) < (now + 1) * TWO_22
  {
    ComposeIdDecodes(now, sequence);
  }

  /** The i-th id of a series is the id issued from the state the first i calls left. */
  lemma {:induction false} IssuedAt(g: GenState, nows: seq<Int64>, i: nat)
    requires i < |nows|
    ensures Issued(g, nows)[i] == IssuedId(After(g, nows[..i]), nows[i])
    ensures After(g, nows[..i + 1]) == Next(After(g, nows[..i]), nows[i])
    decreases |nows|
  {
    var n := |nows|;
    var prefix := nows[..n - 1];
    assert nows[..i + 1][..i] == nows[..i];
    if i < n - 1 {
      IssuedAt(g, prefix, i);
      assert prefix[..i] == nows[..i];
    } else {
      assert prefix == nows[..i];
    }
  }

  /**
   * Calls within one fresh millisecond number their ids 0, 1, 2, ...: after
   * n calls the sequence is n - 1 and the k-th id is ComposeId(t, k). This holds
   * up to and including the 2^22-th extra call.
   */
  lemma {:induction false} SameMillisecondIds(g: GenState, t: Int64, n: nat)
    requires g.lastTimestamp != t
    requires 1 <= n <= TWO_22 + 1
    ensures After(g, Repeat(t, n)) == GenState(t, n - 1)
    ensures forall k :: 0 <= k < n ==> Issued(g, Repeat(t, n))[k] == ComposeId(t, k)
  {
    var nows := Repeat(t, n);
    if n == 1 {
      assert nows[..0] == [];
    } else {
      SameMillisecondIds(g, t, n - 1);
      assert nows[..n - 1] == Repeat(t, n - 1);
    }
  }

  /** Fewer than 2^22 calls within one millisecond return strictly increasing ids. */
  lemma SameMillisecondIdsIncrease(g: GenState, t: Int64, n: nat)
    requires 0 <= t < TWO_42
    requires g.lastTimestamp != t
    requires n <= TWO_22
    ensures forall i, j :: 0 <= i < j < n ==> Issued(g, Repeat(t, n))[i] < Issued(g, Repeat(t, n))[j]
  {
    if n > 0 {
      var ids := Issued(g, Repeat(t, n));
      SameMillisecondIds(g, t, n);
      forall k | 0 <= k < n
        ensures ids[k] == t * TWO_22 + k
      {
        ComposeIdDecodes(t, k);
      }
    }
  }

  /** Calls at strictly increasing clock readings return strictly increasing ids. */
  lemma IncreasingClockIds(g: GenState, nows: seq<Int64>)
    requires forall i :: 0 <= i < |nows| ==> 0 <= nows[i] < TWO_42
    requires forall i, j :: 0 <= i < j < |nows| ==> nows[i] < nows[j]
    ensures forall i, j :: 0 <= i < j < |nows| ==> Issued(g, nows)[i] < Issued(g, nows)[j]
  {
    var ids := Issued(g, nows);
    forall i | 0 <= i < |nows|
      ensures nows[i] * TWO_22 <= ids[i] < (nows[i] + 1) * TWO_22
    {
      IssuedAt(g, nows, i);
      ComposeIdInBlock(nows[i], Next(After(g, nows[..i]), nows[i]).sequence);
    }
  }

  /**
   * Under a clock that never goes backwards, starting after the generator's
   * last timestamp, the i-th call's sequence is its distance from the first
   * call of its millisecond.
   */
  lemma {:induction false} RunSequence(g: GenState, nows: seq<Int64>, i: nat) returns (start: nat)
    requires i < |nows|
    requires forall a, b :: 0 <= a < b < |nows| ==> nows[a] <= nows[b]
    requires g.lastTimestamp < nows[0]
    requires forall a, b :: 0 <= a <= b < |nows| && nows[a] == nows[b] ==> b - a < TWO_22
    ensures start <= i && nows[start] == nows[i]
    ensures After(g, nows[..i + 1]) == GenState(nows[i], i - start)
  {
    IssuedAt(g, nows, i);
    if i == 0 {
      assert nows[..0] == [];
      start := 0;
    } else {
      var s := RunSequence(g, nows, i - 1);
      if nows[i] == nows[i - 1] {
        start := s;
      } else {
        start := i;
      }
    }
  }

  /**
   * The uniqueness guarantee: if the clock never goes backwards, starts after
   * the generator's last timestamp, stays below 2^42, and no millisecond sees
   * more than 2^22 calls, the ids strictly increase and so are pairwise distinct.
   */
  lemma MonotoneClockIdsIncrease(g: GenState, nows: seq<Int64>)
    requires forall i :: 0 <= i < |nows| ==> 0 <= nows[i] < TWO_42
    requires forall a, b :: 0 <= a < b < |nows| ==> nows[a] <= nows[b]
    requires |nows| > 0 ==> g.lastTimestamp < nows[0]
    requires forall a, b :: 0 <= a <= b < |nows| && nows[a] == nows[b] ==> b - a < TWO_22
    ensures forall i, j :: 0 <= i < j < |nows| ==> Issued(g, nows)[i] < Issued(g, nows)[j]
  {
    var ids := Issued(g, nows);
    forall i | 0 <= i < |nows| - 1
      ensures ids[i] < ids[i + 1]
    {
      NeighbourIdsIncrease(g, nows, i);
    }
    ChainIncreases(ids);
  }

  /** One step of MonotoneClockIdsIncrease: the next call's id is larger. */
  lemma NeighbourIdsIncrease(g: GenState, nows: seq<Int64>, i: nat)
    requires i + 1 < |nows|
    requires forall i :: 0 <= i < |nows| ==> 0 <= nows[i] < TWO_42
    requires forall a, b :: 0 <= a < b < |nows| ==> nows[a] <= nows[b]
    requires g.lastTimestamp < nows[0]
    requires forall a, b :: 0 <= a <= b < |nows| && nows[a] == nows[b] ==> b - a < TWO_22
    ensures Issued(g, nows)[i] < Issued(g, nows)[i + 1]
  {
    var s0 := RunSequence(g, nows, i);
    IssuedAt(g, nows, i);
    IssuedAt(g, nows, i + 1);
    if nows[i + 1] == nows[i] {
      assert nows[s0] == nows[i + 1];
    }
    StepIncreases(nows[i], i - s0, nows[i + 1]);
  }

  /** From state (t0, k), a call at a reading t1 >= t0 issues an id above ComposeId(t0, k). */
  lemma StepIncreases(t0: Int64, k: Int64, t1: Int64)
    requires 0 <= t0 <= t1 < TWO_42
    requires 0 <= k
    requires t1 == t0 ==> k + 1 < TWO_22
    ensures ComposeId(t0, k) < IssuedId(GenState(t0, k), t1)
  {
    if t1 == t0 {
      ComposeIdDecodes(t0, k);
      ComposeIdDecodes(t0, k + 1);
    } else {
      ComposeIdInBlock(t0, k);
      ComposeIdInBlock(t1, 0);
    }
  }

  /** A sequence whose neighbours increase is strictly increasing. */
  lemma {:induction false} ChainIncreases(s: seq<nat>)
    requires forall i :: 0 <= i < |s| - 1 ==> s[i] < s[i + 1]
    ensures forall i, j :: 0 <= i < j < |s| ==> s[i] < s[j]
  {
    if |s| > 1 {
      ChainIncreases(s[1..]);
      forall i, j | 0 <= i < j < |s|
        ensures s[i] < s[j]
      {
        if i > 0 {
          assert s[i] == s[1..][i - 1] && s[j] == s[1..][j - 1];
        } else if j > 1 {
          assert s[1] == s[1..][0] && s[j] == s[1..][j - 1];
        }
      }
    }
  }

  /**
   * Known flaw: the 2^22-th extra call within one millisecond wraps the low
   * bits and repeats the millisecond's first id.
   */
  lemma SequenceWrapRepeatsId(g: GenState, t: Int64)
    requires g.lastTimestamp != t
    ensures Issued(g, Repeat(t, TWO_22 + 1))[TWO_22] == Issued(g, Repeat(t, TWO_22 + 1))[0]
  {
    SameMillisecondIds(g, t, TWO_22 + 1);
  }

  /**
   * Known flaw: a clock that moves forward and then back to a millisecond
   * already used reissues that millisecond's first id.
   */
  lemma ClockRollbackReissuesId(g: GenState, t1: Int64, t2: Int64)
    requires g.lastTimestamp != t1 && t1 < t2
    ensures Issued(g, [t1, t2, t1])[2] == Issued(g, [t1, t2, t1])[0]
  {
    var nows := [t1, t2, t1];
    IssuedAt(g, nows, 0);
    IssuedAt(g, nows, 1);
    IssuedAt(g, nows, 2);
    assert nows[..0] == [];
  }
}
