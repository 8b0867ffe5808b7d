/**
 * The statistics loop of the sniffer script (`loop`). While the capture pipe reports that it
 * is open, each tick drains the packets buffered by the sniffer, counts the tick, adds the
 * batch to the running packet total, and emits a status record when the sniffer's connection
 * flag differs from the one last recorded or the tick number is a multiple of 20.
 *
 * What the pipe and the sniffer answer on each tick is given as a trace of polls.
 */
module StatusLoop {

  /** What one tick observes: the pipe's open check, then the drained batch and the sniffer's state. */
  datatype Poll = Poll(isOpen: bool, batch: nat, inConnection: bool, missedPackets: int)

  /** One status record: `connected: ..., packets: ..., missed: ...`. */
  datatype Status = Status(connected: bool, packets: nat, missed: int)

  /** The loop's local state, and the records it has emitted so far. */
  datatype Stats = Stats(nLoops: nat, nPackets: nat, connected: bool, emitted: seq<Status>)

  /** How the loop ended: the pipe reported closed, or the trace ended while it was open (an interrupt). */
  datatype Exit = PipeClosed | Interrupted

  /** Ticks between two unconditional status records. */
  const Period: nat := 20

  const Initial: Stats := Stats(0, 0, false, [])

  // ---------------------------------------------------------------------------
  // Operational semantics: the loop body, one tick at a time.

  /** One tick of the loop body, given the open check succeeded. */
  function Step(s: Stats, p: Poll): (r: Stats)
    ensures r.nLoops == s.nLoops + 1 && r.nPackets == s.nPackets + p.batch
    ensures r.connected == p.inConnection
    ensures s.emitted <= r.emitted && |r.emitted| <= |s.emitted| + 1
  {
    var n := s.nLoops + 1;
    var total := s.nPackets + p.batch;
    if s.connected != p.inConnection || n % Period == 0 then
      Stats(n, total, p.inConnection, s.emitted + [Status(p.inConnection, total, p.missedPackets)])
    else
      Stats(n, total, s.connected, s.emitted)
  }

  /** The state after the first `k` polls of `trace` have each run one tick. */
  function Run(trace: seq<Poll>, k: nat): (r: Stats)
    requires k <= |trace|
    ensures r.nLoops == k
    ensures r.connected == PreviousFlag(trace, k)
    ensures |r.emitted| <= k
  {
    if k == 0 then Initial else Step(Run(trace, k - 1), trace[k - 1])
  }

  /** The number of ticks the loop completes: the polls before the first closed one. */
  function OpenTicks(trace: seq<Poll>): (n: nat)
    ensures n <= |trace|
    ensures forall j :: 0 <= j < n ==> trace[j].isOpen
    ensures n < |trace| ==> !trace[n].isOpen
  {
    if |trace| == 0 || !trace[0].isOpen then 0 else 1 + OpenTicks(trace[1..])
  }

  // ---------------------------------------------------------------------------
  // Reference definitions, independent of the loop's own bookkeeping.

  /** The sum of the batch lengths of `polls`. */
  function Total(polls: seq<Poll>): nat {
    if |polls| == 0 then 0 else Total(polls[..|polls| - 1]) + polls[|polls| - 1].batch
  }

  /** The connection flag the sniffer reported on the tick before tick `j + 1` (false before the first). */
  function PreviousFlag(trace: seq<Poll>, j: nat): bool
    requires j <= |trace|
  {
    if j == 0 then false else trace[j - 1].inConnection
  }

  /** Whether tick `j + 1` emits: the flag changed since the previous tick, or `j + 1` is a multiple of 20. */
  predicate EmitsAt(trace: seq<Poll>, j: nat)
    requires j < |trace|
  {
    trace[j].inConnection != PreviousFlag(trace, j) || (j + 1) % Period == 0
  }

  /** The records of the emitting ticks among the first `k`, each with the flag, running total and misses of its tick. */
  function Emissions(trace: seq<Poll>, k: nat): seq<Status>
    requires k <= |trace|
  {
    if k == 0 then []
    else
      var j := k - 1;
      Emissions(trace, j)
        + (if EmitsAt(trace, j) then [Status(trace[j].inConnection, Total(trace[..k]), trace[j].missedPackets)] else [])
  }

  /** After `k` ticks: `k` ticks counted, the batches summed, the latest flag recorded, the reference records emitted. */
  lemma {:induction false} RunClosedForm(trace: seq<Poll>, k: nat)
    requires k <= |trace|
    ensures Run(trace, k) == Stats(k, Total(trace[..k]), PreviousFlag(trace, k), Emissions(trace, k))
  {
    if k > 0 {
      RunClosedForm(trace, k - 1);
      assert trace[..k][..k - 1] == trace[..k - 1];
    }
  }

  // ---------------------------------------------------------------------------
  // The loop.

  /** `loop()`: ticks while the pipe is open; returns its counters, its records and why it stopped. */
  method Loop(trace: seq<Poll>)
    returns (nLoops: nat, nPackets: nat, connected: bool, emitted: seq<Status>, exit: Exit)
    ensures nLoops == OpenTicks(trace)
    ensures exit == PipeClosed <==> nLoops < |trace|
    ensures Stats(nLoops, nPackets, connected, emitted) == Run(trace, nLoops)
    ensures nPackets == Total(trace[..nLoops])
    ensures connected == PreviousFlag(trace, nLoops)
    ensures emitted == Emissions(trace, nLoops)
  {
    nLoops, nPackets, connected, emitted := 0, 0, false, [];
    while nLoops < |trace| && trace[nLoops].isOpen
      invariant nLoops <= |trace|
      invariant forall j :: 0 <= j < nLoops ==> trace[j].isOpen
      invariant Stats(nLoops, nPackets, connected, emitted) == Run(trace, nLoops)
    {
      var p := trace[nLoops];
      nLoops := nLoops + 1;
      nPackets := nPackets + p.batch;
      if connected != p.inConnection || nLoops % Period == 0 {
        connected := p.inConnection;
        emitted := emitted + [Status(p.inConnection, nPackets, p.missedPackets)];
      }
    }
    exit := if nLoops < |trace| then PipeClosed else Interrupted;
    RunClosedForm(trace, nLoops);
  }

  // ---------------------------------------------------------------------------
  // Properties of the loop.

  /** Tick `k + 1` emits exactly when the sniffer's flag differs from the recorded one or `k + 1` is a multiple of 20; the record carries the flag, the new total and the tick's misses. */
  lemma {:induction false} EmissionRule(trace: seq<Poll>, k: nat)
    requires k < |trace|
    ensures var before, after := Run(trace, k), Run(trace, k + 1);
      var emits := before.connected != trace[k].inConnection || (k + 1) % Period == 0;
      && (emits ==> after.emitted == before.emitted + [Status(trace[k].inConnection, after.nPackets, trace[k].missedPackets)])
      && (!emits ==> after.emitted == before.emitted)
  {
    RunClosedForm(trace, k);
  }

  /** The recorded flag changes only on emitting ticks; it is the flag of the last record, or false if none was emitted. */
  lemma {:induction false} ConnectedIsLastEmitted(trace: seq<Poll>, k: nat)
    requires k <= |trace|
    ensures var s := Run(trace, k);
      s.connected == if s.emitted == [] then false else s.emitted[|s.emitted| - 1].connected
  {
    if k > 0 {
      ConnectedIsLastEmitted(trace, k - 1);
    }
  }

  /** Records are only ever appended. */
  lemma {:induction false} EmittedGrows(trace: seq<Poll>, a: nat, b: nat)
    requires a <= b <= |trace|
    ensures Run(trace, a).emitted <= Run(trace, b).emitted
    decreases b - a
  {
    if a < b {
      EmittedGrows(trace, a, b - 1);
    }
  }

  /** Any 20 consecutive ticks emit at least one record. */
  lemma StatusAtLeastEveryPeriod(trace: seq<Poll>, a: nat)
    requires a + Period <= |trace|
    ensures |Run(trace, a).emitted| < |Run(trace, a + Period).emitted|
  {
    var j := a + (Period - 1 - a % Period);
    assert (j + 1) % Period == 0;
    EmittedGrows(trace, a, j);
    RunClosedForm(trace, j);
    EmittedGrows(trace, j + 1, a + Period);
  }

  /** `Run` reads only the polls it has ticked over. */
  lemma {:induction false} RunReadsPrefix(t1: seq<Poll>, t2: seq<Poll>, k: nat)
    requires k <= |t1| && k <= |t2| && t1[..k] == t2[..k]
    ensures Run(t1, k) == Run(t2, k)
  {
    if k > 0 {
      assert t1[k - 1] == t1[..k][k - 1] == t2[k - 1];
      assert t1[..k - 1] == t1[..k][..k - 1];
      assert t2[..k - 1] == t2[..k][..k - 1];
      RunReadsPrefix(t1, t2, k - 1);
    }
  }

  /** Once the pipe reports closed the loop stops: what the closed poll or any later one carries changes nothing. */
  lemma StopsAtFirstClosed(t1: seq<Poll>, t2: seq<Poll>)
    requires OpenTicks(t1) < |t1|
    requires OpenTicks(t1) < |t2| && t2[..OpenTicks(t1)] == t1[..OpenTicks(t1)] && !t2[OpenTicks(t1)].isOpen
    ensures OpenTicks(t2) == OpenTicks(t1)
    ensures Run(t2, OpenTicks(t2)) == Run(t1, OpenTicks(t1))
  {
    var n := OpenTicks(t1);
    forall j | 0 <= j < n
      ensures t2[j].isOpen
    {
      assert t2[j] == t2[..n][j] == t1[..n][j];
    }
    RunReadsPrefix(t1, t2, n);
  }

  /** Three ticks draining 3, 0 and 5 packets relay 8 packets in all. */
  lemma ThreeBatches(c1: bool, c2: bool, c3: bool, m1: int, m2: int, m3: int, last: Poll)
    requires !last.isOpen
    ensures var t := [Poll(true, 3, c1, m1), Poll(true, 0, c2, m2), Poll(true, 5, c3, m3), last];
      OpenTicks(t) == 3 && Run(t, 3).nPackets == 8
  {
    var t := [Poll(true, 3, c1, m1), Poll(true, 0, c2, m2), Poll(true, 5, c3, m3), last];
    var n := OpenTicks(t);
    assert n != 0 && n != 1 && n != 2 && n != 4 by {
      assert t[0].isOpen && t[1].isOpen && t[2].isOpen && !t[3].isOpen;
    }
    RunClosedForm(t, 3);
    assert t[..3][..2] == t[..2] && t[..2][..1] == t[..1] && t[..1][..0] == [];
    assert Total(t[..1]) == 3 && Total(t[..2]) == 3;
  }

  /** Ticks that do not emit leave the reference records unchanged. */
  lemma {:induction false} QuietTicks(trace: seq<Poll>, a: nat, b: nat)
    requires a <= b <= |trace|
    requires forall j :: a <= j < b ==> !EmitsAt(trace, j)
    ensures Emissions(trace, b) == Emissions(trace, a)
    decreases b - a
  {
    if a < b {
      QuietTicks(trace, a, b - 1);
    }
  }

  /** Twenty-five open ticks without a connection, then a closed pipe: one periodic record at tick 20, and none after. */
  lemma TwentyFiveTicks(trace: seq<Poll>)
    requires |trace| == 26 && !trace[25].isOpen
    requires forall j :: 0 <= j < 25 ==> trace[j].isOpen && !trace[j].inConnection
    ensures OpenTicks(trace) == 25
    ensures Run(trace, 25).emitted == [Status(false, Total(trace[..20]), trace[19].missedPackets)]
  {
    assert forall j :: 0 <= j < 25 && j != 19 ==> !EmitsAt(trace, j);
    QuietTicks(trace, 0, 19);
    QuietTicks(trace, 20, 25);
    RunClosedForm(trace, 25);
  }
}
