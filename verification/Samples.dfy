/** pkg/sys/perf/monitor.go: collecting samples from the ring buffers of several CPUs, holding
    some back, and dispatching each batch in time order. */
module Samples {
  import opened Api

  datatype Sample = Sample(streamID: nat, time: uint64, record: int)

  datatype Group = Group(timeBase: uint64, timeOffset: uint64)

  /** A descriptor that poll reports, and the samples its ring buffer yields when read. */
  datatype Ready = Ready(group: Group, read: seq<Sample>)

  /** A sample's time on the common clock, in uint64 arithmetic. */
  function Normalize(g: Group, s: Sample): Sample {
    s.(time := (g.timeBase + (s.time - g.timeOffset) % TWO_TO_THE_64) % TWO_TO_THE_64)
  }

  lemma Wrapped(x: int)
    requires -TWO_TO_THE_64 <= x < 2 * TWO_TO_THE_64
    ensures x % TWO_TO_THE_64 ==
              if x < 0 then x + TWO_TO_THE_64 else if x < TWO_TO_THE_64 then x else x - TWO_TO_THE_64
  {
  }

  /** No overflow in normalizing a sample's time. */
  predicate Fits(g: Group, s: Sample) {
    g.timeOffset <= s.time && g.timeBase + (s.time - g.timeOffset) < TWO_TO_THE_64
  }

  /** In wrapping arithmetic a normalized time is the time moved by base - offset. */
  lemma NormalizedTime(g: Group, s: Sample)
    ensures var moved := g.timeBase + (s.time - g.timeOffset);
            && Normalize(g, s).time - moved in {-TWO_TO_THE_64, 0, TWO_TO_THE_64}
            && (Fits(g, s) ==> Normalize(g, s).time == moved)
  {
    Wrapped(s.time - g.timeOffset);
    Wrapped(g.timeBase + (s.time - g.timeOffset) % TWO_TO_THE_64);
  }

  /** Normalizing moves a group's clock: the sample taken at the group's offset gets its base, the
      distance between any two samples stays the same, and, short of an overflow, so does their
      order. */
  lemma NormalizeMovesTheClock(g: Group, a: Sample, b: Sample)
    ensures a.time == g.timeOffset ==> Normalize(g, a).time == g.timeBase
    ensures (Normalize(g, a).time - Normalize(g, b).time) % TWO_TO_THE_64 == (a.time - b.time) % TWO_TO_THE_64
    ensures Fits(g, a) && Fits(g, b) ==> (Normalize(g, a).time <= Normalize(g, b).time <==> a.time <= b.time)
    ensures Normalize(g, a).streamID == a.streamID && Normalize(g, a).record == a.record
  {
    NormalizedTime(g, a);
    NormalizedTime(g, b);
    SameRest(Normalize(g, a).time, Normalize(g, b).time, a.time, b.time);
  }

  lemma SameRest(x: uint64, y: uint64, a: uint64, b: uint64)
    requires (x - y) - (a - b) in {-2 * TWO_TO_THE_64, -TWO_TO_THE_64, 0, TWO_TO_THE_64, 2 * TWO_TO_THE_64}
    ensures (x - y) % TWO_TO_THE_64 == (a - b) % TWO_TO_THE_64
  {
    Wrapped(x - y);
    Wrapped(a - b);
  }

  function NormalizeAll(g: Group, read: seq<Sample>): (all: seq<Sample>)
    ensures |all| == |read| && forall i :: 0 <= i < |read| ==> all[i] == Normalize(g, read[i])
  {
    seq(|read|, i requires 0 <= i < |read| => Normalize(g, read[i]))
  }

  /** Every sample read in one pass over the first n ready descriptors. */
  function AllRead(ready: seq<Ready>, n: nat): seq<Sample>
    requires n <= |ready|
  {
    if n == 0 then [] else AllRead(ready, n - 1) + NormalizeAll(ready[n - 1].group, ready[n - 1].read)
  }

  function Flatten(batches: seq<seq<Sample>>): seq<Sample> {
    if batches == [] then [] else Flatten(batches[..|batches| - 1]) + batches[|batches| - 1]
  }

  lemma FlattenAppend(batches: seq<seq<Sample>>, batch: seq<Sample>)
    ensures Flatten(batches + [batch]) == Flatten(batches) + batch
  {
    assert (batches + [batch])[..|batches|] == batches;
  }

  /** How many samples from place i on are later than a given time. */
  function CountLater(samples: seq<Sample>, i: nat, time: uint64): nat
    decreases |samples| - i
  {
    if i >= |samples| then 0
    else (if samples[i].time > time then 1 else 0) + CountLater(samples, i + 1, time)
  }

  ghost function LaterPlaces(samples: seq<Sample>, i: nat, time: uint64): set<nat> {
    set j: nat | i <= j < |samples| && samples[j].time > time
  }

  lemma {:induction false} LaterAreCounted(samples: seq<Sample>, i: nat, time: uint64)
    ensures CountLater(samples, i, time) == |LaterPlaces(samples, i, time)|
    decreases |samples| - i
  {
    if i < |samples| {
      LaterAreCounted(samples, i + 1, time);
      assert LaterPlaces(samples, i, time)
          == (if samples[i].time > time then {i} else {}) + LaterPlaces(samples, i + 1, time);
    } else {
      assert LaterPlaces(samples, i, time) == {};
    }
  }

  lemma SplitKeepsAll(read: seq<Sample>, x: nat, held: seq<Sample>)
    requires x <= |read|
    ensures multiset(read[..x]) + multiset(held + read[x..]) == multiset(read) + multiset(held)
  {
    assert read == read[..x] + read[x..];
  }

  class Collector {
    var samples: seq<Sample>
    var pendingSamples: seq<Sample>
    var dispatchChan: seq<seq<Sample>>   // the batches sent so far
    ghost var received: seq<Sample>      // everything ever read from a ring buffer

    /** Between calls nothing is held back, and what was sent is what was read. */
    ghost predicate Valid()
      reads this
    {
      && samples == [] && pendingSamples == []
      && multiset(Flatten(dispatchChan)) == multiset(received)
    }

    constructor ()
      ensures Valid() && dispatchChan == [] && received == []
    {
      samples, pendingSamples, dispatchChan, received := [], [], [], [];
    }

    /** Append what one ring buffer yields, then move its samples to the common clock. */
    method ReadSamples(r: Ready)
      modifies this`samples
      ensures samples == old(samples) + NormalizeAll(r.group, r.read)
    {
      var first := |samples|;
      samples := samples + r.read;
      for i := first to |samples|
        invariant |samples| == first + |r.read|
        invariant forall k :: 0 <= k < first ==> samples[k] == old(samples)[k]
        invariant forall k :: first <= k < i ==> samples[k] == Normalize(r.group, r.read[k - first])
        invariant forall k :: i <= k < |samples| ==> samples[k] == r.read[k - first]
      {
        samples := samples[i := Normalize(r.group, samples[i])];
      }
    }

    /** Move some of the newest samples to the pending list: as many as are later than
        lastTimestamp, not counting the first of them. */
    method HoldBack(lastTimestamp: uint64, lastIndex: nat)
      requires 0 < lastIndex <= |samples|
      modifies this`samples, this`pendingSamples
      ensures 0 < |samples| <= |old(samples)|
      ensures |samples| == |old(samples)| - CountLater(old(samples), lastIndex + 1, lastTimestamp)
      ensures samples == old(samples)[..|samples|]
      ensures pendingSamples == old(pendingSamples) + old(samples)[|samples|..]
    {
      var x := |samples|;
      var i := x - 1;
      while i > lastIndex
        invariant i < |samples|
        invariant lastIndex <= i || (x == |samples| && i == lastIndex - 1)
        invariant x == |samples| - CountLater(samples, i + 1, lastTimestamp)
        invariant |samples| - x <= |samples| - 1 - i
      {
        if samples[i].time > lastTimestamp {
          x := x - 1;
        }
        i := i - 1;
      }
      if x != |samples| {
        pendingSamples := pendingSamples + samples[x..];
        samples := samples[..x];
      } else {
        assert samples[x..] == [];
      }
    }

    /** Read one ring buffer. The first that yields anything sets the time that the others'
        samples are compared with. */
    method GatherOne(r: Ready, lastTimestamp: uint64) returns (newTimestamp: uint64)
      modifies this`samples, this`pendingSamples
      ensures var was, all := old(samples), old(samples) + NormalizeAll(r.group, r.read);
              var held := if was == [] then 0 else CountLater(all, |was| + 1, lastTimestamp);
              && held <= |all|
              && samples == all[..|all| - held]
              && pendingSamples == old(pendingSamples) + all[|all| - held..]
              && newTimestamp == if was == [] && all != [] then all[|all| - 1].time else lastTimestamp
      ensures samples == [] <==> old(samples) == [] && r.read == []
      ensures samples == [] ==> pendingSamples == old(pendingSamples)
      ensures multiset(samples) + multiset(pendingSamples)
           == multiset(old(samples)) + multiset(old(pendingSamples)) + multiset(NormalizeAll(r.group, r.read))
    {
      newTimestamp := lastTimestamp;
      var lastIndex := |samples|;        // always the length after the previous buffer
      ReadSamples(r);
      ghost var read := samples;
      assert multiset(read) == multiset(old(samples)) + multiset(NormalizeAll(r.group, r.read));
      if lastIndex == 0 {
        if |samples| > 0 {
          newTimestamp := samples[|samples| - 1].time;
        }
      } else {
        HoldBack(lastTimestamp, lastIndex);
        SplitKeepsAll(read, |samples|, old(pendingSamples));
      }
    }

    /** Read every ready ring buffer, holding back what looks too new. */
    method Gather(ready: seq<Ready>)
      requires samples == []
      modifies this`samples, this`pendingSamples
      ensures samples == [] <==> AllRead(ready, |ready|) == []
      ensures samples == [] ==> pendingSamples == old(pendingSamples)
      ensures multiset(samples) + multiset(pendingSamples)
           == multiset(old(pendingSamples)) + multiset(AllRead(ready, |ready|))
    {
      var lastTimestamp: uint64 := 0;
      for n := 0 to |ready|
        invariant samples == [] <==> AllRead(ready, n) == []
        invariant samples == [] ==> pendingSamples == old(pendingSamples)
        invariant multiset(samples) + multiset(pendingSamples)
               == multiset(old(pendingSamples)) + multiset(AllRead(ready, n))
      {
        lastTimestamp := GatherOne(ready[n], lastTimestamp);
      }
    }

    /** One pass over the ready descriptors. If anything was read, one batch is sent, and it is a
        permutation of what was pending and everything read; nothing is pending afterwards. If
        nothing was read, nothing happens. */
    method ReadRingBuffers(ready: seq<Ready>)
      requires samples == []
      modifies this
      ensures samples == []
      ensures received == old(received) + AllRead(ready, |ready|)
      ensures AllRead(ready, |ready|) == [] ==>
                dispatchChan == old(dispatchChan) && pendingSamples == old(pendingSamples)
      ensures AllRead(ready, |ready|) != [] ==>
                && pendingSamples == []
                && |dispatchChan| == |old(dispatchChan)| + 1
                && dispatchChan[..|old(dispatchChan)|] == old(dispatchChan)
                && multiset(dispatchChan[|old(dispatchChan)|])
                   == multiset(old(pendingSamples)) + multiset(AllRead(ready, |ready|))
      ensures old(Valid()) ==> Valid()
    {
      Gather(ready);
      received := received + AllRead(ready, |ready|);
      if |samples| > 0 {
        if |pendingSamples| > 0 {
          samples := samples + pendingSamples;
          pendingSamples := [];
        }
        FlattenAppend(dispatchChan, samples);
        dispatchChan := dispatchChan + [samples];
        samples := [];
      }
    }

    /** Since nothing is pending between calls, there is never anything to flush. */
    method FlushPendingSamples()
      modifies this
      ensures samples == old(samples) && received == old(received) && pendingSamples == []
      ensures dispatchChan == if old(pendingSamples) == [] then old(dispatchChan)
                              else old(dispatchChan) + [old(pendingSamples)]
      ensures old(Valid()) ==> Valid()
    {
      if |pendingSamples| > 0 {
        dispatchChan := dispatchChan + [pendingSamples];
        pendingSamples := [];
      }
    }
  }

  // --- Dispatch ---

  /** What sort.Sort makes of a batch; it is not stable, so any such sequence may come out. */
  ghost predicate IsSorted(sorted: seq<Sample>, batch: seq<Sample>) {
    && multiset(sorted) == multiset(batch)
    && forall i, j :: 0 <= i < j < |sorted| ==> sorted[i].time <= sorted[j].time
  }

  datatype Call = Call(eventID: nat, sample: Sample)

  /** The dispatch function is called with the sample at `at[k]` as its k-th call. */
  ghost predicate InOrder(calls: seq<Call>, at: seq<nat>, samples: seq<Sample>) {
    && |at| == |calls|
    && (forall k :: 0 <= k < |at| ==> at[k] < |samples| && calls[k].sample == samples[at[k]])
    && (forall k, l :: 0 <= k < l < |at| ==> at[k] < at[l])
  }

  /** The table read at the start or at one of the first n samples had this event for it. */
  ghost predicate Attributed(loads: seq<map<nat, nat>>, n: nat, c: Call) {
    exists j :: 0 <= j <= n && j < |loads| && c.sample.streamID in loads[j] && loads[j][c.sample.streamID] == c.eventID
  }

  ghost predicate AllAttributed(loads: seq<map<nat, nat>>, at: seq<nat>, calls: seq<Call>)
    requires |at| == |calls|
  {
    forall k :: 0 <= k < |calls| ==> Attributed(loads, at[k] + 1, calls[k])
  }

  /** Of the first n samples, those that the freshly read table knows are among those called for. */
  ghost predicate NoneSkipped(loads: seq<map<nat, nat>>, at: seq<nat>, samples: seq<Sample>, n: nat)
    requires n <= |samples| < |loads|
  {
    forall i :: 0 <= i < n && samples[i].streamID in loads[i + 1] ==> i in at
  }

  /** The calls that a table which does not change calls for: one a sample it knows. */
  function CallsFor(table: map<nat, nat>, samples: seq<Sample>): seq<Call> {
    if samples == [] then [] else
    var n := |samples| - 1;
    CallsFor(table, samples[..n]) +
    if samples[n].streamID in table then [Call(table[samples[n].streamID], samples[n])] else []
  }

  /** dispatchSortedSamples. loads[0] is the event id table as first read and loads[i + 1] what
      reading it afresh at sample i gives, so that other goroutines may change it meanwhile. At
      most one call is made for each sample, in order; a call's event is one that some reading
      of the table gave; a sample that the fresh table knows is never skipped; and
      if no other goroutine interferes, the calls are exactly those that the table calls for. */
  method DispatchSortedSamples(samples: seq<Sample>, loads: seq<map<nat, nat>>)
    returns (calls: seq<Call>, ghost at: seq<nat>)
    requires |loads| == |samples| + 1
    ensures InOrder(calls, at, samples)
    ensures AllAttributed(loads, at, calls)
    ensures NoneSkipped(loads, at, samples, |samples|)
    ensures (forall i :: 0 <= i < |loads| ==> loads[i] == loads[0]) ==> calls == CallsFor(loads[0], samples)
  {
    calls, at := [], [];
    var eventIDMap := loads[0];
    ghost var j := 0;
    for i := 0 to |samples|
      invariant j <= i && eventIDMap == loads[j]
      invariant InOrder(calls, at, samples)
      invariant forall k :: 0 <= k < |at| ==> at[k] < i
      invariant AllAttributed(loads, at, calls)
      invariant NoneSkipped(loads, at, samples, i)
    {
      var streamID := samples[i].streamID;
      if streamID !in eventIDMap {
        eventIDMap := loads[i + 1];
        j := i + 1;
        if streamID !in eventIDMap {
          continue;
        }
      }
      var call := Call(eventIDMap[streamID], samples[i]);
      AppendCall(calls, at, samples, loads, i, j, call);
      calls, at := calls + [call], at + [i];
    }
    if forall i :: 0 <= i < |loads| ==> loads[i] == loads[0] {
      SteadyCalls(loads, calls, at, samples);
    }
  }

  /** With a table that stays the same there is just one way to make the calls. */
  lemma SteadyCalls(loads: seq<map<nat, nat>>, calls: seq<Call>, at: seq<nat>, samples: seq<Sample>)
    requires |loads| == |samples| + 1 && forall i :: 0 <= i < |loads| ==> loads[i] == loads[0]
    requires InOrder(calls, at, samples) && AllAttributed(loads, at, calls)
    requires NoneSkipped(loads, at, samples, |samples|)
    ensures calls == CallsFor(loads[0], samples)
  {
    forall k | 0 <= k < |calls|
      ensures IsCallFor(loads[0], calls[k])
    {
      assert Attributed(loads, at[k] + 1, calls[k]);
    }
    forall i | 0 <= i < |samples| && samples[i].streamID in loads[0]
      ensures i in at
    {
      assert loads[i + 1] == loads[0];
    }
    OneWayToCall(loads[0], calls, at, samples);
  }

  predicate IsCallFor(table: map<nat, nat>, c: Call) {
    c.sample.streamID in table && table[c.sample.streamID] == c.eventID
  }

  /** Does the last call go to the last sample? */
  predicate EndsAtLast(at: seq<nat>, samples: seq<Sample>) {
    at != [] && samples != [] && at[|at| - 1] == |samples| - 1
  }

  /** Calls in order, without the last sample. */
  lemma WithoutLast(calls: seq<Call>, at: seq<nat>, samples: seq<Sample>)
    requires InOrder(calls, at, samples) && samples != []
    ensures var n, m := |samples| - 1, |at| - 1;
            if EndsAtLast(at, samples) then
              && InOrder(calls[..m], at[..m], samples[..n])
              && calls[m].sample == samples[n]
              && forall i :: 0 <= i < n && i in at ==> i in at[..m]
            else InOrder(calls, at, samples[..n]) && n !in at
  {
    var n, m := |samples| - 1, |at| - 1;
    if EndsAtLast(at, samples) {
      assert at == at[..m] + [n];
    } else {
      assert forall k :: 0 <= k < |at| ==> at[k] <= at[m];
    }
  }

  lemma {:induction false} OneWayToCall(table: map<nat, nat>, calls: seq<Call>, at: seq<nat>, samples: seq<Sample>)
    requires InOrder(calls, at, samples)
    requires forall k :: 0 <= k < |calls| ==> IsCallFor(table, calls[k])
    requires forall i :: 0 <= i < |samples| && samples[i].streamID in table ==> i in at
    ensures calls == CallsFor(table, samples)
    decreases |samples|
  {
    if samples != [] {
      var n, m := |samples| - 1, |at| - 1;
      WithoutLast(calls, at, samples);
      if EndsAtLast(at, samples) {
        OneWayToCall(table, calls[..m], at[..m], samples[..n]);
        assert IsCallFor(table, calls[m]) && calls[m] == Call(table[samples[n].streamID], samples[n]);
        assert calls == calls[..m] + [calls[m]];
      } else {
        OneWayToCall(table, calls, at, samples[..n]);
        assert calls + [] == calls;
      }
    }
  }

  lemma AppendCall(calls: seq<Call>, at: seq<nat>, samples: seq<Sample>, loads: seq<map<nat, nat>>,
                   i: nat, j: nat, call: Call)
    requires InOrder(calls, at, samples) && i < |samples| < |loads| && call.sample == samples[i]
    requires forall k :: 0 <= k < |at| ==> at[k] < i
    requires AllAttributed(loads, at, calls) && NoneSkipped(loads, at, samples, i)
    requires j <= i + 1 && j < |loads|
    requires call.sample.streamID in loads[j] && loads[j][call.sample.streamID] == call.eventID
    ensures InOrder(calls + [call], at + [i], samples)
    ensures AllAttributed(loads, at + [i], calls + [call])
    ensures NoneSkipped(loads, at + [i], samples, i + 1)
  {
    assert Attributed(loads, i + 1, call);
    assert forall k :: k in at || k == i ==> k in at + [i];
  }

  /** Calls come in non-decreasing time. */
  lemma CallsAreTimely(batch: seq<Sample>, sorted: seq<Sample>, calls: seq<Call>, at: seq<nat>, k: nat, l: nat)
    requires IsSorted(sorted, batch) && InOrder(calls, at, sorted)
    requires k < l < |calls|
    ensures calls[k].sample.time <= calls[l].sample.time
  {
  }

  function SamplesOf(calls: seq<Call>): (samples: seq<Sample>)
    ensures |samples| == |calls| && forall k :: 0 <= k < |calls| ==> samples[k] == calls[k].sample
  {
    seq(|calls|, k requires 0 <= k < |calls| => calls[k].sample)
  }

  /** Each sample is dispatched as often as it was sent if its stream is registered, and not at
      all otherwise. */
  lemma {:induction false} OneCallASample(table: map<nat, nat>, samples: seq<Sample>, s: Sample)
    ensures multiset(SamplesOf(CallsFor(table, samples)))[s]
         == if s.streamID in table then multiset(samples)[s] else 0
    decreases |samples|
  {
    if samples != [] {
      var n := |samples| - 1;
      var init, calls := samples[..n], CallsFor(table, samples[..n]);
      OneCallASample(table, init, s);
      assert samples == init + [samples[n]];
      if samples[n].streamID in table {
        var call := Call(table[samples[n].streamID], samples[n]);
        assert SamplesOf(calls + [call]) == SamplesOf(calls) + [samples[n]];
      } else {
        assert calls + [] == calls;
      }
    }
  }

  // --- From the ring buffers to the calls ---

  /** One batch on its way: sorted, with the readings of the event id table meanwhile, the calls
      that were made, and for which samples. */
  datatype Dispatch = Dispatch(sorted: seq<Sample>, loads: seq<map<nat, nat>>, calls: seq<Call>, at: seq<nat>)

  /** What DispatchSortedSamples ensures of a batch, however the table changes meanwhile. */
  ghost predicate IsDispatchOf(d: Dispatch, batch: seq<Sample>) {
    && IsSorted(d.sorted, batch)
    && |d.loads| == |d.sorted| + 1
    && InOrder(d.calls, d.at, d.sorted)
    && AllAttributed(d.loads, d.at, d.calls)
    && NoneSkipped(d.loads, d.at, d.sorted, |d.sorted|)
  }

  ghost predicate Known(loads: seq<map<nat, nat>>, streamID: nat) {
    forall j :: 0 <= j < |loads| ==> streamID in loads[j]
  }

  ghost predicate Unknown(loads: seq<map<nat, nat>>, streamID: nat) {
    forall j :: 0 <= j < |loads| ==> streamID !in loads[j]
  }

  lemma SamplesOfLast(calls: seq<Call>, last: Sample, s: Sample)
    requires calls != [] && calls[|calls| - 1].sample == last
    ensures multiset(SamplesOf(calls))[s]
         == multiset(SamplesOf(calls[..|calls| - 1]))[s] + if last == s then 1 else 0
  {
    assert SamplesOf(calls) == SamplesOf(calls[..|calls| - 1]) + [last];
  }

  /** Calls made in order, and for every place where a sample is, are as many as the sample is. */
  lemma {:induction false} CountAlong(calls: seq<Call>, at: seq<nat>, samples: seq<Sample>, s: Sample)
    requires InOrder(calls, at, samples)
    requires forall i :: 0 <= i < |samples| && samples[i] == s ==> i in at
    ensures multiset(SamplesOf(calls))[s] == multiset(samples)[s]
    decreases |samples|
  {
    if samples != [] {
      var n, m := |samples| - 1, |at| - 1;
      assert samples == samples[..n] + [samples[n]];
      WithoutLast(calls, at, samples);
      if EndsAtLast(at, samples) {
        CountAlong(calls[..m], at[..m], samples[..n], s);
        SamplesOfLast(calls, samples[n], s);
      } else {
        CountAlong(calls, at, samples[..n], s);
      }
    }
  }

  /** In one batch a sample is dispatched exactly as often as it is there if every reading of the
      table knew its stream, and never if none did. */
  lemma BatchIsDispatched(d: Dispatch, batch: seq<Sample>, s: Sample)
    requires IsDispatchOf(d, batch)
    ensures Known(d.loads, s.streamID) ==> multiset(SamplesOf(d.calls))[s] == multiset(batch)[s]
    ensures Unknown(d.loads, s.streamID) ==> multiset(SamplesOf(d.calls))[s] == 0
  {
    if Known(d.loads, s.streamID) {
      forall i | 0 <= i < |d.sorted| && d.sorted[i] == s
        ensures i in d.at
      {
        assert s.streamID in d.loads[i + 1];
      }
      CountAlong(d.calls, d.at, d.sorted, s);
    }
  }

  function CallsOf(ds: seq<Dispatch>): seq<Call> {
    if ds == [] then [] else CallsOf(ds[..|ds| - 1]) + ds[|ds| - 1].calls
  }

  /** What the event id table holds at each reading of it during one batch. */
  function Readings(table: (nat, nat) -> map<nat, nat>, batch: nat, n: nat): (loads: seq<map<nat, nat>>)
    ensures |loads| == n && forall j :: 0 <= j < n ==> loads[j] == table(batch, j)
  {
    seq(n, j requires 0 <= j < n => table(batch, j))
  }

  ghost predicate IsDispatched(ds: seq<Dispatch>, batches: seq<seq<Sample>>, table: (nat, nat) -> map<nat, nat>, b: nat)
    requires b < |ds| == |batches|
  {
    IsDispatchOf(ds[b], batches[b]) && ds[b].loads == Readings(table, b, |ds[b].sorted| + 1)
  }

  ghost predicate AllDispatched(ds: seq<Dispatch>, batches: seq<seq<Sample>>, table: (nat, nat) -> map<nat, nat>) {
    |ds| == |batches| && forall b :: 0 <= b < |ds| ==> IsDispatched(ds, batches, table, b)
  }

  ghost predicate AlwaysKnown(table: (nat, nat) -> map<nat, nat>, streamID: nat) {
    forall b, j :: streamID in table(b, j)
  }

  ghost predicate NeverKnown(table: (nat, nat) -> map<nat, nat>, streamID: nat) {
    forall b, j :: streamID !in table(b, j)
  }

  lemma DispatchedBefore(ds: seq<Dispatch>, batches: seq<seq<Sample>>, table: (nat, nat) -> map<nat, nat>, n: nat)
    requires AllDispatched(ds, batches, table) && n <= |ds|
    ensures AllDispatched(ds[..n], batches[..n], table)
  {
    forall b: nat | b < n
      ensures IsDispatched(ds[..n], batches[..n], table, b)
    {
      assert IsDispatched(ds, batches, table, b);
    }
  }

  lemma DispatchedNext(ds: seq<Dispatch>, batches: seq<seq<Sample>>, table: (nat, nat) -> map<nat, nat>,
                       d: Dispatch, batch: seq<Sample>)
    requires AllDispatched(ds, batches, table)
    requires IsDispatchOf(d, batch) && d.loads == Readings(table, |ds|, |d.sorted| + 1)
    ensures AllDispatched(ds + [d], batches + [batch], table)
    ensures CallsOf(ds + [d]) == CallsOf(ds) + d.calls
  {
    assert (ds + [d])[..|ds|] == ds;
    forall b: nat | b <= |ds|
      ensures IsDispatched(ds + [d], batches + [batch], table, b)
    {
      assert b < |ds| ==> IsDispatched(ds, batches, table, b);
    }
  }

  /** The same of all batches together. */
  lemma {:induction false} BatchesAreDispatched(ds: seq<Dispatch>, batches: seq<seq<Sample>>,
                                                table: (nat, nat) -> map<nat, nat>, s: Sample)
    requires AllDispatched(ds, batches, table)
    ensures AlwaysKnown(table, s.streamID) ==>
              multiset(SamplesOf(CallsOf(ds)))[s] == multiset(Flatten(batches))[s]
    ensures NeverKnown(table, s.streamID) ==> multiset(SamplesOf(CallsOf(ds)))[s] == 0
    decreases |ds|
  {
    if ds != [] {
      var n := |ds| - 1;
      DispatchedBefore(ds, batches, table, n);
      BatchesAreDispatched(ds[..n], batches[..n], table, s);
      assert IsDispatched(ds, batches, table, n);
      BatchIsDispatched(ds[n], batches[n], s);
      SamplesOfBoth(CallsOf(ds[..n]), ds[n].calls, s);
    }
  }

  lemma SamplesOfBoth(a: seq<Call>, b: seq<Call>, s: Sample)
    ensures multiset(SamplesOf(a + b))[s] == multiset(SamplesOf(a))[s] + multiset(SamplesOf(b))[s]
  {
    assert SamplesOf(a + b) == SamplesOf(a) + SamplesOf(b);
  }

  /** In every batch the calls come in non-decreasing time. */
  lemma BatchesAreTimely(ds: seq<Dispatch>, batches: seq<seq<Sample>>, table: (nat, nat) -> map<nat, nat>)
    requires AllDispatched(ds, batches, table)
    ensures forall b, k, l :: 0 <= b < |ds| && 0 <= k < l < |ds[b].calls| ==>
              ds[b].calls[k].sample.time <= ds[b].calls[l].sample.time
  {
    forall b, k, l | 0 <= b < |ds| && 0 <= k < l < |ds[b].calls|
      ensures ds[b].calls[k].sample.time <= ds[b].calls[l].sample.time
    {
      assert IsDispatched(ds, batches, table, b);
      CallsAreTimely(batches[b], ds[b].sorted, ds[b].calls, ds[b].at, k, l);
    }
  }

  /** Some reading of the table gave this event for the call's stream. */
  ghost predicate GivenBy(table: (nat, nat) -> map<nat, nat>, c: Call) {
    exists b, j :: c.sample.streamID in table(b, j) && table(b, j)[c.sample.streamID] == c.eventID
  }

  /** No call is for an event that its stream was never registered for. */
  lemma {:induction false} CallsAreGiven(ds: seq<Dispatch>, batches: seq<seq<Sample>>,
                                         table: (nat, nat) -> map<nat, nat>, c: Call)
    requires AllDispatched(ds, batches, table) && c in CallsOf(ds)
    ensures GivenBy(table, c)
    decreases |ds|
  {
    var n := |ds| - 1;
    if c in ds[n].calls {
      assert IsDispatched(ds, batches, table, n);
      var k :| 0 <= k < |ds[n].calls| && ds[n].calls[k] == c;
      assert Attributed(ds[n].loads, ds[n].at[k] + 1, c);
    } else {
      DispatchedBefore(ds, batches, table, n);
      CallsAreGiven(ds[..n], batches[..n], table, c);
    }
  }

  /** Everything that is read in some passes over ready descriptors. */
  function AllPasses(passes: seq<seq<Ready>>): seq<Sample> {
    if passes == [] then [] else
    var n := |passes| - 1;
    AllPasses(passes[..n]) + AllRead(passes[n], |passes[n]|)
  }

  /** The place of a sample in a run: the pass, the ring buffer in it, and the sample in that. */
  type Place = (nat, nat, nat)

  predicate IsPlace(passes: seq<seq<Ready>>, p: Place) {
    p.0 < |passes| && p.1 < |passes[p.0]| && p.2 < |passes[p.0][p.1].read|
  }

  /** What is read there, on the common clock. */
  function ReadAt(passes: seq<seq<Ready>>, p: Place): Sample
    requires IsPlace(passes, p)
  {
    var r := passes[p.0][p.1];
    Normalize(r.group, r.read[p.2])
  }

  predicate Before(p: Place, q: Place) {
    p.0 < q.0 || (p.0 == q.0 && (p.1 < q.1 || (p.1 == q.1 && p.2 < q.2)))
  }

  /** Where a sample is read. */
  ghost function PlacesOf(passes: seq<seq<Ready>>, s: Sample): set<Place> {
    set i: nat, j: nat, k: nat |
      i < |passes| && j < |passes[i]| && k < |passes[i][j].read| && ReadAt(passes, (i, j, k)) == s :: (i, j, k)
  }

  ghost function PlacesBefore(passes: seq<seq<Ready>>, s: Sample, q: Place): set<Place> {
    set p | p in PlacesOf(passes, s) && Before(p, q)
  }

  lemma NextPlace(passes: seq<seq<Ready>>, s: Sample, n: nat, m: nat, x: nat)
    requires n < |passes| && m < |passes[n]| && 0 < x <= |passes[n][m].read|
    ensures var p := (n, m, x - 1);
            PlacesBefore(passes, s, (n, m, x))
            == PlacesBefore(passes, s, p) + if ReadAt(passes, p) == s then {p} else {}
  {
  }

  /** Of one buffer. */
  lemma {:induction false} PlacesInBuffer(passes: seq<seq<Ready>>, s: Sample, n: nat, m: nat, x: nat)
    requires n < |passes| && m < |passes[n]| && x <= |passes[n][m].read|
    ensures var r := passes[n][m];
            |PlacesBefore(passes, s, (n, m, x))|
            == |PlacesBefore(passes, s, (n, m, 0))| + multiset(NormalizeAll(r.group, r.read)[..x])[s]
  {
    if x > 0 {
      var all := NormalizeAll(passes[n][m].group, passes[n][m].read);
      PlacesInBuffer(passes, s, n, m, x - 1);
      NextPlace(passes, s, n, m, x);
      assert all[..x] == all[..x - 1] + [all[x - 1]];
    }
  }

  lemma BufferEnds(passes: seq<seq<Ready>>, s: Sample, n: nat, m: nat)
    requires n < |passes| && 0 < m <= |passes[n]|
    ensures PlacesBefore(passes, s, (n, m - 1, |passes[n][m - 1].read|)) == PlacesBefore(passes, s, (n, m, 0))
  {
  }

  /** Of the first m buffers of one pass. */
  lemma {:induction false} PlacesInPass(passes: seq<seq<Ready>>, s: Sample, n: nat, m: nat)
    requires n < |passes| && m <= |passes[n]|
    ensures |PlacesBefore(passes, s, (n, m, 0))|
         == |PlacesBefore(passes, s, (n, 0, 0))| + multiset(AllRead(passes[n], m))[s]
  {
    if m > 0 {
      var r := passes[n][m - 1];
      var all := NormalizeAll(r.group, r.read);
      PlacesInPass(passes, s, n, m - 1);
      PlacesInBuffer(passes, s, n, m - 1, |r.read|);
      assert all[..|r.read|] == all;
      BufferEnds(passes, s, n, m);
    }
  }

  lemma {:induction false} PlacesInPasses(passes: seq<seq<Ready>>, s: Sample, n: nat)
    requires n <= |passes|
    ensures |PlacesBefore(passes, s, (n, 0, 0))| == multiset(AllPasses(passes[..n]))[s]
  {
    if n == 0 {
      assert PlacesBefore(passes, s, (0, 0, 0)) == {};
    } else {
      assert passes[..n][..n - 1] == passes[..n - 1];
      PlacesInPasses(passes, s, n - 1);
      PlacesInPass(passes, s, n - 1, |passes[n - 1]|);
      assert PlacesBefore(passes, s, (n - 1, |passes[n - 1]|, 0)) == PlacesBefore(passes, s, (n, 0, 0));
    }
  }

  /** What is read in some passes is what there is in the buffers of each: a sample is read as often
      as there are places where it is. */
  lemma AllIsRead(passes: seq<seq<Ready>>, s: Sample)
    ensures multiset(AllPasses(passes))[s] == |PlacesOf(passes, s)|
  {
    PlacesInPasses(passes, s, |passes|);
    assert passes[..|passes|] == passes;
    assert PlacesBefore(passes, s, (|passes|, 0, 0)) == PlacesOf(passes, s);
  }

  /** Whatever sort.Sort does with equal times. */
  ghost predicate Sorts(sort: seq<Sample> -> seq<Sample>) {
    forall batch :: IsSorted(sort(batch), batch)
  }

  /** dispatchSamples: sort each batch and dispatch it. */
  method DispatchSamples(batches: seq<seq<Sample>>, sort: seq<Sample> -> seq<Sample>,
                         table: (nat, nat) -> map<nat, nat>)
    returns (calls: seq<Call>, ghost ds: seq<Dispatch>)
    requires Sorts(sort)
    ensures forall s: Sample :: AlwaysKnown(table, s.streamID) ==>
              multiset(SamplesOf(calls))[s] == multiset(Flatten(batches))[s]
    ensures forall s: Sample :: NeverKnown(table, s.streamID) ==> multiset(SamplesOf(calls))[s] == 0
    ensures AllDispatched(ds, batches, table) && calls == CallsOf(ds)
  {
    calls, ds := [], [];
    for b := 0 to |batches|
      invariant AllDispatched(ds, batches[..b], table) && calls == CallsOf(ds)
    {
      var sorted := sort(batches[b]);
      var loads := Readings(table, b, |sorted| + 1);
      var made, at := DispatchSortedSamples(sorted, loads);
      ghost var d := Dispatch(sorted, loads, made, at);
      DispatchedNext(ds, batches[..b], table, d, batches[b]);
      assert batches[..b + 1] == batches[..b] + [batches[b]];
      calls, ds := calls + made, ds + [d];
    }
    assert batches[..|batches|] == batches;
    forall s: Sample
      ensures AlwaysKnown(table, s.streamID) ==>
                multiset(SamplesOf(calls))[s] == multiset(Flatten(batches))[s]
      ensures NeverKnown(table, s.streamID) ==> multiset(SamplesOf(calls))[s] == 0
    {
      BatchesAreDispatched(ds, batches, table, s);
    }
  }

  /** Some passes over ready descriptors and the flush at the end: the batches sent hold what was
      read, each sample as often as it was. */
  method CollectSamples(passes: seq<seq<Ready>>) returns (batches: seq<seq<Sample>>)
    ensures multiset(Flatten(batches)) == multiset(AllPasses(passes))
  {
    var c := new Collector();
    for i := 0 to |passes|
      invariant c.Valid() && fresh(c) && c.received == AllPasses(passes[..i])
    {
      assert passes[..i + 1][..i] == passes[..i];
      c.ReadRingBuffers(passes[i]);
    }
    assert passes[..|passes|] == passes;
    c.FlushPendingSamples();
    batches := c.dispatchChan;
  }

  /** A whole run, from the samples read to the calls made, while other goroutines change the event
      id table as they like: a sample whose stream is registered throughout is dispatched exactly
      as often as it was read, on whatever CPUs, held back or not; one whose stream never is
      registered is not; every call is for an event that the table had for its stream; and the calls
      of one batch come in non-decreasing time. */
  method RunMonitor(passes: seq<seq<Ready>>, sort: seq<Sample> -> seq<Sample>, table: (nat, nat) -> map<nat, nat>)
    returns (calls: seq<Call>, ghost ds: seq<Dispatch>)
    requires Sorts(sort)
    ensures forall s: Sample :: AlwaysKnown(table, s.streamID) ==>
              multiset(SamplesOf(calls))[s] == |PlacesOf(passes, s)|
    ensures forall s: Sample :: NeverKnown(table, s.streamID) ==> multiset(SamplesOf(calls))[s] == 0
    ensures forall c :: c in calls ==> GivenBy(table, c)
    ensures calls == CallsOf(ds)
    ensures forall b, k, l :: 0 <= b < |ds| && 0 <= k < l < |ds[b].calls| ==>
              ds[b].calls[k].sample.time <= ds[b].calls[l].sample.time
  {
    var batches := CollectSamples(passes);
    calls, ds := DispatchSamples(batches, sort, table);
    BatchesAreTimely(ds, batches, table);
    forall c | c in calls
      ensures GivenBy(table, c)
    {
      CallsAreGiven(ds, batches, table, c);
    }
    forall s: Sample
      ensures multiset(AllPasses(passes))[s] == |PlacesOf(passes, s)|
    {
      AllIsRead(passes, s);
    }
  }
}
