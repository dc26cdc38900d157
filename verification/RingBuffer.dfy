/** pkg/sys/perf/ringbuffer.go: reading a ring buffer that the kernel goes on filling. The
    kernel's writes are interleaved with the reader's at every access to the shared head, and
    while the reader's callback runs. */
module RingBuffer {

  type byte = x: int | 0 <= x < 256

  lemma {:induction false} MultipleIsLarge(d: nat, n: nat)
    requires d > 0
    ensures d * n >= n
  {
    if d > 1 {
      MultipleIsLarge(d - 1, n);
      assert d * n == (d - 1) * n + n;
    }
  }

  lemma MultipleIsFar(d: int, n: nat)
    requires n > 0 && d != 0
    ensures d * n >= n || d * n <= 0 - n
  {
    if d > 0 {
      MultipleIsLarge(d, n);
    } else {
      MultipleIsLarge(-d, n);
      assert -d * n == 0 - d * n;
    }
  }

  /** Two counters less than n apart fall on different places of a buffer of length n. */
  lemma DistinctPlaces(a: nat, b: nat, n: nat)
    requires n > 0 && a < b < a + n
    ensures a % n != b % n
  {
    var d := b / n - a / n;
    assert b - a == d * n + b % n - a % n;
    if d != 0 {
      MultipleIsFar(d, n);
    }
  }

  /** The place of the counter k beyond tail, for any k up to the length of the buffer. */
  lemma PlaceOf(tail: nat, k: nat, n: nat)
    requires n > 0 && k <= n
    ensures (tail + k) % n == if tail % n + k < n then tail % n + k else tail % n + k - n
  {
    var place := if tail % n + k < n then tail % n + k else tail % n + k - n;
    var turns := if tail % n + k < n then tail / n else tail / n + 1;
    assert tail + k == turns * n + place;
    var d := (tail + k) / n - turns;
    assert d * n == place - (tail + k) % n;
    if d != 0 {
      MultipleIsFar(d, n);
    }
  }

  /** The slice that the reader takes for given counters. */
  function Taken(data: seq<byte>, tail: nat, head: nat): seq<byte>
    requires |data| > 0
  {
    var b, e := tail % |data|, head % |data|;
    if e >= b then data[b..e] else data[b..] + data[..e]
  }

  /** The buffer holds bytes tail..head of everything ever written. */
  ghost predicate HoldsLog(data: seq<byte>, log: seq<byte>, tail: nat, head: nat) {
    && |data| > 0 && tail <= head <= |log| && head - tail <= |data|
    && forall k :: tail <= k < head ==> data[k % |data|] == log[k]
  }

  lemma TakenAt(data: seq<byte>, tail: nat, head: nat)
    requires |data| > 0 && tail < head < tail + |data|
    ensures |Taken(data, tail, head)| == head - tail
    ensures forall k :: 0 <= k < head - tail ==> Taken(data, tail, head)[k] == data[(tail + k) % |data|]
  {
    PlaceOf(tail, head - tail, |data|);
    forall k: nat | k < head - tail
      ensures Taken(data, tail, head)[k] == data[(tail + k) % |data|]
    {
      PlaceOf(tail, k, |data|);
    }
  }

  /** The slice is exactly the unread bytes if and only if the buffer is not full: a full buffer
      looks empty to the reader, which then skips everything in it. */
  lemma TakenIsUnread(data: seq<byte>, log: seq<byte>, tail: nat, head: nat)
    requires HoldsLog(data, log, tail, head) && tail < head
    ensures Taken(data, tail, head) == log[tail..head] <==> head - tail < |data|
    ensures head - tail == |data| ==> Taken(data, tail, head) == []
  {
    if head - tail < |data| {
      TakenAt(data, tail, head);
      forall k | 0 <= k < head - tail
        ensures Taken(data, tail, head)[k] == log[tail..head][k]
      {
        assert data[(tail + k) % |data|] == log[tail + k];
      }
    } else {
      PlaceOf(tail, |data|, |data|);
    }
  }

  lemma PrefixKeepsSlice(before: seq<byte>, after: seq<byte>, i: nat, j: nat)
    requires i <= j <= |before| && before <= after
    ensures after[i..j] == before[i..j]
  {
  }

  class Buffer {
    const data: array<byte>
    var tail: nat                       // metadata.DataTail
    var head: nat                       // metadata.DataHead
    ghost var log: seq<byte>            // every byte the kernel has written
    var coming: seq<byte>               // what it has yet to write during this read

    ghost predicate Valid()
      reads this, data
    {
      && data.Length > 0
      && |log| == head < tail + data.Length
      && HoldsLog(data[..], log, tail, head)
    }

    constructor (size: nat, coming: seq<byte>)
      requires size > 0
      ensures Valid() && fresh(data) && data.Length == size
      ensures tail == head == 0 && log == [] && this.coming == coming
    {
      data := new byte[size](_ => 0);
      tail, head, log := 0, 0, [];
      this.coming := coming;
    }

    /** The kernel writes any number of the bytes still to come, as long as it never fills the
        buffer up, and then publishes the new head. What is unread stays as it is. */
    method KernelWrites()
      requires Valid()
      modifies this`head, this`log, this`coming, data
      ensures Valid()
      ensures old(head) <= head && old(log) <= log
      ensures log + coming == old(log) + old(coming)
    {
      var n: nat :| n <= |coming| && head + n < tail + data.Length;
      var i := 0;
      while i < n
        invariant 0 <= i <= n <= |coming|
        invariant head == old(head) + i && head + (n - i) < tail + data.Length
        invariant log == old(log) + coming[..i]
        invariant coming == old(coming)
        invariant Valid()
      {
        forall k | tail <= k < head
          ensures k % data.Length != head % data.Length
        {
          DistinctPlaces(k, head, data.Length);
        }
        data[head % data.Length] := coming[i];
        log := log + [coming[i]];
        head := head + 1;
        i := i + 1;
      }
      assert log + coming[n..] == old(log) + coming;
      coming := coming[n..];
    }

    /** Load the shared head, with the kernel at work before and after. */
    method LoadHead() returns (dataHead: nat)
      requires Valid()
      modifies this`head, this`log, this`coming, data
      ensures Valid()
      ensures old(head) <= dataHead <= head && old(log) <= log
      ensures log + coming == old(log) + old(coming)
    {
      KernelWrites();
      dataHead := head;
      KernelWrites();
    }

    /** One turn of the reader's loop: hand the slice up to dataHead to the callback, then give
        its room back to the kernel. The slice is of the buffer itself, so the callback sees
        whatever the kernel leaves there while it runs. */
    method HandOver(dataHead: nat) returns (slice: seq<byte>)
      requires Valid() && tail < dataHead <= head
      modifies this, data
      ensures Valid() && tail == dataHead
      ensures old(log) <= log && old(head) <= head
      ensures slice == log[old(tail)..dataHead]
      ensures log + coming == old(log) + old(coming)
    {
      var dataTail := tail;
      var dataBegin, dataEnd := dataTail % data.Length, dataHead % data.Length;
      KernelWrites();
      slice := if dataEnd >= dataBegin then data[dataBegin..dataEnd] else data[dataBegin..] + data[..dataEnd];
      assert slice == Taken(data[..], dataTail, dataHead);
      assert HoldsLog(data[..], log, dataTail, dataHead);
      TakenIsUnread(data[..], log, dataTail, dataHead);
      tail := dataHead;
    }

    /** read, with the bytes that the calls of its callback see. Every byte written is handed
        over once, in order, exactly as written, at whatever place the buffer wraps, up to the
        head that the reader saw last; and nothing is overwritten before the callback is done
        with it. */
    method Read() returns (seen: seq<byte>)
      requires Valid()
      modifies this, data
      ensures Valid()
      ensures old(tail) <= tail && old(head) <= tail
      ensures seen == log[old(tail)..tail]
      ensures log + coming == old(log) + old(coming)
    {
      seen := [];
      var dataHead := LoadHead();
      while tail < dataHead
        invariant Valid()
        invariant old(tail) <= tail <= dataHead <= head && old(head) <= dataHead
        invariant seen == log[old(tail)..tail]
        invariant log + coming == old(log) + old(coming)
        decreases |old(log) + old(coming)| - tail
      {
        ghost var before, from := log, tail;
        var slice := HandOver(dataHead);
        PrefixKeepsSlice(before, log, old(tail), from);
        seen := seen + slice;
        ghost var after := log;
        dataHead := LoadHead();
        PrefixKeepsSlice(after, log, old(tail), tail);
      }
    }
  }
}
