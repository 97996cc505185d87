/** The recording buffer that the audio capture callback fills. */
module Capture {
  import opened Bytes

  const BUFFER_SIZE := 512000
  const FRAME_SIZE := 320

  /** The frames copied: each call's data until a call finds the buffer full, and none from then on. */
  function Accepted(calls: seq<bytes>): (a: seq<bytes>)
    ensures |a| <= |calls| && a == calls[..|a|]
  {
    if calls == [] then []
    else
      var a := Accepted(calls[..|calls| - 1]);
      if |a| < |calls| - 1 || |Flatten(a)| >= BUFFER_SIZE then a else calls
  }

  predicate InBounds(calls: seq<bytes>) {
    |Flatten(Accepted(calls))| <= BUFFER_SIZE
  }

  class Recorder {
    const recordBuf: array<byte>
    var revCount: nat
    var revFlag: bool

    ghost var calls: seq<bytes>
    ghost var stops: nat

    /** The buffer starts with the accepted frames in order, the rest is still zero, and the recording has been
        stopped once, by the first call that found the buffer full. */
    ghost predicate Explained()
      reads this, recordBuf
    {
      && recordBuf.Length == BUFFER_SIZE && InBounds(calls)
      && recordBuf[..] == Flatten(Accepted(calls)) + Zeros(BUFFER_SIZE - |Flatten(Accepted(calls))|)
      && revCount == |Flatten(Accepted(calls))|
      && (revFlag <==> |Accepted(calls)| < |calls|)
      && stops == if revFlag then 1 else 0
    }

    constructor ()
      ensures Explained() && calls == [] && fresh(recordBuf)
      ensures recordBuf.Length == 512000 && revCount == 0 && !revFlag && stops == 0
    {
      recordBuf := new byte[BUFFER_SIZE](_ => 0);
      revCount, revFlag := 0, false;
      calls, stops := [], 0;
      new;
      assert recordBuf[..] == Flatten([]) + Zeros(BUFFER_SIZE);
    }

    /** capture_callback; false where the copy would run over the end of the buffer. */
    method CaptureCallback(data: bytes) returns (defined: bool)
      requires Explained()
      modifies this, recordBuf
      ensures defined <==> InBounds(old(calls) + [data])
      ensures defined ==> Explained() && calls == old(calls) + [data]
      ensures defined <==> old(revFlag) || old(revCount) >= 512000 || old(revCount) + |data| <= 512000
      ensures old(revFlag) || old(revCount) >= 512000 ==>
                && recordBuf[..] == old(recordBuf[..]) && revCount == old(revCount) && revFlag
                && stops == old(stops) + if old(revFlag) then 0 else 1
      ensures !old(revFlag) && old(revCount) < 512000 && old(revCount) + |data| <= 512000 ==>
                && recordBuf[..] == old(recordBuf[..revCount]) + data + old(recordBuf[revCount + |data|..])
                && revCount == old(revCount) + |data| && !revFlag && stops == old(stops)
    {
      hide Flatten, Accepted, Zeros;
      NextCall(calls, data);
      AllAccepted(calls);
      ghost var before := calls;
      calls := calls + [data];
      if revFlag {
        return true;
      }
      if revCount >= BUFFER_SIZE {
        stops := stops + 1;
        revFlag := true;
        return true;
      }
      if revCount + |data| > BUFFER_SIZE {
        return false;
      }
      Placed(recordBuf[..], Flatten(Accepted(before)), BUFFER_SIZE - revCount, data);
      CopyIn(data);
      revCount := revCount + |data|;
      defined := true;
    }

    /** memcpy(g_recordbuf + g_recordrevcount, data, len) */
    method CopyIn(data: bytes)
      requires revCount + |data| <= recordBuf.Length
      modifies recordBuf
      ensures recordBuf[..] == old(recordBuf[..revCount]) + data + old(recordBuf[revCount + |data|..])
    {
      for i := 0 to |data|
        invariant forall k :: 0 <= k < i ==> recordBuf[revCount + k] == data[k]
        invariant forall k :: 0 <= k < revCount || revCount + i <= k < recordBuf.Length ==> recordBuf[k] == old(recordBuf[k])
      {
        recordBuf[revCount + i] := data[i];
      }
    }
  }

  lemma AllAccepted(calls: seq<bytes>)
    ensures |Accepted(calls)| == |calls| ==> Accepted(calls) == calls
  {
    hide Accepted;
  }

  /** Zeros behind the recorded part give way to new data. */
  lemma Placed(was: bytes, done: bytes, n: nat, data: bytes)
    requires was == done + Zeros(n) && |data| <= n
    ensures was[..|done|] + data + was[|done| + |data|..] == done + data + Zeros(n - |data|)
  {
    assert was[..|done|] == done;
    assert was[|done| + |data|..] == Zeros(n - |data|);
  }

  lemma NextCall(calls: seq<bytes>, data: bytes)
    ensures Accepted(calls + [data]) ==
            if |Accepted(calls)| < |calls| || |Flatten(Accepted(calls))| >= BUFFER_SIZE then Accepted(calls)
            else calls + [data]
    ensures Flatten(calls + [data]) == Flatten(calls) + data
  {
    assert (calls + [data])[..|calls|] == calls;
    FlattenAppend(calls, [data]);
    assert Flatten([data]) == data + Flatten([data][1..]);
  }

  /** Once a call has found the buffer full, no later call is copied. */
  lemma {:induction false} StoppedForGood(calls: seq<bytes>, more: seq<bytes>)
    requires |Accepted(calls)| < |calls|
    ensures Accepted(calls + more) == Accepted(calls)
  {
    if more == [] {
      assert calls + more == calls;
    } else {
      var earlier := more[..|more| - 1];
      assert calls + more == (calls + earlier) + [more[|more| - 1]];
      StoppedForGood(calls, earlier);
      NextCall(calls + earlier, more[|more| - 1]);
    }
  }

  predicate Frames(calls: seq<bytes>, size: nat) { forall c :: c in calls ==> |c| == size }

  /** Frames needed to fill the buffer. */
  function Needed(size: nat): nat
    requires size > 0
  {
    (BUFFER_SIZE + size - 1) / size
  }

  lemma NeededFills(size: nat, n: nat)
    requires size > 0
    ensures size * n >= BUFFER_SIZE <==> n >= Needed(size)
  {
    var q, r := Needed(size), (BUFFER_SIZE + size - 1) % size;
    assert size * q + r == BUFFER_SIZE + size - 1;
    if n >= q { assert size * n >= size * q; } else { assert size * n <= size * (q - 1); }
  }

  /** Frames of one size: the first ones that are needed to fill the buffer are copied, no others. */
  lemma {:induction false} AcceptedFrames(calls: seq<bytes>, size: nat)
    requires size > 0 && Frames(calls, size)
    ensures Accepted(calls) == if |calls| <= Needed(size) then calls else calls[..Needed(size)]
  {
    if calls == [] {
    } else {
      var earlier, last := calls[..|calls| - 1], calls[|calls| - 1];
      assert calls == earlier + [last];
      AcceptedFrames(earlier, size);
      NextCall(earlier, last);
      EqualChunks(earlier, size);
      NeededFills(size, |earlier|);
      hide Accepted, Flatten, Needed;
    }
  }

  /** No run with frames of this size overruns the buffer exactly when the size divides the buffer. */
  lemma SafeSizes(size: nat)
    ensures (forall calls :: Frames(calls, size) ==> InBounds(calls)) <==> size == 0 || 512000 % size == 0
  {
    if size > 0 {
      var q := Needed(size);
      if BUFFER_SIZE % size == 0 {
        DivisorFills(size);
        forall calls | Frames(calls, size) ensures InBounds(calls) { AcceptedLength(calls, size); }
      } else {
        var calls := seq(q, i => Zeros(size));
        assert Frames(calls, size);
        AcceptedLength(calls, size);
        NotDivisorOverfills(size);
        assert !InBounds(calls);
      }
    } else {
      forall calls | Frames(calls, size) ensures InBounds(calls) {
        EqualChunks(Accepted(calls), 0);
      }
    }
  }

  lemma AcceptedLength(calls: seq<bytes>, size: nat)
    requires size > 0 && Frames(calls, size)
    ensures |Flatten(Accepted(calls))| == if |calls| <= Needed(size) then size * |calls| else size * Needed(size)
    ensures |Flatten(Accepted(calls))| <= size * Needed(size)
  {
    AcceptedFrames(calls, size);
    EqualChunks(Accepted(calls), size);
    if |calls| <= Needed(size) { Monotone(size, |calls|, Needed(size)); }
  }

  lemma Monotone(size: nat, a: nat, b: nat)
    requires a <= b
    ensures size * a <= size * b
  {
  }

  lemma DivisorFills(size: nat)
    requires size > 0 && BUFFER_SIZE % size == 0
    ensures size * Needed(size) == BUFFER_SIZE
  {
    var k := BUFFER_SIZE / size;
    assert size * k == BUFFER_SIZE;
    NeededFills(size, k);
    NeededFills(size, k - 1);
    assert size * (k - 1) == BUFFER_SIZE - size;
  }

  lemma NotDivisorOverfills(size: nat)
    requires size > 0 && BUFFER_SIZE % size != 0
    ensures size * Needed(size) > BUFFER_SIZE
  {
    NeededFills(size, Needed(size));
    NoMultiple(size, Needed(size));
  }

  lemma NoMultiple(size: nat, n: nat)
    requires size > 0 && BUFFER_SIZE % size != 0
    ensures size * n != BUFFER_SIZE
  {
    var q, r := BUFFER_SIZE / size, BUFFER_SIZE % size;
    assert size * q + r == BUFFER_SIZE;
    OneMore(size, q);
    if n > q { Monotone(size, q + 1, n); } else { Monotone(size, n, q); }
  }

  lemma OneMore(a: nat, b: nat)
    ensures a * (b + 1) == a * b + a
  {
  }

  /** The 320-byte frames of the recording: over every run the count is a multiple of 320 and at most 512000, and what
      is in the buffer is the first 1600 frames. */
  lemma FullRun(calls: seq<bytes>)
    requires Frames(calls, 320)
    ensures InBounds(calls) && |Flatten(Accepted(calls))| % 320 == 0 && |Flatten(Accepted(calls))| <= 512000
    ensures Accepted(calls) == if |calls| <= 1600 then calls else calls[..1600]
  {
    assert Needed(FRAME_SIZE) == 1600;
    AcceptedFrames(calls, FRAME_SIZE);
    AcceptedLength(calls, FRAME_SIZE);
  }
}
