/** The progress counter of `upload_file`: each chunk read from the file adds its length to a
    running total, and an `upload_progress` event reports a capped integer percent of the file
    size. After a successful response, a final event reports 100 percent. */
module UploadProgress {

  /** The payload of one `upload_progress` event. */
  datatype ProgressEvent = ProgressEvent(percent: nat, uploaded: nat, total: nat)

  /** Sum of the chunk lengths. */
  function Sum(s: seq<nat>): nat {
    if |s| == 0 then 0 else Sum(s[..|s| - 1]) + s[|s| - 1]
  }

  /** The percent shown for `uploaded` bytes of a `fileSize`-byte file: the floor of the ratio,
      capped at 100, and 0 when the size is unknown (0). */
  function Percent(uploaded: nat, fileSize: nat): (r: nat)
    ensures r <= 100
    ensures fileSize == 0 ==> r == 0
    ensures fileSize > 0 && uploaded >= fileSize ==> r == 100
    ensures fileSize > 0 && uploaded < fileSize ==> r * fileSize <= uploaded * 100 < (r + 1) * fileSize
  {
    if fileSize == 0 then 0
    else
      FloorRatio(uploaded, fileSize);
      if uploaded * 100 / fileSize > 100 then 100
      else uploaded * 100 / fileSize
  }

  /** The quotient of the ratio brackets it, and reaches 100 exactly when the file is complete. */
  lemma FloorRatio(uploaded: nat, fileSize: nat)
    requires fileSize > 0
    ensures var q := uploaded * 100 / fileSize;
            && q * fileSize <= uploaded * 100 < (q + 1) * fileSize
            && (q >= 100 <==> uploaded >= fileSize)
  {
    var n, q := uploaded * 100, uploaded * 100 / fileSize;
    assert n == q * fileSize + n % fileSize;
    assert (q + 1) * fileSize == q * fileSize + fileSize;
    MulIsMonotone(uploaded, fileSize, 100);
    MulIsMonotone(fileSize, uploaded, 100);
    MulIsMonotone(q + 1, 100, fileSize);
    MulIsMonotone(100, q, fileSize);
    assert 100 * fileSize == fileSize * 100;
  }

  /** Multiplying by a non-negative factor keeps the order (strictly, for a positive one). */
  lemma MulIsMonotone(a: int, b: int, f: int)
    ensures f >= 0 && a <= b ==> a * f <= b * f
    ensures f > 0 && a < b ==> a * f < b * f
  {
    if f > 0 && a < b {
      assert b * f == a * f + (b - a) * f;
    }
  }

  lemma DivIsMonotone(x: nat, y: nat, d: nat)
    requires x <= y && d > 0
    ensures x / d <= y / d
  {
    var qx, qy := x / d, y / d;
    assert qx * d + x % d == x && qy * d + y % d == y;
    assert qx * d < (qy + 1) * d;
  }

  /** More bytes never show a smaller percent. */
  lemma {:induction false} PercentIsMonotone(a: nat, b: nat, fileSize: nat)
    requires a <= b
    ensures Percent(a, fileSize) <= Percent(b, fileSize)
  {
    if fileSize > 0 {
      DivIsMonotone(a * 100, b * 100, fileSize);
    }
  }

  /** The shared counter behind the streaming callback (`*up += chunk.len()`). */
  class ProgressCounter {
    const fileSize: nat
    var uploaded: nat
    /** The lengths of the chunks seen so far. */
    ghost var chunks: seq<nat>

    ghost predicate Valid()
      reads this
    {
      uploaded == Sum(chunks)
    }

    constructor (fileSize: nat)
      ensures Valid() && this.fileSize == fileSize && chunks == [] && uploaded == 0
    {
      this.fileSize := fileSize;
      uploaded := 0;
      chunks := [];
    }

    /** One chunk passes through the stream: count it and report progress. */
    method OnChunk(len: nat) returns (ev: ProgressEvent)
      requires Valid()
      modifies this
      ensures Valid() && chunks == old(chunks) + [len]
      ensures uploaded == old(uploaded) + len
      ensures ev == ProgressEvent(Percent(uploaded, fileSize), uploaded, fileSize)
    {
      uploaded := uploaded + len;
      chunks := chunks + [len];
      assert chunks[..|chunks| - 1] == old(chunks);
      ev := ProgressEvent(Percent(uploaded, fileSize), uploaded, fileSize);
    }
  }

  /** The events one upload emits: one per chunk, then, if the server answered with
      success, a final 100 percent event. */
  method UploadEvents(chunks: seq<nat>, fileSize: nat, succeeded: bool) returns (events: seq<ProgressEvent>)
    ensures |events| == |chunks| + (if succeeded then 1 else 0)
    ensures forall i :: 0 <= i < |chunks| ==>
              && events[i].uploaded == Sum(chunks[..i + 1])
              && events[i].total == fileSize
              && events[i].percent == Percent(events[i].uploaded, fileSize)
    ensures forall i :: 0 <= i < |events| ==> events[i].percent <= 100
    ensures forall i, j :: 0 <= i <= j < |events| ==> events[i].percent <= events[j].percent
    ensures fileSize == 0 ==> forall i :: 0 <= i < |chunks| ==> events[i].percent == 0
    ensures succeeded ==> events[|chunks|] == ProgressEvent(100, fileSize, fileSize)
  {
    var counter := new ProgressCounter(fileSize);
    events := [];
    var i := 0;
    while i < |chunks|
      invariant 0 <= i <= |chunks| && |events| == i
      invariant counter.Valid() && counter.fileSize == fileSize && counter.chunks == chunks[..i]
      invariant forall k :: 0 <= k < i ==>
                  && events[k].uploaded == Sum(chunks[..k + 1])
                  && events[k].total == fileSize
                  && events[k].percent == Percent(events[k].uploaded, fileSize)
                  && events[k].uploaded <= counter.uploaded
      invariant forall k, j :: 0 <= k <= j < i ==> events[k].percent <= events[j].percent
    {
      var ev := counter.OnChunk(chunks[i]);
      assert counter.chunks == chunks[..i + 1];
      forall k | 0 <= k < i ensures events[k].percent <= ev.percent {
        PercentIsMonotone(events[k].uploaded, ev.uploaded, fileSize);
      }
      events := events + [ev];
      i := i + 1;
    }
    if succeeded {
      events := events + [ProgressEvent(100, fileSize, fileSize)];
    }
  }
}
