/**
  Progress reporting on the receiving side: the `ProgressReader` wrapper of
  log-progress-reader.go, which counts the bytes of every successful read and
  hands the running total to a callback, and the copy-speed arithmetic the
  receiver's callback performs (client.go). Clocks are parameters.
*/
module Progress {
  import opened Wrappers

  datatype ReadError = EndOfStream | ReadFailure

  /** What one `Read` of the wrapped reader returned. */
  datatype ReadReturn = ReadReturn(byteCount: nat, err: Option<ReadError>)

  /** The wrapper's state: the bytes counted so far. */
  datatype ProgressReader = ProgressReader(bytesCopied: int)

  /** One call of `ProgressReader.Read`: the new state, the value handed to
      the callback if it was called, and what the call returns. */
  datatype ReadStep = ReadStep(reader: ProgressReader, reported: Option<int>, returned: ReadReturn)

  /** A read that returns an error leaves the count alone and skips the
      callback, even when it also delivered bytes. */
  function Read(pr: ProgressReader, r: ReadReturn): (s: ReadStep)
    ensures s.returned == r
    ensures r.err.None? ==> s.reader.bytesCopied == pr.bytesCopied + r.byteCount
    ensures r.err.None? ==> s.reported == Some(s.reader.bytesCopied)
    ensures r.err.Some? ==> s.reader == pr && s.reported.None?
  {
    if r.err.None? then
      var next := ProgressReader(pr.bytesCopied + r.byteCount);
      ReadStep(next, Some(next.bytesCopied), r)
    else ReadStep(pr, None, r)
  }

  /** The bytes delivered by the reads that did not fail. */
  function SuccessfulBytes(rs: seq<ReadReturn>): nat {
    if rs == [] then 0
    else (if rs[0].err.None? then rs[0].byteCount else 0) + SuccessfulBytes(rs[1..])
  }

  function SuccessfulReads(rs: seq<ReadReturn>): nat {
    if rs == [] then 0
    else (if rs[0].err.None? then 1 else 0) + SuccessfulReads(rs[1..])
  }

  lemma NoSuccessNoBytes(rs: seq<ReadReturn>)
    ensures SuccessfulReads(rs) == 0 ==> SuccessfulBytes(rs) == 0
  {
    if rs != [] {
      NoSuccessNoBytes(rs[1..]);
    }
  }

  /** A run of reads: the final state and every value the callback received. */
  datatype Run = Run(reader: ProgressReader, reports: seq<int>)

  /** Any sequence of reads: the count ends at the start plus the bytes of
      the successful reads; the callback is called once per successful read
      with a running total that never decreases and ends at the final count. */
  function ReadAll(pr: ProgressReader, rs: seq<ReadReturn>): (run: Run)
    ensures run.reader.bytesCopied == pr.bytesCopied + SuccessfulBytes(rs)
    ensures |run.reports| == SuccessfulReads(rs)
    ensures forall i, j :: 0 <= i <= j < |run.reports| ==> run.reports[i] <= run.reports[j]
    ensures forall i :: 0 <= i < |run.reports| ==> pr.bytesCopied <= run.reports[i] <= run.reader.bytesCopied
    ensures |run.reports| > 0 ==> run.reports[|run.reports| - 1] == run.reader.bytesCopied
    decreases |rs|
  {
    if rs == [] then Run(pr, [])
    else
      var s := Read(pr, rs[0]);
      var rest := ReadAll(s.reader, rs[1..]);
      NoSuccessNoBytes(rs[1..]);
      match s.reported
      case None => rest
      case Some(total) => Run(rest.reader, [total] + rest.reports)
  }

  /** Copying a payload in reads of positive size that all succeed: the
      callback sees the announced size exactly once, on the last read, so the
      receiver's `copyComplete` is reported once and at the end. */
  lemma {:induction false} CompleteExactlyAtEnd(pr: ProgressReader, rs: seq<ReadReturn>, fileSize: int)
    requires forall i :: 0 <= i < |rs| ==> rs[i].err.None? && rs[i].byteCount > 0
    requires pr.bytesCopied + SuccessfulBytes(rs) == fileSize
    ensures forall i :: 0 <= i < |ReadAll(pr, rs).reports| ==>
      (ReadAll(pr, rs).reports[i] == fileSize <==> i == |ReadAll(pr, rs).reports| - 1)
    decreases |rs|
  {
    if rs != [] {
      var s := Read(pr, rs[0]);
      CompleteExactlyAtEnd(s.reader, rs[1..], fileSize);
      var rest := ReadAll(s.reader, rs[1..]);
      if rs[1..] != [] {
        assert rs[1..][0] == rs[1];
        assert |rest.reports| > 0;
        assert s.reader.bytesCopied < rest.reports[0];
      }
    }
  }

  const MiB: int := 1048576

  /** Go's `/` on int64: the quotient truncated toward zero. */
  function GoDiv(a: int, b: int): (q: int)
    requires b > 0
    ensures a >= 0 ==> q * b <= a < (q + 1) * b
    ensures a < 0 ==> q <= 0 && (q - 1) * b < a <= q * b
  {
    if a >= 0 then a / b else -((-a) / b)
  }

  /** The variables the receiver's callback closes over. */
  datatype SpeedSampler = SpeedSampler(copySpeed: int, sampleStartTime: int, sampleStartBytes: int)

  /** Before the copy starts: no speed yet, the window opened one
      millisecond ago, nothing copied. */
  function StartSampler(now: int): SpeedSampler {
    SpeedSampler(0, now - 1, 0)
  }

  datatype Sample = Sample(sampler: SpeedSampler, copyComplete: bool)

  /** On a non-negative dividend Go's `/` is Dafny's: the quotient is the
      largest q with q * b <= a. */
  lemma TruncatedDivision(a: int, b: int)
    requires a >= 0 && b > 0
    ensures GoDiv(a, b) == a / b
    ensures 0 <= a / b && (a / b) * b <= a < (a / b) * b + b
  {
    var q, m := a / b, a % b;
    assert a == q * b + m && 0 <= m < b;
    MulSign(q + 1, b);
    assert (q + 1) * b == q * b + b;
  }

  lemma MulSign(x: int, b: int)
    requires b > 0
    ensures x <= 0 ==> x * b <= 0
    ensures x >= 0 ==> x * b >= 0
  {
  }

  /** Whole MiB over whole seconds, each truncated as Go's int64 `/` does,
      for a window of at least a second. */
  function Speed(bytes: int, millis: int): (speed: int)
    requires millis >= 1000
    ensures bytes >= 0 ==>
      var secs, mib := millis / 1000, bytes / MiB;
      && secs >= 1
      && 0 <= speed
      && speed * secs <= mib < speed * secs + secs
  {
    TruncatedDivision(millis, 1000);
    var secs := GoDiv(millis, 1000);
    var mib := GoDiv(bytes, MiB);
    if bytes >= 0 then
      TruncatedDivision(bytes, MiB);
      TruncatedDivision(mib, secs);
      GoDiv(mib, secs)
    else
      GoDiv(mib, secs)
  }

  /** The receiver's progress callback for a running total `bytesCopied`.
      `now` is the clock reading the window length is measured with and
      `resetTime` the later reading the new window starts from. The speed is
      recomputed only once the window has lasted a second, so the divisor
      (whole seconds) is at least 1; it is whole MiB over whole seconds. */
  function OnProgress(s: SpeedSampler, bytesCopied: int, fileSize: int, now: int, resetTime: int): (r: Sample)
    ensures r.copyComplete <==> bytesCopied == fileSize
    ensures now - s.sampleStartTime < 1000 ==> r.sampler == s
    ensures now - s.sampleStartTime >= 1000 ==>
      && r.sampler.sampleStartTime == resetTime
      && r.sampler.sampleStartBytes == bytesCopied
    ensures now - s.sampleStartTime >= 1000 && bytesCopied >= s.sampleStartBytes ==>
      var secs, mib := (now - s.sampleStartTime) / 1000, (bytesCopied - s.sampleStartBytes) / MiB;
      && secs >= 1
      && 0 <= r.sampler.copySpeed
      && r.sampler.copySpeed * secs <= mib < r.sampler.copySpeed * secs + secs
  {
    var sampleDuration := now - s.sampleStartTime;
    var sampleBytesCopied := bytesCopied - s.sampleStartBytes;
    var next :=
      if sampleDuration >= 1000 then
        SpeedSampler(Speed(sampleBytesCopied, sampleDuration), resetTime, bytesCopied)
      else s;
    Sample(next, bytesCopied == fileSize)
  }

  /** The sampler starts with its window already one millisecond old. A
      callback less than 999 ms after the start keeps the speed at zero; a
      later one measures whole MiB over the whole seconds since one
      millisecond before the start. */
  lemma FirstWindow(start: int, bytesCopied: int, fileSize: int, now: int, resetTime: int)
    ensures var r := OnProgress(StartSampler(start), bytesCopied, fileSize, now, resetTime);
      && (now - start < 999 ==> r.sampler.copySpeed == 0 && r.sampler.sampleStartBytes == 0)
      && (now - start >= 999 && bytesCopied >= 0 ==>
            var secs, mib := (now - start + 1) / 1000, bytesCopied / MiB;
            && secs >= 1
            && r.sampler.copySpeed * secs <= mib < r.sampler.copySpeed * secs + secs)
  {
  }
}
