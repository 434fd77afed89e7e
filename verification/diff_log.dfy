/**
 * Diff-log memory persistence. Each save writes, to `<id>.bin`, the
 * `(offset, byte)` pairs where the memory image differs from the image kept
 * from the previous save or load (the baseline); the first save of a process
 * has no baseline and writes every non-zero byte. A load replays the logs of
 * snapshots 1 to N in order onto the memory.
 */
module DiffLog {
  import opened Wrappers

  /** One record of a log: `{8-byte offset, 1-byte value}`. */
  datatype Change = Change(offset: nat, value: bv8)

  type Log = seq<Change>

  /**
   * The byte a position is compared against: the baseline's byte, or zero
   * where there is no baseline or the baseline is shorter than the image.
   */
  function BaselineByte(baseline: Option<seq<bv8>>, i: nat): bv8
  {
    if baseline.Some? && i < |baseline.value| then baseline.value[i] else 0
  }

  /** Whether the save loop writes position `i`. */
  predicate Emits(baseline: Option<seq<bv8>>, image: seq<bv8>, i: nat): (e: bool)
    requires i < |image|
    ensures baseline.None? ==> (e <==> image[i] != 0)
    ensures baseline.Some? && i < |baseline.value| ==> (e <==> image[i] != baseline.value[i])
  {
    (baseline.None? || image[i] != BaselineByte(baseline, i))
    && !(baseline.None? && image[i] == 0)
  }

  /** A position is written exactly when it differs from the byte it is compared against. */
  lemma EmitsIffChanged(baseline: Option<seq<bv8>>, image: seq<bv8>, i: nat)
    requires i < |image|
    ensures Emits(baseline, image, i) <==> image[i] != BaselineByte(baseline, i)
  {
  }

  /** The records the save loop has written after positions 0 to n-1. */
  function DiffUpTo(baseline: Option<seq<bv8>>, image: seq<bv8>, n: nat): (log: Log)
    requires n <= |image|
    ensures |log| <= n
  {
    if n == 0 then []
    else
      DiffUpTo(baseline, image, n - 1)
      + (if Emits(baseline, image, n - 1) then [Change(n - 1, image[n - 1])] else [])
  }

  /**
   * The log holds exactly the positions that changed, each with the current
   * byte, in strictly increasing order of offset.
   */
  lemma {:induction false} DiffUpToExact(baseline: Option<seq<bv8>>, image: seq<bv8>, n: nat)
    requires n <= |image|
    ensures var log := DiffUpTo(baseline, image, n);
      && (forall c :: c in log ==> c.offset < n && c.value == image[c.offset] && Emits(baseline, image, c.offset))
      && (forall i :: 0 <= i < n && Emits(baseline, image, i) ==> Change(i, image[i]) in log)
      && (forall k, k' :: 0 <= k < k' < |log| ==> log[k].offset < log[k'].offset)
  {
    if n > 0 {
      DiffUpToExact(baseline, image, n - 1);
    }
  }

  /** The log `save_changes_to_file` writes for the whole image. */
  function Diff(baseline: Option<seq<bv8>>, image: seq<bv8>): (log: Log)
    ensures forall c :: c in log ==> c.offset < |image| && c.value == image[c.offset]
    ensures baseline.None? ==> forall c :: c in log ==> c.value != 0
  {
    DiffUpToExact(baseline, image, |image|);
    DiffUpTo(baseline, image, |image|)
  }

  /** The first save of a process writes nothing for an all-zero image, and only for one. */
  lemma FirstSaveIsSparse(image: seq<bv8>)
    ensures Diff(None, image) == [] <==> forall i :: 0 <= i < |image| ==> image[i] == 0
  {
    var log := Diff(None, image);
    DiffUpToExact(None, image, |image|);
    if log != [] {
      assert log[0] in log;
    }
  }

  /** The baseline after a save: a copy of the image, or none for an empty image. */
  function NextBaseline(image: seq<bv8>): (b: Option<seq<bv8>>)
    ensures b.Some? <==> |image| > 0
    ensures b.Some? ==> b.value == image
  {
    if |image| == 0 then None else Some(image)
  }

  /** One iteration of the replay loop: `data[offset] = value` when `offset < elemNum`. */
  function ApplyChange(image: seq<bv8>, elemNum: nat, c: Change): (r: seq<bv8>)
    requires elemNum <= |image|
    ensures |r| == |image|
  {
    if c.offset < elemNum then image[c.offset := c.value] else image
  }

  /** `load_changes_from_file`: the log's records applied in order. */
  function Apply(image: seq<bv8>, elemNum: nat, log: Log): (r: seq<bv8>)
    requires elemNum <= |image|
    ensures |r| == |image|
  {
    if log == [] then image
    else ApplyChange(Apply(image, elemNum, log[..|log| - 1]), elemNum, log[|log| - 1])
  }

  /** A position that no in-range record names keeps its byte. */
  lemma {:induction false} ApplyKeeps(image: seq<bv8>, elemNum: nat, log: Log, j: nat)
    requires elemNum <= |image| && j < |image|
    requires j >= elemNum || forall k :: 0 <= k < |log| ==> log[k].offset != j
    ensures Apply(image, elemNum, log)[j] == image[j]
  {
    if log != [] {
      var n := |log| - 1;
      assert forall k :: 0 <= k < n ==> log[..n][k] == log[k];
      ApplyKeeps(image, elemNum, log[..n], j);
    }
  }

  /** A position named by an in-range record takes the byte of the last record naming it. */
  lemma {:induction false} ApplyLastWins(image: seq<bv8>, elemNum: nat, log: Log, k: nat)
    requires elemNum <= |image|
    requires k < |log| && log[k].offset < elemNum
    requires forall k' :: k < k' < |log| ==> log[k'].offset != log[k].offset
    ensures Apply(image, elemNum, log)[log[k].offset] == log[k].value
  {
    var n := |log| - 1;
    if k < n {
      assert forall i :: 0 <= i < n ==> log[..n][i] == log[i];
      ApplyLastWins(image, elemNum, log[..n], k);
    }
  }

  /** The logs a run of saves writes, starting in a process with no baseline. */
  function SaveLogs(images: seq<seq<bv8>>): (logs: seq<Log>)
    ensures |logs| == |images|
  {
    if images == [] then []
    else
      var k := |images| - 1;
      SaveLogs(images[..k]) + [Diff(BaselineAfter(images[..k]), images[k])]
  }

  /** The baseline after a run of saves. */
  function BaselineAfter(images: seq<seq<bv8>>): Option<seq<bv8>>
  {
    if images == [] then None else NextBaseline(images[|images| - 1])
  }

  /** The loop of `load_memory` over snapshots 1 to N. */
  function ReplayAll(image: seq<bv8>, elemNum: nat, logs: seq<Log>): (r: seq<bv8>)
    requires elemNum <= |image|
    ensures |r| == |image|
  {
    if logs == [] then image
    else Apply(ReplayAll(image, elemNum, logs[..|logs| - 1]), elemNum, logs[|logs| - 1])
  }

  /** Applying the first n records of a diff brings positions 0 to n-1 up to date. */
  lemma {:induction false} DiffUpToRestores(baseline: Option<seq<bv8>>, cur: seq<bv8>, image: seq<bv8>, elemNum: nat, n: nat)
    requires n <= |cur| <= elemNum <= |image|
    requires forall i :: 0 <= i < |cur| ==> image[i] == BaselineByte(baseline, i)
    ensures Apply(image, elemNum, DiffUpTo(baseline, cur, n)) == cur[..n] + image[n..]
  {
    if n == 0 {
      assert image[0..] == image;
    } else {
      var d := DiffUpTo(baseline, cur, n - 1);
      DiffUpToRestores(baseline, cur, image, elemNum, n - 1);
      var before := cur[..n - 1] + image[n - 1..];
      assert Apply(image, elemNum, d) == before;
      var after := before[n - 1 := cur[n - 1]];
      assert after == cur[..n] + image[n..];
      if Emits(baseline, cur, n - 1) {
        var log := d + [Change(n - 1, cur[n - 1])];
        assert log[..|log| - 1] == d;
        assert Apply(image, elemNum, log) == ApplyChange(before, elemNum, Change(n - 1, cur[n - 1]));
      } else {
        assert d + [] == d;
        assert before == after;
      }
    }
  }

  /**
   * Applying the diff of (baseline -> cur) to an image that holds the
   * baseline's bytes yields cur, and leaves the rest of the image alone.
   */
  lemma DiffRestores(baseline: Option<seq<bv8>>, cur: seq<bv8>, image: seq<bv8>, elemNum: nat)
    requires |cur| <= elemNum <= |image|
    requires forall i :: 0 <= i < |cur| ==> image[i] == BaselineByte(baseline, i)
    ensures Apply(image, elemNum, Diff(baseline, cur)) == cur + image[|cur|..]
  {
    DiffUpToRestores(baseline, cur, image, elemNum, |cur|);
    assert cur[..|cur|] == cur;
  }

  /** The memory of a WebAssembly instance only grows. */
  ghost predicate Growing(images: seq<seq<bv8>>)
  {
    forall k, k' :: 0 <= k < k' < |images| ==> |images[k]| <= |images[k']|
  }

  /** The most recent image of a run, empty before the first save. */
  function Latest(images: seq<seq<bv8>>): seq<bv8>
  {
    if images == [] then [] else images[|images| - 1]
  }

  /**
   * One save more: once the earlier logs have rebuilt the previous image,
   * replaying the new save's log moves the memory on to the new image.
   */
  lemma ReplayNext(images: seq<seq<bv8>>, elemNum: nat, zero: seq<bv8>)
    requires images != []
    requires var prev := Latest(images[..|images| - 1]);
      && |prev| <= |Latest(images)| <= elemNum <= |zero|
      && ReplayAll(zero, elemNum, SaveLogs(images[..|images| - 1])) == prev + zero[|prev|..]
    requires forall i :: 0 <= i < |zero| ==> zero[i] == 0
    ensures ReplayAll(zero, elemNum, SaveLogs(images)) == Latest(images) + zero[|Latest(images)|..]
  {
    var k := |images| - 1;
    var prefix := images[..k];
    var img := images[k];
    var baseline := BaselineAfter(prefix);
    var logs := SaveLogs(images);
    assert logs == SaveLogs(prefix) + [Diff(baseline, img)];
    assert logs[..k] == SaveLogs(prefix);
    var prev := Latest(prefix);
    var image := prev + zero[|prev|..];
    assert ReplayAll(zero, elemNum, logs) == Apply(image, elemNum, Diff(baseline, img));
    forall i | 0 <= i < |img|
      ensures image[i] == BaselineByte(baseline, i)
    {
      if i < |prev| {
        assert image[i] == prev[i];
      } else {
        assert image[i] == zero[i];
      }
    }
    DiffRestores(baseline, img, image, elemNum);
    assert image[|img|..] == zero[|img|..];
  }

  /**
   * Cumulative replay: replaying the logs of a run of saves, in order, onto a
   * zeroed memory large enough for every image reproduces the latest image.
   * Since `images[..k]` is itself a run, replaying logs 1 to k reproduces
   * image k for every k.
   */
  lemma {:induction false} CumulativeReplay(images: seq<seq<bv8>>, elemNum: nat, zero: seq<bv8>)
    requires Growing(images)
    requires forall k :: 0 <= k < |images| ==> |images[k]| <= elemNum
    requires elemNum <= |zero|
    requires forall i :: 0 <= i < |zero| ==> zero[i] == 0
    ensures ReplayAll(zero, elemNum, SaveLogs(images)) == Latest(images) + zero[|Latest(images)|..]
  {
    if images == [] {
      assert zero[0..] == zero;
    } else {
      var k := |images| - 1;
      var prefix := images[..k];
      assert Growing(prefix);
      assert forall j :: 0 <= j < k ==> prefix[j] == images[j];
      CumulativeReplay(prefix, elemNum, zero);
      assert |Latest(prefix)| <= |images[k]|;
      ReplayNext(images, elemNum, zero);
    }
  }

  /**
   * The baseline read as `save_changes_to_file` reads it: `SavedData[i]`,
   * which is outside the buffer (None) past its end.
   */
  function SavedByteAsWritten(saved: seq<bv8>, i: nat): Option<bv8>
  {
    if i < |saved| then Some(saved[i]) else None
  }

  /**
   * The save loop as written, for positions 0 to n-1: None when it reads
   * `SavedData` past the end of the buffer.
   */
  function DiffUpToAsWritten(baseline: Option<seq<bv8>>, image: seq<bv8>, n: nat): (r: Option<Log>)
    requires n <= |image|
    ensures r.None? ==> baseline.Some? && |baseline.value| < n
    ensures r.Some? ==> |r.value| <= n
  {
    if n == 0 then Some([])
    else
      match DiffUpToAsWritten(baseline, image, n - 1)
      case None => None
      case Some(log) =>
        var i := n - 1;
        if baseline.None? then
          Some(log + (if image[i] != 0 then [Change(i, image[i])] else []))
        else
          match SavedByteAsWritten(baseline.value, i)
          case None => None
          case Some(b) => Some(log + (if image[i] != b then [Change(i, image[i])] else []))
  }

  /** Where the baseline covers the image, the loop as written writes `Diff`. */
  lemma {:induction false} AsWrittenAgreesWithinBaseline(baseline: Option<seq<bv8>>, image: seq<bv8>, n: nat)
    requires n <= |image|
    requires baseline.Some? ==> n <= |baseline.value|
    ensures DiffUpToAsWritten(baseline, image, n) == Some(DiffUpTo(baseline, image, n))
  {
    if n > 0 {
      AsWrittenAgreesWithinBaseline(baseline, image, n - 1);
    }
  }

  /**
   * After the memory grew since the last save, the loop as written reads the
   * baseline past its end: for example a one-page baseline and a two-page
   * image.
   */
  lemma {:induction false} AsWrittenReadsPastBaseline(saved: seq<bv8>, image: seq<bv8>, n: nat)
    requires |saved| < n <= |image|
    ensures DiffUpToAsWritten(Some(saved), image, n) == None
    decreases n
  {
    if n - 1 > |saved| {
      AsWrittenReadsPastBaseline(saved, image, n - 1);
    } else {
      AsWrittenAgreesWithinBaseline(Some(saved), image, n - 1);
    }
  }
}
