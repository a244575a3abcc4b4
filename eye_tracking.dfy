/** The gaze recorder of `eye_tracking.py`: the module-level state that the
    gaze callback updates, `start_eye_recording` resets and
    `stop_eye_recording` drains into CSV rows. The tracker SDK, the lock and
    the file are left to the caller: callbacks are sequential method calls,
    the clock reading is a parameter, and the rows a stop writes are its
    result. */
module EyeTracking {
  import opened Wrappers

  /** One gaze sample as the SDK delivers it, as a dictionary: each field is
      the value under its key, `None` when the key is absent. */
  datatype GazeData = GazeData(
    systemTimeStamp: Option<real>,
    leftPupilDiameter: Option<real>,
    rightPupilDiameter: Option<real>,
    leftValidity: Option<int>,
    leftPupilValidity: Option<int>,
    rightValidity: Option<int>,
    rightPupilValidity: Option<int>)

  /** The validity code under the primary key, else under the fallback key,
      else 0 (valid). */
  function ValidityCode(primary: Option<int>, fallback: Option<int>): (code: int)
    ensures primary.Some? ==> code == primary.value
    ensures primary.None? && fallback.Some? ==> code == fallback.value
    ensures primary.None? && fallback.None? ==> code == 0
  {
    primary.GetOr(fallback.GetOr(0))
  }

  /** 1 when either eye reports a non-zero (invalid) validity code, else 0. */
  function BlinkFlag(g: GazeData): (f: int)
    ensures f == 0 || f == 1
    ensures f == 1 <==>
      ValidityCode(g.leftValidity, g.leftPupilValidity) != 0 ||
      ValidityCode(g.rightValidity, g.rightPupilValidity) != 0
  {
    var left := ValidityCode(g.leftValidity, g.leftPupilValidity);
    var right := ValidityCode(g.rightValidity, g.rightPupilValidity);
    if left != 0 || right != 0 then 1 else 0
  }

  /** A sample that reports no validity code at all counts as valid. */
  lemma NoValidityIsNoBlink(g: GazeData)
    requires g.leftValidity.None? && g.leftPupilValidity.None?
    requires g.rightValidity.None? && g.rightPupilValidity.None?
    ensures BlinkFlag(g) == 0
  {
  }

  /** The per-eye code under the primary key decides the flag, whatever the
      fallback key holds. */
  lemma PrimaryValidityDecides(g: GazeData, h: GazeData)
    requires g.leftValidity.Some? && g.rightValidity.Some?
    requires h.leftValidity == g.leftValidity && h.rightValidity == g.rightValidity
    ensures BlinkFlag(g) == BlinkFlag(h)
  {
  }

  /** The sample's system time stamp, or the clock reading `now` when the
      sample has none. */
  function TimeStamp(g: GazeData, now: real): (ts: real)
    ensures g.systemTimeStamp.Some? ==> ts == g.systemTimeStamp.value
    ensures g.systemTimeStamp.None? ==> ts == now
  {
    g.systemTimeStamp.GetOr(now)
  }

  /** A buffered `(ts, left_pupil, right_pupil, blink_flag)` tuple. */
  datatype Sample = Sample(ts: real, left: Option<real>, right: Option<real>, blink: int)

  /** What the callback buffers for `g`. */
  function SampleOf(g: GazeData, now: real): (s: Sample)
    ensures s.ts == TimeStamp(g, now)
    ensures s.left == g.leftPupilDiameter && s.right == g.rightPupilDiameter
    ensures s.blink == BlinkFlag(g)
  {
    Sample(TimeStamp(g, now), g.leftPupilDiameter, g.rightPupilDiameter, BlinkFlag(g))
  }

  /** A CSV row written at stop: one per sample, and the closing count. */
  datatype Row =
    | SampleRow(participant: string, run: string, ts: real, left: Option<real>, right: Option<real>, blink: int)
    | BlinkCountRow(participant: string, run: string, count: int)

  /** The rows for the buffered samples, one per sample in arrival order. */
  function SampleRows(participant: string, run: string, b: seq<Sample>): (rows: seq<Row>)
    ensures |rows| == |b|
    ensures forall i :: 0 <= i < |b| ==>
      rows[i] == SampleRow(participant, run, b[i].ts, b[i].left, b[i].right, b[i].blink)
  {
    if b == [] then []
    else
      var last := b[|b| - 1];
      SampleRows(participant, run, b[..|b| - 1]) + [SampleRow(participant, run, last.ts, last.left, last.right, last.blink)]
  }

  // ---------------------------------------------------------------------
  // Blink onsets over the flags of a recording

  predicate AreFlags(fs: seq<int>) {
    forall i :: 0 <= i < |fs| ==> fs[i] == 0 || fs[i] == 1
  }

  /** `prev_blink` after the flags `fs`: the last flag, 0 before any. */
  function LastFlag(fs: seq<int>): int {
    if fs == [] then 0 else fs[|fs| - 1]
  }

  /** The number of 0 -> 1 transitions in `fs`, starting from 0. */
  function Onsets(fs: seq<int>): (k: nat)
    ensures k <= |fs|
  {
    if fs == [] then 0
    else
      var prev := fs[..|fs| - 1];
      Onsets(prev) + (if fs[|fs| - 1] != 0 && LastFlag(prev) == 0 then 1 else 0)
  }

  /** The number of blink samples (flag 1) in `fs`. */
  function Ones(fs: seq<int>): (k: nat)
    ensures k <= |fs|
  {
    if fs == [] then 0
    else Ones(fs[..|fs| - 1]) + (if fs[|fs| - 1] == 1 then 1 else 0)
  }

  /** Each blink onset is a blink sample, so there are no more onsets than
      blink samples. */
  lemma {:induction false} OnsetsAtMostOnes(fs: seq<int>)
    requires AreFlags(fs)
    ensures Onsets(fs) <= Ones(fs)
  {
    if fs != [] {
      OnsetsAtMostOnes(fs[..|fs| - 1]);
    }
  }

  /** Two onsets need a valid sample between them: at most one onset per
      two samples, rounding up when the last sample is a blink. */
  lemma {:induction false} OnsetsAtMostHalf(fs: seq<int>)
    requires AreFlags(fs)
    ensures 2 * Onsets(fs) <= |fs| + LastFlag(fs)
  {
    if fs != [] {
      OnsetsAtMostHalf(fs[..|fs| - 1]);
    }
  }

  /** An unbroken blink is a single onset. */
  lemma {:induction false} OnsetsOfOneBlink(fs: seq<int>)
    requires |fs| > 0 && forall i :: 0 <= i < |fs| ==> fs[i] == 1
    ensures Onsets(fs) == 1
  {
    if |fs| > 1 {
      OnsetsOfOneBlink(fs[..|fs| - 1]);
    }
  }

  // ---------------------------------------------------------------------
  // The recorder

  class GazeRecorder {
    /** `eye_tracker_available`, fixed when the module is loaded. */
    const trackerAvailable: bool
    var prevBlink: int
    var blinkCount: int
    var buffer: seq<Sample>
    /** Whether `csv_file` is open. */
    var fileOpen: bool
    /** `participant_id_global` and `run_id_global`. */
    var participant: string
    var run: string
    /** The flags of every sample since the last start. */
    ghost var session: seq<int>

    ghost predicate Valid()
      reads this
    {
      AreFlags(session) && prevBlink == LastFlag(session) && blinkCount == Onsets(session)
    }

    /** The state when the module is loaded: no blink seen, nothing buffered,
        no file open. */
    constructor(trackerAvailable: bool)
      ensures Valid()
      ensures this.trackerAvailable == trackerAvailable
      ensures prevBlink == 0 && blinkCount == 0 && buffer == [] && !fileOpen && session == []
    {
      this.trackerAvailable := trackerAvailable;
      prevBlink := 0;
      blinkCount := 0;
      buffer := [];
      fileOpen := false;
      participant := "";
      run := "";
      session := [];
    }

    /** `gaze_data_callback`: flags the sample, counts a blink onset, and
        buffers the sample. */
    method OnGazeData(g: GazeData, now: real)
      requires Valid()
      modifies this
      ensures Valid()
      ensures session == old(session) + [BlinkFlag(g)]
      ensures prevBlink == BlinkFlag(g)
      ensures blinkCount == old(blinkCount) + (if BlinkFlag(g) == 1 && old(prevBlink) == 0 then 1 else 0)
      ensures buffer == old(buffer) + [SampleOf(g, now)]
      ensures fileOpen == old(fileOpen) && participant == old(participant) && run == old(run)
    {
      var ts := g.systemTimeStamp.GetOr(now);
      var leftPupil := g.leftPupilDiameter;
      var rightPupil := g.rightPupilDiameter;
      var leftValid := g.leftValidity.GetOr(g.leftPupilValidity.GetOr(0));
      var rightValid := g.rightValidity.GetOr(g.rightPupilValidity.GetOr(0));
      var blinkFlag := if leftValid != 0 || rightValid != 0 then 1 else 0;
      if blinkFlag != 0 && prevBlink == 0 {
        blinkCount := blinkCount + 1;
      }
      prevBlink := blinkFlag;
      buffer := buffer + [Sample(ts, leftPupil, rightPupil, blinkFlag)];
      assert (session + [blinkFlag])[..|session|] == session;
      session := session + [blinkFlag];
    }

    /** `start_eye_recording`: a new recording with an empty buffer and no
        blink seen; the output file is opened only with a tracker. */
    method StartRecording(participantId: string, runId: string)
      modifies this
      ensures Valid()
      ensures buffer == [] && blinkCount == 0 && prevBlink == 0 && session == []
      ensures fileOpen == trackerAvailable
      ensures participant == participantId && run == runId
    {
      participant := participantId;
      run := runId;
      buffer := [];
      blinkCount := 0;
      prevBlink := 0;
      session := [];
      if trackerAvailable {
        fileOpen := true;
      }
      else {
        fileOpen := false;
      }
    }

    /** `stop_eye_recording`: with the file open, writes one row per buffered
        sample in arrival order and then the blink count, empties the buffer
        and closes the file; otherwise writes nothing and changes nothing. */
    method StopRecording(participantId: string, runId: string) returns (rows: seq<Row>)
      requires Valid()
      modifies this
      ensures Valid()
      ensures old(fileOpen) ==> rows == SampleRows(participantId, runId, old(buffer)) + [BlinkCountRow(participantId, runId, blinkCount)]
      ensures old(fileOpen) ==> buffer == [] && !fileOpen
      ensures !old(fileOpen) ==> rows == [] && buffer == old(buffer) && !fileOpen
      ensures blinkCount == old(blinkCount) && prevBlink == old(prevBlink) && session == old(session)
      ensures participant == old(participant) && run == old(run)
    {
      rows := [];
      if !fileOpen {
        return;
      }
      for i := 0 to |buffer|
        invariant rows == SampleRows(participantId, runId, buffer[..i])
      {
        var s := buffer[i];
        assert buffer[..i + 1][..i] == buffer[..i];
        rows := rows + [SampleRow(participantId, runId, s.ts, s.left, s.right, s.blink)];
      }
      assert buffer[..|buffer|] == buffer;
      rows := rows + [BlinkCountRow(participantId, runId, blinkCount)];
      buffer := [];
      fileOpen := false;
    }

    /** The count never exceeds the blink samples since the last start. */
    lemma BlinkCountBounded()
      requires Valid()
      ensures blinkCount <= Ones(session)
    {
      OnsetsAtMostOnes(session);
    }
  }
}
