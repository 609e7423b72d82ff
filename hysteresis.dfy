/** The decision logic of the fanfare daemon, as values and functions.

    A sensor snapshot is a sequence of chips, each a sequence of features
    (a label and a temperature reading).  One polling pass walks every
    feature of every chip in enumeration order; each feature whose label is
    the target label is compared with the threshold and may flip the
    two-state controller, which then issues one command to the fan device.

    `Status` pairs the controller flag (`full_speed_on` in the daemon) with
    the levels commanded so far, so that one fold describes both what the
    flag becomes and which commands are written.
 */
module Hysteresis {

  /** The two levels the fan device accepts from the daemon. */
  datatype Level = FullSpeed | Auto

  /** One sensor feature: its label and its current reading. */
  datatype Feature = Feature(name: string, value: real)

  type Chip = seq<Feature>

  /** Everything the sensor library reports in one enumeration. */
  type Snapshot = seq<Chip>

  /** The controller flag and the levels commanded so far, oldest first. */
  datatype Status = Status(engaged: bool, sent: seq<Level>)

  // The configuration the daemon fixes at construction.
  const DEFAULT_THRESHOLD: real := 75.0
  const DEFAULT_POLL_TIME: nat := 30
  const DEFAULT_DEVICE: string := "/proc/acpi/ibm/fan"
  const DEFAULT_LABEL: string := "Physical id 0"

  function LevelName(level: Level): string {
    match level
    case FullSpeed => "full-speed"
    case Auto => "auto"
  }

  /** The string written to the fan device to select `level`. Each level has
      its own string, and no other string is ever produced. */
  function Command(level: Level): (c: string)
    ensures c == "level full-speed" <==> level == FullSpeed
    ensures c == "level auto" <==> level == Auto
  {
    "level " + LevelName(level)
  }

  /** The level that puts the controller in state `engaged`. */
  function LevelFor(engaged: bool): Level {
    if engaged then FullSpeed else Auto
  }

  /** The device strings written for the levels `levels`, in order. */
  function Render(levels: seq<Level>): (r: seq<string>)
    ensures |r| == |levels|
    ensures forall k :: 0 <= k < |levels| ==> r[k] == Command(levels[k])
  {
    if levels == [] then []
    else Render(levels[..|levels| - 1]) + [Command(levels[|levels| - 1])]
  }

  /** One matching reading: the flag becomes "the reading is at or above the
      threshold" (inclusive), and a command is issued exactly when the flag
      changes, naming the level of its new value. */
  function React(s: Status, value: real, threshold: real): (r: Status)
    ensures r.engaged == (value >= threshold)
    ensures r.sent == s.sent + (if s.engaged == r.engaged then [] else [LevelFor(r.engaged)])
  {
    if value >= threshold then
      if !s.engaged then Status(true, s.sent + [FullSpeed]) else s
    else
      if s.engaged then Status(false, s.sent + [Auto]) else s
  }

  /** One feature of the enumeration: only the target label is compared. */
  function Observe(s: Status, f: Feature, threshold: real, target: string): Status {
    if f.name == target then React(s, f.value, threshold) else s
  }

  /** The inner loop over the features of one chip. */
  function ObserveChip(s: Status, chip: Chip, threshold: real, target: string): Status
    decreases |chip|
  {
    if chip == [] then s
    else Observe(ObserveChip(s, chip[..|chip| - 1], threshold, target), chip[|chip| - 1], threshold, target)
  }

  /** One polling pass: the outer loop over the chips of a snapshot. */
  function ObservePass(s: Status, chips: Snapshot, threshold: real, target: string): Status
    decreases |chips|
  {
    if chips == [] then s
    else ObserveChip(ObservePass(s, chips[..|chips| - 1], threshold, target), chips[|chips| - 1], threshold, target)
  }

  /** Repeated polling passes, one per snapshot. */
  function Passes(s: Status, snapshots: seq<Snapshot>, threshold: real, target: string): Status
    decreases |snapshots|
  {
    if snapshots == [] then s
    else ObservePass(Passes(s, snapshots[..|snapshots| - 1], threshold, target), snapshots[|snapshots| - 1], threshold, target)
  }

  // ---------------------------------------------------------------------
  // Reference definition: the readings that matter, and a fold over them.

  /** The readings of the features of `chip` labelled `target`, in order. */
  function ChipReadings(chip: Chip, target: string): seq<real>
    decreases |chip|
  {
    if chip == [] then []
    else ChipReadings(chip[..|chip| - 1], target)
         + (if chip[|chip| - 1].name == target then [chip[|chip| - 1].value] else [])
  }

  /** The readings of every matching feature of a snapshot, chip by chip. */
  function Readings(chips: Snapshot, target: string): seq<real>
    decreases |chips|
  {
    if chips == [] then [] else Readings(chips[..|chips| - 1], target) + ChipReadings(chips[|chips| - 1], target)
  }

  /** The matching readings of several snapshots, one after the other. */
  function AllReadings(snapshots: seq<Snapshot>, target: string): seq<real>
    decreases |snapshots|
  {
    if snapshots == [] then []
    else AllReadings(snapshots[..|snapshots| - 1], target) + Readings(snapshots[|snapshots| - 1], target)
  }

  /** The controller fed the readings `values` one at a time. */
  function Track(s: Status, values: seq<real>, threshold: real): Status
    decreases |values|
  {
    if values == [] then s
    else React(Track(s, values[..|values| - 1], threshold), values[|values| - 1], threshold)
  }

  /** Commands that alternate, the first being the one that leaves state `engaged`. */
  ghost predicate AlternatesFrom(engaged: bool, levels: seq<Level>) {
    forall k :: 0 <= k < |levels| ==> levels[k] == LevelFor((k % 2 == 0) != engaged)
  }

  // ---------------------------------------------------------------------
  // One reading.

  /** The four rows of the hysteresis decision table, and the rule that a
      feature with another label changes nothing. */
  lemma DecisionTable(s: Status, f: Feature, threshold: real, target: string)
    ensures f.name != target ==> Observe(s, f, threshold, target) == s
    ensures f.name == target && f.value >= threshold && !s.engaged ==>
              Observe(s, f, threshold, target) == Status(true, s.sent + [FullSpeed])
    ensures f.name == target && f.value >= threshold && s.engaged ==>
              Observe(s, f, threshold, target) == s
    ensures f.name == target && f.value < threshold && s.engaged ==>
              Observe(s, f, threshold, target) == Status(false, s.sent + [Auto])
    ensures f.name == target && f.value < threshold && !s.engaged ==>
              Observe(s, f, threshold, target) == s
  {
  }

  // ---------------------------------------------------------------------
  // The pass is the fold over its matching readings.

  lemma {:induction false} TrackAppend(s: Status, a: seq<real>, b: seq<real>, threshold: real)
    ensures Track(s, a + b, threshold) == Track(Track(s, a, threshold), b, threshold)
    decreases |b|
  {
    if b == [] {
      assert a + b == a;
    } else {
      var b0 := b[..|b| - 1];
      assert (a + b)[..|a + b| - 1] == a + b0;
      TrackAppend(s, a, b0, threshold);
    }
  }

  lemma {:induction false} ChipTracksReadings(s: Status, chip: Chip, threshold: real, target: string)
    ensures ObserveChip(s, chip, threshold, target) == Track(s, ChipReadings(chip, target), threshold)
    decreases |chip|
  {
    if chip != [] {
      var init, f := chip[..|chip| - 1], chip[|chip| - 1];
      ChipTracksReadings(s, init, threshold, target);
      var before := ChipReadings(init, target);
      if f.name == target {
        assert (before + [f.value])[..|before|] == before;
      } else {
        assert before + [] == before;
      }
    }
  }

  /** A pass depends on the snapshot only through its matching readings. */
  lemma {:induction false} PassTracksReadings(s: Status, chips: Snapshot, threshold: real, target: string)
    ensures ObservePass(s, chips, threshold, target) == Track(s, Readings(chips, target), threshold)
    decreases |chips|
  {
    if chips != [] {
      var init, chip := chips[..|chips| - 1], chips[|chips| - 1];
      PassTracksReadings(s, init, threshold, target);
      ChipTracksReadings(ObservePass(s, init, threshold, target), chip, threshold, target);
      TrackAppend(s, Readings(init, target), ChipReadings(chip, target), threshold);
    }
  }

  /** Repeated passes are the fold over all their matching readings. */
  lemma {:induction false} PassesTrackReadings(s: Status, snapshots: seq<Snapshot>, threshold: real, target: string)
    ensures Passes(s, snapshots, threshold, target) == Track(s, AllReadings(snapshots, target), threshold)
    decreases |snapshots|
  {
    if snapshots != [] {
      var init, last := snapshots[..|snapshots| - 1], snapshots[|snapshots| - 1];
      PassesTrackReadings(s, init, threshold, target);
      PassTracksReadings(Passes(s, init, threshold, target), last, threshold, target);
      TrackAppend(s, AllReadings(init, target), Readings(last, target), threshold);
    }
  }

  // ---------------------------------------------------------------------
  // Properties of a pass.

  /** Features with another label never matter: two snapshots with the same
      matching readings give the same flag and the same commands. */
  lemma OnlyTargetMatters(s: Status, a: Snapshot, b: Snapshot, threshold: real, target: string)
    requires Readings(a, target) == Readings(b, target)
    ensures ObservePass(s, a, threshold, target) == ObservePass(s, b, threshold, target)
  {
    PassTracksReadings(s, a, threshold, target);
    PassTracksReadings(s, b, threshold, target);
  }

  /** A pass in which no feature matches issues no command and keeps the flag. */
  lemma NoMatchNoEffect(s: Status, chips: Snapshot, threshold: real, target: string)
    requires forall i, j :: 0 <= i < |chips| && 0 <= j < |chips[i]| ==> chips[i][j].name != target
    ensures ObservePass(s, chips, threshold, target) == s
  {
    NoTargetNoReadings(chips, target);
    PassTracksReadings(s, chips, threshold, target);
  }

  lemma {:induction false} NoTargetInChip(chip: Chip, target: string)
    requires forall j :: 0 <= j < |chip| ==> chip[j].name != target
    ensures ChipReadings(chip, target) == []
    decreases |chip|
  {
    if chip != [] {
      NoTargetInChip(chip[..|chip| - 1], target);
    }
  }

  /** A snapshot in which no feature carries the target label has no
      matching readings. */
  lemma {:induction false} NoTargetNoReadings(chips: Snapshot, target: string)
    requires forall i, j :: 0 <= i < |chips| && 0 <= j < |chips[i]| ==> chips[i][j].name != target
    ensures Readings(chips, target) == []
    decreases |chips|
  {
    if chips != [] {
      NoTargetNoReadings(chips[..|chips| - 1], target);
      NoTargetInChip(chips[|chips| - 1], target);
    }
  }

  /** After a pass with a match, the flag says whether the last matching
      reading, in chip/feature order, is at or above the threshold. */
  lemma LastMatchWins(s: Status, chips: Snapshot, threshold: real, target: string)
    requires Readings(chips, target) != []
    ensures var m := Readings(chips, target);
            ObservePass(s, chips, threshold, target).engaged == (m[|m| - 1] >= threshold)
  {
    PassTracksReadings(s, chips, threshold, target);
  }

  /** A pass with exactly one matching reading follows the decision table
      for that reading. */
  lemma SingleMatch(s: Status, chips: Snapshot, threshold: real, target: string, v: real)
    requires Readings(chips, target) == [v]
    ensures ObservePass(s, chips, threshold, target) == React(s, v, threshold)
  {
    PassTracksReadings(s, chips, threshold, target);
  }

  /** Commands only ever get appended, they alternate, and the flag records
      the parity of how many were issued. */
  lemma {:induction false} TrackAlternates(s: Status, values: seq<real>, threshold: real)
    ensures var r := Track(s, values, threshold);
            |s.sent| <= |r.sent| && r.sent[..|s.sent|] == s.sent
            && AlternatesFrom(s.engaged, r.sent[|s.sent|..])
            && r.engaged == (s.engaged != ((|r.sent| - |s.sent|) % 2 == 1))
    decreases |values|
  {
    if values != [] {
      var init := values[..|values| - 1];
      TrackAlternates(s, init, threshold);
      var p := Track(s, init, threshold);
      var r := Track(s, values, threshold);
      assert r == React(p, values[|values| - 1], threshold);
      assert r.sent[..|p.sent|] == p.sent;
      assert r.sent[|s.sent|..] == p.sent[|s.sent|..] + r.sent[|p.sent|..];
    }
  }

  /** Starting the controller at `Status(e, prefix)` only puts `prefix` in
      front of the commands it would issue from `Status(e, [])`. */
  lemma {:induction false} TrackShift(e: bool, prefix: seq<Level>, values: seq<real>, threshold: real)
    ensures var r := Track(Status(e, []), values, threshold);
            Track(Status(e, prefix), values, threshold) == Status(r.engaged, prefix + r.sent)
    decreases |values|
  {
    if values != [] {
      TrackShift(e, prefix, values[..|values| - 1], threshold);
    }
  }

  lemma PassShift(e: bool, prefix: seq<Level>, chips: Snapshot, threshold: real, target: string)
    ensures var r := ObservePass(Status(e, []), chips, threshold, target);
            ObservePass(Status(e, prefix), chips, threshold, target) == Status(r.engaged, prefix + r.sent)
  {
    PassTracksReadings(Status(e, []), chips, threshold, target);
    PassTracksReadings(Status(e, prefix), chips, threshold, target);
    TrackShift(e, prefix, Readings(chips, target), threshold);
  }

  /** Readings that all stay at or above the threshold: only the first one
      engages the fan (if it was not already), the rest are no-ops. */
  lemma {:induction false} StayingHotEngagesOnce(s: Status, values: seq<real>, threshold: real)
    requires forall k :: 0 <= k < |values| ==> values[k] >= threshold
    ensures Track(s, values, threshold).sent
            == s.sent + (if values != [] && !s.engaged then [FullSpeed] else [])
    ensures Track(s, values, threshold).engaged == (s.engaged || values != [])
    decreases |values|
  {
    if values != [] {
      StayingHotEngagesOnce(s, values[..|values| - 1], threshold);
    }
  }

  /** Readings that all stay below the threshold: only the first one
      disengages the fan (if it was engaged), the rest are no-ops. */
  lemma {:induction false} StayingCoolReleasesOnce(s: Status, values: seq<real>, threshold: real)
    requires forall k :: 0 <= k < |values| ==> values[k] < threshold
    ensures Track(s, values, threshold).sent
            == s.sent + (if values != [] && s.engaged then [Auto] else [])
    ensures Track(s, values, threshold).engaged == (s.engaged && values == [])
    decreases |values|
  {
    if values != [] {
      StayingCoolReleasesOnce(s, values[..|values| - 1], threshold);
    }
  }

  // ---------------------------------------------------------------------
  // Properties of a run of passes from the initial state.

  /** After any number of passes the flag says whether the last matching
      reading seen is at or above the threshold; with no match at all it keeps
      its initial value. */
  lemma StateIsLastReading(s: Status, snapshots: seq<Snapshot>, threshold: real, target: string)
    ensures var m := AllReadings(snapshots, target);
            Passes(s, snapshots, threshold, target).engaged
            == if m == [] then s.engaged else m[|m| - 1] >= threshold
  {
    PassesTrackReadings(s, snapshots, threshold, target);
  }

  /** From the initial disengaged state, the commands of any run are
      full-speed, auto, full-speed, ...; so no command repeats the previous
      one, and the flag is set exactly when the last command was full-speed. */
  lemma RunAlternates(snapshots: seq<Snapshot>, threshold: real, target: string)
    ensures var r := Passes(Status(false, []), snapshots, threshold, target);
            && AlternatesFrom(false, r.sent)
            && (forall k :: 0 <= k < |r.sent| - 1 ==> r.sent[k] != r.sent[k + 1])
            && r.engaged == (|r.sent| > 0 && r.sent[|r.sent| - 1] == FullSpeed)
  {
    var s := Status(false, []);
    PassesTrackReadings(s, snapshots, threshold, target);
    TrackAlternates(s, AllReadings(snapshots, target), threshold);
    var r := Passes(s, snapshots, threshold, target);
    assert r.sent[|s.sent|..] == r.sent;
    forall k | 0 <= k < |r.sent| - 1
      ensures r.sent[k] != r.sent[k + 1]
    {
      assert r.sent[k] == LevelFor(k % 2 == 0);
      assert r.sent[k + 1] == LevelFor((k + 1) % 2 == 0);
    }
  }

  /** Threshold 75 and readings 70, 76, 80, 74, 71 on successive passes:
      commands are issued only by the second pass (full-speed) and the fourth
      (auto), and the flag goes false, true, true, false, false.  A reading of
      exactly 75 engages the fan. */
  lemma ThresholdScenario()
    ensures var snaps := [[[Feature(DEFAULT_LABEL, 70.0)]], [[Feature(DEFAULT_LABEL, 76.0)]],
                          [[Feature(DEFAULT_LABEL, 80.0)]], [[Feature(DEFAULT_LABEL, 74.0)]],
                          [[Feature(DEFAULT_LABEL, 71.0)]]];
            var init := Status(false, []);
            && Passes(init, snaps[..1], DEFAULT_THRESHOLD, DEFAULT_LABEL) == Status(false, [])
            && Passes(init, snaps[..2], DEFAULT_THRESHOLD, DEFAULT_LABEL) == Status(true, [FullSpeed])
            && Passes(init, snaps[..3], DEFAULT_THRESHOLD, DEFAULT_LABEL) == Status(true, [FullSpeed])
            && Passes(init, snaps[..4], DEFAULT_THRESHOLD, DEFAULT_LABEL) == Status(false, [FullSpeed, Auto])
            && Passes(init, snaps, DEFAULT_THRESHOLD, DEFAULT_LABEL) == Status(false, [FullSpeed, Auto])
    ensures ObservePass(Status(false, []), [[Feature(DEFAULT_LABEL, 75.0)]], DEFAULT_THRESHOLD, DEFAULT_LABEL)
            == Status(true, [FullSpeed])
  {
    var snaps := [[[Feature(DEFAULT_LABEL, 70.0)]], [[Feature(DEFAULT_LABEL, 76.0)]],
                  [[Feature(DEFAULT_LABEL, 80.0)]], [[Feature(DEFAULT_LABEL, 74.0)]],
                  [[Feature(DEFAULT_LABEL, 71.0)]]];
    var init := Status(false, []);
    forall s: Status, v: real
      ensures ObservePass(s, [[Feature(DEFAULT_LABEL, v)]], DEFAULT_THRESHOLD, DEFAULT_LABEL)
              == React(s, v, DEFAULT_THRESHOLD)
    {
      var chips := [[Feature(DEFAULT_LABEL, v)]];
      assert chips[..0] == [] && chips[0][..0] == [];
      assert ObservePass(s, chips, DEFAULT_THRESHOLD, DEFAULT_LABEL)
             == ObserveChip(s, chips[0], DEFAULT_THRESHOLD, DEFAULT_LABEL);
    }
    assert snaps[..1][..0] == [];
    assert snaps[..2][..1] == snaps[..1];
    assert snaps[..3][..2] == snaps[..2];
    assert snaps[..4][..3] == snaps[..3];
    assert snaps[..4] == snaps[..|snaps| - 1];
  }
}
