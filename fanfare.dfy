/** The fanfare daemon: a controller object whose only mutable state is the
    `fullSpeedOn` flag, polling sensor snapshots and writing commands to the
    fan device.

    The sensor library is replaced by the snapshot each pass is given, and
    the fan device by `written`, the sequence of strings written to it so
    far (the device is opened and truncated for every write, so the file
    holds the last of them).
 */
module Fanfare {
  import opened Hysteresis

  class Daemon {
    const threshold: real
    const pollTime: nat
    const fanControlDevice: string
    const targetLabel: string
    var fullSpeedOn: bool
    var written: seq<string>

    /** The flag always reflects the last command written: starting from the
        disengaged state, the writes alternate full-speed, auto, ... and the
        flag is set exactly when an odd number of them has been made. */
    ghost predicate Valid()
      reads this
    {
      && fullSpeedOn == (|written| % 2 == 1)
      && forall k :: 0 <= k < |written| ==> written[k] == Command(LevelFor(k % 2 == 0))
    }

    /** The fixed configuration and the conservative initial state. */
    constructor ()
      ensures Valid()
      ensures threshold == DEFAULT_THRESHOLD && pollTime == DEFAULT_POLL_TIME
      ensures fanControlDevice == DEFAULT_DEVICE && targetLabel == DEFAULT_LABEL
      ensures !fullSpeedOn && written == []
    {
      threshold := DEFAULT_THRESHOLD;
      pollTime := DEFAULT_POLL_TIME;
      fanControlDevice := DEFAULT_DEVICE;
      targetLabel := DEFAULT_LABEL;
      fullSpeedOn := false;
      written := [];
    }

    /** Writes the command for `level` to the fan device. */
    method SetFanSpeed(level: Level)
      modifies this
      ensures written == old(written) + [Command(level)]
      ensures fullSpeedOn == old(fullSpeedOn)
    {
      written := written + [Command(level)];
    }

    /** The flag and the device trace agree with the fold `s` over what has
        been observed since the call began. */
    ghost predicate Mirrors(s: Status, before: seq<string>)
      reads this
    {
      fullSpeedOn == s.engaged && written == before + Render(s.sent)
    }

    /** The body of the inner loop of a pass: one feature of one chip. */
    method CheckFeature(feature: Feature, ghost s: Status, ghost before: seq<string>)
      requires Valid() && Mirrors(s, before)
      modifies this
      ensures Valid() && Mirrors(Observe(s, feature, threshold, targetLabel), before)
    {
      if feature.name == targetLabel {
        if feature.value >= threshold {
          if !fullSpeedOn {
            SetFanSpeed(FullSpeed);
            fullSpeedOn := true;
            RenderSnoc(s.sent, FullSpeed);
          }
        } else {
          if fullSpeedOn {
            SetFanSpeed(Auto);
            fullSpeedOn := false;
            RenderSnoc(s.sent, Auto);
          }
        }
      }
    }

    /** One polling pass over the snapshot `chips`. */
    method CheckTemperature(chips: Snapshot)
      requires Valid()
      modifies this
      ensures Valid()
      ensures Mirrors(ObservePass(Status(old(fullSpeedOn), []), chips, threshold, targetLabel), old(written))
    {
      ghost var start := Status(fullSpeedOn, []);
      var i := 0;
      while i < |chips|
        invariant 0 <= i <= |chips|
        invariant Valid()
        invariant Mirrors(ObservePass(start, chips[..i], threshold, targetLabel), old(written))
      {
        var chip := chips[i];
        ghost var outer := ObservePass(start, chips[..i], threshold, targetLabel);
        var j := 0;
        while j < |chip|
          invariant 0 <= j <= |chip|
          invariant Valid()
          invariant Mirrors(ObserveChip(outer, chip[..j], threshold, targetLabel), old(written))
        {
          ghost var s := ObserveChip(outer, chip[..j], threshold, targetLabel);
          CheckFeature(chip[j], s, old(written));
          assert chip[..j + 1][..j] == chip[..j];
          j := j + 1;
        }
        assert chip[..j] == chip;
        assert chips[..i + 1][..i] == chips[..i];
        i := i + 1;
      }
      assert chips[..i] == chips;
    }

    /** The main loop, bounded to one pass per snapshot of `snapshots`. */
    method Run(snapshots: seq<Snapshot>)
      requires Valid()
      modifies this
      ensures Valid()
      ensures Mirrors(Passes(Status(old(fullSpeedOn), []), snapshots, threshold, targetLabel), old(written))
    {
      ghost var start := Status(fullSpeedOn, []);
      for n := 0 to |snapshots|
        invariant Valid()
        invariant Mirrors(Passes(start, snapshots[..n], threshold, targetLabel), old(written))
      {
        ghost var before := Passes(start, snapshots[..n], threshold, targetLabel);
        ghost var mid := written;
        CheckTemperature(snapshots[n]);
        ghost var pass := ObservePass(Status(before.engaged, []), snapshots[n], threshold, targetLabel);
        NextPass(start, snapshots, n, threshold, targetLabel);
        TraceStep(old(written), mid, written, before.sent, pass.sent);
      }
      assert snapshots[..|snapshots|] == snapshots;
    }
  }

  /** Pass `n` of a run starts from the flag the earlier passes left and puts
      its commands after theirs. */
  lemma NextPass(start: Status, snapshots: seq<Snapshot>, n: nat, threshold: real, target: string)
    requires n < |snapshots|
    ensures var before := Passes(start, snapshots[..n], threshold, target);
            var pass := ObservePass(Status(before.engaged, []), snapshots[n], threshold, target);
            Passes(start, snapshots[..n + 1], threshold, target) == Status(pass.engaged, before.sent + pass.sent)
  {
    var before := Passes(start, snapshots[..n], threshold, target);
    assert snapshots[..n + 1][..n] == snapshots[..n];
    PassShift(before.engaged, before.sent, snapshots[n], threshold, target);
  }

  lemma TraceStep(w0: seq<string>, w1: seq<string>, w2: seq<string>, a: seq<Level>, b: seq<Level>)
    requires w1 == w0 + Render(a) && w2 == w1 + Render(b)
    ensures w2 == w0 + Render(a + b)
  {
    RenderConcat(a, b);
    assert w0 + Render(a) + Render(b) == w0 + (Render(a) + Render(b));
  }

  lemma RenderSnoc(levels: seq<Level>, level: Level)
    ensures Render(levels + [level]) == Render(levels) + [Command(level)]
  {
    assert (levels + [level])[..|levels|] == levels;
  }

  lemma RenderConcat(a: seq<Level>, b: seq<Level>)
    ensures Render(a + b) == Render(a) + Render(b)
  {
    assert |Render(a + b)| == |Render(a) + Render(b)|;
    forall k | 0 <= k < |a + b|
      ensures Render(a + b)[k] == (Render(a) + Render(b))[k]
    {
      if k < |a| {
        assert (a + b)[k] == a[k];
      } else {
        assert (a + b)[k] == b[k - |a|];
      }
    }
  }

  /** No two successive device writes are the same command, and each one is
      one of the two command strings. */
  lemma WritesAlternate(d: Daemon)
    requires d.Valid()
    ensures forall k :: 0 <= k < |d.written| - 1 ==> d.written[k] != d.written[k + 1]
    ensures forall k :: 0 <= k < |d.written| ==>
              d.written[k] == "level full-speed" || d.written[k] == "level auto"
  {
    forall k | 0 <= k < |d.written| - 1
      ensures d.written[k] != d.written[k + 1]
    {
      assert d.written[k] == Command(LevelFor(k % 2 == 0));
      assert d.written[k + 1] == Command(LevelFor((k + 1) % 2 == 0));
    }
  }
}
