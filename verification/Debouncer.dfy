/** The GPIO debouncer of startServerAndMonitorPins: a saturating counter with hysteresis, and what it
    means in terms of windows of samples. */
module Debouncer {

  // ----- The specification: windows of samples

  /** Readings equal to v minus the others. */
  function Excess(samples: seq<bool>, v: bool): int {
    if samples == [] then 0
    else Excess(samples[..|samples| - 1], v) + if samples[|samples| - 1] == v then 1 else -1
  }

  /** Some window ending with the last of these samples has an excess of k readings equal to v. */
  ghost predicate WindowExceeds(samples: seq<bool>, v: bool, k: int) {
    exists j :: 0 <= j <= |samples| && Excess(samples[j..], v) >= k
  }

  /** The debounced value and the samples since it last flipped. */
  datatype Debounced = Debounced(value: bool, since: seq<bool>)

  /** The value flips when a window since the last flip has an excess of 11 opposite readings. */
  ghost function Next(d: Debounced, sample: bool): Debounced {
    var since := d.since + [sample];
    if WindowExceeds(since, !d.value, 11) then Debounced(!d.value, []) else d.(since := since)
  }

  ghost function Debounce(samples: seq<bool>): Debounced {
    if samples == [] then Debounced(false, [])
    else Next(Debounce(samples[..|samples| - 1]), samples[|samples| - 1])
  }

  /** The values pushed to the control: the new value at each flip. */
  ghost function Pushes(samples: seq<bool>): seq<bool> {
    if samples == [] then []
    else
      var before, after := Debounce(samples[..|samples| - 1]), Debounce(samples);
      Pushes(samples[..|samples| - 1]) + if before.value != after.value then [after.value] else []
  }

  // ----- The counter is the largest window excess

  /** The largest excess over all windows ending with the last sample, the empty one included. */
  function Peak(samples: seq<bool>, v: bool): (r: nat) {
    if samples == [] then 0
    else
      var p := Peak(samples[..|samples| - 1], v) + if samples[|samples| - 1] == v then 1 else -1;
      if p < 0 then 0 else p
  }

  lemma {:induction false} ExcessSnoc(samples: seq<bool>, j: nat, v: bool)
    requires j < |samples|
    ensures Excess(samples[j..], v) ==
            Excess(samples[..|samples| - 1][j..], v) + if samples[|samples| - 1] == v then 1 else -1
  {
    assert samples[j..][..|samples| - j - 1] == samples[..|samples| - 1][j..];
  }

  lemma {:induction false} PeakBounds(samples: seq<bool>, v: bool, j: nat)
    requires j <= |samples|
    ensures Excess(samples[j..], v) <= Peak(samples, v)
  {
    if j < |samples| {
      ExcessSnoc(samples, j, v);
      PeakBounds(samples[..|samples| - 1], v, j);
    }
  }

  lemma {:induction false} PeakAttained(samples: seq<bool>, v: bool) returns (j: nat)
    ensures j <= |samples| && Excess(samples[j..], v) == Peak(samples, v)
  {
    if samples == [] {
      j := 0;
    } else {
      j := PeakAttained(samples[..|samples| - 1], v);
      ExcessSnoc(samples, j, v);
      if Excess(samples[j..], v) < 0 {
        j := |samples|;
      }
    }
  }

  lemma WindowIffPeak(samples: seq<bool>, v: bool, k: int)
    ensures WindowExceeds(samples, v, k) <==> Peak(samples, v) >= k
  {
    if Peak(samples, v) >= k {
      var j := PeakAttained(samples, v);
    }
    if WindowExceeds(samples, v, k) {
      var j :| 0 <= j <= |samples| && Excess(samples[j..], v) >= k;
      PeakBounds(samples, v, j);
    }
  }

  /** The counter that goes with a debounced state: it climbs from 0 or descends from 10. */
  ghost function CounterOf(d: Debounced): int {
    if d.value then 10 - Peak(d.since, false) else Peak(d.since, true)
  }

  /** Between samples no window reaches an excess of 11, so the counter stays within 0 and 10. */
  lemma {:induction false} CounterInRange(samples: seq<bool>)
    ensures 0 <= CounterOf(Debounce(samples)) <= 10
  {
    if samples != [] {
      var d := Debounce(samples[..|samples| - 1]);
      CounterInRange(samples[..|samples| - 1]);
      WindowIffPeak(d.since + [samples[|samples| - 1]], !d.value, 11);
    }
  }

  /** One sample moves the counter by one, saturating at 0 and 10; the value flips on saturation. */
  lemma CounterStep(d: Debounced, sample: bool)
    requires 0 <= CounterOf(d) <= 10
    ensures var c := CounterOf(d) + if sample then 1 else -1; var after := Next(d, sample);
      && CounterOf(after) == (if c > 10 then 10 else if c < 0 then 0 else c)
      && after.value == (if c > 10 then true else if c < 0 then false else d.value)
  {
    var since := d.since + [sample];
    assert since[..|since| - 1] == d.since;
    WindowIffPeak(since, !d.value, 11);
  }

  /** The sampling loop, over the readings it takes: the flips pushed are those of the specification. */
  method MonitorPins(samples: seq<bool>) returns (pushed: seq<bool>, debounced: bool)
    ensures pushed == Pushes(samples) && debounced == Debounce(samples).value
  {
    var wGpioDebounceCounter := 0;
    var wGpioDebouncedValue := false;
    pushed := [];
    for i := 0 to |samples|
      invariant wGpioDebounceCounter == CounterOf(Debounce(samples[..i]))
      invariant wGpioDebouncedValue == Debounce(samples[..i]).value
      invariant pushed == Pushes(samples[..i])
    {
      var wGpioValue := samples[i];
      CounterInRange(samples[..i]);
      CounterStep(Debounce(samples[..i]), wGpioValue);
      assert samples[..i + 1][..i] == samples[..i];
      wGpioDebounceCounter := wGpioDebounceCounter + if wGpioValue then 1 else -1;
      if wGpioDebounceCounter > 10 {
        wGpioDebounceCounter := 10;
        if !wGpioDebouncedValue {
          wGpioDebouncedValue := true;
          pushed := pushed + [wGpioDebouncedValue];
        }
      } else if wGpioDebounceCounter < 0 {
        wGpioDebounceCounter := 0;
        if wGpioDebouncedValue {
          wGpioDebouncedValue := false;
          pushed := pushed + [wGpioDebouncedValue];
        }
      }
    }
    assert samples[..|samples|] == samples;
    debounced := wGpioDebouncedValue;
  }

  // ----- Consequences

  /** Pushed values alternate, starting with true; the debounced value is the last one pushed. */
  lemma {:induction false} PushesAlternate(samples: seq<bool>)
    ensures var p := Pushes(samples);
      && (forall i :: 0 <= i < |p| ==> (p[i] <==> i % 2 == 0))
      && (Debounce(samples).value <==> |p| % 2 == 1)
  {
    if samples != [] {
      PushesAlternate(samples[..|samples| - 1]);
    }
  }

  lemma {:induction false} PeakAtMostLength(samples: seq<bool>, v: bool)
    ensures Peak(samples, v) <= |samples|
  {
    if samples != [] {
      PeakAtMostLength(samples[..|samples| - 1], v);
    }
  }

  /** A flip needs at least 11 samples since the previous one. */
  lemma FlipsAreApart(d: Debounced, sample: bool)
    requires Next(d, sample).value != d.value
    ensures |d.since| + 1 >= 11
  {
    var since := d.since + [sample];
    WindowIffPeak(since, !d.value, 11);
    PeakAtMostLength(since, !d.value);
  }

  /** The value has been the same over the samples counted in since. */
  lemma {:induction false} SteadySince(samples: seq<bool>, k: nat)
    requires k <= |samples| <= k + |Debounce(samples).since|
    ensures Debounce(samples[..k]).value == Debounce(samples).value
  {
    if k == |samples| {
      assert samples[..k] == samples;
    } else {
      assert samples[..|samples| - 1][..k] == samples[..k];
      SteadySince(samples[..|samples| - 1], k);
    }
  }

  ghost predicate FlipsAt(samples: seq<bool>, i: nat)
    requires i < |samples|
  {
    Debounce(samples[..i]).value != Debounce(samples[..i + 1]).value
  }

  /** Any two flips of a run are at least 11 samples apart. */
  lemma FlipsElevenApart(samples: seq<bool>, i: nat, j: nat)
    requires i < j < |samples| && FlipsAt(samples, i) && FlipsAt(samples, j)
    ensures j - i >= 11
  {
    var before := samples[..j];
    assert samples[..j + 1][..j] == before;
    FlipsAreApart(Debounce(before), samples[j]);
    if j - i <= |Debounce(before).since| {
      assert before[..i] == samples[..i] && before[..i + 1] == samples[..i + 1];
      SteadySince(before, i);
      SteadySince(before, i + 1);
    }
  }

  lemma ReadingMovesCounter(d: Debounced, v: bool)
    requires Peak(d.since, !d.value) <= 10
    ensures d.value == v ==> Next(d, v).value == v
    ensures d.value != v ==> Next(d, v).value == v || Peak(Next(d, v).since, v) == Peak(d.since, v) + 1
  {
    assert (d.since + [v])[..|d.since|] == d.since;
    WindowIffPeak(d.since + [v], !d.value, 11);
  }

  /** n readings v in a row: either the output is v, or its counter has moved n steps towards v. */
  lemma {:induction false} RunMovesCounter(samples: seq<bool>, v: bool, n: nat)
    ensures var e := Debounce(samples + seq(n, _ => v));
      && (e.value == v || Peak(e.since, v) >= n)
      && (Debounce(samples).value == v ==> e.value == v)
  {
    var run := samples + seq(n, _ => v);
    if n == 0 {
      assert run == samples;
    } else {
      RunMovesCounter(samples, v, n - 1);
      var init := samples + seq(n - 1, _ => v);
      assert run[..|run| - 1] == init && run[|run| - 1] == v;
      CounterInRange(init);
      ReadingMovesCounter(Debounce(init), v);
    }
  }

  /** Eleven equal readings in a row settle the output, whatever came before, and it stays settled. */
  lemma ElevenSettle(samples: seq<bool>, v: bool, n: nat)
    requires n >= 11
    ensures Debounce(samples + seq(n, _ => v)).value == v
  {
    RunMovesCounter(samples, v, n);
    CounterInRange(samples + seq(n, _ => v));
  }
}
