/** The latency monitor: one sliding window of statistics per device, kept by Welford's update
    and its reverse, and an event for every sample above the 3-sigma threshold. */
module LatencyMonitor {
  import opened Basics
  import opened LatencyStatistics

  class LatencyStats {
    var samples: seq<nat>
    var mean: real
    var count: real
    var m2: real
    /** Every sample ever added, oldest first. */
    ghost var history: seq<nat>

    /** The maintained numbers are the batch statistics of the samples. */
    ghost predicate Valid()
      reads this
    {
      samples == Window(history) && Describes(count, mean, m2, samples)
    }

    constructor ()
      ensures Valid() && history == []
    {
      samples, mean, count, m2, history := [], 0.0, 0.0, 0.0, [];
    }

    /** Takes `oldest` out of the statistics; the caller has already taken it off the window. */
    method RemoveSampleWelford(ghost window: seq<nat>, oldest: nat)
      requires window != [] && window[0] == oldest
      requires Describes(count, mean, m2, window)
      modifies `mean, `count, `m2
      ensures Describes(count, mean, m2, window[1..])
    {
      if count <= 1.0 {
        count, mean, m2 := 0.0, 0.0, 0.0;
        return;
      }
      WelfordRemove(window);
      hide Mean, SquaredDeviations, Times, Over;
      var x := oldest as real;
      var delta := x - mean;
      count := count - 1.0;
      assert count == |window[1..]| as real;
      mean := mean - Over(delta, count);
      var delta2 := x - mean;
      m2 := m2 - Times(delta, delta2);
    }

    method AddSample(latency: nat)
      requires Valid()
      modifies this
      ensures Valid() && history == old(history) + [latency]
    {
      hide Describes, Window;
      WindowStep(history, latency);
      if |samples| >= LATENCY_WINDOW {
        var oldest := samples[0];
        ghost var window := samples;
        samples := samples[1..];
        RemoveSampleWelford(window, oldest);
      }
      history := history + [latency];
      ghost var before := samples;
      samples := samples + [latency];
      AddToStatistics(before, latency);
    }

    /** The update half of `AddSample`: `before` are the samples the statistics describe on entry. */
    method AddToStatistics(ghost before: seq<nat>, latency: nat)
      requires Describes(count, mean, m2, before)
      modifies `mean, `count, `m2
      ensures Describes(count, mean, m2, before + [latency])
    {
      WelfordAdd(before, latency);
      hide Mean, SquaredDeviations, Times, Over;
      var x := latency as real;
      count := count + 1.0;
      assert count == |before + [latency]| as real;
      var delta := x - mean;
      mean := mean + Over(delta, count);
      var delta2 := x - mean;
      m2 := m2 + Times(delta, delta2);
    }

    /** `sd` stands for the value `std_dev` computes: the root of `m2 / count`. */
    function AnomalyThreshold(sd: real): (t: Option<real>)
      requires Valid()
      requires samples != [] ==> IsStdDev(samples, sd)
      reads this
      ensures t.None? <==> |samples| < 10
      ensures forall x: nat :: (t.Some? && x as real > t.value) <==> Anomaly(samples, x)
    {
      ghost var threshold := Mean(samples) + SIGMA_THRESHOLD * sd;
      assert forall x: nat :: samples != [] ==> (Outlier(samples, x) <==> x as real > threshold) by {
        forall x: nat | samples != [] ensures Outlier(samples, x) <==> x as real > threshold {
          OutlierIsThreeSigma(samples, x, sd);
        }
      }
      if |samples| < MIN_ANOMALY_SAMPLES then None else Some(mean + SIGMA_THRESHOLD * sd)
    }

    /** The source's test, decided by squares of the maintained numbers. */
    method IsAnomaly(latency: nat) returns (r: bool)
      requires Valid()
      ensures r <==> Anomaly(samples, latency)
    {
      if |samples| < MIN_ANOMALY_SAMPLES { return false; }
      var d := latency as real - mean;
      r := d > 0.0 && Square(d) * count > Square(SIGMA_THRESHOLD) * m2;
    }
  }

  datatype DeviceEvent = LatencyAnomaly(deviceId: string, timestamp: nat, latency: nat)

  class LatencyMonitor {
    /** The statistics of each device seen so far. */
    var latencyStats: map<string, LatencyStats>

    /** Every device has an object of its own. */
    ghost predicate Valid()
      reads this, latencyStats.Values
    {
      && (forall id <- latencyStats :: latencyStats[id].Valid())
      && (forall a, b :: a in latencyStats && b in latencyStats && a != b ==> latencyStats[a] != latencyStats[b])
    }

    /** Every sample that a device has sent, oldest first. */
    ghost function History(id: string): seq<nat>
      reads this, latencyStats.Values
    {
      if id in latencyStats then latencyStats[id].history else []
    }

    constructor ()
      ensures Valid() && latencyStats == map[]
    {
      latencyStats := map[];
    }

    /** An event is raised exactly when the sample is anomalous in the window of all that its device sent before;
        the sample itself is added afterwards, and the other devices are left alone. */
    method ProcessLatencySample(deviceId: string, latency: nat, timestamp: nat) returns (event: Option<DeviceEvent>)
      requires Valid()
      modifies this, latencyStats.Values
      ensures Valid() && fresh(latencyStats.Values - old(latencyStats.Values))
      ensures History(deviceId) == old(History(deviceId)) + [latency]
      ensures forall id :: id != deviceId ==> History(id) == old(History(id))
      ensures event == if Anomaly(Window(old(History(deviceId))), latency)
                       then Some(LatencyAnomaly(deviceId, timestamp, latency)) else None
    {
      hide Window, Describes, Anomaly;
      if deviceId !in latencyStats {
        var entry := new LatencyStats();
        latencyStats := latencyStats[deviceId := entry];
      }
      var stats := latencyStats[deviceId];
      assert stats in latencyStats.Values;
      var isAnomaly := stats.IsAnomaly(latency);
      stats.AddSample(latency);
      event := if isAnomaly then Some(LatencyAnomaly(deviceId, timestamp, latency)) else None;
    }
  }
}
