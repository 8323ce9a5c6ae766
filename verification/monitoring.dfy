/**
 * GET `/monitoring`: current CPU, memory, disk and network figures, and the
 * module-level CPU history the chart draws, which keeps the latest 24 samples.
 */
module Monitoring {
  import opened Wrappers

  const HistoryLimit: nat := 24

  /** A chart point: the time label and the CPU percentage. */
  datatype Sample = Sample(time: string, usage: int)

  /** `cpuHistory.push(s)` followed by one `shift()` when the length went over the limit. */
  function Slide(history: seq<Sample>, s: Sample): (h: seq<Sample>)
    ensures |h| >= 1 && h[|h| - 1] == s
    ensures |history| <= HistoryLimit ==> |h| <= HistoryLimit
    ensures |history| < HistoryLimit ==> h == history + [s]
    ensures |history| == HistoryLimit ==> h == history[1..] + [s]
  {
    var pushed := history + [s];
    if |pushed| > HistoryLimit then pushed[1..] else pushed
  }

  /** The last `n` elements of `xs`, or all of them when there are fewer. */
  function Latest<T>(xs: seq<T>, n: nat): (ys: seq<T>)
    ensures |ys| == if |xs| < n then |xs| else n
  {
    if |xs| <= n then xs else xs[|xs| - n..]
  }

  /** Keeping the latest `n` and then adding more keeps the same latest `n` as adding to all. */
  lemma LatestOfLatest<T>(a: seq<T>, b: seq<T>, n: nat)
    ensures Latest(Latest(a, n) + b, n) == Latest(a + b, n)
  {
    if |a| > n {
      var k := |a| - n;
      assert Latest(a, n) + b == (a + b)[k..];
    }
  }

  /** The history after a run of successful requests, one sample each. */
  function SlideAll(history: seq<Sample>, samples: seq<Sample>): seq<Sample>
    decreases |samples|
  {
    if samples == [] then history else SlideAll(Slide(history, samples[0]), samples[1..])
  }

  /** One request keeps the latest 24 of the old history and the new sample. */
  lemma SlideKeepsLatest(history: seq<Sample>, s: Sample)
    requires |history| <= HistoryLimit
    ensures Slide(history, s) == Latest(history + [s], HistoryLimit)
  {
  }

  /** However many requests arrive, the history holds exactly the latest 24 samples, oldest first. */
  lemma {:induction false} SlideAllKeepsLatest(history: seq<Sample>, samples: seq<Sample>)
    requires |history| <= HistoryLimit
    ensures SlideAll(history, samples) == Latest(history + samples, HistoryLimit)
    decreases |samples|
  {
    if samples != [] {
      var x, rest := samples[0], samples[1..];
      var next := Slide(history, x);
      SlideKeepsLatest(history, x);
      SlideAllKeepsLatest(next, rest);
      LatestOfLatest(history + [x], rest, HistoryLimit);
      assert history + [x] + rest == history + samples;
    }
  }

  /** What the sampling calls gave, already as integer percentages. */
  datatype Reading = Reading(cpu: int, memory: int, disk: int, network: string, timeLabel: string)

  datatype CurrentStats = CurrentStats(cpu: int, memory: int, disk: int, network: string)

  datatype Response = Stats(currentStats: CurrentStats, cpu: seq<Sample>) | Failure(status: int, error: string)

  const MonitoringFailed: string := "Failed to fetch monitoring data"

  /** The `cpuHistory` array of the route module. */
  class CpuHistory {
    var samples: seq<Sample>

    ghost predicate Valid()
      reads this
    {
      |samples| <= HistoryLimit
    }

    constructor ()
      ensures Valid() && samples == []
    {
      samples := [];
    }

    /** Push the sample, then drop the oldest when over the limit. */
    method Record(s: Sample)
      requires Valid()
      modifies this
      ensures Valid()
      ensures samples == Slide(old(samples), s)
    {
      samples := samples + [s];
      if |samples| > HistoryLimit {
        samples := samples[1..];
      }
    }

    /**
     * The handler: a failed sampling call (`None`) is a 500 before the push, so
     * the history is unchanged; otherwise the sample is recorded and the whole
     * history goes out with the current figures.
     */
    method Handle(reading: Option<Reading>) returns (resp: Response)
      requires Valid()
      modifies this
      ensures Valid()
      ensures reading.None? ==> resp == Failure(500, MonitoringFailed) && samples == old(samples)
      ensures reading.Some? ==>
        var r := reading.value;
        && samples == Slide(old(samples), Sample(r.timeLabel, r.cpu))
        && resp == Stats(CurrentStats(r.cpu, r.memory, r.disk, r.network), samples)
    {
      if reading.None? {
        return Failure(500, MonitoringFailed);
      }
      var r := reading.value;
      Record(Sample(r.timeLabel, r.cpu));
      resp := Stats(CurrentStats(r.cpu, r.memory, r.disk, r.network), samples);
    }
  }
}
