/**
 * GET `/pipelines`: the Jenkins job list (`jobs[name,color,lastBuild[number,
 * timestamp,duration]]`) reshaped into the dashboard's pipeline rows, with the
 * ball colour read as a status and the build duration as "Hh Mm Ss".
 */
module Pipelines {
  import opened Wrappers
  import opened JsMath
  import opened JsText
  import opened JsArray

  const Success: string := "Success"
  const Failed: string := "Failed"
  const Warning: string := "Warning"
  const Running: string := "Running"

  predicate IsPipelineStatus(s: string) {
    s == Success || s == Failed || s == Warning || s == Running
  }

  /**
   * `mapColorToStatus`: blue, red and yellow balls are Success, Failed and
   * Warning; every other colour ("blue_anime", "disabled", "notbuilt") and a
   * missing one fall to Running.
   */
  function MapColorToStatus(color: Option<string>): (status: string)
    ensures IsPipelineStatus(status)
    ensures status == Success <==> color == Some("blue")
    ensures status == Failed <==> color == Some("red")
    ensures status == Warning <==> color == Some("yellow")
    ensures status == Running <==> color !in {Some("blue"), Some("red"), Some("yellow")}
  {
    match color
    case Some("blue") => Success
    case Some("red") => Failed
    case Some("yellow") => Warning
    case _ => Running
  }

  /** Hours, minutes and seconds of a duration. */
  datatype Clock = Clock(hours: int, minutes: int, seconds: int)

  /** The arithmetic of `formatDuration` on a millisecond count. */
  function DurationParts(ms: int): Clock {
    var totalSeconds := FloorDiv(ms, 1000);
    Clock(FloorDiv(totalSeconds, 3600), FloorDiv(JsRem(totalSeconds, 3600), 60), JsRem(totalSeconds, 60))
  }

  /** For a non-negative duration the parts are a proper clock reading of its whole seconds. */
  lemma DurationPartsSplitSeconds(ms: int)
    requires ms >= 0
    ensures var c := DurationParts(ms);
      && c.hours >= 0 && 0 <= c.minutes < 60 && 0 <= c.seconds < 60
      && c.hours * 3600 + c.minutes * 60 + c.seconds == ms / 1000
  {
    var ts := FloorDiv(ms, 1000);
    var h := FloorDiv(ts, 3600);
    var r := JsRem(ts, 3600);
    var m := FloorDiv(r, 60);
    assert ts == h * 3600 + r;
    assert r == m * 60 + r % 60;
    assert ts == (h * 60 + m) * 60 + r % 60;
    FloorDivUnique(ts, 60, h * 60 + m);
    assert JsRem(ts, 60) == r % 60;
  }

  const NotAvailable: string := "N/A"

  /** "<h>h <m>m <s>s". */
  function RenderClock(c: Clock): string {
    IntToString(c.hours) + "h " + IntToString(c.minutes) + "m " + IntToString(c.seconds) + "s"
  }

  /** `formatDuration(ms)`: "N/A" exactly when the duration is absent or 0. */
  function FormatDuration(ms: Option<int>): (text: string)
    ensures text == NotAvailable <==> ms.None? || ms.value == 0
  {
    if ms.None? || ms.value == 0 then NotAvailable
    else
      var text := RenderClock(DurationParts(ms.value));
      assert text[0] != 'N';
      text
  }

  /** Reads the three unit fields "<h>h", "<m>m", "<s>s" as a number of seconds. */
  function ParseClockFields(fields: seq<string>): Option<nat> {
    if |fields| != 3 then None
    else
      match (ParseSuffixed(fields[0], 'h'), ParseSuffixed(fields[1], 'm'), ParseSuffixed(fields[2], 's'))
      case (Some(h), Some(m), Some(s)) => Some(h * 3600 + m * 60 + s)
      case _ => None
  }

  /** Reads "<h>h <m>m <s>s" (non-negative parts) back as a number of seconds. */
  function ParseDuration(text: string): Option<nat> {
    ParseClockFields(Split(text, ' '))
  }

  /** The unit fields of a clock, in the order they are printed. */
  function ClockFields(c: Clock): seq<string>
    requires c.hours >= 0 && c.minutes >= 0 && c.seconds >= 0
  {
    [NatToString(c.hours) + "h", NatToString(c.minutes) + "m", NatToString(c.seconds) + "s"]
  }

  /** A clock of non-negative parts renders as its three unit fields joined by spaces. */
  lemma RenderClockFields(c: Clock)
    requires c.hours >= 0 && c.minutes >= 0 && c.seconds >= 0
    ensures RenderClock(c) == Join(ClockFields(c), " ")
  {
    var fields := ClockFields(c);
    assert fields[1..][1..] == [fields[2]];
    assert Join(fields[1..], " ") == fields[1] + " " + fields[2];
  }

  /** Splitting a rendered clock at its spaces gives back its unit fields. */
  lemma SplitRenderedClock(c: Clock)
    requires c.hours >= 0 && c.minutes >= 0 && c.seconds >= 0
    ensures Split(RenderClock(c), ' ') == ClockFields(c)
  {
    RenderClockFields(c);
    NoSeparatorInSuffixed(c.hours, 'h', ' ');
    NoSeparatorInSuffixed(c.minutes, 'm', ' ');
    NoSeparatorInSuffixed(c.seconds, 's', ' ');
    SplitJoin(ClockFields(c), ' ');
  }

  /** The unit fields of a clock read back as its number of seconds. */
  lemma ParseClockFieldsOf(c: Clock)
    requires c.hours >= 0 && c.minutes >= 0 && c.seconds >= 0
    ensures ParseClockFields(ClockFields(c)) == Some(c.hours * 3600 + c.minutes * 60 + c.seconds)
  {
    ParseSuffixedOf(c.hours, 'h');
    ParseSuffixedOf(c.minutes, 'm');
    ParseSuffixedOf(c.seconds, 's');
  }

  /** A rendered clock of non-negative parts reads back as its number of seconds. */
  lemma ParseRenderedClock(c: Clock)
    requires c.hours >= 0 && c.minutes >= 0 && c.seconds >= 0
    ensures ParseDuration(RenderClock(c)) == Some(c.hours * 3600 + c.minutes * 60 + c.seconds)
  {
    SplitRenderedClock(c);
    ParseClockFieldsOf(c);
  }

  /**
   * The rendered duration loses only the milliseconds: for a positive duration
   * the text reads back as its whole number of seconds.
   */
  lemma FormatDurationReadsBack(ms: int)
    requires ms > 0
    ensures ParseDuration(FormatDuration(Some(ms))) == Some(ms / 1000)
  {
    var c := DurationParts(ms);
    DurationPartsSplitSeconds(ms);
    assert FormatDuration(Some(ms)) == RenderClock(c);
    ParseRenderedClock(c);
  }

  /** A build shorter than a second shows as "0h 0m 0s", not as "N/A". */
  lemma SubSecondDuration(ms: int)
    requires 0 < ms < 1000
    ensures FormatDuration(Some(ms)) == "0h 0m 0s"
  {
    FloorDivUnique(ms, 1000, 0);
  }

  /** `lastBuild` of a Jenkins job. */
  datatype Build = Build(number: int, timestamp: int, duration: Option<int>)

  /** A Jenkins job as the tree query returns it. */
  datatype Job = Job(name: string, color: Option<string>, lastBuild: Option<Build>)

  /** A row of the response; `lastRun` is the build timestamp the ISO text is made from. */
  datatype Pipeline = Pipeline(
    id: string, name: string, status: string, lastRun: Option<int>, duration: string, branch: string, author: string)

  const DefaultBranch: string := "main"
  const DefaultAuthor: string := "Jenkins"

  /** The `data.jobs.map(job => ...)` callback. */
  function ToPipeline(job: Job): (p: Pipeline)
    ensures p.id == job.name && p.name == job.name
    ensures p.status == MapColorToStatus(job.color)
    ensures job.lastBuild.None? ==> p.lastRun.None? && p.duration == NotAvailable
    ensures job.lastBuild.Some? ==>
      p.lastRun == Some(job.lastBuild.value.timestamp) && p.duration == FormatDuration(job.lastBuild.value.duration)
    ensures p.branch == DefaultBranch && p.author == DefaultAuthor
  {
    Pipeline(
      job.name, job.name, MapColorToStatus(job.color),
      if job.lastBuild.Some? then Some(job.lastBuild.value.timestamp) else None,
      if job.lastBuild.Some? then FormatDuration(job.lastBuild.value.duration) else NotAvailable,
      DefaultBranch, DefaultAuthor)
  }

  /** What the Jenkins call gave: no answer at all, or a status with the parsed `jobs` field if any. */
  datatype JenkinsReply = Unreachable | Reply(ok: bool, status: int, jobs: Option<seq<Job>>)

  datatype Response = Listed(pipelines: seq<Pipeline>) | Failure(status: int, error: string)

  const JenkinsFailed: string := "Jenkins API failed"
  const FetchFailed: string := "Unable to fetch pipelines"

  /**
   * The GET handler: a non-ok reply passes its status on; a failed call or a
   * body without `jobs` is a 500; otherwise one row per job, in job order.
   */
  function GetPipelines(reply: JenkinsReply): (resp: Response)
    ensures reply.Unreachable? ==> resp == Failure(500, FetchFailed)
    ensures reply.Reply? && !reply.ok ==> resp == Failure(reply.status, JenkinsFailed)
    ensures reply.Reply? && reply.ok && reply.jobs.None? ==> resp == Failure(500, FetchFailed)
    ensures reply.Reply? && reply.ok && reply.jobs.Some? ==>
      && resp.Listed?
      && |resp.pipelines| == |reply.jobs.value|
      && (forall i :: 0 <= i < |resp.pipelines| ==> resp.pipelines[i] == ToPipeline(reply.jobs.value[i]))
      && (forall i :: 0 <= i < |resp.pipelines| ==>
            resp.pipelines[i].id == reply.jobs.value[i].name && IsPipelineStatus(resp.pipelines[i].status))
  {
    match reply
    case Unreachable => Failure(500, FetchFailed)
    case Reply(ok, status, jobs) =>
      if !ok then Failure(status, JenkinsFailed)
      else if jobs.None? then Failure(500, FetchFailed)
      else Listed(MapSeq(ToPipeline, jobs.value))
  }
}
