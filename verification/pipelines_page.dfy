/**
 * The Pipelines page: the four status tallies, one line per pipeline with its
 * badge and the time since its last run, and the loading text while the list
 * is empty.
 */
module PipelinesPage {
  import opened Wrappers
  import opened JsMath
  import opened JsText
  import opened JsArray
  import opened Pipelines
  import StatusBadge

  const HourMs: int := 1000 * 60 * 60
  const MinuteMs: int := 1000 * 60

  datatype Elapsed = Elapsed(hours: int, minutes: int)

  /**
   * The arithmetic of the page's `formatDuration(lastRun)`: `new Date(null)` is
   * the epoch, so a pipeline that never ran counts from time 0.
   */
  function ElapsedParts(now: int, lastRun: Option<int>): Elapsed {
    var diff := now - lastRun.GetOr(0);
    Elapsed(FloorDiv(diff, HourMs), FloorDiv(JsRem(diff, HourMs), MinuteMs))
  }

  /** For a run in the past the parts are whole hours and the minutes left over. */
  lemma ElapsedPartsSplitMinutes(now: int, lastRun: Option<int>)
    requires now - lastRun.GetOr(0) >= 0
    ensures var e := ElapsedParts(now, lastRun);
      && e.hours >= 0 && 0 <= e.minutes < 60
      && e.hours * 60 + e.minutes == (now - lastRun.GetOr(0)) / MinuteMs
  {
    var diff := now - lastRun.GetOr(0);
    var h := FloorDiv(diff, HourMs);
    var r := JsRem(diff, HourMs);
    var m := FloorDiv(r, MinuteMs);
    assert diff == h * HourMs + r;
    assert r == m * MinuteMs + r % MinuteMs;
    assert diff == (h * 60 + m) * MinuteMs + r % MinuteMs;
    FloorDivUnique(diff, MinuteMs, h * 60 + m);
  }

  /** "<h>h <m>m ago" once an hour has passed, "<m>m ago" before. */
  function RenderElapsed(e: Elapsed): (text: string)
    ensures |text| >= 5 && text[|text| - 5..] == "m ago"
  {
    if e.hours > 0 then IntToString(e.hours) + "h " + IntToString(e.minutes) + "m ago"
    else IntToString(e.minutes) + "m ago"
  }

  /** The page's `formatDuration(lastRun)` at the current time. */
  function FormatElapsed(now: int, lastRun: Option<int>): (text: string)
    ensures |text| >= 5 && text[|text| - 5..] == "m ago"
  {
    RenderElapsed(ElapsedParts(now, lastRun))
  }

  /** Reads "<h>h <m>m ago" or "<m>m ago" (non-negative parts) back as a number of minutes. */
  function ParseElapsed(text: string): Option<nat> {
    var fields := Split(text, ' ');
    if |fields| == 2 && fields[1] == "ago" then ParseSuffixed(fields[0], 'm')
    else if |fields| == 3 && fields[2] == "ago" then
      match (ParseSuffixed(fields[0], 'h'), ParseSuffixed(fields[1], 'm'))
      case (Some(h), Some(m)) => Some(h * 60 + m)
      case _ => None
    else None
  }

  /** Two fields joined by one space. */
  lemma JoinTwo(a: string, b: string)
    ensures Join([a, b], " ") == a + " " + b
  {
    assert [a, b][1..] == [b];
  }

  /** Three fields joined by spaces. */
  lemma JoinThree(a: string, b: string, c: string)
    ensures Join([a, b, c], " ") == a + " " + b + " " + c
  {
    assert [a, b, c][1..] == [b, c];
    JoinTwo(b, c);
  }

  /** Under an hour, the minutes read back as themselves. */
  lemma ParseRenderedMinutes(h: int, m: nat)
    requires h <= 0
    ensures ParseElapsed(RenderElapsed(Elapsed(h, m))) == Some(m)
  {
    SplitRenderedMinutes(h, m);
    ParseSuffixedOf(m, 'm');
  }

  /** With an hour or more, the text splits into its hour, minute and "ago" fields. */
  lemma SplitRenderedHours(h: nat, m: nat)
    requires h > 0
    ensures Split(RenderElapsed(Elapsed(h, m)), ' ') == [NatToString(h) + "h", NatToString(m) + "m", "ago"]
  {
    var hrs, mins := NatToString(h) + "h", NatToString(m) + "m";
    assert RenderElapsed(Elapsed(h, m)) == hrs + " " + mins + " " + "ago";
    NoSeparatorInSuffixed(m, 'm', ' ');
    NoSeparatorInSuffixed(h, 'h', ' ');
    JoinThree(hrs, mins, "ago");
    SplitJoin([hrs, mins, "ago"], ' ');
  }

  /** Under an hour, the text splits into the minute field and "ago": no hour field is printed. */
  lemma SplitRenderedMinutes(h: int, m: nat)
    requires h <= 0
    ensures Split(RenderElapsed(Elapsed(h, m)), ' ') == [NatToString(m) + "m", "ago"]
  {
    var mins := NatToString(m) + "m";
    assert RenderElapsed(Elapsed(h, m)) == mins + " " + "ago";
    NoSeparatorInSuffixed(m, 'm', ' ');
    JoinTwo(mins, "ago");
    SplitJoin([mins, "ago"], ' ');
  }

  /** Hours and minutes read back as the total number of minutes. */
  lemma ParseRenderedHours(h: nat, m: nat)
    requires h > 0
    ensures ParseElapsed(RenderElapsed(Elapsed(h, m))) == Some(h * 60 + m)
  {
    var fields := Split(RenderElapsed(Elapsed(h, m)), ' ');
    SplitRenderedHours(h, m);
    ParseSuffixedOf(h, 'h');
    ParseSuffixedOf(m, 'm');
    assert ParseSuffixed(fields[0], 'h') == Some(h);
    assert ParseSuffixed(fields[1], 'm') == Some(m);
  }

  /** Either form of the text reads back as the total number of minutes. */
  lemma ParseRenderedElapsed(h: nat, m: nat)
    ensures ParseElapsed(RenderElapsed(Elapsed(h, m))) == Some(h * 60 + m)
  {
    if h > 0 {
      ParseRenderedHours(h, m);
    } else {
      ParseRenderedMinutes(h, m);
    }
  }

  /** The elapsed-time text of a past run reads back as its whole number of minutes. */
  lemma FormatElapsedReadsBack(now: int, lastRun: Option<int>)
    requires now - lastRun.GetOr(0) >= 0
    ensures ParseElapsed(FormatElapsed(now, lastRun)) == Some((now - lastRun.GetOr(0)) / MinuteMs)
  {
    var e := ElapsedParts(now, lastRun);
    ElapsedPartsSplitMinutes(now, lastRun);
    ParseRenderedElapsed(e.hours, e.minutes);
  }

  /** The statuses of the list, in order. */
  function Statuses(ps: seq<Pipeline>): seq<string> {
    seq(|ps|, i requires 0 <= i < |ps| => ps[i].status)
  }

  /** `pipelines.filter(p => p.status === status).length`: how many times the status occurs in the list. */
  function CountStatus(ps: seq<Pipeline>, status: string): (n: nat)
    ensures n <= |ps|
    ensures n == multiset(Statuses(ps))[status]
  {
    if ps == [] then 0
    else
      assert Statuses(ps) == [ps[0].status] + Statuses(ps[1..]);
      (if ps[0].status == status then 1 else 0) + CountStatus(ps[1..], status)
  }

  /** The four tallies together never exceed the list, and cover it when every status is a known one. */
  lemma {:induction false} StatusCountsSum(ps: seq<Pipeline>)
    ensures CountStatus(ps, Success) + CountStatus(ps, Running) + CountStatus(ps, Failed) + CountStatus(ps, Warning) <= |ps|
    ensures (forall i :: 0 <= i < |ps| ==> IsPipelineStatus(ps[i].status)) ==>
      CountStatus(ps, Success) + CountStatus(ps, Running) + CountStatus(ps, Failed) + CountStatus(ps, Warning) == |ps|
  {
    if ps != [] {
      StatusCountsSum(ps[1..]);
      if forall i :: 0 <= i < |ps| ==> IsPipelineStatus(ps[i].status) {
        assert IsPipelineStatus(ps[0].status);
        assert forall i :: 0 <= i < |ps[1..]| ==> IsPipelineStatus(ps[1..][i].status) by {
          forall i | 0 <= i < |ps[1..]| ensures IsPipelineStatus(ps[1..][i].status) {
            assert ps[1..][i] == ps[i + 1];
          }
        }
      }
    }
  }

  /** For a list the backend produced, the four cards add up to the number of pipelines. */
  lemma ListedCountsCoverJobs(jobs: seq<Job>)
    ensures var ps := MapSeq(ToPipeline, jobs);
      CountStatus(ps, Success) + CountStatus(ps, Running) + CountStatus(ps, Failed) + CountStatus(ps, Warning) == |jobs|
  {
    StatusCountsSum(MapSeq(ToPipeline, jobs));
  }

  /** One line of the "All Pipelines" card. */
  datatype PipelineLine = PipelineLine(
    name: string, badge: StatusBadge.Badge, branch: string, author: string, elapsed: string, duration: string)

  datatype View =
    | Loading(message: string)
    | Overview(success: nat, running: nat, failed: nat, warning: nat, lines: seq<PipelineLine>)

  const LoadingMessage: string := "Loading pipelines..."

  function LineOf(now: int, p: Pipeline): PipelineLine {
    PipelineLine(p.name, StatusBadge.Render(p.status, ""), p.branch, p.author, FormatElapsed(now, p.lastRun), p.duration)
  }

  /**
   * The page for the current list: only the loading text while it is empty;
   * otherwise the tallies and one line per pipeline, in list order.
   */
  function Render(now: int, ps: seq<Pipeline>): (v: View)
    ensures v.Loading? <==> ps == []
    ensures v.Loading? ==> v.message == LoadingMessage
    ensures v.Overview? ==>
      && v.success == CountStatus(ps, Success) && v.running == CountStatus(ps, Running)
      && v.failed == CountStatus(ps, Failed) && v.warning == CountStatus(ps, Warning)
      && v.success + v.running + v.failed + v.warning <= |ps|
      && |v.lines| == |ps|
      && (forall i :: 0 <= i < |ps| ==> v.lines[i] == LineOf(now, ps[i]))
      && (forall i :: 0 <= i < |ps| ==>
            v.lines[i].name == ps[i].name && v.lines[i].badge.text == ps[i].status
            && v.lines[i].elapsed == FormatElapsed(now, ps[i].lastRun))
  {
    if |ps| == 0 then Loading(LoadingMessage)
    else
      StatusCountsSum(ps);
      Overview(
        CountStatus(ps, Success), CountStatus(ps, Running), CountStatus(ps, Failed), CountStatus(ps, Warning),
        MapSeq(p => LineOf(now, p), ps))
  }
}
