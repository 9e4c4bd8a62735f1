/** The daily cycle (`cronFunc` and `runBot`) as a two-state machine over
    the held leaderboard: with nothing held (bootstrap) the bot posts its
    introduction; with rows held (steady) it re-queries their usernames,
    diffs, and announces the renames.  Either way it then replaces the
    held rows with a fresh leaderboard fetch, which may itself be absent.
    An empty list of rows counts as held: JavaScript arrays are truthy.
 */
module Cycle {
  import opened Wrappers
  import opened AppTypes
  import opened Differ
  import opened Formatter
  import opened FidList
  import opened Publisher

  /** What the outside world answers during one cycle: the username
      lookup, the publish service (one answer per call) and the
      leaderboard fetch.  `None` is a query that failed or returned no result. */
  datatype Env = Env(lookup: Option<seq<Row>>, publish: seq<Option<Hash>>, leaderboard: Option<seq<Row>>)

  /** What one run of the bot did: the fid-list parameter it sent and the
      publish calls it made. */
  datatype BotRun = BotRun(query: string, calls: seq<Call>)

  /** What one cycle did and the rows it leaves held for the next one. */
  datatype Day = Day(query: Option<string>, calls: seq<Call>, held: Option<seq<Row>>)

  /** The one-time introduction, with the line break and indentation the
      source's template literal carries. */
  const IntroText: string :=
    "gm! I bring updates of farcaster users' usage of fully decentralized domains (via ens!). Look \n      forward to updates of popular farcaster accounts that switch their original fnames to a .eth name!"

  /** `runBot`: query the usernames of the held fids, diff, and cast only
      when at least one rename was found.  A throw anywhere (an unreadable
      lookup, a failed publish in the chain) is caught and ends the run. */
  function RunBot(held: seq<Row>, lookup: Option<seq<Row>>, publish: seq<Option<Hash>>): (r: BotRun)
    ensures r.query == CreateFidListString(held)
    ensures |r.calls| > 0 <==>
              (var found := CheckDifferingUsernames(held, lookup); found.Some? && |found.value| > 0)
    ensures |r.calls| > 0 ==>
              var changes := CheckDifferingUsernames(held, lookup).value;
              r.calls == CastDailyMessages(CreateMessages(changes), publish).calls
  {
    var query := CreateFidListString(held);
    match CheckDifferingUsernames(held, lookup)
    case None => BotRun(query, [])
    case Some(changes) =>
      if |changes| > 0 then BotRun(query, CastDailyMessages(CreateMessages(changes), publish).calls)
      else BotRun(query, [])
  }

  /** `cronFunc`: one scheduled cycle. */
  function CronFunc(held: Option<seq<Row>>, env: Env): (d: Day)
    ensures d.held == env.leaderboard
    ensures held.None? ==> d.query.None? && d.calls == [Call(IntroText, None)]
    ensures held.Some? ==> d.query == Some(CreateFidListString(held.value))
    ensures held.Some? ==> forall k :: 0 <= k < |d.calls| ==> d.calls[k].text != IntroText
    ensures held.Some? ==>
              (|d.calls| > 0 <==>
                 (var found := CheckDifferingUsernames(held.value, env.lookup); found.Some? && |found.value| > 0))
    ensures held.Some? && |d.calls| > 0 ==>
              var changes := CheckDifferingUsernames(held.value, env.lookup).value;
              d.calls == CastDailyMessages(CreateMessages(changes), env.publish).calls
  {
    match held
    case None => Day(None, [Call(IntroText, None)], env.leaderboard)
    case Some(rows) =>
      var run := RunBot(rows, env.lookup, env.publish);
      assert forall k :: 0 <= k < |run.calls| ==> run.calls[k].text != IntroText by {
        if |run.calls| > 0 {
          AnnouncementsAreNotIntro(CheckDifferingUsernames(rows, env.lookup).value, env.publish);
        }
      }
      Day(Some(run.query), run.calls, env.leaderboard)
  }

  /** Every cast of an announcement ends with a line break, unlike the
      introduction, so the two can never be confused. */
  lemma AnnouncementsAreNotIntro(changes: seq<UsernameHistory>, publish: seq<Option<Hash>>)
    ensures var calls := CastDailyMessages(CreateMessages(changes), publish).calls;
            forall k :: 0 <= k < |calls| ==> calls[k].text != IntroText
  {
    var messages := CreateMessages(changes);
    EveryCastEndsWithNewline(changes);
    assert IntroText[|IntroText| - 1] == '!';
  }

  /** A run of consecutive cycles from a given held state. */
  function Run(held: Option<seq<Row>>, envs: seq<Env>): (days: seq<Day>)
    ensures |days| == |envs|
    ensures forall k :: 0 <= k < |days| ==> days[k].held == envs[k].leaderboard
    ensures forall k :: 0 <= k < |days| ==> days[k] == CronFunc(HeldBefore(held, envs, k), envs[k])
    decreases |envs|
  {
    if |envs| == 0 then []
    else
      var today := CronFunc(held, envs[0]);
      var rest := Run(today.held, envs[1..]);
      var days := [today] + rest;
      assert forall k :: 0 < k < |days| ==> days[k] == rest[k - 1] && envs[k] == envs[1..][k - 1];
      days
  }

  /** The rows held when cycle `d` of a run starts. */
  function HeldBefore(held: Option<seq<Row>>, envs: seq<Env>, d: nat): Option<seq<Row>>
    requires d <= |envs|
  {
    if d == 0 then held else envs[d - 1].leaderboard
  }

  /** Every cycle starts from the rows the previous cycle fetched, and
      the introduction is posted on exactly those days that start with
      nothing held: the first day of a fresh process, and every day after
      a leaderboard fetch that failed. */
  lemma RunBootstrapsExactlyAfterMissingFetch(held: Option<seq<Row>>, envs: seq<Env>, d: nat)
    requires d < |envs|
    ensures Run(held, envs)[d] == CronFunc(HeldBefore(held, envs, d), envs[d])
    ensures Run(held, envs)[d].calls == [Call(IntroText, None)] <==> HeldBefore(held, envs, d).None?
  {
  }
}
