/**
 Archiving and deleting the tickets of past conferences (app/archiver.py).

 A run is the sequence of observable steps the code takes (requests sent, archive files
 written, results handed to the caller, deletions attempted) together with how it ends.
 The file system, the clock and `uuid4` are parameters: `now` is the current time and
 `suffix(i)` the four hex digits drawn for the `i`-th team.
 */
module Archiver {
  import opened Wrappers
  import opened PyDict
  import opened Timestamps
  import opened Seqs
  import opened HelpDesk

  /** Tickets younger than this many days are never archived. */
  const ThresholdDays: int := 90

  datatype ArchiveError =
    | TooRecent                  // ValueError "Never delete tickets younger than 90 days"
    | DateOverflow               // OverflowError: the cutoff plus 90 days is past 9999-12-31
    | FetchFailed(cause: Error)  // the APIException of `get_tickets`
    | UnknownTeam(teamId: string) // KeyError from `self.teams[team_id]`
    | InvalidDate                // ValueError from `datetime(year, 9, 30)`

  // ---------------------------------------------------------------- the age guard

  /** The time of day in microseconds. */
  function TimeOfDay(dt: ValidDateTime): (t: int)
    ensures 0 <= t < MicrosPerDay
  {
    ((dt.hour * 60 + dt.minute) * 60 + dt.second) * 1000000 + dt.microsecond
  }

  lemma MicrosSplit(dt: ValidDateTime)
    ensures Micros(dt) == (Ordinal(dt) - 1) * MicrosPerDay + TimeOfDay(dt)
  {
  }

  /** `to_date + timedelta(days=90) > datetime.now()` refuses; building the shifted date fails
      first when it would pass the last representable day. */
  function CheckCutoff(to: ValidDateTime, now: ValidDateTime): Outcome<ArchiveError> {
    if Ordinal(to) + ThresholdDays > MaxOrdinal then Fail(DateOverflow)
    else if Micros(to) + ThresholdDays * MicrosPerDay > Micros(now) then Fail(TooRecent)
    else Pass
  }

  /** The guard passes exactly when the moment 90 days after the cutoff exists and `now` is not
      before it, comparing calendar day first and time of day second. */
  lemma CutoffGuard(to: ValidDateTime, now: ValidDateTime)
    ensures CheckCutoff(to, now) == Pass <==>
              && Ordinal(to) + ThresholdDays <= MaxOrdinal
              && (|| Ordinal(to) + ThresholdDays < Ordinal(now)
                  || (Ordinal(to) + ThresholdDays == Ordinal(now) && TimeOfDay(to) <= TimeOfDay(now)))
    ensures CheckCutoff(to, now) == Fail(DateOverflow) <==> Ordinal(to) + ThresholdDays > MaxOrdinal
  {
    MicrosSplit(to);
    MicrosSplit(now);
  }

  // ---------------------------------------------------------------- archive file names

  predicate IsHexDigit(c: char) {
    '0' <= c <= '9' || 'a' <= c <= 'f'
  }

  /** `uuid4().hex[:4]`. */
  type HexSuffix = s: string | |s| == 4 && forall i | 0 <= i < |s| :: IsHexDigit(s[i]) witness "0000"

  function ReplaceChar(s: string, from: char, to: char): (r: string)
    ensures |r| == |s|
    ensures forall i | 0 <= i < |s| :: r[i] == if s[i] == from then to else s[i]
  {
    seq(|s|, i requires 0 <= i < |s| => if s[i] == from then to else s[i])
  }

  /** `.replace("/", "-").replace(":", "-")`: no path separators or drive colons remain, and
      every other character is kept. */
  function Sanitize(s: string): (r: string)
    ensures |r| == |s|
    ensures forall i | 0 <= i < |s| :: r[i] != '/' && r[i] != ':'
    ensures forall i | 0 <= i < |s| :: r[i] == if s[i] == '/' || s[i] == ':' then '-' else s[i]
  {
    ReplaceChar(ReplaceChar(s, '/', '-'), ':', '-')
  }

  /** Sanitizing works character by character, so it can be applied part by part. */
  lemma SanitizeAppend(a: string, b: string)
    ensures Sanitize(a + b) == Sanitize(a) + Sanitize(b)
  {
  }

  /** `f"a_{team}_{timestamp}_{i:02d}_{hex}.json"`, sanitized. */
  function ArchiveFileName(teamName: string, to: ValidDateTime, index: nat, suffix: HexSuffix): (name: string)
    ensures forall i | 0 <= i < |name| :: name[i] != '/' && name[i] != ':'
  {
    Sanitize("a_" + teamName + "_" + ApiIsoTimestamp(to) + "_" + ZeroPad(index, 2) + "_" + suffix + ".json")
  }

  /** Text without '/' or ':' is left alone. */
  lemma SanitizeClean(s: string)
    requires forall i | 0 <= i < |s| :: s[i] != '/' && s[i] != ':'
    ensures Sanitize(s) == s
  {
  }

  /** In the sanitized cutoff only the two colons of the time change, into dashes. */
  lemma SanitizedStamp(to: ValidDateTime)
    ensures var ts := Sanitize(ApiIsoTimestamp(to));
            && |ts| == 20 && ts[13] == '-' && ts[16] == '-'
            && forall i | 0 <= i < 20 && i != 13 && i != 16 :: ts[i] == ApiIsoTimestamp(to)[i]
  {
  }

  lemma SanitizeAppend3(a: string, b: string, c: string)
    ensures Sanitize(a + b + c) == Sanitize(a) + Sanitize(b) + Sanitize(c)
  {
    SanitizeAppend(a + b, c);
    SanitizeAppend(a, b);
  }

  /** The fixed parts of an archive file name need no sanitizing. */
  lemma SanitizeLiterals()
    ensures Sanitize("a_") == "a_" && Sanitize("_") == "_" && Sanitize(".json") == ".json"
  {
    SanitizeClean("a_");
    SanitizeClean("_");
    SanitizeClean(".json");
  }

  /** Everything after the cutoff is digits, hex digits and fixed text, so it is kept as is. */
  lemma SanitizeTail(pad: string, suffix: HexSuffix)
    requires forall i | 0 <= i < |pad| :: IsDigit(pad[i])
    ensures Sanitize("_" + pad + "_" + suffix + ".json") == "_" + pad + "_" + suffix + ".json"
  {
    SanitizeLiterals();
    SanitizeClean(pad);
    SanitizeClean(suffix);
    SanitizeAppend3("_", pad, "_");
    SanitizeAppend3("_" + pad + "_", suffix, ".json");
  }

  /** Sanitizing an archive file name, whatever its cutoff text and padded index. */
  lemma SanitizeParts(teamName: string, stamp: string, pad: string, suffix: HexSuffix)
    requires forall i | 0 <= i < |pad| :: IsDigit(pad[i])
    ensures Sanitize("a_" + teamName + "_" + stamp + "_" + pad + "_" + suffix + ".json")
              == "a_" + Sanitize(teamName) + "_" + Sanitize(stamp) + "_" + pad + "_" + suffix + ".json"
  {
    var head := "a_" + teamName + "_";
    var tail := "_" + pad + "_" + suffix + ".json";
    SanitizeLiterals();
    SanitizeAppend3("a_", teamName, "_");
    SanitizeTail(pad, suffix);
    assert "a_" + teamName + "_" + stamp + "_" + pad + "_" + suffix + ".json" == head + stamp + tail;
    SanitizeAppend3(head, stamp, tail);
  }

  /** The name is built from its parts: the sanitized team name, the sanitized cutoff, the
      index padded to two digits and the random suffix, the last two untouched. */
  lemma ArchiveFileNameParts(teamName: string, to: ValidDateTime, index: nat, suffix: HexSuffix)
    ensures ArchiveFileName(teamName, to, index, suffix)
              == "a_" + Sanitize(teamName) + "_" + Sanitize(ApiIsoTimestamp(to)) + "_" + ZeroPad(index, 2)
                 + "_" + suffix + ".json"
  {
    SanitizeParts(teamName, ApiIsoTimestamp(to), ZeroPad(index, 2), suffix);
  }

  // ---------------------------------------------------------------- archive_old_tickets

  /** What the run does, in the order it does it. */
  datatype Event =
    | Requested(params: Params)                      // a `get_tickets` call
    | Skipped(teamName: string)                      // "... has nothing left to be archived"
    | Written(fileName: string, tickets: seq<Ticket>) // one archive file with the team's tickets
    | Yielded(tickets: seq<Ticket>)                  // handed to the caller
    | DeleteAttempted(ticketId: string, log: DeleteLog)

  /** How one deletion went: 200, another status, or an exception (all only printed). */
  datatype DeleteLog = Deleted | DeleteFailed(status: int) | DeleteRaised

  datatype Run = Run(events: seq<Event>, outcome: Outcome<ArchiveError>)

  /** The filter every team request starts from. */
  function CutoffFilter(to: ValidDateTime): Params {
    [("createdDateTo", Text(ApiIsoTimestamp(to)))]
  }

  /** The request sent for one team: the cutoff, the team and the page size. */
  function TeamRequest(to: ValidDateTime, team: string): Params {
    [("createdDateTo", Text(ApiIsoTimestamp(to))), ("teamIDs[]", Text(team)), ("pageSize", Number(PageSize))]
  }

  /** The code reuses one dict for all teams, overwriting "teamIDs[]" and, inside `get_tickets`,
      "pageSize"; each request is still the cutoff filter with the team set and then the page
      size set, which is the three entries above in that order. */
  lemma TeamRequestBuilt(to: ValidDateTime, team: string)
    ensures TeamRequest(to, team) == TicketsRequest(Put(CutoffFilter(to), "teamIDs[]", Text(team)))
    ensures Get(TeamRequest(to, team), "createdDateTo") == Some(Text(ApiIsoTimestamp(to)))
    ensures Get(TeamRequest(to, team), "teamIDs[]") == Some(Text(team))
    ensures Get(TeamRequest(to, team), "pageSize") == Some(Number(PageSize))
  {
  }

  /** The requests for the given teams, in order. */
  function TeamRequests(to: ValidDateTime, teams: seq<string>): (ps: seq<Params>)
    ensures |ps| == |teams|
    ensures forall k | 0 <= k < |teams| :: ps[k] == TeamRequest(to, teams[k])
  {
    if teams == [] then [] else [TeamRequest(to, teams[0])] + TeamRequests(to, teams[1..])
  }

  /** The ticket lists the vendor returns for the given teams, in order. */
  function Fetched(to: ValidDateTime, teams: seq<string>, endpoint: Params -> Response<seq<Ticket>>)
    : (lists: seq<seq<Ticket>>)
    ensures |lists| == |teams|
    ensures forall k | 0 <= k < |teams| :: lists[k] == endpoint(TeamRequest(to, teams[k])).body
  {
    if teams == [] then [] else [endpoint(TeamRequest(to, teams[0])).body] + Fetched(to, teams[1..], endpoint)
  }

  /** The steps for one team whose tickets were fetched: nothing to archive, or one archive file,
      handed on when results are yielded. */
  function TeamEvents(teamName: string, fileName: string, tickets: seq<Ticket>, yieldResults: bool): seq<Event> {
    if tickets == [] then [Skipped(teamName)]
    else [Written(fileName, tickets)] + (if yieldResults then [Yielded(tickets)] else [])
  }

  /** The loop of `archive_old_tickets` from the `i`-th team on. A failed request or a team
      missing from the teams cache ends the run with what happened so far. */
  function ArchiveFrom(teams: Lookup, teamIds: seq<string>, i: nat, to: ValidDateTime,
                       yieldResults: bool, endpoint: Params -> Response<seq<Ticket>>,
                       suffix: nat -> HexSuffix): Run
    requires i <= |teamIds|
    decreases |teamIds| - i
  {
    if i == |teamIds| then Run([], Pass)
    else
      var req := TeamRequest(to, teamIds[i]);
      match GetFromApi(endpoint(req))
      case Err(e) => Run([Requested(req)], Fail(FetchFailed(e)))
      case Ok(tickets) =>
        match Get(teams, teamIds[i])
        case None => Run([Requested(req)], Fail(UnknownTeam(teamIds[i])))
        case Some(name) =>
          var rest := ArchiveFrom(teams, teamIds, i + 1, to, yieldResults, endpoint, suffix);
          var fileName := ArchiveFileName(name, to, i, suffix(i));
          Run([Requested(req)] + TeamEvents(name, fileName, tickets, yieldResults) + rest.events,
              rest.outcome)
  }

  /** `archive_old_tickets`, run to completion: the age guard, then one request per team. */
  function ArchiveOldTickets(teams: Lookup, teamIds: seq<string>, to: ValidDateTime, now: ValidDateTime,
                             yieldResults: bool, endpoint: Params -> Response<seq<Ticket>>,
                             suffix: nat -> HexSuffix): (r: Run)
    ensures r.events != [] || r.outcome.Pass? ==> CheckCutoff(to, now) == Pass
    ensures CheckCutoff(to, now).Fail? ==> r.outcome == CheckCutoff(to, now)
    ensures CheckCutoff(to, now).Pass? ==>
              (r.outcome.Pass? <==> forall j | 0 <= j < |teamIds| :: TeamOk(teams, to, endpoint, teamIds[j]))
    ensures Requests(r.events) <= TeamRequests(to, teamIds)
    ensures r.outcome.Pass? ==> Requests(r.events) == TeamRequests(to, teamIds)
  {
    match CheckCutoff(to, now)
    case Fail(e) =>
      assert Requests([]) == [];
      Run([], Fail(e))
    case Pass =>
      ArchivePasses(teams, teamIds, 0, to, yieldResults, endpoint, suffix);
      ArchiveRequests(teams, teamIds, 0, to, yieldResults, endpoint, suffix);
      assert teamIds[0..] == teamIds;
      ArchiveFrom(teams, teamIds, 0, to, yieldResults, endpoint, suffix)
  }

  // ---------------------------------------------------------------- views of a run

  function RequestOf(e: Event): seq<Params> {
    if e.Requested? then [e.params] else []
  }

  function WrittenOf(e: Event): seq<seq<Ticket>> {
    if e.Written? then [e.tickets] else []
  }

  function YieldedOf(e: Event): seq<seq<Ticket>> {
    if e.Yielded? then [e.tickets] else []
  }

  function DeletedOf(e: Event): seq<string> {
    if e.DeleteAttempted? then [e.ticketId] else []
  }

  /** The parameters of every request, in order. */
  function Requests(events: seq<Event>): seq<Params> {
    FlatMap(RequestOf, events)
  }

  /** The contents of every archive file, in order. */
  function WrittenLists(events: seq<Event>): seq<seq<Ticket>> {
    FlatMap(WrittenOf, events)
  }

  /** Every list handed to the caller, in order. */
  function YieldedLists(events: seq<Event>): seq<seq<Ticket>> {
    FlatMap(YieldedOf, events)
  }

  /** Every ticket ID a deletion was attempted for, in order. */
  function DeletedIds(events: seq<Event>): seq<string> {
    FlatMap(DeletedOf, events)
  }

  predicate IsNonEmpty(tickets: seq<Ticket>) {
    tickets != []
  }

  /** The team at `teamIds[j]` was fetched and is known to the teams cache. */
  predicate TeamOk(teams: Lookup, to: ValidDateTime, endpoint: Params -> Response<seq<Ticket>>, team: string) {
    endpoint(TeamRequest(to, team)).status == 200 && HasKey(teams, team)
  }

  /** The error a failing team ends the run with: the request's, else the missing cache entry. */
  function TeamFailure(to: ValidDateTime, endpoint: Params -> Response<seq<Ticket>>, team: string): ArchiveError {
    var resp := endpoint(TeamRequest(to, team));
    if resp.status != 200 then FetchFailed(GetFromApi(resp).error) else UnknownTeam(team)
  }

  /** Every view of a run splits over consecutive stretches of it. */
  lemma ViewsAppend(a: seq<Event>, b: seq<Event>)
    ensures Requests(a + b) == Requests(a) + Requests(b)
    ensures WrittenLists(a + b) == WrittenLists(a) + WrittenLists(b)
    ensures YieldedLists(a + b) == YieldedLists(a) + YieldedLists(b)
    ensures DeletedIds(a + b) == DeletedIds(a) + DeletedIds(b)
  {
    FlatMapAppend(RequestOf, a, b);
    FlatMapAppend(WrittenOf, a, b);
    FlatMapAppend(YieldedOf, a, b);
    FlatMapAppend(DeletedOf, a, b);
  }

  /** What one fetched team contributes: no request or deletion, one archive file when it has
      tickets, and that same list handed on when results are yielded. */
  lemma TeamEventsViews(teamName: string, fileName: string, tickets: seq<Ticket>, yieldResults: bool)
    ensures var te := TeamEvents(teamName, fileName, tickets, yieldResults);
            && Requests(te) == []
            && WrittenLists(te) == (if tickets == [] then [] else [tickets])
            && YieldedLists(te) == (if tickets != [] && yieldResults then [tickets] else [])
            && DeletedIds(te) == []
  {
    if tickets == [] {
      SingleViews(Skipped(teamName));
    } else {
      var w := Written(fileName, tickets);
      SingleViews(w);
      if yieldResults {
        SingleViews(Yielded(tickets));
        ViewsAppend([w], [Yielded(tickets)]);
      } else {
        assert TeamEvents(teamName, fileName, tickets, yieldResults) == [w];
      }
    }
  }

  lemma SingleViews(e: Event)
    ensures Requests([e]) == RequestOf(e) && WrittenLists([e]) == WrittenOf(e)
    ensures YieldedLists([e]) == YieldedOf(e) && DeletedIds([e]) == DeletedOf(e)
  {
    FlatMapSingle(RequestOf, e);
    FlatMapSingle(WrittenOf, e);
    FlatMapSingle(YieldedOf, e);
    FlatMapSingle(DeletedOf, e);
  }

  /** A team that cannot be fetched, or is missing from the teams cache, ends the run right
      after its request. */
  lemma ArchiveStepFails(teams: Lookup, teamIds: seq<string>, i: nat, to: ValidDateTime, yieldResults: bool,
                         endpoint: Params -> Response<seq<Ticket>>, suffix: nat -> HexSuffix)
    requires i < |teamIds| && !TeamOk(teams, to, endpoint, teamIds[i])
    ensures ArchiveFrom(teams, teamIds, i, to, yieldResults, endpoint, suffix)
              == Run([Requested(TeamRequest(to, teamIds[i]))], Fail(TeamFailure(to, endpoint, teamIds[i])))
  {
  }

  /** A team that is fetched and known adds its request and its own steps, then the run goes
      on with the next team. */
  lemma ArchiveStepOk(teams: Lookup, teamIds: seq<string>, i: nat, to: ValidDateTime, yieldResults: bool,
                      endpoint: Params -> Response<seq<Ticket>>, suffix: nat -> HexSuffix)
    requires i < |teamIds| && TeamOk(teams, to, endpoint, teamIds[i])
    ensures var run := ArchiveFrom(teams, teamIds, i, to, yieldResults, endpoint, suffix);
            var rest := ArchiveFrom(teams, teamIds, i + 1, to, yieldResults, endpoint, suffix);
            var req := TeamRequest(to, teamIds[i]);
            && run.outcome == rest.outcome
            && run.events == [Requested(req)]
                             + TeamEvents(Get(teams, teamIds[i]).value,
                                          ArchiveFileName(Get(teams, teamIds[i]).value, to, i, suffix(i)),
                                          endpoint(req).body, yieldResults)
                             + rest.events
  {
  }

  /** The views of one successful step: its request first, then its file and its yielded list. */
  lemma StepViews(req: Params, teamName: string, fileName: string, tickets: seq<Ticket>, yieldResults: bool,
                  rest: seq<Event>)
    ensures var events := [Requested(req)] + TeamEvents(teamName, fileName, tickets, yieldResults) + rest;
            && Requests(events) == [req] + Requests(rest)
            && WrittenLists(events) == (if tickets == [] then [] else [tickets]) + WrittenLists(rest)
            && YieldedLists(events) == (if tickets != [] && yieldResults then [tickets] else []) + YieldedLists(rest)
            && DeletedIds(events) == DeletedIds(rest)
  {
    var te := TeamEvents(teamName, fileName, tickets, yieldResults);
    TeamEventsViews(teamName, fileName, tickets, yieldResults);
    SingleViews(Requested(req));
    ViewsAppend([Requested(req)], te);
    ViewsAppend([Requested(req)] + te, rest);
  }

  /** One step of the loop, seen through the views. */
  lemma ArchiveStepViews(teams: Lookup, teamIds: seq<string>, i: nat, to: ValidDateTime, yieldResults: bool,
                         endpoint: Params -> Response<seq<Ticket>>, suffix: nat -> HexSuffix)
    requires i < |teamIds| && TeamOk(teams, to, endpoint, teamIds[i])
    ensures var run := ArchiveFrom(teams, teamIds, i, to, yieldResults, endpoint, suffix);
            var rest := ArchiveFrom(teams, teamIds, i + 1, to, yieldResults, endpoint, suffix);
            var req := TeamRequest(to, teamIds[i]);
            var tickets := endpoint(req).body;
            && run.outcome == rest.outcome
            && Requests(run.events) == [req] + Requests(rest.events)
            && WrittenLists(run.events) == (if tickets == [] then [] else [tickets]) + WrittenLists(rest.events)
            && YieldedLists(run.events)
                 == (if tickets != [] && yieldResults then [tickets] else []) + YieldedLists(rest.events)
            && DeletedIds(run.events) == DeletedIds(rest.events)
  {
    var rest := ArchiveFrom(teams, teamIds, i + 1, to, yieldResults, endpoint, suffix);
    var req := TeamRequest(to, teamIds[i]);
    ArchiveStepOk(teams, teamIds, i, to, yieldResults, endpoint, suffix);
    var name := Get(teams, teamIds[i]).value;
    StepViews(req, name, ArchiveFileName(name, to, i, suffix(i)), endpoint(req).body, yieldResults, rest.events);
  }

  /** The requests of a run from the `i`-th team: that team's, then those of the rest when it
      was fetched and known. */
  lemma ArchiveRequestStep(teams: Lookup, teamIds: seq<string>, i: nat, to: ValidDateTime, yieldResults: bool,
                           endpoint: Params -> Response<seq<Ticket>>, suffix: nat -> HexSuffix)
    requires i < |teamIds|
    ensures Requests(ArchiveFrom(teams, teamIds, i, to, yieldResults, endpoint, suffix).events)
              == [TeamRequest(to, teamIds[i])]
                 + if TeamOk(teams, to, endpoint, teamIds[i])
                   then Requests(ArchiveFrom(teams, teamIds, i + 1, to, yieldResults, endpoint, suffix).events)
                   else []
  {
    if TeamOk(teams, to, endpoint, teamIds[i]) {
      ArchiveStepViews(teams, teamIds, i, to, yieldResults, endpoint, suffix);
    } else {
      ArchiveStepFails(teams, teamIds, i, to, yieldResults, endpoint, suffix);
      SingleViews(Requested(TeamRequest(to, teamIds[i])));
    }
  }

  /** How a run from the `i`-th team ends, one team at a time. */
  lemma ArchiveOutcomeStep(teams: Lookup, teamIds: seq<string>, i: nat, to: ValidDateTime, yieldResults: bool,
                           endpoint: Params -> Response<seq<Ticket>>, suffix: nat -> HexSuffix)
    requires i < |teamIds|
    ensures ArchiveFrom(teams, teamIds, i, to, yieldResults, endpoint, suffix).outcome
              == if TeamOk(teams, to, endpoint, teamIds[i])
                 then ArchiveFrom(teams, teamIds, i + 1, to, yieldResults, endpoint, suffix).outcome
                 else Fail(TeamFailure(to, endpoint, teamIds[i]))
  {
    if TeamOk(teams, to, endpoint, teamIds[i]) {
      ArchiveStepOk(teams, teamIds, i, to, yieldResults, endpoint, suffix);
    } else {
      ArchiveStepFails(teams, teamIds, i, to, yieldResults, endpoint, suffix);
    }
  }

  /** The run ends well exactly when every team is fetched and known. */
  lemma {:induction false} ArchivePasses(teams: Lookup, teamIds: seq<string>, i: nat, to: ValidDateTime,
                                         yieldResults: bool, endpoint: Params -> Response<seq<Ticket>>,
                                         suffix: nat -> HexSuffix)
    requires i <= |teamIds|
    ensures (ArchiveFrom(teams, teamIds, i, to, yieldResults, endpoint, suffix).outcome == Pass)
              <==> (forall j | i <= j < |teamIds| :: TeamOk(teams, to, endpoint, teamIds[j]))
    decreases |teamIds| - i
  {
    if i < |teamIds| {
      ArchiveOutcomeStep(teams, teamIds, i, to, yieldResults, endpoint, suffix);
      if TeamOk(teams, to, endpoint, teamIds[i]) {
        ArchivePasses(teams, teamIds, i + 1, to, yieldResults, endpoint, suffix);
        if forall j | i + 1 <= j < |teamIds| :: TeamOk(teams, to, endpoint, teamIds[j]) {
          forall j | i <= j < |teamIds| ensures TeamOk(teams, to, endpoint, teamIds[j]) {
          }
        }
      }
    }
  }

  /** A run that does not end well ends with the error of the first team that could not be
      fetched or is missing from the teams cache. */
  lemma {:induction false} ArchiveFirstFailure(teams: Lookup, teamIds: seq<string>, i: nat, to: ValidDateTime,
                                               yieldResults: bool, endpoint: Params -> Response<seq<Ticket>>,
                                               suffix: nat -> HexSuffix, j: nat)
    requires i <= j < |teamIds| && !TeamOk(teams, to, endpoint, teamIds[j])
    requires forall l | i <= l < j :: TeamOk(teams, to, endpoint, teamIds[l])
    ensures ArchiveFrom(teams, teamIds, i, to, yieldResults, endpoint, suffix).outcome
              == Fail(TeamFailure(to, endpoint, teamIds[j]))
    decreases j - i
  {
    ArchiveOutcomeStep(teams, teamIds, i, to, yieldResults, endpoint, suffix);
    if i < j {
      ArchiveFirstFailure(teams, teamIds, i + 1, to, yieldResults, endpoint, suffix, j);
    }
  }

  /** A request in front of both keeps a prefix a prefix. */
  lemma PrefixCons(req: Params, rest: seq<Params>, tail: seq<Params>)
    requires rest <= tail
    ensures [req] + rest <= [req] + tail
  {
    assert ([req] + tail)[..|[req] + rest|] == [req] + tail[..|rest|];
  }

  /** Requests go out team by team in the given order and stop at the first failure: they are
      a prefix of the requests for all teams, and all of them when the run ends well. */
  lemma {:induction false} ArchiveRequests(teams: Lookup, teamIds: seq<string>, i: nat, to: ValidDateTime,
                                           yieldResults: bool, endpoint: Params -> Response<seq<Ticket>>,
                                           suffix: nat -> HexSuffix)
    requires i <= |teamIds|
    ensures var run := ArchiveFrom(teams, teamIds, i, to, yieldResults, endpoint, suffix);
            && Requests(run.events) <= TeamRequests(to, teamIds[i..])
            && (run.outcome.Pass? ==> Requests(run.events) == TeamRequests(to, teamIds[i..]))
    decreases |teamIds| - i
  {
    if i < |teamIds| {
      var req := TeamRequest(to, teamIds[i]);
      assert teamIds[i..][1..] == teamIds[i + 1..];
      var tail := TeamRequests(to, teamIds[i + 1..]);
      assert TeamRequests(to, teamIds[i..]) == [req] + tail;
      if TeamOk(teams, to, endpoint, teamIds[i]) {
        var rest := ArchiveFrom(teams, teamIds, i + 1, to, yieldResults, endpoint, suffix);
        ArchiveStepViews(teams, teamIds, i, to, yieldResults, endpoint, suffix);
        ArchiveRequests(teams, teamIds, i + 1, to, yieldResults, endpoint, suffix);
        PrefixCons(req, Requests(rest.events), tail);
      } else {
        ArchiveStepFails(teams, teamIds, i, to, yieldResults, endpoint, suffix);
        SingleViews(Requested(req));
        PrefixCons(req, [], tail);
      }
    }
  }

  /** The first team from `i` on that cannot be fetched or is unknown; `|teamIds|` if none. */
  function FailIndex(teams: Lookup, teamIds: seq<string>, i: nat, to: ValidDateTime,
                     endpoint: Params -> Response<seq<Ticket>>): (j: nat)
    requires i <= |teamIds|
    ensures i <= j <= |teamIds|
    decreases |teamIds| - i
  {
    if i == |teamIds| then i
    else if TeamOk(teams, to, endpoint, teamIds[i]) then FailIndex(teams, teamIds, i + 1, to, endpoint)
    else i
  }

  /** The walk ends with the error of its first bad team, and passes when there is none. */
  lemma {:induction false} ArchiveOutcomeAt(teams: Lookup, teamIds: seq<string>, i: nat, to: ValidDateTime,
                                            yieldResults: bool, endpoint: Params -> Response<seq<Ticket>>,
                                            suffix: nat -> HexSuffix)
    requires i <= |teamIds|
    ensures var j := FailIndex(teams, teamIds, i, to, endpoint);
            ArchiveFrom(teams, teamIds, i, to, yieldResults, endpoint, suffix).outcome
              == if j == |teamIds| then Pass else Fail(TeamFailure(to, endpoint, teamIds[j]))
    decreases |teamIds| - i
  {
    if i < |teamIds| {
      ArchiveOutcomeStep(teams, teamIds, i, to, yieldResults, endpoint, suffix);
      if TeamOk(teams, to, endpoint, teamIds[i]) {
        ArchiveOutcomeAt(teams, teamIds, i + 1, to, yieldResults, endpoint, suffix);
      }
    }
  }

  /** The walk searches every team up to and including its first bad team. */
  lemma {:induction false} ArchiveRequestsUpTo(teams: Lookup, teamIds: seq<string>, i: nat, to: ValidDateTime,
                                               yieldResults: bool, endpoint: Params -> Response<seq<Ticket>>,
                                               suffix: nat -> HexSuffix)
    requires i <= |teamIds|
    ensures var j := FailIndex(teams, teamIds, i, to, endpoint);
            |Requests(ArchiveFrom(teams, teamIds, i, to, yieldResults, endpoint, suffix).events)|
              == if j == |teamIds| then |teamIds| - i else j - i + 1
    decreases |teamIds| - i
  {
    if i == |teamIds| {
      assert Requests([]) == [];
    } else {
      ArchiveRequestStep(teams, teamIds, i, to, yieldResults, endpoint, suffix);
      if TeamOk(teams, to, endpoint, teamIds[i]) {
        ArchiveRequestsUpTo(teams, teamIds, i + 1, to, yieldResults, endpoint, suffix);
      }
    }
  }

  /** A run that fails has sent at least one request, and the failure it reports is that of
      the team of its last request. */
  lemma ArchiveLastRequest(teams: Lookup, teamIds: seq<string>, i: nat, to: ValidDateTime,
                           yieldResults: bool, endpoint: Params -> Response<seq<Ticket>>,
                           suffix: nat -> HexSuffix)
    requires i <= |teamIds|
    requires ArchiveFrom(teams, teamIds, i, to, yieldResults, endpoint, suffix).outcome.Fail?
    ensures var run := ArchiveFrom(teams, teamIds, i, to, yieldResults, endpoint, suffix);
            && 1 <= |Requests(run.events)| <= |teamIds| - i
            && run.outcome == Fail(TeamFailure(to, endpoint, teamIds[i + |Requests(run.events)| - 1]))
  {
    ArchiveOutcomeAt(teams, teamIds, i, to, yieldResults, endpoint, suffix);
    ArchiveRequestsUpTo(teams, teamIds, i, to, yieldResults, endpoint, suffix);
  }

  /** When the run ends well, the archive files hold exactly the non-empty ticket lists, in team
      order. */
  lemma {:induction false} ArchiveWrites(teams: Lookup, teamIds: seq<string>, i: nat, to: ValidDateTime,
                                         yieldResults: bool, endpoint: Params -> Response<seq<Ticket>>,
                                         suffix: nat -> HexSuffix)
    requires i <= |teamIds|
    requires ArchiveFrom(teams, teamIds, i, to, yieldResults, endpoint, suffix).outcome.Pass?
    ensures WrittenLists(ArchiveFrom(teams, teamIds, i, to, yieldResults, endpoint, suffix).events)
              == Filter(IsNonEmpty, Fetched(to, teamIds[i..], endpoint))
    decreases |teamIds| - i
  {
    if i < |teamIds| {
      if TeamOk(teams, to, endpoint, teamIds[i]) {
        ArchiveStepViews(teams, teamIds, i, to, yieldResults, endpoint, suffix);
        ArchiveWrites(teams, teamIds, i + 1, to, yieldResults, endpoint, suffix);
        assert teamIds[i..][1..] == teamIds[i + 1..];
      } else {
        ArchiveStepFails(teams, teamIds, i, to, yieldResults, endpoint, suffix);
      }
    }
  }

  /** The lists handed on are the archive files' contents when results are yielded, and none
      otherwise; archiving alone deletes nothing. */
  lemma {:induction false} ArchiveYields(teams: Lookup, teamIds: seq<string>, i: nat, to: ValidDateTime,
                                         yieldResults: bool, endpoint: Params -> Response<seq<Ticket>>,
                                         suffix: nat -> HexSuffix)
    requires i <= |teamIds|
    ensures var run := ArchiveFrom(teams, teamIds, i, to, yieldResults, endpoint, suffix);
            && YieldedLists(run.events) == (if yieldResults then WrittenLists(run.events) else [])
            && DeletedIds(run.events) == []
    decreases |teamIds| - i
  {
    if i < |teamIds| {
      if TeamOk(teams, to, endpoint, teamIds[i]) {
        ArchiveStepViews(teams, teamIds, i, to, yieldResults, endpoint, suffix);
        ArchiveYields(teams, teamIds, i + 1, to, yieldResults, endpoint, suffix);
      } else {
        ArchiveStepFails(teams, teamIds, i, to, yieldResults, endpoint, suffix);
        SingleViews(Requested(TeamRequest(to, teamIds[i])));
      }
    }
  }

  // ---------------------------------------------------------------- delete_tickets

  /** What `delete_tickets` reports for one answer of the delete endpoint. */
  function LogOf(resp: WriteResponse): (log: DeleteLog)
    ensures log == Deleted <==> resp == Replied(200)
    ensures log.DeleteFailed? <==> resp.Replied? && resp.status != 200
  {
    match resp
    case Replied(status) => if status == 200 then Deleted else DeleteFailed(status)
    case Raised => DeleteRaised
  }

  function TicketId(t: Ticket): string {
    t.id
  }

  /** `[x["ID"] for x in tickets_archived]`. */
  function TicketIds(tickets: seq<Ticket>): (ids: seq<string>)
    ensures |ids| == |tickets|
    ensures forall k | 0 <= k < |tickets| :: ids[k] == tickets[k].id
  {
    Map(TicketId, tickets)
  }

  /** `delete_tickets`: one deletion per ID, in the given order. A failed or raising deletion is
      only reported; the loop goes on with the next ID. */
  function DeleteTickets(ids: seq<string>, delete: string -> WriteResponse): seq<Event> {
    if ids == [] then []
    else [DeleteAttempted(ids[0], LogOf(delete(ids[0])))] + DeleteTickets(ids[1..], delete)
  }

  /** Deleting sends no search and writes no file; it attempts exactly the given IDs, in order,
      each once, and every attempt records the endpoint's answer for that ID. */
  lemma {:induction false} DeleteTicketsViews(ids: seq<string>, delete: string -> WriteResponse)
    ensures var evs := DeleteTickets(ids, delete);
            && Requests(evs) == [] && WrittenLists(evs) == [] && YieldedLists(evs) == []
            && DeletedIds(evs) == ids
            && |evs| == |ids|
            && forall k | 0 <= k < |evs| :: evs[k] == DeleteAttempted(ids[k], LogOf(delete(ids[k])))
  {
    if ids != [] {
      var e := DeleteAttempted(ids[0], LogOf(delete(ids[0])));
      DeleteTicketsViews(ids[1..], delete);
      SingleViews(e);
      ViewsAppend([e], DeleteTickets(ids[1..], delete));
    }
  }

  // ---------------------------------------------------------------- archive_and_delete_tickets

  /** The loop body of `archive_and_delete_tickets`: right after a list is handed on, every
      ticket of it is deleted, before the archiving loop moves to the next team. */
  function Expand(e: Event, delete: string -> WriteResponse): seq<Event> {
    if e.Yielded? then [e] + DeleteTickets(TicketIds(e.tickets), delete) else [e]
  }

  function ExpandAll(events: seq<Event>, delete: string -> WriteResponse): seq<Event> {
    if events == [] then [] else Expand(events[0], delete) + ExpandAll(events[1..], delete)
  }

  /** `archive_and_delete_tickets`, run to completion: archive with results yielded and delete
      each yielded list. An error of the archiving loop ends the whole run. */
  function ArchiveAndDelete(teams: Lookup, teamIds: seq<string>, to: ValidDateTime, now: ValidDateTime,
                            endpoint: Params -> Response<seq<Ticket>>, suffix: nat -> HexSuffix,
                            delete: string -> WriteResponse): (r: Run)
    ensures r.outcome == ArchiveOldTickets(teams, teamIds, to, now, true, endpoint, suffix).outcome
  {
    var run := ArchiveOldTickets(teams, teamIds, to, now, true, endpoint, suffix);
    Run(ExpandAll(run.events, delete), run.outcome)
  }

  function YieldedIds(e: Event): seq<string> {
    if e.Yielded? then TicketIds(e.tickets) else []
  }

  lemma ExpandViews(e: Event, delete: string -> WriteResponse)
    ensures var x := Expand(e, delete);
            && Requests(x) == RequestOf(e) && WrittenLists(x) == WrittenOf(e) && YieldedLists(x) == YieldedOf(e)
            && DeletedIds(x) == DeletedOf(e) + YieldedIds(e)
  {
    SingleViews(e);
    if e.Yielded? {
      DeleteTicketsViews(TicketIds(e.tickets), delete);
      ViewsAppend([e], DeleteTickets(TicketIds(e.tickets), delete));
    }
  }

  /** Expanding adds deletions only: the searches, the archive files and the handed-on lists are
      those of the archiving run. */
  lemma {:induction false} ExpandAllKeeps(events: seq<Event>, delete: string -> WriteResponse)
    ensures var x := ExpandAll(events, delete);
            && Requests(x) == Requests(events)
            && WrittenLists(x) == WrittenLists(events)
            && YieldedLists(x) == YieldedLists(events)
  {
    if events != [] {
      var e := events[0];
      assert events == [e] + events[1..];
      ExpandAllKeeps(events[1..], delete);
      ExpandViews(e, delete);
      ViewsAppend(Expand(e, delete), ExpandAll(events[1..], delete));
      ViewsAppend([e], events[1..]);
      SingleViews(e);
    }
  }

  /** Starting from a run without deletions, the IDs deleted are, list by list, the IDs of every
      handed-on list. */
  lemma {:induction false} ExpandAllDeletes(events: seq<Event>, delete: string -> WriteResponse)
    requires DeletedIds(events) == []
    ensures DeletedIds(ExpandAll(events, delete)) == FlatMap(TicketIds, YieldedLists(events))
  {
    if events != [] {
      var e := events[0];
      var rest := events[1..];
      assert events == [e] + rest;
      FlatMapAppend(DeletedOf, [e], rest);
      FlatMapSingle(DeletedOf, e);
      ExpandAllDeletes(rest, delete);
      ExpandViews(e, delete);
      FlatMapAppend(DeletedOf, Expand(e, delete), ExpandAll(rest, delete));
      FlatMapAppend(YieldedOf, [e], rest);
      FlatMapSingle(YieldedOf, e);
      FlatMapAppend(TicketIds, YieldedOf(e), YieldedLists(rest));
      if e.Yielded? {
        FlatMapSingle(TicketIds, e.tickets);
      }
    }
  }

  /** When archiving and deleting ends well, every team was searched once, in order; the archive
      files hold the non-empty ticket lists; and exactly the tickets archived are deleted, in the
      order they were archived. */
  lemma ArchiveAndDeleteViews(teams: Lookup, teamIds: seq<string>, to: ValidDateTime, now: ValidDateTime,
                              endpoint: Params -> Response<seq<Ticket>>, suffix: nat -> HexSuffix,
                              delete: string -> WriteResponse)
    requires ArchiveAndDelete(teams, teamIds, to, now, endpoint, suffix, delete).outcome.Pass?
    ensures var r := ArchiveAndDelete(teams, teamIds, to, now, endpoint, suffix, delete);
            var archived := Filter(IsNonEmpty, Fetched(to, teamIds, endpoint));
            && Requests(r.events) == TeamRequests(to, teamIds)
            && WrittenLists(r.events) == archived
            && DeletedIds(r.events) == FlatMap(TicketIds, archived)
  {
    var run := ArchiveOldTickets(teams, teamIds, to, now, true, endpoint, suffix);
    assert run == ArchiveFrom(teams, teamIds, 0, to, true, endpoint, suffix);
    assert teamIds[0..] == teamIds;
    ArchiveRequests(teams, teamIds, 0, to, true, endpoint, suffix);
    ArchiveWrites(teams, teamIds, 0, to, true, endpoint, suffix);
    ArchiveYields(teams, teamIds, 0, to, true, endpoint, suffix);
    ExpandAllKeeps(run.events, delete);
    ExpandAllDeletes(run.events, delete);
  }

  // ---------------------------------------------------------------- deleting only what is archived

  function ArchivedOf(e: Event): seq<string> {
    if e.Written? then TicketIds(e.tickets) else []
  }

  /** The IDs of every ticket put into an archive file, in order. */
  function ArchivedIds(events: seq<Event>): seq<string> {
    FlatMap(ArchivedOf, events)
  }

  /** Every deletion in `events` is of a ticket already in an archive file written before it,
      counting the files written in `before`. */
  predicate DeletesArchivedAfter(before: seq<Event>, events: seq<Event>) {
    forall p | 0 <= p < |events| && events[p].DeleteAttempted? ::
      events[p].ticketId in ArchivedIds(before + events[..p])
  }

  /** No ticket is deleted before an archive file holding it has been written. */
  predicate DeletesOnlyArchived(events: seq<Event>) {
    forall p | 0 <= p < |events| && events[p].DeleteAttempted? ::
      events[p].ticketId in ArchivedIds(events[..p])
  }

  lemma ArchivedAppend(a: seq<Event>, b: seq<Event>)
    ensures ArchivedIds(a + b) == ArchivedIds(a) + ArchivedIds(b)
  {
    FlatMapAppend(ArchivedOf, a, b);
  }

  /** Two stretches that are each safe, the second counting the files of the first, are safe
      together. */
  lemma SafeConcat(before: seq<Event>, a: seq<Event>, b: seq<Event>)
    requires DeletesArchivedAfter(before, a) && DeletesArchivedAfter(before + a, b)
    ensures DeletesArchivedAfter(before, a + b)
  {
    forall p | 0 <= p < |a + b| && (a + b)[p].DeleteAttempted?
      ensures (a + b)[p].ticketId in ArchivedIds(before + (a + b)[..p])
    {
      if p < |a| {
        assert (a + b)[..p] == a[..p];
      } else {
        assert before + (a + b)[..p] == (before + a) + b[..p - |a|];
      }
    }
  }

  /** Files written earlier only add to what may be deleted. */
  lemma SafeWeaken(more: seq<Event>, events: seq<Event>)
    requires DeletesOnlyArchived(events)
    ensures DeletesArchivedAfter(more, events)
  {
    forall p | 0 <= p < |events| && events[p].DeleteAttempted?
      ensures events[p].ticketId in ArchivedIds(more + events[..p])
    {
      ArchivedAppend(more, events[..p]);
    }
  }

  /** Deleting IDs that are all archived already is safe. */
  lemma DeleteTicketsSafe(before: seq<Event>, ids: seq<string>, delete: string -> WriteResponse)
    requires forall k | 0 <= k < |ids| :: ids[k] in ArchivedIds(before)
    ensures DeletesArchivedAfter(before, DeleteTickets(ids, delete))
  {
    var evs := DeleteTickets(ids, delete);
    DeleteTicketsViews(ids, delete);
    forall p | 0 <= p < |evs| && evs[p].DeleteAttempted?
      ensures evs[p].ticketId in ArchivedIds(before + evs[..p])
    {
      ArchivedAppend(before, evs[..p]);
    }
  }

  lemma {:induction false} ExpandAllAppend(a: seq<Event>, b: seq<Event>, delete: string -> WriteResponse)
    ensures ExpandAll(a + b, delete) == ExpandAll(a, delete) + ExpandAll(b, delete)
  {
    if a == [] {
      assert a + b == b;
    } else {
      assert (a + b)[1..] == a[1..] + b;
      ExpandAllAppend(a[1..], b, delete);
    }
  }

  lemma ExpandAllSingle(e: Event, delete: string -> WriteResponse)
    ensures ExpandAll([e], delete) == Expand(e, delete)
  {
    assert [e][1..] == [];
  }

  /** One fetched team, expanded: its archive file comes before the deletion of its tickets. */
  lemma TeamStepSafe(req: Params, teamName: string, fileName: string, tickets: seq<Ticket>,
                     delete: string -> WriteResponse)
    ensures DeletesOnlyArchived(ExpandAll([Requested(req)] + TeamEvents(teamName, fileName, tickets, true), delete))
  {
    var head := [Requested(req)] + TeamEvents(teamName, fileName, tickets, true);
    var x := ExpandAll(head, delete);
    ExpandAllAppend([Requested(req)], TeamEvents(teamName, fileName, tickets, true), delete);
    ExpandAllSingle(Requested(req), delete);
    if tickets == [] {
      ExpandAllSingle(Skipped(teamName), delete);
      assert x == [Requested(req), Skipped(teamName)];
    } else {
      var w := Written(fileName, tickets);
      var pre := [Requested(req), w, Yielded(tickets)];
      var ids := TicketIds(tickets);
      ExpandAllAppend([w], [Yielded(tickets)], delete);
      ExpandAllSingle(w, delete);
      ExpandAllSingle(Yielded(tickets), delete);
      assert x == pre + DeleteTickets(ids, delete);
      assert ArchivedIds(pre) == ids by {
        assert pre == [Requested(req)] + [w] + [Yielded(tickets)];
        ArchivedAppend([Requested(req)] + [w], [Yielded(tickets)]);
        ArchivedAppend([Requested(req)], [w]);
        FlatMapSingle(ArchivedOf, Requested(req));
        FlatMapSingle(ArchivedOf, w);
        FlatMapSingle(ArchivedOf, Yielded(tickets));
      }
      DeleteTicketsSafe(pre, ids, delete);
      assert [] + pre == pre;
      SafeConcat([], pre, DeleteTickets(ids, delete));
      assert forall q | 0 <= q <= |x| :: [] + x[..q] == x[..q];
    }
  }

  /** Archiving with deletion, from the `i`-th team on, never deletes a ticket before it is in an
      archive file, however the run ends. */
  lemma {:induction false} ArchiveFromSafe(teams: Lookup, teamIds: seq<string>, i: nat, to: ValidDateTime,
                                           endpoint: Params -> Response<seq<Ticket>>, suffix: nat -> HexSuffix,
                                           delete: string -> WriteResponse)
    requires i <= |teamIds|
    ensures DeletesOnlyArchived(ExpandAll(ArchiveFrom(teams, teamIds, i, to, true, endpoint, suffix).events, delete))
    decreases |teamIds| - i
  {
    if i < |teamIds| {
      var req := TeamRequest(to, teamIds[i]);
      if TeamOk(teams, to, endpoint, teamIds[i]) {
        var rest := ArchiveFrom(teams, teamIds, i + 1, to, true, endpoint, suffix);
        ArchiveStepOk(teams, teamIds, i, to, true, endpoint, suffix);
        var name := Get(teams, teamIds[i]).value;
        var head := [Requested(req)] + TeamEvents(name, ArchiveFileName(name, to, i, suffix(i)), endpoint(req).body, true);
        var h := ExpandAll(head, delete);
        var t := ExpandAll(rest.events, delete);
        ExpandAllAppend(head, rest.events, delete);
        TeamStepSafe(req, name, ArchiveFileName(name, to, i, suffix(i)), endpoint(req).body, delete);
        ArchiveFromSafe(teams, teamIds, i + 1, to, endpoint, suffix, delete);
        SafeWeaken(h, t);
        assert [] + h == h;
        assert DeletesArchivedAfter([], h) by {
          assert forall q | 0 <= q <= |h| :: [] + h[..q] == h[..q];
        }
        SafeConcat([], h, t);
        assert forall q | 0 <= q <= |h + t| :: [] + (h + t)[..q] == (h + t)[..q];
      } else {
        ArchiveStepFails(teams, teamIds, i, to, true, endpoint, suffix);
        assert ExpandAll([Requested(req)], delete) == [Requested(req)];
      }
    }
  }

  /** `archive_and_delete_tickets` deletes a ticket only after writing it to an archive file,
      however the run ends. */
  lemma ArchiveAndDeleteSafe(teams: Lookup, teamIds: seq<string>, to: ValidDateTime, now: ValidDateTime,
                             endpoint: Params -> Response<seq<Ticket>>, suffix: nat -> HexSuffix,
                             delete: string -> WriteResponse)
    ensures DeletesOnlyArchived(ArchiveAndDelete(teams, teamIds, to, now, endpoint, suffix, delete).events)
  {
    if CheckCutoff(to, now).Pass? {
      ArchiveFromSafe(teams, teamIds, 0, to, endpoint, suffix, delete);
    }
  }

  // ---------------------------------------------------------------- standard_maintenance

  /** The teams whose old tickets are removed: General Helpdesk, Program/Speakers and the
      Diversity Committee. */
  const MaintenanceTeams: seq<string> := [
    "031061f2-195e-4f1f-8e08-67db15beabda",
    "3f68251e-17e9-436f-90c3-c03b06a72472",
    "89ac36d6-2e58-43ee-a519-a098ed7a6f82"
  ]

  /** Sponsoring and PySV, whose tickets are always kept. */
  const KeptTeams: seq<string> := [
    "c083236a-bb25-413f-86a1-e6b14452175a",
    "3825302c-0599-4bae-bbf2-e8be2f37573f"
  ]

  /** `datetime(year, 9, 30)`: midnight on September 30 of the given year, which only exists
      for the years 1 to 9999. */
  function SeptemberCutoff(year: int): (r: Option<ValidDateTime>)
    ensures r.Some? <==> 1 <= year <= 9999
    ensures r.Some? ==> r.value.year == year && r.value.month == 9 && r.value.day == 30
                        && TimeOfDay(r.value) == 0
  {
    if 1 <= year <= 9999 then Some(DateTime(year, 9, 30, 0, 0, 0, 0)) else None
  }

  /** `standard_maintenance` as the code stands: the date is built (and may be refused), but the
      call to the generator `archive_and_delete_tickets` only creates it and never iterates it,
      so no request is sent and nothing is archived or deleted. */
  function StandardMaintenanceAsWritten(year: int): (r: Run)
    ensures r.events == []
    ensures r.outcome == Fail(InvalidDate) <==> SeptemberCutoff(year).None?
  {
    match SeptemberCutoff(year)
    case None => Run([], Fail(InvalidDate))
    case Some(_) => Run([], Pass)
  }

  /** `standard_maintenance` as intended: archive and delete the maintenance teams' tickets
      created up to September 30 of the given year. */
  function StandardMaintenance(teams: Lookup, year: int, now: ValidDateTime,
                               endpoint: Params -> Response<seq<Ticket>>, suffix: nat -> HexSuffix,
                               delete: string -> WriteResponse): (r: Run)
    ensures SeptemberCutoff(year).None? ==> r == Run([], Fail(InvalidDate))
    ensures SeptemberCutoff(year).Some? ==>
              r.outcome == ArchiveOldTickets(teams, MaintenanceTeams, SeptemberCutoff(year).value, now, true,
                                             endpoint, suffix).outcome
  {
    match SeptemberCutoff(year)
    case None => Run([], Fail(InvalidDate))
    case Some(to) => ArchiveAndDelete(teams, MaintenanceTeams, to, now, endpoint, suffix, delete)
  }

  /** Maintenance searches the maintenance teams in their order, each with the September cutoff,
      stopping at the first failure; an impossible date sends nothing. */
  lemma MaintenanceRequests(teams: Lookup, year: int, now: ValidDateTime,
                            endpoint: Params -> Response<seq<Ticket>>, suffix: nat -> HexSuffix,
                            delete: string -> WriteResponse)
    ensures var r := StandardMaintenance(teams, year, now, endpoint, suffix, delete);
            && (SeptemberCutoff(year).None? ==> r.events == [])
            && (SeptemberCutoff(year).Some? ==>
                  Requests(r.events) <= TeamRequests(SeptemberCutoff(year).value, MaintenanceTeams))
  {
    if SeptemberCutoff(year).Some? {
      var cutoff := SeptemberCutoff(year).value;
      var run := ArchiveOldTickets(teams, MaintenanceTeams, cutoff, now, true, endpoint, suffix);
      ExpandAllKeeps(run.events, delete);
      if CheckCutoff(cutoff, now).Pass? {
        ArchiveRequests(teams, MaintenanceTeams, 0, cutoff, true, endpoint, suffix);
        assert MaintenanceTeams[0..] == MaintenanceTeams;
      } else {
        assert Requests([]) == [];
      }
    }
  }

  /** The `k`-th maintenance search is for the `k`-th maintenance team, never for a kept team. */
  lemma MaintenanceSparesKeptTeams(teams: Lookup, year: int, now: ValidDateTime,
                                   endpoint: Params -> Response<seq<Ticket>>, suffix: nat -> HexSuffix,
                                   delete: string -> WriteResponse)
    ensures var reqs := Requests(StandardMaintenance(teams, year, now, endpoint, suffix, delete).events);
            && |reqs| <= |MaintenanceTeams|
            && forall k | 0 <= k < |reqs| && k < |MaintenanceTeams| ::
                 && Get(reqs[k], "teamIDs[]") == Some(Text(MaintenanceTeams[k]))
                 && MaintenanceTeams[k] !in KeptTeams
  {
    var reqs := Requests(StandardMaintenance(teams, year, now, endpoint, suffix, delete).events);
    MaintenanceRequests(teams, year, now, endpoint, suffix, delete);
    if SeptemberCutoff(year).Some? {
      var all := TeamRequests(SeptemberCutoff(year).value, MaintenanceTeams);
      forall k | 0 <= k < |reqs| && k < |MaintenanceTeams|
        ensures Get(reqs[k], "teamIDs[]") == Some(Text(MaintenanceTeams[k]))
      {
        assert reqs[k] == all[k];
        TeamRequestBuilt(SeptemberCutoff(year).value, MaintenanceTeams[k]);
      }
    } else {
      assert reqs == [];
    }
  }

  /** Maintenance deletes a ticket only after writing it to an archive file. */
  lemma MaintenanceSafe(teams: Lookup, year: int, now: ValidDateTime,
                        endpoint: Params -> Response<seq<Ticket>>, suffix: nat -> HexSuffix,
                        delete: string -> WriteResponse)
    ensures DeletesOnlyArchived(StandardMaintenance(teams, year, now, endpoint, suffix, delete).events)
  {
    if SeptemberCutoff(year).Some? {
      ArchiveAndDeleteSafe(teams, MaintenanceTeams, SeptemberCutoff(year).value, now, endpoint, suffix, delete);
    }
  }

  /** As written, `standard_maintenance` builds the archive-and-delete generator and never
      iterates it: for a valid year whose cutoff passes the age guard no request is sent, while
      the intended maintenance searches the first maintenance team. */
  lemma MaintenanceNeverRuns(teams: Lookup, year: int, now: ValidDateTime,
                             endpoint: Params -> Response<seq<Ticket>>, suffix: nat -> HexSuffix,
                             delete: string -> WriteResponse)
    requires SeptemberCutoff(year).Some? && CheckCutoff(SeptemberCutoff(year).value, now) == Pass
    ensures Requests(StandardMaintenanceAsWritten(year).events) == []
    ensures var reqs := Requests(StandardMaintenance(teams, year, now, endpoint, suffix, delete).events);
            |reqs| >= 1 && reqs[0] == TeamRequest(SeptemberCutoff(year).value, MaintenanceTeams[0])
  {
    var cutoff := SeptemberCutoff(year).value;
    var run := ArchiveOldTickets(teams, MaintenanceTeams, cutoff, now, true, endpoint, suffix);
    ExpandAllKeeps(run.events, delete);
    ArchiveRequests(teams, MaintenanceTeams, 0, cutoff, true, endpoint, suffix);
    assert MaintenanceTeams[0..] == MaintenanceTeams;
    assert Requests([]) == [];
  }
}
