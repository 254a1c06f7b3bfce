/**
 The reference-data and request-building layer of the helpdesk client (app/helpdesk.py):
 the bidirectional name/ID lookups for teams and agents, tag-name resolution, the
 ticket-status set, the create-ticket payload, ticket-query parameters and the lazily
 filled caches. Vendor responses are inputs; HTTP, authentication and the JSON cache
 files are not modelled.
 */
module HelpDesk {
  import opened Wrappers
  import opened PyDict
  import opened Timestamps
  import opened Seqs

  // ---------------------------------------------------------------- vendor records

  datatype Team = Team(id: string, name: string)

  datatype Agent = Agent(id: string, name: string, roles: seq<string>)

  /** A tag as the vendor returns it; either field may be missing from the JSON object. */
  datatype TagRecord = TagRecord(id: Option<string>, name: Option<string>)

  /** The parts of a vendor ticket this code reads: its "ID" and its "tagIDs". */
  datatype Ticket = Ticket(id: string, tagIds: seq<string>)

  /** An HTTP reply: the status code, the decoded JSON body of a 200 reply, and whether the
      content of any other reply is a JSON object carrying both "error" and "details". */
  datatype Response<T> = Response(status: int, body: T, errorFields: bool)

  /** The reply to a create or delete call, or an exception raised while making it. */
  datatype WriteResponse = Replied(status: int) | Raised

  datatype Error =
    | ApiFailure(status: int)      // APIException from get_from_api
    | RequestFailed(topic: string) // ValueError "Request for <topic> failed, aborting."
    | NoJsonAttribute              // AttributeError: the decoded body has no .json()
    | MalformedError(status: int)  // JSONDecodeError or KeyError while formatting the APIException

  /** `get_from_api`: the decoded body on HTTP 200. Any other status raises an API error, whose
      message is built from the reply's "error" and "details"; content without them makes the
      message itself fail. */
  function GetFromApi<T>(resp: Response<T>): (r: Result<T, Error>)
    ensures r.Ok? <==> resp.status == 200
    ensures r.Ok? ==> r.value == resp.body
    ensures r.Err? && resp.errorFields ==> r.error == ApiFailure(resp.status)
    ensures r.Err? && !resp.errorFields ==> r.error == MalformedError(resp.status)
  {
    if resp.status == 200 then Ok(resp.body)
    else if resp.errorFields then Err(ApiFailure(resp.status))
    else Err(MalformedError(resp.status))
  }

  // ---------------------------------------------------------------- name <-> ID lookups

  /** A team or agent cache: names to IDs and IDs to names in one dict. */
  type Lookup = Dict<string, string>

  /** The forward map merged with its own inverse, the inverse written last. */
  function Bidirectional(forward: Lookup): Lookup {
    Update(forward, Inverse(forward))
  }

  /** The cache built from (name, ID) pairs in response order. */
  function LookupFrom(pairs: seq<(string, string)>): Lookup {
    Bidirectional(FromPairs(pairs))
  }

  /** The key `x` belongs to some pair's name, or is the ID the forward map kept for a name. */
  ghost predicate IsLookupKey(pairs: seq<(string, string)>, x: string) {
    || (exists i | 0 <= i < |pairs| :: pairs[i].0 == x)
    || (exists i | LastWithKey(pairs, i) :: pairs[i].1 == x)
  }

  /** Names and IDs are all distinct and no name is also an ID. */
  ghost predicate UniqueRefs(pairs: seq<(string, string)>) {
    && (forall i, j | 0 <= i < j < |pairs| :: pairs[i].0 != pairs[j].0 && pairs[i].1 != pairs[j].1)
    && (forall i, j | 0 <= i < |pairs| && 0 <= j < |pairs| :: pairs[i].0 != pairs[j].1)
  }

  lemma {:induction false} ExistsLastWithKey<K, V>(ps: seq<(K, V)>, i: int)
    requires 0 <= i < |ps|
    ensures exists l | LastWithKey(ps, l) :: ps[l].0 == ps[i].0
    decreases |ps| - i
  {
    if !LastWithKey(ps, i) {
      var j :| i < j < |ps| && ps[j].0 == ps[i].0;
      ExistsLastWithKey(ps, j);
    }
  }

  /** The forward map holds exactly the last pair given for each name. */
  lemma FromPairsEntries(ps: seq<(string, string)>, p: (string, string))
    ensures p in FromPairs(ps) <==> exists i | LastWithKey(ps, i) :: ps[i] == p
  {
    var d := FromPairs(ps);
    if exists i | LastWithKey(ps, i) :: ps[i] == p {
      var i :| LastWithKey(ps, i) && ps[i] == p;
      FromPairsGet(ps, i);
      assert HasKey(d, p.0);
      var j :| 0 <= j < |d| && d[j].0 == p.0;
      assert Get(d, p.0) == Some(d[j].1);
      assert d[j] == p;
    }
    if p in d {
      var j :| 0 <= j < |d| && d[j] == p;
      assert Get(d, p.0) == Some(p.1);
      FromPairsHasKey(ps, p.0);
      assert HasKey(d, p.0);
      var i :| 0 <= i < |ps| && ps[i].0 == p.0;
      ExistsLastWithKey(ps, i);
      var l :| LastWithKey(ps, l) && ps[l].0 == p.0;
      FromPairsGet(ps, l);
      assert ps[l] == p;
    }
  }

  /** The keys of the cache are the names seen plus the IDs the forward map kept. */
  lemma LookupKeys(pairs: seq<(string, string)>, x: string)
    ensures HasKey(LookupFrom(pairs), x) <==> IsLookupKey(pairs, x)
  {
    var f := FromPairs(pairs);
    UpdateGet(f, Inverse(f), x);
    FromPairsHasKey(pairs, x);
    InverseKeys(pairs, x);
  }

  /** The keys of the inverse map are the IDs the forward map kept. */
  lemma InverseKeys(pairs: seq<(string, string)>, x: string)
    ensures HasKey(Inverse(FromPairs(pairs)), x) <==> exists i | LastWithKey(pairs, i) :: pairs[i].1 == x
  {
    var f := FromPairs(pairs);
    FromPairsHasKey(Swapped(f), x);
    if exists j | 0 <= j < |f| :: f[j].1 == x {
      var j :| 0 <= j < |f| && f[j].1 == x;
      FromPairsEntries(pairs, f[j]);
    }
    if exists i | LastWithKey(pairs, i) :: pairs[i].1 == x {
      var i :| LastWithKey(pairs, i) && pairs[i].1 == x;
      FromPairsEntries(pairs, pairs[i]);
      var j :| 0 <= j < |f| && f[j] == pairs[i];
      assert Swapped(f)[j].0 == x;
    }
  }

  /** On any key that is also an ID, the ID-to-name entry wins; when several names kept the
      same ID, the name inserted last into the forward map wins. */
  lemma LookupIdToName(pairs: seq<(string, string)>, j: int)
    requires LastWithKey(Swapped(FromPairs(pairs)), j)
    ensures Get(LookupFrom(pairs), FromPairs(pairs)[j].1) == Some(FromPairs(pairs)[j].0)
  {
    var f := FromPairs(pairs);
    var x := f[j].1;
    UpdateGet(f, Inverse(f), x);
    FromPairsHasKey(Swapped(f), x);
    FromPairsGet(Swapped(f), j);
  }

  /** A name maps to the ID of its last pair, unless that name is also some kept ID. */
  lemma LookupNameToId(pairs: seq<(string, string)>, i: int)
    requires LastWithKey(pairs, i)
    requires forall l | LastWithKey(pairs, l) :: pairs[l].1 != pairs[i].0
    ensures Get(LookupFrom(pairs), pairs[i].0) == Some(pairs[i].1)
  {
    var f := FromPairs(pairs);
    var x := pairs[i].0;
    UpdateGet(f, Inverse(f), x);
    FromPairsHasKey(Swapped(f), x);
    FromPairsGet(pairs, i);
    if HasKey(Inverse(f), x) {
      var j :| 0 <= j < |f| && Swapped(f)[j].0 == x;
      FromPairsEntries(pairs, f[j]);
      assert false;
    }
  }

  /** With unique names and IDs and no name equal to an ID, every name maps to its ID and
      every ID to its name. */
  lemma LookupUnique(pairs: seq<(string, string)>, i: int)
    requires UniqueRefs(pairs) && 0 <= i < |pairs|
    ensures Get(LookupFrom(pairs), pairs[i].0) == Some(pairs[i].1)
    ensures Get(LookupFrom(pairs), pairs[i].1) == Some(pairs[i].0)
  {
    FromDistinctPairs(pairs);
    assert LastWithKey(pairs, i);
    LookupNameToId(pairs, i);
    assert LastWithKey(Swapped(pairs), i);
    LookupIdToName(pairs, i);
  }

  function TeamPairs(teams: seq<Team>): (ps: seq<(string, string)>)
    ensures |ps| == |teams|
    ensures forall i | 0 <= i < |teams| :: ps[i] == (teams[i].name, teams[i].id)
  {
    Map((t: Team) => (t.name, t.id), teams)
  }

  /** The teams cache built by `update_teams`. */
  function TeamLookup(teams: seq<Team>): Lookup {
    LookupFrom(TeamPairs(teams))
  }

  /** With unique team names and IDs, each team is found by name and by ID. */
  lemma TeamLookupExact(teams: seq<Team>, k: int)
    requires UniqueRefs(TeamPairs(teams)) && 0 <= k < |teams|
    ensures Get(TeamLookup(teams), teams[k].name) == Some(teams[k].id)
    ensures Get(TeamLookup(teams), teams[k].id) == Some(teams[k].name)
  {
    LookupUnique(TeamPairs(teams), k);
  }

  /** An active agent holds the "normal" or the "owner" role. */
  predicate IsActiveAgent(a: Agent) {
    "normal" in a.roles || "owner" in a.roles
  }

  function AgentPairs(agents: seq<Agent>): (ps: seq<(string, string)>)
    ensures |ps| == |agents|
    ensures forall i | 0 <= i < |agents| :: ps[i] == (agents[i].name, agents[i].id)
  {
    Map((a: Agent) => (a.name, a.id), agents)
  }

  /** The agents cache built by `update_agents`: `filter_agents`, then the reverse entries. */
  function AgentLookup(agents: seq<Agent>): Lookup {
    LookupFrom(AgentPairs(Filter(IsActiveAgent, agents)))
  }

  /** Every key of the agents cache is the name or the ID of an active agent. */
  lemma AgentLookupOnlyActive(agents: seq<Agent>, x: string)
    requires HasKey(AgentLookup(agents), x)
    ensures exists a | a in agents :: IsActiveAgent(a) && (a.name == x || a.id == x)
  {
    var active := Filter(IsActiveAgent, agents);
    var ps := AgentPairs(active);
    LookupKeys(ps, x);
    FilterMembers(IsActiveAgent, agents);
    if exists i | 0 <= i < |ps| :: ps[i].0 == x {
      var i :| 0 <= i < |ps| && ps[i].0 == x;
      assert active[i] in active;
    } else {
      var i :| LastWithKey(ps, i) && ps[i].1 == x;
      assert active[i] in active;
    }
  }

  /** Neither the name nor the ID of one agent is the name or the ID of the other. */
  predicate Unrelated(a: Agent, b: Agent) {
    a.name != b.name && a.id != b.id && a.name != b.id && a.id != b.name
  }

  /** All agent names and IDs are distinct and no agent's name is also its ID. */
  predicate UniqueAgents(agents: seq<Agent>) {
    && Pairwise(Unrelated, agents)
    && forall i | 0 <= i < |agents| :: agents[i].name != agents[i].id
  }

  lemma UniqueAgentPairs(agents: seq<Agent>)
    requires UniqueAgents(agents)
    ensures UniqueRefs(AgentPairs(agents))
  {
    forall i, j | 0 <= i < |agents| && 0 <= j < |agents| ensures agents[i].name != agents[j].id {
      if i < j {
        assert Unrelated(agents[i], agents[j]);
      } else if j < i {
        assert Unrelated(agents[j], agents[i]);
      }
    }
  }

  /** Filtering out inactive agents keeps the references unique. */
  lemma ActiveAgentsUnique(agents: seq<Agent>)
    requires UniqueAgents(agents)
    ensures UniqueAgents(Filter(IsActiveAgent, agents))
  {
    var active := Filter(IsActiveAgent, agents);
    FilterPairwise(IsActiveAgent, Unrelated, agents);
    forall i | 0 <= i < |active| ensures active[i].name != active[i].id {
      FilterOrigin(IsActiveAgent, agents, i);
    }
  }

  /** An inactive agent shares no reference with any agent the filter keeps. */
  lemma InactiveUnrelated(agents: seq<Agent>, k: int, i: int)
    requires UniqueAgents(agents) && 0 <= k < |agents| && !IsActiveAgent(agents[k])
    requires 0 <= i < |Filter(IsActiveAgent, agents)|
    ensures Unrelated(Filter(IsActiveAgent, agents)[i], agents[k])
  {
    var active := Filter(IsActiveAgent, agents);
    FilterOrigin(IsActiveAgent, agents, i);
    var m :| 0 <= m < |agents| && agents[m] == active[i];
    if m < k {
      assert Unrelated(agents[m], agents[k]);
    } else {
      assert Unrelated(agents[k], agents[m]);
    }
  }

  /** With unique references, an active agent is in the cache both ways round and an
      inactive agent is absent under its name and under its ID. */
  lemma AgentLookupActive(agents: seq<Agent>, k: int)
    requires UniqueAgents(agents) && 0 <= k < |agents| && IsActiveAgent(agents[k])
    ensures Get(AgentLookup(agents), agents[k].name) == Some(agents[k].id)
    ensures Get(AgentLookup(agents), agents[k].id) == Some(agents[k].name)
  {
    var active := Filter(IsActiveAgent, agents);
    ActiveAgentsUnique(agents);
    UniqueAgentPairs(active);
    FilterMembers(IsActiveAgent, agents);
    assert agents[k] in active;
    var i :| 0 <= i < |active| && active[i] == agents[k];
    LookupUnique(AgentPairs(active), i);
  }

  lemma AgentLookupInactive(agents: seq<Agent>, k: int)
    requires UniqueAgents(agents) && 0 <= k < |agents| && !IsActiveAgent(agents[k])
    ensures !HasKey(AgentLookup(agents), agents[k].name)
    ensures !HasKey(AgentLookup(agents), agents[k].id)
  {
    var active := Filter(IsActiveAgent, agents);
    var ps := AgentPairs(active);
    var a := agents[k];
    forall i | 0 <= i < |ps| ensures ps[i].0 != a.name && ps[i].1 != a.name {
      InactiveUnrelated(agents, k, i);
    }
    forall i | 0 <= i < |ps| ensures ps[i].0 != a.id && ps[i].1 != a.id {
      InactiveUnrelated(agents, k, i);
    }
    NotLookupKey(ps, a.name);
    NotLookupKey(ps, a.id);
  }

  /** A string that is neither a name nor an ID of any pair is not a key of the cache. */
  lemma NotLookupKey(pairs: seq<(string, string)>, x: string)
    requires forall i | 0 <= i < |pairs| :: pairs[i].0 != x && pairs[i].1 != x
    ensures !HasKey(LookupFrom(pairs), x)
  {
    LookupKeys(pairs, x);
  }

  // ---------------------------------------------------------------- tags

  /** `x.get("name", "")`. */
  function TagName(t: TagRecord): string {
    t.name.GetOr("")
  }

  /** Position `i` holds the first tag named `name`. */
  predicate FirstNamed(tags: seq<TagRecord>, name: string, i: int) {
    && 0 <= i < |tags|
    && TagName(tags[i]) == name
    && forall j | 0 <= j < i :: TagName(tags[j]) != name
  }

  /** `get_tag_id_for_tag_name`: the ID field of the first tag with that name; None when no tag
      has the name (or the first one carries no ID). */
  function TagIdForName(tags: seq<TagRecord>, name: string): (r: Option<string>)
    ensures (forall i | 0 <= i < |tags| :: TagName(tags[i]) != name) ==> r == None
    ensures forall i | FirstNamed(tags, name, i) :: r == tags[i].id
  {
    if tags == [] then None
    else if TagName(tags[0]) == name then tags[0].id
    else
      var r := TagIdForName(tags[1..], name);
      assert forall i | FirstNamed(tags, name, i) :: FirstNamed(tags[1..], name, i - 1);
      r
  }

  /** `get_ids_for_tags`: one lookup per name, in order, None entries kept. */
  function GetIdsForTags(tags: seq<TagRecord>, names: seq<string>): (r: seq<Option<string>>)
    ensures |r| == |names|
    ensures forall i | 0 <= i < |names| :: r[i] == TagIdForName(tags, names[i])
  {
    if names == [] then [] else [TagIdForName(tags, names[0])] + GetIdsForTags(tags, names[1..])
  }

  // ---------------------------------------------------------------- ticket statuses

  const TicketStatuses: seq<string> := ["open", "pending", "onhold", "solved"]

  /** `is_valid_ticket_status`: membership in the fixed status tuple. */
  function IsValidTicketStatus(status: string): (valid: bool)
    ensures valid <==> status == "open" || status == "pending" || status == "onhold" || status == "solved"
  {
    status in TicketStatuses
  }

  // ---------------------------------------------------------------- create_new_ticket

  datatype Requester = Requester(email: string, name: string)

  datatype Assignment = Assignment(teamId: string, agentId: string)

  /** The JSON body POSTed to create a ticket. */
  datatype TicketPayload = TicketPayload(status: string, subject: string, messageText: string,
                                         requester: Requester, teamIds: seq<string>,
                                         assignment: Assignment)

  /** The ticket is visible to exactly the team it is assigned to. */
  predicate SingleTeam(p: TicketPayload) {
    p.teamIds == [p.assignment.teamId]
  }

  /** The payload of `create_new_ticket`; `status` defaults to "solved". */
  function NewTicketPayload(requesterEmail: string, requesterName: string, subject: string,
                            messageText: string, teamId: string, agentId: string,
                            status: string := "solved"): (p: TicketPayload)
    ensures SingleTeam(p)
    ensures p.assignment == Assignment(teamId, agentId)
    ensures p.requester == Requester(requesterEmail, requesterName)
    ensures p.status == status && p.subject == subject && p.messageText == messageText
  {
    TicketPayload(status, subject, messageText, Requester(requesterEmail, requesterName), [teamId],
                  Assignment(teamId, agentId))
  }

  /** Without an explicit status a created ticket is "solved", a valid status. */
  lemma DefaultStatusIsValid(email: string, name: string, subject: string, text: string,
                             teamId: string, agentId: string)
    ensures NewTicketPayload(email, name, subject, text, teamId, agentId).status == "solved"
    ensures IsValidTicketStatus(NewTicketPayload(email, name, subject, text, teamId, agentId).status)
  {
  }

  // ---------------------------------------------------------------- ticket queries

  datatype ParamValue = Text(text: string) | Number(n: int) | IdList(ids: seq<Option<string>>)

  type Params = Dict<string, ParamValue>

  const PageSize: int := 100

  /** What `get_tickets` sends: the caller's filter with "pageSize" set to 100. */
  function TicketsRequest(params: Params): (r: Params)
    requires DistinctKeys(params)
    ensures DistinctKeys(r)
    ensures Get(r, "pageSize") == Some(Number(PageSize))
    ensures forall k | k != "pageSize" :: Get(r, k) == Get(params, k)
    ensures Keys(r) == if HasKey(params, "pageSize") then Keys(params) else Keys(params) + ["pageSize"]
  {
    var r := Put(params, "pageSize", Number(PageSize));
    assert forall k :: Get(r, k) == if k == "pageSize" then Some(Number(PageSize)) else Get(params, k) by {
      forall k ensures Get(r, k) == if k == "pageSize" then Some(Number(PageSize)) else Get(params, k) {
        GetPut(params, "pageSize", Number(PageSize), k);
      }
    }
    r
  }

  /** `get_tickets`: the first page of tickets matching the filter. */
  function GetTickets(params: Params, endpoint: Params -> Response<seq<Ticket>>): (r: Result<seq<Ticket>, Error>)
    requires DistinctKeys(params)
    ensures r.Ok? <==> endpoint(TicketsRequest(params)).status == 200
    ensures r.Ok? ==> r.value == endpoint(TicketsRequest(params)).body
  {
    GetFromApi(endpoint(TicketsRequest(params)))
  }

  /** The filter of `tickets_by_date_range`: a bound only when it is given. */
  function DateRangeFilter(from: Option<ValidDateTime>, to: Option<ValidDateTime>): (r: Params)
    ensures DistinctKeys(r)
  {
    BoundsFilter(BoundText(from), BoundText(to))
  }

  /** An optional bound as API timestamp text. */
  function BoundText(t: Option<ValidDateTime>): Option<string> {
    if t.Some? then Some(ApiIsoTimestamp(t.value)) else None
  }

  /** "createdDateFrom", then "createdDateTo", each only when its text is given. */
  function BoundsFilter(fromText: Option<string>, toText: Option<string>): (r: Params)
    ensures DistinctKeys(r)
  {
    var withFrom: Params := if fromText.Some? then [("createdDateFrom", Text(fromText.value))] else [];
    if toText.Some? then Put(withFrom, "createdDateTo", Text(toText.value)) else withFrom
  }

  function AsText(t: Option<string>): Option<ParamValue> {
    if t.Some? then Some(Text(t.value)) else None
  }

  /** The bounds filter holds each text given under its own key and nothing else. */
  lemma BoundsFilterGet(fromText: Option<string>, toText: Option<string>, k: string)
    ensures Get(BoundsFilter(fromText, toText), k)
              == if k == "createdDateFrom" then AsText(fromText)
                 else if k == "createdDateTo" then AsText(toText)
                 else None
  {
    var withFrom: Params := if fromText.Some? then [("createdDateFrom", Text(fromText.value))] else [];
    assert |"createdDateFrom"| != |"createdDateTo"|;
    if toText.Some? {
      GetPut(withFrom, "createdDateTo", Text(toText.value), k);
    }
  }

  /** The bounds query holds each text given under its own key, the page size, and nothing else. */
  lemma BoundsRequest(fromText: Option<string>, toText: Option<string>, k: string)
    ensures var r := TicketsRequest(BoundsFilter(fromText, toText));
      && Get(r, "createdDateFrom") == AsText(fromText)
      && Get(r, "createdDateTo") == AsText(toText)
      && Get(r, "pageSize") == Some(Number(PageSize))
      && (HasKey(r, k) ==> k == "createdDateFrom" || k == "createdDateTo" || k == "pageSize")
  {
    assert |"createdDateFrom"| != |"pageSize"| && |"createdDateTo"| != |"pageSize"|;
    BoundsFilterGet(fromText, toText, "createdDateFrom");
    BoundsFilterGet(fromText, toText, "createdDateTo");
    BoundsFilterGet(fromText, toText, k);
  }

  /** The request `tickets_by_date_range` sends: each bound given, as API timestamp text, and the
      page size; nothing else. */
  lemma DateRangeRequest(from: Option<ValidDateTime>, to: Option<ValidDateTime>, k: string)
    ensures var r := TicketsRequest(DateRangeFilter(from, to));
      && Get(r, "createdDateFrom") == (if from.Some? then Some(Text(ApiIsoTimestamp(from.value))) else None)
      && Get(r, "createdDateTo") == (if to.Some? then Some(Text(ApiIsoTimestamp(to.value))) else None)
      && Get(r, "pageSize") == Some(Number(PageSize))
      && (HasKey(r, k) ==> k == "createdDateFrom" || k == "createdDateTo" || k == "pageSize")
  {
    BoundsRequest(BoundText(from), BoundText(to), k);
  }

  function TicketsByDateRange(from: Option<ValidDateTime>, to: Option<ValidDateTime>,
                              endpoint: Params -> Response<seq<Ticket>>): Result<seq<Ticket>, Error> {
    GetTickets(DateRangeFilter(from, to), endpoint)
  }

  // ---------------------------------------------------------------- lazy caches

  /** The client's in-memory caches; an empty cache reads as "not loaded". */
  datatype Client = Client(teams: Lookup, agents: Lookup, allTags: seq<TagRecord>)

  /** `update_teams`: a non-200 reply aborts; otherwise the bidirectional team cache. */
  function UpdateTeams(resp: Response<seq<Team>>): (r: Result<Lookup, Error>)
    ensures r.Err? <==> resp.status != 200
    ensures r.Err? ==> r.error == RequestFailed("teams")
    ensures r.Ok? ==> r.value == TeamLookup(resp.body)
  {
    if resp.status != 200 then Err(RequestFailed("teams")) else Ok(TeamLookup(resp.body))
  }

  /** `update_agents` through `_update`: an API error becomes "Request for agents failed"; an
      error raised while formatting it is not caught and passes through. */
  function UpdateAgents(resp: Response<seq<Agent>>): (r: Result<Lookup, Error>)
    ensures r.Err? <==> resp.status != 200
    ensures r.Err? && resp.errorFields ==> r.error == RequestFailed("agents")
    ensures r.Err? && !resp.errorFields ==> r.error == MalformedError(resp.status)
    ensures r.Ok? ==> r.value == AgentLookup(resp.body)
  {
    match GetFromApi(resp)
    case Err(ApiFailure(_)) => Err(RequestFailed("agents"))
    case Err(e) => Err(e)
    case Ok(agents) => Ok(AgentLookup(agents))
  }

  /** `update_tags` as the code reads: `get_from_api` already returns the decoded list, and the
      code then calls `.json()` on it, which a list does not have. */
  function UpdateTagsAsWritten(resp: Response<seq<TagRecord>>): (r: Result<seq<TagRecord>, Error>)
    ensures r.Err?
  {
    match GetFromApi(resp)
    case Err(e) => Err(e)
    case Ok(_) => Err(NoJsonAttribute)
  }

  /** `update_tags` as intended: the decoded tag list. */
  function UpdateTags(resp: Response<seq<TagRecord>>): (r: Result<seq<TagRecord>, Error>)
    ensures r.Ok? <==> resp.status == 200
    ensures r.Ok? ==> r.value == resp.body
  {
    GetFromApi(resp)
  }

  /** A lazy property: the cached value when there is one, else the refreshed value, which is
      also stored. A failed refresh leaves the cache as it was. */
  function Lazy<T(==)>(cached: T, empty: T, refresh: Result<T, Error>): (r: (T, Result<T, Error>))
    ensures cached != empty ==> r == (cached, Ok(cached))
    ensures cached == empty && refresh.Ok? ==> r == (refresh.value, refresh)
    ensures refresh.Err? ==> r.0 == cached
    ensures cached == empty && refresh.Err? ==> r == (cached, refresh)
  {
    if cached != empty then (cached, Ok(cached))
    else match refresh
      case Ok(v) => (v, Ok(v))
      case Err(e) => (cached, Err(e))
  }

  /** A second access after a non-empty result is served from the cache, whatever the vendor
      would answer. */
  lemma LazyIdempotent<T>(cached: T, empty: T, first: Result<T, Error>, second: Result<T, Error>)
    requires Lazy(cached, empty, first).1.Ok?
    requires Lazy(cached, empty, first).1.value != empty
    ensures var (stored, got) := Lazy(cached, empty, first);
            Lazy(stored, empty, second) == (stored, got)
  {
  }

  datatype Access<T> = Access(client: Client, result: Result<T, Error>)

  /** The `teams` property. */
  function Teams(c: Client, resp: Response<seq<Team>>): (a: Access<Lookup>)
    ensures a.client.agents == c.agents && a.client.allTags == c.allTags
    ensures c.teams != [] ==> a == Access(c, Ok(c.teams))
    ensures c.teams == [] && resp.status == 200 ==>
              a == Access(c.(teams := TeamLookup(resp.body)), Ok(TeamLookup(resp.body)))
    ensures c.teams == [] && resp.status != 200 ==> a == Access(c, Err(RequestFailed("teams")))
    ensures a.result.Err? ==> a.client == c
  {
    var (t, r) := Lazy(c.teams, [], UpdateTeams(resp));
    Access(c.(teams := t), r)
  }

  /** The `agents` property. */
  function Agents(c: Client, resp: Response<seq<Agent>>): (a: Access<Lookup>)
    ensures a.client.teams == c.teams && a.client.allTags == c.allTags
    ensures c.agents != [] ==> a == Access(c, Ok(c.agents))
    ensures c.agents == [] && resp.status == 200 ==>
              a == Access(c.(agents := AgentLookup(resp.body)), Ok(AgentLookup(resp.body)))
    ensures c.agents == [] && resp.status != 200 ==> a == Access(c, UpdateAgents(resp)) && a.result.Err?
    ensures a.result.Err? ==> a.client == c
  {
    var (t, r) := Lazy(c.agents, [], UpdateAgents(resp));
    Access(c.(agents := t), r)
  }

  /** The `tags` property with the refresh as the code reads. */
  function TagsAsWritten(c: Client, resp: Response<seq<TagRecord>>): Access<seq<TagRecord>> {
    var (t, r) := Lazy(c.allTags, [], UpdateTagsAsWritten(resp));
    Access(c.(allTags := t), r)
  }

  /** The `tags` property with the corrected refresh. */
  function Tags(c: Client, resp: Response<seq<TagRecord>>): (a: Access<seq<TagRecord>>)
    ensures a.client.teams == c.teams && a.client.agents == c.agents
    ensures c.allTags != [] ==> a == Access(c, Ok(c.allTags))
    ensures c.allTags == [] && resp.status == 200 ==> a == Access(c.(allTags := resp.body), Ok(resp.body))
    ensures c.allTags == [] && resp.status != 200 ==> a == Access(c, UpdateTags(resp)) && a.result.Err?
  {
    var (t, r) := Lazy(c.allTags, [], UpdateTags(resp));
    Access(c.(allTags := t), r)
  }

  /** As written, an empty tag cache can never be filled: every access fails, even when the
      vendor answers 200 with a non-empty tag list, which the corrected refresh returns. */
  lemma TagsAsWrittenNeverLoad(c: Client, resp: Response<seq<TagRecord>>)
    requires c.allTags == []
    ensures TagsAsWritten(c, resp).result.Err?
    ensures TagsAsWritten(c, resp).client == c
    ensures resp.status == 200 ==> Tags(c, resp).result == Ok(resp.body)
  {
  }
}
