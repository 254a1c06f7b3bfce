/**
 Financial-aid ticket selection (app/finaid.py): tickets carrying every requested tag,
 minus those tagged as rejected.
 */
module FinAid {
  import opened Wrappers
  import opened PyDict
  import opened Seqs
  import opened HelpDesk

  /** Tag names whose tickets are never granted. */
  const ExcludedTagNames: seq<string> := ["recipient:rejected"]

  const OnlineAcceptedTags: seq<string> := ["accepted", "online-ticket"]

  const InPersonAcceptedTags: seq<string> := ["accepted", "in-person-ticket"]

  /** `id in ticket["tagIDs"]`: an unresolved tag (None) is never among a ticket's tag IDs. */
  predicate HasTag(t: Ticket, id: Option<string>) {
    id.Some? && id.value in t.tagIds
  }

  /** The ticket carries every resolved tag; an unresolved one rules every ticket out. */
  predicate HasAllTags(t: Ticket, ids: seq<Option<string>>) {
    forall i | 0 <= i < |ids| :: HasTag(t, ids[i])
  }

  /** `set(ticket["tagIDs"]) & excluded_tag_ids` is non-empty. */
  predicate HitsExcluded(t: Ticket, excluded: seq<Option<string>>) {
    exists i | 0 <= i < |excluded| :: HasTag(t, excluded[i])
  }

  function ExcludedTagIds(tags: seq<TagRecord>): (ids: seq<Option<string>>)
    ensures |ids| == |ExcludedTagNames|
    ensures forall i | 0 <= i < |ids| :: ids[i] == TagIdForName(tags, ExcludedTagNames[i])
  {
    GetIdsForTags(tags, ExcludedTagNames)
  }

  /** The search filter: every resolved tag ID (an OR-search on the vendor side). */
  function TaggedFilter(ids: seq<Option<string>>): (p: Params)
    ensures DistinctKeys(p)
    ensures Get(p, "tagIDs") == Some(IdList(ids))
  {
    [("tagIDs", IdList(ids))]
  }

  /** The two comprehensions of `get_tickets_tagged`: all required tags, then no excluded one. */
  function SelectGranted(tickets: seq<Ticket>, required: seq<Option<string>>,
                         excluded: seq<Option<string>>): (r: seq<Ticket>)
    ensures forall i | 0 <= i < |r| :: HasAllTags(r[i], required) && !HitsExcluded(r[i], excluded)
  {
    var tagged := Filter(t => HasAllTags(t, required), tickets);
    var granted := Filter(t => !HitsExcluded(t, excluded), tagged);
    FilterMembers(t => !HitsExcluded(t, excluded), tagged);
    assert forall i | 0 <= i < |granted| :: granted[i] in granted;
    granted
  }

  /** The selection is the one filter "all required tags and no excluded tag", so it keeps the
      vendor's order. */
  lemma SelectGrantedOrder(tickets: seq<Ticket>, required: seq<Option<string>>,
                           excluded: seq<Option<string>>)
    ensures var keep := (x: Ticket) => HasAllTags(x, required) && !HitsExcluded(x, excluded);
            SelectGranted(tickets, required, excluded) == Filter(keep, tickets)
    ensures IsSubsequence(SelectGranted(tickets, required, excluded), tickets)
  {
    var keep := (x: Ticket) => HasAllTags(x, required) && !HitsExcluded(x, excluded);
    FilterFilter(x => HasAllTags(x, required), x => !HitsExcluded(x, excluded), keep, tickets);
    FilterIsSubsequence(keep, tickets);
  }

  /** Exactly the listed tickets with all required tags and no excluded tag are selected, each as
      often as the vendor listed it. */
  lemma SelectGrantedMembers(tickets: seq<Ticket>, required: seq<Option<string>>,
                             excluded: seq<Option<string>>, t: Ticket)
    ensures t in SelectGranted(tickets, required, excluded) <==>
              t in tickets && HasAllTags(t, required) && !HitsExcluded(t, excluded)
    ensures HasAllTags(t, required) && !HitsExcluded(t, excluded) ==>
              multiset(SelectGranted(tickets, required, excluded))[t] == multiset(tickets)[t]
  {
    var keep := (x: Ticket) => HasAllTags(x, required) && !HitsExcluded(x, excluded);
    SelectGrantedOrder(tickets, required, excluded);
    FilterMembers(keep, tickets);
  }

  /** An unresolved required tag name leaves nothing to grant. */
  lemma UnresolvedTagSelectsNothing(tickets: seq<Ticket>, required: seq<Option<string>>,
                                    excluded: seq<Option<string>>)
    requires None in required
    ensures SelectGranted(tickets, required, excluded) == []
  {
  }

  /** `get_tickets_tagged`: resolve the names against the tag list, search, then select. */
  function GetTicketsTagged(tags: seq<TagRecord>, names: seq<string>,
                            endpoint: Params -> Response<seq<Ticket>>): (r: Result<seq<Ticket>, Error>)
    ensures var resp := endpoint(TicketsRequest(TaggedFilter(GetIdsForTags(tags, names))));
            && (r.Ok? <==> resp.status == 200)
            && (r.Err? && resp.errorFields ==> r.error == ApiFailure(resp.status))
            && (r.Err? && !resp.errorFields ==> r.error == MalformedError(resp.status))
            && (r.Ok? ==> IsSubsequence(r.value, resp.body))
  {
    var ids := GetIdsForTags(tags, names);
    var found :- GetTickets(TaggedFilter(ids), endpoint);
    SelectGrantedOrder(found, ids, ExcludedTagIds(tags));
    Ok(SelectGranted(found, ids, ExcludedTagIds(tags)))
  }

  /** A granted ticket carries the tag of every requested name and no rejected tag, and every
      such ticket in the vendor's answer is granted. */
  lemma TaggedSelection(tags: seq<TagRecord>, names: seq<string>,
                        endpoint: Params -> Response<seq<Ticket>>, t: Ticket)
    requires GetTicketsTagged(tags, names, endpoint).Ok?
    ensures var granted := GetTicketsTagged(tags, names, endpoint).value;
            var found := endpoint(TicketsRequest(TaggedFilter(GetIdsForTags(tags, names)))).body;
            t in granted <==>
              && t in found
              && (forall i | 0 <= i < |names| :: HasTag(t, TagIdForName(tags, names[i])))
              && !(exists i | 0 <= i < |ExcludedTagNames| :: HasTag(t, TagIdForName(tags, ExcludedTagNames[i])))
  {
    var ids := GetIdsForTags(tags, names);
    var found := endpoint(TicketsRequest(TaggedFilter(ids))).body;
    SelectGrantedMembers(found, ids, ExcludedTagIds(tags), t);
  }

  /** With no names requested, every ticket without a rejected tag is granted. */
  lemma NoNamesKeepsUnrejected(tags: seq<TagRecord>, endpoint: Params -> Response<seq<Ticket>>)
    requires GetTicketsTagged(tags, [], endpoint).Ok?
    ensures var found := endpoint(TicketsRequest(TaggedFilter([]))).body;
            GetTicketsTagged(tags, [], endpoint).value
              == Filter(t => !HitsExcluded(t, ExcludedTagIds(tags)), found)
  {
    var found := endpoint(TicketsRequest(TaggedFilter([]))).body;
    var all := (t: Ticket) => HasAllTags(t, []);
    FilterAll(all, found);
  }

  lemma {:induction false} FilterAll<T>(p: T -> bool, s: seq<T>)
    requires forall x :: p(x)
    ensures Filter(p, s) == s
  {
    if s != [] {
      FilterAll(p, s[1..]);
    }
  }

  /** `get_all_tickets_online_accepted`: granted tickets carry "accepted" and "online-ticket". */
  function OnlineAccepted(tags: seq<TagRecord>, endpoint: Params -> Response<seq<Ticket>>)
    : (r: Result<seq<Ticket>, Error>)
    ensures r == GetTicketsTagged(tags, OnlineAcceptedTags, endpoint)
    ensures r.Ok? ==> forall i | 0 <= i < |r.value| ::
              && HasTag(r.value[i], TagIdForName(tags, "accepted"))
              && HasTag(r.value[i], TagIdForName(tags, "online-ticket"))
              && !HasTag(r.value[i], TagIdForName(tags, "recipient:rejected"))
  {
    var r := GetTicketsTagged(tags, OnlineAcceptedTags, endpoint);
    if r.Ok? then
      assert forall i | 0 <= i < |r.value| :: HasAllTags(r.value[i], GetIdsForTags(tags, OnlineAcceptedTags));
      r
    else r
  }

  /** `get_all_tickets_in_person_accepted`: granted tickets carry "accepted" and "in-person-ticket". */
  function InPersonAccepted(tags: seq<TagRecord>, endpoint: Params -> Response<seq<Ticket>>)
    : (r: Result<seq<Ticket>, Error>)
    ensures r == GetTicketsTagged(tags, InPersonAcceptedTags, endpoint)
    ensures r.Ok? ==> forall i | 0 <= i < |r.value| ::
              && HasTag(r.value[i], TagIdForName(tags, "accepted"))
              && HasTag(r.value[i], TagIdForName(tags, "in-person-ticket"))
              && !HasTag(r.value[i], TagIdForName(tags, "recipient:rejected"))
  {
    var r := GetTicketsTagged(tags, InPersonAcceptedTags, endpoint);
    if r.Ok? then
      assert forall i | 0 <= i < |r.value| :: HasAllTags(r.value[i], GetIdsForTags(tags, InPersonAcceptedTags));
      r
    else r
  }

  /** `get_all_tickets_online_accepted` succeeds exactly on a 200 reply to the tag search, and
      then grants exactly the reply's tickets tagged "accepted" and "online-ticket" and not
      "recipient:rejected". */
  lemma OnlineAcceptedSelection(tags: seq<TagRecord>, endpoint: Params -> Response<seq<Ticket>>, t: Ticket)
    ensures var resp := endpoint(TicketsRequest(TaggedFilter(GetIdsForTags(tags, OnlineAcceptedTags))));
            && (OnlineAccepted(tags, endpoint).Ok? <==> resp.status == 200)
            && (OnlineAccepted(tags, endpoint).Ok? ==>
                  (t in OnlineAccepted(tags, endpoint).value <==>
                     && t in resp.body
                     && HasTag(t, TagIdForName(tags, "accepted"))
                     && HasTag(t, TagIdForName(tags, "online-ticket"))
                     && !HasTag(t, TagIdForName(tags, "recipient:rejected"))))
  {
    if OnlineAccepted(tags, endpoint).Ok? {
      TaggedSelection(tags, OnlineAcceptedTags, endpoint, t);
    }
  }

  /** `get_all_tickets_in_person_accepted` succeeds exactly on a 200 reply to the tag search, and
      then grants exactly the reply's tickets tagged "accepted" and "in-person-ticket" and not
      "recipient:rejected". */
  lemma InPersonAcceptedSelection(tags: seq<TagRecord>, endpoint: Params -> Response<seq<Ticket>>, t: Ticket)
    ensures var resp := endpoint(TicketsRequest(TaggedFilter(GetIdsForTags(tags, InPersonAcceptedTags))));
            && (InPersonAccepted(tags, endpoint).Ok? <==> resp.status == 200)
            && (InPersonAccepted(tags, endpoint).Ok? ==>
                  (t in InPersonAccepted(tags, endpoint).value <==>
                     && t in resp.body
                     && HasTag(t, TagIdForName(tags, "accepted"))
                     && HasTag(t, TagIdForName(tags, "in-person-ticket"))
                     && !HasTag(t, TagIdForName(tags, "recipient:rejected"))))
  {
    if InPersonAccepted(tags, endpoint).Ok? {
      TaggedSelection(tags, InPersonAcceptedTags, endpoint, t);
    }
  }
}
