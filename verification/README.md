# Helpdesk client core, modelled in Dafny

This project models the pure logic of a small Python client for a helpdesk REST API. The client
is used to run a conference's ticket desk. The model covers:

- **Reference data** (`app/helpdesk.py`).
  - Team and agent caches map names to IDs and IDs to names in one dict. The reverse entries
    are merged over the forward ones.
  - The agent cache keeps only agents with the "normal" or "owner" role.
  - Tag names resolve to tag IDs by first match.
  - The ticket-status set is fixed.
  - The payload of a created ticket.
  - Query parameters: the forced page size and the API timestamp text.
  - The lazily filled `teams`, `agents` and `tags` properties.
- **Financial-aid selection** (`app/finaid.py`). The vendor's tag search is an OR-search. The
  code keeps the tickets that carry every requested tag and no "recipient:rejected" tag.
- **Archiving and deletion** (`app/archiver.py`).
  - The 90-day age guard.
  - One search per team.
  - Archive file names.
  - The handing-on of each archived list to the deletion loop.
  - Per-ID deletion, where no failure stops the loop.
  - The yearly maintenance run.
- **Mass mailings** (`app/batch_message.py`).
  - Recipients and their form of address.
  - The three validation gates of a batch.
  - Per-recipient customisation of the text, as a restricted `str.format`.
  - The send loop, which makes one creation attempt per recipient.

Vendor replies are inputs of the model. An endpoint is a function from the request it is sent
to the reply it gives. The same holds for the clock (`now`), for the random file-name suffix
(`suffix(i)`, the four hex digits drawn for the `i`-th team) and for the create and delete
endpoints.

An archiving run is modelled as a list of events with an outcome. The events are requests
sent, teams skipped, files written, lists handed on and deletions attempted. The properties
are stated over projections of that list: the requests, the written lists, the handed-on lists
and the deleted IDs.

Files:

- `wrappers.dfy`: `Option`, `Result`, `Outcome`.
- `pydict.dfy`: a Python dict as an insertion-ordered association list.
- `seqs.dfy`: filter, map and flat-map with their laws.
- `timestamps.dfy`: calendar dates, `isoformat(timespec="seconds")` plus `Z`, and day and
  microsecond counts.
- `helpdesk.dfy`: module `HelpDesk`.
- `finaid.dfy`: module `FinAid`.
- `archiver.dfy`: module `Archiver`.
- `batch_message.dfy`: module `Mailing`.

The docstring of `standard_maintenance` (app/archiver.py:73) promises to remove tickets filed
until 30 September of the previous year. The code builds `datetime(year, 9, 30)` from the year
it is given. The model follows the code.

## Model

| member | source | states |
|---|---|---|
| HelpDesk.GetFromApi | app/helpdesk.py:30-44 | A reply yields its decoded body exactly when the status is 200. Any other status is an API error carrying that status when the reply's content has "error" and "details", and otherwise the error raised while formatting that message. |
| HelpDesk.TicketsRequest | app/helpdesk.py:60 | The request sets "pageSize" to 100 whatever the caller passed, leaves every other key with its value, and adds the key last if it was new. |
| HelpDesk.GetTickets | app/helpdesk.py:46-62 | Tickets come back exactly when the filter with the page size answers 200, and they are that reply's body. |
| HelpDesk.TagIdForName | app/helpdesk.py:67-70 | The first tag in list order whose name (missing name read as "") equals the query supplies the ID; None when no tag has that name. |
| HelpDesk.GetIdsForTags | app/helpdesk.py:64-65 | One lookup per name, same length and order as the names, with None entries kept. |
| HelpDesk.IsValidTicketStatus | app/helpdesk.py:229-234 | A status is valid exactly when it is open, pending, onhold or solved. |
| HelpDesk.NewTicketPayload | app/helpdesk.py:72-112 | The team ID is both the only visible team and the assigned team; the agent ID is the assigned agent; the requester is the email and name given; status, subject and text are passed through. |
| HelpDesk.DefaultStatusIsValid | app/helpdesk.py:80 | Without an explicit status a ticket is created "solved", which is a valid status. |
| HelpDesk.DateRangeRequest | app/helpdesk.py:121-127 | The query holds createdDateFrom and createdDateTo exactly for the bounds given, as API timestamps, plus the page size, and no other key. |
| Timestamps.ApiIsoTimestamp | app/helpdesk.py:129-132 | The API timestamp is 20 characters: digits, with '-' '-' 'T' ':' ':' 'Z' at the fixed separator positions. |
| Timestamps.ApiTimestampRoundTrip | app/helpdesk.py:129-132 | Reading the API timestamp back gives the same date and time to the second; only the microseconds are dropped. |
| HelpDesk.FromPairsEntries | app/helpdesk.py:163 | The name-to-ID comprehension keeps exactly the last pair given for each name. |
| HelpDesk.LookupKeys | app/helpdesk.py:163-164 | The cache's keys are the names seen plus the IDs the forward dict kept, and nothing else. |
| HelpDesk.InverseKeys | app/helpdesk.py:164 | The keys of the ID-to-name dict are exactly the IDs the name-to-ID dict kept. |
| HelpDesk.LookupIdToName | app/helpdesk.py:164 | Reverse entries win: an ID maps to its name even when it collides with a name, and the last name kept for an ID wins. |
| HelpDesk.LookupNameToId | app/helpdesk.py:163-164 | A name maps to the ID of its last pair unless that name is itself a kept ID. |
| HelpDesk.LookupUnique | app/helpdesk.py:163-164 | With distinct names and IDs, none equal to another's, each name maps to its ID and each ID to its name. |
| HelpDesk.TeamLookupExact | app/helpdesk.py:158-167 | With unique team names and IDs, the teams cache sends every team's name to its ID and its ID to its name. |
| HelpDesk.UpdateTeams | app/helpdesk.py:158-167 | Refreshing the teams fails, as "Request for teams failed", exactly when the vendor does not answer 200, and otherwise yields the bidirectional team lookup of the reply. |
| HelpDesk.UpdateAgents | app/helpdesk.py:193-213 | Refreshing the agents fails exactly when the vendor does not answer 200: as "Request for agents failed" when the API error could be formatted, and with the uncaught formatting error otherwise. On 200 it yields the bidirectional lookup of the active agents. |
| HelpDesk.AgentLookupOnlyActive | app/helpdesk.py:186-191 | Every key of the agents cache is the name or the ID of an agent holding the normal or owner role. |
| HelpDesk.ActiveAgentsUnique | app/helpdesk.py:191 | Dropping agents without an active role keeps names and IDs unique. |
| HelpDesk.AgentLookupActive | app/helpdesk.py:186-193 | With unique references, an agent holding the normal or owner role is found by name, giving its ID, and by ID, giving its name. |
| HelpDesk.AgentLookupInactive | app/helpdesk.py:186-193 | With unique references, an agent without an active role is found neither by name nor by ID. |
| HelpDesk.NotLookupKey | app/helpdesk.py:163-164 | A string that is neither a name nor an ID of any pair is not a key of the cache. |
| HelpDesk.Lazy | app/helpdesk.py:134-138 | A non-empty cache is served as is; an empty one is refreshed and the result stored; a failed refresh leaves the cache unchanged and its error reaches the caller. |
| HelpDesk.LazyIdempotent | app/helpdesk.py:134-138 | Once a non-empty value is stored, the next access is served from the cache whatever the vendor would answer. |
| HelpDesk.Teams | app/helpdesk.py:134-138 | The teams property touches only the teams cache and serves a filled cache without a refresh; an empty cache with a 200 reply is filled with, and returns, the team lookup of that reply; an empty cache with any other reply stays empty and the access fails with "Request for teams failed". |
| HelpDesk.Agents | app/helpdesk.py:169-173 | The agents property touches only the agents cache and serves a filled cache without a refresh; an empty cache with a 200 reply is filled with, and returns, the agent lookup of that reply; an empty cache with any other reply stays empty and the access fails with the refresh's error. |
| HelpDesk.UpdateTagsAsWritten | app/helpdesk.py:224-227 | As written, refreshing the tags always fails. |
| HelpDesk.UpdateTags | app/helpdesk.py:224-227 | Corrected: the refresh yields the decoded tag list exactly when the vendor answers 200. |
| HelpDesk.Tags | app/helpdesk.py:218-222 | Corrected tags property: a filled cache is served; an empty one is filled with the vendor's list on 200, and on any other reply stays empty while the access fails with the refresh's error. |
| HelpDesk.TagsAsWrittenNeverLoad | app/helpdesk.py:218-227 | As written, an empty tag cache is never filled, even on a 200 reply that the corrected refresh returns. |
| FinAid.ExcludedTagIds | app/finaid.py:22-23 | The excluded IDs are the lookups of the excluded names, unresolved ones kept as None. |
| FinAid.TaggedFilter | app/finaid.py:24 | The search sends the list of required tag IDs, None entries included, under "tagIDs". |
| FinAid.SelectGranted | app/finaid.py:27-30 | Every kept ticket carries every required tag ID and none of the excluded ones. |
| FinAid.SelectGrantedOrder | app/finaid.py:27-30 | The two comprehensions equal one filter on "all required, none excluded", so the result is a subsequence of the fetched tickets. |
| FinAid.SelectGrantedMembers | app/finaid.py:27-30 | A ticket is kept exactly when it was fetched, carries every required tag and no excluded one; a kept ticket keeps its multiplicity. |
| FinAid.UnresolvedTagSelectsNothing | app/finaid.py:27 | A required tag name that resolves to None keeps no ticket. |
| FinAid.GetTicketsTagged | app/finaid.py:21-31 | The selection succeeds exactly when the search answers 200, and is then a subsequence of the search result; a failure is the search's API error. |
| FinAid.TaggedSelection | app/finaid.py:21-31 | A ticket is granted exactly when the search returned it, it carries the tag of every requested name, and it carries no "recipient:rejected" tag. |
| FinAid.NoNamesKeepsUnrejected | app/finaid.py:27-30 | With no names requested, every fetched ticket without an excluded tag is granted. |
| FinAid.OnlineAccepted | app/finaid.py:42-43 | The selection is the tagged selection for "accepted" and "online-ticket"; granted tickets carry both and not "recipient:rejected". |
| FinAid.OnlineAcceptedSelection | app/finaid.py:42-43 | The online selection succeeds exactly on a 200 search reply, and then grants exactly the reply's tickets tagged "accepted" and "online-ticket" and not "recipient:rejected". |
| FinAid.InPersonAccepted | app/finaid.py:46-47 | The selection is the tagged selection for "accepted" and "in-person-ticket"; granted tickets carry both and not "recipient:rejected". |
| FinAid.InPersonAcceptedSelection | app/finaid.py:46-47 | The in-person selection succeeds exactly on a 200 search reply, and then grants exactly the reply's tickets tagged "accepted" and "in-person-ticket" and not "recipient:rejected". |
| Archiver.CutoffGuard | app/archiver.py:30-32 | The guard passes exactly when 90 days after the cutoff exists and is not later than now, so a cutoff exactly 90 days old passes; overflow past year 9999 fails on its own. |
| Archiver.ArchiveOldTickets | app/archiver.py:30-46 | When the guard fails, nothing is requested, written or handed on, and the run fails with the guard's error. When it passes, the run ends well exactly when every team is fetched and known. The requests are always a prefix of one search per team in order, and all of them when the run ends well. |
| Archiver.Sanitize | app/archiver.py:41 | The result has no '/' or ':', each replaced by '-', and every other character is kept in place. |
| Archiver.ArchiveFileName | app/archiver.py:40-41 | An archive file name contains neither '/' nor ':'. |
| Archiver.ArchiveFileNameParts | app/archiver.py:40-41 | The name is "a_", the sanitized team name, "_", the sanitized cutoff, "_", the index padded to two digits, "_", the four-digit suffix and ".json". |
| Archiver.TeamRequestBuilt | app/archiver.py:33-36 | Each team's search is the cutoff filter with that team set, then the page size: createdDateTo, teamIDs[] and pageSize. |
| Archiver.ArchiveStepOk | app/archiver.py:34-46 | A fetched, known team adds its request, then nothing or one file named with its own position in the team list, then the rest of the run. |
| Archiver.ArchiveStepFails | app/archiver.py:36-40 | A team whose search fails, or that is missing from the teams cache, ends the run right after its request. |
| Archiver.ArchivePasses | app/archiver.py:34-46 | The run ends well exactly when every team is fetched and known. |
| Archiver.ArchiveFirstFailure | app/archiver.py:34-40 | A failing run ends with the error of the first team that could not be fetched or is unknown. |
| Archiver.ArchiveOutcomeStep | app/archiver.py:34-40 | A fetched, known team hands the outcome on to the teams after it; any other team ends the run with its own error. |
| Archiver.ArchiveRequestStep | app/archiver.py:34-40 | Each team's search goes out first; the later teams' searches follow only when the team is fetched and known. |
| Archiver.ArchiveOutcomeAt | app/archiver.py:34-40 | The run ends with the error of the first team that cannot be fetched or is unknown, and passes when there is none. |
| Archiver.ArchiveRequestsUpTo | app/archiver.py:34-40 | The run searches every team up to and including the first bad one, and all teams when there is none. |
| Archiver.ArchiveRequests | app/archiver.py:33-36 | Requests go out team by team in order and stop at the first failure: they are a prefix of all teams' requests, and all of them when the run ends well. |
| Archiver.ArchiveLastRequest | app/archiver.py:34-40 | A failing run sent at least one and at most one search per team, and its error is that of the team of its last search. |
| Archiver.ArchiveWrites | app/archiver.py:37-44 | When the run ends well, the archive files hold exactly the non-empty ticket lists, in team order. |
| Archiver.ArchiveYields | app/archiver.py:45-46 | The lists handed on are exactly those written when results are yielded, none otherwise, and archiving alone deletes nothing. |
| Archiver.TicketIds | app/archiver.py:51 | The IDs to delete are the archived tickets' IDs, in order. |
| Archiver.LogOf | app/archiver.py:59-66 | A deletion counts as done exactly on a 200 reply; any other status is a failure; an exception is reported separately. |
| Archiver.DeleteTicketsViews | app/archiver.py:56-66 | Each ID is attempted exactly once, in order, whatever the replies, with the endpoint's answer for that ID; deleting sends no search and writes no file. |
| Archiver.ExpandAllKeeps | app/archiver.py:50-53 | Deleting after each handed-on list keeps the searches, the files and the handed-on lists of the archiving run. |
| Archiver.ExpandAllDeletes | app/archiver.py:50-53 | Starting from a run without deletions, the IDs deleted are those of the handed-on lists, list by list, in order. |
| Archiver.ArchiveAndDelete | app/archiver.py:48-54 | Archiving with deletion ends as the archiving loop ends. |
| Archiver.ArchiveAndDeleteViews | app/archiver.py:48-54 | When the run ends well, every team was searched in order, the files hold the non-empty lists, and exactly the archived tickets were deleted, in archive order. |
| Archiver.ArchiveFromSafe | app/archiver.py:34-53 | From any team on, a ticket is deleted only after an archive file holding it was written. |
| Archiver.ArchiveAndDeleteSafe | app/archiver.py:48-54 | However the run ends, a ticket is deleted only after an archive file holding it was written. |
| Archiver.SeptemberCutoff | app/archiver.py:88 | The cutoff is midnight on 30 September of the given year, and exists only for the years 1 to 9999. |
| Archiver.StandardMaintenanceAsWritten | app/archiver.py:72-89 | As written, maintenance requests, writes and deletes nothing, and fails only for an impossible year. |
| Archiver.StandardMaintenance | app/archiver.py:72-89 | Corrected: an impossible year fails with nothing done; otherwise the run ends as archiving the maintenance teams ends. |
| Archiver.MaintenanceRequests | app/archiver.py:76-89 | Corrected maintenance searches the maintenance teams in order with the September cutoff, as a prefix of those three requests. |
| Archiver.MaintenanceSparesKeptTeams | app/archiver.py:76-87 | The k-th maintenance search is for the k-th maintenance team, never for Sponsoring or PySV. |
| Archiver.MaintenanceSafe | app/archiver.py:72-89 | Corrected maintenance deletes a ticket only after archiving it. |
| Archiver.MaintenanceNeverRuns | app/archiver.py:89 | For a valid year whose cutoff passes the guard, the code as written sends no request, while the corrected run searches the first maintenance team. |
| Mailing.NewRecipient | app/batch_message.py:17-20 | A missing or empty form of address becomes the name; any other is kept; name and email are kept. |
| Mailing.RecipientStable | app/batch_message.py:17-20 | Building a recipient again from its own fields changes nothing, and the form of address is empty only when the name is. |
| Mailing.NewBatchMessage | app/batch_message.py:35-45 | A batch is accepted exactly when the team is a key of the teams cache, the agent a key of the agents cache, the status given and valid, and the other fields present. Team errors come first, and a missing status fails despite the field default. |
| Mailing.TeamNameOrIdAccepted | app/batch_message.py:43 | With unique team references, both a team's ID and its name pass the team gate. |
| Mailing.ParseField | app/batch_message.py:89 | A name between braces is read as a placeholder only when it is that placeholder's name, and an unknown name matches none. |
| Mailing.FieldNameInjective | app/batch_message.py:89 | Distinct placeholders have distinct names. |
| Mailing.ParseFieldName | app/batch_message.py:77-89 | Each placeholder is recognised by its own name. |
| Mailing.NextPiece | app/batch_message.py:89 | The first token `str.format` reads is a non-empty prefix of the text, written exactly as that literal or placeholder is written. |
| Mailing.FindCloseAfter | app/batch_message.py:89 | A field name without a closing brace is closed by the brace that follows it. |
| Mailing.NextPieceHole | app/batch_message.py:89 | A placeholder at the start of a text is read as that placeholder, spanning its name and two braces. |
| Mailing.RenderEscaped | app/batch_message.py:89 | Literal text with doubled braces renders to itself. |
| Mailing.RenderHole | app/batch_message.py:89 | A placeholder in braces renders to the recipient's or the batch's field value. |
| Mailing.RenderEncode | app/batch_message.py:89 | Every text built from literal pieces and placeholders renders, to the literals and field values in order. |
| Mailing.RenderStep | app/batch_message.py:89 | A text that renders starts with one literal or placeholder, followed by a shorter text that renders. |
| Mailing.RenderDecodes | app/batch_message.py:89 | Every text that renders is built from pieces and renders to what they produce. |
| Mailing.PlainText | app/batch_message.py:89 | A text without braces is sent unchanged. |
| Mailing.DeliverAll | app/batch_message.py:55-75 | One delivery per recipient, in order, whatever happened for earlier recipients. |
| Mailing.SendBatch | app/batch_message.py:55-56 | A batch yields as many deliveries as it has recipients. |
| Mailing.SendBatchPayloads | app/batch_message.py:55-67 | A ticket is attempted exactly when the text customises. It goes to the recipient's email and full name, carries the batch's subject, team, agent and status (the status given in the input) and the customised text; for a validated batch the team and agent are known and the status valid. |
| Mailing.SendBatchEncoded | app/batch_message.py:58-67 | For a text built from pieces, every recipient gets a creation attempt whose text is what the pieces produce for them. |

## Left out

- HTTP, authentication, request headers and the JSON cache and archive files are left out. Vendor replies are inputs, and a written file is an event carrying its name and content.
- Printed messages and exception message texts are left out. An error is a constructor naming its cause.
- The vendor objects are cut down: a ticket has only its "ID" and "tagIDs", a team its ID and name, an agent its ID, name and roles. A ticket without "tagIDs", which makes the code raise TypeError, is not modelled.
- The caches consulted by archiving, the financial-aid selection and batch validation are parameters. Their own refresh is modelled separately (HelpDesk.Teams, HelpDesk.Agents, HelpDesk.Tags).
- The financial-aid functions take the tag list as a parameter. The property that should supply it always fails as written, as the findings below record.
- `get_tickets` returns only the first page of results, since the code never pages. The model follows that.
- `helpdesk_teams`, `helpdesk_agents`, `delete_ticket` and `init` are plain HTTP calls or call sequences and are not modelled.
- Generators are modelled eagerly. `archive_old_tickets` and `archive_and_delete_tickets` run to completion, and the deletions of a handed-on list come before the next team's search. The trailing bare `yield` of `archive_and_delete_tickets` is not modelled. Laziness matters only in `standard_maintenance`, recorded below.
- Archiver.ArchiveFrom: a failed archive write (OSError) is not modelled. A team missing from the teams cache fails after its search, as in the code.
- Time zones are left out. Naive and aware datetimes cannot be mixed in a comparison, which makes Python raise TypeError; the model assumes naive values. The API timestamp assumes a naive datetime, with no UTC offset in `isoformat`.
- Mailing.Render: only the eight placeholders `recipient.name`, `recipient.email`, `recipient.address_as` and `self.message.subject`/`message_text`/`team_id`/`agent_id`/`status` are supported. Everything else is refused as UnknownField, even where Python's `str.format` would render it. That covers conversions (`!r`), format specs (`:>10`), indexing, `{recipient}` alone and other attributes.
- Mailing.NewBatchMessage: pydantic type coercion and validation are left out. Every missing non-gated field is reported as one `Incomplete` error.
- The asserts in `validate_api_inputs` are assumed active; running Python with `-O` would skip them. The fetch failure of the fresh client built there is not modelled.
- Mailing.NewRecipient: the name is taken as always given. The KeyError for a recipient with neither name nor form of address is not modelled.
- The leftover statement `a = 44` in the send loop of `batch_message` has no effect and is not modelled.

## Findings

| source | as written | input that shows it | evidently intended | confidence | as-written member | corrected member |
|---|---|---|---|---|---|---|
| app/helpdesk.py:224-227 | `update_tags` calls `.json()` on the value `get_from_api` returns. That value is already the decoded list (app/helpdesk.py:41), and a list has no `.json()`. | Any 200 reply to the tags request, for example the body `[{"ID": "t1", "name": "accepted"}]`, with an empty tag cache. | Store the decoded list: `self.all_tags = self.get_from_api(url)`. | high; not executed | HelpDesk.TagsAsWrittenNeverLoad | HelpDesk.Tags |
| app/archiver.py:89 | `standard_maintenance` calls `archive_and_delete_tickets`, which is a generator (it contains `yield`, app/archiver.py:54), and never iterates the result. No request is sent and nothing is archived or deleted. Only the date is built, so an impossible year still raises. | Year 2020 with now at 2021-01-01: the guard would pass, yet no team is searched. | Run the generator to completion, for example `for _ in self.archive_and_delete_tickets(...): pass`. | high; not executed | Archiver.MaintenanceNeverRuns | Archiver.StandardMaintenance |
