/**
 Mass mailings (app/batch_message.py): the recipients, the validated batch, the per-recipient
 customisation of the text and the loop that opens one ticket per recipient.

 The teams and agents caches the validation consults and the ticket-creation endpoint are
 parameters.
 */
module Mailing {
  import opened Wrappers
  import opened PyDict
  import opened Seqs
  import opened HelpDesk

  // ---------------------------------------------------------------- Recipient

  /** How to address and contact a person. */
  datatype Recipient = Recipient(name: string, email: string, addressAs: string)

  /** `Recipient(**data)`: a missing or empty `address_as` falls back to the name; any other
      value is kept. */
  function NewRecipient(name: string, email: string, addressAs: Option<string>): (r: Recipient)
    ensures r.name == name && r.email == email
    ensures addressAs.Some? && addressAs.value != "" ==> r.addressAs == addressAs.value
    ensures addressAs.None? || addressAs == Some("") ==> r.addressAs == name
  {
    if addressAs.Some? && addressAs.value != "" then Recipient(name, email, addressAs.value)
    else Recipient(name, email, name)
  }

  /** Building a recipient again from its own fields changes nothing, and the form of address
      is only empty when the name is. */
  lemma RecipientStable(name: string, email: string, addressAs: Option<string>)
    ensures var r := NewRecipient(name, email, addressAs);
            && NewRecipient(r.name, r.email, Some(r.addressAs)) == r
            && NewRecipient(r.name, r.email, None) == Recipient(r.name, r.email, r.name)
            && (r.addressAs == "" ==> name == "")
  {
  }

  // ---------------------------------------------------------------- BatchMessage

  /** The same message for a list of recipients. */
  datatype BatchMessage = BatchMessage(subject: string, messageText: string, teamId: string, agentId: string,
                                       status: string, recipients: seq<Recipient>)

  /** The keyword arguments given to `BatchMessage(**data)`; an absent key is `None`. */
  datatype BatchInput = BatchInput(subject: Option<string>, messageText: Option<string>,
                                   teamId: Option<string>, agentId: Option<string>,
                                   status: Option<string>, recipients: Option<seq<Recipient>>)

  datatype BatchError =
    | MissingKey(key: string)     // KeyError from `data[key]` in `validate_api_inputs`
    | UnknownTeam(teamId: string) // the team assertion
    | UnknownAgent(agentId: string)
    | InvalidStatus(status: string)
    | Incomplete                  // a required field left out, reported by the model class

  /** The batch passes every check `BatchMessage(**data)` makes. */
  predicate Acceptable(input: BatchInput, teams: Lookup, agents: Lookup) {
    && input.teamId.Some? && HasKey(teams, input.teamId.value)
    && input.agentId.Some? && HasKey(agents, input.agentId.value)
    && input.status.Some? && IsValidTicketStatus(input.status.value)
    && input.subject.Some? && input.messageText.Some? && input.recipients.Some?
  }

  /** `BatchMessage(**data)`: `validate_api_inputs` checks the team, the agent and the status
      against the raw input, in that order, before any field default applies; then the model
      class requires the remaining fields. */
  function NewBatchMessage(input: BatchInput, teams: Lookup, agents: Lookup): (r: Result<BatchMessage, BatchError>)
    ensures r.Ok? <==> Acceptable(input, teams, agents)
    ensures r.Ok? ==> r.value == BatchMessage(input.subject.value, input.messageText.value, input.teamId.value,
                                              input.agentId.value, input.status.value, input.recipients.value)
    ensures input.teamId.None? ==> r == Err(MissingKey("team_id"))
    ensures input.teamId.Some? && !HasKey(teams, input.teamId.value) ==> r == Err(UnknownTeam(input.teamId.value))
    ensures input.status.None? ==> r.Err?
  {
    if input.teamId.None? then Err(MissingKey("team_id"))
    else if !HasKey(teams, input.teamId.value) then Err(UnknownTeam(input.teamId.value))
    else if input.agentId.None? then Err(MissingKey("agent_id"))
    else if !HasKey(agents, input.agentId.value) then Err(UnknownAgent(input.agentId.value))
    else if input.status.None? then Err(MissingKey("status"))
    else if !IsValidTicketStatus(input.status.value) then Err(InvalidStatus(input.status.value))
    else if input.subject.None? || input.messageText.None? || input.recipients.None? then Err(Incomplete)
    else Ok(BatchMessage(input.subject.value, input.messageText.value, input.teamId.value,
                         input.agentId.value, input.status.value, input.recipients.value))
  }

  /** The teams cache holds names as well as IDs, so a team's name passes the team check as its
      ID does (given unique names and IDs). */
  lemma TeamNameOrIdAccepted(ts: seq<Team>, k: int)
    requires UniqueRefs(TeamPairs(ts)) && 0 <= k < |ts|
    ensures HasKey(TeamLookup(ts), ts[k].name) && HasKey(TeamLookup(ts), ts[k].id)
  {
    TeamLookupExact(ts, k);
  }

  // ---------------------------------------------------------------- customize_message

  /** The placeholders a message text may use. */
  datatype Field =
    | RecipientName | RecipientEmail | RecipientAddressAs
    | Subject | MessageText | TeamId | AgentId | Status

  function FieldName(f: Field): string {
    match f
    case RecipientName => "recipient.name"
    case RecipientEmail => "recipient.email"
    case RecipientAddressAs => "recipient.address_as"
    case Subject => "self.message.subject"
    case MessageText => "self.message.message_text"
    case TeamId => "self.message.team_id"
    case AgentId => "self.message.agent_id"
    case Status => "self.message.status"
  }

  /** Every placeholder, in the order the message attributes are declared. */
  const AllFields: seq<Field> :=
    [RecipientName, RecipientEmail, RecipientAddressAs, Subject, MessageText, TeamId, AgentId, Status]

  lemma AllFieldsListed(f: Field)
    ensures f in AllFields
  {
    match f
    case RecipientName => assert AllFields[0] == f;
    case RecipientEmail => assert AllFields[1] == f;
    case RecipientAddressAs => assert AllFields[2] == f;
    case Subject => assert AllFields[3] == f;
    case MessageText => assert AllFields[4] == f;
    case TeamId => assert AllFields[5] == f;
    case AgentId => assert AllFields[6] == f;
    case Status => assert AllFields[7] == f;
  }

  /** The first of `fs` whose name is `name`. */
  function FieldNamed(name: string, fs: seq<Field>): (r: Option<Field>)
    ensures r.Some? ==> FieldName(r.value) == name
    ensures r.None? <==> forall i | 0 <= i < |fs| :: FieldName(fs[i]) != name
  {
    if fs == [] then None
    else if FieldName(fs[0]) == name then Some(fs[0])
    else
      var r := FieldNamed(name, fs[1..]);
      assert forall i | 1 <= i < |fs| :: fs[i] == fs[1..][i - 1];
      r
  }

  /** The placeholder a field name between braces denotes, if any. */
  function ParseField(name: string): (r: Option<Field>)
    ensures r.Some? ==> FieldName(r.value) == name
    ensures r.None? ==> forall f :: FieldName(f) != name
  {
    var r := FieldNamed(name, AllFields);
    if r.None? then
      assert forall f :: FieldName(f) != name by {
        forall f ensures FieldName(f) != name {
          AllFieldsListed(f);
        }
      }
      r
    else r
  }

  /** Distinct placeholders have distinct names. */
  lemma FieldNameInjective(f: Field, g: Field)
    requires FieldName(f) == FieldName(g)
    ensures f == g
  {
    var a, b := FieldName(f), FieldName(g);
    assert |a| == |b|;
    assert a[0] == b[0];
    if |a| == 20 && a[0] == 's' {
      assert a[13] == b[13];
    }
  }

  /** Every placeholder is recognised by its own name. */
  lemma ParseFieldName(f: Field)
    ensures ParseField(FieldName(f)) == Some(f)
  {
    AllFieldsListed(f);
    var r := ParseField(FieldName(f));
    FieldNameInjective(r.value, f);
  }

  /** No placeholder name holds a closing brace. */
  lemma FieldNameUnbraced(f: Field)
    ensures '}' !in FieldName(f)
  {
  }

  function FieldValue(f: Field, recipient: Recipient, msg: BatchMessage): string {
    match f
    case RecipientName => recipient.name
    case RecipientEmail => recipient.email
    case RecipientAddressAs => recipient.addressAs
    case Subject => msg.subject
    case MessageText => msg.messageText
    case TeamId => msg.teamId
    case AgentId => msg.agentId
    case Status => msg.status
  }

  /** Why `str.format` refuses a text. */
  datatype RenderError =
    | SingleCloseBrace            // "Single '}' encountered in format string"
    | UnclosedField               // "expected '}' before end of string"
    | UnknownField(name: string)  // any field this model does not know

  /** The position of the first `}`, if any. */
  function FindClose(s: string): (r: Option<nat>)
    ensures r.Some? ==> r.value < |s| && s[r.value] == '}' && '}' !in s[..r.value]
    ensures r.None? ==> '}' !in s
  {
    if s == [] then None
    else if s[0] == '}' then Some(0)
    else match FindClose(s[1..])
      case None => None
      case Some(k) =>
        assert s[..k + 1] == [s[0]] + s[1..][..k];
        Some(k + 1)
  }

  function Prepend(s: string, r: Result<string, RenderError>): Result<string, RenderError> {
    if r.Ok? then Ok(s + r.value) else r
  }

  /** A message text seen as literal stretches and placeholders. */
  datatype Piece = Lit(text: string) | Hole(field: Field)

  /** One character of literal text as it is written: a brace is doubled. */
  function EscapeChar(c: char): string {
    if c == '{' || c == '}' then [c, c] else [c]
  }

  /** Literal text with its braces doubled. */
  function Escape(s: string): (e: string)
    ensures '{' !in s && '}' !in s ==> e == s
  {
    if s == [] then [] else EscapeChar(s[0]) + Escape(s[1..])
  }

  /** The text one piece is written as. */
  function PieceText(p: Piece): string {
    match p
    case Lit(s) => Escape(s)
    case Hole(f) => "{" + FieldName(f) + "}"
  }

  /** What one piece produces for one recipient. */
  function PieceValue(p: Piece, recipient: Recipient, msg: BatchMessage): string {
    match p
    case Lit(s) => s
    case Hole(f) => FieldValue(f, recipient, msg)
  }

  /** The first token of a non-empty text, as `str.format` reads it: `{{` or `}}` for a single
      brace, `{field}` for a placeholder, any other character for itself; with the number of
      characters it spans. A lone `}`, a `{` never closed, or an unknown field is an error. */
  function NextPiece(t: string): (r: Result<(Piece, nat), RenderError>)
    requires t != []
    ensures r.Ok? ==> 0 < r.value.1 <= |t| && t[..r.value.1] == PieceText(r.value.0)
  {
    if t[0] == '{' then
      if |t| > 1 && t[1] == '{' then
        EscapeSingle('{');
        assert t[..2] == EscapeChar('{');
        Ok((Lit("{"), 2))
      else match FindClose(t[1..])
        case None => Err(UnclosedField)
        case Some(k) =>
          var name := t[1..k + 1];
          match ParseField(name)
          case None => Err(UnknownField(name))
          case Some(f) =>
            HoleText(t, k, f);
            Ok((Hole(f), k + 2))
    else if t[0] == '}' then
      if |t| > 1 && t[1] == '}' then
        EscapeSingle('}');
        assert t[..2] == EscapeChar('}');
        Ok((Lit("}"), 2))
      else Err(SingleCloseBrace)
    else
      EscapeSingle(t[0]);
      assert t[..1] == EscapeChar(t[0]);
      Ok((Lit([t[0]]), 1))
  }

  lemma EscapeSingle(c: char)
    ensures Escape([c]) == EscapeChar(c)
  {
    assert [c][1..] == [];
  }

  /** A brace-enclosed field name spans the text of its placeholder. */
  lemma HoleText(t: string, k: nat, f: Field)
    requires k + 2 <= |t| && t[0] == '{' && t[k + 1] == '}' && FieldName(f) == t[1..k + 1]
    ensures t[..k + 2] == PieceText(Hole(f))
  {
    assert t[..k + 2] == [t[0]] + t[1..k + 1] + [t[k + 1]];
  }

  /** The first `}` after a name without one is the one that closes it. */
  lemma FindCloseAfter(name: string, rest: string)
    requires '}' !in name
    ensures FindClose(name + "}" + rest) == Some(|name|)
  {
    var s := name + "}" + rest;
    assert s[|name|] == '}' && s[..|name|] == name;
  }

  /** `message_text.format(recipient=recipient, self=self)`, restricted to the placeholders
      above: token by token, each token's value followed by the rest's; the first bad token
      ends it with its error. */
  function Render(t: string, recipient: Recipient, msg: BatchMessage): Result<string, RenderError>
    decreases |t|
  {
    if t == [] then Ok([])
    else match NextPiece(t)
      case Err(e) => Err(e)
      case Ok((p, n)) => Prepend(PieceValue(p, recipient, msg), Render(t[n..], recipient, msg))
  }

  /** `customize_message`. */
  function CustomizeMessage(msg: BatchMessage, recipient: Recipient): Result<string, RenderError> {
    Render(msg.messageText, recipient, msg)
  }

  // ---------------------------------------------------------------- templates as pieces

  /** The message text that stands for the pieces. */
  function Encode(ps: seq<Piece>): string {
    if ps == [] then [] else PieceText(ps[0]) + Encode(ps[1..])
  }

  /** The text the pieces produce for one recipient. */
  function Expand(ps: seq<Piece>, recipient: Recipient, msg: BatchMessage): string {
    if ps == [] then [] else PieceValue(ps[0], recipient, msg) + Expand(ps[1..], recipient, msg)
  }

  lemma PrependAppend(a: string, b: string, r: Result<string, RenderError>)
    ensures Prepend(a, Prepend(b, r)) == Prepend(a + b, r)
  {
    if r.Ok? {
      assert a + (b + r.value) == (a + b) + r.value;
    }
  }

  /** An escaped character is read back as that one literal character. */
  lemma NextPieceEscaped(c: char, tail: string)
    ensures NextPiece(EscapeChar(c) + tail) == Ok((Lit([c]), |EscapeChar(c)|))
  {
    var t := EscapeChar(c) + tail;
    assert t[0] == c;
    if c == '{' || c == '}' {
      assert t[1] == c;
    }
  }

  /** Escaped literal text renders to itself. */
  lemma {:induction false} RenderEscaped(s: string, rest: string, recipient: Recipient, msg: BatchMessage)
    ensures Render(Escape(s) + rest, recipient, msg) == Prepend(s, Render(rest, recipient, msg))
    decreases |s|
  {
    if s == [] {
      assert Escape(s) + rest == rest;
      var r := Render(rest, recipient, msg);
      assert r.Ok? ==> [] + r.value == r.value;
    } else {
      var tail := Escape(s[1..]) + rest;
      var t := EscapeChar(s[0]) + tail;
      assert Escape(s) + rest == t;
      NextPieceEscaped(s[0], tail);
      assert t[|EscapeChar(s[0])|..] == tail;
      RenderEscaped(s[1..], rest, recipient, msg);
      PrependAppend([s[0]], s[1..], Render(rest, recipient, msg));
      assert [s[0]] + s[1..] == s;
    }
  }

  /** A known field name between braces is read as its placeholder. */
  lemma NextPieceNamed(name: string, rest: string)
    requires '}' !in name && name != [] && name[0] != '{' && ParseField(name).Some?
    ensures NextPiece("{" + name + "}" + rest) == Ok((Hole(ParseField(name).value), |name| + 2))
  {
    var t := "{" + name + "}" + rest;
    FindCloseAfter(name, rest);
    assert t[1..] == name + "}" + rest;
    assert t[1..|name| + 1] == name;
    assert t[0] == '{' && t[1] == name[0];
  }

  /** A placeholder is read as that placeholder. */
  lemma NextPieceHole(f: Field, rest: string)
    ensures NextPiece("{" + FieldName(f) + "}" + rest) == Ok((Hole(f), |FieldName(f)| + 2))
  {
    ParseFieldName(f);
    FieldNameUnbraced(f);
    assert FieldName(f)[0] in "rs";
    NextPieceNamed(FieldName(f), rest);
  }

  /** A placeholder renders to its field's value. */
  lemma RenderHole(f: Field, rest: string, recipient: Recipient, msg: BatchMessage)
    ensures Render("{" + FieldName(f) + "}" + rest, recipient, msg)
              == Prepend(FieldValue(f, recipient, msg), Render(rest, recipient, msg))
  {
    var t := "{" + FieldName(f) + "}" + rest;
    NextPieceHole(f, rest);
    assert t[|FieldName(f)| + 2..] == rest;
  }

  /** Every text built from pieces renders, to what the pieces produce. */
  lemma {:induction false} RenderEncode(ps: seq<Piece>, recipient: Recipient, msg: BatchMessage)
    ensures Render(Encode(ps), recipient, msg) == Ok(Expand(ps, recipient, msg))
  {
    if ps != [] {
      RenderEncode(ps[1..], recipient, msg);
      match ps[0]
      case Lit(s) => RenderEscaped(s, Encode(ps[1..]), recipient, msg);
      case Hole(f) =>
        RenderHole(f, Encode(ps[1..]), recipient, msg);
        assert Encode(ps) == "{" + FieldName(f) + "}" + Encode(ps[1..]);
    }
  }

  /** A text that renders starts with one piece, and renders to that piece's value followed by
      what the rest renders to. */
  lemma RenderStep(t: string, recipient: Recipient, msg: BatchMessage) returns (p: Piece, rest: string)
    requires t != [] && Render(t, recipient, msg).Ok?
    ensures t == PieceText(p) + rest && |rest| < |t|
    ensures Render(rest, recipient, msg).Ok?
    ensures Render(t, recipient, msg).value == PieceValue(p, recipient, msg) + Render(rest, recipient, msg).value
  {
    var n;
    p, n := NextPiece(t).value.0, NextPiece(t).value.1;
    rest := t[n..];
    assert t == t[..n] + rest;
  }

  /** Conversely, every text that renders is built from pieces, and renders to what they
      produce. */
  lemma {:induction false} RenderDecodes(t: string, recipient: Recipient, msg: BatchMessage)
    requires Render(t, recipient, msg).Ok?
    ensures exists ps :: Encode(ps) == t && Expand(ps, recipient, msg) == Render(t, recipient, msg).value
    decreases |t|
  {
    if t == [] {
      assert Encode([]) == t && Expand([], recipient, msg) == [];
    } else {
      var p, rest := RenderStep(t, recipient, msg);
      RenderDecodes(rest, recipient, msg);
      var ps :| Encode(ps) == rest && Expand(ps, recipient, msg) == Render(rest, recipient, msg).value;
      var qs := [p] + ps;
      assert qs[1..] == ps;
      assert Encode(qs) == t;
      assert Expand(qs, recipient, msg) == Render(t, recipient, msg).value;
    }
  }

  /** A text without braces is sent unchanged. */
  lemma PlainText(t: string, recipient: Recipient, msg: BatchMessage)
    requires '{' !in t && '}' !in t
    ensures Render(t, recipient, msg) == Ok(t)
  {
    RenderEscaped(t, [], recipient, msg);
    assert t + [] == t;
  }

  // ---------------------------------------------------------------- batch_message

  /** What happened for one recipient: a creation attempt with the endpoint's answer (200,
      another status, or an exception, all only printed), or a text that could not be
      customised, so that no ticket was attempted. */
  datatype Delivery =
    | Attempted(payload: TicketPayload, response: WriteResponse)
    | NotCustomized(error: RenderError)

  function Deliver(msg: BatchMessage, recipient: Recipient, create: TicketPayload -> WriteResponse): Delivery {
    match CustomizeMessage(msg, recipient)
    case Err(e) => NotCustomized(e)
    case Ok(text) =>
      var payload := NewTicketPayload(recipient.email, recipient.name, msg.subject, text,
                                      msg.teamId, msg.agentId, msg.status);
      Attempted(payload, create(payload))
  }

  /** The loop of `batch_message` over the given recipients: every recipient is handled, in
      order, whatever happened for the ones before. */
  function DeliverAll(msg: BatchMessage, recipients: seq<Recipient>, create: TicketPayload -> WriteResponse)
    : (ds: seq<Delivery>)
    ensures |ds| == |recipients|
    ensures forall k | 0 <= k < |recipients| :: ds[k] == Deliver(msg, recipients[k], create)
  {
    if recipients == [] then []
    else [Deliver(msg, recipients[0], create)] + DeliverAll(msg, recipients[1..], create)
  }

  /** `batch_message`. */
  function SendBatch(msg: BatchMessage, create: TicketPayload -> WriteResponse): (ds: seq<Delivery>)
    ensures |ds| == |msg.recipients|
  {
    DeliverAll(msg, msg.recipients, create)
  }

  /** Each ticket goes to the recipient's address under the recipient's full name (not the form
      of address), carries the batch's subject, team, agent and status and the text customised
      for that recipient; for a batch that passed validation, that team and agent are known and
      that status is valid. */
  lemma SendBatchPayloads(input: BatchInput, teams: Lookup, agents: Lookup,
                          create: TicketPayload -> WriteResponse, k: int)
    requires NewBatchMessage(input, teams, agents).Ok?
    requires 0 <= k < |input.recipients.value|
    ensures var msg := NewBatchMessage(input, teams, agents).value;
            var d := SendBatch(msg, create)[k];
            var r := msg.recipients[k];
            d.Attempted? <==> CustomizeMessage(msg, r).Ok?
    ensures var msg := NewBatchMessage(input, teams, agents).value;
            var d := SendBatch(msg, create)[k];
            var r := msg.recipients[k];
            d.Attempted? ==>
              && d.payload.requester == Requester(r.email, r.name)
              && d.payload.messageText == CustomizeMessage(msg, r).value
              && d.payload.subject == input.subject.value
              && d.payload.assignment == Assignment(input.teamId.value, input.agentId.value)
              && d.payload.teamIds == [input.teamId.value]
              && d.response == create(d.payload)
              && HasKey(teams, d.payload.assignment.teamId)
              && HasKey(agents, d.payload.assignment.agentId)
              && d.payload.status == input.status.value
              && IsValidTicketStatus(d.payload.status)
  {
  }

  /** A batch whose text is built from pieces reaches every recipient with a creation attempt
      carrying the text those pieces produce for that recipient. */
  lemma SendBatchEncoded(msg: BatchMessage, ps: seq<Piece>, create: TicketPayload -> WriteResponse, k: int)
    requires msg.messageText == Encode(ps) && 0 <= k < |msg.recipients|
    ensures SendBatch(msg, create)[k].Attempted?
    ensures SendBatch(msg, create)[k].payload.messageText == Expand(ps, msg.recipients[k], msg)
  {
    RenderEncode(ps, msg.recipients[k], msg);
  }
}
