/**
 * The search-and-respond flow and the POST handler that runs it.
 *
 * The lookup request is replaced by its outcome (a Fetch), and the
 * messaging client by an oracle `delivers`: `delivers(t)` says whether the
 * send attempt numbered `t` (counting from 0 within one flow) succeeds. The
 * flow is described by the sends it attempts, in order, and by whether an
 * error escapes it.
 */
module Relay {
  import opened JsValues
  import opened Payload
  import opened Ranking
  import opened Formatting

  const NoResultsText := "No journals found matching your search criteria."
  const ApologyText := "Sorry, there was an error processing your request. Please try again later."

  /** One call of the messaging client. */
  datatype Send = Send(to: Option<string>, text: string)

  /** The sends a flow attempted, and whether an error escaped it to the caller. */
  datatype FlowResult = FlowResult(attempts: seq<Send>, escaped: bool)

  /** One send to `to` per text, in order. */
  function Sends(to: Option<string>, texts: seq<string>): (r: seq<Send>)
    ensures |r| == |texts|
    ensures forall i | 0 <= i < |texts| :: r[i] == Send(to, texts[i])
  {
    seq(|texts|, i requires 0 <= i < |texts| => Send(to, texts[i]))
  }

  lemma SendsAppend(to: Option<string>, texts: seq<string>, text: string)
    ensures Sends(to, texts + [text]) == Sends(to, texts) + [Send(to, text)]
  {
  }

  /** The texts of a list of sends. */
  function Texts(sends: seq<Send>): (r: seq<string>)
    ensures |r| == |sends|
    ensures forall i | 0 <= i < |sends| :: r[i] == sends[i].text
  {
    seq(|sends|, i requires 0 <= i < |sends| => sends[i].text)
  }

  /** The first attempt number in [from, n) that fails, or n when none does. */
  function FirstUndelivered(delivers: nat -> bool, from: nat, n: nat): (r: nat)
    requires from <= n
    ensures from <= r <= n
    ensures forall t | from <= t < r :: delivers(t)
    ensures r < n ==> !delivers(r)
    decreases n - from
  {
    if from == n then n
    else if !delivers(from) then from
    else FirstUndelivered(delivers, from + 1, n)
  }

  /** The `catch` of the flow: after the sends in `prior`, one attempt to send the apology. */
  function Apologize(to: Option<string>, prior: seq<Send>, delivers: nat -> bool): FlowResult {
    FlowResult(prior + [Send(to, ApologyText)], !delivers(|prior|))
  }

  /** The chunks sent in order, stopping at the first failed send, which is answered with the apology. */
  function SendChunks(to: Option<string>, chunks: seq<string>, delivers: nat -> bool): FlowResult {
    var failed := FirstUndelivered(delivers, 0, |chunks|);
    if failed == |chunks| then FlowResult(Sends(to, chunks), false)
    else Apologize(to, Sends(to, chunks[..failed + 1]), delivers)
  }

  /**
   * The search-and-respond flow for the message `query` from `to`: search,
   * then either the no-results message or the chunks of the reply text in
   * order, stopping at the first failed send; a failure of the search or of
   * any of these sends is answered with the apology, and a failure of the
   * apology escapes.
   */
  function Flow(to: Option<string>, query: Option<string>, fetch: Fetch, delivers: nat -> bool): FlowResult {
    match Search(fetch)
    case Err(_) => Apologize(to, [], delivers)
    case Ok(journals) =>
      if journals == [] then
        if delivers(0) then FlowResult([Send(to, NoResultsText)], false)
        else Apologize(to, [Send(to, NoResultsText)], delivers)
      else SendChunks(to, ChunksOf(Body(query, journals)), delivers)
  }

  /** The flow as the source runs it: the search, the reply text, and the chunk loop with `i += 4096`. */
  method HandleJournalSearch(to: Option<string>, query: Option<string>, fetch: Fetch, delivers: nat -> bool)
    returns (r: FlowResult)
    ensures r == Flow(to, query, fetch, delivers)
  {
    var found := Search(fetch);
    if found.Err? {
      r := Apologize(to, [], delivers);
      return;
    }
    var journals := found.value;
    if |journals| == 0 {
      var attempts := [Send(to, NoResultsText)];
      if delivers(0) {
        r := FlowResult(attempts, false);
      } else {
        r := Apologize(to, attempts, delivers);
      }
      return;
    }
    var body := BuildBody(query, journals);
    r := SendInChunks(to, body, delivers);
  }

  /** The loop `for (let i = 0; i < text.length; i += 4096)` sending `text.slice(i, i + 4096)`, inside the `try`. */
  method SendInChunks(to: Option<string>, text: string, delivers: nat -> bool) returns (r: FlowResult)
    ensures r == SendChunks(to, ChunksOf(text), delivers)
  {
    ghost var chunks := ChunksOf(text);
    var attempts: seq<Send> := [];
    var i := 0;
    while i < |text|
      invariant |attempts| <= |chunks|
      invariant i == MaxMessageLength * |attempts|
      invariant i < |text| <==> |attempts| < |chunks|
      invariant attempts == Sends(to, chunks[..|attempts|])
      invariant forall t | 0 <= t < |attempts| :: delivers(t)
      decreases |text| - i
    {
      var sent := |attempts|;
      ChunkAt(text, sent);
      var chunk := text[i..Min(i + MaxMessageLength, |text|)];
      assert chunks[..sent + 1] == chunks[..sent] + [chunk];
      SendsAppend(to, chunks[..sent], chunk);
      attempts := attempts + [Send(to, chunk)];
      if !delivers(sent) {
        ChunkSendFails(to, chunks, delivers, sent);
        r := Apologize(to, attempts, delivers);
        return;
      }
      i := i + MaxMessageLength;
      ChunkIndexInRange(|text|, |attempts|);
    }
    assert chunks[..|attempts|] == chunks;
    ChunksAllSent(to, chunks, delivers);
    r := FlowResult(attempts, false);
  }

  /**
   * `POST /webhook`: the probe of the payload, the awaited flow, and the
   * status: 500 when the probe throws or an error escapes the flow, 200
   * otherwise.
   */
  method HandleWebhookPost(request: WebhookBody, fetch: Fetch, delivers: nat -> bool)
    returns (status: nat, attempts: seq<Send>)
    ensures Extract(request) == NoMessage ==> status == 200 && attempts == []
    ensures Extract(request) == AccessError ==> status == 500 && attempts == []
    ensures Extract(request).Inbound? ==>
              var flow := Flow(Extract(request).from, Extract(request).text, fetch, delivers);
              attempts == flow.attempts && status == (if flow.escaped then 500 else 200)
  {
    match Extract(request)
    case NoMessage =>
      status, attempts := 200, [];
    case AccessError =>
      status, attempts := 500, [];
    case Inbound(from, text) =>
      var flow := HandleJournalSearch(from, text, fetch, delivers);
      attempts := flow.attempts;
      status := if flow.escaped then 500 else 200;
  }

  // ---------------------------------------------------------------- properties of the flow

  /** Failure-free delivery: every chunk is sent once, in order, and nothing escapes. */
  lemma ChunksAllSent(to: Option<string>, chunks: seq<string>, delivers: nat -> bool)
    requires forall t | 0 <= t < |chunks| :: delivers(t)
    ensures SendChunks(to, chunks, delivers) == FlowResult(Sends(to, chunks), false)
    ensures Texts(Sends(to, chunks)) == chunks
  {
    assert FirstUndelivered(delivers, 0, |chunks|) == |chunks|;
  }

  /** The first failed chunk send ends the loop and is answered with the apology. */
  lemma ChunkSendFails(to: Option<string>, chunks: seq<string>, delivers: nat -> bool, j: nat)
    requires j < |chunks|
    requires forall t | 0 <= t < j :: delivers(t)
    requires !delivers(j)
    ensures SendChunks(to, chunks, delivers) ==
              FlowResult(Sends(to, chunks[..j + 1]) + [Send(to, ApologyText)], !delivers(j + 1))
  {
    var failed := FirstUndelivered(delivers, 0, |chunks|);
    assert failed == j;
  }

  /**
   * At least one send, all to `to`; a failed send is the last or is
   * followed only by the apology; an error escapes exactly when the last
   * attempt failed, and then that attempt was the apology.
   */
  predicate WellShaped(to: Option<string>, flow: FlowResult, delivers: nat -> bool) {
    && |flow.attempts| >= 1
    && (forall t | 0 <= t < |flow.attempts| :: flow.attempts[t].to == to)
    && (forall t | 0 <= t < |flow.attempts| - 1 && !delivers(t) ::
          t == |flow.attempts| - 2 && flow.attempts[t + 1] == Send(to, ApologyText))
    && (flow.escaped <==> !delivers(|flow.attempts| - 1))
    && (flow.escaped ==> flow.attempts[|flow.attempts| - 1] == Send(to, ApologyText))
  }

  /** The shape of the chunk loop's sends, for any non-empty list of chunks. */
  lemma ChunkSendsShape(to: Option<string>, chunks: seq<string>, delivers: nat -> bool)
    requires |chunks| >= 1
    ensures WellShaped(to, SendChunks(to, chunks, delivers), delivers)
  {
    var failed := FirstUndelivered(delivers, 0, |chunks|);
    if failed < |chunks| {
      ChunkSendFails(to, chunks, delivers, failed);
    }
  }

  /** A failed search is answered with the apology alone. */
  lemma SearchFailureApologizes(to: Option<string>, query: Option<string>, fetch: Fetch, delivers: nat -> bool)
    requires Search(fetch).Err?
    ensures Flow(to, query, fetch, delivers) == FlowResult([Send(to, ApologyText)], !delivers(0))
  {
  }

  /** No results: exactly the no-results message, then the apology only if that send failed. */
  lemma EmptyResultsOneMessage(to: Option<string>, query: Option<string>, fetch: Fetch, delivers: nat -> bool)
    requires Search(fetch) == Ok([])
    ensures delivers(0) ==> Flow(to, query, fetch, delivers) == FlowResult([Send(to, NoResultsText)], false)
    ensures !delivers(0) ==>
              Flow(to, query, fetch, delivers) == FlowResult([Send(to, NoResultsText), Send(to, ApologyText)], !delivers(1))
  {
  }

  /**
   * When every chunk is delivered, the sends are the chunks in order: they
   * rebuild the reply text, there are ceil(L / 4096) of them (at least one),
   * each holds between 1 and 4096 characters, and nothing escapes.
   */
  lemma AllChunksDelivered(to: Option<string>, query: Option<string>, fetch: Fetch, delivers: nat -> bool)
    requires Search(fetch).Ok? && Search(fetch).value != []
    requires forall t | 0 <= t < |ChunksOf(Body(query, Search(fetch).value))| :: delivers(t)
    ensures var body := Body(query, Search(fetch).value);
            var flow := Flow(to, query, fetch, delivers);
            && !flow.escaped
            && Concat(Texts(flow.attempts)) == body
            && |flow.attempts| == ChunkCount(|body|) >= 1
            && forall t | 0 <= t < |flow.attempts| ::
                 flow.attempts[t].to == to && 1 <= |flow.attempts[t].text| <= MaxMessageLength
  {
    var body := Body(query, Search(fetch).value);
    assert |body| >= 1;
    assert Flow(to, query, fetch, delivers) == SendChunks(to, ChunksOf(body), delivers);
    TextDelivered(to, body, delivers);
  }

  /** A non-empty text whose chunks are all delivered arrives whole, in order, in valid sizes. */
  lemma TextDelivered(to: Option<string>, text: string, delivers: nat -> bool)
    requires |text| >= 1
    requires forall t | 0 <= t < |ChunksOf(text)| :: delivers(t)
    ensures var flow := SendChunks(to, ChunksOf(text), delivers);
            && !flow.escaped
            && Concat(Texts(flow.attempts)) == text
            && |flow.attempts| == ChunkCount(|text|) >= 1
            && forall t | 0 <= t < |flow.attempts| ::
                 flow.attempts[t].to == to && 1 <= |flow.attempts[t].text| <= MaxMessageLength
  {
    ChunksAllSent(to, ChunksOf(text), delivers);
    ChunksRebuild(text);
  }

  /**
   * When chunk `j` is the first whose send fails, the sends are chunks 0..j
   * (earlier chunks are not taken back) followed by the apology, and an
   * error escapes exactly when the apology fails too.
   */
  lemma ChunkFailureApologizes(to: Option<string>, query: Option<string>, fetch: Fetch, delivers: nat -> bool, j: nat)
    requires Search(fetch).Ok? && Search(fetch).value != []
    requires j < |ChunksOf(Body(query, Search(fetch).value))|
    requires forall t | 0 <= t < j :: delivers(t)
    requires !delivers(j)
    ensures var chunks := ChunksOf(Body(query, Search(fetch).value));
            Flow(to, query, fetch, delivers) ==
              FlowResult(Sends(to, chunks[..j + 1]) + [Send(to, ApologyText)], !delivers(j + 1))
  {
    ChunkSendFails(to, ChunksOf(Body(query, Search(fetch).value)), delivers, j);
  }

  /** Every flow, whatever the search and the sends do, is well shaped. */
  lemma FlowShape(to: Option<string>, query: Option<string>, fetch: Fetch, delivers: nat -> bool)
    ensures WellShaped(to, Flow(to, query, fetch, delivers), delivers)
  {
    match Search(fetch)
    case Err(_) =>
      ApologyShape(to, [], delivers);
    case Ok(journals) =>
      if journals == [] {
        if !delivers(0) {
          ApologyShape(to, [Send(to, NoResultsText)], delivers);
        }
      } else {
        var body := Body(query, journals);
        assert |body| >= 1;
        assert Flow(to, query, fetch, delivers) == SendChunks(to, ChunksOf(body), delivers);
        ChunkSendsShape(to, ChunksOf(body), delivers);
      }
  }

  /** Sends to `to` that all succeeded except possibly the last, followed by the apology, are well shaped. */
  lemma ApologyShape(to: Option<string>, prior: seq<Send>, delivers: nat -> bool)
    requires forall t | 0 <= t < |prior| :: prior[t].to == to
    requires forall t | 0 <= t < |prior| - 1 :: delivers(t)
    ensures WellShaped(to, Apologize(to, prior, delivers), delivers)
  {
  }
}
