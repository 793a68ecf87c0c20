# Journal search webhook relay, modelled in Dafny

The relay is a single Express application (`app.js`). The messaging platform calls
`GET /webhook` to verify a subscription and `POST /webhook` to deliver inbound chat
messages. For each inbound message the relay searches the Elsevier serial-title API
with the message text. It ranks the journals it finds by CiteScore and keeps the top 20.
It formats them as one reply text and sends that text back to the sender in slices of
at most 4096 characters. Any failure along the way is answered with a fixed apology
message.

This project models the decision and data-shaping logic beneath that I/O glue:

- `js_values.dfy` (`JsValues`): the JavaScript notions the logic relies on. These are
  possibly-undefined values, string truthiness, `a || b`, template-literal
  interpolation, and the decimal text of integers.
- `handshake.dfy` (`Handshake`): the GET handshake decision.
- `payload.dfy` (`Payload`): the notification payload as nested optional fields, and the
  POST handler's probe of `entry[0].changes[0].value.messages[0]`.
- `ranking.dfy` (`Ranking`): the `map → sort → slice(0, 20)` pipeline of
  `searchJournals`, given the outcome of the lookup request.
- `formatting.dfy` (`Formatting`): the reply text built with `+=` in `forEach`, and its
  fixed-size slicing.
- `relay.dfy` (`Relay`): `handleJournalSearch` with its chunk loop and its `catch`, and
  the POST handler around it.

Outside inputs are passed in as parameters:

- The lookup request becomes a `Fetch` value. It either failed, or it yielded the
  `entry` field of the response.
- The messaging client becomes an oracle `delivers: nat -> bool`. `delivers(t)` says
  whether send attempt `t` of one flow succeeds; attempts are counted from 0.
- The configured verification token is a parameter of `Handshake.Verify`.

A flow is described by the exact sequence of sends it attempts and by whether an error
escapes it.

Where the written design and the code disagree, the model follows the code:

- The POST handler awaits the search flow. So a failed apology send makes the handler
  answer 500. It is not a detached task whose errors never reach the response.
- A POST answers 500 for every property read of `undefined` in the probe. That covers an
  empty `entry`, `changes` or `messages` array, a missing `value`, and a missing `text`.
  It is not limited to a payload that is not an object.
- The Scopus link is the `@href` of the first link whose `@ref` is `scopus-source`. When
  that first match has no truthy `@href`, the result is "N/A", even if a later link
  matches and has one.
- An entry without a `link` array makes `link.find` throw. The whole search then fails
  and the sender gets the apology.
- A no-results reply whose send fails is answered by the apology too, because that send
  sits inside the same `try`.

## Model

| member | source | states |
|---|---|---|
| `Handshake.Verify` | app.js:15-28 | 200 with the challenge as body exactly when mode and token are truthy, mode is "subscribe" and the token equals the configured secret; 403 exactly when both are truthy but do not match; no response exactly when either is missing or empty |
| `Handshake.UnsetSecretRejects` | app.js:21 | when the configured token is undefined, no request is answered 200 |
| `Payload.Extract` | app.js:33-48 | the probe is a no-op exactly when the guard is falsy without throwing; it yields the sender and text exactly when `entry[0].changes[0].value.messages[0].text` exists, and then those are `messages[0].from` and `messages[0].text.body`; an empty `entry` or `messages` array is an access error |
| `Relay.HandleWebhookPost` | app.js:31-49 | a no-op payload answers 200 with no send; an access error answers 500 with no send; otherwise the sends are those of the flow for `from` and `text.body`, and the status is 500 exactly when an error escaped the flow |
| `Ranking.FindScopus` | app.js:76 | the index found is the first link whose `@ref` is "scopus-source"; none is found only when no link has that `@ref` |
| `Ranking.ScopusLink` | app.js:76 | the link is the first Scopus link's `@href` with the "N/A" fallback for a falsy `@href`, and "N/A" when there is no Scopus link |
| `Ranking.MapCiteScore` | app.js:75 | "N/A" exactly when the year-info list or its current metric is missing, otherwise that metric |
| `Ranking.MapJournal` | app.js:73-77 | an entry maps exactly when it has a `link` array; the title is `dc:title` when truthy and "N/A" otherwise; the score and link are as above |
| `Ranking.MapAll` | app.js:72-77 | the mapping succeeds exactly when every entry has a `link` array, and then maps each entry at its own position |
| `Ranking.RankedMeans` | app.js:78-82 | ranked means both that no numeric score follows an "N/A" and that numeric scores are non-increasing |
| `Ranking.Insert` | app.js:78-82 | inserting into a ranked list keeps it ranked and adds exactly the one element |
| `Ranking.SortByCiteScore` | app.js:78-82 | the sort returns a ranked permutation of its input |
| `Ranking.RankedPrefix` | app.js:83 | a prefix of a ranked list is ranked, uses only the list's elements, and ranks at or above every element left out |
| `Ranking.RankAndLimit` | app.js:72-83 | the result has min(n, 20) entries, is ranked, is a sub-multiset of the input, and nothing left out outranks anything kept |
| `Ranking.Search` | app.js:60-87 | a failed request is a ProviderError; the search succeeds exactly when the response has an `entry` list whose entries all have `link`; then the result is the ranked top min(n, 20) of the mapped entries |
| `Ranking.RankingsAgree` | app.js:78-82 | any two ranked permutations of the same entries carry the same CiteScore at every position, so the unspecified order of ties does not affect the scores shown |
| `JsValues.NatText` | app.js:130-132 | the decimal text of a count or rank is non-empty, all digits, and has no leading zero |
| `JsValues.NatTextRoundTrip` | app.js:130-132 | reading the decimal text back gives the number |
| `JsValues.IntText` | app.js:133 | a score's text is non-empty and starts with '-' exactly for a negative score |
| `Formatting.BuildBody` | app.js:130-135 | the `+=` loop yields the header followed by one block per journal, in list order |
| `Formatting.TitleLineAt` | app.js:130-132 | the text opens with the `Top N journals matching "q":` header, and the header, the blocks of the journals before position k and the line `k+1. title` of journal k together form a prefix of the text |
| `Formatting.ChunksOf` | app.js:138-142 | there are ceil(L/4096) chunks; each holds between 1 and 4096 characters; all but the last hold exactly 4096 |
| `Formatting.ChunksRebuild` | app.js:139-140 | the chunks concatenated in order give back the text |
| `Formatting.ChunkAt` | app.js:139-140 | chunk k is `text.slice(4096k, 4096(k+1))`, and 4096k lies inside the text |
| `Formatting.ChunkIndexInRange` | app.js:139 | the loop index 4096k stays below the text length exactly while chunks remain |
| `Relay.SendInChunks` | app.js:138-142 | the loop sends the chunks in index order and stops at the first failed send, which is answered with the apology |
| `Relay.HandleJournalSearch` | app.js:117-149 | the method attempts exactly the sends of the flow specification and lets an error escape exactly when it does |
| `Relay.ChunksAllSent` | app.js:139-142 | when every chunk is delivered, the sends are the chunks in order and nothing escapes |
| `Relay.ChunkSendFails` | app.js:139-147 | when chunk j is the first that fails, the sends are chunks 0..j and then the apology; an error escapes exactly when the apology fails |
| `Relay.ChunkSendsShape` | app.js:139-148 | the chunk loop's sends are well shaped (see FlowShape) |
| `Relay.SearchFailureApologizes` | app.js:119-147 | a failed search leads to exactly one send, the apology; an error escapes exactly when that send fails |
| `Relay.EmptyResultsOneMessage` | app.js:121-127 | no results leads to exactly one send, the no-results text, when it is delivered; when it is not, the apology follows |
| `Relay.AllChunksDelivered` | app.js:130-142 | with results and all chunks delivered, the sends rebuild the reply text; there are ceil(L/4096) of them and at least one; each is addressed to the sender and holds 1 to 4096 characters; nothing escapes |
| `Relay.TextDelivered` | app.js:138-142 | for any non-empty text whose chunks are all delivered, the sends rebuild the text, are ceil(L/4096) in number, are addressed to the sender, hold 1 to 4096 characters each, and nothing escapes |
| `Relay.ChunkFailureApologizes` | app.js:139-147 | when chunk j of the reply is the first that fails, the sends are chunks 0..j followed by the apology, with nothing taken back |
| `Relay.ApologyShape` | app.js:143-147 | sends to the sender that all succeeded except possibly the last, followed by the apology, are well shaped (see FlowShape) |
| `Relay.FlowShape` | app.js:117-149 | every flow makes at least one send, all to the sender; a failed send is the last one or is followed only by the apology; an error escapes exactly when the last send failed, and that send was the apology |

## Left out

- HTTP plumbing is not modelled: Express routing, `express.json()`, `res.status`/`send`/`sendStatus` and `app.listen`. The handlers return a status, and for GET an optional body. The "Forbidden" text that `sendStatus(403)` writes is not modelled.
- The lookup request is not modelled (`URLSearchParams`, API key, headers, `response.ok`, `response.json()`). Its outcome is the `Fetch` input, so nothing relates the search text to the results.
- The WhatsApp request is not modelled (URL, bearer token, `JSON.stringify` body). Its success per attempt is the `delivers` oracle.
- `process.env`, dotenv and all `console` logging are left out. The verification token is a parameter.
- `async`/`await` is modelled as sequential calls; the source runs nothing concurrently.
- Query parameters that Express parses into arrays or objects are not modelled. Each of `hub.mode`, `hub.verify_token` and `hub.challenge` is a string or undefined.
- Payload values of other JSON types are left out, such as a `null` array element or a string where an array is expected. The datatypes only admit objects and arrays, or absence, at each position the probe reads.
- Ranking.MapCiteScore: the metric is an integer or absent, standing for the provider's numeric string. Float parsing, `NaN` from a non-numeric string, and the falsiness of a numeric 0 are not modelled.
- Formatting.BuildBody: a score is rendered as its integer in decimal. The source interpolates the provider's own string.
- Ranking.SortByCiteScore: the source's comparator returns 1 for two "N/A" entries in either order, so the engine decides the relative order of those entries. The model picks a stable order. `Ranking.RankingsAgree` shows that every ranked order has the same scores at every position.
- Strings are sequences of UTF-16 code units as JavaScript sees them. No Unicode processing is modelled.
