# Twitter polling tick, modelled in Dafny

This project models one poll tick of the Twitter module of the hemppa Matrix
bot (`MatrixModule.poll_implementation` in `modules/twitter.py`). A tick works
on one tracked account. It fetches that account's latest tweets and walks them
in order. A tweet whose id is already in the module's `known_ids` set is
skipped. For a new tweet, and only when `send_messages` is on, it sends an
HTML/plain message pair to the room. Every walked tweet's id is then added to
`known_ids`, whether or not a message was sent. Any exception ends the tick
and is swallowed (logged).

Everything is in `twitter.dfy`, module `Twitter`:

- `MatrixModule` is a class with the field `knownIds: set<TweetId>`.
  `PollImplementation` is its tick: a loop that adds to `knownIds` in place,
  as the source does. It returns the messages it delivered, in order, and
  whether an exception was caught.
- The scraper's answer is an input `Fetch`: either `Fetched(tweets)` or
  `FetchFailed`. A failing send is the input `failAt: Option<nat>`. It names
  the index of the tweet whose delivery raises. It raises only if that tweet
  is actually sent.
- `Walk` and `Poll` describe the tick as functions. The method's
  postcondition ties its new state and its output to `Poll`.
- `IdsOf`, `IsNew` and `StopAt` give a second, independent description of a
  tick. `IdsOf` is the set of ids of the first n tweets. `IsNew` says a
  tweet's id is neither known nor carried by an earlier tweet of the batch.
  `StopAt` is the index where the tick stops. `PollCharacterized` proves that
  the two descriptions agree. Most of the tick properties are derived from it.
- `FormatMessage` builds the message pair exactly as the source's two format
  strings do. `PlainText` and `HtmlText` read the tweet text back from each
  form.

A failed delivery does not record the tweet. The exception from `send_html`
(line 26) leaves the `for` loop before line 29 runs and is caught at lines
30-32. So the failing tweet and every later tweet of the batch stay
unrecorded, and they are walked again on the next tick
(`FailedDeliveryRecordsPrefix`).

## Model

| member | source | states |
|---|---|---|
| `Twitter.MatrixModule.constructor` | modules/twitter.py:11 | A new module starts with no known ids; this is assumed of the polling base class, since nothing in this file creates `known_ids` |
| `Twitter.MatrixModule.PollImplementation` | modules/twitter.py:19-32 | The loop leaves `knownIds`, the delivered messages and the failure flag exactly as `Poll` says; `knownIds` only grows; a failed fetch changes nothing, sends nothing and is reported as a caught exception |
| `Twitter.Walk` | modules/twitter.py:23-29 | Walking the rest of a batch only adds to the known ids; it delivers only tweets at or after the current index; with sending off it delivers nothing and cannot fail |
| `Twitter.Poll` | modules/twitter.py:20-32 | A tick only adds to the known ids; delivered indices lie within the fetched batch; with sending off, a fetched batch delivers nothing and the tick does not fail |
| `Twitter.WalkFromKnown` | modules/twitter.py:23-29 | From any index, the walk records exactly the ids of the tweets before the stopping point, and fails exactly when it stops before the end |
| `Twitter.WalkFromDelivered` | modules/twitter.py:23-28 | From any index, the walk delivers tweet j exactly when j is before the stopping point, sending is on, and tweet j is new |
| `Twitter.WalkIncreasing` | modules/twitter.py:23 | The walk delivers tweets in the order they arrive |
| `Twitter.WalkFrom` | modules/twitter.py:23-29 | The walk from any index matches the reference description: recorded ids, failure flag, delivered tweets and their order |
| `Twitter.PollCharacterized` | modules/twitter.py:20-32 | A tick on a fetched batch records exactly the ids before `StopAt`, fails exactly when `StopAt` is before the end, and delivers, in arrival order, exactly the new tweets before `StopAt` when sending is on |
| `Twitter.KnownTweetNotDelivered` | modules/twitter.py:24 | A tweet whose id is known when it is reached (known before the tick or carried by an earlier tweet) produces no message |
| `Twitter.CompletedTickRecordsAll` | modules/twitter.py:23-29 | A tick that catches no exception leaves the known ids equal to the old ones plus the id of every fetched tweet, sending or not |
| `Twitter.DryRunRecordsAll` | modules/twitter.py:25-29 | With sending off, nothing is delivered, nothing fails, and every fetched id is recorded |
| `Twitter.WalkAllKnown` | modules/twitter.py:24-29 | A walk over tweets whose ids are all known skips all of them and changes nothing |
| `Twitter.AllKnownTickIsSilent` | modules/twitter.py:24-29 | A tick on a batch whose ids are all known delivers nothing, does not fail and leaves the known ids unchanged |
| `Twitter.RepeatedBatchIsIdempotent` | modules/twitter.py:24-29 | After a tick on a batch completes, a second tick on the same batch delivers nothing, does not fail and leaves the known ids unchanged, whatever its own flags |
| `Twitter.DryRunThenSendIsSilent` | modules/twitter.py:25-29 | After a dry run on a batch, a tick with sending on over the same batch delivers nothing |
| `Twitter.DeliveredIdsDistinct` | modules/twitter.py:24-29 | Two deliveries of one tick come in arrival order and carry different ids, even when the batch repeats an id |
| `Twitter.RepeatedIdNotDelivered` | modules/twitter.py:24-29 | A tweet repeating an earlier tweet's id in the same batch is never delivered |
| `Twitter.FetchFailureChangesNothing` | modules/twitter.py:20-32 | When the fetch raises, the known ids are unchanged, nothing is delivered and the exception is caught |
| `Twitter.FailedDeliveryRecordsPrefix` | modules/twitter.py:23-32 | A delivery failure at tweet k ends the tick exactly when tweet k is sent; then exactly the ids of the tweets before k are recorded, tweet k's id is not, and only tweets before k were delivered |
| `Twitter.PlainMessageRoundTrip` | modules/twitter.py:28 | The plain message is `Twitter <account>: <text> - https://twitter.com<url>`, and the tweet text can be read back from it |
| `Twitter.HtmlMessageRoundTrip` | modules/twitter.py:27 | The HTML message is the account as a link to `https://twitter.com<url>` followed by `: <text>`, and the tweet text can be read back from it |
| `Twitter.TwoTickScenario` | modules/twitter.py:23-29 | From no known ids, a batch of tweets 1 and 2 delivers both and records both; a following batch of tweets 2 and 3 delivers only tweet 3 and leaves ids 1, 2 and 3 known |

## Left out

- `query_tweets_from_user` (line 21) is a network scraper. Its result, or its exception, is the input `Fetch`. Its `limit=1` argument does not affect the loop, so any batch length is allowed.
- `bot.send_html` and `bot.get_room_by_id` (line 26) are the Matrix transport. A successful send appends the message to the returned sequence. A failing send is the input `failAt`. A send that raises is taken to deliver nothing. Only the first failing send matters, because it ends the tick.
- Exceptions other than a failing fetch or a failing send are not modelled (for example, one raised by the logger at line 22). They would end the tick like a failed fetch.
- The `roomid` argument is only passed to the transport, so the model does not take it.
- `self.logger` calls and `traceback.print_exc` (lines 22, 31-32) are logging only. The returned `failed` flag stands for "an error was logged".
- `async`/`await` is scheduling only. The tick is modelled as one sequential run.
- `__init__` (lines 12-13) only sets `self.enabled = False`; it never calls the base constructor, so it does not create `known_ids`. `__init_enabled` (lines 15-17), which would call it and set `service_name`, is never called in this file. The `enabled` flag and `service_name` are not read by the tick.
- The `PollingService` base class and its scheduling loop are not part of this model. The constructor assumes that the base class gives each module an initially empty `known_ids` set; nothing in `modules/twitter.py` creates that set.
