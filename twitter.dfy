/**
 * One poll tick of the Twitter polling module: the fetched tweets of one
 * tracked account are walked in order, tweets whose id is already known are
 * skipped, new ones are (optionally) sent to the room as an HTML/plain message
 * pair, and every walked id is recorded in the module's set of known ids.
 * An exception (from the fetch or from a send) ends the tick early and is
 * swallowed.
 *
 * The fetch and the transport are inputs: the fetch is a `Fetch` value, and a
 * failing send is named by `failAt`, the index of the tweet whose delivery
 * raises (it raises only if that tweet is actually sent).
 */
module Twitter {

  datatype Option<T> = None | Some(value: T)

  type TweetId = string

  /** A fetched tweet: its id, its path on twitter.com and its text. */
  datatype Tweet = Tweet(id: TweetId, url: string, text: string)

  /** The two renderings handed to the transport for one tweet. */
  datatype Message = Message(html: string, plain: string)

  /** What the scraper returned: the tweets, or an exception. */
  datatype Fetch = Fetched(tweets: seq<Tweet>) | FetchFailed

  /**
   * The outcome of a tick: the known ids afterwards, the indices (into the
   * fetched batch) of the tweets that were delivered, in delivery order, and
   * whether an exception was caught and logged.
   */
  datatype Tick = Tick(known: set<TweetId>, delivered: seq<nat>, failed: bool)

  const TwitterHost := "https://twitter.com"

  /** The message pair built for one tweet of `account`. */
  function FormatMessage(account: string, t: Tweet): Message
  {
    Message(
      "<a href=\"" + TwitterHost + t.url + "\">Twitter " + account + "</a>: " + t.text,
      "Twitter " + account + ": " + t.text + " - " + TwitterHost + t.url)
  }

  // ---------------------------------------------------------------------
  // Reading a message back: the partners of FormatMessage.

  /** The text carried by a plain message of `account` linking to `url`, if it is one. */
  function PlainText(account: string, url: string, plain: string): Option<string>
  {
    var prefix := "Twitter " + account + ": ";
    var suffix := " - " + TwitterHost + url;
    if |prefix| + |suffix| <= |plain|
       && plain[..|prefix|] == prefix
       && plain[|plain| - |suffix|..] == suffix
    then Some(plain[|prefix|..|plain| - |suffix|])
    else None
  }

  /** The text carried by an HTML message of `account` linking to `url`, if it is one. */
  function HtmlText(account: string, url: string, html: string): Option<string>
  {
    var prefix := "<a href=\"" + TwitterHost + url + "\">Twitter " + account + "</a>: ";
    if |prefix| <= |html| && html[..|prefix|] == prefix
    then Some(html[|prefix|..])
    else None
  }

  lemma PlainMessageRoundTrip(account: string, t: Tweet)
    ensures PlainText(account, t.url, FormatMessage(account, t).plain) == Some(t.text)
  {
    var prefix := "Twitter " + account + ": ";
    var suffix := " - " + TwitterHost + t.url;
    var plain := FormatMessage(account, t).plain;
    assert plain == prefix + t.text + suffix;
    assert plain[..|prefix|] == prefix;
    assert plain[|plain| - |suffix|..] == suffix;
    assert plain[|prefix|..|plain| - |suffix|] == t.text;
  }

  lemma HtmlMessageRoundTrip(account: string, t: Tweet)
    ensures HtmlText(account, t.url, FormatMessage(account, t).html) == Some(t.text)
  {
  }

  // ---------------------------------------------------------------------
  // The tick as a function.

  /**
   * The rest of a tick, from the tweet at index `from` on, with `known` the
   * known ids at the moment that tweet is reached.
   */
  function Walk(known: set<TweetId>, tweets: seq<Tweet>, from: nat, send: bool, failAt: Option<nat>): (r: Tick)
    requires from <= |tweets|
    ensures known <= r.known
    ensures forall n :: 0 <= n < |r.delivered| ==> from <= r.delivered[n] < |tweets|
    ensures !send ==> r.delivered == [] && !r.failed
    decreases |tweets| - from
  {
    if from == |tweets| then Tick(known, [], false)
    else
      var t := tweets[from];
      var sends := t.id !in known && send;
      if sends && failAt == Some(from) then
        Tick(known, [], true)
      else
        var rest := Walk(known + {t.id}, tweets, from + 1, send, failAt);
        Tick(rest.known, (if sends then [from] else []) + rest.delivered, rest.failed)
  }

  /** The tweets a fetch produced; none when it failed. */
  function Batch(fetch: Fetch): seq<Tweet>
  {
    if fetch.Fetched? then fetch.tweets else []
  }

  /** A whole tick starting from the known ids `known`. */
  function Poll(known: set<TweetId>, fetch: Fetch, send: bool, failAt: Option<nat>): (r: Tick)
    ensures known <= r.known
    ensures forall n :: 0 <= n < |r.delivered| ==> r.delivered[n] < |Batch(fetch)|
    ensures !send && fetch.Fetched? ==> r.delivered == [] && !r.failed
  {
    match fetch
    case FetchFailed => Tick(known, [], true)
    case Fetched(tweets) => Walk(known, tweets, 0, send, failAt)
  }

  /** The messages sent for the delivered indices, in order. */
  function Messages(account: string, tweets: seq<Tweet>, delivered: seq<nat>): seq<Message>
    requires forall n :: 0 <= n < |delivered| ==> delivered[n] < |tweets|
  {
    if delivered == [] then []
    else Messages(account, tweets, delivered[..|delivered| - 1])
         + [FormatMessage(account, tweets[delivered[|delivered| - 1]])]
  }

  // ---------------------------------------------------------------------
  // An independent description of a tick.

  /** The ids of the first `n` tweets of the batch. */
  function IdsOf(tweets: seq<Tweet>, n: nat): set<TweetId>
    requires n <= |tweets|
  {
    if n == 0 then {} else IdsOf(tweets, n - 1) + {tweets[n - 1].id}
  }

  /** Tweet `j` is new: its id is neither known before the tick nor carried by an earlier tweet of the batch. */
  predicate IsNew(known: set<TweetId>, tweets: seq<Tweet>, j: nat)
    requires j < |tweets|
  {
    tweets[j].id !in known && tweets[j].id !in IdsOf(tweets, j)
  }

  /**
   * The index at which a tick that walks on from `from` stops: the failing
   * tweet, when it is at or after `from` and is actually sent; else the end.
   */
  function StopFrom(known: set<TweetId>, tweets: seq<Tweet>, from: nat, send: bool, failAt: Option<nat>): nat
  {
    match failAt
    case Some(k) =>
      if send && from <= k < |tweets| && IsNew(known, tweets, k) then k else |tweets|
    case None => |tweets|
  }

  function StopAt(known: set<TweetId>, tweets: seq<Tweet>, send: bool, failAt: Option<nat>): nat
  {
    StopFrom(known, tweets, 0, send, failAt)
  }

  predicate Increasing(s: seq<nat>)
  {
    forall a, b :: 0 <= a < b < |s| ==> s[a] < s[b]
  }

  lemma {:induction false} IdsOfExact(tweets: seq<Tweet>, n: nat, x: TweetId)
    requires n <= |tweets|
    ensures x in IdsOf(tweets, n) <==> exists j :: 0 <= j < n && tweets[j].id == x
  {
    if n > 0 {
      IdsOfExact(tweets, n - 1, x);
    }
  }

  lemma IdsOfMember(tweets: seq<Tweet>, n: nat, j: nat)
    requires j < n <= |tweets|
    ensures tweets[j].id in IdsOf(tweets, n)
  {
    IdsOfExact(tweets, n, tweets[j].id);
  }

  /** `r` is what the reference description says of a tick walked on from `from` that stops at `stop`. */
  ghost predicate Describes(known: set<TweetId>, tweets: seq<Tweet>, from: nat, send: bool, stop: nat, r: Tick)
    requires stop <= |tweets|
  {
    && r.known == known + IdsOf(tweets, stop)
    && r.failed == (stop < |tweets|)
    && (forall j: nat :: j in r.delivered <==> from <= j < stop && send && IsNew(known, tweets, j))
    && Increasing(r.delivered)
  }

  /** Unfolding one step of a walk, with the known ids written as those of the reference description. */
  lemma WalkStep(known: set<TweetId>, tweets: seq<Tweet>, from: nat, send: bool, failAt: Option<nat>)
    requires from < |tweets|
    ensures var K := known + IdsOf(tweets, from);
            var sends := send && IsNew(known, tweets, from);
            var rest := Walk(known + IdsOf(tweets, from + 1), tweets, from + 1, send, failAt);
            Walk(K, tweets, from, send, failAt)
            == if sends && failAt == Some(from) then Tick(K, [], true)
               else Tick(rest.known, (if sends then [from] else []) + rest.delivered, rest.failed)
  {
    assert known + IdsOf(tweets, from) + {tweets[from].id} == known + IdsOf(tweets, from + 1);
  }

  /** Where the walk from `from` stops, and what that makes of the recorded ids and the failure flag. */
  lemma {:induction false} WalkFromKnown(known: set<TweetId>, tweets: seq<Tweet>, from: nat, send: bool, failAt: Option<nat>)
    requires from <= |tweets|
    ensures var stop := StopFrom(known, tweets, from, send, failAt);
            var r := Walk(known + IdsOf(tweets, from), tweets, from, send, failAt);
            from <= stop <= |tweets| && r.known == known + IdsOf(tweets, stop) && r.failed == (stop < |tweets|)
    decreases |tweets| - from
  {
    var stop := StopFrom(known, tweets, from, send, failAt);
    if from < |tweets| {
      WalkStep(known, tweets, from, send, failAt);
      if send && IsNew(known, tweets, from) && failAt == Some(from) {
        assert stop == from;
      } else {
        WalkFromKnown(known, tweets, from + 1, send, failAt);
        assert StopFrom(known, tweets, from + 1, send, failAt) == stop;
      }
    }
  }

  /** Which tweets the walk from `from` delivers. */
  lemma {:induction false} WalkFromDelivered(known: set<TweetId>, tweets: seq<Tweet>, from: nat, send: bool, failAt: Option<nat>)
    requires from <= |tweets|
    ensures var stop := StopFrom(known, tweets, from, send, failAt);
            var r := Walk(known + IdsOf(tweets, from), tweets, from, send, failAt);
            forall j: nat :: j in r.delivered <==> from <= j < stop && send && IsNew(known, tweets, j)
    decreases |tweets| - from
  {
    var stop := StopFrom(known, tweets, from, send, failAt);
    if from < |tweets| {
      WalkStep(known, tweets, from, send, failAt);
      var sends := send && IsNew(known, tweets, from);
      if sends && failAt == Some(from) {
        assert stop == from;
      } else {
        WalkFromDelivered(known, tweets, from + 1, send, failAt);
        assert StopFrom(known, tweets, from + 1, send, failAt) == stop;
        assert sends ==> from < stop;
        var rest := Walk(known + IdsOf(tweets, from + 1), tweets, from + 1, send, failAt);
        var r := Walk(known + IdsOf(tweets, from), tweets, from, send, failAt);
        assert r.delivered == (if sends then [from] else []) + rest.delivered;
        forall j: nat
          ensures j in r.delivered <==> from <= j < stop && send && IsNew(known, tweets, j)
        {
          assert j in r.delivered <==> (sends && j == from) || j in rest.delivered;
        }
      }
    }
  }

  /** A walk delivers tweets in the order they arrive. */
  lemma {:induction false} WalkIncreasing(known: set<TweetId>, tweets: seq<Tweet>, from: nat, send: bool, failAt: Option<nat>)
    requires from <= |tweets|
    ensures Increasing(Walk(known, tweets, from, send, failAt).delivered)
    decreases |tweets| - from
  {
    if from < |tweets| {
      WalkIncreasing(known + {tweets[from].id}, tweets, from + 1, send, failAt);
    }
  }

  /** The rest of a tick from `from`, against the reference description. */
  lemma WalkFrom(known: set<TweetId>, tweets: seq<Tweet>, from: nat, send: bool, failAt: Option<nat>)
    requires from <= |tweets|
    ensures from <= StopFrom(known, tweets, from, send, failAt) <= |tweets|
    ensures Describes(known, tweets, from, send, StopFrom(known, tweets, from, send, failAt),
                      Walk(known + IdsOf(tweets, from), tweets, from, send, failAt))
  {
    WalkFromKnown(known, tweets, from, send, failAt);
    WalkFromDelivered(known, tweets, from, send, failAt);
    WalkIncreasing(known + IdsOf(tweets, from), tweets, from, send, failAt);
  }

  /**
   * A tick on a fetched batch, described without stepping through it: it
   * stops at StopAt; it records exactly the ids of the tweets before that
   * point; it fails exactly when it stops early; and it delivers, in arrival
   * order, exactly the new tweets before that point when sending is on.
   */
  lemma PollCharacterized(known: set<TweetId>, tweets: seq<Tweet>, send: bool, failAt: Option<nat>)
    ensures StopAt(known, tweets, send, failAt) <= |tweets|
    ensures Describes(known, tweets, 0, send, StopAt(known, tweets, send, failAt),
                      Poll(known, Fetched(tweets), send, failAt))
  {
    assert known + IdsOf(tweets, 0) == known;
    WalkFrom(known, tweets, 0, send, failAt);
  }

  // ---------------------------------------------------------------------
  // Properties of a tick.

  /** A tweet whose id is known when it is reached is not delivered. */
  lemma KnownTweetNotDelivered(known: set<TweetId>, tweets: seq<Tweet>, send: bool, failAt: Option<nat>, j: nat)
    requires j < |tweets|
    requires tweets[j].id in known + IdsOf(tweets, j)
    ensures j !in Poll(known, Fetched(tweets), send, failAt).delivered
  {
    PollCharacterized(known, tweets, send, failAt);
  }

  /** A tick that catches no exception records the id of every fetched tweet, sending or not. */
  lemma CompletedTickRecordsAll(known: set<TweetId>, tweets: seq<Tweet>, send: bool, failAt: Option<nat>)
    ensures var r := Poll(known, Fetched(tweets), send, failAt);
            !r.failed ==> r.known == known + IdsOf(tweets, |tweets|)
  {
    PollCharacterized(known, tweets, send, failAt);
  }

  /** With sending off nothing is delivered, nothing fails, and every fetched id is recorded. */
  lemma DryRunRecordsAll(known: set<TweetId>, tweets: seq<Tweet>, failAt: Option<nat>)
    ensures var r := Poll(known, Fetched(tweets), false, failAt);
            r.delivered == [] && !r.failed && r.known == known + IdsOf(tweets, |tweets|)
  {
    PollCharacterized(known, tweets, false, failAt);
  }

  /** A walk over tweets whose ids are all known skips every one of them. */
  lemma {:induction false} WalkAllKnown(known: set<TweetId>, tweets: seq<Tweet>, from: nat, send: bool, failAt: Option<nat>)
    requires from <= |tweets|
    requires forall j :: from <= j < |tweets| ==> tweets[j].id in known
    ensures Walk(known, tweets, from, send, failAt) == Tick(known, [], false)
    decreases |tweets| - from
  {
    if from < |tweets| {
      assert known + {tweets[from].id} == known;
      WalkAllKnown(known, tweets, from + 1, send, failAt);
    }
  }

  /** Every tweet of a batch whose ids are all known is skipped, and the tick changes nothing. */
  lemma AllKnownTickIsSilent(known: set<TweetId>, tweets: seq<Tweet>, send: bool, failAt: Option<nat>)
    requires IdsOf(tweets, |tweets|) <= known
    ensures Poll(known, Fetched(tweets), send, failAt) == Tick(known, [], false)
  {
    forall j | 0 <= j < |tweets|
      ensures tweets[j].id in known
    {
      IdsOfMember(tweets, |tweets|, j);
    }
    WalkAllKnown(known, tweets, 0, send, failAt);
  }

  /** Running the same batch again after a completed tick delivers nothing and changes nothing. */
  lemma RepeatedBatchIsIdempotent(known: set<TweetId>, tweets: seq<Tweet>, send: bool, failAt: Option<nat>,
                                  send2: bool, failAt2: Option<nat>)
    requires !Poll(known, Fetched(tweets), send, failAt).failed
    ensures var first := Poll(known, Fetched(tweets), send, failAt);
            Poll(first.known, Fetched(tweets), send2, failAt2) == Tick(first.known, [], false)
  {
    CompletedTickRecordsAll(known, tweets, send, failAt);
    AllKnownTickIsSilent(Poll(known, Fetched(tweets), send, failAt).known, tweets, send2, failAt2);
  }

  /** After a dry run, the same batch with sending on delivers nothing. */
  lemma DryRunThenSendIsSilent(known: set<TweetId>, tweets: seq<Tweet>, failAt: Option<nat>, failAt2: Option<nat>)
    ensures var dry := Poll(known, Fetched(tweets), false, failAt);
            Poll(dry.known, Fetched(tweets), true, failAt2) == Tick(dry.known, [], false)
  {
    DryRunRecordsAll(known, tweets, failAt);
    RepeatedBatchIsIdempotent(known, tweets, false, failAt, true, failAt2);
  }

  /** Two deliveries of one tick never carry the same id, even when the batch repeats an id. */
  lemma DeliveredIdsDistinct(known: set<TweetId>, tweets: seq<Tweet>, send: bool, failAt: Option<nat>, a: nat, b: nat)
    requires var d := Poll(known, Fetched(tweets), send, failAt).delivered;
             a < b < |d|
    ensures var d := Poll(known, Fetched(tweets), send, failAt).delivered;
            d[a] < d[b] && tweets[d[a]].id != tweets[d[b]].id
  {
    var d := Poll(known, Fetched(tweets), send, failAt).delivered;
    PollCharacterized(known, tweets, send, failAt);
    assert d[a] in d && d[b] in d;
    IdsOfMember(tweets, d[b], d[a]);
  }

  /** A later tweet repeating an earlier tweet's id is never delivered. */
  lemma RepeatedIdNotDelivered(known: set<TweetId>, tweets: seq<Tweet>, send: bool, failAt: Option<nat>, i: nat, j: nat)
    requires i < j < |tweets| && tweets[i].id == tweets[j].id
    ensures j !in Poll(known, Fetched(tweets), send, failAt).delivered
  {
    IdsOfMember(tweets, j, i);
    KnownTweetNotDelivered(known, tweets, send, failAt, j);
  }

  /** A failed fetch changes nothing and delivers nothing. */
  lemma FetchFailureChangesNothing(known: set<TweetId>, send: bool, failAt: Option<nat>)
    ensures Poll(known, FetchFailed, send, failAt) == Tick(known, [], true)
  {
  }

  /**
   * When delivering tweet `k` raises: the tick fails exactly when tweet `k`
   * is sent, and then exactly the ids of the tweets before `k` are recorded,
   * tweet `k`'s id is not, and only tweets before `k` were delivered.
   */
  lemma FailedDeliveryRecordsPrefix(known: set<TweetId>, tweets: seq<Tweet>, send: bool, k: nat)
    ensures var r := Poll(known, Fetched(tweets), send, Some(k));
            r.failed <==> send && k < |tweets| && IsNew(known, tweets, k)
    ensures var r := Poll(known, Fetched(tweets), send, Some(k));
            r.failed ==> k < |tweets|
                         && r.known == known + IdsOf(tweets, k)
                         && tweets[k].id !in r.known
                         && forall n :: 0 <= n < |r.delivered| ==> r.delivered[n] < k
  {
    var r := Poll(known, Fetched(tweets), send, Some(k));
    PollCharacterized(known, tweets, send, Some(k));
    if r.failed {
      forall n | 0 <= n < |r.delivered|
        ensures r.delivered[n] < k
      {
        assert r.delivered[n] in r.delivered;
      }
    }
  }

  /** One step of a walk over the tweet at index `from`. */
  lemma WalkUnfold(known: set<TweetId>, tweets: seq<Tweet>, from: nat, send: bool, failAt: Option<nat>)
    requires from < |tweets|
    ensures var sends := tweets[from].id !in known && send;
            var rest := Walk(known + {tweets[from].id}, tweets, from + 1, send, failAt);
            Walk(known, tweets, from, send, failAt)
            == if sends && failAt == Some(from) then Tick(known, [], true)
               else Tick(rest.known, (if sends then [from] else []) + rest.delivered, rest.failed)
  {
  }

  lemma MessagesSnoc(account: string, tweets: seq<Tweet>, delivered: seq<nat>, j: nat)
    requires forall n :: 0 <= n < |delivered| ==> delivered[n] < |tweets|
    requires j < |tweets|
    ensures Messages(account, tweets, delivered + [j])
            == Messages(account, tweets, delivered) + [FormatMessage(account, tweets[j])]
  {
    assert (delivered + [j])[..|delivered|] == delivered;
  }

  /**
   * Two ticks with sending on: the first, from no known ids, delivers tweets
   * 1 and 2; the second, on a batch of tweets 2 and 3, delivers only tweet 3.
   */
  lemma TwoTickScenario(t1: Tweet, t2: Tweet, t3: Tweet)
    requires t1.id == "1" && t2.id == "2" && t3.id == "3"
    ensures var first := Poll({}, Fetched([t1, t2]), true, None);
            var second := Poll(first.known, Fetched([t2, t3]), true, None);
            first == Tick({"1", "2"}, [0, 1], false)
            && second == Tick({"1", "2", "3"}, [1], false)
  {
    var first := Poll({}, Fetched([t1, t2]), true, None);
    assert Walk({"1", "2"}, [t1, t2], 2, true, None) == Tick({"1", "2"}, [], false);
    assert Walk({"1"}, [t1, t2], 1, true, None) == Tick({"1", "2"}, [1], false);
    assert {} + {t1.id} == {"1"};
    assert Walk({}, [t1, t2], 0, true, None) == Tick({"1", "2"}, [0] + [1], false);
    assert Walk({"1", "2", "3"}, [t2, t3], 2, true, None) == Tick({"1", "2", "3"}, [], false);
    assert Walk({"1", "2"}, [t2, t3], 1, true, None) == Tick({"1", "2", "3"}, [1], false);
    assert {"1", "2"} + {t2.id} == {"1", "2"};
  }

  // ---------------------------------------------------------------------
  // The module object.

  class MatrixModule {
    /** Ids of every tweet walked so far; only ever added to. */
    var knownIds: set<TweetId>

    constructor ()
      ensures knownIds == {}
    {
      knownIds := {};
    }

    /**
     * One poll tick for `account`. Returns the messages delivered, in order,
     * and whether an exception was caught (and logged).
     */
    method PollImplementation(fetch: Fetch, account: string, sendMessages: bool, failAt: Option<nat>)
      returns (sent: seq<Message>, failed: bool)
      modifies this
      ensures var r := Poll(old(knownIds), fetch, sendMessages, failAt);
              knownIds == r.known && failed == r.failed
              && sent == Messages(account, Batch(fetch), r.delivered)
      ensures old(knownIds) <= knownIds
      ensures fetch.FetchFailed? ==> knownIds == old(knownIds) && sent == [] && failed
    {
      if fetch.FetchFailed? {
        return [], true;
      }
      var tweets := fetch.tweets;
      ghost var goal := Walk(knownIds, tweets, 0, sendMessages, failAt);
      // `todo` is what the rest of the tick will do from here
      ghost var todo := goal;
      ghost var delivered: seq<nat> := [];
      sent, failed := [], false;
      var i := 0;
      while i < |tweets|
        invariant i <= |tweets|
        invariant forall n :: 0 <= n < |delivered| ==> delivered[n] < i
        invariant sent == Messages(account, tweets, delivered)
        invariant todo == Walk(knownIds, tweets, i, sendMessages, failAt)
        invariant goal == Tick(todo.known, delivered + todo.delivered, todo.failed)
      {
        var tweet := tweets[i];
        WalkUnfold(knownIds, tweets, i, sendMessages, failAt);
        ghost var rest := Walk(knownIds + {tweet.id}, tweets, i + 1, sendMessages, failAt);
        if tweet.id !in knownIds && sendMessages {
          if failAt == Some(i) {
            // the send raises: the exception leaves the loop and is swallowed
            assert todo == Tick(knownIds, [], true);
            assert delivered + [] == delivered;
            failed := true;
            break;
          }
          assert todo.delivered == [i] + rest.delivered;
          assert delivered + ([i] + rest.delivered) == (delivered + [i]) + rest.delivered;
          MessagesSnoc(account, tweets, delivered, i);
          sent := sent + [FormatMessage(account, tweet)];
          delivered := delivered + [i];
        } else {
          assert todo.delivered == rest.delivered;
        }
        knownIds := knownIds + {tweet.id};
        i := i + 1;
        todo := rest;
      }
      assert delivered + [] == delivered;
    }
  }
}
