/**
 * One bridge between a Twitter account and a Mastodon account
 * (src/tootbridge/Bridge.py). A synchronisation gathers the tweets newer
 * than the watermark into a FIFO queue, then drains the queue, posting each
 * tweet and advancing the watermark only when the post succeeded.
 *
 * The network is an input: the reply to a fetch of each URL, the probe of
 * every shortlink, and the server's answer to the k-th post of the pass.
 */
module Bridges {
  import opened Wrappers
  import opened Tweets
  import opened TootbridgeUtils

  // ---------------------------------------------------------------------------
  // What the network says

  /** One element of the list the Twitter API returns, its `id_str` already read as an integer. */
  datatype TweetRecord = TweetRecord(fullText: string, extUrlStatus: string, id: int)

  function ToTweet(rec: TweetRecord): (tweet: Tweet) {
    Tweet(rec.fullText, rec.extUrlStatus, rec.id)
  }

  /** The outcome of fetching an account's latest tweets. */
  datatype FetchResponse =
    | FetchRaised                                            // the request itself raised
    | FetchReply(statusCode: int, payload: seq<TweetRecord>)

  /**
   * The outcome of posting one status: a request-level failure, or a reply
   * whose `id` field, stringified, is `statusId` (`None` when reading it
   * from the body raises).
   */
  datatype PostResponse =
    | PostRequestError
    | PostReply(statusCode: int, statusId: Option<string>)

  /** The network as one bridge sees it during a pass. */
  datatype Network = Network(fetch: string -> FetchResponse, probe: string -> LinkProbe, server: nat -> PostResponse)

  /** The request that creates one status on the Mastodon instance. */
  datatype StatusRequest = StatusRequest(url: string, authorization: string, status: string, visibility: string)

  /** The Mastodon side of a bridge. */
  datatype Destination = Destination(instanceUrl: string, apiToken: string) {
    function Request(text: string): (request: StatusRequest) {
      StatusRequest(instanceUrl + "/api/v1/statuses", "Bearer " + apiToken, text, "unlisted")
    }
  }

  // ---------------------------------------------------------------------------
  // Posting one status

  /** What one post attempt means to the relay loop. */
  datatype PostOutcome =
    | Posted(statusId: string)   // the watermark moves to the tweet's id
    | PostFailed                 // a `RequestError`, suppressed: the tweet is dropped
    | PostCrashed                // any other exception: it escapes the relay loop

  /**
   * `_post_status` together with the `suppress(httpx.RequestError)` around it:
   * an error status is raised as a `RequestError`, so it fails like a
   * transport error; a successful reply whose `id` cannot be read raises
   * something else, which nothing catches.
   */
  function PostStatus(response: PostResponse): (o: PostOutcome)
    ensures o.PostFailed? <==> response.PostRequestError? || IsErrorStatus(response.statusCode)
    ensures o.Posted? <==> response.PostReply? && !IsErrorStatus(response.statusCode) && response.statusId.Some?
    ensures o.Posted? ==> o.statusId == response.statusId.value
  {
    match response
    case PostRequestError => PostFailed
    case PostReply(statusCode, statusId) =>
      if IsErrorStatus(statusCode) then PostFailed
      else match statusId
        case Some(id) => Posted(id)
        case None => PostCrashed
  }

  // ---------------------------------------------------------------------------
  // Gathering: what goes into the queue

  /**
   * The tweets gather enqueues from `records`: the list walked from its end,
   * keeping only the records whose id is strictly above `watermark`.
   */
  function NewTweets(records: seq<TweetRecord>, watermark: int): (tweets: seq<Tweet>)
    decreases |records|
  {
    if records == [] then []
    else NewTweets(records[1..], watermark) + (if records[0].id > watermark then [ToTweet(records[0])] else [])
  }

  /** The queue gather leaves behind, given what it found in it. */
  function Gathered(queue: seq<Tweet>, response: FetchResponse, watermark: int): (gathered: seq<Tweet>) {
    if response.FetchReply? && !IsErrorStatus(response.statusCode) then queue + NewTweets(response.payload, watermark)
    else queue
  }

  /** Reference definitions: reverse a list, and keep the tweets above a watermark in order. */
  function Reversed<T>(s: seq<T>): (r: seq<T>)
    decreases |s|
  {
    if s == [] then [] else Reversed(s[1..]) + [s[0]]
  }

  function KeepAbove(tweets: seq<Tweet>, watermark: int): (kept: seq<Tweet>)
    decreases |tweets|
  {
    if tweets == [] then []
    else (if tweets[0].tweetId > watermark then [tweets[0]] else []) + KeepAbove(tweets[1..], watermark)
  }

  function ToTweets(records: seq<TweetRecord>): (tweets: seq<Tweet>)
    ensures |tweets| == |records|
    ensures forall k :: 0 <= k < |records| ==> tweets[k] == ToTweet(records[k])
  {
    seq(|records|, k requires 0 <= k < |records| => ToTweet(records[k]))
  }

  lemma {:induction false} KeepAboveAppend(a: seq<Tweet>, b: seq<Tweet>, watermark: int)
    ensures KeepAbove(a + b, watermark) == KeepAbove(a, watermark) + KeepAbove(b, watermark)
    decreases |a|
  {
    if a == [] {
      assert a + b == b;
    } else {
      assert (a + b)[0] == a[0] && (a + b)[1..] == a[1..] + b;
      KeepAboveAppend(a[1..], b, watermark);
    }
  }

  /** Gather enqueues the fetched tweets in reverse order, filtered by the strict watermark test. */
  lemma {:induction false} NewTweetsReverseFilter(records: seq<TweetRecord>, watermark: int)
    ensures NewTweets(records, watermark) == KeepAbove(Reversed(ToTweets(records)), watermark)
    decreases |records|
  {
    if records != [] {
      NewTweetsReverseFilter(records[1..], watermark);
      assert ToTweets(records)[1..] == ToTweets(records[1..]);
      KeepAboveAppend(Reversed(ToTweets(records[1..])), [ToTweet(records[0])], watermark);
    }
  }

  /**
   * A tweet is enqueued exactly when some fetched record carries it with an
   * id strictly above the watermark; a record at the watermark is left out.
   */
  lemma {:induction false} NewTweetsMembers(records: seq<TweetRecord>, watermark: int, t: Tweet)
    ensures t in NewTweets(records, watermark) <==>
            exists j :: 0 <= j < |records| && ToTweet(records[j]) == t && records[j].id > watermark
    decreases |records|
  {
    if records != [] {
      NewTweetsMembers(records[1..], watermark, t);
      if exists j :: 0 <= j < |records| && ToTweet(records[j]) == t && records[j].id > watermark {
        var j :| 0 <= j < |records| && ToTweet(records[j]) == t && records[j].id > watermark;
        if j > 0 {
          assert records[1..][j - 1] == records[j];
        }
      }
    }
  }

  /** Everything gather enqueues lies strictly above the watermark. */
  lemma NewTweetsAboveWatermark(records: seq<TweetRecord>, watermark: int)
    ensures forall k :: 0 <= k < |NewTweets(records, watermark)| ==> NewTweets(records, watermark)[k].tweetId > watermark
  {
    forall k | 0 <= k < |NewTweets(records, watermark)|
      ensures NewTweets(records, watermark)[k].tweetId > watermark
    {
      NewTweetsMembers(records, watermark, NewTweets(records, watermark)[k]);
    }
  }

  predicate StrictlyDescending(records: seq<TweetRecord>) {
    forall j, k :: 0 <= j < k < |records| ==> records[j].id > records[k].id
  }

  predicate StrictlyAscending(tweets: seq<Tweet>) {
    forall j, k :: 0 <= j < k < |tweets| ==> tweets[j].tweetId < tweets[k].tweetId
  }

  /** A newest-first (descending) response yields a queue in ascending id order. */
  lemma {:induction false} NewTweetsAscending(records: seq<TweetRecord>, watermark: int)
    requires StrictlyDescending(records)
    ensures StrictlyAscending(NewTweets(records, watermark))
    decreases |records|
  {
    if records != [] {
      var rest := NewTweets(records[1..], watermark);
      NewTweetsAscending(records[1..], watermark);
      forall k | 0 <= k < |rest| ensures rest[k].tweetId < records[0].id {
        NewTweetsMembers(records[1..], watermark, rest[k]);
      }
    }
  }

  // ---------------------------------------------------------------------------
  // Relaying: draining the queue

  /** The state a relay leaves, and the requests it sent in order. */
  datatype RelayResult = RelayResult(watermark: int, remaining: seq<Tweet>, sent: seq<StatusRequest>, crashed: bool)

  /**
   * The relay from the `i`-th queued tweet on, given the status text
   * prepared for each tweet: each text is posted and gets the `i`-th answer
   * of the server; a success moves the
   * watermark to the tweet's id, a failure drops the tweet, a crash stops
   * the loop with the rest of the queue still in place.
   */
  function RelayFrom(queue: seq<Tweet>, texts: seq<string>, i: nat, watermark: int, dest: Destination, net: Network): (r: RelayResult)
    requires |texts| == |queue| && i <= |queue|
    ensures |r.sent| <= |queue| - i
    decreases |queue| - i
  {
    if i == |queue| then RelayResult(watermark, [], [], false)
    else
      var request := dest.Request(texts[i]);
      match PostStatus(net.server(i))
      case PostCrashed => RelayResult(watermark, queue[i + 1..], [request], true)
      case PostFailed =>
        var r := RelayFrom(queue, texts, i + 1, watermark, dest, net);
        r.(sent := [request] + r.sent)
      case Posted(_) =>
        var r := RelayFrom(queue, texts, i + 1, queue[i].tweetId, dest, net);
        r.(sent := [request] + r.sent)
  }

  /** The status text of every queued tweet. */
  function Prepared(queue: seq<Tweet>, probe: string -> LinkProbe): (texts: seq<string>)
    ensures |texts| == |queue|
  {
    seq(|queue|, k requires 0 <= k < |queue| => PrepareText(queue[k], probe))
  }

  /** `_relay_new_tweets` on a whole queue. */
  function Relay(queue: seq<Tweet>, watermark: int, dest: Destination, net: Network): (r: RelayResult) {
    RelayFrom(queue, Prepared(queue, net.probe), 0, watermark, dest, net)
  }

  /** A loop round that does not crash: the request joins the ones sent and the rest of the queue follows. */
  lemma RelayContinues(queue: seq<Tweet>, texts: seq<string>, i: nat, watermark: int, dest: Destination, net: Network,
                       sent: seq<StatusRequest>, goal: RelayResult)
    requires |texts| == |queue| && i < |queue| && !CrashedAt(net, i)
    requires var r := RelayFrom(queue, texts, i, watermark, dest, net); r.(sent := sent + r.sent) == goal
    ensures var r := RelayFrom(queue, texts, i + 1, if PostedAt(net, i) then queue[i].tweetId else watermark, dest, net);
            r.(sent := (sent + [dest.Request(texts[i])]) + r.sent) == goal
  {
    var r := RelayFrom(queue, texts, i + 1, if PostedAt(net, i) then queue[i].tweetId else watermark, dest, net);
    assert sent + ([dest.Request(texts[i])] + r.sent) == (sent + [dest.Request(texts[i])]) + r.sent;
  }

  /** A loop round that crashes ends the relay with the rest of the queue in place. */
  lemma RelayCrashes(queue: seq<Tweet>, texts: seq<string>, i: nat, watermark: int, dest: Destination, net: Network,
                     sent: seq<StatusRequest>, goal: RelayResult)
    requires |texts| == |queue| && i < |queue| && CrashedAt(net, i)
    requires var r := RelayFrom(queue, texts, i, watermark, dest, net); r.(sent := sent + r.sent) == goal
    ensures goal == RelayResult(watermark, queue[i + 1..], sent + [dest.Request(texts[i])], true)
  {
  }

  predicate PostedAt(net: Network, k: nat) {
    PostStatus(net.server(k)).Posted?
  }

  predicate CrashedAt(net: Network, k: nat) {
    PostStatus(net.server(k)).PostCrashed?
  }

  /** The relay from `i` sends one request per tweet it takes, in FIFO order. */
  lemma {:induction false} RelayFromSent(queue: seq<Tweet>, texts: seq<string>, i: nat, watermark: int, dest: Destination, net: Network)
    requires |texts| == |queue| && i <= |queue|
    ensures var r := RelayFrom(queue, texts, i, watermark, dest, net);
            forall k :: i <= k < i + |r.sent| ==> r.sent[k - i] == dest.Request(texts[k])
    decreases |queue| - i
  {
    if i < |queue| && !CrashedAt(net, i) {
      var w := if PostedAt(net, i) then queue[i].tweetId else watermark;
      RelayFromSent(queue, texts, i + 1, w, dest, net);
      var rest := RelayFrom(queue, texts, i + 1, w, dest, net);
      var r := RelayFrom(queue, texts, i, watermark, dest, net);
      assert r.sent == [dest.Request(texts[i])] + rest.sent;
      forall k | i < k < i + |r.sent| ensures r.sent[k - i] == dest.Request(texts[k]) {
        assert r.sent[k - i] == rest.sent[k - (i + 1)];
      }
    }
  }

  /**
   * The relay from `i` stops at the first crash and nowhere else: without a
   * crash it takes every tweet and leaves the queue empty.
   */
  lemma {:induction false} RelayFromStops(queue: seq<Tweet>, texts: seq<string>, i: nat, watermark: int, dest: Destination, net: Network)
    requires |texts| == |queue| && i <= |queue|
    ensures var r := RelayFrom(queue, texts, i, watermark, dest, net);
            && (forall k :: i <= k < i + |r.sent| - 1 ==> !CrashedAt(net, k))
            && (r.crashed <==> |r.sent| > 0 && CrashedAt(net, i + |r.sent| - 1))
            && (!r.crashed ==> |r.sent| == |queue| - i && r.remaining == [])
            && (r.crashed ==> r.remaining == queue[i + |r.sent|..])
    decreases |queue| - i
  {
    if i < |queue| && !CrashedAt(net, i) {
      var w := if PostedAt(net, i) then queue[i].tweetId else watermark;
      RelayFromStops(queue, texts, i + 1, w, dest, net);
    }
  }

  /** Relay posts the queued tweets in FIFO order, each with its prepared status text. */
  lemma RelaySendsInOrder(queue: seq<Tweet>, watermark: int, dest: Destination, net: Network)
    ensures var r := Relay(queue, watermark, dest, net);
            forall k :: 0 <= k < |r.sent| ==> r.sent[k] == dest.Request(PrepareText(queue[k], net.probe))
  {
    var texts := Prepared(queue, net.probe);
    var r := RelayFrom(queue, texts, 0, watermark, dest, net);
    assert Relay(queue, watermark, dest, net) == r;
    RelayFromSent(queue, texts, 0, watermark, dest, net);
    forall k | 0 <= k < |r.sent| ensures r.sent[k] == dest.Request(PrepareText(queue[k], net.probe)) {
      assert r.sent[k - 0] == dest.Request(texts[k]);
      assert texts[k] == PrepareText(queue[k], net.probe);
    }
  }

  /**
   * Unless a post crashed, relay ends with an empty queue after one post per
   * tweet. It crashes exactly when some post crashed, and then stops at the
   * first one, leaving the tweets after it queued.
   */
  lemma {:induction false} RelayDrainsUnlessCrashed(queue: seq<Tweet>, watermark: int, dest: Destination, net: Network)
    ensures StopsAtFirstCrash(queue, Relay(queue, watermark, dest, net), net)
  {
    var texts := Prepared(queue, net.probe);
    var r := RelayFrom(queue, texts, 0, watermark, dest, net);
    RelayFromStops(queue, texts, 0, watermark, dest, net);
    CrashesIffStops(queue, r, net);
  }

  /**
   * A relay result that crashes exactly when some post of the queue crashes;
   * without a crash it posted every tweet and left the queue empty; with one
   * it stopped at the first crashing post and left the tweets after it queued.
   */
  predicate StopsAtFirstCrash(queue: seq<Tweet>, r: RelayResult, net: Network) {
    && (r.crashed <==> exists k :: 0 <= k < |queue| && CrashedAt(net, k))
    && (!r.crashed ==> |r.sent| == |queue| && r.remaining == [])
    && (r.crashed ==> 0 < |r.sent| <= |queue| && CrashedAt(net, |r.sent| - 1) && r.remaining == queue[|r.sent|..]
                      && forall k :: 0 <= k < |r.sent| - 1 ==> !CrashedAt(net, k))
  }

  lemma {:induction false} CrashesIffStops(queue: seq<Tweet>, r: RelayResult, net: Network)
    requires |r.sent| <= |queue|
    requires forall k :: 0 <= k < |r.sent| - 1 ==> !CrashedAt(net, k)
    requires r.crashed <==> |r.sent| > 0 && CrashedAt(net, |r.sent| - 1)
    requires !r.crashed ==> |r.sent| == |queue| && r.remaining == []
    requires r.crashed ==> r.remaining == queue[|r.sent|..]
    ensures StopsAtFirstCrash(queue, r, net)
  {
    if r.crashed {
      assert 0 <= |r.sent| - 1 < |queue| && CrashedAt(net, |r.sent| - 1);
    } else {
      forall k | 0 <= k < |queue| ensures !CrashedAt(net, k) {
        if k == |r.sent| - 1 {
        }
      }
    }
  }

  /**
   * The watermark the relay from `i` leaves is the id of the last tweet
   * whose post succeeded, or the watermark it started with when none did.
   */
  lemma {:induction false} RelayFromWatermark(queue: seq<Tweet>, texts: seq<string>, i: nat, watermark: int, dest: Destination, net: Network)
    requires |texts| == |queue| && i <= |queue|
    ensures var r := RelayFrom(queue, texts, i, watermark, dest, net);
            && i + |r.sent| <= |queue|
            && ((forall k :: i <= k < i + |r.sent| ==> !PostedAt(net, k)) ==> r.watermark == watermark)
            && (forall j :: i <= j < i + |r.sent| && PostedAt(net, j)
                            && (forall k :: j < k < i + |r.sent| ==> !PostedAt(net, k))
                            ==> r.watermark == queue[j].tweetId)
    decreases |queue| - i
  {
    if i < |queue| && !CrashedAt(net, i) {
      var w := if PostedAt(net, i) then queue[i].tweetId else watermark;
      RelayFromWatermark(queue, texts, i + 1, w, dest, net);
    }
  }

  /**
   * After relay the watermark is the id of the last successfully posted
   * tweet, or the old watermark if no post succeeded.
   */
  lemma RelayWatermark(queue: seq<Tweet>, watermark: int, dest: Destination, net: Network)
    ensures var r := Relay(queue, watermark, dest, net);
            && ((forall k :: 0 <= k < |r.sent| ==> !PostedAt(net, k)) ==> r.watermark == watermark)
            && (forall j :: 0 <= j < |r.sent| && PostedAt(net, j) && (forall k :: j < k < |r.sent| ==> !PostedAt(net, k))
                            ==> r.watermark == queue[j].tweetId)
  {
    RelayFromWatermark(queue, Prepared(queue, net.probe), 0, watermark, dest, net);
  }

  /** The watermark only ever takes the id of a queued tweet that was posted, or keeps its value. */
  lemma {:induction false} RelayFromWatermarkSource(queue: seq<Tweet>, texts: seq<string>, i: nat, watermark: int, dest: Destination, net: Network)
    requires |texts| == |queue| && i <= |queue|
    ensures var r := RelayFrom(queue, texts, i, watermark, dest, net);
            r.watermark == watermark || exists j :: i <= j < |queue| && PostedAt(net, j) && r.watermark == queue[j].tweetId
    decreases |queue| - i
  {
    if i < |queue| && !CrashedAt(net, i) {
      var w := if PostedAt(net, i) then queue[i].tweetId else watermark;
      RelayFromWatermarkSource(queue, texts, i + 1, w, dest, net);
    }
  }

  /**
   * When every queued id lies above the old watermark (as gather ensures),
   * relay never lowers the watermark.
   */
  lemma RelayNeverLowersWatermark(queue: seq<Tweet>, watermark: int, dest: Destination, net: Network)
    requires forall k :: 0 <= k < |queue| ==> queue[k].tweetId > watermark
    ensures Relay(queue, watermark, dest, net).watermark >= watermark
  {
    RelayFromWatermarkSource(queue, Prepared(queue, net.probe), 0, watermark, dest, net);
  }

  /** A pass that starts with an empty queue never lowers the watermark. */
  lemma PassKeepsWatermarkMonotone(records: seq<TweetRecord>, watermark: int, dest: Destination, net: Network)
    ensures Relay(NewTweets(records, watermark), watermark, dest, net).watermark >= watermark
  {
    NewTweetsAboveWatermark(records, watermark);
    RelayNeverLowersWatermark(NewTweets(records, watermark), watermark, dest, net);
  }

  /** With an ascending queue, the final watermark is the largest id among the tweets posted. */
  lemma RelayWatermarkIsHighestPosted(queue: seq<Tweet>, watermark: int, dest: Destination, net: Network)
    requires StrictlyAscending(queue)
    ensures var r := Relay(queue, watermark, dest, net);
            forall j :: 0 <= j < |r.sent| && PostedAt(net, j) ==> r.watermark >= queue[j].tweetId
  {
    var r := Relay(queue, watermark, dest, net);
    RelayWatermark(queue, watermark, dest, net);
    forall j | 0 <= j < |r.sent| && PostedAt(net, j) ensures r.watermark >= queue[j].tweetId {
      var last := LastPosted(net, j, |r.sent|);
      assert r.watermark == queue[last].tweetId;
    }
  }

  /** The last index below `n`, at or after `j`, whose post succeeded. */
  function LastPosted(net: Network, j: nat, n: nat): (last: nat)
    requires j < n && PostedAt(net, j)
    ensures j <= last < n && PostedAt(net, last)
    ensures forall k :: last < k < n ==> !PostedAt(net, k)
    decreases n - j
  {
    if n - 1 == j || PostedAt(net, n - 1) then n - 1 else LastPosted(net, j, n - 1)
  }

  // ---------------------------------------------------------------------------
  // The bridge

  class Bridge {
    var mastodonInstanceUrl: string
    var mastodonApiToken: string
    var twitterAccUsername: string
    var lastRelayedTweetId: int
    var twitterApiUrl: string
    var pendingTweets: seq<Tweet>

    /** The dataclass constructor: the fields as given, and an empty queue. */
    constructor (mastodonInstanceUrl: string, mastodonApiToken: string, twitterAccUsername: string,
                 lastRelayedTweetId: int, twitterApiUrl: string)
      ensures this.mastodonInstanceUrl == mastodonInstanceUrl
      ensures this.mastodonApiToken == mastodonApiToken
      ensures this.twitterAccUsername == twitterAccUsername
      ensures this.lastRelayedTweetId == lastRelayedTweetId
      ensures this.twitterApiUrl == twitterApiUrl
      ensures pendingTweets == []
    {
      this.mastodonInstanceUrl := mastodonInstanceUrl;
      this.mastodonApiToken := mastodonApiToken;
      this.twitterAccUsername := twitterAccUsername;
      this.lastRelayedTweetId := lastRelayedTweetId;
      this.twitterApiUrl := twitterApiUrl;
      pendingTweets := [];
    }

    /** The URL gather fetches: the account's page of the Twitter API. */
    function FeedUrl(): (url: string)
      reads this
    {
      twitterApiUrl + "/" + twitterAccUsername
    }

    function Target(): (dest: Destination)
      reads this
    {
      Destination.Destination(mastodonInstanceUrl, mastodonApiToken)
    }

    /**
     * `_gather_new_tweets`: fetch `FeedUrl()`. An error status enqueues
     * nothing; a failed request raises. The watermark is not touched, and
     * the count is the number of tweets enqueued.
     */
    method GatherNewTweets(net: Network) returns (newTweetsCnt: nat, raised: bool)
      modifies this`pendingTweets
      ensures raised <==> net.fetch(FeedUrl()).FetchRaised?
      ensures pendingTweets == Gathered(old(pendingTweets), net.fetch(FeedUrl()), lastRelayedTweetId)
      ensures newTweetsCnt == |pendingTweets| - |old(pendingTweets)|
    {
      newTweetsCnt := 0;
      var response := net.fetch(FeedUrl());
      match response
      case FetchRaised =>
        raised := true;
      case FetchReply(statusCode, payload) =>
        raised := false;
        if IsErrorStatus(statusCode) {
          return;
        }
        var i := |payload|;
        while i > 0
          invariant 0 <= i <= |payload|
          invariant pendingTweets == old(pendingTweets) + NewTweets(payload[i..], lastRelayedTweetId)
          invariant newTweetsCnt == |NewTweets(payload[i..], lastRelayedTweetId)|
        {
          i := i - 1;
          var tweetData := payload[i];
          var tweet := Tweet(tweetData.fullText, tweetData.extUrlStatus, tweetData.id);
          assert payload[i..][1..] == payload[i + 1..];
          if tweet.tweetId <= lastRelayedTweetId {
            continue;
          }
          pendingTweets := pendingTweets + [tweet];
          newTweetsCnt := newTweetsCnt + 1;
        }
        assert payload[0..] == payload;
    }

    /**
     * One round of the relay loop: dequeue the first tweet, prepare it, post
     * it with the server's `attempt`-th answer, and move the watermark to the
     * tweet's id when the post succeeded.
     */
    method RelayNextTweet(net: Network, attempt: nat) returns (request: StatusRequest, outcome: PostOutcome)
      requires pendingTweets != []
      modifies this`pendingTweets, this`lastRelayedTweetId
      ensures pendingTweets == old(pendingTweets)[1..]
      ensures request == Target().Request(PrepareText(old(pendingTweets)[0], net.probe))
      ensures outcome == PostStatus(net.server(attempt))
      ensures lastRelayedTweetId == if outcome.Posted? then old(pendingTweets)[0].tweetId else old(lastRelayedTweetId)
    {
      var tweet := pendingTweets[0];
      pendingTweets := pendingTweets[1..];
      var statusText := PrepareStatusText(tweet, net.probe);
      request := Target().Request(statusText);
      outcome := PostStatus(net.server(attempt));
      if outcome.Posted? {
        lastRelayedTweetId := tweet.tweetId;
      }
    }

    /**
     * `_relay_new_tweets`: dequeue in FIFO order, prepare, post; a successful
     * post moves the watermark to that tweet's id, a failed one is dropped.
     * The requests sent and the state left are those of `Relay`.
     */
    method RelayNewTweets(net: Network) returns (sent: seq<StatusRequest>, crashed: bool)
      modifies this`pendingTweets, this`lastRelayedTweetId
      ensures var r := Relay(old(pendingTweets), old(lastRelayedTweetId), Target(), net);
              && lastRelayedTweetId == r.watermark && pendingTweets == r.remaining
              && sent == r.sent && crashed == r.crashed
    {
      var dest := Target();
      ghost var queue := pendingTweets;
      ghost var texts := Prepared(queue, net.probe);
      ghost var goal := Relay(queue, lastRelayedTweetId, dest, net);
      var attempt := 0;
      sent, crashed := [], false;
      while pendingTweets != []
        invariant 0 <= attempt <= |queue| && pendingTweets == queue[attempt..]
        invariant var r := RelayFrom(queue, texts, attempt, lastRelayedTweetId, dest, net);
                  r.(sent := sent + r.sent) == goal
        decreases |pendingTweets|
      {
        assert queue[attempt..][1..] == queue[attempt + 1..];
        ghost var watermark := lastRelayedTweetId;
        var request, outcome := RelayNextTweet(net, attempt);
        assert request == dest.Request(texts[attempt]);
        if outcome.PostCrashed? {
          RelayCrashes(queue, texts, attempt, watermark, dest, net, sent, goal);
          sent, crashed := sent + [request], true;
          return;
        }
        RelayContinues(queue, texts, attempt, watermark, dest, net, sent, goal);
        sent := sent + [request];
        attempt := attempt + 1;
      }
    }

    /**
     * `synchronize_accounts`: gather, then relay. The accounts and endpoints
     * of the bridge are never modified; a fetch that raised ends the pass
     * before anything is posted.
     */
    method SynchronizeAccounts(net: Network) returns (sent: seq<StatusRequest>, raised: bool)
      modifies this`pendingTweets, this`lastRelayedTweetId
      ensures mastodonInstanceUrl == old(mastodonInstanceUrl) && mastodonApiToken == old(mastodonApiToken)
      ensures twitterAccUsername == old(twitterAccUsername) && twitterApiUrl == old(twitterApiUrl)
      ensures var fetched := net.fetch(FeedUrl());
              fetched.FetchRaised? ==> raised && sent == [] && pendingTweets == old(pendingTweets)
                                       && lastRelayedTweetId == old(lastRelayedTweetId)
      ensures var fetched := net.fetch(FeedUrl());
              !fetched.FetchRaised? ==>
                var r := Relay(Gathered(old(pendingTweets), fetched, old(lastRelayedTweetId)), old(lastRelayedTweetId), Target(), net);
                && lastRelayedTweetId == r.watermark && pendingTweets == r.remaining
                && sent == r.sent && raised == r.crashed
    {
      var newTweetsCnt;
      newTweetsCnt, raised := GatherNewTweets(net);
      if raised {
        sent := [];
        return;
      }
      sent, raised := RelayNewTweets(net);
    }
  }

  // ---------------------------------------------------------------------------
  // Scenarios

  /**
   * Watermark 100 and a newest-first fetch of ids 102, 101, 99, 98: tweets
   * 101 and 102 are queued, in that order; if the post of 101 fails with a
   * server error and that of 102 succeeds, the watermark ends at 102, and a
   * later pass over the same fetch queues nothing, so 101 is never posted again.
   */
  lemma FailedPostIsSkipped(dest: Destination, net: Network)
    requires net.server(0) == PostReply(500, None) && net.server(1) == PostReply(200, Some("7"))
    ensures var records := [TweetRecord("d", "u4", 102), TweetRecord("c", "u3", 101),
                            TweetRecord("b", "u2", 99), TweetRecord("a", "u1", 98)];
            var queue := NewTweets(records, 100);
            && queue == [Tweet("c", "u3", 101), Tweet("d", "u4", 102)]
            && Relay(queue, 100, dest, net).watermark == 102
            && Relay(queue, 100, dest, net).remaining == []
            && NewTweets(records, 102) == []
  {
    var records := [TweetRecord("d", "u4", 102), TweetRecord("c", "u3", 101),
                    TweetRecord("b", "u2", 99), TweetRecord("a", "u1", 98)];
    assert records[1..][1..][1..][1..] == [];
    var queue := NewTweets(records, 100);
    assert queue == [Tweet("c", "u3", 101), Tweet("d", "u4", 102)];
    assert PostStatus(net.server(0)) == PostFailed;
    assert PostStatus(net.server(1)) == Posted("7");
    var last := RelayFrom(queue, Prepared(queue, net.probe), 2, 102, dest, net);
    assert last.watermark == 102 && last.remaining == [];
    var second := RelayFrom(queue, Prepared(queue, net.probe), 1, 100, dest, net);
    assert second.watermark == last.watermark && second.remaining == last.remaining;
  }
}
