/** The stand-alone Reddit check `fetch_top_posts`
    (reddit_connection_test.py:39-64): recent hot posts with enough upvotes,
    as flat records. The clock reading `time.time()` is the input `now`; a
    subreddit's hot listing is an abstract sequence of submissions. */
module RedditCheck {
  import opened Seqs
  import opened Wrappers
  import opened Reddit

  /** The keys of config.yml the check reads. */
  datatype Config = Config(subreddits: seq<string>, minUpvotes: Option<int>, maxPostsPerRun: Option<int>)

  /** The dictionary built for each kept submission. */
  datatype PostRecord = PostRecord(title: string, author: string, subreddit: string, score: int, awards: int, url: string)

  /** A submission together with the configured subreddit it was listed under. */
  datatype Entry = Entry(subreddit: string, submission: Submission)

  /** `hot(limit=20)`. */
  const HotLimit: nat := 20

  /** Seven days in seconds. */
  const OneWeek: real := 7.0 * 24.0 * 3600.0

  /** `config.get('min_upvotes', 1000)`. */
  function Threshold(cfg: Config): int {
    cfg.minUpvotes.GetOr(1000)
  }

  /** `config.get('max_posts_per_run', 3)`. */
  function MaxPosts(cfg: Config): int {
    cfg.maxPostsPerRun.GetOr(3)
  }

  /** `str(submission.author)`: a deleted author prints as "None". */
  function AuthorName(author: Option<string>): string {
    match author
    case None => "None"
    case Some(name) => name
  }

  /** The dictionary of one submission. Its URL is on reddit.com, and the
      permalink can be read back from it. */
  function ToRecord(e: Entry): (r: PostRecord)
    ensures |r.url| >= 18 && r.url[..18] == "https://reddit.com" && r.url[18..] == e.submission.permalink
  {
    PostRecord(e.submission.title, AuthorName(e.submission.author), e.subreddit,
               e.submission.score, e.submission.totalAwards, "https://reddit.com" + e.submission.permalink)
  }

  /** Enough upvotes, and created no earlier than one week before `now`. */
  predicate Qualifies(s: Submission, threshold: int, now: real) {
    s.score >= threshold && s.createdUtc >= now - OneWeek
  }

  /** The records of the qualifying entries, in order. */
  function Kept(entries: seq<Entry>, threshold: int, now: real): seq<PostRecord>
    decreases |entries|
  {
    if entries == [] then []
    else
      var last := entries[|entries| - 1];
      Kept(entries[..|entries| - 1], threshold, now) +
        (if Qualifies(last.submission, threshold, now) then [ToRecord(last)] else [])
  }

  /** The first 20 hot submissions of one subreddit, tagged with its name. */
  function HotEntries(subreddit: string, hot: string -> seq<Submission>): seq<Entry> {
    var listing := TakeAtMost(hot(subreddit), HotLimit);
    seq(|listing|, k requires 0 <= k < |listing| => Entry(subreddit, listing[k]))
  }

  /** The hot listing of each configured subreddit, in order. */
  function HotLists(subreddits: seq<string>, hot: string -> seq<Submission>): seq<seq<Entry>> {
    seq(|subreddits|, i requires 0 <= i < |subreddits| => HotEntries(subreddits[i], hot))
  }

  /** Listing `i` tags each of the first 20 hot submissions of subreddit `i`. */
  lemma HotListAt(subreddits: seq<string>, hot: string -> seq<Submission>, i: nat)
    requires i < |subreddits|
    ensures |HotLists(subreddits, hot)| == |subreddits|
    ensures var listing := TakeAtMost(hot(subreddits[i]), HotLimit);
      |HotLists(subreddits, hot)[i]| == |listing| &&
      forall k :: 0 <= k < |listing| ==> HotLists(subreddits, hot)[i][k] == Entry(subreddits[i], listing[k])
  {
  }

  /** Every submission the check may examine, subreddit by subreddit. */
  function HotStream(subreddits: seq<string>, hot: string -> seq<Submission>): seq<Entry> {
    Flatten(HotLists(subreddits, hot))
  }

  /** No proper prefix of `seen` already held `maxPosts` kept records (see
      `BelowBoundMeans`). */
  predicate BelowBound(seen: seq<Entry>, threshold: int, now: real, maxPosts: int)
    decreases |seen|
  {
    seen == [] ||
    (BelowBound(seen[..|seen| - 1], threshold, now, maxPosts) &&
     |Kept(seen[..|seen| - 1], threshold, now)| < maxPosts)
  }

  lemma {:induction false} BelowBoundMeans(seen: seq<Entry>, threshold: int, now: real, maxPosts: int)
    ensures BelowBound(seen, threshold, now, maxPosts) <==>
      forall k :: 0 <= k < |seen| ==> |Kept(seen[..k], threshold, now)| < maxPosts
    decreases |seen|
  {
    if seen != [] {
      var front := seen[..|seen| - 1];
      BelowBoundMeans(front, threshold, now, maxPosts);
      assert forall k :: 0 <= k < |front| ==> front[..k] == seen[..k];
    }
  }

  /** Examining one more entry extends the kept records by its record when
      it qualifies, and keeps the scan below the bound when the records so
      far were. */
  lemma ScanOne(seen: seq<Entry>, e: Entry, threshold: int, now: real, maxPosts: int)
    ensures Kept(seen + [e], threshold, now) ==
      Kept(seen, threshold, now) + if Qualifies(e.submission, threshold, now) then [ToRecord(e)] else []
    ensures BelowBound(seen, threshold, now, maxPosts) && |Kept(seen, threshold, now)| < maxPosts ==>
      BelowBound(seen + [e], threshold, now, maxPosts)
  {
    assert (seen + [e])[..|seen|] == seen;
  }

  /** What a finished scan of `stream` returns: the kept records of the
      examined prefix; with a positive bound, at most `maxPosts` of them, the
      scan stopping at the end of the stream or exactly when the bound is
      reached and not before; with a non-positive bound, at most one
      submission examined. */
  predicate ScanOutcome(stream: seq<Entry>, threshold: int, now: real, maxPosts: int,
                        posts: seq<PostRecord>, examined: nat) {
    examined <= |stream| &&
    posts == Kept(stream[..examined], threshold, now) &&
    (maxPosts >= 1 ==>
       |posts| <= maxPosts &&
       (examined == |stream| || |posts| == maxPosts) &&
       BelowBound(stream[..examined], threshold, now, maxPosts)) &&
    (maxPosts <= 0 ==> examined <= 1)
  }

  /** The inner loop of `fetch_top_posts` over one subreddit's listing
      (reddit_connection_test.py:50-61), continuing from the records
      `posts0` kept from `seen0`. `taken` counts the submissions examined. */
  method ScanListing(subreddit: string, listing: seq<Submission>, ghost entries: seq<Entry>,
                     threshold: int, now: real, maxPosts: int,
                     posts0: seq<PostRecord>, ghost seen0: seq<Entry>)
    returns (posts: seq<PostRecord>, taken: nat)
    requires |entries| == |listing|
    requires forall k :: 0 <= k < |listing| ==> entries[k] == Entry(subreddit, listing[k])
    requires posts0 == Kept(seen0, threshold, now)
    requires maxPosts >= 1 ==> BelowBound(seen0, threshold, now, maxPosts) && |posts0| < maxPosts
    ensures taken <= |listing|
    ensures posts == Kept(seen0 + entries[..taken], threshold, now)
    ensures maxPosts >= 1 ==> BelowBound(seen0 + entries[..taken], threshold, now, maxPosts) && |posts| <= maxPosts
    ensures |posts| < maxPosts ==> taken == |listing|
    ensures maxPosts <= 0 ==> taken == (if listing == [] then 0 else 1)
  {
    posts, taken := posts0, 0;
    assert seen0 + entries[..0] == seen0;
    while taken < |listing|
      invariant taken <= |listing|
      invariant posts == Kept(seen0 + entries[..taken], threshold, now)
      invariant maxPosts >= 1 ==> BelowBound(seen0 + entries[..taken], threshold, now, maxPosts) && |posts| < maxPosts
      invariant maxPosts <= 0 ==> taken == 0
    {
      var submission := listing[taken];
      ghost var seen := seen0 + entries[..taken];
      SnocSlice(seen0, entries, taken);
      ScanOne(seen, entries[taken], threshold, now, maxPosts);
      if Qualifies(submission, threshold, now) {
        posts := posts + [ToRecord(Entry(subreddit, submission))];
      }
      taken := taken + 1;
      if |posts| >= maxPosts {
        return;
      }
    }
  }

  /** The scan before the `i`-th listing: the unscanned part of `stream`
      is the listings from `i` on, `posts` are the kept records of the
      scanned prefix, and the bound has not been reached. */
  predicate ScanAt(stream: seq<Entry>, lists: seq<seq<Entry>>, i: nat, examined: nat, posts: seq<PostRecord>,
                   threshold: int, now: real, maxPosts: int) {
    i <= |lists| && examined <= |stream| && stream[examined..] == Flatten(lists[i..]) &&
    posts == Kept(stream[..examined], threshold, now) &&
    (maxPosts >= 1 ==> BelowBound(stream[..examined], threshold, now, maxPosts) && |posts| < maxPosts) &&
    (maxPosts <= 0 ==> i == 0 && examined == 0)
  }

  lemma ScanAtStart(lists: seq<seq<Entry>>, threshold: int, now: real, maxPosts: int)
    ensures ScanAt(Flatten(lists), lists, 0, 0, [], threshold, now, maxPosts)
  {
    assert lists[0..] == lists;
    assert Flatten(lists)[..0] == [];
  }

  /** Scanning `taken` entries of listing `i` as `ScanListing` does either
      leaves the bound unreached, ready for listing `i + 1`, or reaches it
      and is the outcome of the whole scan. */
  lemma ScanAtNext(stream: seq<Entry>, lists: seq<seq<Entry>>, i: nat, examined: nat, posts: seq<PostRecord>,
                   taken: nat, next: seq<PostRecord>, threshold: int, now: real, maxPosts: int)
    requires ScanAt(stream, lists, i, examined, posts, threshold, now, maxPosts) && i < |lists|
    requires taken <= |lists[i]|
    requires next == Kept(stream[..examined] + lists[i][..taken], threshold, now)
    requires maxPosts >= 1 ==> BelowBound(stream[..examined] + lists[i][..taken], threshold, now, maxPosts) && |next| <= maxPosts
    requires |next| < maxPosts ==> taken == |lists[i]|
    requires maxPosts <= 0 ==> taken <= 1
    ensures |next| < maxPosts ==> ScanAt(stream, lists, i + 1, examined + taken, next, threshold, now, maxPosts)
    ensures |next| >= maxPosts ==> ScanOutcome(stream, threshold, now, maxPosts, next, examined + taken)
  {
    FlattenFrom(lists, i);
    AdvanceSlices(stream, examined, lists[i], Flatten(lists[i + 1..]), taken);
    if taken == |lists[i]| {
      assert lists[i][taken..] == [];
      assert [] + Flatten(lists[i + 1..]) == Flatten(lists[i + 1..]);
    }
  }

  /** With every listing scanned, the kept records of the whole stream are
      the outcome. */
  lemma ScanAtEnd(stream: seq<Entry>, lists: seq<seq<Entry>>, examined: nat, posts: seq<PostRecord>,
                  threshold: int, now: real, maxPosts: int)
    requires ScanAt(stream, lists, |lists|, examined, posts, threshold, now, maxPosts)
    ensures ScanOutcome(stream, threshold, now, maxPosts, posts, examined)
  {
    assert lists[|lists|..] == [];
  }

  /** One pass of the outer loop of `fetch_top_posts`
      (reddit_connection_test.py:49-63): scan subreddit `i` and report
      whether the bound stopped the scan. */
  method ScanSubreddit(subreddits: seq<string>, hot: string -> seq<Submission>, i: nat,
                       threshold: int, now: real, maxPosts: int,
                       ghost lists: seq<seq<Entry>>, ghost stream: seq<Entry>,
                       posts0: seq<PostRecord>, examined0: nat)
    returns (posts: seq<PostRecord>, examined: nat, stop: bool)
    requires i < |subreddits| && |lists| == |subreddits|
    requires var listing := TakeAtMost(hot(subreddits[i]), HotLimit);
      |lists[i]| == |listing| && forall k :: 0 <= k < |listing| ==> lists[i][k] == Entry(subreddits[i], listing[k])
    requires ScanAt(stream, lists, i, examined0, posts0, threshold, now, maxPosts)
    ensures !stop ==> ScanAt(stream, lists, i + 1, examined, posts, threshold, now, maxPosts)
    ensures stop ==> ScanOutcome(stream, threshold, now, maxPosts, posts, examined)
    ensures maxPosts <= 0 ==> stop && examined == (if hot(subreddits[i]) == [] then 0 else 1)
  {
    var listing := TakeAtMost(hot(subreddits[i]), HotLimit);
    var taken;
    posts, taken := ScanListing(subreddits[i], listing, lists[i], threshold, now, maxPosts, posts0, stream[..examined0]);
    ScanAtNext(stream, lists, i, examined0, posts0, taken, posts, threshold, now, maxPosts);
    examined := examined0 + taken;
    stop := |posts| >= maxPosts;
  }

  /** `fetch_top_posts(reddit, config)`. `examined` counts the submissions
      looked at before the scan stopped. */
  method FetchTopPosts(cfg: Config, hot: string -> seq<Submission>, now: real)
    returns (posts: seq<PostRecord>, examined: nat)
    ensures ScanOutcome(HotStream(cfg.subreddits, hot), Threshold(cfg), now, MaxPosts(cfg), posts, examined)
    ensures MaxPosts(cfg) <= 0 ==>
      (examined == 1 <==> cfg.subreddits != [] && hot(cfg.subreddits[0]) != [])
  {
    var subreddits := cfg.subreddits;
    var threshold := Threshold(cfg);
    var maxPosts := MaxPosts(cfg);
    ghost var lists := HotLists(subreddits, hot);
    ghost var stream := HotStream(subreddits, hot);
    posts, examined := [], 0;
    ScanAtStart(lists, threshold, now, maxPosts);
    var i, stop := 0, false;
    while i < |subreddits| && !stop
      invariant i <= |subreddits|
      invariant !stop ==> ScanAt(stream, lists, i, examined, posts, threshold, now, maxPosts)
      invariant stop ==> ScanOutcome(stream, threshold, now, maxPosts, posts, examined)
      invariant maxPosts <= 0 ==> (stop <==> i == 1) && examined == (if i == 1 && hot(subreddits[0]) != [] then 1 else 0)
    {
      HotListAt(subreddits, hot, i);
      posts, examined, stop := ScanSubreddit(subreddits, hot, i, threshold, now, maxPosts, lists, stream, posts, examined);
      i := i + 1;
    }
    if !stop {
      ScanAtEnd(stream, lists, examined, posts, threshold, now, maxPosts);
    }
  }

  // ---------------------------------------------------------------------
  // What the records say
  // ---------------------------------------------------------------------

  /** A record is kept exactly for a qualifying entry, and carries the
      entry's subreddit, score and permalink-based URL. */
  lemma {:induction false} KeptExactly(entries: seq<Entry>, threshold: int, now: real)
    ensures forall r :: r in Kept(entries, threshold, now) ==>
      exists e :: e in entries && Qualifies(e.submission, threshold, now) && r == ToRecord(e)
    ensures forall e :: e in entries && Qualifies(e.submission, threshold, now) ==>
      ToRecord(e) in Kept(entries, threshold, now)
    decreases |entries|
  {
    if entries != [] {
      var front := entries[..|entries| - 1];
      KeptExactly(front, threshold, now);
      assert forall e :: e in entries ==> e in front || e == entries[|entries| - 1];
    }
  }

  /** Every kept record meets the threshold and points at reddit.com. */
  lemma KeptRecordShape(entries: seq<Entry>, threshold: int, now: real)
    ensures forall r :: r in Kept(entries, threshold, now) ==>
      r.score >= threshold && |r.url| >= 18 && r.url[..18] == "https://reddit.com"
  {
    KeptExactly(entries, threshold, now);
  }

  /** Missing keys fall back to 1000 upvotes and 3 posts. */
  lemma ConfigDefaults(subreddits: seq<string>)
    ensures Threshold(Config(subreddits, None, None)) == 1000
    ensures MaxPosts(Config(subreddits, None, None)) == 3
  {
  }
}
