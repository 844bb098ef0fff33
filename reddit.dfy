/** Post selection in main.py: `get_reddit_posts` (main.py:48-56). A
    subreddit's listing is an abstract sequence of submissions. */
module Reddit {
  import opened Seqs
  import opened Wrappers

  /** The fields of a PRAW submission the pipeline reads. */
  datatype Submission = Submission(
    id: string, title: string, selftext: string, score: int, stickied: bool,
    createdUtc: real, author: Option<string>, permalink: string, totalAwards: int)

  predicate Eligible(s: Submission, minUpvotes: int) {
    s.score >= minUpvotes && !s.stickied
  }

  /** The eligible submissions of `subs`, in order. */
  function EligibleOf(subs: seq<Submission>, minUpvotes: int): seq<Submission>
    decreases |subs|
  {
    if subs == [] then []
    else
      var last := subs[|subs| - 1];
      EligibleOf(subs[..|subs| - 1], minUpvotes) + (if Eligible(last, minUpvotes) then [last] else [])
  }

  lemma {:induction false} EligibleOfAppend(a: seq<Submission>, b: seq<Submission>, minUpvotes: int)
    ensures EligibleOf(a + b, minUpvotes) == EligibleOf(a, minUpvotes) + EligibleOf(b, minUpvotes)
    decreases |b|
  {
    if b == [] {
      assert a + b == a;
    } else {
      var n := |b| - 1;
      assert (a + b)[..|a + b| - 1] == a + b[..n];
      EligibleOfAppend(a, b[..n], minUpvotes);
    }
  }

  /** Once the kept prefix reaches the bound, the rest of the stream no
      longer matters. */
  lemma StopAfter(scanned: seq<Submission>, unscanned: seq<Submission>, minUpvotes: int, maxPosts: int)
    requires |EligibleOf(scanned, minUpvotes)| == maxPosts
    ensures TakeAtMost(EligibleOf(scanned + unscanned, minUpvotes), maxPosts) == EligibleOf(scanned, minUpvotes)
  {
    EligibleOfAppend(scanned, unscanned, minUpvotes);
    var kept := EligibleOf(scanned, minUpvotes);
    assert (kept + EligibleOf(unscanned, minUpvotes))[..maxPosts] == kept;
  }

  /** Moving the next submission of a listing from the unscanned to the
      scanned part keeps the stream, and adds it to the eligible ones exactly
      when it is eligible. */
  lemma ScanStep(seen: seq<Submission>, listing: seq<Submission>, j: nat, tail: seq<Submission>, minUpvotes: int)
    requires j < |listing|
    ensures listing[j..] + tail == [listing[j]] + (listing[j + 1..] + tail)
    ensures seen + (listing[j..] + tail) == (seen + [listing[j]]) + (listing[j + 1..] + tail)
    ensures EligibleOf(seen + [listing[j]], minUpvotes)
      == EligibleOf(seen, minUpvotes) + (if Eligible(listing[j], minUpvotes) then [listing[j]] else [])
  {
    assert listing[j..] == [listing[j]] + listing[j + 1..];
    AppendAssoc([listing[j]], listing[j + 1..], tail);
    AppendAssoc(seen, [listing[j]], listing[j + 1..] + tail);
    assert (seen + [listing[j]])[..|seen|] == seen;
  }

  /** The submissions the loop can examine: for each subreddit in order, the
      first `3 * max_posts` of its weekly top listing. */
  function TopStream(subreddits: seq<string>, top: string -> seq<Submission>, maxPosts: int): seq<Submission> {
    Flatten(seq(|subreddits|, i requires 0 <= i < |subreddits| => TakeAtMost(top(subreddits[i]), 3 * maxPosts)))
  }

  /** `get_reddit_posts(reddit, subs, max_posts, min_upvotes)`: scan the
      listings in order, keep non-stickied submissions with enough upvotes,
      and return as soon as `max_posts` are kept. */
  method GetRedditPosts(subreddits: seq<string>, top: string -> seq<Submission>, maxPosts: int, minUpvotes: int)
    returns (posts: seq<Submission>)
    ensures posts == TakeAtMost(EligibleOf(TopStream(subreddits, top, maxPosts), minUpvotes), maxPosts)
  {
    ghost var lists := seq(|subreddits|, i requires 0 <= i < |subreddits| => TakeAtMost(top(subreddits[i]), 3 * maxPosts));
    ghost var stream := TopStream(subreddits, top, maxPosts);
    posts := [];
    ghost var seen: seq<Submission> := [];
    ghost var rest: seq<Submission> := stream;
    assert lists[0..] == lists;
    for i := 0 to |subreddits|
      invariant stream == seen + rest
      invariant rest == Flatten(lists[i..])
      invariant posts == EligibleOf(seen, minUpvotes)
      invariant maxPosts >= 1 ==> |posts| < maxPosts
      invariant maxPosts <= 0 ==> posts == []
    {
      var listing := TakeAtMost(top(subreddits[i]), 3 * maxPosts);
      assert lists[i..][0] == listing && lists[i..][1..] == lists[i + 1..];
      for j := 0 to |listing|
        invariant stream == seen + rest
        invariant rest == listing[j..] + Flatten(lists[i + 1..])
        invariant posts == EligibleOf(seen, minUpvotes)
        invariant maxPosts >= 1 ==> |posts| < maxPosts
        invariant maxPosts <= 0 ==> posts == []
      {
        var submission := listing[j];
        ScanStep(seen, listing, j, Flatten(lists[i + 1..]), minUpvotes);
        if submission.score >= minUpvotes && !submission.stickied {
          posts := posts + [submission];
          if |posts| >= maxPosts {
            StopAfter(seen + [submission], rest[1..], minUpvotes, maxPosts);
            return;
          }
        }
        seen, rest := seen + [submission], rest[1..];
      }
    }
    assert seen == stream;
    assert TakeAtMost(posts, maxPosts) == posts;
  }
}
