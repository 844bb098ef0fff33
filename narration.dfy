/** The narration text and its cache slot, as `main()` builds them for each
    post (main.py:158-159). */
module Narration {
  import opened Strings
  import Speech

  const AudioCache: string := "audio_cache"

  /** `title + ("\n\n" + selftext if selftext else "")`. */
  function NarrationText(title: string, selftext: string): (r: string)
    ensures StartsWith(r, title)
    ensures selftext == "" ==> r == title
  {
    title + (if selftext != "" then "\n\n" + selftext else "")
  }

  /** The narration reads the title's words and then the body's words. */
  lemma NarrationWords(title: string, selftext: string)
    ensures Split(NarrationText(title, selftext)) == Split(title) + Split(selftext)
  {
    if selftext == "" {
      assert Split(selftext) == [];
    } else {
      assert NarrationText(title, selftext) == title + ['\n'] + ("\n" + selftext);
      SplitFromAtSpace(title, '\n', "\n" + selftext, []);
      SplitLeadingSpace('\n', selftext);
    }
  }

  /** `os.path.join(AUDIO_CACHE, f"{subreddit}_{id}.mp3")`: the file
      `{subreddit}_{id}.mp3`, placed in the cache directory unless the
      subreddit name starts with a slash. */
  function CachePath(sub: string, id: string): (r: string)
    ensures EndsWith(r, sub + "_" + id + Speech.Mp3)
    ensures sub == [] || sub[0] != '/' ==> r == AudioCache + "/" + sub + "_" + id + Speech.Mp3
    ensures sub != [] && sub[0] == '/' ==> r == sub + "_" + id + Speech.Mp3
  {
    var name := sub + "_" + id + Speech.Mp3;
    assert name[0] == if sub == "" then '_' else sub[0];
    assert (AudioCache + "/" + name)[|AudioCache| + 1..] == name;
    PathJoin(AudioCache, name)
  }

  /** Subreddit names and post ids hold neither slashes nor dots. */
  predicate PlainName(s: string) {
    Lacks(s, '/') && Lacks(s, '.')
  }

  /** For plain names the cache path sits directly in the cache directory
      and ".mp3" occurs in it only as the extension, so the part paths of
      `synthesize_speech` are distinct from each other and from it. */
  lemma CachePathShape(sub: string, id: string)
    requires PlainName(sub) && PlainName(id)
    ensures CachePath(sub, id) == AudioCache + "/" + sub + "_" + id + Speech.Mp3
    ensures OnlyAsSuffix(CachePath(sub, id), Speech.Mp3)
  {
    var name := sub + "_" + id + Speech.Mp3;
    assert name[0] == if sub == "" then '_' else sub[0];
    var p := CachePath(sub, id);
    var body := AudioCache + "/" + sub + "_" + id;
    assert p == body + Speech.Mp3;
    forall i | 0 <= i < |body| ensures body[i] != '.' {
      if i < |AudioCache| + 1 {
      } else if i < |AudioCache| + 1 + |sub| {
        assert body[i] == sub[i - |AudioCache| - 1];
      } else if i > |AudioCache| + 1 + |sub| {
        assert body[i] == id[i - |AudioCache| - 2 - |sub|];
      }
    }
    forall i | 0 <= i < |p| - |Speech.Mp3| ensures !OccursAt(p, Speech.Mp3, i) {
      assert p[i] == body[i];
      assert p[i..i + 4][0] == p[i];
    }
  }

  /** `sub + "_" + id` determines both parts when the id has no underscore. */
  lemma KeyInjective(l1: string, i1: string, l2: string, i2: string)
    requires Lacks(i1, '_') && Lacks(i2, '_')
    requires l1 + "_" + i1 == l2 + "_" + i2
    ensures l1 == l2 && i1 == i2
  {
    var k := l1 + "_" + i1;
    assert k[|l1|] == '_';
    assert k == l2 + "_" + i2;
    assert k[|l2|] == '_';
    assert l1 == k[..|l1|] == l2;
    assert i1 == k[|l1| + 1..] == i2;
  }

  /** Each post has its own cache slot: with Reddit's names and ids (no
      slash or dot, and no underscore in an id) different (subreddit, id)
      pairs give different cache paths, so a cache hit is always the
      narration of the same post. */
  lemma CachePathInjective(l1: string, i1: string, l2: string, i2: string)
    requires PlainName(l1) && PlainName(i1) && PlainName(l2) && PlainName(i2)
    requires Lacks(i1, '_') && Lacks(i2, '_')
    requires CachePath(l1, i1) == CachePath(l2, i2)
    ensures l1 == l2 && i1 == i2
  {
    CachePathShape(l1, i1);
    CachePathShape(l2, i2);
    var p := CachePath(l1, i1);
    var lo := |AudioCache| + 1;
    assert p[lo..|p| - 4] == l1 + "_" + i1;
    assert p[lo..|p| - 4] == l2 + "_" + i2;
    KeyInjective(l1, i1, l2, i2);
  }
}
