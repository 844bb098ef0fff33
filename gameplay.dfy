/** Background selection in main.py: the duration-fit gameplay picker
    `pick_gameplay_clip` (main.py:98-107) and the music choice of
    main.py:167-168. Directory listings are sequences of names, the media
    probe is a function from path to duration, and the random draws are
    inputs: the shuffle as a permutation, `random.random()` as `u`, and the
    index `random.choice` draws. */
module Gameplay {
  import opened Strings
  import opened Wrappers

  const VideosFolder: string := "videos"
  const MusicFolder: string := "music"

  /** `f.lower().endswith(exts)`, with `exts` the tuple of accepted extensions. */
  predicate HasExtension(name: string, exts: seq<string>) {
    exists e :: e in exts && EndsWith(Lower(name), e)
  }

  /** `[os.path.join(folder, f) for f in names if f.lower().endswith(exts)]`:
      at most one candidate per name, and none exactly when no name has an
      accepted extension. */
  function Candidates(folder: string, names: seq<string>, exts: seq<string>): (r: seq<string>)
    ensures |r| <= |names|
    ensures r == [] <==> forall k :: 0 <= k < |names| ==> !HasExtension(names[k], exts)
    decreases |names|
  {
    if names == [] then []
    else
      assert forall k :: 1 <= k < |names| ==> names[k] == names[1..][k - 1];
      (if HasExtension(names[0], exts) then [PathJoin(folder, names[0])] else []) + Candidates(folder, names[1..], exts)
  }

  /** A path is a candidate exactly when some listed name with an accepted
      extension joins to it. */
  lemma {:induction false} CandidatesMembers(folder: string, names: seq<string>, exts: seq<string>)
    ensures forall p :: p in Candidates(folder, names, exts) <==>
      exists k :: 0 <= k < |names| && HasExtension(names[k], exts) && p == PathJoin(folder, names[k])
    decreases |names|
  {
    if names != [] {
      var tail := Candidates(folder, names[1..], exts);
      CandidatesMembers(folder, names[1..], exts);
      forall p | p in tail
        ensures exists k :: 0 <= k < |names| && HasExtension(names[k], exts) && p == PathJoin(folder, names[k])
      {
        var k :| 0 <= k < |names[1..]| && HasExtension(names[1..][k], exts) && p == PathJoin(folder, names[1..][k]);
        assert names[k + 1] == names[1..][k];
      }
      forall p | exists k :: 0 <= k < |names| && HasExtension(names[k], exts) && p == PathJoin(folder, names[k])
        ensures p in Candidates(folder, names, exts)
      {
        var k :| 0 <= k < |names| && HasExtension(names[k], exts) && p == PathJoin(folder, names[k]);
        if k > 0 {
          assert names[1..][k - 1] == names[k];
        }
      }
    }
  }

  /** The filter keeps listing order: the candidates of a listing cut
      anywhere are those of the first part followed by those of the second. */
  lemma {:induction false} CandidatesAppend(folder: string, a: seq<string>, b: seq<string>, exts: seq<string>)
    ensures Candidates(folder, a + b, exts) == Candidates(folder, a, exts) + Candidates(folder, b, exts)
    decreases |a|
  {
    if a == [] {
      assert a + b == b;
    } else {
      var ab := a + b;
      assert ab[0] == a[0] && ab[1..] == a[1..] + b;
      var head := if HasExtension(a[0], exts) then [PathJoin(folder, a[0])] else [];
      var x, y := Candidates(folder, a[1..], exts), Candidates(folder, b, exts);
      assert Candidates(folder, ab, exts) == head + Candidates(folder, ab[1..], exts);
      assert Candidates(folder, a, exts) == head + x;
      CandidatesAppend(folder, a[1..], b, exts);
      assert head + (x + y) == (head + x) + y;
    }
  }

  /** When every name has an accepted extension, every name is joined, in order. */
  lemma {:induction false} CandidatesAll(folder: string, names: seq<string>, exts: seq<string>)
    requires forall k :: 0 <= k < |names| ==> HasExtension(names[k], exts)
    ensures |Candidates(folder, names, exts)| == |names|
    ensures forall k :: 0 <= k < |names| ==> Candidates(folder, names, exts)[k] == PathJoin(folder, names[k])
    decreases |names|
  {
    if names != [] {
      var tail := names[1..];
      var c := Candidates(folder, tail, exts);
      assert HasExtension(names[0], exts);
      assert Candidates(folder, names, exts) == [PathJoin(folder, names[0])] + c;
      CandidatesAll(folder, tail, exts);
    }
  }

  /** The filter keeps exactly the names with an accepted extension, joined
      to the folder, and in listing order: cutting the listing anywhere cuts
      the candidates at the same place. */
  lemma CandidatesExact(folder: string, names: seq<string>, exts: seq<string>)
    ensures forall p :: p in Candidates(folder, names, exts) <==>
      exists k :: 0 <= k < |names| && HasExtension(names[k], exts) && p == PathJoin(folder, names[k])
    ensures forall j :: 0 <= j <= |names| ==>
      Candidates(folder, names, exts) == Candidates(folder, names[..j], exts) + Candidates(folder, names[j..], exts)
    ensures (forall k :: 0 <= k < |names| ==> HasExtension(names[k], exts)) ==>
      |Candidates(folder, names, exts)| == |names| &&
      forall k :: 0 <= k < |names| ==> Candidates(folder, names, exts)[k] == PathJoin(folder, names[k])
  {
    CandidatesMembers(folder, names, exts);
    forall j | 0 <= j <= |names|
      ensures Candidates(folder, names, exts) == Candidates(folder, names[..j], exts) + Candidates(folder, names[j..], exts)
    {
      assert names[..j] + names[j..] == names;
      CandidatesAppend(folder, names[..j], names[j..], exts);
    }
    if forall k :: 0 <= k < |names| ==> HasExtension(names[k], exts) {
      CandidatesAll(folder, names, exts);
    }
  }

  /** Gameplay candidates: `.mp4` files, in any letter case (main.py:99). */
  function VideoCandidates(names: seq<string>): seq<string> {
    Candidates(VideosFolder, names, [".mp4"])
  }

  /** Music candidates: `.mp4` or `.mp3` files, in any letter case (main.py:167). */
  function MusicCandidates(names: seq<string>): seq<string> {
    Candidates(MusicFolder, names, [".mp4", ".mp3"])
  }

  /** The extension test ignores letter case: names that agree once
      lower-cased get the same verdict, and lower-casing a name first does
      not change it. */
  lemma ExtensionIgnoresCase(n: string, m: string, exts: seq<string>)
    requires |n| == |m| && forall i :: 0 <= i < |n| ==> LowerChar(n[i]) == LowerChar(m[i])
    ensures HasExtension(n, exts) <==> HasExtension(m, exts)
    ensures HasExtension(Lower(n), exts) <==> HasExtension(n, exts)
  {
    assert Lower(n) == Lower(m);
    assert Lower(Lower(n)) == Lower(n);
  }

  lemma UpperCaseAccepted()
    ensures HasExtension("Run.MP4", [".mp4"])
  {
    assert Lower("Run.MP4") == "run.mp4";
    assert ".mp4" in [".mp4"] && EndsWith("run.mp4", ".mp4");
  }

  lemma MixedCaseAccepted()
    ensures HasExtension("lofi.Mp3", [".mp4", ".mp3"])
  {
    assert Lower("lofi.Mp3") == "lofi.mp3";
    assert ".mp3" in [".mp4", ".mp3"] && EndsWith("lofi.mp3", ".mp3");
  }

  lemma PartialDownloadRejected()
    ensures !HasExtension("run.mp4.part", [".mp4"])
  {
    assert Lower("run.mp4.part")[8] == 'p';
  }

  lemma OtherAudioRejected()
    ensures !HasExtension("lofi.wav", [".mp4", ".mp3"])
  {
    assert Lower("lofi.wav")[5] == 'w';
  }

  /** Upper-case extensions are accepted, near misses are not. */
  lemma ExtensionCases()
    ensures HasExtension("Run.MP4", [".mp4"])
    ensures !HasExtension("run.mp4.part", [".mp4"])
    ensures HasExtension("lofi.Mp3", [".mp4", ".mp3"])
    ensures !HasExtension("lofi.wav", [".mp4", ".mp3"])
  {
    UpperCaseAccepted();
    MixedCaseAccepted();
    PartialDownloadRejected();
    OtherAudioRejected();
  }

  /** `order` lists every index of a sequence of length `n` exactly once. */
  predicate IsPermutation(order: seq<nat>, n: nat) {
    |order| == n &&
    (forall i :: 0 <= i < n ==> order[i] < n) &&
    (forall i, j :: 0 <= i < j < n ==> order[i] != order[j])
  }

  /** The indices `order` takes at its first `m` positions. */
  function Image(order: seq<nat>, m: nat): set<nat>
    requires m <= |order|
  {
    set i | 0 <= i < m :: order[i]
  }

  /** The indices below `n`. */
  function Below(n: nat): (r: set<nat>)
    ensures forall k: nat :: k in r <==> k < n
    ensures |r| == n
  {
    if n == 0 then {} else Below(n - 1) + {n - 1}
  }

  lemma {:induction false} ImageSize(order: seq<nat>, m: nat)
    requires m <= |order|
    requires forall i, j :: 0 <= i < j < m ==> order[i] != order[j]
    ensures |Image(order, m)| == m
    decreases m
  {
    if m > 0 {
      ImageSize(order, m - 1);
      assert Image(order, m) == Image(order, m - 1) + {order[m - 1]};
      assert order[m - 1] !in Image(order, m - 1);
    }
  }

  lemma {:induction false} SubsetSize<T>(a: set<T>, b: set<T>)
    requires a <= b
    ensures |a| <= |b|
    decreases |a|
  {
    if a != {} {
      var x :| x in a;
      SubsetSize(a - {x}, b - {x});
    }
  }

  /** A permutation takes every index below its length: `n` distinct
      indices below `n` leave none out. */
  lemma PermutationCovers(order: seq<nat>, n: nat)
    requires IsPermutation(order, n)
    ensures forall k :: 0 <= k < n ==> k in Image(order, n)
  {
    ImageSize(order, n);
    forall k | 0 <= k < n
      ensures k in Image(order, n)
    {
      if k !in Image(order, n) {
        SubsetSize(Image(order, n), Below(n) - {k});
        assert false;
      }
    }
  }

  /** The candidates in the order `random.shuffle` left them. */
  function Shuffled(cands: seq<string>, order: seq<nat>): (r: seq<string>)
    requires IsPermutation(order, |cands|)
    ensures |r| == |cands|
    ensures forall i :: 0 <= i < |r| ==> r[i] == cands[order[i]]
  {
    seq(|cands|, i requires 0 <= i < |cands| => cands[order[i]])
  }

  /** The shuffle loses and invents nothing: every candidate is scanned at
      the position `order` sends it to, and only candidates are scanned. */
  lemma ShuffledCovers(cands: seq<string>, order: seq<nat>)
    requires IsPermutation(order, |cands|)
    ensures forall k :: 0 <= k < |cands| ==> cands[k] in Shuffled(cands, order)
    ensures forall c :: c in Shuffled(cands, order) <==> c in cands
  {
    var r := Shuffled(cands, order);
    PermutationCovers(order, |cands|);
    forall k | 0 <= k < |cands|
      ensures cands[k] in r
    {
      assert k in Image(order, |cands|);
      var i :| 0 <= i < |cands| && order[i] == k;
      assert r[i] == cands[k];
    }
  }

  /** `clip.subclip(start, end)` of the file at `source`, audio removed. */
  datatype Subclip = Subclip(source: string, start: real, end: real)

  /** `RuntimeError(f'No gameplay video >= {duration}s found')`. */
  datatype PickError = NoGameplayVideo(duration: real)

  /** `pick_gameplay_clip(duration)`. `closed` lists the clips opened and
      closed for being too short, in scan order. */
  method PickGameplayClip(duration: real, names: seq<string>, probe: string -> real,
                          order: seq<nat>, u: real)
    returns (r: Result<Subclip, PickError>, closed: seq<string>)
    requires IsPermutation(order, |VideoCandidates(names)|)
    requires 0.0 <= u < 1.0
    ensures r.Err? <==> forall c :: c in VideoCandidates(names) ==> probe(c) < duration
    ensures r.Ok? ==> r.value.source in VideoCandidates(names)
    ensures var scan := Shuffled(VideoCandidates(names), order);
      r.Err? <==> forall i :: 0 <= i < |scan| ==> probe(scan[i]) < duration
    ensures var scan := Shuffled(VideoCandidates(names), order);
      r.Err? ==> r.error == NoGameplayVideo(duration) && closed == scan
    ensures var scan := Shuffled(VideoCandidates(names), order);
      r.Ok? ==>
        |closed| < |scan| && closed == scan[..|closed|] &&
        (forall i :: 0 <= i < |closed| ==> probe(scan[i]) < duration) &&
        r.value.source == scan[|closed|] && probe(scan[|closed|]) >= duration &&
        r.value.start == (probe(scan[|closed|]) - duration) * u &&
        0.0 <= r.value.start <= probe(r.value.source) - duration &&
        r.value.end - r.value.start == duration
  {
    var candidates := Shuffled(VideoCandidates(names), order);
    ShuffledCovers(VideoCandidates(names), order);
    closed := [];
    for i := 0 to |candidates|
      invariant closed == candidates[..i]
      invariant forall j :: 0 <= j < i ==> probe(candidates[j]) < duration
    {
      var path := candidates[i];
      var clipDuration := probe(path);
      if clipDuration >= duration {
        var slack := clipDuration - duration;
        var start := 0.0 + slack * u;
        ScaleWithin(slack, u);
        assert start <= probe(path) - duration;
        return Ok(Subclip(path, start, start + duration)), closed;
      }
      closed := closed + [path];
    }
    assert candidates[..|candidates|] == candidates;
    return Err(NoGameplayVideo(duration)), closed;
  }

  /** `random.uniform(0, x)` lies in `[0, x]`. */
  lemma ScaleWithin(x: real, u: real)
    requires 0.0 <= x && 0.0 <= u < 1.0
    ensures 0.0 <= x * u <= x
  {
    assert x * (1.0 - u) >= 0.0;
  }

  /** `random.choice(music_list)` with the drawn index `pick`; an empty list
      raises IndexError, here `None`. */
  function PickMusic(names: seq<string>, pick: nat): (r: Option<string>)
    requires MusicCandidates(names) == [] || pick < |MusicCandidates(names)|
    ensures r.None? <==> forall k :: 0 <= k < |names| ==> !HasExtension(names[k], [".mp4", ".mp3"])
    ensures r.Some? ==> r.value in MusicCandidates(names)
    ensures r.Some? ==>
      exists k :: 0 <= k < |names| && HasExtension(names[k], [".mp4", ".mp3"]) && r.value == PathJoin(MusicFolder, names[k])
  {
    CandidatesExact(MusicFolder, names, [".mp4", ".mp3"]);
    var cands := MusicCandidates(names);
    if cands == [] then None
    else
      assert cands[pick] in cands;
      Some(cands[pick])
  }
}
