/** The speech cache and chunker of `synthesize_speech` (main.py:59-95).
    The speech provider is an abstract action that turns a chunk of text into
    the audio artefact `Spoken(chunk)`; the cache directory is a map from
    paths to artefacts. */
module Speech {
  import opened Seqs
  import opened Strings

  /** The provider's per-call character limit (main.py:68). */
  const MaxChars: nat := 3000

  /** The suffix every narration path carries, and the one the part paths rewrite. */
  const Mp3: string := ".mp3"

  // ---------------------------------------------------------------------
  // The greedy chunker (main.py:76-85)
  // ---------------------------------------------------------------------

  /** Greedy packing of `words` into chunks of words, `cur` being the chunk
      under construction. A word joins the chunk when the chunk's text plus a
      space plus the word stays within the limit; otherwise the chunk is
      emitted, even when it is still empty, and the word starts the next one. */
  function PackWords(words: seq<string>, cur: seq<string>): seq<seq<string>>
    decreases |words|
  {
    if words == [] then (if cur == [] then [] else [cur])
    else if |JoinWords(cur)| + |words[0]| + 1 <= MaxChars then PackWords(words[1..], cur + [words[0]])
    else [cur] + PackWords(words[1..], [words[0]])
  }

  /** The chunks of words the source builds for `text`. */
  function ChunkGroups(text: string): seq<seq<string>> {
    PackWords(Split(text), [])
  }

  function JoinEach(groups: seq<seq<string>>): (r: seq<string>)
    ensures |r| == |groups|
    ensures forall i :: 0 <= i < |groups| ==> r[i] == JoinWords(groups[i])
  {
    seq(|groups|, i requires 0 <= i < |groups| => JoinWords(groups[i]))
  }

  /** The chunk texts the source sends to the provider, in order. */
  function Chunks(text: string): seq<string> {
    JoinEach(ChunkGroups(text))
  }

  /** The chunking loop of main.py:76-85, on strings as the source builds them. */
  method ChunkText(text: string) returns (chunks: seq<string>)
    ensures chunks == Chunks(text)
  {
    var words := Split(text);
    SplitFromWords(text, []);
    chunks := [];
    var cur: string := "";
    ghost var group: seq<string> := [];
    ghost var done: seq<seq<string>> := [];
    for k := 0 to |words|
      invariant AllWords(group)
      invariant cur == JoinWords(group)
      invariant chunks == JoinEach(done)
      invariant done + PackWords(words[k..], group) == PackWords(words, [])
    {
      var w := words[k];
      assert words[k..][0] == w && words[k..][1..] == words[k + 1..];
      if |cur| + |w| + 1 <= MaxChars {
        StripJoinAppend(group, w);
        cur := Strip(cur + " " + w);
        group := group + [w];
      } else {
        assert done + PackWords(words[k..], group) == (done + [group]) + PackWords(words[k + 1..], [w]);
        chunks := chunks + [cur];
        done := done + [group];
        cur := w;
        group := [w];
      }
    }
    assert words[|words|..] == [];
    if cur != "" {
      chunks := chunks + [cur];
      done := done + [group];
    } else if group != [] {
      JoinWordsBorders(group);
      assert false;
    }
  }

  // ---------------------------------------------------------------------
  // What the chunker guarantees
  // ---------------------------------------------------------------------

  lemma {:induction false} PackWordsFlatten(words: seq<string>, cur: seq<string>)
    ensures Flatten(PackWords(words, cur)) == cur + words
    decreases |words|
  {
    if words == [] {
      if cur != [] {
        assert Flatten([cur]) == cur + Flatten([cur][1..]);
      }
    } else if |JoinWords(cur)| + |words[0]| + 1 <= MaxChars {
      PackWordsFlatten(words[1..], cur + [words[0]]);
      assert cur + [words[0]] + words[1..] == cur + words;
    } else {
      PackWordsFlatten(words[1..], [words[0]]);
      assert ([cur] + PackWords(words[1..], [words[0]]))[1..] == PackWords(words[1..], [words[0]]);
      assert [words[0]] + words[1..] == words;
    }
  }

  lemma {:induction false} PackWordsAllWords(words: seq<string>, cur: seq<string>)
    requires AllWords(words) && AllWords(cur)
    ensures forall i :: 0 <= i < |PackWords(words, cur)| ==> AllWords(PackWords(words, cur)[i])
    decreases |words|
  {
    if words != [] {
      if |JoinWords(cur)| + |words[0]| + 1 <= MaxChars {
        PackWordsAllWords(words[1..], cur + [words[0]]);
      } else {
        PackWordsAllWords(words[1..], [words[0]]);
      }
    }
  }

  /** Every chunk fits the provider's limit, or is one word too long to fit. */
  lemma {:induction false} PackWordsBound(words: seq<string>, cur: seq<string>)
    requires AllWords(words) && AllWords(cur)
    requires |JoinWords(cur)| <= MaxChars || |cur| == 1
    ensures forall i :: 0 <= i < |PackWords(words, cur)| ==>
      |JoinWords(PackWords(words, cur)[i])| <= MaxChars || |PackWords(words, cur)[i]| == 1
    decreases |words|
  {
    if words != [] {
      if |JoinWords(cur)| + |words[0]| + 1 <= MaxChars {
        StripJoinAppend(cur, words[0]);
        PackWordsBound(words[1..], cur + [words[0]]);
      } else {
        PackWordsBound(words[1..], [words[0]]);
      }
    }
  }

  /** Once a chunk holds a word, no chunk emitted after it is empty. */
  lemma {:induction false} PackWordsNonEmpty(words: seq<string>, cur: seq<string>)
    requires cur != []
    ensures |PackWords(words, cur)| > 0
    ensures forall i :: 0 <= i < |PackWords(words, cur)| ==> PackWords(words, cur)[i] != []
    decreases |words|
  {
    if words != [] {
      if |JoinWords(cur)| + |words[0]| + 1 <= MaxChars {
        PackWordsNonEmpty(words[1..], cur + [words[0]]);
      } else {
        PackWordsNonEmpty(words[1..], [words[0]]);
      }
    }
  }

  /** The first chunk emitted starts with the pending chunk's first word. */
  lemma {:induction false} PackWordsFirst(words: seq<string>, cur: seq<string>)
    requires cur != []
    ensures |PackWords(words, cur)| > 0 && PackWords(words, cur)[0] != []
    ensures PackWords(words, cur)[0][0] == cur[0]
    decreases |words|
  {
    if words != [] && |JoinWords(cur)| + |words[0]| + 1 <= MaxChars {
      PackWordsFirst(words[1..], cur + [words[0]]);
    }
  }

  /** Packing is greedy: every chunk after the first was started by a word
      that would have pushed the chunk before it over the limit. */
  lemma {:induction false} PackWordsGreedy(words: seq<string>, cur: seq<string>)
    ensures forall i :: 1 <= i < |PackWords(words, cur)| ==>
      PackWords(words, cur)[i] != [] &&
      |JoinWords(PackWords(words, cur)[i - 1])| + |PackWords(words, cur)[i][0]| + 1 > MaxChars
    decreases |words|
  {
    if words != [] {
      var w := words[0];
      if |JoinWords(cur)| + |w| + 1 <= MaxChars {
        PackWordsGreedy(words[1..], cur + [w]);
      } else {
        var p := PackWords(words, cur);
        var q := PackWords(words[1..], [w]);
        PackWordsGreedy(words[1..], [w]);
        PackWordsFirst(words[1..], [w]);
        assert p == [cur] + q;
        forall i | 1 <= i < |p|
          ensures p[i] != [] && |JoinWords(p[i - 1])| + |p[i][0]| + 1 > MaxChars
        {
          assert p[i] == q[i - 1];
          if i > 1 {
            assert p[i - 1] == q[i - 2];
          }
        }
      }
    }
  }

  /** Splitting every chunk and concatenating the words gives back `text.split()`:
      no word is cut, dropped or moved. */
  lemma ChunksPreserveWords(text: string)
    ensures Flatten(seq(|Chunks(text)|, i requires 0 <= i < |Chunks(text)| => Split(Chunks(text)[i]))) == Split(text)
  {
    var groups := ChunkGroups(text);
    SplitFromWords(text, []);
    PackWordsAllWords(Split(text), []);
    PackWordsFlatten(Split(text), []);
    var back := seq(|Chunks(text)|, i requires 0 <= i < |Chunks(text)| => Split(Chunks(text)[i]));
    forall i | 0 <= i < |groups| ensures back[i] == groups[i] {
      SplitJoin(groups[i]);
    }
    assert back == groups;
  }

  /** Each chunk is at most `MaxChars` characters long, or is a single word. */
  lemma ChunksBounded(text: string)
    ensures forall i :: 0 <= i < |Chunks(text)| ==>
      |Chunks(text)[i]| <= MaxChars || |Split(Chunks(text)[i])| == 1
  {
    var groups := ChunkGroups(text);
    SplitFromWords(text, []);
    PackWordsAllWords(Split(text), []);
    PackWordsBound(Split(text), []);
    forall i | 0 <= i < |groups|
      ensures |Chunks(text)[i]| <= MaxChars || |Split(Chunks(text)[i])| == 1
    {
      SplitJoin(groups[i]);
    }
  }

  /** Chunks are filled greedily: each chunk after the first begins with a
      word that, added after a space, would have taken the chunk before it
      past `MaxChars`. */
  lemma ChunksGreedy(text: string)
    ensures forall i :: 1 <= i < |Chunks(text)| ==>
      Split(Chunks(text)[i]) != [] &&
      |Chunks(text)[i - 1]| + |Split(Chunks(text)[i])[0]| + 1 > MaxChars
  {
    var groups := ChunkGroups(text);
    SplitFromWords(text, []);
    PackWordsAllWords(Split(text), []);
    PackWordsGreedy(Split(text), []);
    forall i | 1 <= i < |groups|
      ensures Split(Chunks(text)[i]) == groups[i]
    {
      SplitJoin(groups[i]);
    }
  }

  /** Only the first chunk can be empty, and it is empty exactly when the
      first word alone has `MaxChars` characters or more. */
  lemma ChunksEmptyOnlyFirst(text: string)
    ensures forall i :: 0 < i < |Chunks(text)| ==> Chunks(text)[i] != ""
    ensures |Chunks(text)| > 0 && Chunks(text)[0] == "" <==>
      |Split(text)| > 0 && |Split(text)[0]| >= MaxChars
    ensures Split(text) == [] <==> Chunks(text) == []
  {
    var words := Split(text);
    var groups := ChunkGroups(text);
    SplitFromWords(text, []);
    PackWordsAllWords(words, []);
    forall i | 0 <= i < |groups|
      ensures Chunks(text)[i] == "" <==> groups[i] == []
    {
      if groups[i] != [] {
        JoinWordsBorders(groups[i]);
      }
    }
    if words != [] {
      var w := words[0];
      var rest := PackWords(words[1..], [w]);
      PackWordsNonEmpty(words[1..], [w]);
      if |w| + 1 <= MaxChars {
        assert [] + [w] == [w];
        assert groups == rest;
      } else {
        assert groups == [[]] + rest;
        assert forall i :: 0 < i < |groups| ==> groups[i] == rest[i - 1];
      }
    }
  }

  // ---------------------------------------------------------------------
  // Part files (main.py:87-90)
  // ---------------------------------------------------------------------

  /** `out_path.replace('.mp3', f'_part{i}.mp3')`. When ".mp3" occurs only
      as the extension, "_part{i}" is inserted before it; when ".mp3" does
      not occur at all, every part path is the output path itself. */
  function PartPath(outPath: string, i: nat): (r: string)
    ensures OnlyAsSuffix(outPath, Mp3) ==> r == outPath[..|outPath| - |Mp3|] + "_part" + NatToString(i) + Mp3
    ensures Absent(outPath, Mp3) ==> r == outPath
  {
    var rep := "_part" + NatToString(i) + Mp3;
    if OnlyAsSuffix(outPath, Mp3) then
      assert OccursAt(outPath, Mp3, |outPath| - |Mp3|);
      ReplaceOnlySuffix(outPath, Mp3, rep);
      Replace(outPath, Mp3, rep)
    else if Absent(outPath, Mp3) then
      ReplaceAbsent(outPath, Mp3, rep);
      Replace(outPath, Mp3, rep)
    else
      Replace(outPath, Mp3, rep)
  }

  function PartPaths(outPath: string, n: nat): set<string> {
    set i | 0 <= i < n :: PartPath(outPath, i)
  }

  /** For such a path the part files are pairwise distinct and distinct from
      the output path, so no part overwrites another part or the result. */
  lemma PartPathsDistinct(outPath: string, i: nat, j: nat)
    requires OnlyAsSuffix(outPath, Mp3)
    ensures PartPath(outPath, i) != outPath
    ensures PartPath(outPath, i) == PartPath(outPath, j) ==> i == j
  {
    var stem := outPath[..|outPath| - |Mp3|];
    var a, b := PartPath(outPath, i), PartPath(outPath, j);
    if a == b {
      var lo := |stem| + 5;
      assert |NatToString(i)| == |NatToString(j)|;
      assert a[lo..|a| - |Mp3|] == NatToString(i);
      assert b[lo..|b| - |Mp3|] == NatToString(j);
      NatToStringInjective(i, j);
    }
  }

  // ---------------------------------------------------------------------
  // The cache directory and the provider (main.py:59-95)
  // ---------------------------------------------------------------------

  /** An audio artefact: the provider's rendering of one text, or several
      artefacts laid over each other by `CompositeAudioClip`. */
  datatype Audio = Spoken(text: string) | Overlay(tracks: seq<Audio>)

  function Voices(chunks: seq<string>): (r: seq<Audio>)
    ensures |r| == |chunks|
    ensures forall i :: 0 <= i < |chunks| ==> r[i] == Spoken(chunks[i])
  {
    seq(|chunks|, i requires 0 <= i < |chunks| => Spoken(chunks[i]))
  }

  /** The files after writing chunk `i` of `chunks` to part `i`, in order. */
  ghost function WithParts(files: map<string, Audio>, outPath: string, chunks: seq<string>): map<string, Audio>
    decreases |chunks|
  {
    if chunks == [] then files
    else WithParts(files, outPath, chunks[..|chunks| - 1])[PartPath(outPath, |chunks| - 1) := Spoken(chunks[|chunks| - 1])]
  }

  lemma {:induction false} WithPartsContent(files: map<string, Audio>, outPath: string, chunks: seq<string>)
    requires OnlyAsSuffix(outPath, Mp3)
    ensures forall j :: 0 <= j < |chunks| ==>
      PartPath(outPath, j) in WithParts(files, outPath, chunks) &&
      WithParts(files, outPath, chunks)[PartPath(outPath, j)] == Spoken(chunks[j])
    ensures WithParts(files, outPath, chunks) - PartPaths(outPath, |chunks|) == files - PartPaths(outPath, |chunks|)
    decreases |chunks|
  {
    if chunks != [] {
      var n := |chunks| - 1;
      var front := chunks[..n];
      WithPartsContent(files, outPath, front);
      forall j | 0 <= j < n ensures PartPath(outPath, j) != PartPath(outPath, n) {
        PartPathsDistinct(outPath, j, n);
      }
      assert PartPaths(outPath, |chunks|) == PartPaths(outPath, n) + {PartPath(outPath, n)};
      var before := WithParts(files, outPath, front);
      var after := WithParts(files, outPath, chunks);
      assert after == before[PartPath(outPath, n) := Spoken(chunks[n])];
      MinusUpdated(before, PartPath(outPath, n), Spoken(chunks[n]), PartPaths(outPath, n));
      MinusUnion(before, PartPaths(outPath, n), {PartPath(outPath, n)});
      MinusUnion(files, PartPaths(outPath, n), {PartPath(outPath, n)});
    }
  }

  /** Writing a key and then removing it together with others leaves what
      removing them alone leaves. */
  lemma MinusUpdated<K, V>(m: map<K, V>, k: K, v: V, s: set<K>)
    ensures m[k := v] - (s + {k}) == m - (s + {k})
  {
    assert (m[k := v] - (s + {k})).Keys == (m - (s + {k})).Keys;
  }

  lemma MinusUnion<K, V>(m: map<K, V>, s: set<K>, t: set<K>)
    ensures m - (s + t) == (m - s) - t
  {
    assert (m - (s + t)).Keys == ((m - s) - t).Keys;
  }

  /** Updating a key that is not removed commutes with the removal. */
  lemma UpdateMinus<K, V>(m: map<K, V>, k: K, v: V, s: set<K>)
    requires k !in s
    ensures m[k := v] - s == (m - s)[k := v]
  {
    assert (m[k := v] - s).Keys == ((m - s)[k := v]).Keys;
  }

  /** The part paths of `n` chunks, in order (`temp_paths`). */
  function PartPathSeq(outPath: string, n: nat): (r: seq<string>)
    ensures |r| == n
    ensures forall j :: 0 <= j < n ==> r[j] == PartPath(outPath, j)
  {
    seq(n, j requires 0 <= j < n => PartPath(outPath, j))
  }

  /** Every part is written, whatever the output path looks like. */
  lemma {:induction false} WithPartsKeys(files: map<string, Audio>, outPath: string, chunks: seq<string>)
    ensures forall j :: 0 <= j < |chunks| ==> PartPath(outPath, j) in WithParts(files, outPath, chunks)
    decreases |chunks|
  {
    if chunks != [] {
      WithPartsKeys(files, outPath, chunks[..|chunks| - 1]);
    }
  }

  /** The artefacts found at `paths`, in order (`[AudioFileClip(p) for p in
      temp_paths]`). */
  function Collected(files: map<string, Audio>, paths: seq<string>): (r: seq<Audio>)
    requires forall j :: 0 <= j < |paths| ==> paths[j] in files
    ensures |r| == |paths|
    ensures forall j :: 0 <= j < |paths| ==> r[j] == files[paths[j]]
  {
    seq(|paths|, j requires 0 <= j < |paths| => files[paths[j]])
  }

  /** The cache once every part is written and their overlay is saved to
      `outPath` (main.py:87-93). */
  ghost function Combined(files: map<string, Audio>, outPath: string, chunks: seq<string>): map<string, Audio> {
    var written := WithParts(files, outPath, chunks);
    WithPartsKeys(files, outPath, chunks);
    written[outPath := Overlay(Collected(written, PartPathSeq(outPath, |chunks|)))]
  }

  /** `os.remove(p)` for each path in turn: the cache afterwards, and whether
      every removal succeeded. The first missing path raises and stops. */
  function RemoveEach(files: map<string, Audio>, paths: seq<string>): (map<string, Audio>, bool)
    decreases |paths|
  {
    if paths == [] then (files, true)
    else if paths[0] !in files then (files, false)
    else RemoveEach(files - {paths[0]}, paths[1..])
  }

  /** Removing distinct paths that all exist succeeds and removes exactly
      them. */
  lemma {:induction false} RemoveEachDistinct(files: map<string, Audio>, paths: seq<string>)
    requires forall j :: 0 <= j < |paths| ==> paths[j] in files
    requires forall i, j :: 0 <= i < j < |paths| ==> paths[i] != paths[j]
    ensures RemoveEach(files, paths) == (files - (set p | p in paths), true)
    decreases |paths|
  {
    if paths == [] {
      assert files - (set p | p in paths) == files;
    } else {
      var p, rest := paths[0], paths[1..];
      forall j | 0 <= j < |rest| ensures rest[j] in files - {p} {
        assert rest[j] == paths[j + 1];
      }
      RemoveEachDistinct(files - {p}, rest);
      assert (set q | q in paths) == {p} + (set q | q in rest);
      MinusUnion(files, {p}, set q | q in rest);
    }
  }

  /** With ".mp3" only as the extension, the whole sequence leaves the old
      cache without any part file and with the overlay of the chunk voices
      at `outPath`, and every removal succeeds. */
  lemma CombinedThenRemoved(files: map<string, Audio>, outPath: string, chunks: seq<string>)
    requires OnlyAsSuffix(outPath, Mp3)
    ensures RemoveEach(Combined(files, outPath, chunks), PartPathSeq(outPath, |chunks|)) ==
      ((files - PartPaths(outPath, |chunks|))[outPath := Overlay(Voices(chunks))], true)
  {
    var n := |chunks|;
    var paths := PartPathSeq(outPath, n);
    var written := WithParts(files, outPath, chunks);
    WithPartsContent(files, outPath, chunks);
    WithPartsKeys(files, outPath, chunks);
    var c := Combined(files, outPath, chunks);
    assert Collected(written, paths) == Voices(chunks);
    assert c == written[outPath := Overlay(Voices(chunks))];
    forall j | 0 <= j < n ensures paths[j] != outPath && paths[j] in c {
      PartPathsDistinct(outPath, j, j);
    }
    forall i, j | 0 <= i < j < n ensures paths[i] != paths[j] {
      PartPathsDistinct(outPath, i, j);
    }
    RemoveEachDistinct(c, paths);
    assert (set p | p in paths) == PartPaths(outPath, n);
    UpdateMinus(written, outPath, Overlay(Voices(chunks)), PartPaths(outPath, n));
  }

  /** Without ".mp3" in the output path every part is written to the output
      path itself, so only the last chunk's voice is left there. */
  lemma {:induction false} WithPartsWithoutMp3(files: map<string, Audio>, outPath: string, chunks: seq<string>)
    requires Absent(outPath, Mp3) && chunks != []
    ensures WithParts(files, outPath, chunks) == files[outPath := Spoken(chunks[|chunks| - 1])]
    decreases |chunks|
  {
    var n := |chunks| - 1;
    if n > 0 {
      WithPartsWithoutMp3(files, outPath, chunks[..n]);
    } else {
      assert chunks[..n] == [];
    }
  }

  /** Without ".mp3" in the output path the overlay is saved over the parts
      and the first removal deletes it: one chunk leaves no output file, and
      with a second chunk the next removal fails. */
  lemma CombinedThenRemovedWithoutMp3(files: map<string, Audio>, outPath: string, chunks: seq<string>)
    requires Absent(outPath, Mp3) && chunks != []
    ensures RemoveEach(Combined(files, outPath, chunks), PartPathSeq(outPath, |chunks|)) == (files - {outPath}, |chunks| == 1)
  {
    var paths := PartPathSeq(outPath, |chunks|);
    WithPartsWithoutMp3(files, outPath, chunks);
    var c := Combined(files, outPath, chunks);
    assert paths[0] == outPath && outPath in c;
    MinusUpdated(files[outPath := Spoken(chunks[|chunks| - 1])], outPath, c[outPath], {});
    MinusUpdated(files, outPath, Spoken(chunks[|chunks| - 1]), {});
    assert {} + {outPath} == {outPath};
    if |chunks| > 1 {
      assert paths[1..][0] == outPath;
    } else {
      assert paths[1..] == [];
    }
  }

  class SpeechStore {
    /** The cache directory: path to artefact. */
    var files: map<string, Audio>
    /** The text of every provider call made so far, in order. */
    var requests: seq<string>

    constructor (existing: map<string, Audio>)
      ensures files == existing && requests == []
    {
      files := existing;
      requests := [];
    }

    /** `_synth(chunk, fname)`: one provider call, written to `path`. */
    method Synth(chunk: string, path: string)
      modifies this
      ensures files == old(files)[path := Spoken(chunk)]
      ensures requests == old(requests) + [chunk]
    {
      requests := requests + [chunk];
      files := files[path := Spoken(chunk)];
    }

    /** The loop of main.py:87-90: chunk `i` goes to part `i`, in order. */
    method WriteParts(chunks: seq<string>, outPath: string) returns (tempPaths: seq<string>)
      modifies this
      ensures tempPaths == PartPathSeq(outPath, |chunks|)
      ensures requests == old(requests) + chunks
      ensures files == WithParts(old(files), outPath, chunks)
    {
      tempPaths := [];
      for i := 0 to |chunks|
        invariant tempPaths == PartPathSeq(outPath, i)
        invariant requests == old(requests) + chunks[..i]
        invariant files == WithParts(old(files), outPath, chunks[..i])
      {
        var part := PartPath(outPath, i);
        Synth(chunks[i], part);
        tempPaths := tempPaths + [part];
        assert chunks[..i + 1][..i] == chunks[..i];
      }
      assert chunks[..|chunks|] == chunks;
    }

    /** The loop of main.py:94-95. The result is false when `os.remove`
        raises on a path that is already gone. */
    method RemoveParts(paths: seq<string>) returns (ok: bool)
      modifies this
      ensures (files, ok) == RemoveEach(old(files), paths)
      ensures requests == old(requests)
    {
      for j := 0 to |paths|
        invariant RemoveEach(files, paths[j..]) == RemoveEach(old(files), paths)
        invariant requests == old(requests)
      {
        assert paths[j..][0] == paths[j] && paths[j..][1..] == paths[j + 1..];
        if paths[j] !in files {
          return false;
        }
        files := files - {paths[j]};
      }
      assert paths[|paths|..] == [];
      return true;
    }

    /** `synthesize_speech(text, out_path)`. The result is false when
        `os.remove` raises because a part file is already gone, which
        happens when several parts share one path: when ".mp3" does not
        occur in `outPath`, every part path is `outPath` itself. */
    method SynthesizeSpeech(text: string, outPath: string) returns (ok: bool)
      modifies this
      ensures outPath in old(files) ==>
        ok && files == old(files) && requests == old(requests)
      ensures outPath !in old(files) && |text| <= MaxChars ==>
        ok && files == old(files)[outPath := Spoken(text)] && requests == old(requests) + [text]
      ensures outPath !in old(files) && |text| > MaxChars ==>
        requests == old(requests) + Chunks(text) &&
        (files, ok) == RemoveEach(Combined(old(files), outPath, Chunks(text)), PartPathSeq(outPath, |Chunks(text)|))
      ensures outPath !in old(files) && |text| > MaxChars && OnlyAsSuffix(outPath, Mp3) ==>
        ok && files == (old(files) - PartPaths(outPath, |Chunks(text)|))[outPath := Overlay(Voices(Chunks(text)))]
      ensures outPath !in old(files) && |text| > MaxChars && Absent(outPath, Mp3) && Chunks(text) != [] ==>
        files == old(files) - {outPath} && (ok <==> |Chunks(text)| == 1)
    {
      if outPath in files {
        return true;
      }
      if |text| <= MaxChars {
        Synth(text, outPath);
        return true;
      }
      var chunks := ChunkText(text);
      var tempPaths := WriteParts(chunks, outPath);
      var written := files;
      WithPartsKeys(old(files), outPath, chunks);
      var clips := Collected(written, tempPaths);
      files := files[outPath := Overlay(clips)];
      assert files == Combined(old(files), outPath, chunks);
      ok := RemoveParts(tempPaths);
      if OnlyAsSuffix(outPath, Mp3) {
        CombinedThenRemoved(old(files), outPath, chunks);
      } else if Absent(outPath, Mp3) && chunks != [] {
        CombinedThenRemovedWithoutMp3(old(files), outPath, chunks);
      }
    }
  }
}
