/** The segment packer of `split_and_write_clips` (main.py:110-125): ordered
    greedy grouping of the composed clips under a duration ceiling, then one
    output file per group. A clip is reduced to an identity and a duration. */
module Packer {
  import opened Seqs
  import opened Strings

  /** MAX_TOTAL_DURATION (main.py:37), in seconds. */
  const MaxTotalDuration: real := 180.0

  datatype Segment = Segment(id: nat, duration: real)

  /** Summed duration of a group, added up in order as the running `total`. */
  function Total(group: seq<Segment>): real
    decreases |group|
  {
    if group == [] then 0.0 else Total(group[..|group| - 1]) + group[|group| - 1].duration
  }

  /** The groups the loop of main.py:112-120 emits, `current` being the group
      under construction. A clip joins it when the running total plus the
      clip stays within the ceiling; otherwise `current` is emitted, even
      when still empty, and the clip starts the next group. */
  function PackFrom(clips: seq<Segment>, current: seq<Segment>, maxDuration: real): seq<seq<Segment>>
    decreases |clips|
  {
    if clips == [] then (if current != [] then [current] else [])
    else if Total(current) + clips[0].duration <= maxDuration then
      PackFrom(clips[1..], current + [clips[0]], maxDuration)
    else [current] + PackFrom(clips[1..], [clips[0]], maxDuration)
  }

  function Pack(clips: seq<Segment>, maxDuration: real): seq<seq<Segment>> {
    PackFrom(clips, [], maxDuration)
  }

  /** The grouping loop, with the running total kept beside the group. */
  method PackClips(clips: seq<Segment>, maxDuration: real) returns (groups: seq<seq<Segment>>)
    ensures groups == Pack(clips, maxDuration)
  {
    groups := [];
    var current: seq<Segment> := [];
    var total: real := 0.0;
    for k := 0 to |clips|
      invariant total == Total(current)
      invariant groups + PackFrom(clips[k..], current, maxDuration) == Pack(clips, maxDuration)
    {
      var clip := clips[k];
      assert clips[k..][0] == clip && clips[k..][1..] == clips[k + 1..];
      if total + clip.duration <= maxDuration {
        assert (current + [clip])[..|current|] == current;
        current := current + [clip];
        total := total + clip.duration;
      } else {
        assert groups + PackFrom(clips[k..], current, maxDuration) ==
          (groups + [current]) + PackFrom(clips[k + 1..], [clip], maxDuration);
        groups := groups + [current];
        assert Total([clip]) == 0.0 + clip.duration;
        current, total := [clip], clip.duration;
      }
    }
    assert clips[|clips|..] == [];
    if current != [] {
      groups := groups + [current];
    }
  }

  /** An encoder call: the group `segments` written to `path`. */
  datatype Render = Render(path: string, segments: seq<Segment>, fps: int)

  /** `f'part{idx}.mp4'`. */
  function PartFileName(idx: nat): string {
    "part" + NatToString(idx) + ".mp4"
  }

  /** `split_and_write_clips(clips, max_duration, out_dir, fps)`: the groups,
      then one render per group, numbered from 1 in order. moviepy 1.x's
      `concatenate_videoclips` takes the largest frame size of its clips and
      so raises on an empty group; the run stops there with `ok` false. Only
      the first group can be empty, so such a run writes no part at all. */
  method SplitAndWriteClips(clips: seq<Segment>, maxDuration: real, outDir: string, fps: int)
    returns (renders: seq<Render>, ok: bool)
    ensures |renders| <= |Pack(clips, maxDuration)|
    ensures forall i :: 0 <= i < |renders| ==>
      renders[i] == Render(PathJoin(outDir, PartFileName(i + 1)), Pack(clips, maxDuration)[i], fps)
    ensures ok <==> |renders| == |Pack(clips, maxDuration)|
    ensures !ok ==> Pack(clips, maxDuration)[|renders|] == []
    ensures ok <==> !(clips != [] && clips[0].duration > maxDuration)
    ensures !ok ==> renders == []
  {
    var groups := PackClips(clips, maxDuration);
    PackProperties(clips, maxDuration);
    renders := [];
    for idx := 1 to |groups| + 1
      invariant |renders| == idx - 1
      invariant forall i :: 0 <= i < idx - 1 ==>
        renders[i] == Render(PathJoin(outDir, PartFileName(i + 1)), groups[i], fps)
      invariant forall i :: 0 <= i < idx - 1 ==> groups[i] != []
    {
      if groups[idx - 1] == [] {
        return renders, false;
      }
      renders := renders + [Render(PathJoin(outDir, PartFileName(idx)), groups[idx - 1], fps)];
    }
    ok := true;
  }

  // ---------------------------------------------------------------------
  // What the packer guarantees
  // ---------------------------------------------------------------------

  /** Concatenating the groups gives back the clips, in order: nothing is
      dropped, split or reordered. */
  lemma {:induction false} PackFromFlatten(clips: seq<Segment>, current: seq<Segment>, maxDuration: real)
    ensures Flatten(PackFrom(clips, current, maxDuration)) == current + clips
    decreases |clips|
  {
    if clips == [] {
      if current != [] {
        assert Flatten([current]) == current + Flatten([current][1..]);
      }
    } else if Total(current) + clips[0].duration <= maxDuration {
      PackFromFlatten(clips[1..], current + [clips[0]], maxDuration);
      assert current + [clips[0]] + clips[1..] == current + clips;
    } else {
      var rest := PackFrom(clips[1..], [clips[0]], maxDuration);
      PackFromFlatten(clips[1..], [clips[0]], maxDuration);
      assert ([current] + rest)[1..] == rest;
      assert [clips[0]] + clips[1..] == clips;
    }
  }

  lemma PackFlatten(clips: seq<Segment>, maxDuration: real)
    ensures Flatten(Pack(clips, maxDuration)) == clips
  {
    PackFromFlatten(clips, [], maxDuration);
  }

  /** A group that already holds clips stays the first group and keeps them. */
  lemma {:induction false} PackFromFirst(clips: seq<Segment>, current: seq<Segment>, maxDuration: real)
    requires current != []
    ensures |PackFrom(clips, current, maxDuration)| > 0
    ensures |PackFrom(clips, current, maxDuration)[0]| >= |current|
    ensures PackFrom(clips, current, maxDuration)[0][..|current|] == current
    ensures forall i :: 0 <= i < |PackFrom(clips, current, maxDuration)| ==> PackFrom(clips, current, maxDuration)[i] != []
    decreases |clips|
  {
    if clips != [] {
      if Total(current) + clips[0].duration <= maxDuration {
        PackFromFirst(clips[1..], current + [clips[0]], maxDuration);
        assert (current + [clips[0]])[..|current|] == current;
      } else {
        PackFromFirst(clips[1..], [clips[0]], maxDuration);
      }
    }
  }

  /** Every group fits under the ceiling unless it is a single clip. */
  lemma {:induction false} PackFromWithinCeiling(clips: seq<Segment>, current: seq<Segment>, maxDuration: real)
    requires |current| <= 1 || Total(current) <= maxDuration
    ensures forall i :: 0 <= i < |PackFrom(clips, current, maxDuration)| ==>
      |PackFrom(clips, current, maxDuration)[i]| <= 1 || Total(PackFrom(clips, current, maxDuration)[i]) <= maxDuration
    decreases |clips|
  {
    if clips != [] {
      if Total(current) + clips[0].duration <= maxDuration {
        assert (current + [clips[0]])[..|current|] == current;
        PackFromWithinCeiling(clips[1..], current + [clips[0]], maxDuration);
      } else {
        PackFromWithinCeiling(clips[1..], [clips[0]], maxDuration);
      }
    }
  }

  /** Greediness: the first clip of every later group did not fit in the
      group before it. */
  lemma {:induction false} PackFromGreedy(clips: seq<Segment>, current: seq<Segment>, maxDuration: real)
    ensures forall i :: 1 <= i < |PackFrom(clips, current, maxDuration)| ==>
      PackFrom(clips, current, maxDuration)[i] != [] &&
      Total(PackFrom(clips, current, maxDuration)[i - 1]) + PackFrom(clips, current, maxDuration)[i][0].duration > maxDuration
    decreases |clips|
  {
    if clips != [] {
      if Total(current) + clips[0].duration <= maxDuration {
        PackFromGreedy(clips[1..], current + [clips[0]], maxDuration);
      } else {
        var rest := PackFrom(clips[1..], [clips[0]], maxDuration);
        PackFromGreedy(clips[1..], [clips[0]], maxDuration);
        PackFromFirst(clips[1..], [clips[0]], maxDuration);
        assert rest[0][0] == clips[0];
        var all := [current] + rest;
        assert forall i :: 1 <= i < |all| ==> all[i] == rest[i - 1];
      }
    }
  }

  /** The packer's contract in one place: groups concatenate back to the
      input, each group fits or is a lone clip, each later group starts with
      a clip that did not fit the previous one, only the first group can be
      empty, and it is empty exactly when the first clip alone exceeds the
      ceiling. */
  lemma PackProperties(clips: seq<Segment>, maxDuration: real)
    ensures Flatten(Pack(clips, maxDuration)) == clips
    ensures Pack(clips, maxDuration) == [] <==> clips == []
    ensures forall i :: 0 <= i < |Pack(clips, maxDuration)| ==>
      |Pack(clips, maxDuration)[i]| <= 1 || Total(Pack(clips, maxDuration)[i]) <= maxDuration
    ensures forall i :: 1 <= i < |Pack(clips, maxDuration)| ==>
      Pack(clips, maxDuration)[i] != [] &&
      Total(Pack(clips, maxDuration)[i - 1]) + Pack(clips, maxDuration)[i][0].duration > maxDuration
    ensures |Pack(clips, maxDuration)| > 0 && Pack(clips, maxDuration)[0] == [] <==>
      clips != [] && clips[0].duration > maxDuration
  {
    PackFlatten(clips, maxDuration);
    PackFromWithinCeiling(clips, [], maxDuration);
    PackFromGreedy(clips, [], maxDuration);
    if clips != [] {
      var c := clips[0];
      PackFromFirst(clips[1..], [c], maxDuration);
      if Total([]) + c.duration <= maxDuration {
        assert [] + [c] == [c];
        assert Pack(clips, maxDuration) == PackFrom(clips[1..], [c], maxDuration);
      } else {
        assert Pack(clips, maxDuration) == [[]] + PackFrom(clips[1..], [c], maxDuration);
      }
    }
  }

  /** Three clips of 70 s under the 180 s ceiling give two parts, 140 s then 70 s. */
  lemma PackSeventies()
    ensures Pack([Segment(0, 70.0), Segment(1, 70.0), Segment(2, 70.0)], MaxTotalDuration) ==
      [[Segment(0, 70.0), Segment(1, 70.0)], [Segment(2, 70.0)]]
  {
    var a, b, c := Segment(0, 70.0), Segment(1, 70.0), Segment(2, 70.0);
    assert [a, b, c][1..] == [b, c] && [b, c][1..] == [c];
    assert Total([a]) == 70.0;
    assert Total([a, b]) == 140.0 by { assert [a, b][..1] == [a]; }
    assert [] + [a] == [a] && [a] + [b] == [a, b];
  }

  /** A lone clip over the ceiling is emitted after an empty first group. */
  lemma PackOversizedFirst()
    ensures Pack([Segment(0, 200.0)], MaxTotalDuration) == [[], [Segment(0, 200.0)]]
  {
    assert [Segment(0, 200.0)][1..] == [];
  }

  /** The part files have pairwise distinct names. */
  lemma PartFileNamesDistinct(i: nat, j: nat)
    requires PartFileName(i) == PartFileName(j)
    ensures i == j
  {
    var a := PartFileName(i);
    NatToStringDigits(i);
    NatToStringDigits(j);
    assert |NatToString(i)| == |NatToString(j)|;
    assert a[4..|a| - 4] == NatToString(i);
    assert PartFileName(j)[4..|a| - 4] == NatToString(j);
    NatToStringInjective(i, j);
  }
}
