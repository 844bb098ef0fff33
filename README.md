# TikTok Reddit story creator — a verified model of its selection and sequencing logic

The program turns popular Reddit posts into short vertical videos. It picks
submissions from configured subreddits, and narrates each one through a
text-to-speech provider (with a cache on disk and a 3000-character limit per
provider call). It lays the narration over a randomly chosen gameplay clip
that is long enough, and writes the composed clips out as numbered parts of
at most 180 seconds. Two companion scripts check the Reddit connection and
download the background assets.

This project models the deterministic core of that pipeline in Dafny and
proves what it does:

- **Speech** (`speech.dfy`) covers `synthesize_speech`:
  - the cache check, and the single-call path for short text;
  - the greedy word chunker, written both as a loop (`ChunkText`) and as the specification function `PackWords`;
  - the `_part{i}` path rewriting;
  - the write-combine-delete sequence, on a `SpeechStore` whose `files` map stands for the cache directory.
- **Narration** (`narration.dfy`) covers the narration text and the cache path that `main()` builds for each post.
- **Gameplay** (`gameplay.dfy`) covers:
  - the case-insensitive extension filters;
  - the duration-fit picker `pick_gameplay_clip`;
  - the background-music choice.
- **Packer** (`packer.dfy`) covers `split_and_write_clips`: greedy ordered grouping under the duration ceiling, then numbering the groups `part1..partN`.
- **Reddit** (`reddit.dfy`) covers `get_reddit_posts`: eligible weekly-top submissions with an early return at `max_posts`.
- **RedditCheck** (`reddit_check.dfy`) covers `fetch_top_posts`: recent hot submissions above a threshold, as flat records, with a stop check after every submission.
- **Assets** (`assets.dfy`) covers:
  - the `load_metadata` key filter;
  - pathlib's `stem`;
  - the output template;
  - the skip-or-download decision of `download_one`, on an `AssetFolder` whose listing stands for the output directory.
- **Strings**, **Seqs** and **Wrappers** hold the Python string semantics the rest relies on (`split`, `strip`, `" ".join`, `replace`, `str(n)`, `lower`, `endswith`, `rfind`, `os.path.join`), plus sequence helpers and `Option`/`Result`.

Randomness is an input:
- the shuffle is a permutation `order`;
- `random.uniform(0, x)` is `x * u` for a given `0 <= u < 1`;
- `random.choice` is a given index.

Library values are reduced to what the logic reads. A clip is an id and a duration. A submission is a record of the fields read. A subreddit listing is a function from subreddit name to a sequence of submissions. A media probe is a function from path to duration.

The source's quirks are kept as written:
- If the first word of a long narration has 3000 or more characters, the chunker emits an empty first chunk.
- A word longer than the limit becomes its own oversize chunk.
- If the first clip alone exceeds the packer's ceiling, the packer emits an empty first group: `[200]` packs to `[[], [200]]`, not `[[200]]`. The model follows the code (`Packer.PackOversizedFirst`). That empty group then reaches `concatenate_videoclips`, which in moviepy 1.x (the `moviepy.editor` API the program imports) takes the largest frame size of its clips and so raises on an empty list. The run therefore fails before any part is written; `Packer.SplitAndWriteClips` models this as a failed result with no renders.
- In `fetch_top_posts` the length check runs after every submission, kept or not. So with `max_posts <= 0` exactly one submission is examined, or none when the first listing is empty.

## Model

| member | source | states |
|---|---|---|
| Speech.ChunkText | main.py:76-85 | the chunking loop, which builds `cur` by `strip(cur + ' ' + w)`, returns exactly `Chunks(text)`, the greedy packing of `text.split()` |
| Speech.ChunksPreserveWords | main.py:76-85 | splitting every chunk and concatenating the results in order gives back `text.split()`: no word is lost, split or reordered |
| Speech.ChunksBounded | main.py:79-85 | every chunk has at most 3000 characters or is a single word |
| Speech.ChunksEmptyOnlyFirst | main.py:79-85 | only the first chunk can be empty; it is empty exactly when the first word has 3000 or more characters; there are no chunks exactly when the text has no words |
| Speech.PackWordsFlatten | main.py:78-85 | the specification packer emits the pending words followed by the remaining words, in order |
| Speech.PackWordsBound | main.py:79-83 | each packed group fits the limit joined with spaces, or is one word |
| Speech.PackWordsNonEmpty | main.py:79-85 | once the pending chunk holds a word, every group emitted from then on is non-empty |
| Speech.PackWordsAllWords | main.py:76-85 | packing whitespace-free, non-empty words yields groups of such words |
| Speech.PackWordsFirst | main.py:78-83 | the first chunk emitted starts with the word the pending chunk started with |
| Speech.PackWordsGreedy | main.py:79-83 | every chunk after the first was started by a word that would have taken the chunk before it past the limit |
| Speech.ChunksGreedy | main.py:76-85 | each chunk after the first begins with a word that, added after a space, would not have fit in the chunk before it |
| Speech.PartPath | main.py:88 | when ".mp3" occurs only as the extension, part `i` is the path with `_part{i}` inserted before ".mp3"; when ".mp3" does not occur, every part path is the output path itself |
| Speech.PartPathsDistinct | main.py:87-90 | when ".mp3" occurs in the output path only as the extension, part paths are pairwise distinct and differ from the output path |
| Speech.WithPartsContent | main.py:87-90 | when ".mp3" occurs in the output path only as the extension: after writing the chunks in order, part `i` holds the voice of chunk `i`, and nothing outside the part paths changed |
| Speech.SpeechStore.Synth | main.py:69-72 | one provider call for `chunk`, whose audio is written to `path` |
| Speech.WithPartsKeys | main.py:87-90 | every part path is written, whatever the output path looks like |
| Speech.RemoveEachDistinct | main.py:94-95 | removing distinct paths that all exist succeeds and removes exactly those paths |
| Speech.CombinedThenRemoved | main.py:86-95 | when ".mp3" occurs only as the extension, writing the parts, saving their overlay and removing them leaves the old cache without part files and with the overlay of the chunk voices at the output path, and no removal fails |
| Speech.WithPartsWithoutMp3 | main.py:86-90 | without ".mp3" in the output path every part is written to the output path itself, which ends up holding the last chunk's voice |
| Speech.CombinedThenRemovedWithoutMp3 | main.py:86-95 | without ".mp3" in the output path the first removal deletes the output file; with one chunk every removal succeeds, and with more the second removal fails |
| Speech.SpeechStore.WriteParts | main.py:86-90 | chunk `i` is sent to the provider and written to part `i`, in order, and the part paths are returned in that order |
| Speech.SpeechStore.RemoveParts | main.py:94-95 | removes the paths in order, and fails at the first path that is already gone, leaving the rest |
| Speech.SpeechStore.SynthesizeSpeech | main.py:59-95 | an existing output means no call and no write; short text means one call written straight to the output; long text means one call per chunk, in order, and the cache that results from writing the parts, saving the overlay of what the part paths hold and removing the part paths one by one; with a well-formed path the output is the overlay of the chunk voices and every part file is gone; without ".mp3" in the path (and at least one chunk) the output file is gone afterwards, and the call succeeds exactly when there was one chunk |
| Narration.NarrationText | main.py:158 | the narration starts with the title, and is the title alone when the body is empty |
| Narration.NarrationWords | main.py:158 | the narration's words are the title's words followed by the body's words |
| Narration.CachePath | main.py:159 | the path ends with `{sub}_{id}.mp3`, and is that file inside `audio_cache` exactly when the subreddit name does not start with a slash (otherwise `os.path.join` drops the directory) |
| Narration.CachePathShape | main.py:159 | for plain names the cache path is `audio_cache/{sub}_{id}.mp3`, and ".mp3" occurs in it only as the extension |
| Narration.KeyInjective | main.py:159 | `sub + "_" + id` determines both parts when the id has no underscore |
| Narration.CachePathInjective | main.py:159 | for subreddit names and ids without slashes or dots, and ids without underscores, as Reddit's are: distinct (subreddit, id) pairs get distinct cache paths, so a cache hit is the same post's narration |
| Gameplay.CandidatesMembers | main.py:99 | a path is a candidate exactly when some listed name with an accepted extension joins to it |
| Gameplay.Candidates | main.py:99 | at most one candidate per name, and none exactly when no name has an accepted extension |
| Gameplay.CandidatesAppend | main.py:99 | the filter keeps listing order: the candidates of two stretches of the listing are those of the first followed by those of the second |
| Gameplay.CandidatesAll | main.py:99 | when every name is accepted, candidate `k` is name `k` joined to the folder |
| Gameplay.CandidatesExact | main.py:99 | the filter keeps exactly the names with an accepted extension, joined to the folder; cutting the listing anywhere cuts the candidates at the same place; when every name is accepted, candidate `k` is name `k` joined |
| Gameplay.ExtensionIgnoresCase | main.py:99 | for all names: names that agree once lower-cased get the same verdict, and lower-casing a name first does not change it |
| Gameplay.ExtensionCases | main.py:99 | on named files: `Run.MP4` and `lofi.Mp3` are accepted, `run.mp4.part` and `lofi.wav` are rejected |
| Gameplay.Shuffled | main.py:100 | scan position `i` holds candidate `order[i]` |
| Gameplay.PermutationCovers | main.py:100 | a shuffle order, `n` distinct indices below `n`, takes every index below `n` |
| Gameplay.ShuffledCovers | main.py:100 | the shuffle loses and invents nothing: every candidate is scanned, and only candidates are |
| Gameplay.PickGameplayClip | main.py:98-107 | raises exactly when every `.mp4` in the folder is shorter than `d`, having closed them all; otherwise returns a folder candidate, the first long-enough one in scan order, trimmed to `[start, start + d]` with `0 <= start <= duration - d`, having closed exactly the shorter ones before it |
| Gameplay.ScaleWithin | main.py:104 | `random.uniform(0, x)` lies in `[0, x]` |
| Gameplay.PickMusic | main.py:167-168 | the chosen track is one of the `.mp4`/`.mp3` names (any case) joined to `music`; there is none exactly when no name matches |
| Packer.PackClips | main.py:111-120 | the grouping loop with its running total returns exactly `Pack(clips, max)` |
| Packer.SplitAndWriteClips | main.py:110-125 | one render per group, in order: group `i` goes to `out_dir/part{i+1}.mp4`; the run fails at an empty group, which happens exactly when the first clip alone exceeds the ceiling, and then writes no part |
| Packer.PackFromFlatten | main.py:112-120 | the pending group followed by the remaining clips is what the emitted groups concatenate to |
| Packer.PackFlatten | main.py:111-120 | concatenating the groups reproduces the clips in order |
| Packer.PackFromFirst | main.py:113-115 | a non-empty pending group stays the first group, and every group emitted after it is non-empty |
| Packer.PackFromWithinCeiling | main.py:113-118 | every group sums to at most the ceiling or is a single clip |
| Packer.PackFromGreedy | main.py:116-118 | the first clip of every later group did not fit in the group before it |
| Packer.PackProperties | main.py:111-120 | the groups concatenate back to the input; there are no groups exactly for no clips; each group fits or is a lone clip; the packing is greedy; the first group is empty exactly when the first clip exceeds the ceiling |
| Packer.PackSeventies | main.py:37 | three 70-second clips under 180 seconds give `[[70, 70], [70]]` |
| Packer.PackOversizedFirst | main.py:116-118 | a lone 200-second clip gives an empty group followed by `[200]` |
| Packer.PartFileNamesDistinct | main.py:124 | part file names are pairwise distinct |
| Reddit.GetRedditPosts | main.py:48-56 | the result is the first `max_posts` eligible submissions (score at least the minimum, not stickied) of the subreddits' top listings, each cut to `3 * max_posts`, in order |
| Reddit.EligibleOfAppend | main.py:50-53 | the eligible submissions of two stretches of listings are those of the first followed by those of the second |
| Reddit.StopAfter | main.py:54-55 | once `max_posts` are kept, the rest of the listings cannot change the result |
| RedditCheck.FetchTopPosts | reddit_connection_test.py:39-64 | returns the records of the qualifying submissions among the first `examined` of the subreddits' 20-long hot listings; with `max_posts >= 1`, at most `max_posts` records, stopping at the end or exactly when the bound is reached and never earlier; with `max_posts <= 0`, one submission examined, or none when the first listing is empty |
| RedditCheck.ScanListing | reddit_connection_test.py:50-61 | the inner loop over one listing keeps the records of the qualifying submissions it examines, and stops exactly when the bound is reached or the listing ends; with `max_posts <= 0` it examines one submission, or none for an empty listing |
| RedditCheck.ScanSubreddit | reddit_connection_test.py:49-63 | one pass of the outer loop either leaves the bound unreached with the listing fully scanned, ready for the next subreddit, or stops with the outcome of the whole scan |
| RedditCheck.ScanOne | reddit_connection_test.py:51-60 | examining one more submission appends its record exactly when it qualifies, and keeps the scan below the bound |
| RedditCheck.ScanAtNext | reddit_connection_test.py:49-63 | scanning part of listing `i` either continues at listing `i + 1` or gives the outcome of the whole scan |
| RedditCheck.ScanAtEnd | reddit_connection_test.py:49-64 | once every listing is scanned without reaching the bound, the records of the whole stream are returned |
| RedditCheck.BelowBoundMeans | reddit_connection_test.py:60-63 | the stop rule means that no earlier prefix of the scan had already reached `max_posts` records |
| RedditCheck.ToRecord | reddit_connection_test.py:52-58 | the record's URL is on `https://reddit.com`, and the submission's permalink can be read back from it |
| RedditCheck.KeptExactly | reddit_connection_test.py:51-59 | a record is kept exactly for a submission with `score >= threshold` and `created_utc >= now - 7*24*3600`, and it is that submission's record |
| RedditCheck.KeptRecordShape | reddit_connection_test.py:52-58 | every kept record meets the threshold and its URL starts with `https://reddit.com` |
| RedditCheck.ConfigDefaults | reddit_connection_test.py:46-47 | a missing threshold is 1000 and a missing post bound is 3 |
| Assets.LoadMetadata | download_assets.py:16-18 | exactly the keys not starting with "__" survive, with unchanged values |
| Assets.LoadMetadataIdempotent | download_assets.py:18 | filtering twice is filtering once |
| Assets.LoadMetadataExtremes | download_assets.py:18 | all-plain metadata loads unchanged; all-comment metadata loads empty |
| Assets.Name | download_assets.py:21 | the file name is the whole slash-free tail of the path: either the whole path or the text after its last slash |
| Assets.Stem | download_assets.py:21 | the stem is the name cut before its last dot, when that dot is neither the first nor the last character; otherwise the whole name, which then has no such dot |
| Assets.StemOfFinal | download_assets.py:21-22 | for a non-empty stem without slashes and a non-empty extension without dots or slashes, the stem of `{stem}.{ext}` is `stem` again |
| Assets.OutputTemplate | download_assets.py:22 | the template is the saved file's path up to the dot before the extension, followed by the `%(ext)s` field |
| Assets.Existing | download_assets.py:24 | at most one match per listed name, and none exactly when no listed name starts with `{stem}.` |
| Assets.ExistingExact | download_assets.py:24 | the glob matches are exactly the listed names starting with `{stem}.` |
| Assets.ExistingAppend | download_assets.py:24 | the matches keep listing order: those of two stretches of the listing are those of the first followed by those of the second |
| Assets.ExistingFirst | download_assets.py:24-27 | the first match, which the skip reports, is the first listed name starting with `{stem}.` |
| Assets.SavedIsExisting | download_assets.py:24-27 | a saved `{stem}.{ext}` is matched by the next call's skip check |
| Assets.TemplateYieldsFinal | download_assets.py:22 | when neither the folder nor the stem contains `%`, filling `%(ext)s` in the template with the reported extension gives the path the success check tests |
| Assets.AssetFolder.DownloadOne | download_assets.py:20-51 | any match means a skip naming the first match, with no download; otherwise one download with the template, and success exactly when `{stem}.{ext}` (ext defaulting to "mp4") is then in the folder; after a success the next call skips |
| Strings.SplitJoin | main.py:76 | `" ".join(ws).split() == ws` for whitespace-free, non-empty words |
| Strings.ReplaceOnlySuffix | main.py:88 | replacing a pattern that occurs only as the suffix rewrites just that suffix |
| Strings.OnlyAsSuffixAppended | download_assets.py:22 | a pattern appended to text lacking its first character occurs only as the suffix |
| Strings.NatToStringInjective | main.py:88 | `str(i)` is injective |
| Strings.RFind | download_assets.py:21 | `rfind` gives the last occurrence, or -1 when there is none |

## Left out

- Audio content. `CompositeAudioClip` lays the parts over one another rather than joining them end to end. The model records `Overlay(voices)` and claims nothing about the combined sound.
- moviepy processing: loading, gains 1.2 and 0.15, looping, resizing, compositing, and encoding with `write_videofile`. It is left out because it is library code on media; a render is the output path, the group and the fps.
- The story card (PIL drawing, font metrics) and its 5-second overlay. These are presentation bound to library measurements.
- AWS Polly, PRAW, yt_dlp, YAML/.env/JSON loading and the filesystem calls. These are foreign I/O. They become parameters:
  - the provider's audio is `Spoken(chunk)`;
  - listings and probes are functions;
  - the download's reported extension and written names are inputs;
  - directories are maps or listings.
- Floating point. Durations, timestamps and random draws are `real`, so rounding in `start + d` or `now - 604800` is not modelled.
- Provider and library failures are not modelled: network errors, Polly rejecting text, and moviepy failing on an empty overlay (a long text with no words). moviepy's failure on an empty video group is the one moviepy failure that is modelled (`Packer.SplitAndWriteClips`). Two other library failures are modelled: `random.choice` raising `IndexError` on an empty music list is `Gameplay.PickMusic` returning `None`, and `os.remove` raising `FileNotFoundError` is described on the next line.
- `os.remove` raising `FileNotFoundError` is modelled as `SynthesizeSpeech` returning false, with the removals stopped at the missing path. This happens when ".mp3" does not occur in the output path: every part path is then the output path itself, so the first removal deletes the output file and a second part's removal fails. With a single chunk nothing fails, but the output file is deleted. The narration paths of `main()` always end in ".mp3".
- `RedditCheck.FetchTopPosts`: a configuration value present but null (`None`) is not modelled. Such a value would make the comparisons raise. A missing `subreddits` key would raise `KeyError`; the model takes the list as given.
- The order in which `main()` of the downloader walks the metadata is not modelled. The parsed JSON object is a map, so key order and duplicate keys are not represented.
- The tuple unpacking in that `main()` is not modelled either.
- `Assets.Name`: pathlib's normalisation is not modelled (trailing slashes, `.` components, and the empty path reading as `.`). The name is the text after the last slash.
- `Assets.Existing`: the stem is matched literally. Glob metacharacters in it and case-insensitive file systems are not modelled.
- Non-ASCII case folding: `lower()` is modelled on ASCII letters only.
- The `print` logging of the downloader and the Reddit check is left out.
