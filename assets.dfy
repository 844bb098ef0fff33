/** The asset downloader (download_assets.py): the metadata key filter
    `load_metadata` and the skip-or-download decision of `download_one`.
    JSON parsing and yt_dlp are outside the model: the parsed object is a
    map, a folder is its listing of names, and what a download reports and
    writes are inputs. */
module Assets {
  import opened Strings
  import opened Wrappers

  // ---------------------------------------------------------------------
  // load_metadata
  // ---------------------------------------------------------------------

  /** Keys starting with "__" are comments in the metadata files. */
  predicate IsCommentKey(k: string) {
    StartsWith(k, "__")
  }

  /** `{k: v for k, v in data.items() if not k.startswith("__")}`: exactly
      the keys without the "__" prefix survive, with their values. */
  function LoadMetadata<V>(data: map<string, V>): (r: map<string, V>)
    ensures forall k :: k in r <==> k in data && !IsCommentKey(k)
    ensures forall k :: k in r ==> r[k] == data[k]
  {
    map k | k in data && !IsCommentKey(k) :: data[k]
  }

  /** Filtering twice is filtering once. */
  lemma LoadMetadataIdempotent<V>(data: map<string, V>)
    ensures LoadMetadata(LoadMetadata(data)) == LoadMetadata(data)
  {
  }

  /** A file whose keys are all plain loads unchanged; one made only of
      comment keys loads empty. */
  lemma LoadMetadataExtremes<V>(data: map<string, V>)
    ensures (forall k :: k in data ==> !IsCommentKey(k)) ==> LoadMetadata(data) == data
    ensures (forall k :: k in data ==> IsCommentKey(k)) ==> LoadMetadata(data) == map[]
  {
  }

  // ---------------------------------------------------------------------
  // Names
  // ---------------------------------------------------------------------

  /** `PurePath(path).name`: the text after the last slash. */
  function Name(path: string): (r: string)
    ensures Lacks(r, '/')
    ensures |r| <= |path| && r == path[|path| - |r|..]
    ensures |r| < |path| ==> path[|path| - |r| - 1] == '/'
  {
    path[RFind(path, '/') + 1..]
  }

  /** `PurePath(path).stem`: the name without its last suffix, where a suffix
      is a dot that is neither the first nor the last character of the name,
      and what follows it. The name is kept whole exactly when it has no
      such dot: every dot inside it is followed by a final dot (`a.b.`), or
      there is none (`.bashrc`, `README`). */
  function Stem(path: string): (r: string)
    ensures Lacks(r, '/')
    ensures StartsWith(Name(path), r)
    ensures var name := Name(path);
      |r| < |name| ==> 0 < |r| < |name| - 1 && name[|r|] == '.' && Lacks(name[|r| + 1..], '.')
    ensures var name := Name(path);
      |r| == |name| ==> forall i :: 0 < i < |name| - 1 && name[i] == '.' ==> name[|name| - 1] == '.'
  {
    var name := Name(path);
    LastDot(name);
    CutAtLastDot(name)
  }

  /** The name cut before its last dot, when that dot is neither first nor last. */
  function CutAtLastDot(name: string): string {
    var i := RFind(name, '.');
    if 0 < i < |name| - 1 then name[..i] else name
  }

  /** What `rfind('.')` tells about the cut. */
  lemma LastDot(name: string)
    ensures var r := CutAtLastDot(name);
      StartsWith(name, r) && (Lacks(name, '/') ==> Lacks(r, '/'))
    ensures var r := CutAtLastDot(name);
      |r| < |name| ==> 0 < |r| < |name| - 1 && name[|r|] == '.' && Lacks(name[|r| + 1..], '.')
    ensures var r := CutAtLastDot(name);
      |r| == |name| ==> forall j :: 0 < j < |name| - 1 && name[j] == '.' ==> name[|name| - 1] == '.'
  {
    var i := RFind(name, '.');
    if 0 < i < |name| - 1 {
      var ext := name[i + 1..];
      forall k | 0 <= k < |ext| ensures ext[k] != '.' {
        assert ext[k] == name[i + 1 + k];
      }
    }
  }

  /** `str(out_dir / f"{stem}.%(ext)s")`: where yt_dlp is told to write,
      which is the saved file's path up to its extension, followed by the
      field yt_dlp fills with the extension. */
  function OutputTemplate(outDir: string, stem: string): (r: string)
    ensures r == PathJoin(outDir, stem + ".") + "%(ext)s"
  {
    PathJoinAppend(outDir, stem + ".", "%(ext)s");
    assert stem + ".%(ext)s" == (stem + ".") + "%(ext)s";
    PathJoin(outDir, stem + ".%(ext)s")
  }

  /** `f"{stem}.{ext}"`: the file the success check looks for. */
  function FinalName(stem: string, ext: string): string {
    stem + "." + ext
  }

  /** `out_dir.glob(f"{stem}.*")` over the folder listing `names`, in
      listing order: at most one match per name, and none exactly when no
      listed name starts with the stem and a dot. */
  function Existing(names: seq<string>, stem: string): (r: seq<string>)
    ensures |r| <= |names|
    ensures r == [] <==> forall k :: 0 <= k < |names| ==> !StartsWith(names[k], stem + ".")
    decreases |names|
  {
    if names == [] then []
    else
      assert forall k :: 1 <= k < |names| ==> names[k] == names[1..][k - 1];
      (if StartsWith(names[0], stem + ".") then [names[0]] else []) + Existing(names[1..], stem)
  }

  // ---------------------------------------------------------------------
  // What the names guarantee
  // ---------------------------------------------------------------------

  /** The matches are exactly the listed names that begin with the stem and a
      dot. */
  lemma {:induction false} ExistingExact(names: seq<string>, stem: string)
    ensures forall n :: n in Existing(names, stem) <==> n in names && StartsWith(n, stem + ".")
    decreases |names|
  {
    if names != [] {
      ExistingExact(names[1..], stem);
      assert forall n :: n in names <==> n == names[0] || n in names[1..];
    }
  }

  /** The matches keep listing order: the matches of a listing cut anywhere
      are those of the first part followed by those of the second. */
  lemma {:induction false} ExistingAppend(a: seq<string>, b: seq<string>, stem: string)
    ensures Existing(a + b, stem) == Existing(a, stem) + Existing(b, stem)
    decreases |a|
  {
    if a == [] {
      assert a + b == b;
    } else {
      var ab := a + b;
      assert ab[0] == a[0] && ab[1..] == a[1..] + b;
      var head := if StartsWith(a[0], stem + ".") then [a[0]] else [];
      var x, y := Existing(a[1..], stem), Existing(b, stem);
      assert Existing(ab, stem) == head + Existing(ab[1..], stem);
      assert Existing(a, stem) == head + x;
      ExistingAppend(a[1..], b, stem);
      assert head + (x + y) == (head + x) + y;
    }
  }

  /** The first match is the first listed name that begins with the stem and
      a dot, so the skip reports that name. */
  lemma {:induction false} ExistingFirst(names: seq<string>, stem: string, k: nat)
    requires k < |names| && StartsWith(names[k], stem + ".")
    requires forall j :: 0 <= j < k ==> !StartsWith(names[j], stem + ".")
    ensures Existing(names, stem) != [] && Existing(names, stem)[0] == names[k]
    decreases k
  {
    if k > 0 {
      assert !StartsWith(names[0], stem + ".");
      assert forall j :: 0 <= j < k - 1 ==> names[1..][j] == names[j + 1];
      ExistingFirst(names[1..], stem, k - 1);
    }
  }

  /** Once the file a download reported is in the folder, the next call for
      the same file name finds it and skips. */
  lemma SavedIsExisting(names: seq<string>, stem: string, ext: string)
    requires FinalName(stem, ext) in names
    ensures FinalName(stem, ext) in Existing(names, stem)
    ensures Existing(names, stem) != []
  {
    ExistingExact(names, stem);
    assert FinalName(stem, ext)[..|stem + "."|] == stem + ".";
  }

  /** Appending to the second component appends to the joined path. */
  lemma PathJoinAppend(a: string, b: string, c: string)
    requires b != []
    ensures PathJoin(a, b + c) == PathJoin(a, b) + c
  {
    assert StartsWith(b + c, "/") <==> StartsWith(b, "/") by {
      assert (b + c)[..1] == b[..1];
    }
    if !StartsWith(b, "/") {
      if a == [] || EndsWith(a, "/") {
        assert a + (b + c) == (a + b) + c;
      } else {
        assert a + "/" + (b + c) == (a + "/" + b) + c;
      }
    }
  }

  lemma PathJoinLacks(a: string, b: string, ch: char)
    requires ch != '/' && Lacks(a, ch) && Lacks(b, ch)
    ensures Lacks(PathJoin(a, b), ch)
  {
    var p := PathJoin(a, b);
    if !(StartsWith(b, "/") || a == [] || EndsWith(a, "/")) {
      forall k | 0 <= k < |p| ensures p[k] != ch {
        if k < |a| {
          assert p[k] == a[k];
        } else if k > |a| {
          assert p[k] == b[k - |a| - 1];
        }
      }
    }
  }

  /** yt_dlp fills the template's `%(ext)s` field with the extension it
      reports, which yields exactly the path the success check tests, as
      long as the folder and the stem hold no `%` of their own. */
  lemma TemplateYieldsFinal(outDir: string, stem: string, ext: string)
    requires Lacks(outDir, '%') && Lacks(stem, '%')
    ensures Replace(OutputTemplate(outDir, stem), "%(ext)s", ext) == PathJoin(outDir, FinalName(stem, ext))
  {
    var b := stem + ".";
    var pat := "%(ext)s";
    PathJoinAppend(outDir, b, ext);
    assert Lacks(b, '%') by {
      assert forall k :: 0 <= k < |stem| ==> b[k] == stem[k];
    }
    PathJoinLacks(outDir, b, '%');
    var p := PathJoin(outDir, b);
    var t := p + pat;
    assert t == OutputTemplate(outDir, stem);
    OnlyAsSuffixAppended(p, pat);
    ReplaceOnlySuffix(t, pat, ext);
    assert t[..|t| - |pat|] == p;
  }

  /** The saved file's stem is the stem it was saved under: for a stem
      without slashes and an extension without dots or slashes, `Stem`
      undoes `FinalName`. */
  lemma StemOfFinal(stem: string, ext: string)
    requires stem != [] && Lacks(stem, '/')
    requires ext != [] && Lacks(ext, '.') && Lacks(ext, '/')
    ensures Stem(FinalName(stem, ext)) == stem
  {
    var s := FinalName(stem, ext);
    FinalNameShape(stem, ext);
    RFindAt(s, '/', -1);
    assert Name(s) == s;
    RFindAt(s, '.', |stem|);
    assert CutAtLastDot(s) == stem;
  }

  /** Where the slashes and dots of `{stem}.{ext}` can be. */
  lemma FinalNameShape(stem: string, ext: string)
    requires Lacks(stem, '/') && Lacks(ext, '.') && Lacks(ext, '/')
    ensures var s := FinalName(stem, ext);
      Lacks(s, '/') && s[|stem|] == '.' && s[..|stem|] == stem
      && forall k :: |stem| < k < |s| ==> s[k] != '.'
  {
    var s := FinalName(stem, ext);
    forall k | 0 <= k < |s| ensures s[k] != '/' && (k > |stem| ==> s[k] != '.') {
      if k < |stem| {
        assert s[k] == stem[k];
      } else if k > |stem| {
        assert s[k] == ext[k - |stem| - 1];
      }
    }
    assert s[..|stem|] == stem;
  }

  // ---------------------------------------------------------------------
  // download_one
  // ---------------------------------------------------------------------

  /** What `download_one` reports: a skip naming the first match, a saved
      file, or a failure. */
  datatype Outcome = Skipped(existing: string) | Saved(name: string) | Failed

  /** A download handed to yt_dlp: the URI and the output template. */
  datatype Fetch = Fetch(uri: string, template: string)

  /** An output folder: its listing and the downloads started into it. */
  class AssetFolder {
    const dir: string
    var names: seq<string>
    var fetches: seq<Fetch>

    constructor (dir: string, names: seq<string>)
      ensures this.dir == dir && this.names == names && fetches == []
    {
      this.dir := dir;
      this.names := names;
      fetches := [];
    }

    /** `download_one(uri, filename, out_dir)`. `reportedExt` is the `ext`
        entry of the info yt_dlp returns (absent: `None`), and `written` the
        names the download adds to the folder. */
    method DownloadOne(uri: string, filename: string, reportedExt: Option<string>, written: seq<string>)
      returns (r: Outcome)
      modifies this
      ensures var stem := Stem(filename);
        old(Existing(names, stem)) != [] ==>
          r == Skipped(old(Existing(names, stem))[0]) && names == old(names) && fetches == old(fetches)
      ensures var stem := Stem(filename);
        old(Existing(names, stem)) == [] ==>
          fetches == old(fetches) + [Fetch(uri, OutputTemplate(dir, stem))] &&
          names == old(names) + written &&
          r == if FinalName(stem, reportedExt.GetOr("mp4")) in names
               then Saved(FinalName(stem, reportedExt.GetOr("mp4"))) else Failed
      ensures r.Saved? ==> Existing(names, Stem(filename)) != []
    {
      var stem := Stem(filename);
      var template := OutputTemplate(dir, stem);
      var existing := Existing(names, stem);
      if existing != [] {
        return Skipped(existing[0]);
      }
      fetches := fetches + [Fetch(uri, template)];
      names := names + written;
      var ext := reportedExt.GetOr("mp4");
      var final := FinalName(stem, ext);
      if final in names {
        SavedIsExisting(names, stem, ext);
        r := Saved(final);
      } else {
        r := Failed;
      }
    }
  }
}
