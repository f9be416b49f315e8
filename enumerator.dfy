/**
 * Job enumeration and output naming of images_resizer.go: the filter loop
 * over the directory listing and the `name + "_resized" + ext` output name.
 * Strings are sequences of characters; `strings.ToLower` is modelled on
 * ASCII letters and `filepath.Ext` on bare file names (a listing entry
 * holds no path separator).
 */
module Enumerator {

  /** The marker that names already produced by a run carry in their base name. */
  const Marker: string := "_resized"

  /** The keys of `possibleExts`. */
  const ImageExtensions: set<string> := {".jpg", ".jpeg", ".png", ".gif"}

  predicate IsUpper(c: char)
  {
    'A' <= c <= 'Z'
  }

  function LowerChar(c: char): (l: char)
    ensures !IsUpper(l)
    ensures IsUpper(c) ==> l as int == c as int + 32
    ensures !IsUpper(c) ==> l == c
  {
    if IsUpper(c) then (c as int + 32) as char else c
  }

  /** `strings.ToLower` on ASCII: upper-case letters become lower case, nothing else changes. */
  function ToLower(s: string): (t: string)
    ensures |t| == |s|
    ensures forall k :: 0 <= k < |s| ==>
              !IsUpper(t[k]) && (if IsUpper(s[k]) then t[k] as int == s[k] as int + 32 else t[k] == s[k])
  {
    seq(|s|, k requires 0 <= k < |s| => LowerChar(s[k]))
  }

  /**
   * `filepath.Ext` of a bare name: the suffix that starts at the last '.',
   * or the empty string when there is no '.'.
   */
  function Ext(path: string): (e: string)
    ensures |e| <= |path|
  {
    if |path| == 0 then []
    else if path[|path| - 1] == '.' then path[|path| - 1..]
    else
      var e := Ext(path[..|path| - 1]);
      if e == [] then [] else e + [path[|path| - 1]]
  }

  predicate OccursAt(s: string, sub: string, k: int)
  {
    0 <= k <= |s| - |sub| && s[k..k + |sub|] == sub
  }

  /**
   * The extension is a suffix of the name; it is empty exactly when the name
   * has no '.', and otherwise starts at a '.' and holds no other.
   */
  lemma {:induction false} ExtIsLastDotSuffix(path: string)
    ensures Ext(path) == path[|path| - |Ext(path)|..]
    ensures Ext(path) == [] <==> '.' !in path
    ensures Ext(path) != [] ==> Ext(path)[0] == '.' && '.' !in Ext(path)[1..]
    decreases |path|
  {
    if |path| > 0 && path[|path| - 1] != '.' {
      var init := path[..|path| - 1];
      ExtIsLastDotSuffix(init);
      assert path == init + [path[|path| - 1]];
      var e := Ext(init);
      if e != [] {
        assert Ext(path)[1..] == e[1..] + [path[|path| - 1]];
      }
    }
  }

  /** `strings.Contains`. */
  predicate Contains(s: string, sub: string)
  {
    exists k :: 0 <= k <= |s| - |sub| && OccursAt(s, sub, k)
  }

  /** The base name: the file name without as many trailing characters as its (lowered) extension has. */
  function Name(filename: string): string
  {
    filename[..|filename| - |ToLower(Ext(filename))|]
  }

  /** The selection test of the enumeration loop. */
  predicate IsImageJob(filename: string)
  {
    var ext := ToLower(Ext(filename));
    !Contains(Name(filename), Marker) && ext in ImageExtensions
  }

  /** The file a worker writes for `filename`: base name, marker, lower-cased extension. */
  function OutputName(filename: string): string
  {
    Name(filename) + Marker + ToLower(Ext(filename))
  }

  /** The job list: the selected entries of the listing, in listing order. */
  function Jobs(listing: seq<string>): seq<string>
  {
    if listing == [] then []
    else
      var f := listing[|listing| - 1];
      Jobs(listing[..|listing| - 1]) + (if IsImageJob(f) then [f] else [])
  }

  /** The output names of a job list, in the same order. */
  function OutputNames(jobs: seq<string>): (outs: seq<string>)
    ensures |outs| == |jobs|
    ensures forall k :: 0 <= k < |jobs| ==> outs[k] == OutputName(jobs[k])
  {
    seq(|jobs|, k requires 0 <= k < |jobs| => OutputName(jobs[k]))
  }

  /** The enumeration loop: appends every selected entry of the listing to `imageFiles`. */
  method EnumerateJobs(listing: seq<string>) returns (imageFiles: seq<string>)
    ensures imageFiles == Jobs(listing)
  {
    imageFiles := [];
    for k := 0 to |listing|
      invariant imageFiles == Jobs(listing[..k])
    {
      var filename := listing[k];
      var ext := ToLower(Ext(filename));
      var name := filename[..|filename| - |ext|];
      // add only files with an image extension, and skip already resized ones
      if !Contains(name, Marker) && ext in ImageExtensions {
        imageFiles := imageFiles + [filename];
      }
      assert listing[..k + 1][..k] == listing[..k];
    }
    assert listing[..|listing|] == listing;
  }

  /** The job list of a concatenated listing is the concatenation of the job lists. */
  lemma {:induction false} JobsAppend(a: seq<string>, b: seq<string>)
    ensures Jobs(a + b) == Jobs(a) + Jobs(b)
    decreases |b|
  {
    if b == [] {
      assert a + b == a;
    } else {
      var b' := b[..|b| - 1];
      assert (a + b)[..|a + b| - 1] == a + b';
      JobsAppend(a, b');
    }
  }

  /** A one-entry listing yields that entry exactly when it is selected. */
  lemma JobsSingleton(f: string)
    ensures Jobs([f]) == if IsImageJob(f) then [f] else []
  {
    assert [f][..0] == [];
  }

  /** An entry is a job exactly when it is in the listing and passes the selection test. */
  lemma {:induction false} JobsMembership(listing: seq<string>, f: string)
    ensures f in Jobs(listing) <==> f in listing && IsImageJob(f)
    decreases |listing|
  {
    if listing != [] {
      var init := listing[..|listing| - 1];
      assert listing == init + [listing[|listing| - 1]];
      JobsMembership(init, f);
    }
  }

  /** Every recognised extension is a single '.' followed by lower-case letters. */
  lemma ImageExtensionShape(ext: string)
    requires ext in ImageExtensions
    ensures |ext| > 1 && ext[0] == '.' && '.' !in ext[1..]
    ensures ToLower(ext) == ext
  {
    if ext == ".jpg" {
      assert ToLower(ext) == ".jpg";
    } else if ext == ".jpeg" {
      assert ToLower(ext) == ".jpeg";
    } else if ext == ".png" {
      assert ToLower(ext) == ".png";
    } else {
      assert ToLower(ext) == ".gif";
    }
  }

  /** A suffix that starts with the only '.' in it is the extension of anything it ends. */
  lemma {:induction false} ExtOfSuffix(p: string, e: string)
    requires |e| > 0 && e[0] == '.' && '.' !in e[1..]
    ensures Ext(p + e) == e
    decreases |e|
  {
    var s := p + e;
    if |e| > 1 {
      var e' := e[..|e| - 1];
      assert e'[1..] == e[1..|e| - 1];
      assert s[..|s| - 1] == p + e';
      ExtOfSuffix(p, e');
      assert s[|s| - 1] == e[|e| - 1] && e[|e| - 1] in e[1..];
    }
  }

  /** Name and extension of a base joined to a recognised extension. */
  lemma SplitImageName(base: string, ext: string)
    requires ext in ImageExtensions
    ensures Ext(base + ext) == ext
    ensures Name(base + ext) == base
  {
    ImageExtensionShape(ext);
    ExtOfSuffix(base, ext);
    assert (base + ext)[..|base|] == base;
  }

  /** The output name of a job carries the job's lower-cased extension as its own extension. */
  lemma OutputNameExt(f: string)
    requires ToLower(Ext(f)) in ImageExtensions
    ensures Ext(OutputName(f)) == ToLower(Ext(f))
    ensures Name(OutputName(f)) == Name(f) + Marker
  {
    var ext := ToLower(Ext(f));
    assert OutputName(f) == (Name(f) + Marker) + ext;
    SplitImageName(Name(f) + Marker, ext);
  }

  /** No output name is ever selected: a second run does not resize the first run's outputs. */
  lemma OutputNameNotSelected(f: string)
    requires ToLower(Ext(f)) in ImageExtensions
    ensures !IsImageJob(OutputName(f))
  {
    OutputNameExt(f);
    MarkedNameContainsMarker(Name(f));
  }

  lemma MarkedNameContainsMarker(base: string)
    ensures Contains(base + Marker, Marker)
  {
    assert OccursAt(base + Marker, Marker, |base|);
  }

  /**
   * Two jobs with the same output name have the same base name and the same
   * extension up to case.
   */
  lemma OutputNameDeterminesJob(f1: string, f2: string)
    requires IsImageJob(f1) && IsImageJob(f2) && OutputName(f1) == OutputName(f2)
    ensures Name(f1) == Name(f2) && ToLower(Ext(f1)) == ToLower(Ext(f2))
  {
    OutputNameExt(f1);
    OutputNameExt(f2);
    var n1, n2 := Name(f1), Name(f2);
    assert |n1| == |n2|;
    assert n1 == (n1 + Marker)[..|n1|];
  }

  /**
   * A base name without the marker joined to an extension whose lower-case
   * form is recognised is selected, and is written under that lower-case form.
   */
  lemma ImageJobOf(base: string, ext: string)
    requires |ext| > 0 && ext[0] == '.' && '.' !in ext[1..]
    requires ToLower(ext) in ImageExtensions && !Contains(base, Marker)
    ensures Ext(base + ext) == ext && Name(base + ext) == base
    ensures IsImageJob(base + ext)
    ensures OutputName(base + ext) == base + Marker + ToLower(ext)
  {
    ExtOfSuffix(base, ext);
    assert (base + ext)[..|base|] == base;
  }

  /**
   * Output names are not unique: "a.PNG" and "a.png" are two different jobs
   * that both write "a_resized.png".
   */
  lemma OutputNameCaseCollision()
    ensures IsImageJob("a.PNG") && IsImageJob("a.png")
    ensures OutputName("a.PNG") == OutputName("a.png") == "a_resized.png"
  {
    assert ToLower(".PNG") == ".png" && ToLower(".png") == ".png";
    assert !OccursAt("a", Marker, 0);
    ImageJobOf("a", ".PNG");
    ImageJobOf("a", ".png");
    assert "a" + ".png" == "a.png" && "a" + ".PNG" == "a.PNG";
    assert "a" + Marker + ".png" == "a_resized.png";
  }

  /**
   * Re-running over a directory whose entries are first-run entries or
   * first-run outputs selects only jobs of the first run.
   */
  lemma SecondRunSelectsNoOutputs(first: seq<string>, second: seq<string>)
    requires forall e :: e in second ==> e in first || e in OutputNames(Jobs(first))
    ensures forall f :: f in Jobs(second) ==> f in Jobs(first)
  {
    forall f | f in Jobs(second)
      ensures f in Jobs(first)
    {
      JobsMembership(second, f);
      if f !in first {
        var outs := OutputNames(Jobs(first));
        var k :| 0 <= k < |outs| && outs[k] == f;
        var g := Jobs(first)[k];
        JobsMembership(first, g);
        OutputNameNotSelected(g);
      }
      JobsMembership(first, f);
    }
  }

  /** Appending the first run's outputs to its listing leaves the job list unchanged. */
  lemma RerunIsIdempotent(listing: seq<string>)
    ensures Jobs(listing + OutputNames(Jobs(listing))) == Jobs(listing)
  {
    var outs := OutputNames(Jobs(listing));
    JobsAppend(listing, outs);
    forall f | f in Jobs(listing)
      ensures IsImageJob(f)
    {
      JobsMembership(listing, f);
    }
    NoOutputIsAJob(Jobs(listing));
    assert Jobs(listing) + [] == Jobs(listing);
  }

  /** A listing made only of output names of jobs yields no jobs. */
  lemma {:induction false} NoOutputIsAJob(jobs: seq<string>)
    requires forall f :: f in jobs ==> IsImageJob(f)
    ensures Jobs(OutputNames(jobs)) == []
    decreases |jobs|
  {
    if jobs != [] {
      var init := jobs[..|jobs| - 1];
      assert OutputNames(jobs)[..|jobs| - 1] == OutputNames(init);
      NoOutputIsAJob(init);
      var g := jobs[|jobs| - 1];
      assert g in jobs && IsImageJob(g);
      OutputNameNotSelected(g);
    }
  }

  /**
   * A base name without the marker joined to a recognised extension is
   * selected and written under that same extension.
   */
  lemma RecognisedImageJob(base: string, ext: string)
    requires ext in ImageExtensions && !Contains(base, Marker)
    ensures IsImageJob(base + ext) && OutputName(base + ext) == base + Marker + ext
  {
    ImageExtensionShape(ext);
    ImageJobOf(base, ext);
  }

  /** The output of an earlier run, `c_resized.gif`, is not selected. */
  lemma ExampleSkipped()
    ensures !IsImageJob("c_resized.gif")
  {
    SplitImageName("c_resized", ".gif");
    assert "c_resized" + ".gif" == "c_resized.gif";
    assert OccursAt("c_resized", Marker, 1);
  }

  /** The job list of a three-entry listing, entry by entry. */
  lemma JobsOfThree(f1: string, f2: string, f3: string)
    ensures Jobs([f1, f2, f3]) ==
      (if IsImageJob(f1) then [f1] else []) + (if IsImageJob(f2) then [f2] else []) +
      (if IsImageJob(f3) then [f3] else [])
  {
    JobsSingleton(f1);
    assert [f1, f2][..1] == [f1];
    assert Jobs([f1, f2]) == Jobs([f1]) + (if IsImageJob(f2) then [f2] else []);
    assert [f1, f2, f3][..2] == [f1, f2];
  }

  /**
   * Two unmarked names with recognised extensions around a marked one: the
   * unmarked ones are the jobs, in order, each written under its own extension.
   */
  lemma JobsOfTwoImagesAndAnOutput(a: string, b: string, c: string)
    requires !Contains(a, Marker) && !Contains(b, Marker) && Contains(c, Marker)
    ensures Jobs([a + ".png", b + ".jpg", c + ".gif"]) == [a + ".png", b + ".jpg"]
    ensures OutputNames([a + ".png", b + ".jpg"]) == [a + Marker + ".png", b + Marker + ".jpg"]
  {
    RecognisedImageJob(a, ".png");
    RecognisedImageJob(b, ".jpg");
    SplitImageName(c, ".gif");
    JobsOfThree(a + ".png", b + ".jpg", c + ".gif");
  }

  /**
   * A listing of `a.png`, `b.jpg` and `c_resized.gif` yields the jobs
   * `a.png` and `b.jpg`, written to `a_resized.png` and `b_resized.jpg`.
   */
  lemma ExampleRun()
    ensures Jobs(["a.png", "b.jpg", "c_resized.gif"]) == ["a.png", "b.jpg"]
    ensures OutputNames(["a.png", "b.jpg"]) == ["a_resized.png", "b_resized.jpg"]
  {
    assert !OccursAt("a", Marker, 0) && !OccursAt("b", Marker, 0) && OccursAt("c_resized", Marker, 1);
    JobsOfTwoImagesAndAnOutput("a", "b", "c_resized");
    assert "a" + ".png" == "a.png" && "b" + ".jpg" == "b.jpg" && "c_resized" + ".gif" == "c_resized.gif";
    assert "a" + Marker + ".png" == "a_resized.png" && "b" + Marker + ".jpg" == "b_resized.jpg";
  }
}
