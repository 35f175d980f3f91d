/** The asset catalog scanner: the initialiser of `ContentView.models`, which
    lists the application bundle's resource directory, keeps the file names
    ending in "usdz" and turns each into a display name by deleting every
    ".usdz" in it. The file system is an input: `None` stands for a bundle
    without a resource path or a directory that cannot be listed. */
module Catalog {
  import opened Wrappers

  /** The suffix `hasSuffix` tests for; note that it has no dot. */
  const ModelSuffix: string := "usdz"

  /** The text `replacingOccurrences` deletes from a kept file name. */
  const ModelExtension: string := ".usdz"

  // ---------------------------------------------------------------------
  // Strings
  // ---------------------------------------------------------------------

  /** Swift's `s.hasSuffix(suffix)`, character by character. */
  predicate HasSuffix(s: string, suffix: string)
  {
    |suffix| <= |s| && s[|s| - |suffix|..] == suffix
  }

  /** `p` occurs in `s` starting at index `i`. */
  predicate OccursAt(s: string, p: string, i: int) {
    0 <= i && i + |p| <= |s| && s[i..i + |p|] == p
  }

  /** `p` occurs somewhere in `s`. */
  ghost predicate Occurs(s: string, p: string) {
    exists i :: OccursAt(s, p, i)
  }

  /** Swift's `s.replacingOccurrences(of: p, with: "")`: a single scan from
      left to right that deletes every non-overlapping occurrence of `p`.
      Text that only forms `p` after a deletion is not deleted again.
      Deleting never lengthens the name. */
  function RemoveAll(s: string, p: string): (r: string)
    requires |p| > 0
    ensures |r| <= |s|
    decreases |s|
  {
    if |s| == 0 then []
    else if |p| <= |s| && s[..|p|] == p then RemoveAll(s[|p|..], p)
    else [s[0]] + RemoveAll(s[1..], p)
  }

  /** A file the scanner keeps: its name ends in "usdz", with or without a
      dot before it. */
  predicate IsModelFile(fileName: string)
  {
    HasSuffix(fileName, ModelSuffix)
  }

  /** The display name the scanner derives from a kept file name; never
      longer than the file name (see DisplayNameUnchangedIff for when the two
      are equal). */
  function DisplayName(fileName: string): (name: string)
    ensures |name| <= |fileName|
  {
    RemoveAll(fileName, ModelExtension)
  }

  /** `hasSuffix` holds exactly when `s` is some text followed by `suffix`. */
  lemma HasSuffixIff(s: string, suffix: string)
    ensures HasSuffix(s, suffix) <==> exists t :: s == t + suffix
  {
    if HasSuffix(s, suffix) {
      assert s == s[..|s| - |suffix|] + suffix;
    }
    forall t | s == t + suffix ensures HasSuffix(s, suffix) {
      assert s[|s| - |suffix|..] == suffix;
    }
  }

  /** A file is kept exactly when its name is some text followed by "usdz". */
  lemma IsModelFileIff(fileName: string)
    ensures IsModelFile(fileName) <==> exists base :: fileName == base + "usdz"
  {
    HasSuffixIff(fileName, ModelSuffix);
  }

  /** The display name is the file name itself exactly when the file name
      holds no ".usdz". */
  lemma DisplayNameUnchangedIff(fileName: string)
    ensures DisplayName(fileName) == fileName <==> !Occurs(fileName, ModelExtension)
  {
    RemoveAllUnchangedIff(fileName, ModelExtension);
  }

  // ---------------------------------------------------------------------
  // The scanner
  // ---------------------------------------------------------------------

  /** What the scan of a readable listing yields, defined the way the loop
      builds it: each file name, in listing order, appends its display name
      when it is a model file and nothing otherwise. It never yields more
      names than the listing holds. */
  function CatalogOf(files: seq<string>): (models: seq<string>)
    ensures |models| <= |files|
  {
    if |files| == 0 then []
    else
      var last := files[|files| - 1];
      CatalogOf(files[..|files| - 1]) + (if IsModelFile(last) then [DisplayName(last)] else [])
  }

  /** What the scanner yields for a listing, or for a directory it cannot read. */
  function Scanned(listing: Option<seq<string>>): (models: seq<string>)
    ensures listing.None? ==> models == []
    ensures listing.Some? ==> |models| <= |listing.value|
  {
    match listing
    case None => []
    case Some(files) => CatalogOf(files)
  }

  /** The `models` initialiser: a loop that appends to `availableModels`. */
  method ScanModels(listing: Option<seq<string>>) returns (availableModels: seq<string>)
    ensures listing.None? ==> availableModels == []
    ensures availableModels == Scanned(listing)
  {
    if listing.None? {
      return [];
    }
    var files := listing.value;
    availableModels := [];
    var i := 0;
    while i < |files|
      invariant 0 <= i <= |files|
      invariant availableModels == CatalogOf(files[..i])
    {
      var fileName := files[i];
      assert files[..i + 1][..i] == files[..i];
      if HasSuffix(fileName, ModelSuffix) {
        var modelName := RemoveAll(fileName, ModelExtension);
        availableModels := availableModels + [modelName];
      }
      i := i + 1;
    }
    assert files[..|files|] == files;
  }

  // ---------------------------------------------------------------------
  // Which listing positions the scan keeps
  // ---------------------------------------------------------------------

  /** The positions of the model files in a listing, in increasing order:
      an independent description of the scan, by index. */
  ghost function KeptPositions(files: seq<string>): seq<nat>
  {
    if |files| == 0 then []
    else
      KeptPositions(files[..|files| - 1])
        + (if IsModelFile(files[|files| - 1]) then [|files| - 1] else [])
  }

  /** The kept positions are valid indices, strictly increasing, and a
      position is kept exactly when the file there is a model file. */
  lemma {:induction false} KeptPositionsExact(files: seq<string>)
    ensures forall k :: 0 <= k < |KeptPositions(files)| ==> KeptPositions(files)[k] < |files|
    ensures forall j, k :: 0 <= j < k < |KeptPositions(files)| ==>
              KeptPositions(files)[j] < KeptPositions(files)[k]
    ensures forall i :: 0 <= i < |files| ==> (IsModelFile(files[i]) <==> i in KeptPositions(files))
  {
    if |files| > 0 {
      var init := files[..|files| - 1];
      KeptPositionsExact(init);
      assert forall i :: 0 <= i < |init| ==> init[i] == files[i];
    }
  }

  /** The scan yields one entry per kept position, in the same order, and the
      entry is the display name of the file at that position. Together with
      KeptPositionsExact: exactly one entry per model file, in listing order,
      and none for any other file. */
  lemma {:induction false} CatalogAtKeptPositions(files: seq<string>)
    ensures |CatalogOf(files)| == |KeptPositions(files)|
    ensures forall k :: 0 <= k < |CatalogOf(files)| ==>
              KeptPositions(files)[k] < |files| &&
              CatalogOf(files)[k] == DisplayName(files[KeptPositions(files)[k]])
  {
    if |files| > 0 {
      var init := files[..|files| - 1];
      var last := files[|files| - 1];
      CatalogAtKeptPositions(init);
      var names, kept := CatalogOf(init), KeptPositions(init);
      assert CatalogOf(files) == names + (if IsModelFile(last) then [DisplayName(last)] else []);
      assert KeptPositions(files) == kept + (if IsModelFile(last) then [|files| - 1] else []);
      forall k | 0 <= k < |CatalogOf(files)|
        ensures KeptPositions(files)[k] < |files|
        ensures CatalogOf(files)[k] == DisplayName(files[KeptPositions(files)[k]])
      {
        if k < |names| {
          assert CatalogOf(files)[k] == names[k];
          assert KeptPositions(files)[k] == kept[k];
          assert init[kept[k]] == files[kept[k]];
        }
      }
    }
  }

  /** Scanning a listing in two parts is scanning each part: every file name
      contributes on its own, whatever comes before or after it. */
  lemma {:induction false} CatalogOfAppend(a: seq<string>, b: seq<string>)
    ensures CatalogOf(a + b) == CatalogOf(a) + CatalogOf(b)
    decreases |b|
  {
    if |b| == 0 {
      assert a + b == a;
    } else {
      var b' := b[..|b| - 1];
      assert (a + b)[..|a + b| - 1] == a + b';
      CatalogOfAppend(a, b');
    }
  }

  /** A one-file listing yields that file's display name if it is a model
      file, and nothing otherwise. */
  lemma CatalogOfSingleton(fileName: string)
    ensures CatalogOf([fileName]) == if IsModelFile(fileName) then [DisplayName(fileName)] else []
  {
    assert [fileName][..0] == [];
  }

  /** The scan yields one name per file when every file is a model file. */
  lemma {:induction false} CatalogOfLength(files: seq<string>)
    ensures (forall i :: 0 <= i < |files| ==> IsModelFile(files[i])) ==>
              |CatalogOf(files)| == |files|
  {
    if |files| > 0 {
      var init := files[..|files| - 1];
      CatalogOfLength(init);
      assert forall i :: 0 <= i < |init| ==> init[i] == files[i];
    }
  }

  // ---------------------------------------------------------------------
  // Display names
  // ---------------------------------------------------------------------

  /** Deletion leaves a name unchanged exactly when `p` does not occur in it. */
  lemma RemoveAllUnchangedIff(s: string, p: string)
    requires |p| > 0
    ensures RemoveAll(s, p) == s <==> !Occurs(s, p)
  {
    if Occurs(s, p) {
      RemoveAllShrinks(s, p);
    } else {
      RemoveAllNoOccurrence(s, p);
    }
  }

  /** With no occurrence of `p`, the scan copies every character. */
  lemma {:induction false} RemoveAllNoOccurrence(s: string, p: string)
    requires |p| > 0
    requires forall i :: !OccursAt(s, p, i)
    ensures RemoveAll(s, p) == s
    decreases |s|
  {
    if |s| > 0 {
      assert !OccursAt(s, p, 0);
      assert |p| <= |s| ==> s[..|p|] == s[0..|p|];
      forall i ensures !OccursAt(s[1..], p, i) {
        assert !OccursAt(s, p, i + 1);
        if 0 <= i && i + |p| <= |s| - 1 {
          assert s[1..][i..i + |p|] == s[i + 1..i + 1 + |p|];
        }
      }
      RemoveAllNoOccurrence(s[1..], p);
    }
  }

  /** An occurrence of `p` is always deleted: the result is strictly shorter. */
  lemma {:induction false} RemoveAllShrinks(s: string, p: string)
    requires |p| > 0
    requires Occurs(s, p)
    ensures |RemoveAll(s, p)| < |s|
    decreases |s|
  {
    var i :| OccursAt(s, p, i);
    if |p| <= |s| && s[..|p|] == p {
    } else {
      assert i != 0;
      assert s[1..][i - 1..i - 1 + |p|] == s[i..i + |p|];
      assert OccursAt(s[1..], p, i - 1);
      RemoveAllShrinks(s[1..], p);
    }
  }

  /** When the first character of `p` appears nowhere else in `p` (as in
      ".usdz"), no occurrence can straddle the edges of a copy of `p` placed
      between `a` and `b`: that copy is deleted, and `a` and `b` are scanned
      as if on their own. So every such occurrence is deleted, wherever it
      stands in the name. */
  lemma {:induction false} RemoveAllSplit(a: string, p: string, b: string)
    requires |p| > 0
    requires forall j :: 0 < j < |p| ==> p[j] != p[0]
    ensures RemoveAll(a + p + b, p) == RemoveAll(a, p) + RemoveAll(b, p)
    decreases |a|
  {
    var t := a + p + b;
    if |a| == 0 {
      assert t == p + b;
      assert t[..|p|] == p;
      assert t[|p|..] == b;
    } else if |p| <= |a| && a[..|p|] == p {
      assert t[..|p|] == p;
      assert t[|p|..] == a[|p|..] + p + b;
      RemoveAllSplit(a[|p|..], p, b);
    } else {
      if |p| <= |a| {
        assert t[..|p|] == a[..|p|];
      } else {
        assert t[..|p|][|a|] == p[0] != p[|a|];
      }
      assert t[1..] == a[1..] + p + b;
      RemoveAllSplit(a[1..], p, b);
    }
  }

  /** The special case of RemoveAllSplit with nothing after the copy: a
      trailing copy of `p` is deleted and the rest is scanned as before. */
  lemma RemoveAllAppended(s: string, p: string)
    requires |p| > 0
    requires forall j :: 0 < j < |p| ==> p[j] != p[0]
    ensures RemoveAll(s + p, p) == RemoveAll(s, p)
  {
    RemoveAllSplit(s, p, []);
    assert s + p + [] == s + p;
  }

  /** The file "<base>.usdz" is a model file and its display name is `base`,
      provided `base` itself contains no ".usdz". */
  lemma DisplayNameOfModelFile(base: string)
    requires !Occurs(base, ModelExtension)
    ensures IsModelFile(base + ModelExtension)
    ensures DisplayName(base + ModelExtension) == base
  {
    var t := base + ModelExtension;
    assert t[|t| - |ModelSuffix|..] == ModelSuffix;
    RemoveAllAppended(base, ModelExtension);
    RemoveAllUnchangedIff(base, ModelExtension);
  }

  /** A name without a dot holds no ".usdz". */
  lemma NoDotNoExtension(s: string)
    requires forall k :: 0 <= k < |s| ==> s[k] != '.'
    ensures !Occurs(s, ModelExtension)
  {
    forall i ensures !OccursAt(s, ModelExtension, i) {
      if 0 <= i && i + |ModelExtension| <= |s| {
        assert s[i..i + |ModelExtension|][0] == s[i];
      }
    }
  }

  /** A file named `base` followed by ".usdz", where `base` has no dot, is
      kept under the display name `base`. */
  lemma DottedModelFile(base: string, fileName: string)
    requires forall k :: 0 <= k < |base| ==> base[k] != '.'
    requires fileName == base + ModelExtension
    ensures IsModelFile(fileName) && DisplayName(fileName) == base
  {
    NoDotNoExtension(base);
    DisplayNameOfModelFile(base);
  }

  /** A kept name without ".usdz" in it, such as "foousdz", is passed through
      unchanged; every ".usdz" is deleted, not only the last one. */
  lemma DisplayNameQuirks()
    ensures IsModelFile("foousdz") && DisplayName("foousdz") == "foousdz"
    ensures IsModelFile("a.usdz.usdz") && DisplayName("a.usdz.usdz") == "a"
  {
    DottedModelFile("a", "a.usdz");
    RemoveAllAppended("a.usdz", ModelExtension);
    assert "a.usdz" + ModelExtension == "a.usdz.usdz";
    NoDotNoExtension("foousdz");
    RemoveAllUnchangedIff("foousdz", ModelExtension);
  }

  /** A ".usdz" in the middle of a name is deleted too: for dotless `a` and
      `b`, the file "<a>.usdz<b>.usdz" is kept under the name "<a><b>". */
  lemma DisplayNameMiddle(a: string, b: string, fileName: string)
    requires forall k :: 0 <= k < |a| ==> a[k] != '.'
    requires forall k :: 0 <= k < |b| ==> b[k] != '.'
    requires fileName == a + ModelExtension + b + ModelExtension
    ensures IsModelFile(fileName) && DisplayName(fileName) == a + b
  {
    NoDotNoExtension(a);
    RemoveAllUnchangedIff(a, ModelExtension);
    DottedModelFile(b, b + ModelExtension);
    RemoveAllSplit(a, ModelExtension, b + ModelExtension);
    assert a + ModelExtension + (b + ModelExtension) == fileName;
  }

  /** For instance, "a.usdzb.usdz" is shown as "ab". */
  lemma DisplayNameMiddleExample()
    ensures IsModelFile("a.usdzb.usdz") && DisplayName("a.usdzb.usdz") == "ab"
  {
    DisplayNameMiddle("a", "b", "a.usdzb.usdz");
  }

  /** The deletion is one pass: in "..usdzusdz" the ".usdz" at index 1 is
      deleted and the ".usdz" this leaves behind is kept. */
  lemma DisplayNameSinglePass()
    ensures IsModelFile("..usdzusdz") && DisplayName("..usdzusdz") == ".usdz"
  {
    RemoveAllNoOccurrence(".", ModelExtension);
    NoDotNoExtension("usdz");
    RemoveAllUnchangedIff("usdz", ModelExtension);
    RemoveAllSplit(".", ModelExtension, "usdz");
    assert "." + ModelExtension + "usdz" == "..usdzusdz";
  }

  /** A listing of two model files named after dotless bases, around a file
      that is not a model file, yields the two bases in listing order. */
  lemma {:induction false} ScanTwoModels(base1: string, other: string, base2: string)
    requires forall k :: 0 <= k < |base1| ==> base1[k] != '.'
    requires forall k :: 0 <= k < |base2| ==> base2[k] != '.'
    requires !IsModelFile(other)
    ensures CatalogOf([base1 + ModelExtension, other, base2 + ModelExtension]) == [base1, base2]
  {
    var f1, f3 := base1 + ModelExtension, base2 + ModelExtension;
    DottedModelFile(base1, f1);
    DottedModelFile(base2, f3);
    CatalogOfSingleton(f1);
    CatalogOfSingleton(other);
    CatalogOfSingleton(f3);
    CatalogOfAppend([f1], [other]);
    CatalogOfAppend([f1] + [other], [f3]);
    assert [f1] + [other] + [f3] == [f1, other, f3];
  }

  /** A bundle holding two models and a property list yields the two model
      names, in listing order. */
  lemma ScanExample()
    ensures Scanned(Some(["chair.usdz", "Info.plist", "robot.usdz"])) == ["chair", "robot"]
    ensures Scanned(None) == []
  {
    var chair, robot := "chair", "robot";
    assert chair + ModelExtension == "chair.usdz" by {
      assert |chair + ModelExtension| == 10;
    }
    assert robot + ModelExtension == "robot.usdz" by {
      assert |robot + ModelExtension| == 10;
    }
    assert !IsModelFile("Info.plist");
    ScanTwoModels(chair, "Info.plist", robot);
  }
}
