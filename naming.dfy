/** Archive-name derivation of `identify_tars`: the chain of string
    operations that turns a selected directory path into a tar file name,
    and what that chain guarantees. */
module Naming {
  import opened PyStrings

  /** The path separator (`os.sep` on a POSIX system). */
  const Sep: char := '/'

  /** `DIR_SEP_REPLACEMENT`: the token that stands for a separator in a name. */
  const DirSepReplacement: string := "_____"

  const TarSuffix: string := ".tar"

  predicate EndsWith(s: string, suffix: string) {
    |suffix| <= |s| && s[|s| - |suffix|..] == suffix
  }

  /** `SANITISE_RE.sub("_", s)`: the pattern `[ ]` matches a single space,
      so every space becomes an underscore and nothing else changes. */
  function Sanitise(s: string): (r: string)
    ensures |r| == |s|
    ensures ' ' !in r
    ensures forall i :: 0 <= i < |s| && s[i] != ' ' ==> r[i] == s[i]
    ensures forall i :: 0 <= i < |s| && s[i] == ' ' ==> r[i] == '_'
  {
    if |s| == 0 then []
    else Sanitise(s[..|s| - 1]) + [if s[|s| - 1] == ' ' then '_' else s[|s| - 1]]
  }

  /** `leaf_dir.replace(input_dir + os.sep, "")`: every occurrence of the
      root followed by a separator is removed, not only the leading one. */
  function StripRoot(inputDir: string, leafDir: string): (r: string)
    ensures |r| <= |leafDir|
    ensures !Occurs(leafDir, inputDir + [Sep]) ==> r == leafDir
  {
    ReplaceAll(leafDir, inputDir + [Sep], "")
  }

  /** A path that starts with the root and a separator loses that leading
      root; the rest is stripped in turn. */
  lemma StripRootLeading(inputDir: string, rel: string)
    ensures StripRoot(inputDir, inputDir + [Sep] + rel) == StripRoot(inputDir, rel)
  {
    var pat := inputDir + [Sep];
    assert inputDir + [Sep] + rel == pat + rel;
    assert (pat + rel)[..|pat|] == pat;
    assert (pat + rel)[|pat|..] == rel;
  }

  /** A path under the root whose relative part does not itself contain the
      root followed by a separator becomes exactly that relative part. */
  lemma StripRootRelative(inputDir: string, rel: string)
    requires !Occurs(rel, inputDir + [Sep])
    ensures StripRoot(inputDir, inputDir + [Sep] + rel) == rel
  {
    StripRootLeading(inputDir, rel);
  }

  /** The tar name of `leafDir`, step by step as the source computes it. */
  function TarName(inputDir: string, leafDir: string, dirsInTarName: nat): (r: string)
    requires dirsInTarName >= 1
    ensures EndsWith(r, TarSuffix)
    ensures ' ' !in r
  {
    var dirsString := StripRoot(inputDir, leafDir);
    var marked := ReplaceAll(dirsString, [Sep], DirSepReplacement + [Sep]);
    var dirsList := RSplit(marked, Sep, dirsInTarName);
    var requested := LastN(dirsList, dirsInTarName);
    var r := Sanitise(Concat(requested)) + TarSuffix;
    assert r[|r| - |TarSuffix|..] == TarSuffix;
    r
  }

  /** The name is the last `dirsInTarName` segments of the root-stripped
      path (all of them when there are fewer), joined by the token,
      sanitised, with `.tar` appended. */
  lemma TarNameFromSegments(inputDir: string, leafDir: string, dirsInTarName: nat)
    requires dirsInTarName >= 1
    ensures var segs := Split(StripRoot(inputDir, leafDir), Sep);
      TarName(inputDir, leafDir, dirsInTarName)
        == Sanitise(Intercalate(LastN(segs, dirsInTarName), DirSepReplacement)) + TarSuffix
  {
    var rel := StripRoot(inputDir, leafDir);
    var marked := ReplaceAll(rel, [Sep], DirSepReplacement + [Sep]);
    var segs := Split(rel, Sep);
    RSplitLastN(marked, Sep, dirsInTarName);
    SplitOfMarked(rel, Sep, DirSepReplacement);
    LastNMarked(segs, DirSepReplacement, dirsInTarName);
    ConcatMarked(LastN(segs, dirsInTarName), DirSepReplacement);
  }

  /** A tar name never contains the path separator. */
  lemma TarNameHasNoSeparator(inputDir: string, leafDir: string, dirsInTarName: nat)
    requires dirsInTarName >= 1
    ensures Sep !in TarName(inputDir, leafDir, dirsInTarName)
  {
    var rel := StripRoot(inputDir, leafDir);
    TarNameFromSegments(inputDir, leafDir, dirsInTarName);
    SplitSegmentsFree(rel, Sep);
    StemHasNoSeparator(Split(rel, Sep), dirsInTarName);
  }

  lemma StemHasNoSeparator(segs: seq<string>, n: nat)
    requires n >= 1
    requires forall k :: 0 <= k < |segs| ==> Sep !in segs[k]
    ensures Sep !in Sanitise(Intercalate(LastN(segs, n), DirSepReplacement)) + TarSuffix
  {
    var used := LastN(segs, n);
    forall k | 0 <= k < |used|
      ensures Sep !in used[k]
    {
      assert used[k] == segs[|segs| - |used| + k];
    }
    var stem := Intercalate(used, DirSepReplacement);
    IntercalateFree(used, DirSepReplacement, Sep);
    SanitiseKeepsAbsent(stem, Sep);
    assert Sep !in TarSuffix;
  }

  /** Sanitising introduces no character other than the underscore. */
  lemma SanitiseKeepsAbsent(s: string, ch: char)
    requires ch != '_' && ch !in s
    ensures ch !in Sanitise(s)
  {
    var r := Sanitise(s);
    forall i | 0 <= i < |r|
      ensures r[i] != ch
    {
      assert s[i] != ch;
    }
  }

  /** When the stripped path has no more segments than requested, the whole
      path is used: each separator becomes the token, no failure. */
  lemma TarNameOfShortPath(inputDir: string, leafDir: string, dirsInTarName: nat)
    requires dirsInTarName >= 1
    requires |Split(StripRoot(inputDir, leafDir), Sep)| <= dirsInTarName
    ensures TarName(inputDir, leafDir, dirsInTarName)
      == Sanitise(ReplaceAll(StripRoot(inputDir, leafDir), [Sep], DirSepReplacement)) + TarSuffix
  {
    TarNameFromSegments(inputDir, leafDir, dirsInTarName);
    ReplaceCharIsJoinOfSplit(StripRoot(inputDir, leafDir), Sep, DirSepReplacement);
  }

  /** Sanitising leaves a string without spaces as it is. */
  lemma SanitiseWithoutSpace(s: string)
    requires ' ' !in s
    ensures Sanitise(s) == s
  {
    assert forall i :: 0 <= i < |s| ==> s[i] != ' ';
  }

  lemma StripRootDeep()
    ensures StripRoot("root", "root/a/b/c") == "a/b/c"
  {
    assert "root" + [Sep] == "root/";
    assert ReplaceAll("/b/c", "root/", "") == "/b/c";
    assert "a/b/c"[1..] == "/b/c";
    assert "a/b/c"[..5] != "root/" by { assert "a/b/c"[0] != "root/"[0]; }
    assert ReplaceAll("a/b/c", "root/", "") == "a/b/c";
  }

  lemma SplitDeep()
    ensures Split("a/b/c", Sep) == ["a", "b", "c"]
  {
    var segs := ["a", "b", "c"];
    assert Intercalate(segs[..2], [Sep]) == "a/b";
    assert Intercalate(segs, [Sep]) == "a/b/c";
    IntercalateRoundTrip(segs, Sep);
  }

  lemma StemDeep()
    ensures Sanitise(Intercalate(LastN(["a", "b", "c"], 2), DirSepReplacement)) == "b_____c"
  {
    assert LastN(["a", "b", "c"], 2) == ["b", "c"];
    SanitiseWithoutSpace("b_____c");
  }

  /** Three separator-delimited segments, two requested. */
  lemma TarNameExampleDeep()
    ensures TarName("root", "root/a/b/c", 2) == "b_____c" + TarSuffix
  {
    StripRootDeep();
    SplitDeep();
    StemDeep();
    TarNameFromSegments("root", "root/a/b/c", 2);
  }

  lemma StripRootSpace()
    ensures StripRoot("root", "root/a b/c") == "a b/c"
  {
    assert "root" + [Sep] == "root/";
    assert ReplaceAll("b/c", "root/", "") == "b/c";
    assert ReplaceAll(" b/c", "root/", "") == " b/c";
    assert "a b/c"[1..] == " b/c";
    assert "a b/c"[..5] != "root/" by { assert "a b/c"[0] != "root/"[0]; }
    assert ReplaceAll("a b/c", "root/", "") == "a b/c";
  }

  lemma SplitSpace()
    ensures Split("a b/c", Sep) == ["a b", "c"]
  {
    assert Intercalate(["a b", "c"], [Sep]) == "a b/c";
    IntercalateRoundTrip(["a b", "c"], Sep);
  }

  lemma StemSpace()
    ensures Sanitise(Intercalate(LastN(["a b", "c"], 2), DirSepReplacement)) == "a_b_____c"
  {
    var stem := "a b_____c";
    assert LastN(["a b", "c"], 2) == ["a b", "c"];
    assert Intercalate(["a b", "c"], DirSepReplacement) == stem;
    assert Sanitise(stem)[1] == '_';
    assert forall i :: 0 <= i < |stem| && i != 1 ==> stem[i] != ' ';
  }

  /** A space inside a segment becomes an underscore. */
  lemma TarNameExampleSpace()
    ensures TarName("root", "root/a b/c", 2) == "a_b_____c" + TarSuffix
  {
    StripRootSpace();
    SplitSpace();
    StemSpace();
    TarNameFromSegments("root", "root/a b/c", 2);
  }

  lemma StripRootRepeatedTail()
    ensures ReplaceAll("ba/c", "a/", "") == "bc"
  {
    assert ReplaceAll("c", "a/", "") == "c";
    assert "a/c"[..2] == "a/" && "a/c"[2..] == "c";
    assert ReplaceAll("a/c", "a/", "") == "c";
    assert "ba/c"[..2] != "a/" by { assert "ba/c"[0] != "a/"[0]; }
    assert "ba/c"[1..] == "a/c";
  }

  lemma StripRootRepeated()
    ensures StripRoot("a", "a/ba/c") == "bc"
  {
    assert "a" + [Sep] == "a/";
    StripRootRepeatedTail();
    assert "a/ba/c"[..2] == "a/" && "a/ba/c"[2..] == "ba/c";
  }

  lemma SplitRepeated()
    ensures Split("bc", Sep) == ["bc"]
  {
    IntercalateRoundTrip(["bc"], Sep);
  }

  /** The root is removed wherever it occurs followed by a separator. */
  lemma TarNameExampleRootRepeated()
    ensures TarName("a", "a/ba/c", 2) == "bc" + TarSuffix
  {
    StripRootRepeated();
    SplitRepeated();
    TarNameOfShortPath("a", "a/ba/c", 2);
    ReplaceAllAbsent("bc", Sep, DirSepReplacement);
    SanitiseWithoutSpace("bc");
  }

  lemma StripRootTrailing()
    ensures StripRoot("data/", "data/a") == "data/a"
  {
    assert "data/" + [Sep] == "data//";
    assert !Occurs("data/a", "data//") by {
      assert "data/a"[0..6] != "data//" by { assert "data/a"[5] != "data//"[5]; }
      assert forall i :: 0 <= i <= 6 && OccursAt("data/a", "data//", i) ==> i == 0;
    }
  }

  lemma SplitTrailing()
    ensures Split("data/a", Sep) == ["data", "a"]
  {
    assert Intercalate(["data", "a"], [Sep]) == "data/a";
    IntercalateRoundTrip(["data", "a"], Sep);
  }

  /** A root given with a trailing separator is never stripped: `data//`
      does not occur in `data/a`, so the root's own name is kept. */
  lemma TarNameExampleTrailingRoot()
    ensures TarName("data/", "data/a", 2) == "data_____a" + TarSuffix
  {
    StripRootTrailing();
    SplitTrailing();
    assert LastN(["data", "a"], 2) == ["data", "a"];
    assert Intercalate(["data", "a"], DirSepReplacement) == "data_____a";
    SanitiseWithoutSpace("data_____a");
    TarNameFromSegments("data/", "data/a", 2);
  }
}
