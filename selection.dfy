/** Leaf selection of `identify_tars`: a bottom-up directory walk is
    scanned and each subdirectory path is stored with its tar name unless
    a path already stored starts with it. */
module Selection {
  import opened PyStrings
  import opened Naming

  type Path = string

  /** One triple `(dirpath, dirnames, filenames)` produced by `os.walk`. */
  datatype WalkEntry = WalkEntry(dirpath: Path, dirnames: seq<string>, filenames: seq<string>)

  datatype Result<T, E> = Ok(value: T) | Err(error: E)

  /** The usage error `main` reports before any selection is done. */
  datatype UsageError = DirsInTarNameNotPositive(given: int)

  /** `p` with one trailing separator dropped, if it has one. */
  function Trimmed(p: Path): Path {
    if |p| > 0 && p[|p| - 1] == Sep then p[..|p| - 1] else p
  }

  /** `os.path.join(a, b)` on a POSIX system: a relative name is appended
      after exactly one separator; an absolute one replaces `a`. */
  function Join(a: Path, b: string): (r: Path)
    ensures |a| > 0 && |b| > 0 && b[0] != Sep ==> r == Trimmed(a) + [Sep] + b
  {
    if |b| > 0 && b[0] == Sep then b
    else if |a| == 0 || a[|a| - 1] == Sep then a + b
    else a + [Sep] + b
  }

  /** Some stored path starts with `c`: the `stored` flag of the inner scan. */
  predicate Covered(keys: seq<Path>, c: Path) {
    exists t :: 0 <= t < |keys| && StartsWith(keys[t], c)
  }

  /** One candidate: appended to the stored keys unless it is covered.
      The stored keys stay in place and the candidate ends up covered. */
  function Admit(keys: seq<Path>, c: Path): (r: seq<Path>)
    ensures IsPrefixOf(keys, r) && |r| <= |keys| + 1
    ensures Covered(r, c)
  {
    if Covered(keys, c) then keys
    else
      assert StartsWith((keys + [c])[|keys|], c);
      keys + [c]
  }

  /** The keys after scanning the subdirectory `names` of `dirpath`. */
  function ScanNames(keys: seq<Path>, dirpath: Path, names: seq<string>): (r: seq<Path>)
    ensures IsPrefixOf(keys, r) && |r| <= |keys| + |names|
    decreases |names|
  {
    if |names| == 0 then keys
    else
      var prev := ScanNames(keys, dirpath, names[..|names| - 1]);
      var r := Admit(prev, Join(dirpath, names[|names| - 1]));
      assert r[..|keys|] == prev[..|keys|];
      r
  }

  lemma ScanNamesSnoc(keys: seq<Path>, dirpath: Path, names: seq<string>, j: nat)
    requires j < |names|
    ensures ScanNames(keys, dirpath, names[..j + 1])
      == Admit(ScanNames(keys, dirpath, names[..j]), Join(dirpath, names[j]))
  {
    assert names[..j + 1][..j] == names[..j];
  }

  /** The number of subdirectory names the walk lists. */
  function NameCount(walk: seq<WalkEntry>): nat {
    if |walk| == 0 then 0 else NameCount(walk[..|walk| - 1]) + |walk[|walk| - 1].dirnames|
  }

  /** The keys of the dictionary `identify_tars` builds, in insertion order. */
  function SelectKeys(walk: seq<WalkEntry>): (r: seq<Path>)
    ensures |r| <= NameCount(walk)
  {
    if |walk| == 0 then []
    else
      var last := walk[|walk| - 1];
      ScanNames(SelectKeys(walk[..|walk| - 1]), last.dirpath, last.dirnames)
  }

  /** The dictionary itself: each key with its tar name. */
  function NameMap(inputDir: Path, keys: seq<Path>, dirsInTarName: nat): map<Path, string>
    requires dirsInTarName >= 1
  {
    map k | k in keys :: TarName(inputDir, k, dirsInTarName)
  }

  /** Every entry of the dictionary maps a path to its tar name. */
  predicate TarNamed(tars: map<Path, string>, inputDir: Path, dirsInTarName: nat)
    requires dirsInTarName >= 1
  {
    forall k :: k in tars ==> tars[k] == TarName(inputDir, k, dirsInTarName)
  }

  lemma TarNamedStore(tars: map<Path, string>, inputDir: Path, dirsInTarName: nat, leafDir: Path)
    requires dirsInTarName >= 1
    requires TarNamed(tars, inputDir, dirsInTarName)
    ensures TarNamed(tars[leafDir := TarName(inputDir, leafDir, dirsInTarName)], inputDir, dirsInTarName)
  {
  }

  predicate IsPrefixOf(xs: seq<Path>, ys: seq<Path>) {
    |xs| <= |ys| && ys[..|xs|] == xs
  }

  /** No key starts with a key inserted after it. */
  predicate Unshadowed(keys: seq<Path>) {
    forall i, j :: 0 <= i < j < |keys| ==> !StartsWith(keys[i], keys[j])
  }

  /** `c` is `os.path.join(dirpath, dirname)` for an entry before index `upTo`. */
  predicate CandidateBefore(walk: seq<WalkEntry>, upTo: int, c: Path) {
    exists e, t :: 0 <= e < upTo && e < |walk| && 0 <= t < |walk[e].dirnames|
      && c == Join(walk[e].dirpath, walk[e].dirnames[t])
  }

  // ---------------------------------------------------------------------
  // The imperative selection loop

  /** The inner `for tar_dir in tars.keys()` scan with its early `break`. */
  method AlreadyStored(keys: seq<Path>, leafDir: Path) returns (stored: bool)
    ensures stored <==> Covered(keys, leafDir)
  {
    stored := false;
    var t := 0;
    while t < |keys|
      invariant 0 <= t <= |keys|
      invariant forall u :: 0 <= u < t ==> !StartsWith(keys[u], leafDir)
    {
      if StartsWith(keys[t], leafDir) {
        stored := true;
        break;
      }
      t := t + 1;
    }
  }

  /** One candidate `leafDir`: unless a stored path starts with it, it is
      stored with its tar name. */
  method StoreLeaf(inputDir: Path, dirsInTarName: nat, tarsIn: map<Path, string>, keysIn: seq<Path>,
                   leafDir: Path)
    returns (tars: map<Path, string>, keys: seq<Path>)
    requires dirsInTarName >= 1
    requires tarsIn.Keys == set k | k in keysIn
    requires TarNamed(tarsIn, inputDir, dirsInTarName)
    ensures keys == Admit(keysIn, leafDir)
    ensures tars.Keys == set k | k in keys
    ensures TarNamed(tars, inputDir, dirsInTarName)
  {
    tars, keys := tarsIn, keysIn;
    var stored := AlreadyStored(keys, leafDir);
    if !stored {
      TarNamedStore(tars, inputDir, dirsInTarName, leafDir);
      tars := tars[leafDir := TarName(inputDir, leafDir, dirsInTarName)];
      keys := keys + [leafDir];
    }
  }

  /** The inner `for dirname in dirnames` loop over one walk entry: each
      subdirectory path not yet covered is stored with its tar name. */
  method StoreLeaves(inputDir: Path, dirpath: Path, dirnames: seq<string>, dirsInTarName: nat,
                     tarsIn: map<Path, string>, keysIn: seq<Path>)
    returns (tars: map<Path, string>, keys: seq<Path>)
    requires dirsInTarName >= 1
    requires tarsIn.Keys == set k | k in keysIn
    requires TarNamed(tarsIn, inputDir, dirsInTarName)
    ensures keys == ScanNames(keysIn, dirpath, dirnames)
    ensures tars.Keys == set k | k in keys
    ensures TarNamed(tars, inputDir, dirsInTarName)
  {
    tars, keys := tarsIn, keysIn;
    var j := 0;
    while j < |dirnames|
      invariant 0 <= j <= |dirnames|
      invariant keys == ScanNames(keysIn, dirpath, dirnames[..j])
      invariant tars.Keys == set k | k in keys
      invariant TarNamed(tars, inputDir, dirsInTarName)
    {
      tars, keys := StoreLeaf(inputDir, dirsInTarName, tars, keys, Join(dirpath, dirnames[j]));
      ScanNamesSnoc(keysIn, dirpath, dirnames, j);
      j := j + 1;
    }
    assert dirnames[..j] == dirnames;
  }

  /** `identify_tars`: the walk is given as the sequence of entries
      `os.walk(input_dir, topdown=False)` yields. Returns the dictionary and
      the insertion order of its keys. */
  method IdentifyTars(inputDir: Path, walk: seq<WalkEntry>, dirsInTarName: nat)
    returns (tars: map<Path, string>, keys: seq<Path>)
    requires dirsInTarName >= 1
    ensures keys == SelectKeys(walk)
    ensures tars.Keys == set k | k in keys
    ensures TarNamed(tars, inputDir, dirsInTarName)
    ensures Unshadowed(keys)
    ensures forall e, t :: 0 <= e < |walk| && 0 <= t < |walk[e].dirnames| ==>
      Covered(keys, Join(walk[e].dirpath, walk[e].dirnames[t]))
  {
    tars, keys := map[], [];
    var i := 0;
    while i < |walk|
      invariant 0 <= i <= |walk|
      invariant keys == SelectKeys(walk[..i])
      invariant tars.Keys == set k | k in keys
      invariant TarNamed(tars, inputDir, dirsInTarName)
    {
      var entry := walk[i];
      tars, keys := StoreLeaves(inputDir, entry.dirpath, entry.dirnames, dirsInTarName, tars, keys);
      assert walk[..i + 1][..i] == walk[..i];
      i := i + 1;
    }
    assert walk[..i] == walk;
    SelectKeysUnshadowed(walk);
    SelectKeysCovers(walk);
  }

  /** `main`: a non-positive `--dirs-in-tar-name` is refused before any
      selection; otherwise the dictionary of `identify_tars` is produced. */
  method RunSelection(inputDir: Path, walk: seq<WalkEntry>, dirsInTarName: int)
    returns (r: Result<map<Path, string>, UsageError>)
    ensures r.Err? <==> dirsInTarName <= 0
    ensures r.Err? ==> r.error == DirsInTarNameNotPositive(dirsInTarName)
    ensures r.Ok? ==> r.value.Keys == set k | k in SelectKeys(walk)
    ensures r.Ok? ==> TarNamed(r.value, inputDir, dirsInTarName)
  {
    if dirsInTarName <= 0 {
      return Err(DirsInTarNameNotPositive(dirsInTarName));
    }
    var tars, keys := IdentifyTars(inputDir, walk, dirsInTarName);
    r := Ok(tars);
  }

  // ---------------------------------------------------------------------
  // The map only grows

  lemma CoveredGrows(keys: seq<Path>, more: seq<Path>, c: Path)
    requires IsPrefixOf(keys, more)
    requires Covered(keys, c)
    ensures Covered(more, c)
  {
    var t :| 0 <= t < |keys| && StartsWith(keys[t], c);
    assert more[t] == keys[t];
  }

  /** The keys stored after a prefix of the walk are a prefix of the final
      keys: nothing is removed, reordered or overwritten. */
  lemma {:induction false} SelectKeysGrows(walk: seq<WalkEntry>, i: nat)
    requires i <= |walk|
    ensures IsPrefixOf(SelectKeys(walk[..i]), SelectKeys(walk))
    decreases |walk|
  {
    if i < |walk| {
      var init := walk[..|walk| - 1];
      var last := walk[|walk| - 1];
      assert init[..i] == walk[..i];
      SelectKeysGrows(init, i);
    } else {
      assert walk[..i] == walk;
    }
  }

  /** So the dictionary after a prefix of the walk is contained in the final
      one, with the same tar names. */
  lemma NameMapGrows(inputDir: Path, walk: seq<WalkEntry>, i: nat, dirsInTarName: nat)
    requires i <= |walk| && dirsInTarName >= 1
    ensures var early := NameMap(inputDir, SelectKeys(walk[..i]), dirsInTarName);
      var final := NameMap(inputDir, SelectKeys(walk), dirsInTarName);
      early.Keys <= final.Keys && forall k :: k in early ==> early[k] == final[k]
  {
    SelectKeysGrows(walk, i);
    var a, b := SelectKeys(walk[..i]), SelectKeys(walk);
    assert forall k :: k in a ==> k in b by {
      forall k | k in a ensures k in b {
        var x :| 0 <= x < |a| && a[x] == k;
        assert b[x] == k;
      }
    }
  }

  // ---------------------------------------------------------------------
  // The insertion condition

  lemma AdmitUnshadowed(keys: seq<Path>, c: Path)
    requires Unshadowed(keys)
    ensures Unshadowed(Admit(keys, c))
  {
    if !Covered(keys, c) {
      var r := keys + [c];
      forall i, j | 0 <= i < j < |r|
        ensures !StartsWith(r[i], r[j])
      {
        if j == |keys| {
          assert r[j] == c && r[i] == keys[i];
        } else {
          assert r[i] == keys[i] && r[j] == keys[j];
        }
      }
    }
  }

  lemma {:induction false} ScanNamesUnshadowed(keys: seq<Path>, dirpath: Path, names: seq<string>)
    requires Unshadowed(keys)
    ensures Unshadowed(ScanNames(keys, dirpath, names))
    decreases |names|
  {
    if |names| > 0 {
      ScanNamesUnshadowed(keys, dirpath, names[..|names| - 1]);
      AdmitUnshadowed(ScanNames(keys, dirpath, names[..|names| - 1]), Join(dirpath, names[|names| - 1]));
    }
  }

  /** The local insertion condition, over the whole run: a key was stored
      only if no key stored before it starts with it. */
  lemma {:induction false} SelectKeysUnshadowed(walk: seq<WalkEntry>)
    ensures Unshadowed(SelectKeys(walk))
    decreases |walk|
  {
    if |walk| > 0 {
      var last := walk[|walk| - 1];
      SelectKeysUnshadowed(walk[..|walk| - 1]);
      ScanNamesUnshadowed(SelectKeys(walk[..|walk| - 1]), last.dirpath, last.dirnames);
    }
  }

  /** Hence no path is stored twice: a stored path is never re-added. */
  lemma SelectKeysDistinct(walk: seq<WalkEntry>)
    ensures forall i, j :: 0 <= i < j < |SelectKeys(walk)| ==> SelectKeys(walk)[i] != SelectKeys(walk)[j]
  {
    SelectKeysUnshadowed(walk);
    var keys := SelectKeys(walk);
    forall i, j | 0 <= i < j < |keys|
      ensures keys[i] != keys[j]
    {
      assert !StartsWith(keys[i], keys[j]);
    }
  }

  // ---------------------------------------------------------------------
  // Every candidate is covered

  lemma {:induction false} ScanNamesCovers(keys: seq<Path>, dirpath: Path, names: seq<string>)
    ensures forall t :: 0 <= t < |names| ==> Covered(ScanNames(keys, dirpath, names), Join(dirpath, names[t]))
    decreases |names|
  {
    if |names| > 0 {
      var n := |names| - 1;
      var prev := ScanNames(keys, dirpath, names[..n]);
      var c := Join(dirpath, names[n]);
      ScanNamesCovers(keys, dirpath, names[..n]);
      var r := Admit(prev, c);
      assert IsPrefixOf(prev, r);
      forall t | 0 <= t < |names|
        ensures Covered(r, Join(dirpath, names[t]))
      {
        if t < n {
          assert names[..n][t] == names[t];
          CoveredGrows(prev, r, Join(dirpath, names[t]));
        }
      }
    }
  }

  /** Every subdirectory path the walk lists is stored, or some stored path
      starts with it. */
  lemma {:induction false} SelectKeysCovers(walk: seq<WalkEntry>)
    ensures forall e, t :: 0 <= e < |walk| && 0 <= t < |walk[e].dirnames| ==>
      Covered(SelectKeys(walk), Join(walk[e].dirpath, walk[e].dirnames[t]))
    decreases |walk|
  {
    if |walk| > 0 {
      var init, last := walk[..|walk| - 1], walk[|walk| - 1];
      var prev := SelectKeys(init);
      var r := SelectKeys(walk);
      SelectKeysCovers(init);
      ScanNamesCovers(prev, last.dirpath, last.dirnames);
      forall e, t | 0 <= e < |walk| && 0 <= t < |walk[e].dirnames|
        ensures Covered(r, Join(walk[e].dirpath, walk[e].dirnames[t]))
      {
        if e < |walk| - 1 {
          assert init[e] == walk[e];
          CoveredGrows(prev, r, Join(walk[e].dirpath, walk[e].dirnames[t]));
        }
      }
    }
  }

  // ---------------------------------------------------------------------
  // Where keys come from

  lemma {:induction false} ScanNamesOrigin(walk: seq<WalkEntry>, i: nat, keys: seq<Path>, j: nat)
    requires i < |walk| && j <= |walk[i].dirnames|
    requires forall k :: k in keys ==> CandidateBefore(walk, i, k)
    ensures forall k :: k in ScanNames(keys, walk[i].dirpath, walk[i].dirnames[..j]) ==>
      CandidateBefore(walk, i + 1, k)
    decreases j
  {
    var names := walk[i].dirnames[..j];
    if j == 0 {
      assert ScanNames(keys, walk[i].dirpath, names) == keys;
    } else {
      assert names[..j - 1] == walk[i].dirnames[..j - 1];
      ScanNamesOrigin(walk, i, keys, j - 1);
      assert names[j - 1] == walk[i].dirnames[j - 1];
    }
  }

  /** Every key is `os.path.join(dirpath, dirname)` for one of the walk's
      entries. */
  lemma {:induction false} SelectKeysOrigin(walk: seq<WalkEntry>, i: nat)
    requires i <= |walk|
    ensures forall k :: k in SelectKeys(walk[..i]) ==> CandidateBefore(walk, i, k)
    decreases i
  {
    if i > 0 {
      var w := walk[..i];
      assert w[..i - 1] == walk[..i - 1];
      assert w[i - 1] == walk[i - 1];
      SelectKeysOrigin(walk, i - 1);
      ScanNamesOrigin(walk, i - 1, SelectKeys(walk[..i - 1]), |walk[i - 1].dirnames|);
      assert walk[i - 1].dirnames[..|walk[i - 1].dirnames|] == walk[i - 1].dirnames;
    }
  }

  /** A walk whose entries list no subdirectory names stores nothing. */
  lemma {:induction false} NoSubdirectoriesNoKeys(walk: seq<WalkEntry>)
    requires forall e :: 0 <= e < |walk| ==> walk[e].dirnames == []
    ensures SelectKeys(walk) == []
    decreases |walk|
  {
    if |walk| > 0 {
      NoSubdirectoriesNoKeys(walk[..|walk| - 1]);
    }
  }

  /** Paths under `root` as `os.walk(root)` reports them: every dirpath
      starts with the root and every name is a non-empty single component. */
  predicate WalkUnder(root: Path, walk: seq<WalkEntry>) {
    && (forall e :: 0 <= e < |walk| ==> StartsWith(walk[e].dirpath, root))
    && (forall e, t :: 0 <= e < |walk| && 0 <= t < |walk[e].dirnames| ==>
          |walk[e].dirnames[t]| > 0 && Sep !in walk[e].dirnames[t])
  }

  /** The walk root itself is never stored. */
  lemma RootNeverKey(root: Path, walk: seq<WalkEntry>)
    requires WalkUnder(root, walk)
    ensures root !in SelectKeys(walk)
  {
    SelectKeysOrigin(walk, |walk|);
    assert walk[..|walk|] == walk;
    forall k | k in SelectKeys(walk)
      ensures |k| > |root|
    {
      var e, t :| 0 <= e < |walk| && 0 <= t < |walk[e].dirnames|
        && k == Join(walk[e].dirpath, walk[e].dirnames[t]);
      var d := walk[e].dirnames[t];
      assert d[0] in d;
    }
  }

  // ---------------------------------------------------------------------
  // Ancestor exclusivity, at the level of path segments

  /** `a` is a proper ancestor directory of `b`. */
  predicate IsAncestor(a: Path, b: Path) {
    StartsWith(b, a + [Sep])
  }

  predicate AncestorFree(keys: seq<Path>) {
    forall i, j :: 0 <= i < |keys| && 0 <= j < |keys| ==> !IsAncestor(keys[i], keys[j])
  }

  /** What `os.walk(topdown=False)` guarantees and the proof needs: no
      directory is followed by one of its descendants (comparing dirpaths
      with one trailing separator dropped, as `os.path.join` does), no
      dirpath is empty, and every name is one non-empty component. */
  predicate BottomUpWalk(walk: seq<WalkEntry>) {
    && (forall i, j :: 0 <= i < j < |walk| ==>
          !IsAncestor(Trimmed(walk[i].dirpath), Trimmed(walk[j].dirpath)))
    && (forall e :: 0 <= e < |walk| ==> |walk[e].dirpath| > 0)
    && (forall e, t :: 0 <= e < |walk| && 0 <= t < |walk[e].dirnames| ==>
          |walk[e].dirnames[t]| > 0 && Sep !in walk[e].dirnames[t])
  }

  /** If a child of `q` is an ancestor of a child `a` of `p`, then `q` is an
      ancestor of `p`. */
  lemma ChildAncestor(p: Path, a: string, q: Path, b: string)
    requires Sep !in a
    ensures IsAncestor(q + [Sep] + b, p + [Sep] + a) ==> IsAncestor(q, p)
  {
    var c := p + [Sep] + a;
    var l := |q| + |b| + 2;
    if IsAncestor(q + [Sep] + b, c) {
      assert c[..l] == q + [Sep] + b + [Sep];
      assert c[l - 1] == Sep;
      assert forall x :: |p| < x < |c| ==> c[x] == a[x - |p| - 1];
      assert p[..|q| + 1] == c[..|q| + 1];
      assert c[..|q| + 1] == (q + [Sep] + b + [Sep])[..|q| + 1];
    }
  }

  lemma AncestorStartsWith(a: Path, b: Path)
    ensures IsAncestor(a, b) ==> StartsWith(b, a) && |a| < |b|
  {
    if IsAncestor(a, b) {
      assert b[..|a|] == (a + [Sep])[..|a|];
    }
  }

  lemma AdmitAncestorFree(keys: seq<Path>, c: Path)
    requires AncestorFree(keys)
    requires forall k :: k in keys ==> !IsAncestor(k, c)
    ensures AncestorFree(Admit(keys, c))
  {
    if !Covered(keys, c) {
      var r := keys + [c];
      forall i, j | 0 <= i < |r| && 0 <= j < |r|
        ensures !IsAncestor(r[i], r[j])
      {
        AncestorStartsWith(r[i], r[j]);
        if i == |keys| && j < |keys| {
          assert !StartsWith(keys[j], c);
        }
      }
    }
  }

  /** On a bottom-up walk, no candidate met so far is an ancestor of a
      child of the current entry. */
  lemma CandidateNotAncestor(walk: seq<WalkEntry>, i: nat, t: nat, k: Path)
    requires BottomUpWalk(walk)
    requires i < |walk| && t < |walk[i].dirnames|
    requires CandidateBefore(walk, i + 1, k)
    ensures !IsAncestor(k, Join(walk[i].dirpath, walk[i].dirnames[t]))
  {
    var p, a := Trimmed(walk[i].dirpath), walk[i].dirnames[t];
    var e, u :| 0 <= e < i + 1 && e < |walk| && 0 <= u < |walk[e].dirnames|
      && k == Join(walk[e].dirpath, walk[e].dirnames[u]);
    var q, b := Trimmed(walk[e].dirpath), walk[e].dirnames[u];
    assert a[0] in a && b[0] in b;
    assert Join(walk[i].dirpath, a) == p + [Sep] + a;
    assert k == q + [Sep] + b;
    ChildAncestor(p, a, q, b);
    AncestorStartsWith(q, p);
    assert !IsAncestor(q, p) by {
      if e == i {
        assert q == p;
      }
    }
  }

  lemma {:induction false} ScanNamesAncestorFree(walk: seq<WalkEntry>, i: nat, keys: seq<Path>, j: nat)
    requires BottomUpWalk(walk)
    requires i < |walk| && j <= |walk[i].dirnames|
    requires AncestorFree(keys)
    requires forall k :: k in keys ==> CandidateBefore(walk, i, k)
    ensures AncestorFree(ScanNames(keys, walk[i].dirpath, walk[i].dirnames[..j]))
    decreases j
  {
    var p := walk[i].dirpath;
    var names := walk[i].dirnames[..j];
    if j == 0 {
      assert ScanNames(keys, p, names) == keys;
    } else {
      assert names[..j - 1] == walk[i].dirnames[..j - 1];
      var prev := ScanNames(keys, p, names[..j - 1]);
      ScanNamesAncestorFree(walk, i, keys, j - 1);
      ScanNamesOrigin(walk, i, keys, j - 1);
      var c := Join(p, walk[i].dirnames[j - 1]);
      assert names[j - 1] == walk[i].dirnames[j - 1];
      forall k | k in prev
        ensures !IsAncestor(k, c)
      {
        CandidateNotAncestor(walk, i, j - 1, k);
      }
      AdmitAncestorFree(prev, c);
    }
  }

  /** On a bottom-up walk, no stored path is an ancestor directory of another
      stored path. */
  lemma {:induction false} SelectKeysAncestorFree(walk: seq<WalkEntry>, i: nat)
    requires BottomUpWalk(walk)
    requires i <= |walk|
    ensures AncestorFree(SelectKeys(walk[..i]))
    decreases i
  {
    if i > 0 {
      var prev, e := SelectKeys(walk[..i - 1]), walk[i - 1];
      assert SelectKeys(walk[..i]) == ScanNames(prev, e.dirpath, e.dirnames[..|e.dirnames|]) by {
        assert walk[..i][..i - 1] == walk[..i - 1];
        assert e.dirnames[..|e.dirnames|] == e.dirnames;
      }
      SelectKeysAncestorFree(walk, i - 1);
      SelectKeysOrigin(walk, i - 1);
      ScanNamesAncestorFree(walk, i - 1, prev, |e.dirnames|);
    }
  }

  // ---------------------------------------------------------------------
  // Concrete walks

  /** A walk rooted at `d/`, as `os.walk("d/")` reports it, is a
      bottom-up walk. */
  lemma ExampleTrailingSeparatorRoot()
    ensures BottomUpWalk([WalkEntry("d/a", [], []), WalkEntry("d/", ["a"], [])])
  {
    assert Trimmed("d/") == "d" && Trimmed("d/a") == "d/a";
    assert !StartsWith("d", "d/a/");
  }

  /** So is a walk of the file-system root `/`. */
  lemma ExampleSlashRoot()
    ensures BottomUpWalk([WalkEntry("/a", [], []), WalkEntry("/", ["a"], [])])
  {
    assert Trimmed("/") == "" && Trimmed("/a") == "/a";
    assert !StartsWith("", "/a/");
  }

  /** Sibling leaves `r/foo` and `r/foo2` are both stored although one is a
      string prefix of the other: the test runs in one direction only. */
  lemma ExampleSiblingPrefix()
    ensures SelectKeys([WalkEntry("r/foo", [], []), WalkEntry("r/foo2", [], []),
                        WalkEntry("r", ["foo", "foo2"], [])]) == ["r/foo", "r/foo2"]
  {
    var w := [WalkEntry("r/foo", [], []), WalkEntry("r/foo2", [], []), WalkEntry("r", ["foo", "foo2"], [])];
    NoSubdirectoriesNoKeys(w[..2]);
    assert SelectKeys(w) == ScanNames([], "r", ["foo", "foo2"]);
    assert ["foo", "foo2"][..1] == ["foo"];
    assert ["foo"][..0] == [];
    assert Join("r", "foo") == "r/foo";
    assert Join("r", "foo2") == "r/foo2";
    assert ScanNames([], "r", ["foo"]) == Admit([], "r/foo");
    assert Admit([], "r/foo") == ["r/foo"];
    assert ScanNames([], "r", ["foo", "foo2"]) == Admit(["r/foo"], "r/foo2");
    assert !StartsWith("r/foo", "r/foo2");
    assert !Covered(["r/foo"], "r/foo2");
  }

  lemma ShadowedLeafInner()
    ensures SelectKeys([WalkEntry("r/foo", [], []), WalkEntry("r/foo2/x", [], []),
                        WalkEntry("r/foo2", ["x"], [])]) == ["r/foo2/x"]
  {
    var w := [WalkEntry("r/foo", [], []), WalkEntry("r/foo2/x", [], []), WalkEntry("r/foo2", ["x"], [])];
    NoSubdirectoriesNoKeys(w[..2]);
    assert SelectKeys(w) == ScanNames([], "r/foo2", ["x"]);
    assert ["x"][..0] == [];
    assert Join("r/foo2", "x") == "r/foo2/x";
    assert ScanNames([], "r/foo2", ["x"]) == Admit([], "r/foo2/x");
    assert Admit([], "r/foo2/x") == ["r/foo2/x"];
  }

  lemma ShadowedLeafOuter()
    ensures ScanNames(["r/foo2/x"], "r", ["foo", "foo2"]) == ["r/foo2/x"]
  {
    assert ["foo", "foo2"][..1] == ["foo"];
    assert ["foo"][..0] == [];
    assert Join("r", "foo") == "r/foo";
    assert Join("r", "foo2") == "r/foo2";
    assert StartsWith(["r/foo2/x"][0], "r/foo");
    assert StartsWith(["r/foo2/x"][0], "r/foo2");
    assert ScanNames(["r/foo2/x"], "r", ["foo"]) == Admit(["r/foo2/x"], "r/foo");
    assert Admit(["r/foo2/x"], "r/foo") == ["r/foo2/x"];
    assert ScanNames(["r/foo2/x"], "r", ["foo", "foo2"]) == Admit(["r/foo2/x"], "r/foo2");
  }

  /** The leaf `r/foo` is never stored once `r/foo2/x` is: the stored path
      starts with `r/foo` character by character, though `r/foo` is not one
      of its ancestor directories. No key is `r/foo` or one of its
      ancestors, so the files under `r/foo` go into no archive. */
  lemma ExampleShadowedLeaf()
    ensures SelectKeys([WalkEntry("r/foo", [], []), WalkEntry("r/foo2/x", [], []),
                        WalkEntry("r/foo2", ["x"], []), WalkEntry("r", ["foo", "foo2"], [])])
      == ["r/foo2/x"]
  {
    var w := [WalkEntry("r/foo", [], []), WalkEntry("r/foo2/x", [], []),
              WalkEntry("r/foo2", ["x"], []), WalkEntry("r", ["foo", "foo2"], [])];
    ShadowedLeafInner();
    assert w[..3] == [WalkEntry("r/foo", [], []), WalkEntry("r/foo2/x", [], []), WalkEntry("r/foo2", ["x"], [])];
    assert SelectKeys(w) == ScanNames(SelectKeys(w[..3]), "r", ["foo", "foo2"]);
    ShadowedLeafOuter();
  }
}
