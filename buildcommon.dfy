/** Helpers shared by the replication scripts (lib/buildcommon.py): the
  * byte stream a file hash is computed over, the list of values one key
  * takes in a list of records, the exclusion test of the directory walk,
  * and the reduction of many added paths to their common stems. */
module BuildCommon {
  import opened Common
  import opened Strings

  // ---------------------------------------------------------------------
  // generate_file_hash: what is fed to the hasher

  newtype byte = x: int | 0 <= x < 256

  const CR: byte := 13
  const LF: byte := 10

  /** The size of each read of the file. */
  const BlockSize: nat := 65536

  /** One block with `\r\n`, then every remaining `\r`, turned into `\n`. */
  function NormaliseBlock(b: seq<byte>): (r: seq<byte>)
    ensures CR !in r
  {
    var once := Replace(b, [CR, LF], [LF]);
    ReplaceOneRemoves(once, CR, [LF]);
    Replace(once, [CR], [LF])
  }

  /** The bytes the hasher sees as written: the file read block by block,
    * each block normalised on its own. */
  function NormalisedBlocks(content: seq<byte>): (r: seq<byte>)
    decreases |content|
  {
    if |content| <= BlockSize then NormaliseBlock(content)
    else NormaliseBlock(content[..BlockSize]) + NormalisedBlocks(content[BlockSize..])
  }

  /** No carriage return reaches the hasher. */
  lemma {:induction false} NormalisedBlocksNoCR(content: seq<byte>)
    ensures CR !in NormalisedBlocks(content)
    decreases |content|
  {
    if |content| > BlockSize {
      NormalisedBlocksNoCR(content[BlockSize..]);
    }
  }

  /** `generate_file_hash` up to the digest itself: read blocks until an
    * empty read and feed each normalised block to the hasher. */
  method HashedBytes(content: seq<byte>) returns (fed: seq<byte>)
    ensures fed == NormalisedBlocks(content)
  {
    fed := [];
    var pos := 0;
    var buf := content[..if |content| < BlockSize then |content| else BlockSize];
    while |buf| > 0
      invariant pos <= |content|
      invariant buf == content[pos..if |content| - pos < BlockSize then |content| else pos + BlockSize]
      invariant fed + NormalisedBlocks(content[pos..]) == NormalisedBlocks(content)
      decreases |content| - pos
    {
      var rest := content[pos..];
      NormalisedBlocksStep(rest);
      SliceOfSlice(content, pos, |buf|);
      assert NormalisedBlocks(rest) == NormaliseBlock(buf) + NormalisedBlocks(content[pos + |buf|..]);
      AppendAssoc(fed, NormaliseBlock(buf), NormalisedBlocks(content[pos + |buf|..]));
      fed := fed + NormaliseBlock(buf);
      pos := pos + |buf|;
      buf := content[pos..if |content| - pos < BlockSize then |content| else pos + BlockSize];
    }
    assert content[pos..] == [];
  }

  lemma SliceOfSlice(s: seq<byte>, i: nat, n: nat)
    requires i + n <= |s|
    ensures s[i..][..n] == s[i..i + n] && s[i..][n..] == s[i + n..]
  {
  }

  lemma NormalisedBlocksStep(rest: seq<byte>)
    requires rest != []
    ensures var n := if |rest| < BlockSize then |rest| else BlockSize;
            NormalisedBlocks(rest) == NormaliseBlock(rest[..n]) + NormalisedBlocks(rest[n..])
  {
    if |rest| <= BlockSize {
      assert rest[..|rest|] == rest;
      assert NormalisedBlocks(rest[|rest|..]) == [];
    }
  }

  /** The file with every `\n` written as `\r\n`. */
  function WithCRLF(s: seq<byte>): seq<byte>
  {
    Replace(s, [LF], [CR, LF])
  }

  /** Normalising the whole file at once, as the hash is meant to:
    * a file and its `\r\n` twin feed the same bytes. */
  function NormaliseWhole(content: seq<byte>): (r: seq<byte>)
    ensures CR !in r
  {
    NormaliseBlock(content)
  }

  lemma {:induction false} CRLFTwin(s: seq<byte>)
    requires CR !in s
    ensures Replace(WithCRLF(s), [CR, LF], [LF]) == s
  {
    if s != [] {
      assert CR !in s[1..] by {
        forall i | 0 <= i < |s[1..]| ensures s[1..][i] != CR { assert s[1..][i] == s[i + 1]; }
      }
      CRLFTwin(s[1..]);
      assert s[..1] == [s[0]];
      var t := WithCRLF(s);
      if s[0] == LF {
        assert t == [CR, LF] + WithCRLF(s[1..]);
        assert t[..2] == [CR, LF] && t[2..] == WithCRLF(s[1..]);
      } else {
        assert t == [s[0]] + WithCRLF(s[1..]);
        if |t| >= 2 {
          assert t[..2] != [CR, LF] by { assert t[0] == s[0]; }
          assert t[1..] == WithCRLF(s[1..]);
        }
      }
    }
  }

  /** Whole-file normalisation forgives `\r\n` line ends. */
  lemma NormaliseWholeCRLF(s: seq<byte>)
    requires CR !in s
    ensures NormaliseWhole(WithCRLF(s)) == s
  {
    CRLFTwin(s);
    ReplaceOneAbsent(s, CR, [LF]);
  }

  lemma {:induction false} NoCRLFWithoutLF(s: seq<byte>)
    requires LF !in s
    ensures !Contains(s, [CR, LF])
  {
    if s != [] {
      assert LF !in s[1..] by {
        forall i | 0 <= i < |s[1..]| ensures s[1..][i] != LF { assert s[1..][i] == s[i + 1]; }
      }
      NoCRLFWithoutLF(s[1..]);
      if |s| >= 2 { assert s[..2][1] == s[1]; }
    }
  }

  /** As written, a `\r\n` that straddles two blocks turns into two line
    * ends: a file of 65535 bytes followed by `\r\n` hashes as those bytes
    * and `\n\n`, while its `\n` twin hashes as those bytes and `\n`. */
  lemma StraddlingCRLF(pre: seq<byte>)
    requires |pre| == BlockSize - 1 && CR !in pre && LF !in pre
    ensures WithCRLF(pre + [LF]) == pre + [CR, LF]
    ensures NormalisedBlocks(pre + [CR, LF]) == pre + [LF, LF]
    ensures NormalisedBlocks(pre + [LF]) == pre + [LF]
  {
    ReplaceOneAppend(pre, [LF], LF, [CR, LF]);
    ReplaceOneAbsent(pre, LF, [CR, LF]);
    assert Replace([LF], [LF], [CR, LF]) == [CR, LF] + Replace([], [LF], [CR, LF]);
    StraddleSplit(pre);
    StraddleWhole(pre);
  }

  /** The `\r` ends the first block and the `\n` opens the second. */
  lemma StraddleSplit(pre: seq<byte>)
    requires |pre| == BlockSize - 1 && CR !in pre && LF !in pre
    ensures NormalisedBlocks(pre + [CR, LF]) == pre + [LF, LF]
  {
    var t := pre + [CR, LF];
    assert t[..BlockSize] == pre + [CR] && t[BlockSize..] == [LF];
    assert LF !in pre + [CR];
    NoCRLFWithoutLF(pre + [CR]);
    ReplaceAbsent(pre + [CR], [CR, LF], [LF]);
    ReplaceOneAppend(pre, [CR], CR, [LF]);
    ReplaceOneAbsent(pre, CR, [LF]);
    assert Replace([CR], [CR], [LF]) == [LF] + Replace([], [CR], [LF]);
    NoCRLFWithoutLF([]);
    assert Replace([LF], [CR, LF], [LF]) == [LF] + Replace([], [CR, LF], [LF]);
    ReplaceOneAbsent([LF], CR, [LF]);
    assert NormaliseBlock([LF]) == [LF];
    assert NormalisedBlocks([LF]) == [LF];
  }

  /** The `\n` twin fits in one block and is kept as it is. */
  lemma StraddleWhole(pre: seq<byte>)
    requires |pre| == BlockSize - 1 && CR !in pre && LF !in pre
    ensures NormalisedBlocks(pre + [LF]) == pre + [LF]
  {
    NoCRLFWithoutLF(pre);
    assert pre + [LF] == (pre + [LF])[..|pre| + 1];
    ReplaceTail(pre, LF);
    ReplaceOneAppend(pre, [LF], CR, [LF]);
    ReplaceOneAbsent(pre, CR, [LF]);
    ReplaceOneAbsent([LF], CR, [LF]);
  }

  /** A block that only ends in a line feed keeps it. */
  lemma ReplaceTail(pre: seq<byte>, x: byte)
    requires CR !in pre && x != CR
    ensures Replace(pre + [x], [CR, LF], [LF]) == pre + [x]
  {
    NoCRAnywhere(pre + [x]);
    ReplaceAbsent(pre + [x], [CR, LF], [LF]);
  }

  lemma {:induction false} NoCRAnywhere(s: seq<byte>)
    requires CR !in s
    ensures !Contains(s, [CR, LF])
  {
    if s != [] {
      assert CR !in s[1..] by {
        forall i | 0 <= i < |s[1..]| ensures s[1..][i] != CR { assert s[1..][i] == s[i + 1]; }
      }
      NoCRAnywhere(s[1..]);
      if |s| >= 2 { assert s[..2][0] == s[0]; }
    }
  }

  // ---------------------------------------------------------------------
  // get_list_attribute

  /** The non-empty values `attr` takes in the records, in order. */
  function GetListAttribute(records: seq<map<string, string>>, attr: string): (r: seq<string>)
    ensures forall i :: 0 <= i < |r| ==> r[i] != []
  {
    if records == [] then []
    else
      (if attr in records[0] && records[0][attr] != [] then [records[0][attr]] else [])
      + GetListAttribute(records[1..], attr)
  }

  lemma {:induction false} GetListAttributeAppend(a: seq<map<string, string>>, b: seq<map<string, string>>, attr: string)
    ensures GetListAttribute(a + b, attr) == GetListAttribute(a, attr) + GetListAttribute(b, attr)
  {
    if a != [] {
      assert (a + b)[1..] == a[1..] + b;
      GetListAttributeAppend(a[1..], b, attr);
    } else {
      assert a + b == b;
    }
  }

  /** A value is listed exactly when some record gives it for `attr`. */
  lemma {:induction false} GetListAttributeMembers(records: seq<map<string, string>>, attr: string, v: string)
    ensures v in GetListAttribute(records, attr) <==>
              v != [] && exists i :: 0 <= i < |records| && attr in records[i] && records[i][attr] == v
  {
    if records != [] {
      GetListAttributeMembers(records[1..], attr, v);
      if exists i :: 0 <= i < |records[1..]| && attr in records[1..][i] && records[1..][i][attr] == v {
        var i :| 0 <= i < |records[1..]| && attr in records[1..][i] && records[1..][i][attr] == v;
        assert records[i + 1] == records[1..][i];
      }
      if exists i :: 0 <= i < |records| && attr in records[i] && records[i][attr] == v {
        var i :| 0 <= i < |records| && attr in records[i] && records[i][attr] == v;
        if i > 0 { assert records[1..][i - 1] == records[i]; }
      }
    }
  }

  // ---------------------------------------------------------------------
  // get_dir_file_hash: the exclusion test

  /** `s.lstrip('/')` */
  function LStripSlashes(s: string): (r: string)
    ensures |r| <= |s| && r == s[|s| - |r|..] && (r == [] || r[0] != '/')
  {
    if s != [] && s[0] == '/' then LStripSlashes(s[1..]) else s
  }

  /** Exclusions that start with '/' are taken relative to the walked root. */
  function RootExclusions(dirRoot: string, exclude: seq<string>): (r: seq<string>)
    ensures |r| == |exclude|
    ensures forall i :: 0 <= i < |exclude| ==>
              r[i] == if StartsWith(exclude[i], "/") then PathJoin(dirRoot, LStripSlashes(exclude[i])) else exclude[i]
  {
    if exclude == [] then []
    else
      [if StartsWith(exclude[0], "/") then PathJoin(dirRoot, LStripSlashes(exclude[0])) else exclude[0]]
      + RootExclusions(dirRoot, exclude[1..])
  }

  /** An absolute exclusion matches the paths inside it; any other
    * exclusion matches wherever it occurs in the path. */
  predicate MatchesExclusion(e: string, path: string)
  {
    if StartsWith(e, "/") then StartsWith(path, e + "/") else Contains(path, e)
  }

  predicate Excluded(path: string, exclude: seq<string>, excludedFiles: seq<string>)
  {
    (exists i :: 0 <= i < |exclude| && MatchesExclusion(exclude[i], path))
    || (exists i :: 0 <= i < |excludedFiles| && EndsWith(path, excludedFiles[i]))
  }

  /** `exclude_path`, over the exclusions already taken relative to the root. */
  method ExcludePath(path: string, exclude: seq<string>, excludedFiles: seq<string>) returns (b: bool)
    ensures b <==> Excluded(path, exclude, excludedFiles)
  {
    var k := 0;
    while k < |exclude|
      invariant k <= |exclude|
      invariant forall i :: 0 <= i < k ==> !MatchesExclusion(exclude[i], path)
    {
      var shouldBeExcluded;
      if StartsWith(exclude[k], "/") {
        shouldBeExcluded := StartsWith(path, exclude[k] + "/");
      } else {
        shouldBeExcluded := Contains(path, exclude[k]);
      }
      if shouldBeExcluded {
        return true;
      }
      k := k + 1;
    }
    var j := 0;
    while j < |excludedFiles|
      invariant j <= |excludedFiles|
      invariant forall i :: 0 <= i < j ==> !EndsWith(path, excludedFiles[i])
    {
      if EndsWith(path, excludedFiles[j]) {
        return true;
      }
      j := j + 1;
    }
    return false;
  }

  /** Under an absolute root, `/x` excludes exactly what lies inside
    * `<root>/x`. */
  lemma RootedExclusion(dirRoot: string, x: string, path: string)
    requires StartsWith(dirRoot, "/") && !EndsWith(dirRoot, "/") && x != [] && x[0] != '/'
    ensures RootExclusions(dirRoot, ["/" + x]) == [dirRoot + "/" + x]
    ensures Excluded(path, RootExclusions(dirRoot, ["/" + x]), []) <==> StartsWith(path, dirRoot + "/" + x + "/")
  {
    assert ("/" + x)[1..] == x;
    assert LStripSlashes("/" + x) == x;
    assert !StartsWith(x, "/");
    var e := dirRoot + "/" + x;
    assert e[..1] == dirRoot[..1];
    assert RootExclusions(dirRoot, ["/" + x])[0] == e;
  }

  // ---------------------------------------------------------------------
  // get_common_stem

  /** `p[:-1] if p[-1] == '/' else p`; an empty path has no last character. */
  function NormalisedPaths(paths: seq<string>): (r: Result<seq<string>>)
    ensures r.Ok? <==> forall i :: 0 <= i < |paths| ==> paths[i] != []
    ensures r.Ok? ==> |r.value| == |paths|
    ensures r.Ok? ==> forall i :: 0 <= i < |paths| ==>
              r.value[i] == if paths[i][|paths[i]| - 1] == '/' then paths[i][..|paths[i]| - 1] else paths[i]
  {
    if paths == [] then Ok([])
    else if paths[0] == [] then Raise(IndexError, "string index out of range")
    else
      var p := paths[0];
      var rest := NormalisedPaths(paths[1..]);
      if rest.Err? then rest
      else Ok([if p[|p| - 1] == '/' then p[..|p| - 1] else p] + rest.value)
  }

  /** `q` drops `p`: `p`'s directory lies inside `q`. */
  predicate Removes(q: string, p: string)
  {
    StartsWith(Dirname(p), q + "/")
  }

  /** The paths no other path of the set drops, under `drops`. */
  function Stems(drops: (string, string) -> bool, paths: set<string>): set<string>
  {
    set p | p in paths && !exists q :: q in paths && drops(q, p)
  }

  /** The common stems of a set of paths. */
  function StemSet(paths: set<string>): set<string>
  {
    Stems(Removes, paths)
  }

  /** What the two loops rely on in a drop relation: only a strictly
    * shorter path drops, and dropping is transitive. */
  ghost predicate Nests(drops: (string, string) -> bool)
  {
    (forall a, b :: drops(a, b) ==> |a| < |b|)
    && (forall a, b, c :: drops(a, b) && drops(b, c) ==> drops(a, c))
  }

  lemma RemovesNests()
    ensures Nests(Removes)
  {
    forall a, b | Removes(a, b) ensures |a| < |b| {
      RemovesShorter(a, b);
    }
    forall a, b, c | Removes(a, b) && Removes(b, c) ensures Removes(a, c) {
      RemovesTrans(a, b, c);
    }
  }

  /** A path is dropped only by a strictly shorter one. */
  lemma RemovesShorter(q: string, p: string)
    requires Removes(q, p)
    ensures |q| < |p|
  {
    DirnamePrefix(p);
  }

  /** Dropping is transitive. */
  lemma RemovesTrans(a: string, q: string, p: string)
    requires Removes(a, q) && Removes(q, p)
    ensures Removes(a, p)
  {
    DirnamePrefix(q);
    DirnamePrefix(p);
    var d := Dirname(p);
    var n := |a + "/"|;
    assert q[..n] == Dirname(q)[..n] == a + "/";
    assert d[..n] == (q + "/")[..n] == q[..n];
  }

  /** Non-decreasing lengths. */
  predicate ByLen(s: seq<string>)
  {
    forall i, j :: 0 <= i < j < |s| ==> |s[i]| <= |s[j]|
  }

  /** `sorted(paths, key=len)`: a stable insertion by length. */
  function InsertByLen(x: string, s: seq<string>): (r: seq<string>)
    requires ByLen(s)
    ensures ByLen(r) && multiset(r) == multiset(s) + multiset{x}
  {
    if s == [] || |x| <= |s[0]| then
      LenFront(x, s);
      [x] + s
    else
      var t := InsertByLen(x, s[1..]);
      assert s == [s[0]] + s[1..];
      LenBehind(x, s, t);
      [s[0]] + t
  }

  lemma LenFront(x: string, s: seq<string>)
    requires ByLen(s) && (s == [] || |x| <= |s[0]|)
    ensures ByLen([x] + s)
  {
    var r := [x] + s;
    forall i, j | 0 <= i < j < |r| ensures |r[i]| <= |r[j]| {
      assert r[j] == s[j - 1];
      if i > 0 { assert r[i] == s[i - 1]; }
    }
  }

  lemma LenBehind(x: string, s: seq<string>, t: seq<string>)
    requires ByLen(s) && s != [] && |s[0]| <= |x|
    requires ByLen(t) && multiset(t) == multiset(s[1..]) + multiset{x}
    ensures ByLen([s[0]] + t)
  {
    var r := [s[0]] + t;
    forall i, j | 0 <= i < j < |r| ensures |r[i]| <= |r[j]| {
      assert r[j] == t[j - 1];
      if i == 0 {
        assert t[j - 1] in multiset(t);
        if t[j - 1] != x {
          assert t[j - 1] in multiset(s[1..]);
          var k :| 0 <= k < |s[1..]| && s[1..][k] == t[j - 1];
          assert s[k + 1] == t[j - 1];
        }
      } else {
        assert r[i] == t[i - 1];
      }
    }
  }

  function SortByLen(s: seq<string>): (r: seq<string>)
    ensures ByLen(r) && multiset(r) == multiset(s)
  {
    if s == [] then []
    else
      assert s == [s[0]] + s[1..];
      InsertByLen(s[0], SortByLen(s[1..]))
  }

  /** The paths `L[i]` drops among `L[i+1..j]`. */
  function RemovedFrom(drops: (string, string) -> bool, L: seq<string>, i: nat, j: nat): seq<string>
    requires i < |L| && j <= |L|
  {
    if j <= i + 1 then []
    else RemovedFrom(drops, L, i, j - 1) + (if drops(L[i], L[j - 1]) then [L[j - 1]] else [])
  }

  /** `L[i]` drops only paths it does drop. */
  lemma {:induction false} RemovedFromSound(drops: (string, string) -> bool, L: seq<string>, i: nat, j: nat, x: string)
    requires i < |L| && j <= |L| && x in RemovedFrom(drops, L, i, j)
    ensures drops(L[i], x)
  {
    if j > i + 1 && x in RemovedFrom(drops, L, i, j - 1) {
      RemovedFromSound(drops, L, i, j - 1, x);
    }
  }

  /** `L[i]` drops every later path it lies two levels above. */
  lemma {:induction false} RemovedFromComplete(drops: (string, string) -> bool, L: seq<string>, i: nat, j: nat, m: nat)
    requires i < m < j <= |L| && drops(L[i], L[m])
    ensures L[m] in RemovedFrom(drops, L, i, j)
  {
    if m < j - 1 {
      RemovedFromComplete(drops, L, i, j - 1, m);
    }
  }

  /** No path of the list drops `r`. */
  predicate IsRoot(drops: (string, string) -> bool, L: seq<string>, r: string)
  {
    forall a :: a in L ==> !drops(a, r)
  }

  /** A dropped path is dropped by some path nothing drops. */
  lemma {:induction false} RootRemover(drops: (string, string) -> bool, L: seq<string>, q: string, p: string) returns (r: string)
    requires Nests(drops) && q in L && drops(q, p)
    ensures r in L && drops(r, p) && IsRoot(drops, L, r)
    decreases |q|
  {
    if exists a :: a in L && drops(a, q) {
      var a :| a in L && drops(a, q);
      r := RootRemover(drops, L, a, p);
    } else {
      r := q;
    }
  }

  function Elems(s: seq<string>): set<string>
  {
    set x | x in s
  }

  /** What the outer loop keeps true after `idx` paths: only paths some
    * path drops are dropped, and every path a path nothing drops drops,
    * among the first `idx`, is. */
  ghost predicate DroppedSoFar(drops: (string, string) -> bool, L: seq<string>, idx: nat, removed: seq<string>)
  {
    (forall x :: x in removed ==> !IsRoot(drops, L, x))
    && (forall i, m :: 0 <= i < idx && i < m < |L| && IsRoot(drops, L, L[i]) && drops(L[i], L[m]) ==> L[m] in removed)
  }

  /** One turn of the outer loop keeps `DroppedSoFar`. */
  lemma DroppedStep(drops: (string, string) -> bool, L: seq<string>, idx: nat, before: seq<string>, removed: seq<string>)
    requires idx < |L| && DroppedSoFar(drops, L, idx, before)
    requires removed == if L[idx] in before then before else before + RemovedFrom(drops, L, idx, |L|)
    ensures DroppedSoFar(drops, L, idx + 1, removed)
  {
    forall x | x in removed && x !in before ensures !IsRoot(drops, L, x) {
      RemovedFromSound(drops, L, idx, |L|, x);
    }
    forall m | idx < m < |L| && IsRoot(drops, L, L[idx]) && drops(L[idx], L[m]) ensures L[m] in removed {
      RemovedFromComplete(drops, L, idx, |L|, m);
    }
  }

  /** With the list sorted by length, a path some path drops is dropped. */
  lemma DroppedCovered(drops: (string, string) -> bool, L: seq<string>, removed: seq<string>, q: string, p: string)
    requires Nests(drops) && ByLen(L) && DroppedSoFar(drops, L, |L|, removed)
    requires q in L && p in L && drops(q, p)
    ensures p in removed
  {
    var r := RootRemover(drops, L, q, p);
    var i :| 0 <= i < |L| && L[i] == r;
    var m :| 0 <= m < |L| && L[m] == p;
    assert |L[i]| < |L[m]|;
  }

  /** What the loops leave is the stem set of the paths. */
  lemma StemOfSorted(drops: (string, string) -> bool, L: seq<string>, removed: seq<string>)
    requires Nests(drops) && ByLen(L) && DroppedSoFar(drops, L, |L|, removed)
    ensures Elems(L) - Elems(removed) == Stems(drops, Elems(L))
  {
    forall p | p in Elems(L) && p !in Stems(drops, Elems(L)) ensures p in Elems(removed) {
      var q :| q in Elems(L) && drops(q, p);
      DroppedCovered(drops, L, removed, q, p);
    }
  }

  lemma SortedDedupElems(s: seq<string>)
    ensures Elems(SortByLen(Dedup(s))) == Elems(s)
  {
    var L := SortByLen(Dedup(s));
    forall x ensures x in L <==> x in Dedup(s) {
      assert x in L <==> x in multiset(L);
      assert x in Dedup(s) <==> x in multiset(Dedup(s));
    }
  }

  /** The inner loop: `L[idx]` drops the longer paths below it. */
  method DropBelow(drops: (string, string) -> bool, L: seq<string>, idx: nat, removed: seq<string>) returns (removed': seq<string>)
    requires idx < |L|
    ensures removed' == removed + RemovedFrom(drops, L, idx, |L|)
  {
    removed' := removed;
    var shortPath := L[idx];
    var j := idx + 1;
    while j < |L|
      invariant idx + 1 <= j <= |L|
      invariant removed' == removed + RemovedFrom(drops, L, idx, j)
    {
      if drops(shortPath, L[j]) {
        removed' := removed' + [L[j]];
      }
      j := j + 1;
    }
  }

  /** The outer loop: each path not dropped yet drops the paths below it.
    * With the list sorted by length, what is left is the stem set. */
  method DropNested(drops: (string, string) -> bool, L: seq<string>) returns (removed: seq<string>)
    requires Nests(drops) && ByLen(L)
    ensures Elems(L) - Elems(removed) == Stems(drops, Elems(L))
  {
    removed := [];
    var idx := 0;
    while idx < |L|
      invariant idx <= |L| && DroppedSoFar(drops, L, idx, removed)
    {
      var before := removed;
      if L[idx] !in removed {
        removed := DropBelow(drops, L, idx, removed);
      }
      DroppedStep(drops, L, idx, before, removed);
      idx := idx + 1;
    }
    StemOfSorted(drops, L, removed);
  }

  /** `get_common_stem`: normalise, deduplicate, sort by length, then drop
    * every path lying two or more levels below a path not yet dropped.
    * The result is built from a set, so it is returned as one. */
  method GetCommonStem(paths: seq<string>) returns (r: Result<set<string>>)
    ensures r.Ok? <==> forall i :: 0 <= i < |paths| ==> paths[i] != []
    ensures r.Ok? ==> r.value == StemSet(Elems(NormalisedPaths(paths).value))
    ensures r.Ok? ==> r.value <= Elems(NormalisedPaths(paths).value)
    ensures r.Ok? ==> forall p, q :: p in r.value && q in r.value ==> !Removes(q, p)
  {
    var normalised := NormalisedPaths(paths);
    if normalised.Err? {
      return Err(normalised.exc);
    }
    var L := SortByLen(Dedup(normalised.value));
    RemovesNests();
    var removed := DropNested(Removes, L);
    SortedDedupElems(normalised.value);
    return Ok(Elems(L) - Elems(removed));
  }
}
