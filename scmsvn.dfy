/** The Subversion side of a replication (lib/scmsvn.py): which revisions
  * to replicate, how the changed-path records of one revision are sorted
  * into adds, deletes and replacements and repaired, how repository paths
  * map to working-copy paths and back, how `svn:externals` definitions are
  * read and diffed, and how updates run in groups and are checked. */
module ScmSvn {
  import opened Common
  import opened Strings
  import BuildCommon

  /** One changed-path record of `svn log -v`: its path, its action
    * letter ('A', 'D', 'M' or 'R'), and whether it was made up for an
    * external. */
  datatype ChangedPath = ChangedPath(path: string, action: char, externals: bool)

  // ---------------------------------------------------------------------
  // get_changes_to_replicate

  function IntTexts(s: seq<int>): (r: seq<string>)
    ensures |r| == |s|
  {
    if s == [] then [] else [IntToString(s[0])] + IntTexts(s[1..])
  }

  /** `str(list_of_ints)` */
  function ReprInts(s: seq<int>): string
  {
    "[" + Join(IntTexts(s), ", ") + "]"
  }

  /** The revisions listed from the counter on, without the counter's own
    * revision, cut to `maximum` when one is given (0 means none). */
  function Window(revs: seq<int>, counter: int, maximum: int): seq<int>
  {
    var rest := if revs != [] && counter == revs[0] then revs[1..] else revs;
    if maximum != 0 then SliceTo(rest, maximum) else rest
  }

  /** `get_changes_to_replicate`, given the revisions svn lists from the
    * counter on. An ENDCHANGE cuts the window after its first occurrence
    * and must lie inside the window. */
  function ChangesToReplicate(revs: seq<int>, counter: int, maximum: int, endChange: Option<int>): (r: Result<seq<int>>)
    ensures endChange.None? ==> r == Ok(Window(revs, counter, maximum))
    ensures endChange.Some? ==> (r.Ok? <==> endChange.value in Window(revs, counter, maximum))
    ensures endChange.Some? && r.Ok? ==>
              var w := Window(revs, counter, maximum);
              0 < |r.value| <= |w| && r.value == w[..|r.value|]
              && r.value[|r.value| - 1] == endChange.value && endChange.value !in r.value[..|r.value| - 1]
    ensures r.Err? ==> r.exc == Exc(RepSvnException, IntToString(endChange.value) + " not in svn revisions: "
                                                      + ReprInts(Window(revs, counter, maximum)))
  {
    var w := Window(revs, counter, maximum);
    match endChange
    case None => Ok(w)
    case Some(last) =>
      var k := IndexOf(w, last);
      if k.None? then Raise(RepSvnException, IntToString(last) + " not in svn revisions: " + ReprInts(w))
      else
        assert w[..k.value + 1][..k.value] == w[..k.value];
        Ok(w[..k.value + 1])
  }

  predicate Increasing(s: seq<int>)
  {
    forall i, j :: 0 <= i < j < |s| ==> s[i] < s[j]
  }

  /** With svn listing increasing revisions from the counter on, every
    * revision chosen lies after the counter, in increasing order, and
    * there are at most `maximum` of them. */
  lemma ChangesAfterCounter(revs: seq<int>, counter: int, maximum: int, endChange: Option<int>)
    requires Increasing(revs) && (revs != [] ==> counter <= revs[0])
    requires ChangesToReplicate(revs, counter, maximum, endChange).Ok?
    ensures var r := ChangesToReplicate(revs, counter, maximum, endChange).value;
            Increasing(r) && (forall i :: 0 <= i < |r| ==> counter < r[i])
            && (maximum > 0 ==> |r| <= maximum)
  {
    var w := Window(revs, counter, maximum);
    WindowAfterCounter(revs, counter, maximum);
    var r := ChangesToReplicate(revs, counter, maximum, endChange).value;
    assert |r| <= |w| && r == w[..|r|];
    assert forall i :: 0 <= i < |r| ==> r[i] == w[i];
  }

  /** The window itself is increasing, after the counter and within `maximum`. */
  lemma WindowAfterCounter(revs: seq<int>, counter: int, maximum: int)
    requires Increasing(revs) && (revs != [] ==> counter <= revs[0])
    ensures var w := Window(revs, counter, maximum);
            Increasing(w) && (forall i :: 0 <= i < |w| ==> counter < w[i])
            && (maximum > 0 ==> |w| <= maximum)
  {
    var rest := if revs != [] && counter == revs[0] then revs[1..] else revs;
    assert Increasing(rest) && forall i :: 0 <= i < |rest| ==> counter < rest[i] by {
      if revs != [] && counter == revs[0] {
        forall i | 0 <= i < |rest| ensures counter < rest[i] { assert rest[i] == revs[i + 1]; }
      } else {
        forall i | 0 <= i < |rest| ensures counter < rest[i] { assert revs[0] <= revs[i]; }
      }
    }
    var w := Window(revs, counter, maximum);
    assert |w| <= |rest| && w == rest[..|w|];
    assert forall i :: 0 <= i < |w| ==> w[i] == rest[i];
  }

  /** ENDCHANGE is looked for only inside the cut window: a revision svn
    * does list, but beyond the first `maximum`, is refused. */
  lemma EndChangeBeyondMaximum(revs: seq<int>, counter: int, maximum: nat, k: nat)
    requires Increasing(revs) && revs != [] && counter < revs[0]
    requires 0 < maximum <= k < |revs|
    ensures ChangesToReplicate(revs, counter, maximum, Some(revs[k])).Err?
  {
    var w := Window(revs, counter, maximum);
    assert w == revs[..maximum];
    assert forall i :: 0 <= i < |w| ==> w[i] < revs[k];
  }

  // ---------------------------------------------------------------------
  // get_files_to_add / get_files_to_del / get_files_to_rep

  /** The paths of the records with action `a`, in order. */
  function FilesWithAction(cps: seq<ChangedPath>, a: char): (r: seq<string>)
    ensures |r| <= |cps|
  {
    if cps == [] then []
    else (if cps[0].action == a then [cps[0].path] else []) + FilesWithAction(cps[1..], a)
  }

  lemma {:induction false} FilesWithActionAppend(x: seq<ChangedPath>, y: seq<ChangedPath>, a: char)
    ensures FilesWithAction(x + y, a) == FilesWithAction(x, a) + FilesWithAction(y, a)
  {
    if x == [] {
      assert x + y == y;
    } else {
      assert (x + y)[0] == x[0] && (x + y)[1..] == x[1..] + y;
      FilesWithActionAppend(x[1..], y, a);
      var h := if x[0].action == a then [x[0].path] else [];
      calc {
        FilesWithAction(x + y, a);
        h + FilesWithAction(x[1..] + y, a);
        h + (FilesWithAction(x[1..], a) + FilesWithAction(y, a));
        (h + FilesWithAction(x[1..], a)) + FilesWithAction(y, a);
      }
    }
  }

  /** A path is selected exactly when some record has it with action `a`. */
  lemma {:induction false} FilesWithActionMembers(cps: seq<ChangedPath>, a: char, p: string)
    ensures p in FilesWithAction(cps, a) <==> exists i :: 0 <= i < |cps| && cps[i].path == p && cps[i].action == a
  {
    if cps != [] {
      FilesWithActionMembers(cps[1..], a, p);
      if exists i :: 0 <= i < |cps[1..]| && cps[1..][i].path == p && cps[1..][i].action == a {
        var i :| 0 <= i < |cps[1..]| && cps[1..][i].path == p && cps[1..][i].action == a;
        assert cps[i + 1] == cps[1..][i];
      }
      if exists i :: 0 <= i < |cps| && cps[i].path == p && cps[i].action == a {
        var i :| 0 <= i < |cps| && cps[i].path == p && cps[i].action == a;
        if i > 0 { assert cps[1..][i - 1] == cps[i]; }
      }
    }
  }

  /** Above this many added paths, they are reduced to their stems. */
  const MaxPlainAdds: nat := 1000

  /** `get_files_to_add`: the added paths in order, or, when there are more
    * than 1000 of them, their common stems in no particular order. */
  method FilesToAdd(cps: seq<ChangedPath>) returns (r: Result<seq<string>>)
    ensures var adds := FilesWithAction(cps, 'A');
            |adds| <= MaxPlainAdds ==> r == Ok(adds)
    ensures var adds := FilesWithAction(cps, 'A');
            |adds| > MaxPlainAdds ==> (r.Ok? <==> forall i :: 0 <= i < |adds| ==> adds[i] != [])
    ensures var adds := FilesWithAction(cps, 'A');
            |adds| > MaxPlainAdds && r.Ok? ==>
              NoDups(r.value) && BuildCommon.Elems(r.value) == BuildCommon.StemSet(BuildCommon.Elems(BuildCommon.NormalisedPaths(adds).value))
  {
    var adds := FilesWithAction(cps, 'A');
    if |adds| <= MaxPlainAdds {
      return Ok(adds);
    }
    var stems := BuildCommon.GetCommonStem(adds);
    if stems.Err? {
      return Err(stems.exc);
    }
    var listed := ListOf(stems.value);
    return Ok(listed);
  }

  /** `list(s)`: the members of a set, each once, in an order the set
    * chooses. */
  method ListOf(s: set<string>) returns (r: seq<string>)
    ensures NoDups(r) && BuildCommon.Elems(r) == s
  {
    r := [];
    var left := s;
    while left != {}
      invariant NoDups(r) && BuildCommon.Elems(r) + left == s
      invariant forall x :: x in r ==> x !in left
      decreases left
    {
      var x :| x in left;
      r := r + [x];
      left := left - {x};
    }
  }

  // ---------------------------------------------------------------------
  // fix_R_action_without_add

  /** The 'R' records, in order. */
  function Replacements(cps: seq<ChangedPath>): (r: seq<ChangedPath>)
    ensures forall i :: 0 <= i < |r| ==> r[i].action == 'R' && r[i] in cps
  {
    if cps == [] then []
    else (if cps[0].action == 'R' then [cps[0]] else []) + Replacements(cps[1..])
  }

  lemma {:induction false} ReplacementsAppend(x: seq<ChangedPath>, y: seq<ChangedPath>)
    ensures Replacements(x + y) == Replacements(x) + Replacements(y)
  {
    if x == [] {
      assert x + y == y;
    } else {
      assert (x + y)[0] == x[0] && (x + y)[1..] == x[1..] + y;
      ReplacementsAppend(x[1..], y);
      var h := if x[0].action == 'R' then [x[0]] else [];
      calc {
        Replacements(x + y);
        h + Replacements(x[1..] + y);
        h + (Replacements(x[1..]) + Replacements(y));
        (h + Replacements(x[1..])) + Replacements(y);
      }
    }
  }

  /** An 'A' copy of each replacement whose path is not among `adds`. */
  function MissingAdds(rs: seq<ChangedPath>, adds: seq<string>): (r: seq<ChangedPath>)
    ensures forall i :: 0 <= i < |r| ==> r[i].action == 'A'
  {
    if rs == [] then []
    else (if rs[0].path in adds then [] else [rs[0].(action := 'A')]) + MissingAdds(rs[1..], adds)
  }

  lemma {:induction false} MissingAddsAppend(x: seq<ChangedPath>, y: seq<ChangedPath>, adds: seq<string>)
    ensures MissingAdds(x + y, adds) == MissingAdds(x, adds) + MissingAdds(y, adds)
  {
    if x == [] {
      assert x + y == y;
    } else {
      assert (x + y)[1..] == x[1..] + y;
      MissingAddsAppend(x[1..], y, adds);
    }
  }

  /** Every record kept, then an 'A' copy of each 'R' record whose path
    * has no 'A' record. */
  function FixedReplacements(cps: seq<ChangedPath>): seq<ChangedPath>
  {
    cps + MissingAdds(Replacements(cps), FilesWithAction(cps, 'A'))
  }

  /** `fix_R_action_without_add`, with the added paths held in a list. */
  method FixRActionWithoutAdd(cps: seq<ChangedPath>) returns (fixed: seq<ChangedPath>)
    ensures fixed == FixedReplacements(cps)
  {
    var replaceEntries := Replacements(cps);
    var addPaths := FilesWithAction(cps, 'A');
    fixed := cps;
    for idx := 0 to |replaceEntries|
      invariant fixed == cps + MissingAdds(replaceEntries[..idx], addPaths)
    {
      var r := replaceEntries[idx];
      MissingAddsAppend(replaceEntries[..idx], [r], addPaths);
      assert replaceEntries[..idx + 1] == replaceEntries[..idx] + [r];
      if r.path in addPaths {
        continue;
      }
      fixed := fixed + [r.(action := 'A')];
    }
    assert replaceEntries[..|replaceEntries|] == replaceEntries;
  }

  lemma {:induction false} MissingAddsNone(rs: seq<ChangedPath>, adds: seq<string>)
    requires forall i :: 0 <= i < |rs| ==> rs[i].path in adds
    ensures MissingAdds(rs, adds) == []
  {
    if rs != [] {
      MissingAddsNone(rs[1..], adds);
    }
  }

  /** Each replacement's path is among the given adds or the made-up ones. */
  lemma {:induction false} MissingAddsCover(rs: seq<ChangedPath>, adds: seq<string>, i: nat)
    requires i < |rs|
    ensures rs[i].path in adds + FilesWithAction(MissingAdds(rs, adds), 'A')
  {
    var m := MissingAdds(rs[1..], adds);
    var head := if rs[0].path in adds then [] else [rs[0].(action := 'A')];
    FilesWithActionAppend(head, m, 'A');
    if i > 0 {
      MissingAddsCover(rs[1..], adds, i - 1);
    }
  }

  /** After the repair every 'R' record has an 'A' record for its path. */
  lemma EveryReplacementAdded(cps: seq<ChangedPath>, i: nat)
    requires i < |FixedReplacements(cps)| && FixedReplacements(cps)[i].action == 'R'
    ensures FixedReplacements(cps)[i].path in FilesWithAction(FixedReplacements(cps), 'A')
  {
    var rs := Replacements(cps);
    var adds := FilesWithAction(cps, 'A');
    var m := MissingAdds(rs, adds);
    var f := FixedReplacements(cps);
    FilesWithActionAppend(cps, m, 'A');
    assert forall k :: |cps| <= k < |f| ==> f[k] == m[k - |cps|];
    FilesWithActionMembers(cps, 'R', cps[i].path);
    ReplacementsIndex(cps, i);
    var k :| 0 <= k < |rs| && rs[k].path == cps[i].path;
    MissingAddsCover(rs, adds, k);
  }

  lemma {:induction false} ReplacementsIndex(cps: seq<ChangedPath>, i: nat)
    requires i < |cps| && cps[i].action == 'R'
    ensures exists k :: 0 <= k < |Replacements(cps)| && Replacements(cps)[k].path == cps[i].path
  {
    var head := if cps[0].action == 'R' then [cps[0]] else [];
    if i == 0 {
      assert Replacements(cps)[0] == cps[0];
    } else {
      ReplacementsIndex(cps[1..], i - 1);
      var k :| 0 <= k < |Replacements(cps[1..])| && Replacements(cps[1..])[k].path == cps[1..][i - 1].path;
      assert Replacements(cps)[|head| + k] == Replacements(cps[1..])[k];
    }
  }

  /** Repairing twice changes nothing more. */
  lemma FixIdempotent(cps: seq<ChangedPath>)
    ensures FixedReplacements(FixedReplacements(cps)) == FixedReplacements(cps)
  {
    var f := FixedReplacements(cps);
    var m := MissingAdds(Replacements(cps), FilesWithAction(cps, 'A'));
    ReplacementsAppend(cps, m);
    NoReplacements(m);
    assert Replacements(f) == Replacements(cps) + [];
    forall i | 0 <= i < |Replacements(f)| ensures Replacements(f)[i].path in FilesWithAction(f, 'A') {
      MissingAddsCover(Replacements(cps), FilesWithAction(cps, 'A'), i);
      FilesWithActionAppend(cps, m, 'A');
    }
    MissingAddsNone(Replacements(f), FilesWithAction(f, 'A'));
  }

  lemma {:induction false} NoReplacements(s: seq<ChangedPath>)
    requires forall i :: 0 <= i < |s| ==> s[i].action == 'A'
    ensures Replacements(s) == []
  {
    if s != [] {
      NoReplacements(s[1..]);
    }
  }

  /** As written, the added paths are a generator: each `in` test consumes
    * it up to and including the first match, or to its end. */
  function MissingAddsAsWritten(rs: seq<ChangedPath>, gen: seq<string>): seq<ChangedPath>
  {
    if rs == [] then []
    else
      match IndexOf(gen, rs[0].path)
      case Some(k) => MissingAddsAsWritten(rs[1..], gen[k + 1..])
      case None => [rs[0].(action := 'A')] + MissingAddsAsWritten(rs[1..], [])
  }

  function FixedReplacementsAsWritten(cps: seq<ChangedPath>): seq<ChangedPath>
  {
    cps + MissingAddsAsWritten(Replacements(cps), FilesWithAction(cps, 'A'))
  }

  function TwoReplacedTwoAdded(): seq<ChangedPath>
  {
    [ChangedPath("/wc/b", 'R', false), ChangedPath("/wc/a", 'R', false),
     ChangedPath("/wc/a", 'A', false), ChangedPath("/wc/b", 'A', false)]
  }

  /** Two replaced paths whose adds come in the other order: looking for
    * the second path in the generator already used up by the first
    * appends an 'A' record that is not missing. */
  lemma SpuriousAddAsWritten()
    ensures FixedReplacementsAsWritten(TwoReplacedTwoAdded())
            == TwoReplacedTwoAdded() + [ChangedPath("/wc/a", 'A', false)]
  {
    var cps := TwoReplacedTwoAdded();
    assert Replacements(cps) == [cps[0], cps[1]];
    assert FilesWithAction(cps, 'A') == ["/wc/a", "/wc/b"];
    assert "/wc/b" != "/wc/a" by { assert "/wc/b"[4] != "/wc/a"[4]; }
    assert IndexOf(["/wc/a", "/wc/b"], "/wc/b") == Some(1);
    assert ["/wc/a", "/wc/b"][2..] == [];
  }

  /** With the adds held in a list, nothing is appended for that input. */
  lemma NoSpuriousAdd()
    ensures FixedReplacements(TwoReplacedTwoAdded()) == TwoReplacedTwoAdded()
  {
    var cps := TwoReplacedTwoAdded();
    assert Replacements(cps) == [cps[0], cps[1]];
    assert FilesWithAction(cps, 'A') == ["/wc/a", "/wc/b"];
  }

  // ---------------------------------------------------------------------
  // translate_repopath_to_abspath / translate_abspath_to_repopath

  /** `s[n:]` */
  function Drop(s: string, n: nat): (r: string)
    ensures |r| <= |s|
  {
    if n <= |s| then s[n..] else []
  }

  /** A repository path as a working-copy path: the project directory and
    * the slash after it dropped, the rest joined to the working-copy root. */
  function RepoToAbsPath(path: string, projectDir: string, wcDir: string): string
  {
    PathJoin(wcDir, Drop(Drop(path, |projectDir|), 1))
  }

  /** A working-copy path as a repository URL. */
  function AbsToRepoPath(path: string, repoUrl: string, projectDir: string, wcDir: string): string
  {
    var inProject := PathJoin(projectDir, Drop(Drop(path, |wcDir|), 1));
    PathJoin(repoUrl, Drop(inProject, 1))
  }

  /** `translate_repopath_to_abspath`: the list is copied but its records
    * are shared, so the caller's records are rewritten in place. */
  method TranslateRepoPathToAbsPath(records: array<ChangedPath>, projectDir: string, wcDir: string)
    returns (r: seq<ChangedPath>)
    modifies records
    ensures r == records[..]
    ensures forall i :: 0 <= i < records.Length ==>
              records[i] == old(records[i]).(path := RepoToAbsPath(old(records[i]).path, projectDir, wcDir))
  {
    for i := 0 to records.Length
      invariant forall k :: 0 <= k < i ==>
                  records[k] == old(records[k]).(path := RepoToAbsPath(old(records[k]).path, projectDir, wcDir))
      invariant forall k :: i <= k < records.Length ==> records[k] == old(records[k])
    {
      var path := records[i].path;
      path := Drop(path, |projectDir|);
      var absPath := PathJoin(wcDir, Drop(path, 1));
      records[i] := records[i].(path := absPath);
    }
    r := records[..];
  }

  /** `translate_abspath_to_repopath` */
  method TranslateAbsPathToRepoPath(paths: seq<string>, repoUrl: string, projectDir: string, wcDir: string)
    returns (urls: seq<string>)
    ensures |urls| == |paths|
    ensures forall i :: 0 <= i < |paths| ==> urls[i] == AbsToRepoPath(paths[i], repoUrl, projectDir, wcDir)
  {
    urls := [];
    for i := 0 to |paths|
      invariant |urls| == i
      invariant forall k :: 0 <= k < i ==> urls[k] == AbsToRepoPath(paths[k], repoUrl, projectDir, wcDir)
    {
      var urlPath := Drop(paths[i], |wcDir|);
      urlPath := PathJoin(projectDir, Drop(urlPath, 1));
      urlPath := PathJoin(repoUrl, Drop(urlPath, 1));
      urls := urls + [urlPath];
    }
  }

  /** A path inside the project lands at the same relative path under the
    * working copy. */
  lemma RepoToAbsOfRel(rel: string, projectDir: string, wcDir: string)
    requires wcDir != [] && !EndsWith(wcDir, "/")
    requires rel != [] && rel[0] != '/'
    ensures RepoToAbsPath(projectDir + "/" + rel, projectDir, wcDir) == wcDir + "/" + rel
  {
    assert (projectDir + "/" + rel)[|projectDir|..] == "/" + rel;
    assert ("/" + rel)[1..] == rel;
    assert !StartsWith(rel, "/");
  }

  /** A working-copy path goes back to repo_url + project_dir + the same
    * relative path: with the lemma above, the two translations are
    * inverse on paths inside the project. */
  lemma AbsToRepoOfRel(rel: string, repoUrl: string, projectDir: string, wcDir: string)
    requires |projectDir| >= 2 && projectDir[0] == '/' && projectDir[1] != '/' && !EndsWith(projectDir, "/")
    requires repoUrl != [] && !EndsWith(repoUrl, "/")
    requires rel != [] && rel[0] != '/'
    ensures AbsToRepoPath(wcDir + "/" + rel, repoUrl, projectDir, wcDir) == repoUrl + projectDir + "/" + rel
  {
    assert (wcDir + "/" + rel)[|wcDir|..] == "/" + rel;
    assert ("/" + rel)[1..] == rel;
    assert !StartsWith(rel, "/");
    var joined := PathJoin(projectDir, rel);
    assert joined == projectDir + "/" + rel;
    assert joined[1..] == projectDir[1..] + "/" + rel;
    assert !StartsWith(joined[1..], "/") by { assert joined[1..][0] == projectDir[1]; }
    assert repoUrl + "/" + joined[1..] == repoUrl + projectDir + "/" + rel by {
      assert projectDir == "/" + projectDir[1..];
    }
  }


  // ---------------------------------------------------------------------
  // update_changed_files_in_group

  const UpdateGroupSize: nat := 200

  /** The files each group's update reports, joined, or the first failure. */
  function UpdatedInGroups(groups: seq<seq<string>>, update: seq<string> -> Result<seq<string>>): Result<seq<string>>
  {
    if groups == [] then Ok([])
    else
      var first := update(groups[0]);
      if first.Err? then first
      else
        var rest := UpdatedInGroups(groups[1..], update);
        if rest.Err? then rest else Ok(first.value + rest.value)
  }

  /** `update_changed_files_in_group`: update the files 200 at a time, in
    * order; `update` stands for `update_changed_files` on one group. */
  method UpdateChangedFilesInGroup(files: seq<string>, update: seq<string> -> Result<seq<string>>)
    returns (r: Result<seq<string>>)
    ensures r == UpdatedInGroups(Chunks(files, UpdateGroupSize), update)
  {
    if files == [] {
      return Ok(files);
    }
    var n := |files|;
    var gs := UpdateGroupSize;
    var updatedFiles: seq<string> := [];
    var start := 0;  // idx - gs in `range(gs, n + gs, gs)`
    assert files[start..] == files;
    while start < n
      invariant start <= n
      invariant UpdatedInGroups(Chunks(files, gs), update)
                == ThenGroups(updatedFiles, UpdatedInGroups(Chunks(files[start..], gs), update))
      decreases n - start
    {
      var group := files[start..if start + gs < n then start + gs else n];
      ChunkAt(files, start, gs);
      GroupsStep(updatedFiles, group, Chunks(files[start + |group|..], gs), update);
      var updated := update(group);
      if updated.Err? {
        return updated;
      }
      updatedFiles := updatedFiles + updated.value;
      start := start + |group|;
    }
    assert files[start..] == [] && updatedFiles + [] == updatedFiles;
    return Ok(updatedFiles);
  }

  /** `done` followed by what the remaining groups give. */
  function ThenGroups(done: seq<string>, rest: Result<seq<string>>): (r: Result<seq<string>>)
    ensures done == [] ==> r == rest
  {
    if rest.Err? then rest else assert [] + rest.value == rest.value; Ok(done + rest.value)
  }

  lemma GroupsStep(done: seq<string>, group: seq<string>, rest: seq<seq<string>>,
                   update: seq<string> -> Result<seq<string>>)
    ensures update(group).Err? ==> ThenGroups(done, UpdatedInGroups([group] + rest, update)) == update(group)
    ensures update(group).Ok? ==>
              ThenGroups(done, UpdatedInGroups([group] + rest, update))
              == ThenGroups(done + update(group).value, UpdatedInGroups(rest, update))
  {
    assert ([group] + rest)[1..] == rest;
    var r := UpdatedInGroups(rest, update);
    if update(group).Ok? && r.Ok? {
      assert done + (update(group).value + r.value) == (done + update(group).value) + r.value;
    }
  }

  /** The chunks from `start` on: the next group, then the chunks after it. */
  lemma ChunkAt(files: seq<string>, start: nat, n: nat)
    requires n > 0 && start < |files|
    ensures var end := if start + n < |files| then start + n else |files|;
            Chunks(files[start..], n) == [files[start..end]] + Chunks(files[end..], n)
  {
    var end := if start + n < |files| then start + n else |files|;
    ChunksStep(files[start..], n);
    assert files[start..][..end - start] == files[start..end];
    assert files[start..][end - start..] == files[end..];
  }

  lemma ChunksStep(s: seq<string>, n: nat)
    requires n > 0 && s != []
    ensures var k := if |s| < n then |s| else n;
            Chunks(s, n) == [s[..k]] + Chunks(s[k..], n)
  {
    if |s| <= n {
      assert s[..|s|] == s;
      assert s[|s|..] == [];
    }
  }

  /** When every group is updated as asked, the files come back in order. */
  lemma {:induction false} UpdatedInGroupsOrder(groups: seq<seq<string>>, update: seq<string> -> Result<seq<string>>)
    requires forall i :: 0 <= i < |groups| ==> update(groups[i]) == Ok(groups[i])
    ensures UpdatedInGroups(groups, update) == Ok(Flatten(groups))
  {
    if groups != [] {
      UpdatedInGroupsOrder(groups[1..], update);
    }
  }

  lemma GroupsKeepOrder(files: seq<string>, update: seq<string> -> Result<seq<string>>)
    requires forall g :: update(g) == Ok(g)
    ensures UpdatedInGroups(Chunks(files, UpdateGroupSize), update) == Ok(files)
  {
    UpdatedInGroupsOrder(Chunks(files, UpdateGroupSize), update);
    FlattenChunks(files, UpdateGroupSize);
  }

  // ---------------------------------------------------------------------
  // verify_svn_update

  /** `verify_svn_update`: a record whose path is missing from the working
    * copy is an error unless it is a delete or an external. */
  function VerifySvnUpdate(cps: seq<ChangedPath>, present: string -> bool): (r: Result<()>)
    ensures r.Ok? <==> forall i :: 0 <= i < |cps| ==>
                         present(cps[i].path) || cps[i].action == 'D' || cps[i].externals
    ensures r.Err? ==> r.exc.kind == RepSvnException
  {
    if cps == [] then Ok(())
    else if !present(cps[0].path) && cps[0].action != 'D' && !cps[0].externals then
      Raise(RepSvnException, cps[0].path + " is not updated properly")
    else
      var rest := VerifySvnUpdate(cps[1..], present);
      assert forall i :: 1 <= i < |cps| ==> cps[i] == cps[1..][i - 1];
      rest
  }

  // ---------------------------------------------------------------------
  // get_external_dir

  /** One `svn:externals` definition: source URL, peg revision, operative
    * revision (`-rN`) and destination directory. */
  datatype External = External(srcUrl: string, peg: Option<string>, rev: Option<string>, dst: Option<string>)

  /** The URL operations parsing relies on: `normalise` rebuilds a URL with
    * its path `normpath`-ed, `withPath(url, p)` rebuilds `url` with path `p`. */
  datatype UrlOps = UrlOps(normalise: string -> string, withPath: (string, string) -> string)

  /** The repository and working copy the definitions are read against. */
  datatype SvnSite = SvnSite(repoUrl: string, projectDir: string, wcRoot: string, ops: UrlOps)

  predicate AsciiLetter(c: char) { 'a' <= c <= 'z' || 'A' <= c <= 'Z' }

  predicate SchemeChar(c: char) { AsciiLetter(c) || '0' <= c <= '9' || c == '+' || c == '-' || c == '.' }

  /** `urlparse(s).scheme` is not empty: a letter first, scheme characters
    * up to the first ':'. */
  predicate IsUrl(s: string)
  {
    match IndexOf(s, ':')
    case None => false
    case Some(i) => i > 0 && AsciiLetter(s[0]) && forall k :: 0 <= k < i ==> SchemeChar(s[k])
  }

  predicate WordSpace(c: char) { c == ' ' || c == '\t' || c == '\r' || c == '\n' }

  /** Length of the leading run of non-blank characters. */
  function WordLen(s: string): (n: nat)
    ensures n <= |s| && (n < |s| ==> WordSpace(s[n]))
    ensures forall k :: 0 <= k < n ==> !WordSpace(s[k])
  {
    if s == [] || WordSpace(s[0]) then 0 else 1 + WordLen(s[1..])
  }

  /** The words of a line, as `shlex.split` gives them for a line without
    * quotes, escapes or comments. */
  function Words(s: string): (r: seq<string>)
    ensures forall i :: 0 <= i < |r| ==> r[i] != []
    decreases |s|
  {
    if s == [] then []
    else if WordSpace(s[0]) then Words(s[1..])
    else [s[..WordLen(s)]] + Words(s[WordLen(s)..])
  }

  /** What the words of one line have set so far. */
  datatype Scan = Scan(srcUrl: Option<string>, rev: Option<string>, dst: Option<string>)

  const DoubleSlashMessage: string := "svn external starting with \"//\", not yet supported"

  /** One word of a definition: a URL, or a relative URL ('../', '^/',
    * '/'; '//' is refused), sets the source; '-rN' sets the revision; any
    * other word is the destination under the modified directory. */
  function ScanWord(st: Scan, w: string, modDir: string, parentUrl: string, site: SvnSite): (r: Result<Scan>)
  {
    if IsUrl(w) then Ok(st.(srcUrl := Some(w)))
    else if StartsWith(w, "../") then Ok(st.(srcUrl := Some(site.ops.normalise(PathJoin(parentUrl, w)))))
    else if StartsWith(w, "^/") then Ok(st.(srcUrl := Some(site.ops.normalise(PathJoin(site.repoUrl, w[2..])))))
    else if StartsWith(w, "//") then Raise(RepSvnException, DoubleSlashMessage)
    else if StartsWith(w, "/") then Ok(st.(srcUrl := Some(site.ops.withPath(site.repoUrl, w))))
    else if StartsWith(w, "-r") then Ok(st.(rev := Some(w[2..])))
    else Ok(st.(dst := Some(PathJoin(modDir, w))))
  }

  function ScanWords(st: Scan, ws: seq<string>, modDir: string, parentUrl: string, site: SvnSite): Result<Scan>
    decreases |ws|
  {
    if ws == [] then Ok(st)
    else
      var next := ScanWord(st, ws[0], modDir, parentUrl, site);
      if next.Err? then next else ScanWords(next.value, ws[1..], modDir, parentUrl, site)
  }

  /** The definition a scanned line gives: a line without a source fails
    * on `'@' in None`; an '@' not at the end splits off a peg revision,
    * and more than one such '@' fails to unpack. */
  function LineExternal(sc: Scan): (r: Result<External>)
  {
    match sc.srcUrl
    case None => Raise(TypeError, "argument of type 'NoneType' is not iterable")
    case Some(url) =>
      if '@' in url && url[|url| - 1] != '@' then
        var parts := Split(url, '@');
        if |parts| != 2 then Raise(ValueError, "too many values to unpack (expected 2)")
        else Ok(External(parts[0], Some(parts[1]), sc.rev, sc.dst))
      else Ok(External(url, None, sc.rev, sc.dst))
  }

  const NoScan: Scan := Scan(None, None, None)

  function ExternalOfLine(line: string, modDir: string, parentUrl: string, site: SvnSite): Result<External>
  {
    var sc := ScanWords(NoScan, Words(line), modDir, parentUrl, site);
    if sc.Err? then Err(sc.exc) else LineExternal(sc.value)
  }

  function ExternalsOfLines(lines: seq<string>, modDir: string, parentUrl: string, site: SvnSite): Result<seq<External>>
  {
    if lines == [] then Ok([])
    else
      var e := ExternalOfLine(lines[0], modDir, parentUrl, site);
      if e.Err? then Err(e.exc)
      else
        var rest := ExternalsOfLines(lines[1..], modDir, parentUrl, site);
        if rest.Err? then rest else Ok([e.value] + rest.value)
  }

  /** The URL relative definitions ('../') are resolved against: the
    * modified directory's place under the project's URL. */
  function ParentUrl(modDir: string, site: SvnSite): string
  {
    var projectUrl := PathJoin(site.repoUrl, Drop(site.projectDir, 1));
    PathJoin(projectUrl, Drop(modDir, |site.wcRoot| + 1))
  }

  /** The definitions of an `svn:externals` value, one per line. */
  function ExternalsOf(prop: Option<string>, modDir: string, site: SvnSite): Result<seq<External>>
  {
    if prop.None? || prop.value == [] then Ok([])
    else ExternalsOfLines(Split(Strip(prop.value), '\n'), modDir, ParentUrl(modDir, site), site)
  }

  /** `get_external_dir` */
  method GetExternalDir(prop: Option<string>, modDir: string, site: SvnSite) returns (r: Result<seq<External>>)
    ensures r == ExternalsOf(prop, modDir, site)
  {
    var externals: seq<External> := [];
    if prop.None? || prop.value == [] {
      return Ok(externals);
    }
    var parentUrl := ParentUrl(modDir, site);
    var lines := Split(Strip(prop.value), '\n');
    for k := 0 to |lines|
      invariant ExternalsOfLines(lines, modDir, parentUrl, site)
                == ThenExternals(externals, ExternalsOfLines(lines[k..], modDir, parentUrl, site))
    {
      assert lines[k..][1..] == lines[k + 1..];
      var e := ParseExternalLine(lines[k], modDir, parentUrl, site);
      if e.Err? {
        return Err(e.exc);
      }
      ThenExternalsStep(externals, e.value, ExternalsOfLines(lines[k + 1..], modDir, parentUrl, site));
      externals := externals + [e.value];
    }
    assert externals + [] == externals;
    return Ok(externals);
  }

  /** `done` followed by what the remaining lines give. */
  function ThenExternals(done: seq<External>, rest: Result<seq<External>>): (r: Result<seq<External>>)
    ensures done == [] ==> r == rest
  {
    if rest.Err? then rest else assert [] + rest.value == rest.value; Ok(done + rest.value)
  }

  lemma ThenExternalsStep(done: seq<External>, e: External, rest: Result<seq<External>>)
    ensures ThenExternals(done, if rest.Err? then rest else Ok([e] + rest.value)) == ThenExternals(done + [e], rest)
  {
    if rest.Ok? {
      assert done + ([e] + rest.value) == (done + [e]) + rest.value;
    }
  }

  /** The body of the loop over one line: scan its words, then split off
    * the peg revision. */
  method ParseExternalLine(line: string, modDir: string, parentUrl: string, site: SvnSite)
    returns (r: Result<External>)
    ensures r == ExternalOfLine(line, modDir, parentUrl, site)
  {
    var srcUrl: Option<string> := None;
    var srcRev: Option<string> := None;
    var dstDir: Option<string> := None;
    var words := Words(line);
    for k := 0 to |words|
      invariant ScanWords(NoScan, words, modDir, parentUrl, site)
                == ScanWords(Scan(srcUrl, srcRev, dstDir), words[k..], modDir, parentUrl, site)
    {
      assert words[k..][1..] == words[k + 1..];
      var next := ParseWord(Scan(srcUrl, srcRev, dstDir), words[k], modDir, parentUrl, site);
      if next.Err? {
        return Err(next.exc);
      }
      srcUrl, srcRev, dstDir := next.value.srcUrl, next.value.rev, next.value.dst;
    }
    r := LineExternal(Scan(srcUrl, srcRev, dstDir));
  }

  /** The body of the word loop: a URL, a relative URL, a revision or the
    * destination. */
  method ParseWord(st: Scan, w: string, modDir: string, parentUrl: string, site: SvnSite) returns (r: Result<Scan>)
    ensures r == ScanWord(st, w, modDir, parentUrl, site)
  {
    if IsUrl(w) {
      return Ok(st.(srcUrl := Some(w)));
    }
    if StartsWith(w, "../") || StartsWith(w, "^/") || StartsWith(w, "/") {
      var srcUrl := st.srcUrl;
      if StartsWith(w, "../") {
        srcUrl := Some(site.ops.normalise(PathJoin(parentUrl, w)));
      }
      if StartsWith(w, "^/") {
        srcUrl := Some(site.ops.normalise(PathJoin(site.repoUrl, w[2..])));
      }
      if StartsWith(w, "//") {
        return Raise(RepSvnException, DoubleSlashMessage);
      }
      if StartsWith(w, "/") {
        srcUrl := Some(site.ops.withPath(site.repoUrl, w));
      }
      return Ok(st.(srcUrl := srcUrl));
    }
    if StartsWith(w, "-r") {
      return Ok(st.(rev := Some(w[2..])));
    }
    return Ok(st.(dst := Some(PathJoin(modDir, w))));
  }


  /** A word scans without error unless it starts with '//'. */
  lemma ScanWordFails(st: Scan, w: string, modDir: string, parentUrl: string, site: SvnSite)
    ensures ScanWord(st, w, modDir, parentUrl, site).Err? <==> StartsWith(w, "//")
    ensures ScanWord(st, w, modDir, parentUrl, site).Err? ==>
              ScanWord(st, w, modDir, parentUrl, site).exc == Exc(RepSvnException, DoubleSlashMessage)
  {
    if StartsWith(w, "//") {
      FirstChar(w);
      assert !IsUrl(w) by { assert !AsciiLetter(w[0]); }
    }
  }

  /** Which prefix a word can have is decided by its first character. */
  lemma FirstChar(w: string)
    requires w != []
    ensures StartsWith(w, "../") ==> w[0] == '.'
    ensures StartsWith(w, "^/") ==> w[0] == '^'
    ensures StartsWith(w, "/") ==> w[0] == '/'
    ensures StartsWith(w, "//") ==> w[0] == '/'
    ensures StartsWith(w, "-r") ==> w[0] == '-'
  {
    if |w| >= 3 { assert w[..3][0] == w[0]; }
    if |w| >= 2 { assert w[..2][0] == w[0]; }
    assert w[..1][0] == w[0];
  }

  /** A line fails with the '//' error exactly when one of its words
    * starts with '//'. */
  lemma {:induction false} ScanWordsFail(st: Scan, ws: seq<string>, modDir: string, parentUrl: string, site: SvnSite)
    ensures ScanWords(st, ws, modDir, parentUrl, site).Err? <==> exists k :: 0 <= k < |ws| && StartsWith(ws[k], "//")
    ensures ScanWords(st, ws, modDir, parentUrl, site).Err? ==>
              ScanWords(st, ws, modDir, parentUrl, site).exc == Exc(RepSvnException, DoubleSlashMessage)
    decreases |ws|
  {
    if ws != [] {
      ScanWordFails(st, ws[0], modDir, parentUrl, site);
      var next := ScanWord(st, ws[0], modDir, parentUrl, site);
      if next.Ok? {
        ScanWordsFail(next.value, ws[1..], modDir, parentUrl, site);
        if exists k :: 0 <= k < |ws| && StartsWith(ws[k], "//") {
          var k :| 0 <= k < |ws| && StartsWith(ws[k], "//");
          assert k > 0 && ws[1..][k - 1] == ws[k];
        }
        if exists k :: 0 <= k < |ws[1..]| && StartsWith(ws[1..][k], "//") {
          var k :| 0 <= k < |ws[1..]| && StartsWith(ws[1..][k], "//");
          assert ws[k + 1] == ws[1..][k];
        }
      }
    }
  }

  /** A line of a URL, a revision and a destination gives that external. */
  lemma RevisionUrlDestination(url: string, n: string, d: string, modDir: string, parentUrl: string, site: SvnSite)
    requires IsUrl(url) && '@' !in url
    requires !IsUrl("-r" + n)
    requires !IsUrl(d) && d != [] && d[0] != '.' && d[0] != '^' && d[0] != '/' && d[0] != '-'
    ensures var sc := ScanWords(NoScan, ["-r" + n, url, d], modDir, parentUrl, site);
            sc == Ok(Scan(Some(url), Some(n), Some(PathJoin(modDir, d))))
            && LineExternal(sc.value) == Ok(External(url, None, Some(n), Some(PathJoin(modDir, d))))
  {
    var ws := ["-r" + n, url, d];
    assert ws[1..] == [url, d] && ws[1..][1..] == [d] && ws[1..][1..][1..] == [];
    var r := "-r" + n;
    assert r[..2] == "-r" && r[2..] == n && r[0] == '-';
    FirstChar(r);
    FirstChar(d);
    var s1 := Scan(None, Some(n), None);
    assert ScanWord(NoScan, r, modDir, parentUrl, site) == Ok(s1);
    var s2 := Scan(Some(url), Some(n), None);
    assert ScanWord(s1, url, modDir, parentUrl, site) == Ok(s2);
    var s3 := Scan(Some(url), Some(n), Some(PathJoin(modDir, d)));
    assert ScanWord(s2, d, modDir, parentUrl, site) == Ok(s3);
    assert ScanWords(s2, [d], modDir, parentUrl, site) == Ok(s3);
    assert ScanWords(s1, [url, d], modDir, parentUrl, site) == Ok(s3);
  }

  /** An '@' inside the URL splits off the peg revision; one at its very
    * end stays part of the URL. */
  lemma PegRevisionSplit(url: string, peg: string, rev: Option<string>, dst: Option<string>)
    requires '@' !in url && '@' !in peg && peg != []
    ensures LineExternal(Scan(Some(url + "@" + peg), rev, dst)) == Ok(External(url, Some(peg), rev, dst))
    ensures LineExternal(Scan(Some(url + "@"), rev, dst)) == Ok(External(url + "@", None, rev, dst))
  {
    var s := url + "@" + peg;
    assert s[|url|] == '@';
    assert s[|s| - 1] == peg[|peg| - 1];
    SplitAppend(url, peg, '@');
    SplitNoSep(url, '@');
    SplitNoSep(peg, '@');
    assert (url + "@")[|url|] == '@';
  }

  /** Two '@' in the URL fail to unpack. */
  lemma TwoAtSigns(a: string, b: string, c: string, rev: Option<string>, dst: Option<string>)
    requires '@' !in a && '@' !in b && '@' !in c && c != []
    ensures LineExternal(Scan(Some(a + "@" + b + "@" + c), rev, dst)).Err?
  {
    var s := a + "@" + b + "@" + c;
    assert s[|a|] == '@';
    assert s[|s| - 1] == c[|c| - 1];
    SplitAppend(a + "@" + b, c, '@');
    SplitAppend(a, b, '@');
    SplitNoSep(a, '@');
    SplitNoSep(b, '@');
    SplitNoSep(c, '@');
  }

  /** A line without a source URL fails. */
  lemma NoSourceFails(sc: Scan)
    requires sc.srcUrl.None?
    ensures LineExternal(sc) == Err(Exc(TypeError, "argument of type 'NoneType' is not iterable"))
  {
  }

  /** One definition per line of the value. */
  lemma {:induction false} ExternalsOfLinesCount(lines: seq<string>, modDir: string, parentUrl: string, site: SvnSite)
    requires ExternalsOfLines(lines, modDir, parentUrl, site).Ok?
    ensures |ExternalsOfLines(lines, modDir, parentUrl, site).value| == |lines|
    ensures forall i :: 0 <= i < |lines| ==>
              (ExternalOfLine(lines[i], modDir, parentUrl, site).Ok? &&
               ExternalsOfLines(lines, modDir, parentUrl, site).value[i] == ExternalOfLine(lines[i], modDir, parentUrl, site).value)
  {
    if lines != [] {
      ExternalsOfLinesCount(lines[1..], modDir, parentUrl, site);
      var e := ExternalOfLine(lines[0], modDir, parentUrl, site);
      var rest := ExternalsOfLines(lines[1..], modDir, parentUrl, site);
      var r := ExternalsOfLines(lines, modDir, parentUrl, site).value;
      assert r == [e.value] + rest.value;
      forall i | 1 <= i < |lines| ensures ExternalOfLine(lines[i], modDir, parentUrl, site).Ok? && r[i] == ExternalOfLine(lines[i], modDir, parentUrl, site).value {
        assert lines[1..][i - 1] == lines[i];
      }
    }
  }

  // ---------------------------------------------------------------------
  // update_modified_dirs

  /** What svn reports of a directory's `svn:externals` value at the
    * previous revision and at the revision (a failed lookup is an error;
    * a directory that did not exist yet has no value). */
  datatype DirProps = DirProps(prev: Result<Option<string>>, curr: Result<Option<string>>)

  /** The path a record made for an external gets: its destination, or
    * the empty path standing for `None`. */
  function DstPath(e: External): string
  {
    match e.dst
    case Some(d) => d
    case None => ""
  }

  /** The records with the first one at `d` taken out. */
  function RemoveFirstRecord(cps: seq<ChangedPath>, d: string): (r: seq<ChangedPath>)
  {
    if cps == [] then []
    else if cps[0].path == d then cps[1..]
    else [cps[0]] + RemoveFirstRecord(cps[1..], d)
  }

  /** `set(a) - set(b)`, listed in order of first appearance in `a` (the
    * source's set has no fixed order). */
  function OnlyIn(a: seq<External>, b: seq<External>): (r: seq<External>)
    ensures NoDups(r)
    ensures forall e :: e in r <==> e in a && e !in b
    ensures (forall e :: e in a ==> e in b) ==> r == []
  {
    Dedup(Without(a, b))
  }

  function Without(a: seq<External>, b: seq<External>): (r: seq<External>)
    ensures forall e :: e in r <==> e in a && e !in b
    ensures (forall e :: e in a ==> e in b) ==> r == []
  {
    if a == [] then [] else (if a[0] in b then [] else [a[0]]) + Without(a[1..], b)
  }

  /** A 'D' record for each external that went away. */
  function Deletions(es: seq<External>): (r: seq<ChangedPath>)
    ensures |r| == |es|
    ensures forall i :: 0 <= i < |es| ==> r[i] == ChangedPath(DstPath(es[i]), 'D', false)
  {
    if es == [] then [] else [ChangedPath(DstPath(es[0]), 'D', false)] + Deletions(es[1..])
  }

  /** The first 'D' record at `p`, if any, turned into an 'R' record. */
  function FlipFirstDelete(cps: seq<ChangedPath>, p: string): (r: seq<ChangedPath>)
    ensures |r| == |cps|
  {
    if cps == [] then []
    else if cps[0].path == p && cps[0].action == 'D' then [cps[0].(action := 'R')] + cps[1..]
    else [cps[0]] + FlipFirstDelete(cps[1..], p)
  }

  /** For each new external: flip the first 'D' at its path, then append
    * an 'A' record marked as an external. */
  function AddExternals(cps: seq<ChangedPath>, es: seq<External>): seq<ChangedPath>
    decreases |es|
  {
    if es == [] then cps
    else AddExternals(FlipFirstDelete(cps, DstPath(es[0])) + [ChangedPath(DstPath(es[0]), 'A', true)], es[1..])
  }

  /** The records after one modified directory, and the externals it
    * leaves to check out. */
  datatype DirUpdate = DirUpdate(cps: seq<ChangedPath>, result: Result<seq<External>>)

  /** One pass of the loop of `update_modified_dirs`. */
  function UpdateDir(cps: seq<ChangedPath>, d: string, props: DirProps, site: SvnSite, ignore: bool): DirUpdate
  {
    if props.prev.Err? then DirUpdate(cps, Err(props.prev.exc))
    else if props.curr.Err? then DirUpdate(cps, Err(props.curr.exc))
    else
      var kept := RemoveFirstRecord(cps, d);
      if props.prev.value == props.curr.value then DirUpdate(kept, Ok([]))
      else ChangeExternals(kept, d, props.prev.value, props.curr.value, site, ignore)
  }

  /** A directory whose `svn:externals` value changed: unless ignored, a
    * 'D' record for each definition that went away, and for each new one
    * a flip of an earlier 'D' at its path to 'R' and an 'A' record. */
  function ChangeExternals(kept: seq<ChangedPath>, d: string, prev: Option<string>, curr: Option<string>,
                           site: SvnSite, ignore: bool): DirUpdate
  {
    var pe := ExternalsOf(prev, d, site);
    if pe.Err? then DirUpdate(kept, Err(pe.exc))
    else
      var ce := ExternalsOf(curr, d, site);
      if ce.Err? then DirUpdate(kept, Err(ce.exc))
      else DiffExternals(kept, pe.value, ce.value, ignore)
  }

  /** The records and externals to check out once both values are parsed:
    * definitions common to both cancel out. */
  function DiffExternals(kept: seq<ChangedPath>, pe: seq<External>, ce: seq<External>, ignore: bool): DirUpdate
  {
    if ignore then DirUpdate(kept, Ok([]))
    else
      var currOnly := OnlyIn(ce, pe);
      DirUpdate(AddExternals(kept + Deletions(OnlyIn(pe, ce)), currOnly), Ok(currOnly))
  }

  function SetOf(s: seq<External>): set<External>
  {
    set e | e in s
  }

  datatype Updated = Updated(cps: seq<ChangedPath>, result: Result<set<External>>)

  /** `update_modified_dirs` as a function of the records and what svn
    * reports: the directories in order, stopping at the first failure. */
  function UpdateDirs(cps: seq<ChangedPath>, dirs: seq<string>, propsOf: string -> DirProps, site: SvnSite,
                      ignore: bool, acc: set<External>): Updated
    decreases |dirs|
  {
    if dirs == [] then Updated(cps, Ok(acc))
    else
      var u := UpdateDir(cps, dirs[0], propsOf(dirs[0]), site, ignore);
      if u.result.Err? then Updated(u.cps, Err(u.result.exc))
      else UpdateDirs(u.cps, dirs[1..], propsOf, site, ignore, acc + SetOf(u.result.value))
  }

  /** The changed-path records of one revision, which the update of
    * modified directories rewrites in place. */
  class ChangeRecords {
    var records: seq<ChangedPath>

    constructor(records: seq<ChangedPath>)
      ensures this.records == records
    {
      this.records := records;
    }

    /** `update_modified_dirs`; `propsOf` stands for the two
      * `svn proplist` calls on a directory. */
    method UpdateModifiedDirs(modDirs: seq<string>, propsOf: string -> DirProps, site: SvnSite, ignore: bool)
      returns (r: Result<set<External>>)
      modifies this
      ensures Updated(records, r) == UpdateDirs(old(records), modDirs, propsOf, site, ignore, {})
    {
      var externalsToCheckout: set<External> := {};
      for k := 0 to |modDirs|
        invariant UpdateDirs(old(records), modDirs, propsOf, site, ignore, {})
                  == UpdateDirs(records, modDirs[k..], propsOf, site, ignore, externalsToCheckout)
      {
        UpdateDirsStep(records, modDirs, k, propsOf, site, ignore, externalsToCheckout);
        var currOnly := UpdateModifiedDir(modDirs[k], propsOf(modDirs[k]), site, ignore);
        if currOnly.Err? {
          return Err(currOnly.exc);
        }
        externalsToCheckout := externalsToCheckout + SetOf(currOnly.value);
      }
      return Ok(externalsToCheckout);
    }

    /** The body of the loop for one modified directory. */
    method UpdateModifiedDir(modDir: string, props: DirProps, site: SvnSite, ignore: bool)
      returns (r: Result<seq<External>>)
      modifies this
      ensures DirUpdate(records, r) == UpdateDir(old(records), modDir, props, site, ignore)
    {
      if props.prev.Err? {
        return Err(props.prev.exc);
      }
      if props.curr.Err? {
        return Err(props.curr.exc);
      }
      RemoveRecord(modDir);
      if props.prev.value == props.curr.value {
        return Ok([]);
      }
      r := UpdateExternals(modDir, props.prev.value, props.curr.value, site, ignore);
    }

    method UpdateExternals(modDir: string, prev: Option<string>, curr: Option<string>, site: SvnSite, ignore: bool)
      returns (r: Result<seq<External>>)
      modifies this
      ensures DirUpdate(records, r) == ChangeExternals(old(records), modDir, prev, curr, site, ignore)
    {
      var prevExternals := GetExternalDir(prev, modDir, site);
      if prevExternals.Err? {
        return Err(prevExternals.exc);
      }
      var currExternals := GetExternalDir(curr, modDir, site);
      if currExternals.Err? {
        return Err(currExternals.exc);
      }
      if ignore {
        return Ok([]);
      }
      var prevOnly := OnlyIn(prevExternals.value, currExternals.value);
      var currOnly := OnlyIn(currExternals.value, prevExternals.value);
      AppendDeletions(prevOnly);
      AddCurrentExternals(currOnly);
      return Ok(currOnly);
    }

    /** Take out the directory's own record, the first one at its path. */
    method RemoveRecord(d: string)
      modifies this
      ensures records == RemoveFirstRecord(old(records), d)
    {
      var rs := records;
      for idx := 0 to |rs|
        invariant records == rs
        invariant RemoveFirstRecord(rs, d) == rs[..idx] + RemoveFirstRecord(rs[idx..], d)
      {
        RemoveFirstRecordStep(rs, idx, d);
        if rs[idx].path == d {
          records := rs[..idx] + rs[idx + 1..];
          return;
        }
      }
      assert rs[|rs|..] == [] && rs[..|rs|] == rs;
    }

    /** Append a 'D' record for each external that went away. */
    method AppendDeletions(prevOnly: seq<External>)
      modifies this
      ensures records == old(records) + Deletions(prevOnly)
    {
      for k := 0 to |prevOnly|
        invariant records == old(records) + Deletions(prevOnly[..k])
      {
        DeletionsAppend(prevOnly[..k], [prevOnly[k]]);
        assert prevOnly[..k + 1] == prevOnly[..k] + [prevOnly[k]];
        records := records + [ChangedPath(DstPath(prevOnly[k]), 'D', false)];
      }
      assert prevOnly[..|prevOnly|] == prevOnly;
    }

    /** For each new external, flip the first 'D' record at its path to
      * 'R' and append an 'A' record for it. */
    method AddCurrentExternals(currOnly: seq<External>)
      modifies this
      ensures records == AddExternals(old(records), currOnly)
    {
      for k := 0 to |currOnly|
        invariant AddExternals(old(records), currOnly) == AddExternals(records, currOnly[k..])
      {
        assert currOnly[k..][1..] == currOnly[k + 1..];
        var currAbsdir := DstPath(currOnly[k]);
        FlipDelete(currAbsdir);
        records := records + [ChangedPath(currAbsdir, 'A', true)];
      }
    }

    method FlipDelete(p: string)
      modifies this
      ensures records == FlipFirstDelete(old(records), p)
    {
      var rs := records;
      for idx := 0 to |rs|
        invariant records == rs
        invariant FlipFirstDelete(rs, p) == rs[..idx] + FlipFirstDelete(rs[idx..], p)
      {
        FlipFirstDeleteStep(rs, idx, p);
        if rs[idx].path == p && rs[idx].action == 'D' {
          records := rs[idx := rs[idx].(action := 'R')];
          return;
        }
      }
      assert rs[|rs|..] == [] && rs[..|rs|] == rs;
    }
  }

  lemma UpdateDirsStep(cps: seq<ChangedPath>, dirs: seq<string>, k: nat, propsOf: string -> DirProps, site: SvnSite,
                        ignore: bool, acc: set<External>)
    requires k < |dirs|
    ensures var u := UpdateDir(cps, dirs[k], propsOf(dirs[k]), site, ignore);
            UpdateDirs(cps, dirs[k..], propsOf, site, ignore, acc)
            == if u.result.Err? then Updated(u.cps, Err(u.result.exc))
               else UpdateDirs(u.cps, dirs[k + 1..], propsOf, site, ignore, acc + SetOf(u.result.value))
  {
    assert dirs[k..][1..] == dirs[k + 1..];
  }

  lemma RemoveFirstRecordStep(cps: seq<ChangedPath>, idx: nat, d: string)
    requires idx < |cps| && RemoveFirstRecord(cps, d) == cps[..idx] + RemoveFirstRecord(cps[idx..], d)
    ensures cps[idx].path == d ==> RemoveFirstRecord(cps, d) == cps[..idx] + cps[idx + 1..]
    ensures cps[idx].path != d ==> RemoveFirstRecord(cps, d) == cps[..idx + 1] + RemoveFirstRecord(cps[idx + 1..], d)
  {
    assert cps[idx..][1..] == cps[idx + 1..];
    assert cps[..idx + 1] == cps[..idx] + [cps[idx]];
    AppendAssoc(cps[..idx], [cps[idx]], RemoveFirstRecord(cps[idx + 1..], d));
  }

  lemma FlipFirstDeleteStep(cps: seq<ChangedPath>, idx: nat, p: string)
    requires idx < |cps| && FlipFirstDelete(cps, p) == cps[..idx] + FlipFirstDelete(cps[idx..], p)
    ensures cps[idx].path == p && cps[idx].action == 'D' ==>
              FlipFirstDelete(cps, p) == cps[idx := cps[idx].(action := 'R')]
    ensures !(cps[idx].path == p && cps[idx].action == 'D') ==>
              FlipFirstDelete(cps, p) == cps[..idx + 1] + FlipFirstDelete(cps[idx + 1..], p)
  {
    assert cps[idx..][1..] == cps[idx + 1..];
    assert cps[..idx + 1] == cps[..idx] + [cps[idx]];
    var flipped := [cps[idx].(action := 'R')];
    AppendAssoc(cps[..idx], flipped, cps[idx + 1..]);
    assert cps[idx := cps[idx].(action := 'R')] == cps[..idx] + flipped + cps[idx + 1..];
    AppendAssoc(cps[..idx], [cps[idx]], FlipFirstDelete(cps[idx + 1..], p));
  }


  lemma {:induction false} DeletionsAppend(a: seq<External>, b: seq<External>)
    ensures Deletions(a + b) == Deletions(a) + Deletions(b)
  {
    if a == [] {
      assert a + b == b;
    } else {
      assert (a + b)[1..] == a[1..] + b;
      DeletionsAppend(a[1..], b);
    }
  }

  /** The directory's own record is the first one at its path; nothing
    * else moves. */
  lemma {:induction false} RemoveFirstRecordAt(cps: seq<ChangedPath>, d: string, i: nat)
    requires i < |cps| && cps[i].path == d && forall k :: 0 <= k < i ==> cps[k].path != d
    ensures RemoveFirstRecord(cps, d) == cps[..i] + cps[i + 1..]
  {
    if i > 0 {
      assert cps[1..][i - 1] == cps[i];
      RemoveFirstRecordAt(cps[1..], d, i - 1);
      assert cps[..i] == [cps[0]] + cps[1..][..i - 1];
      assert cps[i + 1..] == cps[1..][i..];
    }
  }

  /** Without a record at the directory's path nothing is taken out. */
  lemma {:induction false} RemoveFirstRecordAbsent(cps: seq<ChangedPath>, d: string)
    requires forall i :: 0 <= i < |cps| ==> cps[i].path != d
    ensures RemoveFirstRecord(cps, d) == cps
  {
    if cps != [] {
      RemoveFirstRecordAbsent(cps[1..], d);
    }
  }

  /** Flipping keeps every record, turning at most one 'D' into 'R'. */
  lemma {:induction false} FlipFirstDeleteShape(cps: seq<ChangedPath>, p: string, i: nat)
    requires i < |cps|
    ensures var r := FlipFirstDelete(cps, p);
            r[i] == cps[i] || (cps[i].action == 'D' && cps[i].path == p && r[i] == cps[i].(action := 'R'))
  {
    if i > 0 && !(cps[0].path == p && cps[0].action == 'D') {
      FlipFirstDeleteShape(cps[1..], p, i - 1);
    }
  }

  /** A path without a 'D' record is left alone. */
  lemma {:induction false} FlipFirstDeleteNone(cps: seq<ChangedPath>, p: string)
    requires forall i :: 0 <= i < |cps| ==> !(cps[i].path == p && cps[i].action == 'D')
    ensures FlipFirstDelete(cps, p) == cps
  {
    if cps != [] {
      FlipFirstDeleteNone(cps[1..], p);
    }
  }

  /** New externals keep every earlier record (a 'D' may become 'R') and
    * append one 'A' record, marked as an external, per new external. */
  lemma {:induction false} AddExternalsShape(cps: seq<ChangedPath>, es: seq<External>)
    ensures var r := AddExternals(cps, es);
            |r| == |cps| + |es|
            && (forall j :: 0 <= j < |es| ==> r[|cps| + j] == ChangedPath(DstPath(es[j]), 'A', true))
            && (forall i :: 0 <= i < |cps| ==> r[i] == cps[i] || (cps[i].action == 'D' && r[i] == cps[i].(action := 'R')))
    decreases |es|
  {
    if es != [] {
      var next := FlipFirstDelete(cps, DstPath(es[0])) + [ChangedPath(DstPath(es[0]), 'A', true)];
      AddExternalsShape(next, es[1..]);
      var r := AddExternals(cps, es);
      forall i | 0 <= i < |cps| ensures r[i] == cps[i] || (cps[i].action == 'D' && r[i] == cps[i].(action := 'R')) {
        FlipFirstDeleteShape(cps, DstPath(es[0]), i);
      }
      forall j | 0 <= j < |es| ensures r[|cps| + j] == ChangedPath(DstPath(es[j]), 'A', true) {
        if j > 0 { assert r[|next| + (j - 1)] == ChangedPath(DstPath(es[1..][j - 1]), 'A', true); }
      }
    }
  }

  /** A value that changed without changing its definitions (reordered,
    * say), or a change under the ignore flag, adds no record. */
  lemma NothingToReplicate(kept: seq<ChangedPath>, pe: seq<External>, ce: seq<External>, ignore: bool)
    requires ignore || SetOf(pe) == SetOf(ce)
    ensures DiffExternals(kept, pe, ce, ignore) == DirUpdate(kept, Ok([]))
  {
    if !ignore {
      assert forall e :: e in pe <==> e in SetOf(pe);
      assert forall e :: e in ce <==> e in SetOf(ce);
      assert Deletions([]) == [] && kept + [] == kept;
    }
  }

  /** An external whose definition changed at the same destination (a new
    * URL or revision) becomes a replacement: a 'D' record flipped to 'R',
    * then an 'A' record marked as an external. */
  lemma ExternalReplaced(kept: seq<ChangedPath>, e1: External, e2: External)
    requires e1 != e2 && DstPath(e1) == DstPath(e2)
    requires forall i :: 0 <= i < |kept| ==> !(kept[i].path == DstPath(e1) && kept[i].action == 'D')
    ensures DiffExternals(kept, [e1], [e2], false)
            == DirUpdate(kept + [ChangedPath(DstPath(e1), 'R', false), ChangedPath(DstPath(e1), 'A', true)], Ok([e2]))
  {
    var x := DstPath(e1);
    OnlyInOne(e1, e2);
    OnlyInOne(e2, e1);
    var del := ChangedPath(x, 'D', false);
    assert Deletions([e1]) == [del];
    FlipAfter(kept, [del], x);
    assert FlipFirstDelete([del], x) == [del.(action := 'R')];
    AddOneExternal(kept + [del], e2);
  }

  lemma OnlyInOne(e1: External, e2: External)
    requires e1 != e2
    ensures OnlyIn([e1], [e2]) == [e1]
  {
    assert Without([e1], [e2]) == [e1];
    assert [e1][..0] == [];
    assert Dedup([e1]) == Dedup<External>([]) + [e1];
  }

  lemma AddOneExternal(cps: seq<ChangedPath>, e: External)
    ensures AddExternals(cps, [e]) == FlipFirstDelete(cps, DstPath(e)) + [ChangedPath(DstPath(e), 'A', true)]
  {
    assert [e][1..] == [];
  }

  lemma {:induction false} FlipAfter(a: seq<ChangedPath>, b: seq<ChangedPath>, p: string)
    requires forall i :: 0 <= i < |a| ==> !(a[i].path == p && a[i].action == 'D')
    ensures FlipFirstDelete(a + b, p) == a + FlipFirstDelete(b, p)
  {
    if a == [] {
      assert a + b == b;
    } else {
      assert (a + b)[1..] == a[1..] + b;
      FlipAfter(a[1..], b, p);
    }
  }
}
