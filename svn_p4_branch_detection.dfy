/** Branch-point detection for a Subversion branch about to be replicated
  * into Perforce (SvnP4BranchDetection.py): the branch's first revision
  * names the Subversion path and revision it was copied from, and the
  * Perforce depot of already replicated branches is searched for the change
  * whose provenance tag records that revision.
  *
  * The Subversion log and the Perforce listings are given as data. */
module SvnP4BranchDetection {
  import opened Common
  import opened Strings
  import ScmRep

  // ---------------------------------------------------------------------
  // get_revision_num_from_desc

  /** The templates tried, in order: the current tag, then the two tags
    * earlier Subversion-to-Perforce imports wrote. */
  const Templates: seq<ScmRep.Extracter> :=
    [ScmRep.ImportedFrom, ScmRep.AutomatedImportFromSvn, ScmRep.UpdatePerforceToMatchSvn]

  /** No template before position `i` yields a revision. */
  predicate NoneBefore(desc: string, ts: seq<ScmRep.Extracter>, i: nat)
    requires i <= |ts|
  {
    forall j :: 0 <= j < i ==> ScmRep.GetRevisionFromDesc(desc, ts[j]) == 0
  }

  lemma NoneBeforeCons(desc: string, ts: seq<ScmRep.Extracter>, i: nat)
    requires i < |ts|
    ensures NoneBefore(desc, ts, i + 1) <==> ScmRep.GetRevisionFromDesc(desc, ts[0]) == 0 && NoneBefore(desc, ts[1..], i)
  {
    if ScmRep.GetRevisionFromDesc(desc, ts[0]) == 0 && NoneBefore(desc, ts[1..], i) {
      forall j | 1 <= j < i + 1
        ensures ScmRep.GetRevisionFromDesc(desc, ts[j]) == 0
      {
        assert ts[j] == ts[1..][j - 1];
      }
    }
    if NoneBefore(desc, ts, i + 1) {
      forall j | 0 <= j < i
        ensures ScmRep.GetRevisionFromDesc(desc, ts[1..][j]) == 0
      {
        assert ts[1..][j] == ts[j + 1];
      }
    }
  }

  /** The revision read with the first template in `ts` that yields a
    * nonzero one, else 0. */
  function FirstDecoded(desc: string, ts: seq<ScmRep.Extracter>): (r: nat)
    ensures r == 0 <==> NoneBefore(desc, ts, |ts|)
    ensures r != 0 ==> exists i :: 0 <= i < |ts| && r == ScmRep.GetRevisionFromDesc(desc, ts[i]) && NoneBefore(desc, ts, i)
  {
    if ts == [] then 0
    else
      var rev := ScmRep.GetRevisionFromDesc(desc, ts[0]);
      if rev != 0 then
        assert NoneBefore(desc, ts, 0);
        rev
      else
        var r := FirstDecoded(desc, ts[1..]);
        NoneBeforeCons(desc, ts, |ts| - 1);
        if r != 0 then
          ghost var k :| 0 <= k < |ts| - 1 && r == ScmRep.GetRevisionFromDesc(desc, ts[1..][k]) && NoneBefore(desc, ts[1..], k);
          NoneBeforeCons(desc, ts, k);
          assert ts[1..][k] == ts[k + 1];
          r
        else r
  }

  /** `get_revision_num_from_desc`. */
  function GetRevisionNumFromDesc(desc: string): nat
  {
    FirstDecoded(desc, Templates)
  }

  /** A description written with the current tag before it decodes to the
    * tag's revision, whatever legacy text the description holds. */
  lemma CurrentTagDecodes(desc: string, p: ScmRep.Provenance)
    requires ScmRep.ValidProvenance(p) && p.rev.value != 0
    ensures GetRevisionNumFromDesc(ScmRep.FormatReplicateDesc(desc, ScmRep.FormatReplicationInfo(ScmRep.DefaultPattern, p), true))
         == p.rev.value
  {
    ScmRep.DecodePrefixedTag(desc, p);
  }

  // ---------------------------------------------------------------------
  // get_src_svn_branch_revision

  /** One changed path of a Subversion log entry. */
  datatype ChangedPath = ChangedPath(copyfromPath: Option<string>, copyfromRev: nat)

  /** One Subversion log entry. */
  datatype LogEntry = LogEntry(rev: nat, changedPaths: seq<ChangedPath>)

  /** What `get_src_svn_branch_revision` returns: the pair `(None, None)`
    * when the first revision copied nothing, else the triple
    * `(copyfrom_path, copyfrom_revision, branch_1st_rev)`. */
  datatype BranchOrigin = NotBranch | Branched(path: string, copyfromRev: nat, firstRev: nat)

  /** The length of the tuple returned. */
  function Arity(o: BranchOrigin): nat { if o.NotBranch? then 2 else 3 }

  /** `get_src_svn_branch_revision`: read the project's oldest log entry
    * (the log is given oldest first) and its first changed path. */
  function GetSrcSvnBranchRevision(log: seq<LogEntry>): (r: Result<BranchOrigin>)
    ensures r.Err? <==> log == [] || log[0].changedPaths == []
    ensures r.Ok? && r.value.Branched? ==>
              var cp := log[0].changedPaths[0];
              cp.copyfromPath == Some(r.value.path) && r.value.path != [] &&
              r.value.copyfromRev == cp.copyfromRev && r.value.firstRev == log[0].rev
    ensures r.Ok? ==> (r.value.NotBranch? <==> !(log[0].changedPaths[0].copyfromPath.Some? &&
                                                   log[0].changedPaths[0].copyfromPath.value != []))
  {
    if log == [] || log[0].changedPaths == [] then Raise(IndexError, "list index out of range")
    else
      var cp := log[0].changedPaths[0];
      if cp.copyfromPath.None? || cp.copyfromPath.value == [] then Ok(NotBranch)
      else Ok(Branched(cp.copyfromPath.value, cp.copyfromRev, log[0].rev))
  }

  // ---------------------------------------------------------------------
  // get_copyfrom_branch_copy_revision

  /** The last listed revision not above `rev`. */
  function LastNotAbove(revs: seq<nat>, rev: nat): (r: Option<nat>)
    ensures r.None? <==> forall i :: 0 <= i < |revs| ==> revs[i] > rev
    ensures r.Some? ==> exists i :: 0 <= i < |revs| && revs[i] == r.value && r.value <= rev &&
                                    forall j :: i < j < |revs| ==> revs[j] > rev
  {
    if revs == [] then None
    else if revs[|revs| - 1] <= rev then Some(revs[|revs| - 1])
    else
      var front := revs[..|revs| - 1];
      var r := LastNotAbove(front, rev);
      assert forall i :: 0 <= i < |front| ==> front[i] == revs[i];
      r
  }

  /** `get_copyfrom_branch_copy_revision`: the copy revision itself when the
    * copied-from branch lists it, else the last listed revision below it. */
  function CopyfromBranchCopyRevision(revs: seq<nat>, copyfromRev: nat): (r: Option<nat>)
  {
    if copyfromRev in revs then Some(copyfromRev) else LastNotAbove(revs, copyfromRev)
  }

  predicate Ascending(revs: seq<nat>)
  {
    forall i, j :: 0 <= i < j < |revs| ==> revs[i] < revs[j]
  }

  /** On the ascending list the server answers with, the revision found is
    * the newest revision of the copied-from branch at or before the copy;
    * there is none only when every listed revision is later. */
  lemma CopyRevisionIsClosest(revs: seq<nat>, copyfromRev: nat)
    requires Ascending(revs)
    ensures var r := CopyfromBranchCopyRevision(revs, copyfromRev);
            (r.None? <==> forall x :: x in revs ==> x > copyfromRev) &&
            (r.Some? ==> r.value in revs && r.value <= copyfromRev &&
                         forall x :: x in revs && x <= copyfromRev ==> x <= r.value)
  {
    var r := CopyfromBranchCopyRevision(revs, copyfromRev);
    if copyfromRev in revs {
      assert r == Some(copyfromRev);
    } else if r.None? {
      forall x | x in revs ensures x > copyfromRev {
        var k :| 0 <= k < |revs| && revs[k] == x;
      }
    } else {
      var i :| 0 <= i < |revs| && revs[i] == r.value && r.value <= copyfromRev &&
               forall j :: i < j < |revs| ==> revs[j] > copyfromRev;
      assert revs[i] in revs;
      forall x | x in revs && x <= copyfromRev ensures x <= r.value {
        var k :| 0 <= k < |revs| && revs[k] == x;
        if k > i { assert revs[k] > copyfromRev; }
      }
    }
  }

  // ---------------------------------------------------------------------
  // detect_branch_point

  /** One Perforce change as `p4 changes -l` lists it. */
  datatype P4Change = P4Change(change: nat, desc: string)

  /** A replicated branch directory and its changes, newest first. */
  datatype P4Dir = P4Dir(dir: string, changes: seq<P4Change>)

  /** The revision each change's description decodes to. The search below
    * takes the decoder as a parameter; `detect_branch_point` passes
    * `GetRevisionNumFromDesc`. */
  function Revs(changes: seq<P4Change>, decode: string -> nat): (r: seq<nat>)
    ensures |r| == |changes|
  {
    if changes == [] then [] else [decode(changes[0].desc)] + Revs(changes[1..], decode)
  }

  lemma {:induction false} RevsAt(changes: seq<P4Change>, i: nat, decode: string -> nat)
    requires i < |changes|
    ensures Revs(changes, decode)[i] == decode(changes[i].desc)
  {
    if i > 0 {
      RevsAt(changes[1..], i - 1, decode);
    }
  }

  lemma {:induction false} RevsSnoc(changes: seq<P4Change>, j: nat, decode: string -> nat)
    requires j < |changes|
    ensures Revs(changes[..j + 1], decode) == Revs(changes[..j], decode) + [decode(changes[j].desc)]
  {
    if j > 0 {
      assert changes[..j + 1][1..] == changes[1..][..j];
      assert changes[..j][1..] == changes[1..][..j - 1];
      RevsSnoc(changes[1..], j - 1, decode);
    }
  }

  /** The first change, newest first, whose description decodes to `rev`. */
  function FirstChangeFor(changes: seq<P4Change>, rev: nat, decode: string -> nat): (r: Option<nat>)
    ensures r.None? <==> rev !in Revs(changes, decode)
    ensures r.Some? ==> exists i :: 0 <= i < |changes| && changes[i].change == r.value &&
                                    Revs(changes, decode)[i] == rev && rev !in Revs(changes, decode)[..i]
  {
    match IndexOf(Revs(changes, decode), rev)
    case None => None
    case Some(i) => Some(changes[i].change)
  }

  /** A directory is searched when its newest change mentions the
    * Subversion repository. */
  predicate Searched(d: P4Dir, svnRepoUrl: string)
    requires d.changes != []
  {
    Contains(d.changes[0].desc, svnRepoUrl)
  }

  /** The search over the replicated directories, in listing order: a
    * directory without changes ends it with the `[0]` of an empty list. */
  function Search(dirs: seq<P4Dir>, svnRepoUrl: string, branchRev: nat, decode: string -> nat): Result<Option<(string, nat)>>
  {
    if dirs == [] then Ok(None)
    else if dirs[0].changes == [] then Raise(IndexError, "list index out of range")
    else if !Searched(dirs[0], svnRepoUrl) then Search(dirs[1..], svnRepoUrl, branchRev, decode)
    else
      match FirstChangeFor(dirs[0].changes, branchRev, decode)
      case Some(c) => Ok(Some((dirs[0].dir, c)))
      case None => Search(dirs[1..], svnRepoUrl, branchRev, decode)
  }

  /** Every directory before position `k` was passed over: it has changes,
    * and either does not mention the repository or has no change decoding
    * to the branch revision. */
  ghost predicate PassedOver(dirs: seq<P4Dir>, k: nat, svnRepoUrl: string, branchRev: nat, decode: string -> nat)
    requires k <= |dirs|
  {
    forall i :: 0 <= i < k ==> dirs[i].changes != [] &&
                               (!Searched(dirs[i], svnRepoUrl) || FirstChangeFor(dirs[i].changes, branchRev, decode).None?)
  }

  /** Passing over the first directory extends what was passed over. */
  lemma PassedOverCons(dirs: seq<P4Dir>, k: nat, svnRepoUrl: string, branchRev: nat, decode: string -> nat)
    requires dirs != [] && dirs[0].changes != []
    requires !Searched(dirs[0], svnRepoUrl) || FirstChangeFor(dirs[0].changes, branchRev, decode).None?
    requires k <= |dirs| - 1 && PassedOver(dirs[1..], k, svnRepoUrl, branchRev, decode)
    ensures PassedOver(dirs, k + 1, svnRepoUrl, branchRev, decode)
  {
    forall i | 1 <= i < k + 1
      ensures dirs[i].changes != [] &&
              (!Searched(dirs[i], svnRepoUrl) || FirstChangeFor(dirs[i].changes, branchRev, decode).None?)
    {
      assert dirs[i] == dirs[1..][i - 1];
    }
  }

  /** What the search finds: the first directory, in listing order, that
    * mentions the repository and has a change decoding to the branch
    * revision, with the newest such change of it. */
  lemma {:induction false} SearchFound(dirs: seq<P4Dir>, svnRepoUrl: string, branchRev: nat, decode: string -> nat)
    returns (k: nat)
    requires Search(dirs, svnRepoUrl, branchRev, decode).Ok? && Search(dirs, svnRepoUrl, branchRev, decode).value.Some?
    ensures k < |dirs| && PassedOver(dirs, k, svnRepoUrl, branchRev, decode) &&
            dirs[k].changes != [] && Searched(dirs[k], svnRepoUrl) &&
            FirstChangeFor(dirs[k].changes, branchRev, decode).Some? &&
            Search(dirs, svnRepoUrl, branchRev, decode).value.value ==
              (dirs[k].dir, FirstChangeFor(dirs[k].changes, branchRev, decode).value)
    decreases |dirs|
  {
    if Searched(dirs[0], svnRepoUrl) && FirstChangeFor(dirs[0].changes, branchRev, decode).Some? {
      k := 0;
    } else {
      var j := SearchFound(dirs[1..], svnRepoUrl, branchRev, decode);
      PassedOverCons(dirs, j, svnRepoUrl, branchRev, decode);
      k := j + 1;
    }
  }

  /** A search that finds nothing passed over every directory. */
  lemma {:induction false} SearchNone(dirs: seq<P4Dir>, svnRepoUrl: string, branchRev: nat, decode: string -> nat)
    requires Search(dirs, svnRepoUrl, branchRev, decode) == Ok(None)
    ensures PassedOver(dirs, |dirs|, svnRepoUrl, branchRev, decode)
    decreases |dirs|
  {
    if dirs != [] {
      SearchNone(dirs[1..], svnRepoUrl, branchRev, decode);
      PassedOverCons(dirs, |dirs| - 1, svnRepoUrl, branchRev, decode);
    }
  }

  /** The nested loops of `detect_branch_point` with their break flags. */
  method SearchBranchPoint(dirs: seq<P4Dir>, svnRepoUrl: string, branchRev: nat, decode: string -> nat)
    returns (r: Result<Option<(string, nat)>>)
    ensures r == Search(dirs, svnRepoUrl, branchRev, decode)
  {
    var i := 0;
    while i < |dirs|
      invariant 0 <= i <= |dirs|
      invariant Search(dirs, svnRepoUrl, branchRev, decode) == Search(dirs[i..], svnRepoUrl, branchRev, decode)
    {
      assert dirs[i..][1..] == dirs[i + 1..];
      var d := dirs[i];
      if d.changes == [] {
        return Raise(IndexError, "list index out of range");
      }
      if Contains(d.changes[0].desc, svnRepoUrl) {
        var found := FindChange(d.changes, branchRev, decode);
        if found.Some? {
          return Ok(Some((d.dir, found.value)));
        }
      }
      i := i + 1;
    }
    return Ok(None);
  }

  /** The inner loop: the changes of one directory, newest first. */
  method FindChange(changes: seq<P4Change>, rev: nat, decode: string -> nat) returns (found: Option<nat>)
    ensures found == FirstChangeFor(changes, rev, decode)
  {
    var j := 0;
    while j < |changes|
      invariant 0 <= j <= |changes|
      invariant rev !in Revs(changes[..j], decode)
    {
      RevsSnoc(changes, j, decode);
      if decode(changes[j].desc) == rev {
        var all := Revs(changes, decode);
        assert all[..j] == Revs(changes[..j], decode) && all[j] == rev by {
          assert changes == changes[..j + 1] + changes[j + 1..];
          RevsAppend(changes[..j + 1], changes[j + 1..], decode);
        }
        return Some(changes[j].change);
      }
      j := j + 1;
    }
    assert changes[..j] == changes;
    return None;
  }

  lemma {:induction false} RevsAppend(a: seq<P4Change>, b: seq<P4Change>, decode: string -> nat)
    ensures Revs(a + b, decode) == Revs(a, decode) + Revs(b, decode)
  {
    if a == [] {
      assert a + b == b;
    } else {
      assert (a + b)[0] == a[0];
      assert (a + b)[1..] == a[1..] + b;
      RevsAppend(a[1..], b, decode);
    }
  }

  /** What the Subversion and Perforce servers answer: the project's log
    * (oldest first), the copied-from branch's log below the copy revision,
    * and the replicated directories. */
  datatype Servers = Servers(projectLog: seq<LogEntry>, copyfromRevs: seq<nat>, dirs: seq<P4Dir>)

  /** The answer: `<dir>/...@<change>` and the branch's first revision. */
  function BranchFrom(found: (string, nat), firstRev: nat): (string, nat)
  {
    (found.0 + "/...@" + NatToString(found.1), firstRev)
  }

  /** `detect_branch_point` as written: a first revision that is not a
    * branch returns a pair the caller unpacks into three names, and a copy
    * revision with no match formats its message with a name (`revs`) that
    * is not defined in the function. */
  function DetectBranchPointAsWritten(svnRepoUrl: string, srv: Servers): Result<Option<(string, nat)>>
  {
    var origin := GetSrcSvnBranchRevision(srv.projectLog);
    if origin.Err? then Err(origin.exc)
    else if Arity(origin.value) != 3 then Raise(ValueError, "not enough values to unpack (expected 3, got 2)")
    else
      var b := CopyfromBranchCopyRevision(srv.copyfromRevs, origin.value.copyfromRev);
      if b.None? then Raise(NameError, "name 'revs' is not defined")
      else
        var found := Search(srv.dirs, svnRepoUrl, b.value, GetRevisionNumFromDesc);
        if found.Err? then Err(found.exc)
        else if found.value.None? then Ok(None)
        else Ok(Some(BranchFrom(found.value.value, origin.value.firstRev)))
  }

  /** `detect_branch_point` as intended: both cases log and return None. */
  function DetectBranchPoint(svnRepoUrl: string, srv: Servers): Result<Option<(string, nat)>>
  {
    var origin := GetSrcSvnBranchRevision(srv.projectLog);
    if origin.Err? then Err(origin.exc)
    else if origin.value.NotBranch? then Ok(None)
    else
      var b := CopyfromBranchCopyRevision(srv.copyfromRevs, origin.value.copyfromRev);
      if b.None? then Ok(None)
      else
        var found := Search(srv.dirs, svnRepoUrl, b.value, GetRevisionNumFromDesc);
        if found.Err? then Err(found.exc)
        else if found.value.None? then Ok(None)
        else Ok(Some(BranchFrom(found.value.value, origin.value.firstRev)))
  }

  /** A first revision that copies nothing: as written the unpacking fails,
    * as intended nothing is found. */
  lemma NotBranchUnpacking(svnRepoUrl: string, srv: Servers, rev: nat)
    requires srv.projectLog == [LogEntry(rev, [ChangedPath(None, 0)])]
    ensures DetectBranchPointAsWritten(svnRepoUrl, srv).Err?
    ensures DetectBranchPointAsWritten(svnRepoUrl, srv).exc.kind == ValueError
    ensures DetectBranchPoint(svnRepoUrl, srv) == Ok(None)
  {
  }

  /** A copy revision older than every revision of the copied-from branch:
    * as written the error message raises, as intended nothing is found. */
  lemma NoCopyRevisionMessage(svnRepoUrl: string, srv: Servers, first: nat)
    requires srv.projectLog == [LogEntry(first, [ChangedPath(Some("/trunk"), 5)])]
    requires srv.copyfromRevs == []
    ensures DetectBranchPointAsWritten(svnRepoUrl, srv).Err?
    ensures DetectBranchPointAsWritten(svnRepoUrl, srv).exc.kind == NameError
    ensures DetectBranchPoint(svnRepoUrl, srv) == Ok(None)
  {
    assert LastNotAbove([7], 5) == None;
  }

  /** On a branch whose copy revision resolves, the two agree. */
  lemma AsWrittenAgreesOnBranches(svnRepoUrl: string, srv: Servers)
    requires GetSrcSvnBranchRevision(srv.projectLog).Ok?
    requires GetSrcSvnBranchRevision(srv.projectLog).value.Branched?
    requires CopyfromBranchCopyRevision(srv.copyfromRevs, GetSrcSvnBranchRevision(srv.projectLog).value.copyfromRev).Some?
    ensures DetectBranchPointAsWritten(svnRepoUrl, srv) == DetectBranchPoint(svnRepoUrl, srv)
  {
  }

  /** What the intended detection promises: a result names a directory
    * whose newest change mentions the repository, at a change whose tag
    * records the revision the branch was copied from, and the branch's own
    * first revision; no result on a branch means no searched directory has
    * such a change. */
  lemma DetectedBranchPoint(svnRepoUrl: string, srv: Servers)
    requires DetectBranchPoint(svnRepoUrl, srv).Ok?
    ensures var r := DetectBranchPoint(svnRepoUrl, srv);
            r.value.Some? ==>
              var o := GetSrcSvnBranchRevision(srv.projectLog).value;
              var b := CopyfromBranchCopyRevision(srv.copyfromRevs, o.copyfromRev);
              o.Branched? && b.Some? && r.value.value.1 == o.firstRev &&
              exists k, c :: 0 <= k < |srv.dirs| && srv.dirs[k].changes != [] && Searched(srv.dirs[k], svnRepoUrl) &&
                             0 <= c < |srv.dirs[k].changes| &&
                             Revs(srv.dirs[k].changes, GetRevisionNumFromDesc)[c] == b.value &&
                             r.value.value.0 == srv.dirs[k].dir + "/...@" + NatToString(srv.dirs[k].changes[c].change)
  {
    var r := DetectBranchPoint(svnRepoUrl, srv);
    if r.value.Some? {
      var o := GetSrcSvnBranchRevision(srv.projectLog).value;
      var b := CopyfromBranchCopyRevision(srv.copyfromRevs, o.copyfromRev);
      var k := SearchFound(srv.dirs, svnRepoUrl, b.value, GetRevisionNumFromDesc);
      var chs := srv.dirs[k].changes;
      var c :| 0 <= c < |chs| && chs[c].change == FirstChangeFor(chs, b.value, GetRevisionNumFromDesc).value &&
               Revs(chs, GetRevisionNumFromDesc)[c] == b.value && b.value !in Revs(chs, GetRevisionNumFromDesc)[..c];
    }
  }
}
