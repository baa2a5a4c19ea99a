/** Perforce-to-Subversion replication of one change: the files of a
  * Perforce change are synced into a Subversion working copy that shares
  * the workspace's root, added, removed or given their properties there,
  * and committed with the replication tag. */
module PerforceToSubversion {
  import opened Common
  import opened Strings
  import ScmRep
  import ScmP4Ingest

  /** One file of the Perforce change: its action, its workspace path,
    * and that path with the Perforce wildcards decoded. */
  datatype P4File = P4File(action: string, localFile: string, fixedLocalFile: string)

  /** What the replication does to the two servers. */
  datatype Effect =
    | P4Sync(args: seq<string>)                    // p4 sync on the source
    | SvnUpdate(paths: seq<string>, arg: Option<string>)
    | SvnAdd(paths: seq<string>)
    | SvnRemove(path: string)
    | PropSet(name: string, path: string)          // value '*'
    | PropDel(name: string, path: string)
    | Checkin(paths: seq<string>, desc: string)

  /** The Subversion working copy and server as the replication consults
    * them. */
  datatype Svn = Svn(
    wcRoot: string, repoUrl: string, projectDir: string,
    versioned: string -> bool,              // `svn info` answers for the URL
    listing: string -> set<string>,         // repository paths `svn list` gives for a directory URL
    urlPath: string -> string,              // the path part of a URL
    isDir: string -> bool,                  // os.path.isdir
    executable: string -> bool,             // os.access(path, X_OK)
    isLink: string -> bool,                 // os.path.islink
    prop: (string, string) -> Option<string>, // `svn propget name path`
    checkin: (seq<string>, string) -> Option<nat>) // the revision a commit creates

  // ---------------------------------------------------------------------
  // Paths

  /** `_svn_path_to_url`: a working-copy path as a repository URL. */
  function SvnPathToUrl(path: string, svn: Svn): (r: Result<string>)
    ensures r.Ok? <==> StartsWith(path, svn.wcRoot)
    ensures r.Err? ==> r.exc.kind == P4ToSvnException
  {
    if !StartsWith(path, svn.wcRoot) then Raise(P4ToSvnException, path + " not in " + svn.wcRoot)
    else Ok(svn.repoUrl + svn.projectDir + path[|svn.wcRoot|..])
  }

  /** A path below the working-copy root lands at the same place below the
    * project directory. */
  lemma UrlOfRelative(rel: string, svn: Svn)
    ensures SvnPathToUrl(svn.wcRoot + rel, svn) == Ok(svn.repoUrl + svn.projectDir + rel)
  {
    assert (svn.wcRoot + rel)[..|svn.wcRoot|] == svn.wcRoot;
    assert (svn.wcRoot + rel)[|svn.wcRoot|..] == rel;
  }

  /** `_file_is_svn_versioned`. */
  function IsVersioned(path: string, svn: Svn): Result<bool>
  {
    var url := SvnPathToUrl(path, svn);
    if url.Err? then Err(url.exc) else Ok(svn.versioned(url.value))
  }

  /** A path whose parent, in the sense of `os.path.split`, is shorter. */
  predicate HasParent(p: string) { |Dirname(p)| < |p| }

  // ---------------------------------------------------------------------
  // Groups of 500

  const GroupSize: nat := 500

  /** The groups of a list the `range(gs, n + gs, gs)` loops hand out. */
  method InGroups(items: seq<string>) returns (groups: seq<seq<string>>)
    ensures groups == Chunks(items, GroupSize)
  {
    groups := [];
    var start := 0;
    while start < |items|
      invariant start <= |items|
      invariant Chunks(items, GroupSize) == groups + Chunks(items[start..], GroupSize)
      decreases |items| - start
    {
      var end := if start + GroupSize < |items| then start + GroupSize else |items|;
      ChunkStep(items[start..]);
      assert items[start..][..end - start] == items[start..end];
      assert items[start..][end - start..] == items[end..];
      AppendAssoc(groups, [items[start..end]], Chunks(items[end..], GroupSize));
      groups := groups + [items[start..end]];
      start := end;
    }
    assert items[start..] == [];
  }

  lemma ChunkStep(s: seq<string>)
    requires s != []
    ensures var k := if |s| < GroupSize then |s| else GroupSize;
            Chunks(s, GroupSize) == [s[..k]] + Chunks(s[k..], GroupSize)
  {
    if |s| <= GroupSize {
      assert s[..|s|] == s;
      assert s[|s|..] == [];
    }
  }

  /** Every file with `sfx` appended. */
  function Suffixed(files: seq<string>, sfx: string): (r: seq<string>)
    ensures |r| == |files| && forall i :: 0 <= i < |files| ==> r[i] == files[i] + sfx
  {
    if files == [] then [] else [files[0] + sfx] + Suffixed(files[1..], sfx)
  }

  /** `fn@rev` for every file. */
  function AtRev(files: seq<string>, rev: nat): (r: seq<string>)
    ensures |r| == |files| && forall i :: 0 <= i < |files| ==> r[i] == files[i] + "@" + NatToString(rev)
  {
    var r := Suffixed(files, "@" + NatToString(rev));
    assert forall i :: 0 <= i < |files| ==> r[i] == files[i] + ("@" + NatToString(rev)) == files[i] + "@" + NatToString(rev);
    r
  }

  /** One forced sync per group. */
  function SyncGroups(groups: seq<seq<string>>, rev: nat): (r: seq<Effect>)
    ensures |r| == |groups|
  {
    if groups == [] then [] else [P4Sync(["-f"] + AtRev(groups[0], rev))] + SyncGroups(groups[1..], rev)
  }

  /** `p4_sync_files`: the files synced to the change, 500 to a command. */
  method P4SyncFiles(files: seq<string>, rev: nat) returns (effects: seq<Effect>)
    ensures effects == SyncGroups(Chunks(files, GroupSize), rev)
  {
    var groups := InGroups(files);
    effects := SyncGroups(groups, rev);
  }

  /** The files the syncs name, in order. */
  function SyncedFiles(effects: seq<Effect>): seq<string>
  {
    if effects == [] then []
    else (if effects[0].P4Sync? && |effects[0].args| > 0 then effects[0].args[1..] else []) + SyncedFiles(effects[1..])
  }

  lemma {:induction false} SuffixedAppend(a: seq<string>, b: seq<string>, sfx: string)
    ensures Suffixed(a + b, sfx) == Suffixed(a, sfx) + Suffixed(b, sfx)
  {
    if a == [] {
      assert a + b == b;
    } else {
      assert (a + b)[0] == a[0] && (a + b)[1..] == a[1..] + b;
      SuffixedAppend(a[1..], b, sfx);
    }
  }

  lemma AtRevAppend(a: seq<string>, b: seq<string>, rev: nat)
    ensures AtRev(a + b, rev) == AtRev(a, rev) + AtRev(b, rev)
  {
    SuffixedAppend(a, b, "@" + NatToString(rev));
  }

  lemma {:induction false} SyncGroupsFiles(groups: seq<seq<string>>, rev: nat)
    ensures SyncedFiles(SyncGroups(groups, rev)) == AtRev(Flatten(groups), rev)
  {
    if groups != [] {
      SyncGroupsFiles(groups[1..], rev);
      var e := P4Sync(["-f"] + AtRev(groups[0], rev));
      assert SyncGroups(groups, rev) == [e] + SyncGroups(groups[1..], rev);
      assert ([e] + SyncGroups(groups[1..], rev))[1..] == SyncGroups(groups[1..], rev);
      assert e.args[1..] == AtRev(groups[0], rev);
      AtRevAppend(groups[0], Flatten(groups[1..]), rev);
    }
  }

  /** The syncs name every file once, in order, at the change, and no
    * command names more than 500. */
  lemma SyncsEveryFile(files: seq<string>, rev: nat)
    ensures SyncedFiles(SyncGroups(Chunks(files, GroupSize), rev)) == AtRev(files, rev)
    ensures forall e :: e in SyncGroups(Chunks(files, GroupSize), rev) ==> e.P4Sync? && |e.args| <= GroupSize + 1
  {
    SyncGroupsFiles(Chunks(files, GroupSize), rev);
    FlattenChunks(files, GroupSize);
    SyncGroupsBounded(Chunks(files, GroupSize), rev);
  }

  lemma {:induction false} SyncGroupsBounded(groups: seq<seq<string>>, rev: nat)
    requires forall i :: 0 <= i < |groups| ==> |groups[i]| <= GroupSize
    ensures forall e :: e in SyncGroups(groups, rev) ==> e.P4Sync? && |e.args| <= GroupSize + 1
  {
    if groups != [] {
      SyncGroupsBounded(groups[1..], rev);
    }
  }

  /** One `svn add` per group. */
  function AddGroups(groups: seq<seq<string>>): (r: seq<Effect>)
    ensures |r| == |groups| && forall i :: 0 <= i < |r| ==> r[i] == SvnAdd(groups[i])
  {
    if groups == [] then [] else [SvnAdd(groups[0])] + AddGroups(groups[1..])
  }

  /** One update of the changed files per group. */
  function UpdateGroups(groups: seq<seq<string>>): (r: seq<Effect>)
    ensures |r| == |groups| && forall i :: 0 <= i < |r| ==> r[i] == SvnUpdate(groups[i], None)
  {
    if groups == [] then [] else [SvnUpdate(groups[0], None)] + UpdateGroups(groups[1..])
  }

  // ---------------------------------------------------------------------
  // Files by directory

  /** Files grouped under their directory, each directory once, in the
    * order of its first file. */
  datatype DirFiles = DirFiles(dir: string, files: seq<string>)

  function Dirs(groups: seq<DirFiles>): (r: seq<string>)
    ensures |r| == |groups| && forall i :: 0 <= i < |r| ==> r[i] == groups[i].dir
  {
    if groups == [] then [] else [groups[0].dir] + Dirs(groups[1..])
  }

  /** `groups` with `f` appended to the list of `dir`, which is added at
    * the end when it is new. */
  function Insert(groups: seq<DirFiles>, dir: string, f: string): (r: seq<DirFiles>)
    ensures Dirs(r) == if dir in Dirs(groups) then Dirs(groups) else Dirs(groups) + [dir]
  {
    if groups == [] then [DirFiles(dir, [f])]
    else if groups[0].dir == dir then [DirFiles(dir, groups[0].files + [f])] + groups[1..]
    else [groups[0]] + Insert(groups[1..], dir, f)
  }

  /** The dict the scripts build with `get(d, [])`, `append` and store. */
  function ByDir(files: seq<string>): seq<DirFiles>
  {
    if files == [] then []
    else Insert(ByDir(files[..|files| - 1]), Dirname(files[|files| - 1]), files[|files| - 1])
  }

  /** The list held for a directory ([] when there is none). */
  function Lookup(groups: seq<DirFiles>, dir: string): seq<string>
  {
    if groups == [] then [] else if groups[0].dir == dir then groups[0].files else Lookup(groups[1..], dir)
  }

  /** The files whose directory is `dir`, in order. */
  function FilesIn(files: seq<string>, dir: string): seq<string>
  {
    if files == [] then []
    else FilesIn(files[..|files| - 1], dir) + (if Dirname(files[|files| - 1]) == dir then [files[|files| - 1]] else [])
  }

  lemma {:induction false} LookupInsert(groups: seq<DirFiles>, dir: string, f: string, d: string)
    ensures Lookup(Insert(groups, dir, f), d) == Lookup(groups, d) + (if d == dir then [f] else [])
  {
    if groups != [] && groups[0].dir != dir {
      LookupInsert(groups[1..], dir, f, d);
    }
  }

  /** The list built for each directory holds exactly its files, in order. */
  lemma {:induction false} ByDirLookup(files: seq<string>, d: string)
    ensures Lookup(ByDir(files), d) == FilesIn(files, d)
  {
    if files != [] {
      var last := files[|files| - 1];
      ByDirLookup(files[..|files| - 1], d);
      LookupInsert(ByDir(files[..|files| - 1]), Dirname(last), last, d);
    }
  }

  /** Every file sits in the list of its own directory. */
  predicate Parented(groups: seq<DirFiles>)
  {
    forall i, j :: 0 <= i < |groups| && 0 <= j < |groups[i].files| ==> Dirname(groups[i].files[j]) == groups[i].dir
  }

  lemma {:induction false} InsertParented(groups: seq<DirFiles>, f: string)
    requires Parented(groups)
    ensures Parented(Insert(groups, Dirname(f), f))
  {
    if groups != [] && groups[0].dir != Dirname(f) {
      InsertParented(groups[1..], f);
    }
  }

  lemma {:induction false} ByDirParented(files: seq<string>)
    ensures Parented(ByDir(files))
  {
    if files != [] {
      ByDirParented(files[..|files| - 1]);
      InsertParented(ByDir(files[..|files| - 1]), files[|files| - 1]);
    }
  }

  /** The loop that builds the dict. */
  method GroupByDir(files: seq<string>) returns (groups: seq<DirFiles>)
    ensures groups == ByDir(files)
  {
    groups := [];
    var i := 0;
    while i < |files|
      invariant 0 <= i <= |files|
      invariant groups == ByDir(files[..i])
    {
      assert files[..i + 1][..i] == files[..i];
      groups := Insert(groups, Dirname(files[i]), files[i]);
      i := i + 1;
    }
    assert files[..i] == files;
  }

  // ---------------------------------------------------------------------
  // svn_replicate_add

  /** `paths.update(xs)`; the set is listed in insertion order, which the
    * source does not fix. */
  function Union(paths: seq<string>, xs: seq<string>): (r: seq<string>)
    requires NoDups(paths)
    ensures NoDups(r)
    ensures forall x :: x in r <==> x in paths || x in xs
    ensures |paths| <= |r| && r[..|paths|] == paths
    decreases |xs|
  {
    if xs == [] then paths
    else if xs[0] in paths then Union(paths, xs[1..])
    else Union(paths + [xs[0]], xs[1..])
  }

  /** The two sets the climb fills: directories to update, paths to add. */
  datatype AddState = AddState(update: seq<string>, submit: seq<string>)

  /** Some path queued for adding holds `dir` below it. */
  predicate Covered(dir: string, submit: seq<string>)
  {
    exists i :: 0 <= i < |submit| && StartsWith(dir, submit[i] + "/")
  }

  /** The climb from one directory: stop at '/', at a directory queued for
    * update, below a path queued for adding, or at a versioned directory;
    * otherwise the directory itself becomes what would be added, and the
    * climb goes on in its parent. */
  function Climb(cur: string, last: seq<string>, st: AddState, svn: Svn): (r: Result<AddState>)
    requires NoDups(st.submit)
    ensures r.Ok? ==> NoDups(r.value.submit)
    decreases |cur|
  {
    if cur == "/" then Ok(st)
    else if cur in st.update then Ok(st.(submit := Union(st.submit, last)))
    else if Covered(cur, st.submit) then Ok(st)
    else
      var v := IsVersioned(cur, svn);
      if v.Err? then Err(v.exc)
      else if v.value then
        Ok(AddState(if cur in st.update then st.update else st.update + [cur], Union(st.submit, last)))
      else if HasParent(cur) then Climb(Dirname(cur), [cur], st, svn)
      else Raise(LoopsForever, "the parent of " + cur + " is " + cur)
  }

  /** The climb from every directory of the files to add, in order. */
  function ClimbAll(groups: seq<DirFiles>, st: AddState, svn: Svn): (r: Result<AddState>)
    requires NoDups(st.submit)
    ensures r.Ok? ==> NoDups(r.value.submit)
  {
    if groups == [] then Ok(st)
    else
      var c := Climb(groups[0].dir, groups[0].files, st, svn);
      if c.Err? then c else ClimbAll(groups[1..], c.value, svn)
  }

  /** What the climb leaves: every directory queued for update is
    * versioned; every path queued for adding sits directly in one of
    * them, and is one of the added files or an unversioned directory. */
  predicate Sound(st: AddState, added: seq<string>, svn: Svn)
  {
    (forall u :: u in st.update ==> IsVersioned(u, svn) == Ok(true)) &&
    (forall p :: p in st.submit ==> Dirname(p) in st.update) &&
    (forall p :: p in st.submit ==> p in added || IsVersioned(p, svn) == Ok(false))
  }

  lemma {:induction false} ClimbSound(cur: string, last: seq<string>, st: AddState, added: seq<string>, svn: Svn)
    requires NoDups(st.submit) && Sound(st, added, svn)
    requires forall p :: p in last ==> Dirname(p) == cur && (p in added || IsVersioned(p, svn) == Ok(false))
    ensures Climb(cur, last, st, svn).Ok? ==> Sound(Climb(cur, last, st, svn).value, added, svn)
    decreases |cur|
  {
    if cur != "/" && cur !in st.update && !Covered(cur, st.submit) {
      var v := IsVersioned(cur, svn);
      if v.Ok? && !v.value && HasParent(cur) {
        ClimbSound(Dirname(cur), [cur], st, added, svn);
      }
    }
  }

  lemma {:induction false} ClimbAllSound(groups: seq<DirFiles>, st: AddState, added: seq<string>, svn: Svn)
    requires NoDups(st.submit) && Sound(st, added, svn) && Parented(groups)
    requires forall i, j :: 0 <= i < |groups| && 0 <= j < |groups[i].files| ==> groups[i].files[j] in added
    ensures ClimbAll(groups, st, svn).Ok? ==> Sound(ClimbAll(groups, st, svn).value, added, svn)
  {
    if groups != [] {
      var g := groups[0];
      assert forall p :: p in g.files ==> Dirname(p) == g.dir && p in added by {
        forall p | p in g.files
          ensures Dirname(p) == g.dir && p in added
        {
          var j :| 0 <= j < |g.files| && g.files[j] == p;
          assert groups[0].files[j] == p;
        }
      }
      ClimbSound(g.dir, g.files, st, added, svn);
      var c := Climb(g.dir, g.files, st, svn);
      if c.Ok? {
        assert Parented(groups[1..]) by {
          forall i, j | 0 <= i < |groups[1..]| && 0 <= j < |groups[1..][i].files|
            ensures Dirname(groups[1..][i].files[j]) == groups[1..][i].dir
          {
            assert groups[1..][i] == groups[i + 1];
          }
        }
        forall i, j | 0 <= i < |groups[1..]| && 0 <= j < |groups[1..][i].files|
          ensures groups[1..][i].files[j] in added
        {
          assert groups[1..][i] == groups[i + 1];
        }
        ClimbAllSound(groups[1..], c.value, added, svn);
      }
    }
  }

  /** The climb as `svn_replicate_add` runs it: a loop per directory. */
  method ClimbFrom(dir: string, files: seq<string>, st0: AddState, svn: Svn) returns (r: Result<AddState>)
    requires NoDups(st0.submit)
    ensures r == Climb(dir, files, st0, svn)
  {
    var cur, last, st := dir, files, st0;
    while cur != "/"
      invariant NoDups(st.submit)
      invariant Climb(dir, files, st0, svn) == Climb(cur, last, st, svn)
      decreases |cur|
    {
      if cur in st.update {
        return Ok(st.(submit := Union(st.submit, last)));
      }
      if Covered(cur, st.submit) {
        return Ok(st);
      }
      var v := IsVersioned(cur, svn);
      if v.Err? {
        return Err(v.exc);
      }
      if v.value {
        return Ok(AddState(st.update + [cur], Union(st.submit, last)));
      }
      if !HasParent(cur) {
        return Raise(LoopsForever, "the parent of " + cur + " is " + cur);
      }
      last := [cur];
      cur := Dirname(cur);
    }
    return Ok(st);
  }

  /** The files a list of change files names. */
  function LocalFiles(fs: seq<P4File>): (r: seq<string>)
    ensures |r| == |fs| && forall i :: 0 <= i < |fs| ==> r[i] == fs[i].localFile
  {
    if fs == [] then [] else [fs[0].localFile] + LocalFiles(fs[1..])
  }

  function FixedFiles(fs: seq<P4File>): (r: seq<string>)
    ensures |r| == |fs| && forall i :: 0 <= i < |fs| ==> r[i] == fs[i].fixedLocalFile
  {
    if fs == [] then [] else [fs[0].fixedLocalFile] + FixedFiles(fs[1..])
  }

  /** The directories queued for update that are not on disk. */
  function Missing(paths: seq<string>, svn: Svn): seq<string>
  {
    if paths == [] then [] else (if svn.isDir(paths[0]) then [] else [paths[0]]) + Missing(paths[1..], svn)
  }

  datatype Outcome = Outcome(effects: seq<Effect>, result: Result<seq<string>>)

  /** `svn_replicate_add`: climb from every directory, update the missing
    * versioned parents without their contents, sync the files, add what
    * the climb chose, and report it. */
  function ReplicatedAdd(files: seq<P4File>, rev: nat, svn: Svn): Outcome
  {
    if files == [] then Outcome([], Ok([]))
    else
      var c := ClimbAll(ByDir(FixedFiles(files)), AddState([], []), svn);
      if c.Err? then Outcome([], Err(c.exc))
      else
        var upd := Missing(c.value.update, svn);
        var update := if upd == [] then [] else [SvnUpdate(upd, Some("--set-depth empty"))];
        Outcome(update + SyncGroups(Chunks(LocalFiles(files), GroupSize), rev) +
                AddGroups(Chunks(c.value.submit, GroupSize)), Ok(c.value.submit))
  }

  /** The loop over the directories of the files to add. */
  method ClimbEach(groups: seq<DirFiles>, svn: Svn) returns (r: Result<AddState>)
    ensures r == ClimbAll(groups, AddState([], []), svn)
  {
    var st := AddState([], []);
    var i := 0;
    while i < |groups|
      invariant 0 <= i <= |groups| && NoDups(st.submit)
      invariant ClimbAll(groups, AddState([], []), svn) == ClimbAll(groups[i..], st, svn)
    {
      assert groups[i..][0] == groups[i] && groups[i..][1..] == groups[i + 1..];
      var c := ClimbFrom(groups[i].dir, groups[i].files, st, svn);
      if c.Err? {
        return c;
      }
      st := c.value;
      i := i + 1;
    }
    assert groups[i..] == [];
    return Ok(st);
  }

  method ReplicateAdd(files: seq<P4File>, rev: nat, svn: Svn) returns (o: Outcome)
    ensures o == ReplicatedAdd(files, rev, svn)
  {
    if files == [] {
      return Outcome([], Ok([]));
    }
    var groups := GroupByDir(FixedFiles(files));
    var c := ClimbEach(groups, svn);
    if c.Err? {
      return Outcome([], Err(c.exc));
    }
    var upd := Missing(c.value.update, svn);
    var update := if upd == [] then [] else [SvnUpdate(upd, Some("--set-depth empty"))];
    var syncs := P4SyncFiles(LocalFiles(files), rev);
    var adds := InGroups(c.value.submit);
    return Outcome(update + syncs + AddGroups(adds), Ok(c.value.submit));
  }

  /** What `svn_replicate_add` adds sits directly in a versioned directory,
    * and is one of the files or an unversioned directory holding some. */
  lemma AddsHighestUnversioned(files: seq<P4File>, rev: nat, svn: Svn)
    requires ReplicatedAdd(files, rev, svn).result.Ok?
    ensures var added := ReplicatedAdd(files, rev, svn).result.value;
            NoDups(added) &&
            forall p :: p in added ==> (IsVersioned(Dirname(p), svn) == Ok(true) &&
                                        (p in FixedFiles(files) || IsVersioned(p, svn) == Ok(false)))
  {
    if files != [] {
      var fixed := FixedFiles(files);
      ByDirParented(fixed);
      var groups := ByDir(fixed);
      forall i, j | 0 <= i < |groups| && 0 <= j < |groups[i].files|
        ensures groups[i].files[j] in fixed
      {
        ByDirMembers(fixed, i, j);
      }
      ClimbAllSound(groups, AddState([], []), fixed, svn);
    }
  }

  /** Every file listed in the groups is one of `all`. */
  predicate AllIn(groups: seq<DirFiles>, all: seq<string>)
  {
    forall i, j :: 0 <= i < |groups| && 0 <= j < |groups[i].files| ==> groups[i].files[j] in all
  }

  predicate GroupIn(g: DirFiles, all: seq<string>)
  {
    forall j :: 0 <= j < |g.files| ==> g.files[j] in all
  }

  lemma AllInTail(groups: seq<DirFiles>, all: seq<string>)
    requires groups != [] && AllIn(groups, all)
    ensures GroupIn(groups[0], all) && AllIn(groups[1..], all)
  {
    forall i, j | 0 <= i < |groups[1..]| && 0 <= j < |groups[1..][i].files|
      ensures groups[1..][i].files[j] in all
    {
      assert groups[1..][i] == groups[i + 1];
    }
  }

  lemma AllInCons(g: DirFiles, rest: seq<DirFiles>, all: seq<string>)
    requires GroupIn(g, all) && AllIn(rest, all)
    ensures AllIn([g] + rest, all)
  {
    forall i, j | 0 <= i < |[g] + rest| && 0 <= j < |([g] + rest)[i].files|
      ensures ([g] + rest)[i].files[j] in all
    {
      if i > 0 {
        assert ([g] + rest)[i] == rest[i - 1];
      }
    }
  }

  lemma {:induction false} InsertMembers(groups: seq<DirFiles>, dir: string, f: string, all: seq<string>)
    requires AllIn(groups, all) && f in all
    ensures AllIn(Insert(groups, dir, f), all)
  {
    if groups == [] {
      AllInCons(DirFiles(dir, [f]), [], all);
    } else {
      AllInTail(groups, all);
      if groups[0].dir == dir {
        var g := DirFiles(dir, groups[0].files + [f]);
        assert GroupIn(g, all) by {
          forall j | 0 <= j < |g.files|
            ensures g.files[j] in all
          {
            if j < |groups[0].files| {
              assert g.files[j] == groups[0].files[j];
            }
          }
        }
        AllInCons(g, groups[1..], all);
      } else {
        InsertMembers(groups[1..], dir, f, all);
        AllInCons(groups[0], Insert(groups[1..], dir, f), all);
      }
    }
  }

  lemma {:induction false} ByDirAllMembers(files: seq<string>, all: seq<string>)
    requires forall f :: f in files ==> f in all
    ensures AllIn(ByDir(files), all)
  {
    if files != [] {
      var init := files[..|files| - 1];
      var last := files[|files| - 1];
      assert forall f :: f in init ==> f in files;
      assert last in files;
      ByDirAllMembers(init, all);
      InsertMembers(ByDir(init), Dirname(last), last, all);
    }
  }

  lemma ByDirMembers(files: seq<string>, i: nat, j: nat)
    requires i < |ByDir(files)| && j < |ByDir(files)[i].files|
    ensures ByDir(files)[i].files[j] in files
  {
    ByDirAllMembers(files, files);
  }

  // ---------------------------------------------------------------------
  // svn_replicate_action_edit

  /** One property brought in line with the disk: set to '*' when the
    * disk has the bit and Subversion does not, deleted in the opposite
    * case. */
  function SyncProp(name: string, path: string, onDisk: bool, have: Option<string>): seq<Effect>
  {
    if onDisk == (have == Some("*")) then []
    else if onDisk then [PropSet(name, path)]
    else [PropDel(name, path)]
  }

  /** A property's value once the effects are applied. */
  function PropAfter(name: string, path: string, have: Option<string>, effects: seq<Effect>): Option<string>
    decreases |effects|
  {
    if effects == [] then have
    else
      var e := effects[0];
      var now := if e.PropSet? && e.name == name && e.path == path then Some("*")
                 else if e.PropDel? && e.name == name && e.path == path then None
                 else have;
      PropAfter(name, path, now, effects[1..])
  }

  /** `svn_replicate_action_edit`: svn:executable and svn:special. */
  function EditProps(path: string, svn: Svn): seq<Effect>
  {
    SyncProp("svn:executable", path, svn.executable(path), svn.prop("svn:executable", path)) +
    SyncProp("svn:special", path, svn.isLink(path), svn.prop("svn:special", path))
  }

  lemma {:induction false} PropAfterAppend(name: string, path: string, have: Option<string>, a: seq<Effect>, b: seq<Effect>)
    ensures PropAfter(name, path, have, a + b) == PropAfter(name, path, PropAfter(name, path, have, a), b)
    decreases |a|
  {
    if a != [] {
      assert (a + b)[1..] == a[1..] + b;
      var e := a[0];
      var now := if e.PropSet? && e.name == name && e.path == path then Some("*")
                 else if e.PropDel? && e.name == name && e.path == path then None
                 else have;
      PropAfterAppend(name, path, now, a[1..], b);
    } else {
      assert a + b == b;
    }
  }

  /** After the edit, svn:executable is '*' exactly when the file is
    * executable, and svn:special is '*' exactly when it is a link. */
  lemma EditMatchesDisk(path: string, svn: Svn)
    ensures (PropAfter("svn:executable", path, svn.prop("svn:executable", path), EditProps(path, svn)) == Some("*"))
            <==> svn.executable(path)
    ensures (PropAfter("svn:special", path, svn.prop("svn:special", path), EditProps(path, svn)) == Some("*"))
            <==> svn.isLink(path)
  {
    var x := SyncProp("svn:executable", path, svn.executable(path), svn.prop("svn:executable", path));
    var s := SyncProp("svn:special", path, svn.isLink(path), svn.prop("svn:special", path));
    PropAfterAppend("svn:executable", path, svn.prop("svn:executable", path), x, s);
    PropAfterAppend("svn:special", path, svn.prop("svn:special", path), x, s);
  }

  // ---------------------------------------------------------------------
  // svn_replicate_delete

  /** No added file's directory is `dir` or lies below it. */
  predicate NoAddedIn(dir: string, addDirs: seq<string>)
  {
    forall i :: 0 <= i < |addDirs| ==> !StartsWith(addDirs[i], dir + "/") && addDirs[i] != dir
  }

  /** The URLs of the paths, or the first failure. */
  function UrlsOf(paths: seq<string>, svn: Svn): (r: Result<seq<string>>)
    ensures r.Ok? ==> |r.value| == |paths|
  {
    if paths == [] then Ok([])
    else
      var u := SvnPathToUrl(paths[0], svn);
      if u.Err? then Err(u.exc)
      else
        var rest := UrlsOf(paths[1..], svn);
        if rest.Err? then rest else Ok([u.value] + rest.value)
  }

  /** `is_dir_deleted`: the server lists nothing in the directory but the
    * files being removed and the directory itself, and no added file lies
    * in or below it. */
  function IsDirDeleted(dir: string, files: seq<string>, addDirs: seq<string>, svn: Svn): (r: Result<bool>)
    ensures r.Ok? && r.value ==> NoAddedIn(dir, addDirs)
    ensures r.Err? ==> !StartsWith(dir, svn.wcRoot) || exists f :: f in files && !StartsWith(f, svn.wcRoot)
  {
    var dirUrl := SvnPathToUrl(dir, svn);
    if dirUrl.Err? then Err(dirUrl.exc)
    else
      var urls := UrlsOf(files, svn);
      if urls.Err? then UrlsFail(files, svn); Err(urls.exc)
      else
        var onServer := set x | x in svn.listing(dirUrl.value) :: svn.urlPath(x);
        var removed := (set u | u in urls.value :: svn.urlPath(u)) + {svn.urlPath(dirUrl.value)};
        Ok(onServer == removed && NoAddedIn(dir, addDirs))
  }

  lemma {:induction false} UrlsFail(paths: seq<string>, svn: Svn)
    requires UrlsOf(paths, svn).Err?
    ensures exists f :: f in paths && !StartsWith(f, svn.wcRoot)
  {
    if SvnPathToUrl(paths[0], svn).Ok? {
      UrlsFail(paths[1..], svn);
      var f :| f in paths[1..] && !StartsWith(f, svn.wcRoot);
      assert f in paths;
    } else {
      assert paths[0] in paths;
    }
  }

  /** The groups without the one of `dir`. */
  function Remove(groups: seq<DirFiles>, dir: string): (r: seq<DirFiles>)
    ensures forall k :: k in Dirs(r) <==> k in Dirs(groups) && k != dir
    ensures forall k :: Lookup(r, k) == if k == dir then [] else Lookup(groups, k)
  {
    if groups == [] then []
    else if groups[0].dir == dir then Remove(groups[1..], dir)
    else [groups[0]] + Remove(groups[1..], dir)
  }

  /** A directory found deleted takes the place of its files, in the list
    * of its own parent. */
  function MoveUp(groups: seq<DirFiles>, dir: string): seq<DirFiles>
  {
    Insert(Remove(groups, dir), Dirname(dir), dir)
  }

  /** The sum of the directory lengths: a move to a real parent makes it
    * smaller. */
  function Weight(groups: seq<DirFiles>): nat
  {
    if groups == [] then 0 else |groups[0].dir| + Weight(groups[1..])
  }

  lemma {:induction false} RemoveWeight(groups: seq<DirFiles>, dir: string)
    requires dir in Dirs(groups)
    ensures Weight(Remove(groups, dir)) + |dir| <= Weight(groups)
  {
    if groups[0].dir != dir {
      RemoveWeight(groups[1..], dir);
    } else if dir in Dirs(groups[1..]) {
      RemoveWeight(groups[1..], dir);
    } else {
      RemoveAbsent(groups[1..], dir);
    }
  }

  lemma {:induction false} RemoveAbsent(groups: seq<DirFiles>, dir: string)
    requires dir !in Dirs(groups)
    ensures Remove(groups, dir) == groups
  {
    if groups != [] {
      RemoveAbsent(groups[1..], dir);
    }
  }

  lemma {:induction false} InsertWeight(groups: seq<DirFiles>, dir: string, f: string)
    ensures Weight(Insert(groups, dir, f)) <= Weight(groups) + |dir|
  {
    if groups != [] && groups[0].dir != dir {
      InsertWeight(groups[1..], dir, f);
    }
  }

  lemma {:induction false} RemoveNoDups(groups: seq<DirFiles>, dir: string)
    requires NoDups(Dirs(groups))
    ensures NoDups(Dirs(Remove(groups, dir)))
  {
    if groups != [] {
      assert Dirs(groups)[1..] == Dirs(groups[1..]);
      RemoveNoDups(groups[1..], dir);
      if groups[0].dir != dir {
        var r := Remove(groups[1..], dir);
        assert groups[0].dir !in Dirs(r);
        assert Dirs([groups[0]] + r) == [groups[0].dir] + Dirs(r);
      }
    }
  }

  lemma InsertNoDups(groups: seq<DirFiles>, dir: string, f: string)
    requires NoDups(Dirs(groups))
    ensures NoDups(Dirs(Insert(groups, dir, f)))
  {
  }

  /** A path without a parent is its own `os.path.split` head. */
  lemma DirnameSelf(p: string)
    requires !HasParent(p)
    ensures Dirname(p) == p
  {
    DirnamePrefix(p);
    assert Dirname(p) == p[..|Dirname(p)|];
  }

  /** A root directory whose list is not just itself: moving it still
    * changes its list. */
  predicate Unsettled(g: DirFiles)
  {
    !HasParent(g.dir) && g.files != [g.dir]
  }

  function UnsettledCount(groups: seq<DirFiles>): nat
  {
    if groups == [] then 0 else (if Unsettled(groups[0]) then 1 else 0) + UnsettledCount(groups[1..])
  }

  /** What every move lowers, except the move of a root directory that
    * already holds only itself. */
  function Measure(groups: seq<DirFiles>): nat
  {
    2 * Weight(groups) + UnsettledCount(groups)
  }

  lemma {:induction false} RemoveUnsettled(groups: seq<DirFiles>, dir: string)
    requires NoDups(Dirs(groups))
    ensures UnsettledCount(Remove(groups, dir)) <= UnsettledCount(groups)
    ensures dir in Dirs(groups) && Unsettled(DirFiles(dir, Lookup(groups, dir))) ==>
            UnsettledCount(Remove(groups, dir)) < UnsettledCount(groups)
  {
    if groups != [] {
      assert Dirs(groups)[1..] == Dirs(groups[1..]);
      RemoveUnsettled(groups[1..], dir);
      if groups[0].dir == dir {
        assert Dirs(groups)[0] == dir;
        RemoveAbsent(groups[1..], dir);
      }
    }
  }

  lemma {:induction false} InsertUnsettled(groups: seq<DirFiles>, dir: string, f: string)
    ensures UnsettledCount(Insert(groups, dir, f)) <= UnsettledCount(groups) + 1
  {
    if groups != [] && groups[0].dir != dir {
      InsertUnsettled(groups[1..], dir, f);
    }
  }

  /** A new directory lands at the end with its one path. */
  lemma {:induction false} InsertFresh(groups: seq<DirFiles>, dir: string, f: string)
    requires dir !in Dirs(groups)
    ensures Weight(Insert(groups, dir, f)) == Weight(groups) + |dir|
    ensures UnsettledCount(Insert(groups, dir, f)) ==
            UnsettledCount(groups) + (if Unsettled(DirFiles(dir, [f])) then 1 else 0)
  {
    if groups != [] {
      assert Dirs(groups)[0] == groups[0].dir;
      assert Dirs(groups)[1..] == Dirs(groups[1..]);
      InsertFresh(groups[1..], dir, f);
    }
  }

  /** Moving a directory up keeps each directory once and never raises the
    * measure; it lowers it unless the directory is its own parent and its
    * list is already just itself. */
  lemma MoveUpMeasure(groups: seq<DirFiles>, dir: string)
    requires NoDups(Dirs(groups)) && dir in Dirs(groups)
    ensures NoDups(Dirs(MoveUp(groups, dir)))
    ensures Measure(MoveUp(groups, dir)) <= Measure(groups)
    ensures HasParent(dir) || Lookup(groups, dir) != [dir] ==> Measure(MoveUp(groups, dir)) < Measure(groups)
  {
    var rest := Remove(groups, dir);
    RemoveNoDups(groups, dir);
    InsertNoDups(rest, Dirname(dir), dir);
    RemoveWeight(groups, dir);
    RemoveUnsettled(groups, dir);
    if HasParent(dir) {
      InsertWeight(rest, Dirname(dir), dir);
      InsertUnsettled(rest, Dirname(dir), dir);
    } else {
      DirnameSelf(dir);
      InsertFresh(rest, dir, dir);
    }
  }

  /** What the pass over a snapshot of the directories may rely on: each
    * directory once, and every directory still to visit present. */
  predicate PassReady(keys: seq<string>, groups: seq<DirFiles>)
  {
    NoDups(keys) && NoDups(Dirs(groups)) && forall k :: k in keys ==> k in Dirs(groups)
  }

  lemma PassReadyStep(keys: seq<string>, groups: seq<DirFiles>)
    requires keys != [] && PassReady(keys, groups)
    ensures PassReady(keys[1..], MoveUp(groups, keys[0]))
    ensures Measure(MoveUp(groups, keys[0])) <= Measure(groups)
    ensures HasParent(keys[0]) || Lookup(groups, keys[0]) != [keys[0]] ==>
            Measure(MoveUp(groups, keys[0])) < Measure(groups)
  {
    MoveUpMeasure(groups, keys[0]);
    forall k | k in keys[1..]
      ensures k in Dirs(MoveUp(groups, keys[0]))
    {
      var i :| 1 <= i < |keys| && keys[i] == k;
      assert k != keys[0];
    }
  }

  datatype PassResult = PassResult(groups: seq<DirFiles>, changed: bool)

  /** One pass of the `while recursive_detect_empty_dir` loop over the
    * directories as they stood when it began; a directory is checked with
    * the list it holds at its turn. A directory that is its own parent
    * moves into its own list, as the dict update does. */
  function PassFrom(keys: seq<string>, groups: seq<DirFiles>, changed: bool, addDirs: seq<string>, svn: Svn)
    : (r: Result<PassResult>)
    requires PassReady(keys, groups)
    ensures r.Ok? ==> NoDups(Dirs(r.value.groups)) && Measure(r.value.groups) <= Measure(groups)
    ensures r.Ok? && !r.value.changed ==> r.value.groups == groups
    ensures r.Ok? && changed ==> r.value.changed
    decreases |keys|
  {
    if keys == [] then Ok(PassResult(groups, changed))
    else
      var d := keys[0];
      var del := IsDirDeleted(d, Lookup(groups, d), addDirs, svn);
      if del.Err? then Err(del.exc)
      else if !del.value then
        assert PassReady(keys[1..], groups);
        PassFrom(keys[1..], groups, changed, addDirs, svn)
      else
        PassReadyStep(keys, groups);
        PassFrom(keys[1..], MoveUp(groups, d), true, addDirs, svn)
  }

  /** A directory found deleted that is its own parent and already holds
    * only itself: moving it changes no list. */
  predicate StuckDel(k: string, groups: seq<DirFiles>, addDirs: seq<string>, svn: Svn)
  {
    var del := IsDirDeleted(k, Lookup(groups, k), addDirs, svn);
    del.Ok? && del.value && !HasParent(k) && Lookup(groups, k) == [k]
  }

  /** A directory whose turn in a pass changes no list. */
  predicate Quiet(k: string, groups: seq<DirFiles>, addDirs: seq<string>, svn: Svn)
  {
    var del := IsDirDeleted(k, Lookup(groups, k), addDirs, svn);
    (del.Ok? && !del.value) || StuckDel(k, groups, addDirs, svn)
  }

  /** The state in which every pass reports a change but changes no list,
    * so `recursive_detect_empty_dir` is set on every pass. */
  predicate Stuck(groups: seq<DirFiles>, addDirs: seq<string>, svn: Svn)
  {
    && NoDups(Dirs(groups))
    && (forall k :: k in Dirs(groups) ==> Quiet(k, groups, addDirs, svn))
    && exists k :: k in Dirs(groups) && StuckDel(k, groups, addDirs, svn)
  }

  ghost predicate SameLookups(a: seq<DirFiles>, b: seq<DirFiles>)
  {
    forall k :: Lookup(a, k) == Lookup(b, k)
  }

  ghost predicate SameDirs(a: seq<DirFiles>, b: seq<DirFiles>)
  {
    forall k :: k in Dirs(a) <==> k in Dirs(b)
  }

  /** The move of a directory that is its own parent and holds only itself
    * leaves every list and every directory as they were. */
  lemma StuckMove(groups: seq<DirFiles>, d: string)
    requires d in Dirs(groups) && !HasParent(d) && Lookup(groups, d) == [d]
    ensures SameLookups(MoveUp(groups, d), groups) && SameDirs(MoveUp(groups, d), groups)
  {
    DirnameSelf(d);
    forall k
      ensures Lookup(MoveUp(groups, d), k) == Lookup(groups, k)
    {
      MoveUpLookup(groups, d, k);
    }
  }

  lemma QuietSame(keys: seq<string>, a: seq<DirFiles>, b: seq<DirFiles>, addDirs: seq<string>, svn: Svn)
    requires SameLookups(a, b) && forall k :: k in keys ==> Quiet(k, b, addDirs, svn)
    ensures forall k :: k in keys ==> Quiet(k, a, addDirs, svn)
  {
    forall k | k in keys
      ensures Quiet(k, a, addDirs, svn)
    {
      assert Lookup(a, k) == Lookup(b, k);
    }
  }

  /** A pass that does not lower the measure only met quiet directories and
    * changed no list; it reports a change only for a stuck directory. */
  lemma {:induction false} PassNoProgress(keys: seq<string>, groups: seq<DirFiles>, changed: bool,
                                          addDirs: seq<string>, svn: Svn)
    requires PassReady(keys, groups)
    ensures var r := PassFrom(keys, groups, changed, addDirs, svn);
            r.Ok? && Measure(r.value.groups) >= Measure(groups) ==>
              && (forall k :: k in keys ==> Quiet(k, groups, addDirs, svn))
              && SameLookups(r.value.groups, groups) && SameDirs(r.value.groups, groups)
              && (r.value.changed ==> changed || exists k :: k in keys && StuckDel(k, groups, addDirs, svn))
    decreases |keys|
  {
    var r := PassFrom(keys, groups, changed, addDirs, svn);
    if keys != [] && r.Ok? && Measure(r.value.groups) >= Measure(groups) {
      PassAdvance(keys, groups, changed, addDirs, svn);
      var d := keys[0];
      var del := IsDirDeleted(d, Lookup(groups, d), addDirs, svn);
      assert forall k :: k in keys ==> k == d || k in keys[1..];
      if !del.value {
        PassNoProgress(keys[1..], groups, changed, addDirs, svn);
      } else {
        var g1 := MoveUp(groups, d);
        PassReadyStep(keys, groups);
        StuckMove(groups, d);
        PassNoProgress(keys[1..], g1, true, addDirs, svn);
        QuietSame(keys[1..], groups, g1, addDirs, svn);
        assert StuckDel(d, groups, addDirs, svn);
      }
    }
  }

  /** A pass over quiet directories changes no list, and reports a change
    * exactly when one of them is stuck. */
  lemma {:induction false} QuietPass(keys: seq<string>, groups: seq<DirFiles>, changed: bool,
                                     addDirs: seq<string>, svn: Svn)
    requires PassReady(keys, groups) && forall k :: k in keys ==> Quiet(k, groups, addDirs, svn)
    ensures var r := PassFrom(keys, groups, changed, addDirs, svn);
            && r.Ok? && SameLookups(r.value.groups, groups) && SameDirs(r.value.groups, groups)
            && (r.value.changed <==> changed || exists k :: k in keys && StuckDel(k, groups, addDirs, svn))
    decreases |keys|
  {
    if keys != [] {
      PassAdvance(keys, groups, changed, addDirs, svn);
      var d := keys[0];
      assert Quiet(d, groups, addDirs, svn);
      assert forall k :: k in keys[1..] ==> k in keys;
      if StuckDel(d, groups, addDirs, svn) {
        var g1 := MoveUp(groups, d);
        StuckMove(groups, d);
        QuietSame(keys[1..], g1, groups, addDirs, svn);
        QuietPass(keys[1..], g1, true, addDirs, svn);
      } else {
        QuietPass(keys[1..], groups, changed, addDirs, svn);
        assert forall k :: k in keys ==> k == d || k in keys[1..];
      }
    }
  }

  /** From a stuck state the next pass reports a change, changes no list
    * and leaves a stuck state: the source's while loop never ends. */
  lemma StuckForever(groups: seq<DirFiles>, addDirs: seq<string>, svn: Svn)
    requires Stuck(groups, addDirs, svn)
    ensures var p := PassFrom(Dirs(groups), groups, false, addDirs, svn);
            && p.Ok? && p.value.changed && SameLookups(p.value.groups, groups)
            && Stuck(p.value.groups, addDirs, svn)
  {
    QuietPass(Dirs(groups), groups, false, addDirs, svn);
    var g := PassFrom(Dirs(groups), groups, false, addDirs, svn).value.groups;
    var k :| k in Dirs(groups) && StuckDel(k, groups, addDirs, svn);
    assert Lookup(g, k) == Lookup(groups, k);
    assert StuckDel(k, g, addDirs, svn);
    forall j | j in Dirs(g)
      ensures Quiet(j, g, addDirs, svn)
    {
      assert Lookup(g, j) == Lookup(groups, j);
    }
  }

  /** A pass that reports a change lowers the measure unless the state is
    * stuck. */
  lemma PassProgress(groups: seq<DirFiles>, addDirs: seq<string>, svn: Svn)
    requires NoDups(Dirs(groups))
    ensures var p := PassFrom(Dirs(groups), groups, false, addDirs, svn);
            p.Ok? && p.value.changed && !Stuck(groups, addDirs, svn) ==> Measure(p.value.groups) < Measure(groups)
  {
    PassNoProgress(Dirs(groups), groups, false, addDirs, svn);
  }

  /** The passes until one changes nothing; a stuck state is the loop that
    * never ends. */
  function Settle(groups: seq<DirFiles>, addDirs: seq<string>, svn: Svn): Result<seq<DirFiles>>
    requires NoDups(Dirs(groups))
    decreases Measure(groups)
  {
    var p := PassFrom(Dirs(groups), groups, false, addDirs, svn);
    if p.Err? then Err(p.exc)
    else if !p.value.changed then Ok(groups)
    else if Stuck(groups, addDirs, svn) then Raise(LoopsForever, "every pass finds a directory that is its own parent deleted")
    else
      PassProgress(groups, addDirs, svn);
      Settle(p.value.groups, addDirs, svn)
  }

  /** One directory of a pass. */
  lemma PassAdvance(keys: seq<string>, groups: seq<DirFiles>, changed: bool, addDirs: seq<string>, svn: Svn)
    requires keys != [] && PassReady(keys, groups)
    ensures var d := keys[0];
            var del := IsDirDeleted(d, Lookup(groups, d), addDirs, svn);
            && (del.Err? ==> PassFrom(keys, groups, changed, addDirs, svn) == Err(del.exc))
            && (del.Ok? && !del.value ==>
                  PassReady(keys[1..], groups) &&
                  PassFrom(keys, groups, changed, addDirs, svn) == PassFrom(keys[1..], groups, changed, addDirs, svn))
            && (del.Ok? && del.value ==>
                  PassReady(keys[1..], MoveUp(groups, d)) &&
                  PassFrom(keys, groups, changed, addDirs, svn) == PassFrom(keys[1..], MoveUp(groups, d), true, addDirs, svn))
  {
    var d := keys[0];
    var del := IsDirDeleted(d, Lookup(groups, d), addDirs, svn);
    if del.Ok? && del.value {
      PassReadyStep(keys, groups);
    }
  }

  /** One pass, as the `for` loop over the dict's snapshot runs it. */
  method RunPass(groups0: seq<DirFiles>, addDirs: seq<string>, svn: Svn) returns (r: Result<PassResult>)
    requires NoDups(Dirs(groups0))
    ensures r == PassFrom(Dirs(groups0), groups0, false, addDirs, svn)
  {
    var keys := Dirs(groups0);
    var groups, changed := groups0, false;
    var i := 0;
    while i < |keys|
      invariant 0 <= i <= |keys| && PassReady(keys[i..], groups)
      invariant PassFrom(keys, groups0, false, addDirs, svn) == PassFrom(keys[i..], groups, changed, addDirs, svn)
    {
      assert keys[i..][0] == keys[i] && keys[i..][1..] == keys[i + 1..];
      PassAdvance(keys[i..], groups, changed, addDirs, svn);
      var d := keys[i];
      var del := IsDirDeleted(d, Lookup(groups, d), addDirs, svn);
      if del.Err? {
        return Err(del.exc);
      }
      if del.value {
        groups := MoveUp(groups, d);
        changed := true;
      }
      i := i + 1;
    }
    assert keys[i..] == [];
    return Ok(PassResult(groups, changed));
  }

  /** The `while recursive_detect_empty_dir` loop. */
  method SettleDirs(groups0: seq<DirFiles>, addDirs: seq<string>, svn: Svn) returns (r: Result<seq<DirFiles>>)
    requires NoDups(Dirs(groups0))
    ensures r == Settle(groups0, addDirs, svn)
  {
    var groups := groups0;
    var changed := true;
    while changed
      invariant NoDups(Dirs(groups))
      invariant changed ==> Settle(groups0, addDirs, svn) == Settle(groups, addDirs, svn)
      invariant !changed ==> Settle(groups0, addDirs, svn) == Ok(groups)
      decreases if changed then Measure(groups) + 1 else 0
    {
      var p := RunPass(groups, addDirs, svn);
      if p.Err? {
        return Err(p.exc);
      }
      if p.value.changed && Stuck(groups, addDirs, svn) {
        return Raise(LoopsForever, "every pass finds a directory that is its own parent deleted");
      }
      PassProgress(groups, addDirs, svn);
      groups, changed := p.value.groups, p.value.changed;
    }
    return Ok(groups);
  }

  /** Every listed path, group after group. */
  function Entries(groups: seq<DirFiles>): seq<string>
  {
    if groups == [] then [] else groups[0].files + Entries(groups[1..])
  }

  /** Update and remove each path, one at a time. */
  function Removals(paths: seq<string>): (r: seq<Effect>)
    ensures |r| == 2 * |paths|
  {
    if paths == [] then [] else [SvnUpdate([paths[0]], None), SvnRemove(paths[0])] + Removals(paths[1..])
  }

  /** The directory of every file. */
  function DirsOf(paths: seq<string>): (r: seq<string>)
    ensures |r| == |paths| && forall i :: 0 <= i < |paths| ==> r[i] == Dirname(paths[i])
  {
    if paths == [] then [] else [Dirname(paths[0])] + DirsOf(paths[1..])
  }

  /** `svn_replicate_delete`: group the files by directory, let deleted
    * directories replace their files until nothing changes, then update
    * and remove what is left. */
  function ReplicatedDelete(dels: seq<P4File>, adds: seq<P4File>, svn: Svn): Outcome
  {
    var groups := ByDir(FixedFiles(dels));
    ByDirNoDups(FixedFiles(dels));
    var settled := Settle(groups, DirsOf(FixedFiles(adds)), svn);
    if settled.Err? then Outcome([], Err(settled.exc))
    else Outcome(Removals(Entries(settled.value)), Ok(Entries(settled.value)))
  }

  lemma {:induction false} ByDirNoDups(files: seq<string>)
    ensures NoDups(Dirs(ByDir(files)))
  {
    if files != [] {
      ByDirNoDups(files[..|files| - 1]);
      InsertNoDups(ByDir(files[..|files| - 1]), Dirname(files[|files| - 1]), files[|files| - 1]);
    }
  }

  method ReplicateDelete(dels: seq<P4File>, adds: seq<P4File>, svn: Svn) returns (o: Outcome)
    ensures o == ReplicatedDelete(dels, adds, svn)
  {
    var groups := GroupByDir(FixedFiles(dels));
    ByDirNoDups(FixedFiles(dels));
    var settled := SettleDirs(groups, DirsOf(FixedFiles(adds)), svn);
    if settled.Err? {
      return Outcome([], Err(settled.exc));
    }
    var effects, submitted := RemoveEntries(settled.value);
    return Outcome(effects, Ok(submitted));
  }

  /** The last loop of `svn_replicate_delete`: every path left is updated,
    * removed and reported. */
  method RemoveEntries(groups: seq<DirFiles>) returns (effects: seq<Effect>, submitted: seq<string>)
    ensures submitted == Entries(groups) && effects == Removals(submitted)
  {
    effects, submitted := [], [];
    var i := 0;
    while i < |groups|
      invariant 0 <= i <= |groups|
      invariant Entries(groups) == submitted + Entries(groups[i..])
      invariant effects == Removals(submitted)
    {
      var g := groups[i];
      assert groups[i..] == [g] + groups[i + 1..];
      AppendAssoc(submitted, g.files, Entries(groups[i + 1..]));
      RemovalsAppend(submitted, g.files);
      effects := effects + Removals(g.files);
      submitted := submitted + g.files;
      i := i + 1;
    }
    assert groups[i..] == [];
  }

  lemma {:induction false} RemovalsAppend(a: seq<string>, b: seq<string>)
    ensures Removals(a + b) == Removals(a) + Removals(b)
  {
    if a != [] {
      assert (a + b)[1..] == a[1..] + b;
      RemovalsAppend(a[1..], b);
    } else {
      assert a + b == b;
    }
  }

  // What the removal leaves

  /** `e` is `f` or one of the directories above it. */
  predicate Within(e: string, f: string)
    decreases |f|
  {
    f == e || (HasParent(f) && Within(e, Dirname(f)))
  }

  lemma {:induction false} WithinParent(e: string, f: string)
    requires Within(e, f) && HasParent(e)
    ensures Within(Dirname(e), f)
    decreases |f|
  {
    if f != e {
      WithinParent(e, Dirname(f));
    }
  }

  /** Every path sits in the list of its own directory. */
  ghost predicate Placed(groups: seq<DirFiles>)
  {
    forall k, e :: e in Lookup(groups, k) ==> Dirname(e) == k
  }

  /** Every path listed is a deleted file or has no added file in or below
    * it. */
  ghost predicate Justified(groups: seq<DirFiles>, dels: seq<string>, addDirs: seq<string>)
  {
    forall k, e :: e in Lookup(groups, k) ==> e in dels || NoAddedIn(e, addDirs)
  }

  /** Every deleted file is listed, or one of its directories is. */
  ghost predicate CoversAll(groups: seq<DirFiles>, dels: seq<string>)
  {
    forall f :: f in dels ==> exists k, e :: e in Lookup(groups, k) && Within(e, f)
  }

  ghost predicate Kept(groups: seq<DirFiles>, dels: seq<string>, addDirs: seq<string>)
  {
    Placed(groups) && Justified(groups, dels, addDirs) && CoversAll(groups, dels)
  }

  lemma MoveUpLookup(groups: seq<DirFiles>, d: string, k: string)
    ensures Lookup(MoveUp(groups, d), k) ==
            (if k == d then [] else Lookup(groups, k)) + (if k == Dirname(d) then [d] else [])
  {
    LookupInsert(Remove(groups, d), Dirname(d), d, k);
  }

  lemma PlacedMoveUp(groups: seq<DirFiles>, d: string)
    requires Placed(groups)
    ensures Placed(MoveUp(groups, d))
  {
    forall k, e | e in Lookup(MoveUp(groups, d), k)
      ensures Dirname(e) == k
    {
      MoveUpLookup(groups, d, k);
    }
  }

  lemma JustifiedMoveUp(groups: seq<DirFiles>, d: string, dels: seq<string>, addDirs: seq<string>)
    requires Justified(groups, dels, addDirs) && NoAddedIn(d, addDirs)
    ensures Justified(MoveUp(groups, d), dels, addDirs)
  {
    forall k, e | e in Lookup(MoveUp(groups, d), k)
      ensures e in dels || NoAddedIn(e, addDirs)
    {
      MoveUpLookup(groups, d, k);
    }
  }

  /** A file covered by a listed path stays covered when that path's
    * directory moves up. */
  lemma CoveredMoveUp(groups: seq<DirFiles>, d: string, f: string, k: string, e: string)
    returns (k': string, e': string)
    requires Placed(groups)
    requires e in Lookup(groups, k) && Within(e, f)
    ensures e' in Lookup(MoveUp(groups, d), k') && Within(e', f)
  {
    MoveUpLookup(groups, d, k);
    if k == d {
      if e != d {
        if !HasParent(e) {
          DirnameSelf(e);
        }
        WithinParent(e, f);
      }
      MoveUpLookup(groups, d, Dirname(d));
      k', e' := Dirname(d), d;
    } else {
      k', e' := k, e;
    }
  }

  lemma CoversMoveUp(groups: seq<DirFiles>, d: string, dels: seq<string>)
    requires Placed(groups) && CoversAll(groups, dels)
    ensures CoversAll(MoveUp(groups, d), dels)
  {
    forall f | f in dels
      ensures exists k, e :: e in Lookup(MoveUp(groups, d), k) && Within(e, f)
    {
      var k, e :| e in Lookup(groups, k) && Within(e, f);
      var k', e' := CoveredMoveUp(groups, d, f, k, e);
    }
  }

  /** A directory found deleted moving up keeps all three facts. */
  lemma MoveUpKeeps(groups: seq<DirFiles>, d: string, dels: seq<string>, addDirs: seq<string>)
    requires Kept(groups, dels, addDirs) && NoAddedIn(d, addDirs)
    ensures Kept(MoveUp(groups, d), dels, addDirs)
  {
    PlacedMoveUp(groups, d);
    JustifiedMoveUp(groups, d, dels, addDirs);
    CoversMoveUp(groups, d, dels);
  }

  lemma {:induction false} PassKeeps(keys: seq<string>, groups: seq<DirFiles>, changed: bool,
                                     dels: seq<string>, addDirs: seq<string>, svn: Svn)
    requires PassReady(keys, groups) && Kept(groups, dels, addDirs)
    ensures var r := PassFrom(keys, groups, changed, addDirs, svn);
            r.Ok? ==> Kept(r.value.groups, dels, addDirs)
    decreases |keys|
  {
    if keys != [] {
      PassAdvance(keys, groups, changed, addDirs, svn);
      var d := keys[0];
      var del := IsDirDeleted(d, Lookup(groups, d), addDirs, svn);
      if del.Ok? && !del.value {
        PassKeeps(keys[1..], groups, changed, dels, addDirs, svn);
      } else if del.Ok? {
        MoveUpKeeps(groups, d, dels, addDirs);
        PassKeeps(keys[1..], MoveUp(groups, d), true, dels, addDirs, svn);
      }
    }
  }

  lemma {:induction false} SettleKeeps(groups: seq<DirFiles>, dels: seq<string>, addDirs: seq<string>, svn: Svn)
    requires NoDups(Dirs(groups)) && Kept(groups, dels, addDirs)
    ensures Settle(groups, addDirs, svn).Ok? ==> Kept(Settle(groups, addDirs, svn).value, dels, addDirs) &&
                                                 NoDups(Dirs(Settle(groups, addDirs, svn).value))
    decreases Measure(groups)
  {
    PassKeeps(Dirs(groups), groups, false, dels, addDirs, svn);
    var p := PassFrom(Dirs(groups), groups, false, addDirs, svn);
    if p.Ok? && p.value.changed && !Stuck(groups, addDirs, svn) {
      PassProgress(groups, addDirs, svn);
      SettleKeeps(p.value.groups, dels, addDirs, svn);
    }
  }

  lemma {:induction false} FilesInFacts(files: seq<string>, k: string, e: string)
    ensures e in FilesIn(files, k) ==> e in files && Dirname(e) == k
    ensures e in files && Dirname(e) == k ==> e in FilesIn(files, k)
  {
    if files != [] {
      var init := files[..|files| - 1];
      FilesInFacts(init, k, e);
      assert files == init + [files[|files| - 1]];
    }
  }

  lemma ByDirPlaced(dels: seq<string>, k: string, e: string)
    requires e in Lookup(ByDir(dels), k)
    ensures Dirname(e) == k && e in dels
  {
    ByDirLookup(dels, k);
    FilesInFacts(dels, k, e);
  }

  lemma ByDirHolds(dels: seq<string>, f: string)
    requires f in dels
    ensures f in Lookup(ByDir(dels), Dirname(f))
  {
    ByDirLookup(dels, Dirname(f));
    FilesInFacts(dels, Dirname(f), f);
  }

  lemma ByDirKept(dels: seq<string>, addDirs: seq<string>)
    ensures Kept(ByDir(dels), dels, addDirs)
  {
    ByDirJustified(dels, addDirs);
    ByDirCovers(dels);
  }

  lemma ByDirJustified(dels: seq<string>, addDirs: seq<string>)
    ensures Placed(ByDir(dels)) && Justified(ByDir(dels), dels, addDirs)
  {
    var g := ByDir(dels);
    forall k, e | e in Lookup(g, k)
      ensures Dirname(e) == k
    {
      ByDirPlaced(dels, k, e);
    }
    assert Placed(g);
    forall k, e | e in Lookup(g, k)
      ensures e in dels
    {
      ByDirPlaced(dels, k, e);
    }
  }

  lemma ByDirCovers(dels: seq<string>)
    ensures CoversAll(ByDir(dels), dels)
  {
    forall f | f in dels
      ensures exists k, e :: e in Lookup(ByDir(dels), k) && Within(e, f)
    {
      ByDirHolds(dels, f);
      assert Within(f, f);
    }
  }

  lemma {:induction false} LookupEntries(groups: seq<DirFiles>, k: string, e: string)
    requires e in Lookup(groups, k)
    ensures e in Entries(groups)
  {
    if groups[0].dir != k {
      LookupEntries(groups[1..], k, e);
    }
  }

  /** With each directory once, a listed path is in its directory's list. */
  lemma {:induction false} EntryDir(groups: seq<DirFiles>, e: string) returns (k: string)
    requires NoDups(Dirs(groups)) && e in Entries(groups)
    ensures e in Lookup(groups, k)
  {
    var g := groups[0];
    if e in g.files {
      k := g.dir;
    } else {
      assert Dirs(groups)[1..] == Dirs(groups[1..]);
      k := EntryDir(groups[1..], e);
      if k == g.dir {
        assert Dirs(groups)[0] == g.dir;
        LookupAbsent(groups[1..], k);
      }
    }
  }
  lemma {:induction false} LookupAbsent(groups: seq<DirFiles>, k: string)
    requires k !in Dirs(groups)
    ensures Lookup(groups, k) == []
  {
    if groups != [] {
      LookupAbsent(groups[1..], k);
    }
  }

  /** The settled groups keep the three facts. */
  lemma SettledKept(dels: seq<P4File>, adds: seq<P4File>, svn: Svn) returns (g: seq<DirFiles>)
    requires ReplicatedDelete(dels, adds, svn).result.Ok?
    ensures Entries(g) == ReplicatedDelete(dels, adds, svn).result.value
    ensures Kept(g, FixedFiles(dels), DirsOf(FixedFiles(adds))) && NoDups(Dirs(g))
  {
    var fixed, addDirs := FixedFiles(dels), DirsOf(FixedFiles(adds));
    ByDirNoDups(fixed);
    ByDirKept(fixed, addDirs);
    SettleKeeps(ByDir(fixed), fixed, addDirs, svn);
    g := Settle(ByDir(fixed), addDirs, svn).value;
  }

  /** `svn_replicate_delete` removes, for every deleted file, the file or
    * one of its directories; and it removes a directory only when no
    * added file lies in or below it. */
  lemma DeleteCoversAndSpares(dels: seq<P4File>, adds: seq<P4File>, svn: Svn)
    requires ReplicatedDelete(dels, adds, svn).result.Ok?
    ensures var out := ReplicatedDelete(dels, adds, svn).result.value;
            forall f :: f in FixedFiles(dels) ==> exists e :: e in out && Within(e, f)
    ensures var out := ReplicatedDelete(dels, adds, svn).result.value;
            forall e :: e in out ==> e in FixedFiles(dels) || NoAddedIn(e, DirsOf(FixedFiles(adds)))
  {
    var g := SettledKept(dels, adds, svn);
    forall f | f in FixedFiles(dels)
      ensures exists e :: e in Entries(g) && Within(e, f)
    {
      var k, e :| e in Lookup(g, k) && Within(e, f);
      LookupEntries(g, k, e);
    }
    forall e | e in Entries(g)
      ensures e in FixedFiles(dels) || NoAddedIn(e, DirsOf(FixedFiles(adds)))
    {
      var k := EntryDir(g, e);
    }
  }

  // ---------------------------------------------------------------------
  // svn_replicate_change

  predicate DeleteLike(action: string) { action == "delete" || action == "move/delete" }
  predicate AddLike(action: string) { action == "add" || action == "branch" || action == "move/add" }
  predicate EditLike(action: string) { action == "edit" || action == "integrate" }

  /** The actions whose files are updated and synced before anything else. */
  predicate InAdvance(action: string) { EditLike(action) || DeleteLike(action) }

  predicate Known(action: string) { AddLike(action) || EditLike(action) || DeleteLike(action) }

  function Advance(fs: seq<P4File>): (r: seq<P4File>)
    ensures forall f :: f in r <==> f in fs && InAdvance(f.action)
  {
    if fs == [] then [] else (if InAdvance(fs[0].action) then [fs[0]] else []) + Advance(fs[1..])
  }

  function Deletes(fs: seq<P4File>): (r: seq<P4File>)
    ensures forall f :: f in r <==> f in fs && DeleteLike(f.action)
  {
    if fs == [] then [] else (if DeleteLike(fs[0].action) then [fs[0]] else []) + Deletes(fs[1..])
  }

  function Adds(fs: seq<P4File>): (r: seq<P4File>)
    ensures forall f :: f in r <==> f in fs && AddLike(f.action)
  {
    if fs == [] then [] else (if AddLike(fs[0].action) then [fs[0]] else []) + Adds(fs[1..])
  }

  /** `[cf for cf in change_files if cf not in gone]`. */
  function Without(fs: seq<P4File>, gone: seq<P4File>): (r: seq<P4File>)
    ensures forall f :: f in r <==> f in fs && f !in gone
  {
    if fs == [] then [] else (if fs[0] in gone then [] else [fs[0]]) + Without(fs[1..], gone)
  }

  /** The files left once the deletes are taken out are those whose
    * action is not a delete, in order. */
  lemma {:induction false} WithoutDeletes(fs: seq<P4File>, all: seq<P4File>)
    requires forall f :: f in fs ==> f in all
    ensures Without(fs, Deletes(all)) == NotDeletes(fs)
  {
    if fs != [] {
      assert fs[0] in all;
      WithoutDeletes(fs[1..], all);
    }
  }

  function NotDeletes(fs: seq<P4File>): seq<P4File>
  {
    if fs == [] then [] else (if DeleteLike(fs[0].action) then [] else [fs[0]]) + NotDeletes(fs[1..])
  }

  /** The fixed paths of the files an edit or an integrate touches. */
  function Edited(fs: seq<P4File>): (r: seq<string>)
  {
    if fs == [] then [] else (if EditLike(fs[0].action) then [fs[0].fixedLocalFile] else []) + Edited(fs[1..])
  }

  /** What the per-file loop leaves: its effects, the list to submit, and
    * the exception that stopped it. */
  datatype Edits = Edits(effects: seq<Effect>, submit: seq<string>, err: Option<Exc>)

  /** The per-file loop of `svn_replicate_change`, from some point on. */
  function EditFrom(fs: seq<P4File>, effects: seq<Effect>, submit: seq<string>, svn: Svn): Edits
    decreases |fs|
  {
    if fs == [] then Edits(effects, submit, None)
    else
      var cf := fs[0];
      if AddLike(cf.action) || DeleteLike(cf.action) then EditFrom(fs[1..], effects, submit, svn)
      else if EditLike(cf.action) then
        EditFrom(fs[1..], effects + EditProps(cf.fixedLocalFile, svn), submit + [cf.fixedLocalFile], svn)
      else Edits(effects, submit, Some(Exc(NotImplementedError, "unsupported action: " + cf.action)))
  }

  /** The first action among the files that the script does not know. */
  function Unsupported(fs: seq<P4File>): (r: Option<string>)
    ensures r.Some? <==> exists f :: f in fs && !Known(f.action)
    ensures r.Some? ==> !Known(r.value)
  {
    if fs == [] then None
    else if !Known(fs[0].action) then Some(fs[0].action)
    else
      assert forall f :: f in fs ==> f == fs[0] || f in fs[1..];
      Unsupported(fs[1..])
  }

  /** Taking out the deletes leaves the first unknown action the same. */
  lemma {:induction false} UnsupportedNotDeletes(fs: seq<P4File>)
    ensures Unsupported(NotDeletes(fs)) == Unsupported(fs)
  {
    if fs != [] {
      UnsupportedNotDeletes(fs[1..]);
      if DeleteLike(fs[0].action) {
        assert NotDeletes(fs) == NotDeletes(fs[1..]);
      } else {
        assert NotDeletes(fs) == [fs[0]] + NotDeletes(fs[1..]);
        assert ([fs[0]] + NotDeletes(fs[1..]))[1..] == NotDeletes(fs[1..]);
      }
    }
  }

  /** The loop stops at the first action it does not know, naming it. */
  lemma {:induction false} EditFromStops(fs: seq<P4File>, effects: seq<Effect>, submit: seq<string>, svn: Svn)
    ensures EditFrom(fs, effects, submit, svn).err ==
            (if Unsupported(fs).None? then None
             else Some(Exc(NotImplementedError, "unsupported action: " + Unsupported(fs).value)))
    decreases |fs|
  {
    if fs != [] && Known(fs[0].action) {
      var cf := fs[0];
      if EditLike(cf.action) {
        EditFromStops(fs[1..], effects + EditProps(cf.fixedLocalFile, svn), submit + [cf.fixedLocalFile], svn);
      } else {
        EditFromStops(fs[1..], effects, submit, svn);
      }
    }
  }

  /** When it runs to the end, the loop appends the edited files to the
    * list, in order. */
  lemma {:induction false} EditFromSubmits(fs: seq<P4File>, effects: seq<Effect>, submit: seq<string>, svn: Svn)
    ensures var e := EditFrom(fs, effects, submit, svn);
            e.err.None? ==> e.submit == submit + Edited(fs)
    decreases |fs|
  {
    if fs != [] && Known(fs[0].action) {
      var cf := fs[0];
      if EditLike(cf.action) {
        EditFromSubmits(fs[1..], effects + EditProps(cf.fixedLocalFile, svn), submit + [cf.fixedLocalFile], svn);
        AppendAssoc(submit, [cf.fixedLocalFile], Edited(fs[1..]));
      } else {
        EditFromSubmits(fs[1..], effects, submit, svn);
      }
    }
  }

  /** The loop as `svn_replicate_change` runs it. */
  method EditEach(fs: seq<P4File>, submit: seq<string>, svn: Svn) returns (e: Edits)
    ensures e == EditFrom(fs, [], submit, svn)
  {
    var effects, sub := [], submit;
    var i := 0;
    while i < |fs|
      invariant 0 <= i <= |fs|
      invariant EditFrom(fs, [], submit, svn) == EditFrom(fs[i..], effects, sub, svn)
    {
      var cf := fs[i];
      assert fs[i..][1..] == fs[i + 1..];
      if AddLike(cf.action) || DeleteLike(cf.action) {
        // added and deleted files were handled before the loop
      } else if EditLike(cf.action) {
        effects, sub := effects + EditProps(cf.fixedLocalFile, svn), sub + [cf.fixedLocalFile];
      } else {
        return Edits(effects, sub, Some(Exc(NotImplementedError, "unsupported action: " + cf.action)));
      }
      i := i + 1;
    }
    return Edits(effects, sub, None);
  }

  /** The result of replicating one change: the new Subversion revision,
    * if the commit made one. */
  datatype ChangeOutcome = ChangeOutcome(effects: seq<Effect>, result: Result<Option<nat>>)

  /** How the replication tag is written. */
  datatype Tagging = Tagging(srv: string, pattern: ScmRep.RepInfoPattern, prefix: bool)

  /** `submit_opened_files` of the Subversion side: the description with
    * its tag. */
  function CommitDesc(change: ScmP4Ingest.P4Change, tag: Tagging): string
  {
    ScmRep.FormatReplicateDesc(change.desc,
      ScmRep.FormatReplicationInfo(tag.pattern, ScmRep.Provenance(tag.srv, Some(change.change), change.user, change.time)),
      tag.prefix)
  }

  /** The updates and syncs done in advance. */
  function BeforeHand(files: seq<P4File>, rev: nat): seq<Effect>
  {
    UpdateGroups(Chunks(FixedFiles(Advance(files)), GroupSize)) +
    SyncGroups(Chunks(LocalFiles(Advance(files)), GroupSize), rev)
  }

  /** `svn_replicate_change`. */
  function ReplicatedChange(change: ScmP4Ingest.P4Change, files: seq<P4File>, svn: Svn, tag: Tagging): ChangeOutcome
  {
    var before := BeforeHand(files, change.change);
    var del := ReplicatedDelete(Deletes(files), Adds(files), svn);
    if del.result.Err? then ChangeOutcome(before + del.effects, Err(del.result.exc))
    else
      var add := ReplicatedAdd(Adds(files), change.change, svn);
      var done := before + del.effects + add.effects;
      if add.result.Err? then ChangeOutcome(done, Err(add.result.exc))
      else
        var e := EditFrom(Without(files, Deletes(files)), [], del.result.value + add.result.value, svn);
        if e.err.Some? then ChangeOutcome(done + e.effects, Err(e.err.value))
        else
          var desc := CommitDesc(change, tag);
          ChangeOutcome(done + e.effects + [Checkin(e.submit, desc)], Ok(svn.checkin(e.submit, desc)))
  }

  method ReplicateChange(change: ScmP4Ingest.P4Change, files: seq<P4File>, svn: Svn, tag: Tagging)
    returns (o: ChangeOutcome)
    ensures o == ReplicatedChange(change, files, svn, tag)
  {
    var fixedUpd := InGroups(FixedFiles(Advance(files)));
    var syncs := P4SyncFiles(LocalFiles(Advance(files)), change.change);
    var before := UpdateGroups(fixedUpd) + syncs;
    var del := ReplicateDelete(Deletes(files), Adds(files), svn);
    if del.result.Err? {
      return ChangeOutcome(before + del.effects, Err(del.result.exc));
    }
    var add := ReplicateAdd(Adds(files), change.change, svn);
    var done := before + del.effects + add.effects;
    if add.result.Err? {
      return ChangeOutcome(done, Err(add.result.exc));
    }
    var e := EditEach(Without(files, Deletes(files)), del.result.value + add.result.value, svn);
    if e.err.Some? {
      return ChangeOutcome(done + e.effects, Err(e.err.value));
    }
    var desc := CommitDesc(change, tag);
    return ChangeOutcome(done + e.effects + [Checkin(e.submit, desc)], Ok(svn.checkin(e.submit, desc)));
  }

  /** Once deletes and adds went through, the change fails exactly when
    * one of its files has an action the script does not know, with the
    * first such action named; otherwise the commit takes the removed
    * paths, the added paths and the edited files, in that order. */
  lemma ChangeRouting(change: ScmP4Ingest.P4Change, files: seq<P4File>, svn: Svn, tag: Tagging)
    requires ReplicatedDelete(Deletes(files), Adds(files), svn).result.Ok?
    requires ReplicatedAdd(Adds(files), change.change, svn).result.Ok?
    ensures var o := ReplicatedChange(change, files, svn, tag);
            o.result.Err? <==> exists f :: f in files && !Known(f.action)
    ensures var o := ReplicatedChange(change, files, svn, tag);
            o.result.Err? ==> o.result.exc == Exc(NotImplementedError, "unsupported action: " + Unsupported(files).value)
    ensures var o := ReplicatedChange(change, files, svn, tag);
            var submit := ReplicatedDelete(Deletes(files), Adds(files), svn).result.value +
                          ReplicatedAdd(Adds(files), change.change, svn).result.value + Edited(NotDeletes(files));
            o.result.Ok? ==> o.effects[|o.effects| - 1] == Checkin(submit, CommitDesc(change, tag)) &&
                             o.result.value == svn.checkin(submit, CommitDesc(change, tag))
  {
    var sub := ReplicatedDelete(Deletes(files), Adds(files), svn).result.value +
               ReplicatedAdd(Adds(files), change.change, svn).result.value;
    WithoutDeletes(files, files);
    UnsupportedNotDeletes(files);
    EditFromStops(NotDeletes(files), [], sub, svn);
    EditFromSubmits(NotDeletes(files), [], sub, svn);
  }

  /** With the default pattern, the tag of the commit reads back as the
    * Perforce change, whether it is put before or after the description
    * (after it, as long as the description does not open with a tag of
    * its own). */
  lemma CommitCarriesChange(change: ScmP4Ingest.P4Change, srv: string, prefix: bool)
    requires ScmRep.ValidProvenance(ScmRep.Provenance(srv, Some(change.change), change.user, change.time))
    requires !prefix ==> !ScmRep.TagAtFront(change.desc, ScmRep.ImportedFrom)
    ensures ScmRep.GetRevisionFromDesc(CommitDesc(change, Tagging(srv, ScmRep.DefaultPattern, prefix)), ScmRep.ImportedFrom)
         == change.change
  {
    var p := ScmRep.Provenance(srv, Some(change.change), change.user, change.time);
    if prefix {
      ScmRep.DecodePrefixedTag(change.desc, p);
    } else {
      ScmRep.DecodeSuffixedTag(change.desc, p);
    }
  }

  /** `verify_work_dir_root`: both tools must work in the same folder. */
  function VerifyWorkDirRoot(p4Root: string, svnRoot: string): (r: Result<()>)
    ensures r.Ok? <==> p4Root == svnRoot
    ensures r.Err? ==> r.exc.kind == P4ToSvnException
  {
    if p4Root != svnRoot then
      Raise(P4ToSvnException, "Svn Root Folder and P4 Root Folder must be the same." + svnRoot + " != " + p4Root)
    else Ok(())
  }
}
