/** Subversion-to-Perforce replication of one revision: the changed paths
  * `svn log -v` reports are replayed on a Perforce workspace that shares
  * the Subversion working copy's root, and the opened files are then
  * submitted with the replication tag. */
module SubversionToPerforce {
  import opened Common
  import opened Strings
  import opened ScmSvn
  import opened ScmP4Ingest
  import ScmP4Names
  import ScmP4Integrate
  import ScmP4Replay

  /** What the replication does: a Perforce command on the target
    * workspace, or a directory removed or moved on disk. */
  datatype Effect = Run(cmd: P4Cmd) | RemoveTree(path: string) | MoveTree(src: string, dst: string)

  /** The shared disk and the Perforce workspace, as the handlers consult
    * them. */
  datatype Workspace = Workspace(
    isDir: string -> bool,               // os.path.isdir
    present: string -> bool,             // os.path.isfile or os.path.islink
    isLink: string -> bool,              // os.path.islink
    isExecutable: string -> bool,        // an owner or group execute bit in os.lstat
    files: seq<string>,                  // the files on disk, full paths, in walk order
    isP4Dir: string -> bool,             // `p4 dirs` reports the path
    inWorkspace: string -> bool,         // file_in_workspace
    addReply: string -> seq<string>,     // the output lines of `p4 add -f`
    editWarnings: string -> seq<string>) // the warnings `p4 edit` leaves

  /** The effects of a handler and the exception that stopped it. */
  datatype Done = Done(effects: seq<Effect>, err: Option<Exc>)

  function Then(pre: seq<Effect>, d: Done): Done { Done(pre + d.effects, d.err) }

  /** Some line of a reply contains `text`. */
  predicate Mentions(lines: seq<string>, text: string)
  {
    exists i :: 0 <= i < |lines| && Contains(lines[i], text)
  }

  // ---------------------------------------------------------------------
  // Adding

  /** `p4_run_add`: `p4 add -f`, and when the file is still opened for
    * delete, a revert and an edit that keep the disk file, on the
    * wildcard-escaped name. */
  function AddFile(path: string, ws: Workspace): (r: seq<Effect>)
    ensures |r| >= 1 && r[0] == Run(P4Cmd(Add, ["-f", path]))
    ensures forall i :: 1 <= i < |r| ==> r[i].Run? && !r[i].cmd.op.Add?
    ensures |r| > 1 <==> Mentions(ws.addReply(path), "already opened for delete")
  {
    var add := Run(P4Cmd(Add, ["-f", path]));
    if Mentions(ws.addReply(path), "already opened for delete") then
      var escaped := ScmP4Names.EncodeWildcards(path);
      [add, Run(P4Cmd(Revert, ["-k", escaped])), Run(P4Cmd(Edit, ["-k", escaped]))]
    else [add]
  }

  /** A relative path that lies inside a `.svn` directory at some level:
    * `os.walk` is told not to descend into those. */
  predicate InAdminDir(rel: string)
  {
    var parts := Split(rel, '/');
    exists k :: 0 <= k < |parts| - 1 && parts[k] == ".svn"
  }

  /** A file the walk of `dir` lists. */
  predicate Walked(dir: string, f: string)
  {
    StartsWith(f, dir + "/") && !InAdminDir(f[|dir| + 1..])
  }

  /** The adds of the files in `files` that the walk of `dir` lists. */
  function AddWalked(dir: string, files: seq<string>, ws: Workspace): seq<Effect>
  {
    if files == [] then []
    else (if Walked(dir, files[0]) then AddFile(files[0], ws) else []) + AddWalked(dir, files[1..], ws)
  }

  /** The walk of a directory, adding every file it lists. */
  method AddTree(dir: string, ws: Workspace) returns (effects: seq<Effect>)
    ensures effects == AddWalked(dir, ws.files, ws)
  {
    effects := [];
    var i := 0;
    while i < |ws.files|
      invariant 0 <= i <= |ws.files|
      invariant AddWalked(dir, ws.files, ws) == effects + AddWalked(dir, ws.files[i..], ws)
    {
      assert ws.files[i..][0] == ws.files[i] && ws.files[i..][1..] == ws.files[i + 1..];
      var f := ws.files[i];
      var more := if Walked(dir, f) then AddFile(f, ws) else [];
      AppendAssoc(effects, more, AddWalked(dir, ws.files[i + 1..], ws));
      effects := effects + more;
      i := i + 1;
    }
  }

  /** The file an add command is for. */
  predicate AddsFile(e: Effect, f: string)
  {
    e == Run(P4Cmd(Add, ["-f", f]))
  }

  /** Adding a directory adds exactly the files its walk lists: every file
    * below it that is not inside a `.svn` directory, and nothing else. */
  lemma {:induction false} AddWalkedExactly(dir: string, files: seq<string>, ws: Workspace, f: string)
    ensures (exists e :: e in AddWalked(dir, files, ws) && AddsFile(e, f)) <==> f in files && Walked(dir, f)
    decreases |files|
  {
    if files != [] {
      AddWalkedExactly(dir, files[1..], ws, f);
      var head := if Walked(dir, files[0]) then AddFile(files[0], ws) else [];
      var rest := AddWalked(dir, files[1..], ws);
      assert AddWalked(dir, files, ws) == head + rest;
      if f in files && Walked(dir, f) && f !in files[1..] {
        assert f == files[0];
        assert AddsFile(head[0], f);
      }
      forall e | e in head && AddsFile(e, f)
        ensures f == files[0] && Walked(dir, f)
      {
        var i :| 0 <= i < |head| && head[i] == e;
        assert i == 0;
      }
    }
  }

  /** `p4_process_action_add`: a directory is walked, a file or link is
    * added, and a missing path is only logged. */
  function AddAction(path: string, ws: Workspace): seq<Effect>
  {
    if ws.isDir(path) then AddWalked(path, ws.files, ws)
    else if ws.present(path) then AddFile(path, ws)
    else []
  }

  // ---------------------------------------------------------------------
  // Editing, modifying, deleting, replacing

  /** The file type an edit opens a file with. */
  function EditType(path: string, ws: Workspace): string
  {
    if ws.isLink(path) then "symlink" else if ws.isExecutable(path) then "+x" else "auto"
  }

  /** `p4_edit_file`: sync the have-revision without touching the disk,
    * open for edit with the file's type, and fall back to an add when the
    * server says the file is not on the client. `os.lstat` of a missing
    * file raises. */
  function EditFile(path: string, fixed: string, ws: Workspace): (d: Done)
    ensures |d.effects| >= 1 && d.effects[0] == Run(P4Cmd(Sync, ["-k", fixed]))
    ensures d.err.Some? <==> !ws.present(path)
    ensures d.err.None? ==>
              (Run(P4Cmd(Edit, ["-t", "symlink", fixed])) in d.effects <==> ws.isLink(path)) &&
              (Run(P4Cmd(Edit, ["-t", "+x", fixed])) in d.effects <==> !ws.isLink(path) && ws.isExecutable(path)) &&
              (Run(P4Cmd(Edit, ["-t", "auto", fixed])) in d.effects <==> !ws.isLink(path) && !ws.isExecutable(path))
    ensures Run(P4Cmd(Add, ["-f", path])) in d.effects <==>
              ws.present(path) && Mentions(ws.editWarnings(fixed), "not on client")
  {
    var sync := Run(P4Cmd(Sync, ["-k", fixed]));
    if !ws.present(path) then
      Done([sync], Some(Exc(OSError, "[Errno 2] No such file or directory: '" + path + "'")))
    else
      var edit := Run(P4Cmd(Edit, ["-t", EditType(path, ws), fixed]));
      if Mentions(ws.editWarnings(fixed), "not on client") then Done([sync, edit, Run(P4Cmd(Add, ["-f", path]))], None)
      else Done([sync, edit], None)
  }

  /** `p4_process_action_mod`: a Perforce directory needs nothing, an
    * untracked directory is only logged, anything else is edited. */
  function ModAction(path: string, fixed: string, ws: Workspace): (d: Done)
    ensures ws.isP4Dir(fixed) || ws.isDir(path) ==> d == Done([], None)
  {
    if ws.isP4Dir(fixed) || ws.isDir(path) then Done([], None)
    else EditFile(path, fixed, ws)
  }

  /** `p4_process_action_del`: a Perforce directory has every file below
    * it synced and deleted and is removed from disk; an untracked
    * directory is only logged; a file is deleted without touching the
    * disk. */
  function DelAction(path: string, fixed: string, ws: Workspace): (r: seq<Effect>)
    ensures forall e :: e in r && e.Run? ==> e.cmd.op.Sync? || e.cmd.op.Delete?
  {
    if ws.isP4Dir(fixed) then
      var all := fixed + "/...";
      [Run(P4Cmd(Sync, ["-f", all])), Run(P4Cmd(Delete, [all])), RemoveTree(path)]
    else if ws.isDir(path) then []
    else [Run(P4Cmd(Delete, ["-v", fixed]))]
  }

  /** `p4_process_action_rep`: a replaced Perforce directory is moved
    * aside, deleted in Perforce and on disk, and moved back; an untracked
    * directory is only logged; a file is edited. */
  function RepAction(path: string, fixed: string, ws: Workspace): (d: Done)
    ensures ws.isP4Dir(fixed) ==> d.err.None? && |d.effects| == 5 &&
                                  d.effects[0] == MoveTree(fixed, fixed + "_copied_tmp") &&
                                  d.effects[4] == MoveTree(fixed + "_copied_tmp", fixed)
  {
    if ws.isP4Dir(fixed) then
      var tmp := fixed + "_copied_tmp";
      var all := fixed + "/...";
      Done([MoveTree(fixed, tmp), Run(P4Cmd(Sync, ["-f", all])), Run(P4Cmd(Delete, [all])), RemoveTree(fixed),
            MoveTree(tmp, fixed)], None)
    else if ws.isDir(path) then Done([], None)
    else EditFile(path, fixed, ws)
  }

  /** The message for an action letter the replication does not know. */
  function UnknownAction(cp: ChangedPath): string
  {
    "unknown action " + [cp.action] + " for " + cp.path
  }

  predicate KnownAction(a: char) { a == 'A' || a == 'M' || a == 'R' || a == 'D' }

  /** One changed path: skipped outside the workspace, otherwise handed to
    * the handler its action letter names. */
  function Dispatch(cp: ChangedPath, ws: Workspace): (d: Done)
    ensures !ws.inWorkspace(cp.path) ==> d == Done([], None)
    ensures d.err.Some? && d.err.value.kind == SvnToP4Exception <==> ws.inWorkspace(cp.path) && !KnownAction(cp.action)
    ensures d.err.Some? && d.err.value.kind == SvnToP4Exception ==> d.err.value.msg == UnknownAction(cp)
  {
    if !ws.inWorkspace(cp.path) then Done([], None)
    else
      var fixed := ScmP4Names.EncodeWildcards(cp.path);
      if cp.action == 'A' then Done(AddAction(cp.path, ws), None)
      else if cp.action == 'M' then ModAction(cp.path, fixed, ws)
      else if cp.action == 'R' then RepAction(cp.path, fixed, ws)
      else if cp.action == 'D' then Done(DelAction(cp.path, fixed, ws), None)
      else Done([], Some(Exc(SvnToP4Exception, UnknownAction(cp))))
  }

  // ---------------------------------------------------------------------
  // Ordering

  /** The sort key: replacements first. */
  function Key(cp: ChangedPath): nat { if cp.action == 'R' then 0 else 1 }

  /** The paths whose action is (or is not) a replacement, in order. */
  function Only(cps: seq<ChangedPath>, replaced: bool): (r: seq<ChangedPath>)
    ensures forall i :: 0 <= i < |r| ==> (r[i].action == 'R') == replaced
    ensures |r| <= |cps|
  {
    if cps == [] then []
    else (if (cps[0].action == 'R') == replaced then [cps[0]] else []) + Only(cps[1..], replaced)
  }

  /** `sorted(changed_paths, key=0 for 'R' else 1)`, a stable sort. */
  function ReplacementsFirst(cps: seq<ChangedPath>): seq<ChangedPath>
  {
    Only(cps, true) + Only(cps, false)
  }

  lemma {:induction false} OnlySplits(cps: seq<ChangedPath>)
    ensures multiset(Only(cps, true)) + multiset(Only(cps, false)) == multiset(cps)
  {
    if cps != [] {
      OnlySplits(cps[1..]);
      var x := cps[0];
      assert cps == [x] + cps[1..];
      assert multiset(cps) == multiset{x} + multiset(cps[1..]);
      if x.action == 'R' {
        assert Only(cps, true) == [x] + Only(cps[1..], true);
        assert Only(cps, false) == Only(cps[1..], false);
      } else {
        assert Only(cps, true) == Only(cps[1..], true);
        assert Only(cps, false) == [x] + Only(cps[1..], false);
      }
    }
  }

  /** The reordering is a permutation. */
  lemma ReplacementsFirstPermutes(cps: seq<ChangedPath>)
    ensures multiset(ReplacementsFirst(cps)) == multiset(cps)
  {
    OnlySplits(cps);
  }

  /** The reordering is sorted by the key. */
  lemma ReplacementsFirstSorted(cps: seq<ChangedPath>)
    ensures var r := ReplacementsFirst(cps);
            forall i, j :: 0 <= i < j < |r| ==> Key(r[i]) <= Key(r[j])
  {
    var a, b := Only(cps, true), Only(cps, false);
    var r := a + b;
    forall i, j | 0 <= i < j < |r|
      ensures Key(r[i]) <= Key(r[j])
    {
      if i < |a| {
        assert r[i] == a[i];
      } else {
        assert r[i] == b[i - |a|] && r[j] == b[j - |a|];
      }
    }
  }

  lemma {:induction false} OnlyAppend(x: seq<ChangedPath>, y: seq<ChangedPath>, replaced: bool)
    ensures Only(x + y, replaced) == Only(x, replaced) + Only(y, replaced)
  {
    if x != [] {
      assert (x + y)[1..] == x[1..] + y;
      OnlyAppend(x[1..], y, replaced);
    } else {
      assert x + y == y;
    }
  }

  lemma {:induction false} OnlyOnly(cps: seq<ChangedPath>, replaced: bool, other: bool)
    ensures Only(Only(cps, replaced), other) == if replaced == other then Only(cps, replaced) else []
  {
    if cps != [] {
      OnlyOnly(cps[1..], replaced, other);
      var head := if (cps[0].action == 'R') == replaced then [cps[0]] else [];
      OnlyAppend(head, Only(cps[1..], replaced), other);
    }
  }

  /** The reordering is stable: the replacements, and the other paths,
    * keep their relative order. */
  lemma ReplacementsFirstStable(cps: seq<ChangedPath>, replaced: bool)
    ensures Only(ReplacementsFirst(cps), replaced) == Only(cps, replaced)
  {
    OnlyAppend(Only(cps, true), Only(cps, false), replaced);
    OnlyOnly(cps, true, replaced);
    OnlyOnly(cps, false, replaced);
  }

  // ---------------------------------------------------------------------
  // Replicating a revision

  /** The dispatch loop: the paths in order, stopping at the first
    * exception. */
  function ProcessAll(cps: seq<ChangedPath>, ws: Workspace): Done
    decreases |cps|
  {
    if cps == [] then Done([], None)
    else
      var d := Dispatch(cps[0], ws);
      if d.err.Some? then d else Then(d.effects, ProcessAll(cps[1..], ws))
  }

  /** The paths inside the workspace, in order. */
  function InWorkspace(cps: seq<ChangedPath>, ws: Workspace): (r: seq<ChangedPath>)
    ensures forall i :: 0 <= i < |r| ==> ws.inWorkspace(r[i].path)
    ensures forall cp :: cp in r ==> cp in cps
  {
    if cps == [] then []
    else (if ws.inWorkspace(cps[0].path) then [cps[0]] else []) + InWorkspace(cps[1..], ws)
  }

  /** Paths outside the workspace change nothing: the loop does what it
    * would do over the paths inside it alone. */
  lemma {:induction false} OutsideSkipped(cps: seq<ChangedPath>, ws: Workspace)
    ensures ProcessAll(cps, ws) == ProcessAll(InWorkspace(cps, ws), ws)
    decreases |cps|
  {
    if cps != [] {
      OutsideSkipped(cps[1..], ws);
      var rest := InWorkspace(cps[1..], ws);
      if ws.inWorkspace(cps[0].path) {
        assert InWorkspace(cps, ws) == [cps[0]] + rest;
        assert ([cps[0]] + rest)[1..] == rest;
      } else {
        assert InWorkspace(cps, ws) == rest;
        assert ProcessAll(cps, ws) == Then([], ProcessAll(cps[1..], ws));
      }
    }
  }

  /** The loop raises `SvnToP4Exception` only for a path inside the
    * workspace with an action letter other than A, M, R or D, and names
    * it. */
  lemma {:induction false} UnknownActionRaises(cps: seq<ChangedPath>, ws: Workspace)
    requires ProcessAll(cps, ws).err.Some? && ProcessAll(cps, ws).err.value.kind == SvnToP4Exception
    ensures exists cp :: cp in cps && ws.inWorkspace(cp.path) && !KnownAction(cp.action) &&
                         ProcessAll(cps, ws).err.value.msg == UnknownAction(cp)
    decreases |cps|
  {
    var d := Dispatch(cps[0], ws);
    if d.err.None? {
      UnknownActionRaises(cps[1..], ws);
      var cp :| cp in cps[1..] && ws.inWorkspace(cp.path) && !KnownAction(cp.action) &&
                ProcessAll(cps[1..], ws).err.value.msg == UnknownAction(cp);
      assert cp in cps;
    } else {
      assert cps[0] in cps;
    }
  }

  /** An unknown action letter inside the workspace always stops the loop
    * with an exception. */
  lemma {:induction false} UnknownActionStops(cps: seq<ChangedPath>, ws: Workspace, k: nat)
    requires k < |cps| && ws.inWorkspace(cps[k].path) && !KnownAction(cps[k].action)
    ensures ProcessAll(cps, ws).err.Some?
    decreases |cps|
  {
    if k > 0 && Dispatch(cps[0], ws).err.None? {
      assert cps[1..][k - 1] == cps[k];
      UnknownActionStops(cps[1..], ws, k - 1);
    }
  }

  /** One turn of the loop, from the invariant at `i` to the one at `i + 1`. */
  lemma ProcessStep(cps: seq<ChangedPath>, i: nat, ws: Workspace, effects: seq<Effect>)
    requires i < |cps|
    requires ProcessAll(cps, ws) == Then(effects, ProcessAll(cps[i..], ws))
    ensures var d := Dispatch(cps[i], ws);
            if d.err.Some? then ProcessAll(cps, ws) == Then(effects, d)
            else ProcessAll(cps, ws) == Then(effects + d.effects, ProcessAll(cps[i + 1..], ws))
  {
    assert cps[i..][0] == cps[i] && cps[i..][1..] == cps[i + 1..];
    var d := Dispatch(cps[i], ws);
    if d.err.None? {
      AppendAssoc(effects, d.effects, ProcessAll(cps[i + 1..], ws).effects);
    }
  }

  /** The `svn log -v` entry of a revision: its changed paths, number,
    * message, and the author and date keys when present. */
  datatype RevLog = RevLog(paths: seq<ChangedPath>, rev: nat, message: Option<string>, author: Option<string>,
                           date: Option<string>)

  datatype Outcome = Outcome(effects: seq<Effect>, result: Result<Option<nat>>)

  function Runs(cmds: seq<P4Cmd>): (r: seq<Effect>)
    ensures |r| == |cmds| && forall i :: 0 <= i < |r| ==> r[i] == Run(cmds[i])
  {
    if cmds == [] then [] else [Run(cmds[0])] + Runs(cmds[1..])
  }

  /** The author the change is submitted for: 'guest' when the log has
    * none. */
  function AuthorOf(log: RevLog): string
  {
    if log.author.Some? then log.author.value else "guest"
  }

  /** After the dispatch loop: read the commit message, submit the opened
    * files, and restore user and date only when asked to. */
  function SubmitRevision(log: RevLog, repoLabel: string, opts: ScmP4Integrate.Options,
                          sub: ScmP4Replay.Submission): (o: Outcome)
    ensures log.message.None? ==> o == Outcome([], Raise(RepSvnException, "No description specified."))
    ensures o.result.Ok? && o.result.value.Some? ==> log.message.Some? && sub.hasOpened
    ensures !opts.replicateUserAndTimestamp ==> forall e :: e in o.effects ==> !(e.Run? && e.cmd.op.Change?)
  {
    if log.message.None? then Outcome([], Raise(RepSvnException, "No description specified."))
    else
      var s := ScmP4Replay.SubmitOpenedFiles(log.message.value, log.rev, repoLabel, Some(AuthorOf(log)), log.date, opts, sub);
      var submitted := Runs(s.cmds);
      if s.result.Err? || s.result.value.None? then Outcome(submitted, s.result)
      else if opts.replicateUserAndTimestamp then
        var u := ScmP4Replay.UpdateChange(s.result.value, P4Change(log.rev, log.message.value, Some(AuthorOf(log)), log.date));
        Outcome(submitted + Runs(u.cmds), u.result)
      else Outcome(submitted, s.result)
  }

  /** `p4_replicate_change`, all of it: nothing for a revision without
    * changed paths, then the replacements first, then the submit. */
  function Replicated(log: RevLog, ws: Workspace, repoLabel: string, opts: ScmP4Integrate.Options,
                      sub: ScmP4Replay.Submission): Outcome
  {
    if log.paths == [] then Outcome([], Ok(None))
    else
      var d := ProcessAll(ReplacementsFirst(log.paths), ws);
      if d.err.Some? then Outcome(d.effects, Err(d.err.value))
      else
        var s := SubmitRevision(log, repoLabel, opts, sub);
        Outcome(d.effects + s.effects, s.result)
  }

  /** The dispatch loop of `p4_replicate_change`, over paths already in
    * their processing order. */
  method DispatchAll(cps: seq<ChangedPath>, ws: Workspace) returns (d: Done)
    ensures d == ProcessAll(cps, ws)
  {
    var effects := [];
    var i := 0;
    while i < |cps|
      invariant 0 <= i <= |cps|
      invariant ProcessAll(cps, ws) == Then(effects, ProcessAll(cps[i..], ws))
    {
      ProcessStep(cps, i, ws, effects);
      var step := Dispatch(cps[i], ws);
      if step.err.Some? {
        return Then(effects, step);
      }
      effects := effects + step.effects;
      i := i + 1;
    }
    assert cps[i..] == [];
    d := Done(effects, None);
  }

  /** `p4_replicate_change`: nothing for a revision without changed
    * paths; otherwise the paths, replacements first, then the submit. */
  method ReplicateChange(log: RevLog, ws: Workspace, repoLabel: string, opts: ScmP4Integrate.Options,
                         sub: ScmP4Replay.Submission) returns (effects: seq<Effect>, result: Result<Option<nat>>)
    ensures Outcome(effects, result) == Replicated(log, ws, repoLabel, opts, sub)
  {
    if log.paths == [] {
      return [], Ok(None);
    }
    var d := DispatchAll(ReplacementsFirst(log.paths), ws);
    if d.err.Some? {
      return d.effects, Err(d.err.value);
    }
    var s := SubmitRevision(log, repoLabel, opts, sub);
    effects := d.effects + s.effects;
    result := s.result;
  }

  /** A revision without changed paths does nothing and submits nothing. */
  lemma EmptyRevisionSubmitsNothing(log: RevLog, ws: Workspace, repoLabel: string, opts: ScmP4Integrate.Options,
                                    sub: ScmP4Replay.Submission)
    requires log.paths == []
    ensures Replicated(log, ws, repoLabel, opts, sub) == Outcome([], Ok(None))
  {
  }

  /** A change number comes back only when the submit produced one; a
    * submit that produced none ends in None. */
  lemma ChangeNumberOnlyFromSubmit(log: RevLog, ws: Workspace, repoLabel: string, opts: ScmP4Integrate.Options,
                                   sub: ScmP4Replay.Submission)
    ensures var o := Replicated(log, ws, repoLabel, opts, sub);
            o.result.Ok? && o.result.value.Some? ==>
              sub.hasOpened && sub.reply.Accepted? &&
              ScmP4Replay.SubmittedChange(o.result.value.value) in sub.reply.entries
  {
  }

  /** `verify_work_dir_root`: the working copy and the workspace must have
    * the same root. */
  function VerifyWorkDirRoot(svnRoot: string, p4Root: string): (r: Result<()>)
    ensures r.Ok? <==> svnRoot == p4Root
    ensures r.Err? ==> r.exc.kind == SvnToP4Exception
  {
    if p4Root != svnRoot then
      Raise(SvnToP4Exception, "Svn Root Folder and P4 Root Folder must be the same." + svnRoot + " != " + p4Root)
    else Ok(())
  }
}
