/** Replaying one source change into the target (`lib/scmp4.py`): which
  * files are replayed, the handler each action is dispatched to, the
  * submit, and the single retry after a submit that failed for a known
  * reason. */
module ScmP4Replay {
  import opened Common
  import opened Strings
  import ScmRep
  import ScmP4Names
  import opened ScmP4Ingest
  import opened ScmP4Integrate

  // ---------------------------------------------------------------------
  // Which files are replayed, and where they go

  /** `getDepotFile`: the target depot path of a workspace file. */
  function DepotFileOf(l: string, depotOf: string -> Option<string>): Option<string>
  {
    if l == [] then None else depotOf(l)
  }

  /** `file_in_workspace`: in the mask (when there is one) and mapped into
    * the target depot. */
  predicate InWorkspace(l: string, mask: Option<string -> Option<string>>, depotOf: string -> Option<string>)
  {
    l != [] && (mask.None? || mask.value(l).Some?) && DepotFileOf(l, depotOf).Some?
  }

  /** `exclude_files_not_in_workspace` */
  function FilesInWorkspace(files: seq<ChangeRev>, mask: Option<string -> Option<string>>,
                            depotOf: string -> Option<string>): (r: seq<ChangeRev>)
    ensures |r| <= |files|
    ensures forall f :: f in r <==> f in files && InWorkspace(f.localFile, mask, depotOf)
  {
    if files == [] then []
    else (if InWorkspace(files[0].localFile, mask, depotOf) then [files[0]] else []) +
         FilesInWorkspace(files[1..], mask, depotOf)
  }

  function WithPartnerDepotFile(x: Integ, depotOf: string -> Option<string>): Integ
  {
    x.(targetDepotFile := if x.localFile.Some? then DepotFileOf(x.localFile.value, depotOf) else None)
  }

  /** `get_target_depotfile`: fills in the target depot path of each file
    * and of each integration partner. */
  function WithTargetDepotFiles(files: seq<ChangeRev>, depotOf: string -> Option<string>): (r: seq<ChangeRev>)
    ensures |r| == |files|
    ensures forall i :: 0 <= i < |files| ==>
              r[i].targetDepotFile == DepotFileOf(files[i].localFile, depotOf) &&
              r[i] == files[i].(targetDepotFile := r[i].targetDepotFile, integrations := r[i].integrations) &&
              |r[i].integrations| == |files[i].integrations|
  {
    if files == [] then []
    else
      var f := files[0];
      var integs := seq(|f.integrations|, j requires 0 <= j < |f.integrations| => WithPartnerDepotFile(f.integrations[j], depotOf));
      [f.(targetDepotFile := DepotFileOf(f.localFile, depotOf), integrations := integs)] +
      WithTargetDepotFiles(files[1..], depotOf)
  }

  /** The files a change replays: those in the workspace, with their
    * target paths; every one of them has a target depot path. */
  function FilesToReplicate(files: seq<ChangeRev>, mask: Option<string -> Option<string>>,
                            depotOf: string -> Option<string>): seq<ChangeRev>
  {
    WithTargetDepotFiles(FilesInWorkspace(files, mask, depotOf), depotOf)
  }

  lemma ReplicatedFilesAreMapped(files: seq<ChangeRev>, mask: Option<string -> Option<string>>,
                                 depotOf: string -> Option<string>)
    ensures var r := FilesToReplicate(files, mask, depotOf);
            |r| <= |files| &&
            forall i :: 0 <= i < |r| ==> r[i].targetDepotFile.Some? && InWorkspace(r[i].localFile, mask, depotOf)
  {
    var w := FilesInWorkspace(files, mask, depotOf);
    var r := FilesToReplicate(files, mask, depotOf);
    forall i | 0 <= i < |r|
      ensures r[i].targetDepotFile.Some? && InWorkspace(r[i].localFile, mask, depotOf)
    {
      assert w[i] in w;
    }
  }

  // ---------------------------------------------------------------------
  // The action handlers

  /** `replicate_change_action_purge`: reopen a purged file for edit if
    * the target has it. */
  function Purge(f: ChangeRev, tgt: Target): (s: Step)
    ensures s.file == f && s.err.None? && ReplayCommands(s.cmds)
    ensures tgt.fstat(f.localFile).None? <==> s.cmds == [SyncCmd("-k", f.localFile)]
  {
    var l := f.localFile;
    if tgt.fstat(l).Some? then
      Step([SyncCmd("-k", l)] + (if tgt.onDisk(l) then [] else [SyncCmd("-f", l)]) + [EditTypeCmd(f.ftype, l)], f, None)
    else Step([SyncCmd("-k", l)], f, None)
  }

  /** `replicate_change_action_edit`: an edit after an integration
    * replays the integration (as action 'integrate'), then opens the file
    * for edit and restores its type; a plain edit falls back to add when
    * the target does not have the file. */
  function EditAction(f: ChangeRev, tgt: Target, src: SourceSession, opts: Options): (s: Step)
    ensures SameFile(f, s.file.(action := f.action)) && ReplayCommands(s.cmds)
    ensures s.err.None? ==> s.file.action == (if f.integrations != [] then "edit" else f.action)
  {
    var l := f.localFile;
    if f.integrations != [] then
      var s := ReplicateIntegration(f.(action := "integrate"), tgt, src, opts);
      if s.err.Some? then s
      else Step(s.cmds + [SyncCmd("-k", l), EditCmd(l), ReopenCmd(f.ftype, l)], s.file.(action := "edit"), None)
    else if tgt.fstat(l).Some? then Step([SyncCmd("-k", l), EditTypeCmd(f.ftype, l)], f, None)
    else Step([SyncCmd("-k", l), AddCmd(f.ftype, FixedLocalFile(f))], f, None)
  }

  /** `force_replicate_ignore_action`: the retry's replacement for the
    * integrate handler, which edits, deletes or adds but never
    * integrates. */
  function ForceIgnore(f: ChangeRev, tgt: Target): (s: Step)
    ensures s.file == f && s.err.None? && ReplayCommands(s.cmds)
    ensures forall c :: c in s.cmds ==> !c.op.Integrate? && !c.op.Resolve?
  {
    var l := f.localFile;
    if tgt.fstat(l).Some? then
      Step([SyncCmd("-k", l), if tgt.onDisk(l) then EditTypeCmd(f.ftype, l) else DeleteCmd(l)], f, None)
    else Step([SyncCmd("-k", l), AddCmd(f.ftype, FixedLocalFile(f))], f, None)
  }

  /** `replicate_change_action_add`.  A re-add ('add from') is replayed as
    * an integration first, and then, like a branch followed by an edit,
    * replayed again as action 'branch'; the record is left as 'add' when
    * the target has the file opened, as 'branch' when it does not. */
  function AddAction(f: ChangeRev, tgt: Target, src: SourceSession, opts: Options): (s: Step)
    ensures ReplayCommands(s.cmds)
    ensures f.integrations == [] ==> s == Step([AddCmd(f.ftype, FixedLocalFile(f))], f, None)
  {
    if f.integrations == [] then Step([AddCmd(f.ftype, FixedLocalFile(f))], f, None)
    else
      var first := if f.integrations[0].how == "add from" then ReplicateIntegration(f, tgt, src, opts)
                   else Step([], f, None);
      if first.err.Some? then first
      else After(first.cmds, AddAsBranch(first.file, f, tgt, src, opts))
  }

  /** The part of `replicate_change_action_add` after a re-add: `g` is the
    * record after the first integration, `f` the file as it came. */
  function AddAsBranch(g: ChangeRev, f: ChangeRev, tgt: Target, src: SourceSession, opts: Options): (s: Step)
    requires g.integrations != []
    ensures ReplayCommands(s.cmds)
  {
    var l, t, fx := f.localFile, f.ftype, FixedLocalFile(f);
    if g.integrations[0].how == "ignored" then Step([AddCmd(t, fx)], g, None)
    else
      var s := ReplicateIntegration(g.(action := "branch"), tgt, src, opts);
      if s.err.Some? then s
      else
        match tgt.fstatOpened(l)
        case None => Step(s.cmds + [AddCmd(t, fx)], s.file, None)
        case Some(st) =>
          var h := s.file.(action := "add");
          if st.action.None? then Step(s.cmds, h, Some(Exc(KeyError, "'action'")))
          else if st.action.value != "add" then Step(s.cmds + [EditTypeCmd(t, l)], h, None)
          else Step(s.cmds, h, None)
  }

  /** `replicate_change_action_del`: a delete without integrations is
    * skipped when the target does not have the file or has it deleted. */
  function DeleteAction(f: ChangeRev, tgt: Target, src: SourceSession, opts: Options): (s: Step)
    ensures SameFile(f, s.file) && ReplayCommands(s.cmds)
    ensures f.integrations == [] ==>
              s.err.None? &&
              (s.cmds == [] <==> tgt.fstat(f.localFile).None? || tgt.fstat(f.localFile).value.headAction == Some("delete"))
  {
    if f.integrations != [] then ReplicateIntegration(f, tgt, src, opts)
    else
      match tgt.fstat(f.localFile)
      case None => Step([], f, None)
      case Some(st) => if st.headAction == Some("delete") then Step([], f, None) else Step([DeleteCmd(f.localFile)], f, None)
  }

  /** `replicate_change_action_branch` */
  function BranchAction(f: ChangeRev, tgt: Target, src: SourceSession, opts: Options): (s: Step)
    ensures SameFile(f, s.file) && ReplayCommands(s.cmds)
    ensures f.integrations == [] ==> s == Step([AddCmd(f.ftype, FixedLocalFile(f))], f, None)
  {
    if f.integrations != [] then ReplicateIntegration(f, tgt, src, opts)
    else Step([AddCmd(f.ftype, FixedLocalFile(f))], f, None)
  }

  /** The workspace-relative name `fixedLocalFile[len(root) + 1:]`. */
  function RelativeName(fx: string, root: string): string
  {
    if |root| + 1 <= |fx| then fx[|root| + 1..] else []
  }

  /** `replicate_change_action_integrate`: an integration without records
    * becomes an edit of the file if it exists (and an add if the edit
    * warns that the file is not on the client), else a delete. */
  function IntegrateAction(f: ChangeRev, tgt: Target, src: SourceSession, opts: Options): (s: Step)
    ensures SameFile(f, s.file) && ReplayCommands(s.cmds)
    ensures f.integrations == [] ==> s.err.None? && s.file == f
  {
    var l, t, fx := f.localFile, f.ftype, FixedLocalFile(f);
    if f.integrations != [] then ReplicateIntegration(f, tgt, src, opts)
    else if tgt.onDisk(fx) then
      var fn := RelativeName(fx, tgt.root);
      var notOnClient := exists w :: w in tgt.editWarnings(l) && HowIn("file(s) not on client.", w) && HowIn(fn, w);
      Step([SyncCmd("-k", l), EditTypeCmd(t, l)] + (if notOnClient then [AddCmd(t, fx)] else []), f, None)
    else Step([DeleteCmd(l)], f, None)
  }

  /** `replicate_change_action_move_add` */
  function MoveAddAction(f: ChangeRev, tgt: Target, src: SourceSession, opts: Options): (s: Step)
    ensures SameFile(f, s.file) && ReplayCommands(s.cmds)
  {
    if f.integrations != [] then ReplicateMove(f, tgt, src, opts)
    else Step([AddCmd(f.ftype, FixedLocalFile(f))], f, None)
  }

  /** `replicate_change_action_move_del` */
  function MoveDeleteAction(f: ChangeRev, tgt: Target, src: SourceSession, opts: Options): (s: Step)
    ensures SameFile(f, s.file) && ReplayCommands(s.cmds)
  {
    if f.integrations != [] then ReplicateIntegration(f, tgt, src, opts)
    else Step([DeleteCmd(f.localFile)], f, None)
  }

  // ---------------------------------------------------------------------
  // Dispatch

  /** `action_to_func`: the handler of each action. */
  type Table = map<string, ChangeRev -> Step>

  function ActionTable(tgt: Target, src: SourceSession, opts: Options): (t: Table)
    ensures t.Keys == {"edit", "add", "delete", "branch", "integrate", "move/add", "move/delete", "purge"}
  {
    map["edit" := f => EditAction(f, tgt, src, opts), "add" := f => AddAction(f, tgt, src, opts),
        "delete" := f => DeleteAction(f, tgt, src, opts), "branch" := f => BranchAction(f, tgt, src, opts),
        "integrate" := f => IntegrateAction(f, tgt, src, opts), "move/add" := f => MoveAddAction(f, tgt, src, opts),
        "move/delete" := f => MoveDeleteAction(f, tgt, src, opts), "purge" := f => Purge(f, tgt)]
  }

  /** The table after the retry has routed 'integrate' to the forced
    * ignore. */
  function Patched(table: Table, tgt: Target): Table
  {
    table["integrate" := f => ForceIgnore(f, tgt)]
  }

  /** Every handler of `table` only replays: it never submits. */
  ghost predicate Replays(table: Table)
  {
    forall a, f :: a in table ==> ReplayCommands(table[a](f).cmds)
  }

  lemma ActionTableReplays(tgt: Target, src: SourceSession, opts: Options)
    ensures Replays(ActionTable(tgt, src, opts))
  {
  }

  lemma PatchedReplays(table: Table, tgt: Target)
    requires Replays(table)
    ensures Replays(Patched(table, tgt))
  {
  }

  /** The retry changes the handler of 'integrate' and of nothing else. */
  lemma PatchedOnlyIntegrate(table: Table, tgt: Target)
    requires "integrate" in table
    ensures Patched(table, tgt).Keys == table.Keys
    ensures forall a :: a in table && a != "integrate" ==> Patched(table, tgt)[a] == table[a]
    ensures forall f :: Patched(table, tgt)["integrate"](f) == ForceIgnore(f, tgt)
  {
  }

  /** A non-unicode target gets text where the source had unicode. */
  function TypeForTarget(f: ChangeRev, isUnicode: bool): (g: ChangeRev)
    ensures g == f.(ftype := g.ftype)
    ensures !isUnicode ==> !HowIn("unicode", g.ftype)
  {
    if !isUnicode && HowIn("unicode", f.ftype) then
      ReplacedUnicode(f.ftype);
      f.(ftype := Replace(f.ftype, "unicode", "text"))
    else f
  }

  /** Replacing "unicode" by "text" leaves no "unicode". */
  lemma ReplacedUnicode(t: string)
    ensures !HowIn("unicode", Replace(t, "unicode", "text"))
  {
    NoPatternLeft(t, "unicode", "text");
  }

  /** The body of the replay loop for one file. */
  function ReplayFile(f: ChangeRev, table: Table, isUnicode: bool): (s: Step)
    ensures Replays(table) ==> ReplayCommands(s.cmds)
    ensures TypeForTarget(f, isUnicode).action !in table ==> s.cmds == [] && s.err.Some?
  {
    var g := TypeForTarget(f, isUnicode);
    if g.action !in table then
      Fail([], g, "Unexpected \"" + g.action + "\" for " + g.depotFile + "#" + NatToString(g.rev) + ".")
    else table[g.action](g)
  }

  /** In the retry, an integration is never replayed as one. */
  lemma RetryNeverIntegrates(f: ChangeRev, table: Table, tgt: Target)
    requires f.action == "integrate"
    ensures forall c :: c in ReplayFile(f, Patched(table, tgt), tgt.isUnicode).cmds ==> !c.op.Integrate?
  {
    var g := TypeForTarget(f, tgt.isUnicode);
    assert Patched(table, tgt)[g.action](g) == ForceIgnore(g, tgt);
  }

  /** Commands, file records as the replay leaves them, and the exception
    * that stopped it. */
  datatype Replay = Replay(cmds: seq<P4Cmd>, files: seq<ChangeRev>, err: Option<Exc>)

  /** The replay loop over all files, for any per-file step: it stops at
    * the first exception, leaving the later records untouched. */
  function ReplayWith(files: seq<ChangeRev>, step: ChangeRev -> Step): (r: Replay)
    ensures |r.files| == |files|
    ensures (forall f :: ReplayCommands(step(f).cmds)) ==> ReplayCommands(r.cmds)
    decreases |files|
  {
    if files == [] then Replay([], [], None)
    else
      var s := step(files[0]);
      if s.err.Some? then Replay(s.cmds, [s.file] + files[1..], s.err)
      else
        var rest := ReplayWith(files[1..], step);
        Replay(s.cmds + rest.cmds, [s.file] + rest.files, rest.err)
  }

  /** What is left of the replay after the record at position `i`. */
  lemma ReplayAdvance(orig: seq<ChangeRev>, i: nat, step: ChangeRev -> Step, cmds: seq<P4Cmd>,
                      done: seq<ChangeRev>, all: Replay)
    requires |done| == i < |orig|
    requires var rest := ReplayWith(orig[i..], step);
             all == Replay(cmds + rest.cmds, done + rest.files, rest.err)
    ensures var s := step(orig[i]);
            s.err.Some? ==> all == Replay(cmds + s.cmds, done + ([s.file] + orig[i + 1..]), s.err)
    ensures var s := step(orig[i]);
            var next := ReplayWith(orig[i + 1..], step);
            s.err.None? ==> all == Replay((cmds + s.cmds) + next.cmds, (done + [s.file]) + next.files, next.err)
  {
    assert orig[i..][0] == orig[i] && orig[i..][1..] == orig[i + 1..];
    var s := step(orig[i]);
    var next := ReplayWith(orig[i + 1..], step);
    if s.err.None? {
      assert cmds + (s.cmds + next.cmds) == (cmds + s.cmds) + next.cmds;
      assert done + ([s.file] + next.files) == (done + [s.file]) + next.files;
    }
  }

  /** Overwriting the first record not yet replayed. */
  lemma UpdateSplit(done: seq<ChangeRev>, orig: seq<ChangeRev>, i: nat, x: ChangeRev)
    requires |done| == i < |orig|
    ensures (done + orig[i..])[i := x] == done + ([x] + orig[i + 1..])
    ensures (done + orig[i..])[i := x] == (done + [x]) + orig[i + 1..]
  {
  }

  /** The replay loop of a change, dispatching through `table`. */
  function ReplayAll(files: seq<ChangeRev>, table: Table, isUnicode: bool): (r: Replay)
    ensures |r.files| == |files|
    ensures Replays(table) ==> ReplayCommands(r.cmds)
  {
    ReplayWith(files, f => ReplayFile(f, table, isUnicode))
  }

  /** The replay loop, updating each record in place. */
  method ReplayFiles(a: array<ChangeRev>, step: ChangeRev -> Step) returns (cmds: seq<P4Cmd>, err: Option<Exc>)
    modifies a
    ensures var r := ReplayWith(old(a[..]), step);
            a[..] == r.files && cmds == r.cmds && err == r.err
  {
    ghost var orig := a[..];
    ghost var all := ReplayWith(orig, step);
    ghost var done: seq<ChangeRev> := [];
    cmds := [];
    var i := 0;
    while i < a.Length
      invariant 0 <= i <= a.Length && |done| == i
      invariant a[..] == done + orig[i..]
      invariant var rest := ReplayWith(orig[i..], step);
                all == Replay(cmds + rest.cmds, done + rest.files, rest.err)
    {
      assert a[i] == orig[i..][0];
      var s := step(a[i]);
      ghost var pre := a[..];
      a[i] := s.file;
      assert a[..] == pre[i := s.file];
      UpdateSplit(done, orig, i, s.file);
      ReplayAdvance(orig, i, step, cmds, done, all);
      if s.err.Some? {
        return cmds + s.cmds, s.err;
      }
      cmds := cmds + s.cmds;
      done := done + [s.file];
      i := i + 1;
    }
    assert orig[i..] == [];
    assert a[..] == done;
    err := None;
  }

  // ---------------------------------------------------------------------
  // Submitting

  /** One entry of the `p4 submit` reply. */
  datatype SubmitEntry = SubmittedChange(change: nat) | RefreshFile(file: string, rev: nat) | OtherEntry

  /** The server's answer to `p4 submit`: its entries, or the P4Exception
    * message it raised. */
  datatype SubmitReply = Accepted(entries: seq<SubmitEntry>) | Rejected(msg: string)

  /** What the target holds at submit time: whether anything is opened,
    * and how the submit would be answered. */
  datatype Submission = Submission(hasOpened: bool, reply: SubmitReply)

  /** The submitted change number: the last entry that carries one. */
  function SubmittedNumber(entries: seq<SubmitEntry>): (r: Option<nat>)
    ensures r.None? <==> forall i :: 0 <= i < |entries| ==> !entries[i].SubmittedChange?
    ensures r.Some? ==> SubmittedChange(r.value) in entries
  {
    if entries == [] then None
    else if entries[|entries| - 1].SubmittedChange? then Some(entries[|entries| - 1].change)
    else
      var r := SubmittedNumber(entries[..|entries| - 1]);
      assert forall i :: 0 <= i < |entries| - 1 ==> entries[..|entries| - 1][i] == entries[i];
      r
  }

  /** `reverifyRevisions`: the `file#rev,rev` of each refreshed file. */
  function RefreshSpecs(entries: seq<SubmitEntry>): (r: seq<string>)
    ensures |r| <= |entries|
  {
    if entries == [] then []
    else (if entries[0].RefreshFile? then [entries[0].file + "#" + NatToString(entries[0].rev) + "," + NatToString(entries[0].rev)] else [])
         + RefreshSpecs(entries[1..])
  }

  /** The description a change is submitted with: `#review` defused, then
    * the replication tag added. */
  function SubmitDescription(desc: string, srcRev: nat, srcSrv: string, user: Option<string>, time: Option<string>,
                             opts: Options): string
  {
    ScmRep.FormatReplicateDesc(Replace(desc, "#review", "# review"),
                               ScmRep.FormatReplicationInfo(opts.pattern, ScmRep.Provenance(srcSrv, Some(srcRev), user, time)),
                               opts.prefix)
  }

  datatype SubmitOutcome = SubmitOutcome(cmds: seq<P4Cmd>, result: Result<Option<nat>>)

  /** `submit_opened_files`: nothing opened means no submit and no change
    * number; a reply without a change number ends in the unbound local. */
  function SubmitOpenedFiles(desc: string, srcRev: nat, srcSrv: string, user: Option<string>, time: Option<string>,
                             opts: Options, sub: Submission): (r: SubmitOutcome)
    ensures !sub.hasOpened <==> r.cmds == []
    ensures !sub.hasOpened ==> r.result == Ok(None)
    ensures sub.hasOpened ==> (r.cmds[0] == P4Cmd(Submit, ["-d", SubmitDescription(desc, srcRev, srcSrv, user, time, opts)]) &&
                               forall i :: 1 <= i < |r.cmds| ==> r.cmds[i].op.Verify?)
    ensures r.result.Ok? && r.result.value.Some? ==> sub.hasOpened && sub.reply.Accepted? &&
                                                     SubmittedChange(r.result.value.value) in sub.reply.entries
    ensures sub.hasOpened && sub.reply.Rejected? ==> r.result == Raise(P4Exception, sub.reply.msg)
  {
    if !sub.hasOpened then SubmitOutcome([], Ok(None))
    else
      var submit := P4Cmd(Submit, ["-d", SubmitDescription(desc, srcRev, srcSrv, user, time, opts)]);
      match sub.reply
      case Rejected(msg) => SubmitOutcome([submit], Raise(P4Exception, msg))
      case Accepted(entries) =>
        var refresh := RefreshSpecs(entries);
        var verify := if refresh == [] then [] else [P4Cmd(Verify, ["-qv"] + refresh)];
        match SubmittedNumber(entries)
        case None => SubmitOutcome([submit] + verify, Raise(UnboundLocalError, "local variable 'new_change' referenced before assignment"))
        case Some(n) => SubmitOutcome([submit] + verify, Ok(Some(n)))
  }

  /** No `#review` survives the rewrite, so the submit cannot trigger or
    * update a review. */
  lemma NoReviewTag(desc: string)
    ensures !HowIn("#review", Replace(desc, "#review", "# review"))
  {
    NoPatternLeft(desc, "#review", "# review");
  }

  /** With the default tag written before the description, the submitted
    * description decodes back to the source change. */
  lemma SubmittedDescriptionDecodes(desc: string, srcRev: nat, srcSrv: string, user: string, time: string, opts: Options)
    requires opts.pattern == ScmRep.DefaultPattern && opts.prefix
    requires ScmRep.ValidProvenance(ScmRep.Provenance(srcSrv, Some(srcRev), Some(user), Some(time)))
    ensures ScmRep.GetRevisionFromDesc(SubmitDescription(desc, srcRev, srcSrv, Some(user), Some(time), opts),
                                       ScmRep.ImportedFrom) == srcRev
  {
    ScmRep.DecodePrefixedTag(Replace(desc, "#review", "# review"), ScmRep.Provenance(srcSrv, Some(srcRev), Some(user), Some(time)));
  }

  // ---------------------------------------------------------------------
  // No pattern survives a replacement that cannot recreate it

  /** `Replace(s, pat, rep)` leaves no `pat` behind when `rep` starts with
    * `pat`'s first character, contains it nowhere else, and cannot
    * complete a `pat` begun before it (it differs from `pat` at some
    * position before the end of both). */
  lemma NoPatternLeft(s: string, pat: string, rep: string)
    requires ReplacementSafe(pat, rep)
    ensures !HowIn(pat, Replace(s, pat, rep))
  {
    ReplaceNoOccurrence(s, pat, rep);
  }

  /** The two rewrites the replay makes are safe in this sense. */
  predicate ReplacementSafe(pat: string, rep: string)
  {
    (pat == "#review" && rep == "# review") || (pat == "unicode" && rep == "text")
  }

  lemma {:induction false} ReplaceNoOccurrence(s: string, pat: string, rep: string)
    requires ReplacementSafe(pat, rep)
    ensures forall i: nat :: i <= |Replace(s, pat, rep)| ==> !OccursAt(pat, Replace(s, pat, rep), i)
    decreases |s|
  {
    var r := Replace(s, pat, rep);
    if |s| < |pat| {
      forall i: nat | i <= |r| ensures !OccursAt(pat, r, i) { }
    } else if s[..|pat|] == pat {
      ReplaceNoOccurrence(s[|pat|..], pat, rep);
      var t := Replace(s[|pat|..], pat, rep);
      assert r == rep + t;
      forall i: nat | i <= |r| ensures !OccursAt(pat, r, i) {
        if i >= |rep| {
          if i - |rep| <= |t| {
            ShiftedOccurrence(rep, t, pat, i);
          }
        } else {
          NoOccurrenceInRep(pat, rep, t, i);
        }
      }
    } else {
      ReplaceNoOccurrence(s[1..], pat, rep);
      var t := Replace(s[1..], pat, rep);
      assert r == [s[0]] + t;
      forall i: nat | i <= |r| ensures !OccursAt(pat, r, i) {
        if i >= 1 {
          if i - 1 <= |t| {
            ShiftedOccurrence([s[0]], t, pat, i);
          }
        } else {
          NotRecreated(s, pat, rep);
        }
      }
    }
  }

  /** An occurrence in `t` is an occurrence in `u + t`, shifted by `|u|`. */
  lemma ShiftedOccurrence(u: string, t: string, pat: string, i: nat)
    requires |u| <= i && !OccursAt(pat, t, i - |u|)
    ensures !OccursAt(pat, u + t, i)
  {
    var r := u + t;
    if i + |pat| <= |r| {
      assert r[i..i + |pat|] == t[i - |u|..i - |u| + |pat|];
    }
  }

  /** An occurrence cannot start inside the replacement text. */
  lemma NoOccurrenceInRep(pat: string, rep: string, t: string, i: nat)
    requires ReplacementSafe(pat, rep) && i < |rep|
    ensures !OccursAt(pat, rep + t, i)
  {
    var r := rep + t;
    if i + |pat| <= |r| {
      assert r[i..i + |pat|][0] == rep[i];
      if i == 0 {
        assert r[i..i + |pat|][1] == rep[1];
      }
    }
  }

  /** A `pat` at the head of the output came from a `pat` at the head of
    * the input. */
  lemma NotRecreated(s: string, pat: string, rep: string)
    requires ReplacementSafe(pat, rep) && |s| >= |pat|
    ensures OccursAt(pat, [s[0]] + Replace(s[1..], pat, rep), 0) ==> s[..|pat|] == pat
  {
    var r := [s[0]] + Replace(s[1..], pat, rep);
    if OccursAt(pat, r, 0) {
      assert r[..|pat|] == pat;
      assert r[0] == pat[0];
      assert Replace(s[1..], pat, rep)[..|pat| - 1] == r[1..|pat|] == pat[1..];
      PrefixSurvives(s[1..], pat[1..], pat, rep);
      assert s[..|pat|] == [s[0]] + s[1..][..|pat| - 1];
    }
  }

  /** Reading a word that does not contain the replacement's first
    * character off the front of the output reads it off the front of the
    * input. */
  lemma {:induction false} PrefixSurvives(s: string, w: string, pat: string, rep: string)
    requires ReplacementSafe(pat, rep) && rep[0] !in w
    ensures StartsWith(Replace(s, pat, rep), w) ==> StartsWith(s, w)
    decreases |w|
  {
    var r := Replace(s, pat, rep);
    if w != [] && |s| >= |pat| {
      if s[..|pat|] == pat {
        assert r[0] == rep[0];
      } else {
        assert r == [s[0]] + Replace(s[1..], pat, rep);
        PrefixSurvives(s[1..], w[1..], pat, rep);
        if StartsWith(r, w) {
          assert r[1..][..|w| - 1] == w[1..];
          assert s[..|w|] == [s[0]] + s[1..][..|w| - 1];
        }
      }
    }
  }

  // ---------------------------------------------------------------------
  // The change as a whole

  const SubmitMarker: string := "p4 submit -c "

  /** "p4 submit -c " followed by a digit starts at `j`. */
  predicate MarkedAt(msg: string, j: nat)
  {
    j + |SubmitMarker| < |msg| && OccursAt(SubmitMarker, msg, j) && IsDigit(msg[j + |SubmitMarker|])
  }

  /** The failed change's number, as `re.search(r'p4 submit -c (\d+)')`
    * finds it from position `k` on. */
  function FailedChangeFrom(msg: string, k: nat): Option<string>
    decreases |msg| - k
  {
    if k >= |msg| then None
    else if MarkedAt(msg, k) then Some(DigitRun(msg[k + |SubmitMarker|..]))
    else FailedChangeFrom(msg, k + 1)
  }

  /** The search finds nothing exactly when no marker followed by a digit
    * starts at or after `k`. */
  lemma {:induction false} FailedChangeNone(msg: string, k: nat)
    ensures FailedChangeFrom(msg, k).None? <==> forall j :: k <= j < |msg| ==> !MarkedAt(msg, j)
    decreases |msg| - k
  {
    if k < |msg| && !MarkedAt(msg, k) {
      FailedChangeNone(msg, k + 1);
    }
  }

  /** What the search finds: the digits after the leftmost marker that is
    * followed by a digit. */
  lemma {:induction false} FailedChangeLeftmost(msg: string, k: nat, n: string)
    requires FailedChangeFrom(msg, k) == Some(n)
    ensures n != [] && AllDigits(n)
    ensures exists j :: k <= j < |msg| && MarkedAt(msg, j) && n == DigitRun(msg[j + |SubmitMarker|..]) &&
                        forall i :: k <= i < j ==> !MarkedAt(msg, i)
    decreases |msg| - k
  {
    if MarkedAt(msg, k) {
      var t := msg[k + |SubmitMarker|..];
      assert t[0] == msg[k + |SubmitMarker|];
      assert n == [t[0]] + DigitRun(t[1..]);
      assert MarkedAt(msg, k) && n == DigitRun(msg[k + |SubmitMarker|..]);
    } else {
      FailedChangeLeftmost(msg, k + 1, n);
      var j :| k + 1 <= j < |msg| && MarkedAt(msg, j) && n == DigitRun(msg[j + |SubmitMarker|..]) &&
               forall i :: k + 1 <= i < j ==> !MarkedAt(msg, i);
      assert forall i :: k <= i < j ==> !MarkedAt(msg, i);
    }
  }

  function FailedChange(msg: string): Option<string> { FailedChangeFrom(msg, 0) }

  /** The description prefix of the retried submit. */
  const RetryPrefix: string :=
    "ReplicationBot: Warning, couldn't submit this change as an integration, using edit/add/remove instead\n\n"

  function SourceSync(change: nat): P4Cmd
  {
    P4Cmd(SyncSource, ["-f", "...@" + NatToString(change) + "," + NatToString(change)])
  }

  /** The text `int()` accepts: surrounding white space, an optional
    * sign, then at least one digit. */
  predicate IntText(t: string)
  {
    var u := Strip(t);
    u != [] && if u[0] == '+' || u[0] == '-' then |u| > 1 && AllDigits(u[1..]) else AllDigits(u)
  }

  datatype Outcome = Outcome(cmds: seq<P4Cmd>, result: Result<Option<nat>>)

  /** `update_change`: only with a change number, a user and a time, and
    * the time must be an epoch number. */
  function UpdateChange(n: Option<nat>, change: P4Change): (r: Outcome)
    ensures r.result.Ok? ==> r.result.value == n
    ensures |r.cmds| <= 1
    ensures r.cmds != [] <==> n.Some? && Truthy(change.user) && Truthy(change.time) && IntText(change.time.value)
    ensures r.result.Err? <==> n.Some? && Truthy(change.user) && Truthy(change.time) && !IntText(change.time.value)
    ensures forall c :: c in r.cmds ==> c.op.Change?
  {
    if n.None? || !Truthy(change.user) || !Truthy(change.time) then Outcome([], Ok(n))
    else if !IntText(change.time.value) then
      Outcome([], Raise(ValueError, "invalid literal for int() with base 10: '" + change.time.value + "'"))
    else Outcome([P4Cmd(Change, ["-f", NatToString(n.value), change.user.value, change.time.value])], Ok(n))
  }

  /** What the target is asked and answers while one change replays. */
  datatype Replies = Replies(mask: Option<string -> Option<string>>,
                             filelogs: seq<string> -> FilelogReply<nat>,
                             first: Submission, second: Submission)

  /** After the submit: restore user and time when asked to. */
  function Finish(cmds: seq<P4Cmd>, n: Option<nat>, change: P4Change, opts: Options): (r: Outcome)
    ensures r.result.Ok? ==> r.result.value == n
    ensures |cmds| <= |r.cmds| && r.cmds[..|cmds|] == cmds && forall i :: |cmds| <= i < |r.cmds| ==> r.cmds[i].op.Change?
  {
    if opts.replicateUserAndTimestamp then
      var u := UpdateChange(n, change);
      Outcome(cmds + u.cmds, u.result)
    else Outcome(cmds, Ok(n))
  }

  /** `verify_depotfile_revisions` as `replicate_change` calls it: the
    * filelogs must all come back, and a target ahead of the source is
    * reverted and refused. */
  function CheckTarget(toRep: seq<ChangeRev>, filelogs: seq<string> -> FilelogReply<nat>): (r: Outcome)
    ensures r.result.Ok? ==> r.cmds == [] && r.result.value.None?
    ensures r.cmds == [] || r.cmds == [RevertAll]
  {
    var logs := FilelogsOf(TargetFilesOf(toRep), filelogs);
    if logs.Err? then Outcome([], Err(logs.exc))
    else if AheadCheck(toRep, logs.value).Err? then Outcome([RevertAll], Err(AheadCheck(toRep, logs.value).exc))
    else Outcome([], Ok(None))
  }

  /** `replicate_change`: keep the files the workspace maps, find their
    * target paths, refuse a target that is ahead, replay every file and
    * submit. */
  function ReplicateChange(change: P4Change, srcPort: string, files: seq<ChangeRev>, tgt: Target, src: SourceSession,
                           opts: Options, w: Replies): Outcome
  {
    ReplicateWith(change, srcPort, files, tgt, ActionTable(tgt, src, opts), opts, w)
  }

  /** `replicate_change` with `table` as its `action_to_func`. */
  function ReplicateWith(change: P4Change, srcPort: string, files: seq<ChangeRev>, tgt: Target, table: Table,
                         opts: Options, w: Replies): Outcome
  {
    var toRep := FilesToReplicate(files, w.mask, tgt.depotOf);
    var checked := CheckTarget(toRep, w.filelogs);
    if checked.result.Err? then checked
    else ReplayAndSubmit(change, srcPort, toRep, tgt, table, opts, w)
  }

  /** The first replay pass over the files to replicate, then the submit. */
  function ReplayAndSubmit(change: P4Change, srcPort: string, toRep: seq<ChangeRev>, tgt: Target, table: Table,
                           opts: Options, w: Replies): Outcome
  {
    var pass1 := ReplayAll(toRep, table, tgt.isUnicode);
    if pass1.err.Some? then Outcome(pass1.cmds, Err(pass1.err.value))
    else SubmitReplayed(change, srcPort, pass1, ReplayAll(pass1.files, Patched(table, tgt), tgt.isUnicode), opts, w)
  }

  /** The first submit, and what follows from its answer; `pass2` is the
    * replay the retry performs, looked at only when the retry happens. */
  function SubmitReplayed(change: P4Change, srcPort: string, pass1: Replay, pass2: Replay, opts: Options,
                          w: Replies): Outcome
  {
    var sub1 := SubmitOpenedFiles(change.desc, change.change, srcPort, change.user, change.time, opts, w.first);
    var c1 := pass1.cmds + sub1.cmds;
    if sub1.result.Ok? then Finish(c1, sub1.result.value, change, opts)
    else if sub1.result.exc.kind != P4Exception || !ScmP4Names.CheckIfKnownIssue(sub1.result.exc.msg) then
      Outcome(c1, sub1.result)
    else Retry(change, srcPort, c1, sub1.result.exc.msg, pass2, opts, w)
  }

  /** The one retry after a known submit issue: revert, delete the failed
    * change, re-sync the source, replay with 'integrate' degraded, and
    * submit under the warning prefix. */
  function Retry(change: P4Change, srcPort: string, c1: seq<P4Cmd>, msg: string, pass2: Replay, opts: Options,
                 w: Replies): Outcome
  {
    match FailedChange(msg)
    case None => Outcome(c1, Raise(AttributeError, "'NoneType' object has no attribute 'group'"))
    case Some(n) =>
      var reset := [RevertAll, P4Cmd(Change, ["-d", n]), SourceSync(change.change)];
      if pass2.err.Some? then Outcome(c1 + reset + pass2.cmds, Err(pass2.err.value))
      else
        var sub2 := SubmitOpenedFiles(RetryPrefix + change.desc, change.change, srcPort, change.user, change.time,
                                      opts, w.second);
        var c2 := c1 + reset + pass2.cmds + sub2.cmds;
        if sub2.result.Err? then Outcome(c2, sub2.result) else Finish(c2, sub2.result.value, change, opts)
  }

  // ---------------------------------------------------------------------
  // Properties of the change as a whole

  /** The number of submits among `cmds`. */
  function SubmitCount(cmds: seq<P4Cmd>): (n: nat)
    ensures n <= |cmds|
  {
    if cmds == [] then 0 else (if cmds[0].op.Submit? then 1 else 0) + SubmitCount(cmds[1..])
  }

  lemma {:induction false} SubmitCountConcat(a: seq<P4Cmd>, b: seq<P4Cmd>)
    ensures SubmitCount(a + b) == SubmitCount(a) + SubmitCount(b)
  {
    if a == [] {
      assert a + b == b;
    } else {
      assert (a + b)[1..] == a[1..] + b;
      SubmitCountConcat(a[1..], b);
    }
  }

  lemma {:induction false} NoSubmitCount(cmds: seq<P4Cmd>)
    requires forall i :: 0 <= i < |cmds| ==> !cmds[i].op.Submit?
    ensures SubmitCount(cmds) == 0
  {
    if cmds != [] {
      NoSubmitCount(cmds[1..]);
    }
  }

  /** A submission issues one submit when files are opened, none otherwise. */
  lemma SubmissionCount(desc: string, srcRev: nat, srcSrv: string, user: Option<string>, time: Option<string>,
                        opts: Options, sub: Submission)
    ensures SubmitCount(SubmitOpenedFiles(desc, srcRev, srcSrv, user, time, opts, sub).cmds)
            == if sub.hasOpened then 1 else 0
  {
    var r := SubmitOpenedFiles(desc, srcRev, srcSrv, user, time, opts, sub);
    if sub.hasOpened {
      NoSubmitCount(r.cmds[1..]);
    }
  }

  lemma ReplayCount(cmds: seq<P4Cmd>)
    requires ReplayCommands(cmds)
    ensures SubmitCount(cmds) == 0
  {
    assert forall i :: 0 <= i < |cmds| ==> cmds[i] in cmds;
    NoSubmitCount(cmds);
  }

  lemma FinishCount(cmds: seq<P4Cmd>, n: Option<nat>, change: P4Change, opts: Options)
    ensures SubmitCount(Finish(cmds, n, change, opts).cmds) == SubmitCount(cmds)
  {
    var r := Finish(cmds, n, change, opts).cmds;
    assert r == cmds + r[|cmds|..];
    SubmitCountConcat(cmds, r[|cmds|..]);
    NoSubmitCount(r[|cmds|..]);
  }

  /** The retry submits at most once more. */
  lemma RetryCount(change: P4Change, srcPort: string, c1: seq<P4Cmd>, msg: string, pass2: Replay, opts: Options,
                   w: Replies)
    requires ReplayCommands(pass2.cmds)
    ensures SubmitCount(Retry(change, srcPort, c1, msg, pass2, opts, w).cmds) <= SubmitCount(c1) + 1
  {
    match FailedChange(msg)
    case None =>
    case Some(n) =>
      var reset := [RevertAll, P4Cmd(Change, ["-d", n]), SourceSync(change.change)];
      NoSubmitCount(reset);
      SubmitCountConcat(c1, reset);
      ReplayCount(pass2.cmds);
      SubmitCountConcat(c1 + reset, pass2.cmds);
      var sub2 := SubmitOpenedFiles(RetryPrefix + change.desc, change.change, srcPort, change.user, change.time,
                                    opts, w.second);
      SubmissionCount(RetryPrefix + change.desc, change.change, srcPort, change.user, change.time, opts, w.second);
      SubmitCountConcat(c1 + reset + pass2.cmds, sub2.cmds);
      if sub2.result.Ok? {
        FinishCount(c1 + reset + pass2.cmds + sub2.cmds, sub2.result.value, change, opts);
      }
  }

  lemma SubmittedCount(change: P4Change, srcPort: string, pass1: Replay, pass2: Replay, opts: Options, w: Replies)
    requires ReplayCommands(pass1.cmds) && ReplayCommands(pass2.cmds)
    ensures SubmitCount(SubmitReplayed(change, srcPort, pass1, pass2, opts, w).cmds) <= 2
  {
    ReplayCount(pass1.cmds);
    var sub1 := SubmitOpenedFiles(change.desc, change.change, srcPort, change.user, change.time, opts, w.first);
    SubmissionCount(change.desc, change.change, srcPort, change.user, change.time, opts, w.first);
    SubmitCountConcat(pass1.cmds, sub1.cmds);
    if sub1.result.Ok? {
      FinishCount(pass1.cmds + sub1.cmds, sub1.result.value, change, opts);
    } else {
      RetryCount(change, srcPort, pass1.cmds + sub1.cmds, sub1.result.exc.msg, pass2, opts, w);
    }
  }

  /** A change is submitted at most twice: once, and once more in the
    * retry. */
  lemma AtMostTwoSubmits(change: P4Change, srcPort: string, files: seq<ChangeRev>, tgt: Target, table: Table,
                         opts: Options, w: Replies)
    requires Replays(table)
    ensures SubmitCount(ReplicateWith(change, srcPort, files, tgt, table, opts, w).cmds) <= 2
  {
    var toRep := FilesToReplicate(files, w.mask, tgt.depotOf);
    var checked := CheckTarget(toRep, w.filelogs);
    if checked.result.Ok? {
      ReplayAndSubmitCount(change, srcPort, toRep, tgt, table, opts, w);
    }
  }

  lemma ReplayAndSubmitCount(change: P4Change, srcPort: string, toRep: seq<ChangeRev>, tgt: Target, table: Table,
                             opts: Options, w: Replies)
    requires Replays(table)
    ensures SubmitCount(ReplayAndSubmit(change, srcPort, toRep, tgt, table, opts, w).cmds) <= 2
  {
    PatchedReplays(table, tgt);
    var pass1 := ReplayAll(toRep, table, tgt.isUnicode);
    ReplayCount(pass1.cmds);
    if pass1.err.None? {
      SubmittedCount(change, srcPort, pass1, ReplayAll(pass1.files, Patched(table, tgt), tgt.isUnicode), opts, w);
    }
  }

  /** An error of the first submit that is not a known issue is raised
    * again as it came, after the one submit. */
  lemma UnknownIssueReraised(change: P4Change, srcPort: string, pass1: Replay, pass2: Replay, opts: Options,
                             w: Replies)
    requires w.first.hasOpened && w.first.reply.Rejected?
    requires !ScmP4Names.CheckIfKnownIssue(w.first.reply.msg)
    ensures var r := SubmitReplayed(change, srcPort, pass1, pass2, opts, w);
            r.result == Raise(P4Exception, w.first.reply.msg) &&
            r.cmds == pass1.cmds + [P4Cmd(Submit, ["-d", SubmitDescription(change.desc, change.change, srcPort,
                                                                             change.user, change.time, opts)])]
  {
  }

  /** A known issue of the first submit leads to the retry, after that
    * one submit. */
  lemma KnownIssueRetried(change: P4Change, srcPort: string, pass1: Replay, pass2: Replay, opts: Options,
                          w: Replies)
    requires w.first.hasOpened && w.first.reply.Rejected?
    requires ScmP4Names.CheckIfKnownIssue(w.first.reply.msg)
    ensures SubmitReplayed(change, srcPort, pass1, pass2, opts, w)
            == Retry(change, srcPort,
                     pass1.cmds + [P4Cmd(Submit, ["-d", SubmitDescription(change.desc, change.change, srcPort,
                                                                           change.user, change.time, opts)])],
                     w.first.reply.msg, pass2, opts, w)
  {
  }

  lemma PrefixOfPrefix(p: seq<P4Cmd>, q: seq<P4Cmd>, y: seq<P4Cmd>)
    requires |p + q| <= |y| && y[..|p + q|] == p + q
    ensures y[..|p|] == p
  {
    assert (p + q)[..|p|] == p;
  }

  /** The retry first resets: revert all, delete the failed change named in
    * the message, re-sync the source; then it replays. */
  lemma RetryResets(change: P4Change, srcPort: string, c1: seq<P4Cmd>, msg: string, pass2: Replay, opts: Options,
                    w: Replies, n: string)
    requires FailedChange(msg) == Some(n)
    ensures var r := Retry(change, srcPort, c1, msg, pass2, opts, w);
            var pre := c1 + [RevertAll, P4Cmd(Change, ["-d", n]), SourceSync(change.change)] + pass2.cmds;
            |pre| <= |r.cmds| && r.cmds[..|pre|] == pre && (pass2.err.Some? ==> r.result == Err(pass2.err.value))
  {
    var r := Retry(change, srcPort, c1, msg, pass2, opts, w);
    var pre := c1 + [RevertAll, P4Cmd(Change, ["-d", n]), SourceSync(change.change)] + pass2.cmds;
    if pass2.err.None? {
      var sub2 := SubmitOpenedFiles(RetryPrefix + change.desc, change.change, srcPort, change.user, change.time,
                                    opts, w.second);
      assert |pre + sub2.cmds| <= |r.cmds| && r.cmds[..|pre + sub2.cmds|] == pre + sub2.cmds;
      PrefixOfPrefix(pre, sub2.cmds, r.cmds);
    }
  }

  /** Once the replay of the retry went through, the change is submitted
    * again under the warning prefix. */
  lemma RetrySubmitsWithWarning(change: P4Change, srcPort: string, c1: seq<P4Cmd>, msg: string, pass2: Replay,
                                opts: Options, w: Replies)
    requires FailedChange(msg).Some? && pass2.err.None? && w.second.hasOpened
    ensures var r := Retry(change, srcPort, c1, msg, pass2, opts, w);
            |r.cmds| > |c1| + 3 + |pass2.cmds| &&
            r.cmds[|c1| + 3 + |pass2.cmds|] == P4Cmd(Submit, ["-d", SubmitDescription(RetryPrefix + change.desc,
                                                                                  change.change, srcPort, change.user,
                                                                                  change.time, opts)])
  {
    var r := Retry(change, srcPort, c1, msg, pass2, opts, w);
    var c := c1 + [RevertAll, P4Cmd(Change, ["-d", FailedChange(msg).value]), SourceSync(change.change)] + pass2.cmds;
    var sub2 := SubmitOpenedFiles(RetryPrefix + change.desc, change.change, srcPort, change.user, change.time,
                                  opts, w.second);
    assert (c + sub2.cmds)[|c|] == sub2.cmds[0];
    assert |r.cmds| >= |c + sub2.cmds| && r.cmds[..|c + sub2.cmds|] == c + sub2.cmds;
  }

  /** Every submit is one of `descs`. */
  predicate SubmitsAmong(cmds: seq<P4Cmd>, descs: set<string>)
  {
    forall i :: 0 <= i < |cmds| && cmds[i].op.Submit? ==> |cmds[i].args| == 2 && cmds[i].args[1] in descs
  }

  lemma SubmitsConcat(a: seq<P4Cmd>, b: seq<P4Cmd>, descs: set<string>)
    requires SubmitsAmong(a, descs) && SubmitsAmong(b, descs)
    ensures SubmitsAmong(a + b, descs)
  {
    forall i | 0 <= i < |a + b| && (a + b)[i].op.Submit?
      ensures (a + b)[i] == (if i < |a| then a[i] else b[i - |a|])
    {
    }
  }

  lemma ReplaySubmitsNothing(cmds: seq<P4Cmd>, descs: set<string>)
    requires ReplayCommands(cmds)
    ensures SubmitsAmong(cmds, descs)
  {
    assert forall i :: 0 <= i < |cmds| ==> cmds[i] in cmds;
  }

  lemma FinishSubmitsNothing(cmds: seq<P4Cmd>, n: Option<nat>, change: P4Change, opts: Options, descs: set<string>)
    requires SubmitsAmong(cmds, descs)
    ensures SubmitsAmong(Finish(cmds, n, change, opts).cmds, descs)
  {
  }

  lemma SubmissionAmong(desc: string, srcRev: nat, srcSrv: string, user: Option<string>, time: Option<string>,
                        opts: Options, sub: Submission, descs: set<string>)
    requires SubmitDescription(desc, srcRev, srcSrv, user, time, opts) in descs
    ensures SubmitsAmong(SubmitOpenedFiles(desc, srcRev, srcSrv, user, time, opts, sub).cmds, descs)
  {
  }

  /** The two descriptions a change may be submitted with. */
  function ChangeDescriptions(change: P4Change, srcPort: string, opts: Options): set<string>
  {
    {SubmitDescription(change.desc, change.change, srcPort, change.user, change.time, opts),
     SubmitDescription(RetryPrefix + change.desc, change.change, srcPort, change.user, change.time, opts)}
  }

  /** The commands replayed before the retried submit submit nothing
    * new. */
  lemma ResetTagged(c1: seq<P4Cmd>, reset: seq<P4Cmd>, replayed: seq<P4Cmd>, descs: set<string>)
    requires SubmitsAmong(c1, descs) && ReplayCommands(replayed)
    requires forall i :: 0 <= i < |reset| ==> !reset[i].op.Submit?
    ensures SubmitsAmong(c1 + reset + replayed, descs)
  {
    SubmitsConcat(c1, reset, descs);
    ReplaySubmitsNothing(replayed, descs);
    SubmitsConcat(c1 + reset, replayed, descs);
  }

  lemma RetryTagged(change: P4Change, srcPort: string, c1: seq<P4Cmd>, msg: string, pass2: Replay, opts: Options,
                    w: Replies, descs: set<string>)
    requires descs == ChangeDescriptions(change, srcPort, opts)
    requires SubmitsAmong(c1, descs) && ReplayCommands(pass2.cmds)
    ensures SubmitsAmong(Retry(change, srcPort, c1, msg, pass2, opts, w).cmds, descs)
  {
    match FailedChange(msg)
    case None =>
    case Some(n) =>
      var reset := [RevertAll, P4Cmd(Change, ["-d", n]), SourceSync(change.change)];
      ResetTagged(c1, reset, pass2.cmds, descs);
      var sub2 := SubmitOpenedFiles(RetryPrefix + change.desc, change.change, srcPort, change.user, change.time,
                                    opts, w.second);
      SubmissionAmong(RetryPrefix + change.desc, change.change, srcPort, change.user, change.time, opts, w.second, descs);
      SubmitsConcat(c1 + reset + pass2.cmds, sub2.cmds, descs);
      if sub2.result.Ok? {
        FinishSubmitsNothing(c1 + reset + pass2.cmds + sub2.cmds, sub2.result.value, change, opts, descs);
      }
  }

  lemma SubmittedTagged(change: P4Change, srcPort: string, pass1: Replay, pass2: Replay, opts: Options, w: Replies,
                        descs: set<string>)
    requires descs == ChangeDescriptions(change, srcPort, opts)
    requires ReplayCommands(pass1.cmds) && ReplayCommands(pass2.cmds)
    ensures SubmitsAmong(SubmitReplayed(change, srcPort, pass1, pass2, opts, w).cmds, descs)
  {
    ReplaySubmitsNothing(pass1.cmds, descs);
    var sub1 := SubmitOpenedFiles(change.desc, change.change, srcPort, change.user, change.time, opts, w.first);
    SubmissionAmong(change.desc, change.change, srcPort, change.user, change.time, opts, w.first, descs);
    SubmitsConcat(pass1.cmds, sub1.cmds, descs);
    if sub1.result.Ok? {
      FinishSubmitsNothing(pass1.cmds + sub1.cmds, sub1.result.value, change, opts, descs);
    } else {
      RetryTagged(change, srcPort, pass1.cmds + sub1.cmds, sub1.result.exc.msg, pass2, opts, w, descs);
    }
  }

  /** Every submit of a change carries one of its two descriptions. */
  lemma SubmitsAreTagged(change: P4Change, srcPort: string, files: seq<ChangeRev>, tgt: Target, table: Table,
                         opts: Options, w: Replies, descs: set<string>)
    requires descs == ChangeDescriptions(change, srcPort, opts)
    requires Replays(table)
    ensures SubmitsAmong(ReplicateWith(change, srcPort, files, tgt, table, opts, w).cmds, descs)
  {
    var toRep := FilesToReplicate(files, w.mask, tgt.depotOf);
    var checked := CheckTarget(toRep, w.filelogs);
    if checked.result.Ok? {
      ReplayAndSubmitTagged(change, srcPort, toRep, tgt, table, opts, w, descs);
    } else {
      CheckSubmitsNothing(toRep, w.filelogs, descs);
    }
  }

  lemma CheckSubmitsNothing(toRep: seq<ChangeRev>, filelogs: seq<string> -> FilelogReply<nat>, descs: set<string>)
    ensures SubmitsAmong(CheckTarget(toRep, filelogs).cmds, descs)
  {
    var c := CheckTarget(toRep, filelogs);
    assert c.cmds == [] || c.cmds[0] == RevertAll;
  }

  lemma ReplayAndSubmitTagged(change: P4Change, srcPort: string, toRep: seq<ChangeRev>, tgt: Target, table: Table,
                              opts: Options, w: Replies, descs: set<string>)
    requires descs == ChangeDescriptions(change, srcPort, opts)
    requires Replays(table)
    ensures SubmitsAmong(ReplayAndSubmit(change, srcPort, toRep, tgt, table, opts, w).cmds, descs)
  {
    PatchedReplays(table, tgt);
    var pass1 := ReplayAll(toRep, table, tgt.isUnicode);
    ReplaySubmitsNothing(pass1.cmds, descs);
    if pass1.err.None? {
      SubmittedTagged(change, srcPort, pass1, ReplayAll(pass1.files, Patched(table, tgt), tgt.isUnicode), opts, w,
                      descs);
    }
  }

  /** Submits whose descriptions all decode to `rev` decode to `rev`. */
  lemma DescriptionsDecode(cmds: seq<P4Cmd>, descs: set<string>, rev: nat)
    requires SubmitsAmong(cmds, descs)
    requires forall d :: d in descs ==> ScmRep.GetRevisionFromDesc(d, ScmRep.ImportedFrom) == rev
    ensures forall i :: 0 <= i < |cmds| && cmds[i].op.Submit? ==>
              |cmds[i].args| == 2 && ScmRep.GetRevisionFromDesc(cmds[i].args[1], ScmRep.ImportedFrom) == rev
  {
  }

  /** Both descriptions of a change decode to its number. */
  lemma ChangeDescriptionsDecode(change: P4Change, srcPort: string, opts: Options, user: string, time: string)
    requires opts.pattern == ScmRep.DefaultPattern && opts.prefix
    requires change.user == Some(user) && change.time == Some(time)
    requires ScmRep.ValidProvenance(ScmRep.Provenance(srcPort, Some(change.change), Some(user), Some(time)))
    ensures forall d :: d in ChangeDescriptions(change, srcPort, opts) ==>
              ScmRep.GetRevisionFromDesc(d, ScmRep.ImportedFrom) == change.change
  {
    forall d | d in ChangeDescriptions(change, srcPort, opts)
      ensures ScmRep.GetRevisionFromDesc(d, ScmRep.ImportedFrom) == change.change
    {
      if d == SubmitDescription(change.desc, change.change, srcPort, change.user, change.time, opts) {
        SubmittedDescriptionDecodes(change.desc, change.change, srcPort, user, time, opts);
      } else {
        SubmittedDescriptionDecodes(RetryPrefix + change.desc, change.change, srcPort, user, time, opts);
      }
    }
  }

  /** With the default tag in front, every description the change is
    * submitted with decodes back to the source change number: the
    * replicated history records where it came from. */
  lemma SubmittedChangesDecode(change: P4Change, srcPort: string, files: seq<ChangeRev>, tgt: Target, table: Table,
                               opts: Options, w: Replies, user: string, time: string)
    requires Replays(table)
    requires opts.pattern == ScmRep.DefaultPattern && opts.prefix
    requires change.user == Some(user) && change.time == Some(time)
    requires ScmRep.ValidProvenance(ScmRep.Provenance(srcPort, Some(change.change), Some(user), Some(time)))
    ensures var cmds := ReplicateWith(change, srcPort, files, tgt, table, opts, w).cmds;
            forall i :: 0 <= i < |cmds| && cmds[i].op.Submit? ==>
              |cmds[i].args| == 2 && ScmRep.GetRevisionFromDesc(cmds[i].args[1], ScmRep.ImportedFrom) == change.change
  {
    SubmitsAreTagged(change, srcPort, files, tgt, table, opts, w, ChangeDescriptions(change, srcPort, opts));
    ChangeDescriptionsDecode(change, srcPort, opts, user, time);
    DescriptionsDecode(ReplicateWith(change, srcPort, files, tgt, table, opts, w).cmds,
                       ChangeDescriptions(change, srcPort, opts), change.change);
  }
}
