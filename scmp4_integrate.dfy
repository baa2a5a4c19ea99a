/** Replaying an integration record into the target (`lib/scmp4.py`):
  * choosing the record, finding the target revisions that correspond to
  * the source ones, and the commands each kind of integration turns into.
  * Server state is given as an oracle; commands are returned in order,
  * together with the file record as the code leaves it (it rewrites the
  * chosen record's `how`, `srev` and `erev` in place) and the exception
  * that stopped it, if any. */
module ScmP4Integrate {
  import opened Common
  import opened Strings
  import ScmRep
  import opened ScmP4Ingest

  // ---------------------------------------------------------------------
  // The servers, as the replay consults them

  /** What `p4 fstat -Or -m1` reports for a workspace file (None for a
    * field the reply does not carry). */
  datatype FStat = FStat(action: Option<string>, headAction: Option<string>, resolveActions: Option<seq<string>>)

  /** One revision of a source file's filelog: revision, change, submitter
    * and submit time (already rendered; None for the epoch). */
  datatype SrcRevision = SrcRevision(rev: int, change: nat, user: string, time: Option<string>)

  /** One revision of a target file's filelog. */
  datatype DstRevision = DstRevision(rev: nat, desc: string)

  /** The target server and workspace. */
  datatype Target = Target(
    fstat: string -> Option<FStat>,        // before this file's integration is opened
    fstatOpened: string -> Option<FStat>,  // once it has been opened
    onDisk: string -> bool,                // the workspace file exists
    editWarnings: string -> seq<string>,   // warnings `p4 edit` leaves for a file
    depotOf: string -> Option<string>,     // the workspace-to-depot map
    headRevOf: string -> Option<nat>,      // `p4 filelog -m1 <file>#head`
    dstFilelog: string -> seq<DstRevision>, // `p4 filelog -l`, newest first
    isUnicode: bool,
    root: string)

  /** The source session, when the replicator holds one. */
  datatype SourceSession = SourceSession(connected: bool, port: string, filelog: string -> seq<SrcRevision>)

  /** The command-line switches and the tag format in force. */
  datatype Options = Options(nointegrate: bool, allowmerge: bool, pattern: ScmRep.RepInfoPattern,
                             prefix: bool, replicateUserAndTimestamp: bool)

  /** Commands issued, the file record afterwards, and the exception that
    * stopped the work (None when it ran to the end). */
  datatype Step = Step(cmds: seq<P4Cmd>, file: ChangeRev, err: Option<Exc>)

  /** The commands replaying a file may issue: never a submit, a change
    * spec, a verify or anything on the source. */
  predicate ReplayCommands(cmds: seq<P4Cmd>)
  {
    forall c :: c in cmds ==> !(c.op.Submit? || c.op.Change? || c.op.Verify? || c.op.SyncSource?)
  }

  /** Replaying a file changes nothing in its record but its integration
    * records, and keeps their number. */
  predicate SameFile(a: ChangeRev, b: ChangeRev)
  {
    b.rev == a.rev && b.action == a.action && b.ftype == a.ftype && b.depotFile == a.depotFile &&
    b.localFile == a.localFile && b.targetDepotFile == a.targetDepotFile &&
    |b.integrations| == |a.integrations|
  }

  function Fail(cmds: seq<P4Cmd>, f: ChangeRev, msg: string): Step
  {
    Step(cmds, f, Some(Exc(RepP4Exception, msg)))
  }

  /** Commands run before a step. */
  function After(cmds: seq<P4Cmd>, s: Step): (r: Step)
    ensures r.file == s.file && r.err == s.err && r.cmds == cmds + s.cmds
    ensures ReplayCommands(cmds) && ReplayCommands(s.cmds) ==> ReplayCommands(r.cmds)
  {
    Step(cmds + s.cmds, s.file, s.err)
  }

  /** Python truthiness of an optional path. */
  predicate Truthy(o: Option<string>) { o.Some? && o.value != [] }

  /** `how in '<text>'`: a substring test, as the code writes it. */
  predicate HowIn(how: string, text: string)
  {
    exists i :: 0 <= i <= |text| && OccursAt(how, text, i)
  }

  predicate OccursAt(how: string, text: string, i: nat)
  {
    i + |how| <= |text| && text[i..i + |how|] == how
  }

  /** How a revision field prints. */
  function RevText(r: Rev): string
  {
    match r
    case Num(n) => IntToString(n)
    case Text(t) => t
  }

  // Commands
  function SyncCmd(flag: string, f: string): P4Cmd { P4Cmd(Sync, [flag, f]) }
  function AddCmd(t: string, f: string): P4Cmd { P4Cmd(Add, ["-ft", t, f]) }
  function EditTypeCmd(t: string, f: string): P4Cmd { P4Cmd(Edit, ["-t", t, f]) }
  function EditCmd(f: string): P4Cmd { P4Cmd(Edit, [f]) }
  function ReopenCmd(t: string, f: string): P4Cmd { P4Cmd(Reopen, ["-t", t, f]) }
  function DeleteCmd(f: string): P4Cmd { P4Cmd(Delete, ["-v", f]) }
  function IntegrateCmd(from: string, to: string): P4Cmd { P4Cmd(Integrate, ["-f", "-t", "-Rb", "-Rd", "-Di", from, to]) }

  /** The add+edit+reopen fallback, with the source's file type. */
  function AddEditReopen(f: ChangeRev): seq<P4Cmd>
  {
    [AddCmd(f.ftype, FixedLocalFile(f)), EditCmd(f.localFile), ReopenCmd(f.ftype, f.localFile)]
  }

  // ---------------------------------------------------------------------
  // The `how` vocabulary

  /** A `how in '<text>'` test holds when the two are equal, and never
    * when `how` is the longer. */
  lemma HowInLength(how: string, text: string)
    ensures how == text ==> HowIn(how, text)
    ensures |how| > |text| ==> !HowIn(how, text)
  {
    if how == text {
      assert OccursAt(how, text, 0);
    }
  }

  /** No occurrence can start where the first character is missing. */
  lemma FirstCharMissing(text: string, how: string)
    requires how != [] && forall i :: 0 <= i <= |text| - |how| ==> text[i] != how[0]
    ensures !HowIn(how, text)
  {
    forall i: nat | i <= |text|
      ensures !OccursAt(how, text, i)
    {
      if i + |how| <= |text| {
        assert text[i..i + |how|][0] == text[i];
      }
    }
  }

  // ---------------------------------------------------------------------
  // Choosing the record (`replicateIntegration`)

  /** Pops past trailing 'ignored' records while others remain. */
  function SkipIgnored(integs: seq<Integ>, k: nat): (r: nat)
    requires k < |integs|
    ensures r <= k
    ensures integs[r].how != "ignored" || r == 0
    ensures forall j :: r < j <= k ==> integs[j].how == "ignored"
  {
    if integs[k].how == "ignored" && k > 0 then SkipIgnored(integs, k - 1) else k
  }

  /** Pops on until a 'delete…' record while others remain. */
  function SeekDelete(integs: seq<Integ>, k: nat): (r: nat)
    requires k < |integs|
    ensures r <= k
    ensures StartsWith(integs[r].how, "delete") || r == 0
    ensures forall j :: r < j <= k ==> !StartsWith(integs[j].how, "delete")
  {
    if !StartsWith(integs[k].how, "delete") && k > 0 then SeekDelete(integs, k - 1) else k
  }

  /** The index of the record `replicateIntegration` ends up with. */
  function ChosenIndex(integs: seq<Integ>, action: string): (k: nat)
    requires |integs| > 0
    ensures k < |integs|
  {
    var k := SkipIgnored(integs, |integs| - 1);
    if action == "delete" then SeekDelete(integs, k) else k
  }

  /** Outside a delete, the chosen record is the newest one that is not
    * 'ignored' (the oldest one if all are). */
  lemma ChosenRecord(integs: seq<Integ>, action: string)
    requires |integs| > 0 && action != "delete"
    ensures var k := ChosenIndex(integs, action);
            (integs[k].how != "ignored" || k == 0) &&
            forall j :: k < j < |integs| ==> integs[j].how == "ignored"
  {
  }

  /** For a delete, the chosen record is a 'delete…' one whenever some
    * record at or before the newest non-'ignored' one is. */
  lemma ChosenDeleteRecord(integs: seq<Integ>, j: nat)
    requires j < |integs| && StartsWith(integs[j].how, "delete")
    requires j <= SkipIgnored(integs, |integs| - 1)
    ensures StartsWith(integs[ChosenIndex(integs, "delete")].how, "delete")
  {
    var k0 := SkipIgnored(integs, |integs| - 1);
    var k := SeekDelete(integs, k0);
    assert ChosenIndex(integs, "delete") == k;
  }

  /** The pops of `replicateIntegration` on a copy of the list. */
  method ChooseIntegration(integrations: seq<Integ>, action: string) returns (integ: Integ)
    requires |integrations| > 0
    ensures integ == integrations[ChosenIndex(integrations, action)]
  {
    var rest := integrations[..|integrations| - 1];
    integ := integrations[|integrations| - 1];
    while integ.how == "ignored" && rest != []
      decreases |rest|
      invariant |rest| < |integrations| && rest == integrations[..|rest|] && integ == integrations[|rest|]
      invariant SkipIgnored(integrations, |integrations| - 1) == SkipIgnored(integrations, |rest|)
    {
      integ := rest[|rest| - 1];
      rest := rest[..|rest| - 1];
    }
    assert SkipIgnored(integrations, |integrations| - 1) == |rest|;
    if action == "delete" {
      while !StartsWith(integ.how, "delete") && rest != []
        decreases |rest|
        invariant |rest| < |integrations| && rest == integrations[..|rest|] && integ == integrations[|rest|]
        invariant ChosenIndex(integrations, action) == SeekDelete(integrations, |rest|)
      {
        integ := rest[|rest| - 1];
        rest := rest[..|rest| - 1];
      }
    }
  }

  // ---------------------------------------------------------------------
  // translate_integration

  /** The source revision a revision field names: the last one in filelog
    * order whose number equals it (text never equals a number). */
  function SrcMatch(revs: seq<SrcRevision>, r: Rev): (m: Option<SrcRevision>)
    ensures m.Some? ==> m.value in revs && r == Num(m.value.rev)
    ensures m.None? <==> forall i :: 0 <= i < |revs| ==> r != Num(revs[i].rev)
  {
    if revs == [] then None
    else if r == Num(revs[|revs| - 1].rev) then Some(revs[|revs| - 1])
    else
      var m := SrcMatch(revs[..|revs| - 1], r);
      assert forall i :: 0 <= i < |revs| - 1 ==> revs[..|revs| - 1][i] == revs[i];
      m
  }

  /** The tag a replicated copy of that source change carries ("None" in
    * each field when there is no match). */
  function ProvenanceOf(m: Option<SrcRevision>, port: string): ScmRep.Provenance
  {
    match m
    case Some(x) => ScmRep.Provenance(port, Some(x.change), Some(x.user), x.time)
    case None => ScmRep.Provenance(port, None, None, None)
  }

  /** The last revision in list order whose description contains `sig`. */
  function LastWithSig(dst: seq<DstRevision>, sig: string): (r: Option<nat>)
    ensures r.None? <==> forall i :: 0 <= i < |dst| ==> !Contains(dst[i].desc, sig)
    ensures r.Some? ==> exists i :: 0 <= i < |dst| && dst[i].rev == r.value && Contains(dst[i].desc, sig) &&
                           forall j :: i < j < |dst| ==> !Contains(dst[j].desc, sig)
  {
    if dst == [] then None
    else if Contains(dst[|dst| - 1].desc, sig) then Some(dst[|dst| - 1].rev)
    else
      var r := LastWithSig(dst[..|dst| - 1], sig);
      assert forall i :: 0 <= i < |dst| - 1 ==> dst[..|dst| - 1][i] == dst[i];
      r
  }

  /** `translate_integration`: replaces the record's source revisions with
    * the target revisions whose descriptions carry the matching source
    * change's tag.  The end revision is the oldest such target revision;
    * the start revision the newest carrying the start change's tag, or the
    * end revision when none does.  Without a partner path or a source
    * session it changes nothing. */
  function TranslateIntegration(integ: Integ, tgt: Target, src: SourceSession, pattern: ScmRep.RepInfoPattern): Result<Integ>
  {
    if !Truthy(integ.targetDepotFile) || integ.file == [] || !src.connected then Ok(integ)
    else
      var tdf := integ.targetDepotFile.value;
      var srcLog := src.filelog(integ.file);
      var dstLog := tgt.dstFilelog(tdf);
      if dstLog == [] then Raise(RepP4Exception, "no file log for " + tdf)
      else if srcLog == [] then Raise(RepP4Exception, "no file log for " + integ.file)
      else
        var endSig := ScmRep.FormatReplicationInfo(pattern, ProvenanceOf(SrcMatch(srcLog, integ.erev), src.port));
        var startSig := ScmRep.FormatReplicationInfo(pattern, ProvenanceOf(SrcMatch(srcLog, integ.srev), src.port));
        var dstEnd := LastWithSig(dstLog, endSig);
        var dstStart := LastWithSig(Reverse(dstLog), startSig);
        if dstEnd.None? then
          Raise(RepP4Exception, "Integration " + tdf + "#" + RevText(integ.erev) + " not in target depot.")
        else
          var s := if dstStart.Some? then dstStart.value else dstEnd.value;
          Ok(integ.(srev := Text(NatToString(s)), erev := Text(NatToString(dstEnd.value))))
  }

  /** Searching the reversed list finds nothing exactly when no revision's
    * description contains `sig`. */
  lemma FirstWithSigNone(dst: seq<DstRevision>, sig: string)
    ensures LastWithSig(Reverse(dst), sig).None? <==> forall i :: 0 <= i < |dst| ==> !Contains(dst[i].desc, sig)
  {
    var rd := Reverse(dst);
    if LastWithSig(rd, sig).None? {
      forall i | 0 <= i < |dst|
        ensures !Contains(dst[i].desc, sig)
      {
        assert !Contains(rd[|dst| - 1 - i].desc, sig);
      }
    } else {
      var k := FirstWithSigSome(dst, sig);
    }
  }

  /** Searching the reversed list finds the first revision in list order
    * whose description contains `sig`. */
  lemma FirstWithSigSome(dst: seq<DstRevision>, sig: string) returns (i: nat)
    requires LastWithSig(Reverse(dst), sig).Some?
    ensures i < |dst| && dst[i].rev == LastWithSig(Reverse(dst), sig).value && Contains(dst[i].desc, sig) &&
            forall j :: 0 <= j < i ==> !Contains(dst[j].desc, sig)
  {
    var rd := Reverse(dst);
    var r := LastWithSig(rd, sig);
    var k :| 0 <= k < |rd| && rd[k].rev == r.value && Contains(rd[k].desc, sig) &&
             forall j :: k < j < |rd| ==> !Contains(rd[j].desc, sig);
    i := |dst| - 1 - k;
    assert dst[i] == rd[k];
    forall j | 0 <= j < i
      ensures !Contains(dst[j].desc, sig)
    {
      assert dst[j] == rd[|dst| - 1 - j];
    }
  }

  /** A translation that goes through stores both revisions as text: the
    * end one is a target revision whose description carries the end
    * change's tag, and no older revision carries it. */
  lemma TranslateStoresText(integ: Integ, tgt: Target, src: SourceSession, pattern: ScmRep.RepInfoPattern)
    requires Truthy(integ.targetDepotFile) && integ.file != [] && src.connected
    ensures var r := TranslateIntegration(integ, tgt, src, pattern);
            var dstLog := tgt.dstFilelog(integ.targetDepotFile.value);
            var endSig := ScmRep.FormatReplicationInfo(pattern, ProvenanceOf(SrcMatch(src.filelog(integ.file), integ.erev), src.port));
            (r.Ok? <==> dstLog != [] && src.filelog(integ.file) != [] &&
                        exists i :: 0 <= i < |dstLog| && Contains(dstLog[i].desc, endSig)) &&
            (r.Ok? ==> r.value.how == integ.how && r.value.srev.Text? && r.value.erev.Text? &&
                       exists i :: 0 <= i < |dstLog| && r.value.erev == Text(NatToString(dstLog[i].rev)) &&
                         Contains(dstLog[i].desc, endSig) &&
                         forall j :: i < j < |dstLog| ==> !Contains(dstLog[j].desc, endSig))
  {
  }

  /** The start revision of a translated record is the first target
    * revision listed whose description carries the start change's tag, or
    * the end revision when none does. */
  lemma TranslateStartRev(integ: Integ, tgt: Target, src: SourceSession, pattern: ScmRep.RepInfoPattern)
    requires Truthy(integ.targetDepotFile) && integ.file != [] && src.connected
    ensures var r := TranslateIntegration(integ, tgt, src, pattern);
            var dstLog := tgt.dstFilelog(integ.targetDepotFile.value);
            var startSig := ScmRep.FormatReplicationInfo(pattern, ProvenanceOf(SrcMatch(src.filelog(integ.file), integ.srev), src.port));
            (r.Ok? && (forall i :: 0 <= i < |dstLog| ==> !Contains(dstLog[i].desc, startSig)) ==>
               r.value.srev == r.value.erev) &&
            (r.Ok? && (exists i :: 0 <= i < |dstLog| && Contains(dstLog[i].desc, startSig)) ==>
               exists i :: 0 <= i < |dstLog| && r.value.srev == Text(NatToString(dstLog[i].rev)) &&
                 Contains(dstLog[i].desc, startSig) &&
                 forall j :: 0 <= j < i ==> !Contains(dstLog[j].desc, startSig))
  {
    var r := TranslateIntegration(integ, tgt, src, pattern);
    var dstLog := tgt.dstFilelog(integ.targetDepotFile.value);
    var startSig := ScmRep.FormatReplicationInfo(pattern, ProvenanceOf(SrcMatch(src.filelog(integ.file), integ.srev), src.port));
    if r.Ok? {
      TranslatedStart(integ, tgt, src, pattern);
      FirstWithSigNone(dstLog, startSig);
      if LastWithSig(Reverse(dstLog), startSig).Some? {
        var i := FirstWithSigSome(dstLog, startSig);
      }
    }
  }

  lemma TranslatedStart(integ: Integ, tgt: Target, src: SourceSession, pattern: ScmRep.RepInfoPattern)
    requires Truthy(integ.targetDepotFile) && integ.file != [] && src.connected
    requires TranslateIntegration(integ, tgt, src, pattern).Ok?
    ensures var r := TranslateIntegration(integ, tgt, src, pattern);
            var dstLog := tgt.dstFilelog(integ.targetDepotFile.value);
            var startSig := ScmRep.FormatReplicationInfo(pattern, ProvenanceOf(SrcMatch(src.filelog(integ.file), integ.srev), src.port));
            var dstStart := LastWithSig(Reverse(dstLog), startSig);
            (dstStart.Some? ==> r.value.srev == Text(NatToString(dstStart.value))) &&
            (dstStart.None? ==> r.value.srev == r.value.erev)
  {
  }

  /** Once translated, a record no longer matches any source revision, so
    * translating it again looks for the "None" tag and fails unless some
    * target description carries that. */
  lemma RetranslateFails(integ: Integ, tgt: Target, src: SourceSession, pattern: ScmRep.RepInfoPattern)
    requires Truthy(integ.targetDepotFile) && integ.file != [] && src.connected
    requires integ.erev.Text?
    requires var noneSig := ScmRep.FormatReplicationInfo(pattern, ScmRep.Provenance(src.port, None, None, None));
             forall d :: d in tgt.dstFilelog(integ.targetDepotFile.value) ==> !Contains(d.desc, noneSig)
    ensures TranslateIntegration(integ, tgt, src, pattern).Err?
  {
    var srcLog := src.filelog(integ.file);
    assert SrcMatch(srcLog, integ.erev).None?;
    var dstLog := tgt.dstFilelog(integ.targetDepotFile.value);
    assert forall i :: 0 <= i < |dstLog| ==> dstLog[i] in dstLog;
  }

  /** The loop of `translate_integration` over the source filelog: the
    * last revisions numbered `erev` and `srev`. */
  method MatchSourceRevisions(srcLog: seq<SrcRevision>, erev: Rev, srev: Rev)
    returns (srcEnd: Option<SrcRevision>, srcStart: Option<SrcRevision>)
    ensures srcEnd == SrcMatch(srcLog, erev) && srcStart == SrcMatch(srcLog, srev)
  {
    srcEnd, srcStart := None, None;
    var i := 0;
    while i < |srcLog|
      invariant 0 <= i <= |srcLog|
      invariant srcEnd == SrcMatch(srcLog[..i], erev) && srcStart == SrcMatch(srcLog[..i], srev)
    {
      assert srcLog[..i + 1][..i] == srcLog[..i];
      if Num(srcLog[i].rev) == erev {
        srcEnd := Some(srcLog[i]);
      }
      if Num(srcLog[i].rev) == srev {
        srcStart := Some(srcLog[i]);
      }
      i := i + 1;
    }
    assert srcLog[..i] == srcLog;
  }

  /** A loop of `translate_integration` over a target filelog: the last
    * revision whose description carries `sig`. */
  method LastTagged(dst: seq<DstRevision>, sig: string) returns (r: Option<nat>)
    ensures r == LastWithSig(dst, sig)
  {
    r := None;
    var j := 0;
    while j < |dst|
      invariant 0 <= j <= |dst|
      invariant r == LastWithSig(dst[..j], sig)
    {
      assert dst[..j + 1][..j] == dst[..j];
      if Contains(dst[j].desc, sig) {
        r := Some(dst[j].rev);
      }
      j := j + 1;
    }
    assert dst[..j] == dst;
  }

  /** The loops of `translate_integration` over the two filelogs. */
  method TranslateIntegrationLoop(integ: Integ, tgt: Target, src: SourceSession, pattern: ScmRep.RepInfoPattern)
    returns (r: Result<Integ>)
    ensures r == TranslateIntegration(integ, tgt, src, pattern)
  {
    if !Truthy(integ.targetDepotFile) || integ.file == [] {
      return Ok(integ);
    }
    if !src.connected {
      return Ok(integ);
    }
    var tdf := integ.targetDepotFile.value;
    var srcLog := src.filelog(integ.file);
    var dstLog := tgt.dstFilelog(tdf);
    if dstLog == [] {
      return Raise(RepP4Exception, "no file log for " + tdf);
    }
    if srcLog == [] {
      return Raise(RepP4Exception, "no file log for " + integ.file);
    }
    var srcEnd, srcStart := MatchSourceRevisions(srcLog, integ.erev, integ.srev);
    var endSig := ScmRep.FormatReplicationInfo(pattern, ProvenanceOf(srcEnd, src.port));
    var startSig := ScmRep.FormatReplicationInfo(pattern, ProvenanceOf(srcStart, src.port));
    var dstEnd := LastTagged(dstLog, endSig);
    var dstStart := LastTagged(Reverse(dstLog), startSig);
    if dstEnd.None? {
      return Raise(RepP4Exception, "Integration " + tdf + "#" + RevText(integ.erev) + " not in target depot.");
    }
    var s := if dstStart.Some? then dstStart.value else dstEnd.value;
    return Ok(integ.(srev := Text(NatToString(s)), erev := Text(NatToString(dstEnd.value))));
  }

  // ---------------------------------------------------------------------
  // checkIntegration

  /** Resolve actions counted as the same: a 'copy from' onto a deleted
    * file is recorded as 'branch from'. */
  function Variants(expected: string): seq<string>
  {
    if expected == "copy from" || expected == "branch from" then ["copy from", "branch from"] else [expected]
  }

  /** The message `checkIntegration` raises for bad resolve actions (the
    * code builds a tuple instead of formatting, so the template is what
    * the exception carries). */
  const ResolveMessage: string := "Unexpected resolveActions %s for file %s. Expected \"%s\""

  /** `checkIntegration`: the opened file must carry the file's action and
    * a resolve record of the expected kind. */
  function CheckIntegration(f: ChangeRev, expected: string, tgt: Target): (e: Option<Exc>)
    ensures e.None? <==>
              var st := tgt.fstatOpened(f.localFile);
              st.Some? && st.value.action == Some(f.action) && st.value.resolveActions.Some? &&
              var ra := st.value.resolveActions.value;
              1 <= |ra| <= |f.integrations| + 1 &&
              (exists v :: v in Variants(expected) && v in ra) &&
              (|ra| > |f.integrations| ==> ra[|ra| - 1] == "resolved")
  {
    var tdf := OptText(f.targetDepotFile);
    match tgt.fstatOpened(f.localFile)
    case None => Some(Exc(RepP4Exception, "Failed to retrieve fstat for " + tdf))
    case Some(st) =>
      if st.action.None? then
        Some(Exc(RepP4Exception, "Failed to replicate action \"" + f.action + "\" into target " + tdf))
      else if st.action.value != f.action then
        Some(Exc(RepP4Exception, "Unexpected action \"" + st.action.value + "\" for file " + tdf +
                                 ". Expected \"" + f.action + "\""))
      else if st.resolveActions.None? then Some(Exc(KeyError, "'resolveAction'"))
      else
        var ra := st.resolveActions.value;
        var n := |f.integrations|;
        if |ra| < 1 || |ra| > n + 1 then Some(Exc(RepP4Exception, ResolveMessage))
        else if !(exists v :: v in Variants(expected) && v in ra) then Some(Exc(RepP4Exception, ResolveMessage))
        else if |ra| > n && ra[|ra| - 1] != "resolved" then Some(Exc(RepP4Exception, ResolveMessage))
        else None
  }

  /** Expecting 'copy from' and expecting 'branch from' are the same check. */
  lemma CopyBranchSameCheck(f: ChangeRev, tgt: Target)
    ensures CheckIntegration(f, "copy from", tgt) == CheckIntegration(f, "branch from", tgt)
  {
    assert Variants("copy from") == Variants("branch from");
  }

  /** The commands, then the check. */
  function Checked(cmds: seq<P4Cmd>, f: ChangeRev, expected: string, tgt: Target): Step
  {
    Step(cmds, f, CheckIntegration(f, expected, tgt))
  }

  // ---------------------------------------------------------------------
  // _no_integrate and replicate_file_integrate

  /** `_no_integrate`: the plain add/edit/delete standing in for an
    * integration. */
  function NoIntegrate(f: ChangeRev, integ: Integ, tgt: Target): (s: Step)
    ensures s.file == f && ReplayCommands(s.cmds)
    ensures forall c :: c in s.cmds ==> !c.op.Integrate?
  {
    var t, l, fx := f.ftype, f.localFile, FixedLocalFile(f);
    var how := integ.how;
    if how == "branch from" || how == "add from" then Step([AddCmd(t, fx)], f, None)
    else if HowIn(how, "delete from") then Step([DeleteCmd(l)], f, None)
    else if HowIn(how, "copy from") then
      match tgt.fstat(l)
      case Some(st) =>
        if st.action == Some("delete") then Step([P4Cmd(Revert, ["-k", l]), AddCmd(t, l)], f, None)
        else Step([SyncCmd("-k", l), EditTypeCmd(t, l)], f, None)
      case None => Step([AddCmd(t, fx)], f, None)
    else if how == "merge from" || how == "edit from" then Step([SyncCmd("-k", l), EditTypeCmd(t, l)], f, None)
    else if HowIn(how, "ignored") then Step([SyncCmd("-k", l), EditCmd(l)], f, None)
    else Fail([], f, "Unexpected action " + how + " for " + f.depotFile + "#" + NatToString(f.rev))
  }

  /** `_no_integrate` refuses 'undid'... */
  lemma NoIntegrateRefusesUndo(f: ChangeRev, integ: Integ, tgt: Target)
    requires integ.how == "undid"
    ensures NoIntegrate(f, integ, tgt).err.Some?
  {
    FirstCharMissing("delete from", "undid");
    FirstCharMissing("copy from", "undid");
    FirstCharMissing("ignored", "undid");
  }

  /** ...and 'moved from'... */
  lemma NoIntegrateRefusesMove(f: ChangeRev, integ: Integ, tgt: Target)
    requires integ.how == "moved from"
    ensures NoIntegrate(f, integ, tgt).err.Some?
  {
    FirstCharMissing("delete from", "moved from");
    HowInLength("moved from", "copy from");
    HowInLength("moved from", "ignored");
  }

  /** ...and replays every other kept `how`. */
  lemma NoIntegrateAccepts(f: ChangeRev, integ: Integ, tgt: Target)
    requires integ.how in IntegFromActions && integ.how != "undid" && integ.how != "moved from"
    ensures NoIntegrate(f, integ, tgt).err.None?
  {
    HowInLength(integ.how, integ.how);
  }

  /** The `how` the record is replayed as: a record whose partner is the
    * file itself becomes 'copy from' (unless it is an undo), and without
    * --allowmerge a 'merge from' becomes 'edit from'. */
  function RewrittenHow(f: ChangeRev, partner: Integ, tgt: Target, allowmerge: bool): string
  {
    var how := if !HowIn(partner.how, "undid") && partner.targetDepotFile == tgt.depotOf(f.localFile)
               then "copy from" else partner.how;
    if !allowmerge && how == "merge from" then "edit from" else how
  }

  /** `replicate_file_integrate` on the record at index `k`. */
  function FileIntegrate(f: ChangeRev, k: nat, tgt: Target, opts: Options): (s: Step)
    requires k < |f.integrations|
    ensures SameFile(f, s.file) && ReplayCommands(s.cmds)
    ensures forall j :: 0 <= j < |f.integrations| && j != k ==> s.file.integrations[j] == f.integrations[j]
    ensures opts.nointegrate ==> forall c :: c in s.cmds ==> !c.op.Integrate?
  {
    var partner := f.integrations[k];
    if opts.nointegrate || !Truthy(partner.localFile) || !Truthy(partner.targetDepotFile) then
      NoIntegrate(f, partner, tgt)
    else
      var ptdf := partner.targetDepotFile.value;
      var pfr := ptdf + "#" + RevText(partner.srev) + ",#" + RevText(partner.erev);
      var atEnd := ptdf + "#" + RevText(partner.erev);
      var how := RewrittenHow(f, partner, tgt, opts.allowmerge);
      IntegrateAs(f, f.(integrations := f.integrations[k := partner.(how := how)]), how, pfr, atEnd,
                  partner.targetDepotFile == f.targetDepotFile, tgt)
  }

  /** The commands `replicate_file_integrate` issues for the rewritten
    * action `how`, from the revision range `pfr` (or the single revision
    * `atEnd`); `f'` is the record carrying the rewritten action. */
  function IntegrateAs(f: ChangeRev, f': ChangeRev, how: string, pfr: string, atEnd: string, selfCopy: bool,
                       tgt: Target): (s: Step)
    ensures s.file == f' && ReplayCommands(s.cmds)
  {
    var l, fx, t := f.localFile, FixedLocalFile(f), f.ftype;
    if HowIn(how, "add from") then
      Checked([SyncCmd("-k", atEnd), AddCmd(t, fx)], f', how, tgt)
    else if HowIn(how, "copy from") && selfCopy then
      Step([SyncCmd("-k", OptText(f.targetDepotFile)), P4Cmd(Copy, ["-f", atEnd, OptText(f.targetDepotFile)])], f', None)
    else if how == "branch from" || how == "delete from" || how == "copy from" then
      Checked([IntegrateCmd(pfr, l), P4Cmd(Resolve, ["-at"])], f', how, tgt)
    else if HowIn(how, "ignored") then
      Checked([SyncCmd("-f", l), IntegrateCmd(pfr, l), P4Cmd(Resolve, ["-ay"])], f', how, tgt)
    else if HowIn(how, "merge from") then
      var from := if tgt.onDisk(l) then pfr else atEnd;
      Checked([SyncCmd("-f", l), P4Cmd(Integrate, [from, l]), P4Cmd(Resolve, ["-am"])], f', how, tgt)
    else if HowIn(how, "edit from") then
      Checked([SyncCmd("-f", l), P4Cmd(Integrate, ["-f", pfr, l]), P4Cmd(Resolve, ["-ae"])], f', how, tgt)
    else if HowIn(how, "undid") then
      Checked([P4Cmd(Undo, [pfr])], f', how, tgt)
    else
      Fail([], f', "Unexpected integration action " + how)
  }

  /** Without --allowmerge no 'merge from' is replayed as a merge. */
  lemma NoMergeWithoutAllowmerge(f: ChangeRev, partner: Integ, tgt: Target)
    ensures RewrittenHow(f, partner, tgt, false) != "merge from"
  {
  }

  /** A record whose partner is the file itself is replayed as a copy
    * (an undo stays an undo). */
  lemma SelfPartnerCopies(f: ChangeRev, partner: Integ, tgt: Target, allowmerge: bool)
    requires partner.targetDepotFile == tgt.depotOf(f.localFile) && partner.how != "undid"
    requires partner.how in IntegFromActions
    ensures RewrittenHow(f, partner, tgt, allowmerge) == "copy from"
  {
    HowInLength(partner.how, "undid");
  }

  // ---------------------------------------------------------------------
  // replicateIntegration

  /** `replicateIntegration`: picks the record, translates its revisions,
    * and integrates it; a failed translation falls back to
    * add+edit+reopen. */
  function ReplicateIntegration(f: ChangeRev, tgt: Target, src: SourceSession, opts: Options): (s: Step)
    ensures SameFile(f, s.file) && ReplayCommands(s.cmds)
    ensures f.integrations == [] ==> s.err.Some?
    ensures opts.nointegrate ==> forall c :: c in s.cmds ==> !c.op.Integrate?
  {
    if f.integrations == [] then Fail([], f, "No integration for " + f.depotFile + "#" + NatToString(f.rev))
    else
      var k := ChosenIndex(f.integrations, f.action);
      var integ := f.integrations[k];
      if !opts.nointegrate && Truthy(integ.localFile) && Truthy(integ.targetDepotFile) then
        match TranslateIntegration(integ, tgt, src, opts.pattern)
        case Err(_) => Step(AddEditReopen(f), f, None)
        case Ok(t) => FileIntegrate(f.(integrations := f.integrations[k := t]), k, tgt, opts)
      else
        FileIntegrate(f, k, tgt, opts)
  }

  /** A failed translation degrades to add, edit and reopen with the
    * source's file type, and nothing is integrated. */
  lemma DegradeOnTranslateFailure(f: ChangeRev, tgt: Target, src: SourceSession, opts: Options)
    requires f.integrations != []
    requires var integ := f.integrations[ChosenIndex(f.integrations, f.action)];
             !opts.nointegrate && Truthy(integ.localFile) && Truthy(integ.targetDepotFile) &&
             TranslateIntegration(integ, tgt, src, opts.pattern).Err?
    ensures var s := ReplicateIntegration(f, tgt, src, opts);
            s.err.None? && s.file == f && s.cmds == AddEditReopen(f) &&
            forall c :: c in s.cmds ==> !c.op.Integrate?
  {
  }

  // ---------------------------------------------------------------------
  // _replicate_move

  /** `int()` of a revision field. */
  function RevInt(r: Rev): Option<int>
  {
    match r
    case Num(n) => Some(n)
    case Text(t) => if t != [] && AllDigits(t) then Some(ParseDigits(t)) else None
  }

  /** `_replicate_move` for a move/add that carries integration records. */
  function ReplicateMove(f: ChangeRev, tgt: Target, src: SourceSession, opts: Options): (s: Step)
    ensures SameFile(f, s.file) && ReplayCommands(s.cmds)
  {
    var l, fx, t := f.localFile, FixedLocalFile(f), f.ftype;
    var st := tgt.fstat(l);
    if st.Some? && st.value.headAction.None? then Step([], f, Some(Exc(KeyError, "'headAction'")))
    else
      var inTarget := st.Some? && !Contains(st.value.headAction.value, "delete");
      if |f.integrations| > 1 then
        Step(if inTarget then [P4Cmd(Edit, ["-k", "-t", t, l])] else [AddCmd(t, fx)], f, None)
      else if f.integrations == [] then Step([], f, None)
      else
        var tr := TranslateIntegration(f.integrations[0], tgt, src, opts.pattern);
        MoveOne(f, f.(integrations := [if tr.Ok? then tr.value else f.integrations[0]]), tr.Ok?, tgt, opts)
  }

  /** `_replicate_move` once its only record, in `f1`, is translated
    * (`translated`) or left as it came. */
  function MoveOne(f: ChangeRev, f1: ChangeRev, translated: bool, tgt: Target, opts: Options): (s: Step)
    requires |f1.integrations| == 1 && SameFile(f, f1)
    ensures SameFile(f, s.file) && ReplayCommands(s.cmds)
  {
    var l, fx, t := f.localFile, FixedLocalFile(f), f.ftype;
    var integ1 := f1.integrations[0];
    if Truthy(integ1.targetDepotFile) && integ1.how == "moved from" && RevInt(integ1.erev).None? then
      Step([], f1, Some(Exc(ValueError, "invalid literal for int() with base 10")))
    else
      var fromLast :=
        if Truthy(integ1.targetDepotFile) && integ1.how == "moved from" then
          match tgt.headRevOf(integ1.targetDepotFile.value)
          case None => false
          case Some(h) => !(RevInt(integ1.erev).value < h)
        else true;
      if !opts.nointegrate && Truthy(integ1.localFile) && Truthy(integ1.targetDepotFile) && translated && fromLast then
        if HowIn(integ1.how, "moved from") then
          var from := integ1.targetDepotFile.value;
          Checked([SyncCmd("-f", from + "#" + RevText(integ1.erev)), EditCmd(from), P4Cmd(Move, ["-k", from, l])],
                  f1, integ1.how, tgt)
        else
          FileIntegrate(f1, 0, tgt, opts)
      else if HowIn(integ1.how, "moved from") then Step([AddCmd(t, fx)], f1, None)
      else if integ1.how == "branch from" || integ1.how == "merge from" then Step([], f1, None)
      else if HowIn(integ1.how, "edit from") then Step([P4Cmd(Edit, ["-k", "-t", t, l])], f1, None)
      else if HowIn(integ1.how, "copy from") then Step([], f1, None)
      else Fail([], f1, "")
  }

  /** A move whose partner cannot be found in the target is replayed as a
    * plain add, never as `p4 move`. */
  lemma UntranslatedMoveAdds(f: ChangeRev, tgt: Target, src: SourceSession, opts: Options)
    requires |f.integrations| == 1 && f.integrations[0].how == "moved from"
    requires var st := tgt.fstat(f.localFile); st.None? || st.value.headAction.Some?
    requires TranslateIntegration(f.integrations[0], tgt, src, opts.pattern).Err?
    ensures var s := ReplicateMove(f, tgt, src, opts);
            s.err.None? ==> s.cmds == [AddCmd(f.ftype, FixedLocalFile(f))]
  {
    HowInLength("moved from", "moved from");
  }

  /** A move from a revision older than the moved-from file's head is
    * replayed as a plain add, never as `p4 move`. */
  lemma MoveFromOldRevisionAdds(f: ChangeRev, tgt: Target, src: SourceSession, opts: Options, e: int, h: nat)
    requires |f.integrations| == 1
    requires var st := tgt.fstat(f.localFile); st.None? || st.value.headAction.Some?
    requires var tr := TranslateIntegration(f.integrations[0], tgt, src, opts.pattern);
             tr.Ok? && tr.value.how == "moved from" && Truthy(tr.value.targetDepotFile) &&
             RevInt(tr.value.erev) == Some(e) && tgt.headRevOf(tr.value.targetDepotFile.value) == Some(h) && e < h
    ensures var s := ReplicateMove(f, tgt, src, opts);
            s.err.None? && s.cmds == [AddCmd(f.ftype, FixedLocalFile(f))]
  {
    HowInLength("moved from", "moved from");
  }
}
