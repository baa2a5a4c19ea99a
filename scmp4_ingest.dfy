/** The reading half of the Perforce replication engine (`lib/scmp4.py`):
  * which source changes to replay, the per-file records built from
  * `p4 describe` and `p4 filelog`, and the checks made on them before
  * anything is opened in the target workspace.  Server replies are
  * parameters; the one command issued here (`p4 revert`) is returned. */
module ScmP4Ingest {
  import opened Common
  import opened Strings
  import ScmRep
  import ScmP4Names

  // ---------------------------------------------------------------------
  // Records

  /** A revision field of an integration record.  Perforce hands out
    * numbers; once `translate_integration` has found the matching target
    * revisions it stores them back as text. */
  datatype Rev = Num(n: int) | Text(t: string)

  /** An integration record as `p4 filelog` reports it. */
  datatype RawInteg = RawInteg(how: string, file: string, srev: int, erev: int)

  /** An integration record kept for replay, with the partner's workspace
    * path and (once known) its path in the target depot. */
  datatype Integ = Integ(how: string, file: string, srev: Rev, erev: Rev,
                         localFile: Option<string>, targetDepotFile: Option<string>)

  /** `ChangeRevision`: one file revision of a source change. */
  datatype ChangeRev = ChangeRev(rev: nat, action: string, ftype: string, depotFile: string,
                                 localFile: string, integrations: seq<Integ>,
                                 targetDepotFile: Option<string>)

  /** `fixedLocalFile`: the workspace path with Perforce's `%xx` escapes
    * undone, for talking to the file system. */
  function FixedLocalFile(f: ChangeRev): string
  {
    ScmP4Names.DecodeWildcards(f.localFile)
  }

  /** One entry of `p4 changes -l`. */
  datatype P4Change = P4Change(change: nat, desc: string, user: Option<string>, time: Option<string>)

  /** Python's `str()` of an optional value. */
  function OptText(o: Option<string>): string
  {
    match o
    case Some(s) => s
    case None => "None"
  }

  // ---------------------------------------------------------------------
  // reorder_change_revisions

  /** The sort key: move/deletes last, move/adds just before them. */
  function MoveRank(f: ChangeRev): nat
  {
    if f.action == "move/delete" then 2 else if f.action == "move/add" then 1 else 0
  }

  /** The revisions of one rank, in their original order. */
  function WithRank(s: seq<ChangeRev>, k: nat): (r: seq<ChangeRev>)
    ensures |r| <= |s|
    ensures forall i :: 0 <= i < |r| ==> MoveRank(r[i]) == k
  {
    if s == [] then [] else (if MoveRank(s[0]) == k then [s[0]] else []) + WithRank(s[1..], k)
  }

  /** What a stable sort on `MoveRank` leaves. */
  function ByRank(s: seq<ChangeRev>): (r: seq<ChangeRev>)
    ensures forall i, j :: 0 <= i < j < |r| ==> MoveRank(r[i]) <= MoveRank(r[j])
  {
    var a, b, c := WithRank(s, 0), WithRank(s, 1), WithRank(s, 2);
    assert forall i :: 0 <= i < |a + b + c| ==>
      MoveRank((a + b + c)[i]) == if i < |a| then 0 else if i < |a| + |b| then 1 else 2;
    a + b + c
  }

  lemma {:induction false} WithRankAppend(x: seq<ChangeRev>, y: seq<ChangeRev>, k: nat)
    ensures WithRank(x + y, k) == WithRank(x, k) + WithRank(y, k)
  {
    if x == [] {
      assert x + y == y;
    } else {
      assert (x + y)[0] == x[0] && (x + y)[1..] == x[1..] + y;
      WithRankAppend(x[1..], y, k);
    }
  }

  lemma {:induction false} WithRankOf(s: seq<ChangeRev>, j: nat, k: nat)
    ensures WithRank(WithRank(s, j), k) == if j == k then WithRank(s, j) else []
  {
    if s != [] {
      var h := if MoveRank(s[0]) == j then [s[0]] else [];
      WithRankAppend(h, WithRank(s[1..], j), k);
      WithRankOf(s[1..], j, k);
    }
  }

  lemma {:induction false} WithRankMultiset(s: seq<ChangeRev>)
    ensures multiset(WithRank(s, 0)) + multiset(WithRank(s, 1)) + multiset(WithRank(s, 2)) == multiset(s)
  {
    if s != [] {
      var x, t := s[0], s[1..];
      WithRankMultiset(t);
      assert s == [x] + t;
      WithRankHead(s, 0);
      WithRankHead(s, 1);
      WithRankHead(s, 2);
    }
  }

  lemma WithRankHead(s: seq<ChangeRev>, k: nat)
    requires s != []
    ensures multiset(WithRank(s, k)) ==
            (if MoveRank(s[0]) == k then multiset{s[0]} else multiset{}) + multiset(WithRank(s[1..], k))
  {
  }

  /** The reordering loses and invents nothing. */
  lemma ByRankPermutation(s: seq<ChangeRev>)
    ensures multiset(ByRank(s)) == multiset(s)
    ensures |ByRank(s)| == |s|
  {
    WithRankMultiset(s);
    assert |multiset(ByRank(s))| == |multiset(s)|;
  }

  /** The reordering is stable: the revisions of each rank keep their order. */
  lemma ByRankStable(s: seq<ChangeRev>, k: nat)
    ensures WithRank(ByRank(s), k) == WithRank(s, k)
  {
    var a, b, c := WithRank(s, 0), WithRank(s, 1), WithRank(s, 2);
    WithRankAppend(a + b, c, k);
    WithRankAppend(a, b, k);
    WithRankOf(s, 0, k);
    WithRankOf(s, 1, k);
    WithRankOf(s, 2, k);
    if k > 2 {
      WithRankNone(s, k);
    }
  }

  lemma {:induction false} WithRankNone(s: seq<ChangeRev>, k: nat)
    requires k > 2
    ensures WithRank(s, k) == []
  {
    if s != [] {
      WithRankNone(s[1..], k);
    }
  }

  /** `reorder_change_revisions`: sorts the list in place by `MoveRank`,
    * keeping the order within each rank; it returns nothing. */
  method ReorderChangeRevisions(a: array<ChangeRev>)
    modifies a
    ensures a[..] == ByRank(old(a[..]))
  {
    ghost var s := a[..];
    var plain, adds, dels := [], [], [];
    var i := 0;
    while i < a.Length
      invariant 0 <= i <= a.Length && a[..] == s
      invariant plain == WithRank(s[..i], 0) && adds == WithRank(s[..i], 1) && dels == WithRank(s[..i], 2)
    {
      assert s[..i + 1] == s[..i] + [a[i]];
      WithRankAppend(s[..i], [a[i]], 0);
      WithRankAppend(s[..i], [a[i]], 1);
      WithRankAppend(s[..i], [a[i]], 2);
      if a[i].action == "move/delete" {
        dels := dels + [a[i]];
      } else if a[i].action == "move/add" {
        adds := adds + [a[i]];
      } else {
        plain := plain + [a[i]];
      }
      i := i + 1;
    }
    assert s[..a.Length] == s;
    var r := plain + adds + dels;
    ByRankPermutation(s);
    var j := 0;
    while j < a.Length
      invariant 0 <= j <= a.Length
      invariant forall k :: 0 <= k < j ==> a[k] == r[k]
    {
      a[j] := r[j];
      j := j + 1;
    }
    assert a[..] == r;
  }

  // ---------------------------------------------------------------------
  // get_changes_to_replicate and get_commit_message_of_rev

  /** The revision range asked of `p4 changes`: from the counter to
    * ENDCHANGE, or to the head when ENDCHANGE is unset (or 0). */
  function ChangesRange(counter: int, endChange: int): (r: string)
    ensures StartsWith(r, "...@" + IntToString(counter) + ",")
    ensures endChange == 0 <==> EndsWith(r, "#head")
  {
    var start := "...@" + IntToString(counter) + ",";
    if endChange != 0 then
      var e := IntToString(endChange);
      assert IsDigit(e[|e| - 1]) by {
        if endChange < 0 {
          assert e[|e| - 1] == NatToString(-endChange)[|e| - 2];
        }
      }
      assert (start + "@" + e)[|start + "@" + e| - 1] == e[|e| - 1];
      start + "@" + e
    else
      start + "#head"
  }

  /** `get_changes_to_replicate` on the reply of `p4 changes` (newest
    * first): oldest first, without the change the counter names, and at
    * most `maximum` of them when a maximum is set (a negative one drops
    * that many from the end, as the slice does). */
  function ChangesToReplicate(newestFirst: seq<P4Change>, counter: int, maximum: int): (r: seq<P4Change>)
  {
    var rest := SkipCounter(Reverse(newestFirst), counter);
    if maximum != 0 then SliceTo(rest, maximum) else rest
  }

  /** Drops a first change equal to the counter (already replicated). */
  function SkipCounter(oldest: seq<P4Change>, counter: int): seq<P4Change>
  {
    if |oldest| > 0 && oldest[0].change == counter then oldest[1..] else oldest
  }

  predicate Increasing(s: seq<P4Change>)
  {
    forall i, j :: 0 <= i < j < |s| ==> s[i].change < s[j].change
  }

  /** The changes the server lists for `...@counter,` are the changes at
    * or after the counter, newest first. */
  predicate ChangesReply(newestFirst: seq<P4Change>, counter: int)
  {
    (forall i :: 0 <= i < |newestFirst| ==> newestFirst[i].change >= counter) &&
    (forall i, j :: 0 <= i < j < |newestFirst| ==> newestFirst[i].change > newestFirst[j].change)
  }

  lemma OldestFirst(newestFirst: seq<P4Change>, counter: int)
    requires ChangesReply(newestFirst, counter)
    ensures Increasing(Reverse(newestFirst))
    ensures forall c :: c in Reverse(newestFirst) <==> c in newestFirst
    ensures forall c :: c in newestFirst ==> c.change >= counter
  {
    var n := |newestFirst|;
    var oldest := Reverse(newestFirst);
    forall i, j | 0 <= i < j < n ensures oldest[i].change < oldest[j].change {
      assert oldest[i] == newestFirst[n - 1 - i] && oldest[j] == newestFirst[n - 1 - j];
    }
    forall c | c in newestFirst ensures c.change >= counter {
      var k :| 0 <= k < n && newestFirst[k] == c;
    }
    ReverseSameElements(newestFirst);
  }

  lemma ReverseSameElements<T>(s: seq<T>)
    ensures forall c :: c in Reverse(s) <==> c in s
  {
    var n, r := |s|, Reverse(s);
    forall c | c in s ensures c in r {
      var k :| 0 <= k < n && s[k] == c;
      assert r[n - 1 - k] == c;
    }
    forall c | c in r ensures c in s {
      var k :| 0 <= k < n && r[k] == c;
      assert s[n - 1 - k] == c;
    }
  }

  lemma SkipCounterAfter(oldest: seq<P4Change>, counter: int)
    requires Increasing(oldest)
    requires forall c :: c in oldest ==> c.change >= counter
    ensures var rest := SkipCounter(oldest, counter);
            Increasing(rest) &&
            (forall i :: 0 <= i < |rest| ==> rest[i].change > counter) &&
            forall c :: c in oldest && c.change > counter ==> c in rest
  {
    var rest := SkipCounter(oldest, counter);
    forall i | 0 <= i < |rest| ensures rest[i].change > counter {
      if |oldest| > 0 && oldest[0].change == counter {
        assert rest[i] == oldest[i + 1];
      } else if i > 0 {
        assert oldest[0] in oldest;
      }
    }
    forall c | c in oldest && c.change > counter ensures c in rest {
      if |oldest| > 0 && oldest[0].change == counter {
        assert oldest == [oldest[0]] + rest;
      }
    }
  }

  /** What replays next: changes after the counter, oldest first, none
    * skipped, and no more than the maximum. */
  lemma ChangesAfterCounter(newestFirst: seq<P4Change>, counter: int, maximum: int)
    requires ChangesReply(newestFirst, counter)
    ensures var r := ChangesToReplicate(newestFirst, counter, maximum);
            (forall i :: 0 <= i < |r| ==> r[i].change > counter) &&
            Increasing(r) &&
            (maximum > 0 ==> |r| <= maximum) &&
            ((maximum == 0 || |r| < maximum) ==>
               forall c :: c in newestFirst && c.change > counter ==> c in r)
  {
    OldestFirst(newestFirst, counter);
    SkipCounterAfter(Reverse(newestFirst), counter);
    var rest := SkipCounter(Reverse(newestFirst), counter);
    if maximum != 0 {
      PrefixAfter(rest, |SliceTo(rest, maximum)|, counter);
    }
  }

  lemma PrefixAfter(rest: seq<P4Change>, m: nat, counter: int)
    requires m <= |rest| && Increasing(rest)
    requires forall i :: 0 <= i < |rest| ==> rest[i].change > counter
    ensures Increasing(rest[..m]) && forall i :: 0 <= i < m ==> rest[..m][i].change > counter
  {
    assert forall i :: 0 <= i < m ==> rest[..m][i] == rest[i];
  }

  /** `get_commit_message_of_rev` on the reply of `p4 changes -m num`
    * (newest first): the descriptions of at most `num` changes, oldest
    * first. */
  function CommitMessagesOfRev(newestFirst: seq<P4Change>, num: nat): (r: seq<string>)
    ensures |r| == if |newestFirst| <= num then |newestFirst| else num
    ensures forall i :: 0 <= i < |r| ==> r[i] == newestFirst[|r| - 1 - i].desc
  {
    var got := if |newestFirst| <= num then newestFirst else newestFirst[..num];
    Reverse(seq(|got|, i requires 0 <= i < |got| => got[i].desc))
  }

  /** `get_replicated_rev` over this server: no target history gives [],
    * otherwise one decoded revision per description, at most 64 of them,
    * the newest last. */
  lemma ReplicatedRevWindow(newestFirst: seq<P4Change>, pattern: ScmRep.RepInfoPattern)
    ensures var r := ScmRep.GetReplicatedRev(CommitMessagesOfRev(newestFirst, 64), pattern);
            (r == [] <==> newestFirst == []) && |r| <= 64 &&
            (r != [] ==> r[|r| - 1] == ScmRep.GetRevisionFromDesc(newestFirst[0].desc, pattern.extracter))
  {
    var d := CommitMessagesOfRev(newestFirst, 64);
    if d != [] {
      assert d[|d| - 1] == newestFirst[0].desc;
    }
  }

  // ---------------------------------------------------------------------
  // get_filelogs

  const FilesPerRun: nat := 255
  const NoSuchFile: string := " - no such file(s)."

  /** What `p4 filelog -m1` returns for one group of files: the filelogs
    * it found, and the warnings it left for the others. */
  datatype FilelogReply<L> = FilelogReply(logs: seq<L>, warnings: seq<string>)

  /** The truthy names (`None` and '' dropped). */
  function NamedFiles(fs: seq<Option<string>>): (r: seq<string>)
    ensures forall x :: x in r <==> Some(x) in fs && x != []
  {
    if fs == [] then []
    else (if fs[0].Some? && fs[0].value != [] then [fs[0].value] else []) + NamedFiles(fs[1..])
  }

  /** The groups of at most 255 files asked about per `p4 filelog` call. */
  function Groups(fs: seq<string>): (r: seq<seq<string>>)
    ensures forall g, x :: g in r && x in g ==> x in fs
    ensures forall x :: x in fs ==> exists g :: g in r && x in g
    decreases |fs|
  {
    if |fs| <= FilesPerRun then [fs]
    else
      var rest := Groups(fs[FilesPerRun..]);
      assert forall x :: x in fs ==> x in fs[..FilesPerRun] || x in fs[FilesPerRun..] by {
        assert fs == fs[..FilesPerRun] + fs[FilesPerRun..];
      }
      [fs[..FilesPerRun]] + rest
  }

  /** The depot path a `no such file(s)` warning names. */
  function WarnedPath(w: string): string
  {
    if |w| > |NoSuchFile| then w[..|w| - |NoSuchFile|] else []
  }

  /** The path part of a `file#rev` name. */
  function PathOf(f: string): string
  {
    match IndexOf(f, '#')
    case Some(k) => f[..k]
    case None => f
  }

  function Warned(tdfs: seq<string>, warned: seq<string>): (r: seq<string>)
    ensures forall x :: x in r <==> x in tdfs && PathOf(x) !in warned
  {
    if tdfs == [] then []
    else (if PathOf(tdfs[0]) in warned then [] else [tdfs[0]]) + Warned(tdfs[1..], warned)
  }

  /** `dict(zip(names, logs))`. */
  function ZipLogs<L>(names: seq<string>, logs: seq<L>): (m: map<string, Option<L>>)
    ensures forall x :: x in m ==> x in names && m[x].Some?
    ensures |names| <= |logs| ==> forall x :: x in names ==> x in m
  {
    if names == [] || logs == [] then map[]
    else map[names[0] := Some(logs[0])] + ZipLogs(names[1..], logs[1..])
  }

  /** The filelogs of one group.  When the counts differ, files named in a
    * `no such file(s)` warning map to None and the rest are paired with
    * the logs in order. */
  function GroupLogs<L>(tdfs: seq<string>, reply: FilelogReply<L>): (m: map<string, Option<L>>)
    ensures forall x :: x in m ==> x in tdfs
    ensures |tdfs| == |reply.logs| ==> forall x :: x in tdfs ==> x in m && m[x].Some?
  {
    if |tdfs| == |reply.logs| then ZipLogs(tdfs, reply.logs)
    else
      var warned := seq(|reply.warnings|, i requires 0 <= i < |reply.warnings| => WarnedPath(reply.warnings[i]));
      var missing := map x | x in tdfs && PathOf(x) in warned :: None;
      missing + ZipLogs(Warned(tdfs, warned), reply.logs)
  }

  /** The loop over the groups, each call's result merged in. */
  function MergeGroups<L>(groups: seq<seq<string>>, replyOf: seq<string> -> FilelogReply<L>,
                          acc: map<string, Option<L>>): map<string, Option<L>>
  {
    if groups == [] then acc
    else if groups[0] == [] then MergeGroups(groups[1..], replyOf, acc)
    else MergeGroups(groups[1..], replyOf, acc + GroupLogs(groups[0], replyOf(groups[0])))
  }

  /** `get_filelogs`: the filelog of each named depot file (None for one
    * the server reports missing); raises when the map does not cover the
    * files asked about. */
  function FilelogsOf<L>(files: seq<Option<string>>, replyOf: seq<string> -> FilelogReply<L>): Result<map<string, Option<L>>>
  {
    var fs := Dedup(NamedFiles(files));
    var m := MergeGroups(Groups(fs), replyOf, map[]);
    if |m| != |fs| then Raise(RepP4Exception, "len(filelogs) != len(depotfiles)") else Ok(m)
  }

  lemma {:induction false} MergeGroupsWithin<L>(groups: seq<seq<string>>, replyOf: seq<string> -> FilelogReply<L>,
                                               acc: map<string, Option<L>>, u: set<string>)
    requires forall g, x :: g in groups && x in g ==> x in u
    requires acc.Keys <= u
    ensures MergeGroups(groups, replyOf, acc).Keys <= u
  {
    if groups != [] {
      var acc' := if groups[0] == [] then acc else acc + GroupLogs(groups[0], replyOf(groups[0]));
      MergeGroupsWithin(groups[1..], replyOf, acc', u);
    }
  }

  lemma {:induction false} MergeGroupsFull<L>(groups: seq<seq<string>>, replyOf: seq<string> -> FilelogReply<L>,
                                             acc: map<string, Option<L>>)
    requires forall g :: g in groups ==> |replyOf(g).logs| == |g|
    requires forall x :: x in acc ==> acc[x].Some?
    ensures var m := MergeGroups(groups, replyOf, acc);
            acc.Keys <= m.Keys && (forall g, x :: g in groups && x in g ==> x in m) &&
            forall x :: x in m ==> m[x].Some?
  {
    if groups != [] {
      var acc' := if groups[0] == [] then acc else acc + GroupLogs(groups[0], replyOf(groups[0]));
      MergeGroupsFull(groups[1..], replyOf, acc');
    }
  }

  lemma {:induction false} SubsetSmaller<T>(a: set<T>, b: set<T>)
    requires a <= b
    ensures |a| <= |b|
    decreases |a|
  {
    if a != {} {
      var y :| y in a;
      SubsetSmaller(a - {y}, b - {y});
    }
  }

  lemma SubsetSameSize<T>(a: set<T>, b: set<T>)
    requires a <= b && |a| == |b|
    ensures a == b
  {
    if x :| x in b && x !in a {
      SubsetSmaller(a, b - {x});
    }
  }

  lemma {:induction false} DistinctSize<T>(s: seq<T>)
    requires NoDups(s)
    ensures |set x | x in s| == |s|
  {
    if s != [] {
      DistinctSize(s[1..]);
      assert (set x | x in s) == {s[0]} + (set x | x in s[1..]);
    }
  }

  /** A map `get_filelogs` returns covers exactly the named files. */
  lemma FilelogsCover<L>(files: seq<Option<string>>, replyOf: seq<string> -> FilelogReply<L>)
    ensures FilelogsOf(files, replyOf).Ok? ==>
            forall x :: x in FilelogsOf(files, replyOf).value <==> Some(x) in files && x != []
  {
    var fs := Dedup(NamedFiles(files));
    var m := MergeGroups(Groups(fs), replyOf, map[]);
    var u := set x | x in fs;
    MergeGroupsWithin(Groups(fs), replyOf, map[], u);
    DistinctSize(fs);
    if |m| == |fs| {
      SubsetSameSize(m.Keys, u);
    }
  }

  /** When every call returns one filelog per file, nothing is missing
    * and nothing raises. */
  lemma FilelogsComplete<L>(files: seq<Option<string>>, replyOf: seq<string> -> FilelogReply<L>)
    requires forall g :: |replyOf(g).logs| == |g|
    ensures FilelogsOf(files, replyOf).Ok?
    ensures forall x :: x in FilelogsOf(files, replyOf).value ==> FilelogsOf(files, replyOf).value[x].Some?
  {
    var fs := Dedup(NamedFiles(files));
    var m := MergeGroups(Groups(fs), replyOf, map[]);
    var u := set x | x in fs;
    MergeGroupsWithin(Groups(fs), replyOf, map[], u);
    MergeGroupsFull(Groups(fs), replyOf, map[]);
    forall x | x in u ensures x in m {
      var g :| g in Groups(fs) && x in g;
    }
    assert m.Keys == u;
    DistinctSize(fs);
  }

  /** `get_filelogs`, one `p4 filelog` call per group. */
  method GetFilelogs<L>(files: seq<Option<string>>, replyOf: seq<string> -> FilelogReply<L>)
    returns (r: Result<map<string, Option<L>>>)
    ensures r == FilelogsOf(files, replyOf)
  {
    var fs := Dedup(NamedFiles(files));
    var groups := Groups(fs);
    var logs: map<string, Option<L>> := map[];
    var i := 0;
    while i < |groups|
      invariant 0 <= i <= |groups|
      invariant MergeGroups(groups, replyOf, map[]) == MergeGroups(groups[i..], replyOf, logs)
    {
      MergeGroupsStep(groups, i, replyOf, logs);
      var tdfs := groups[i];
      if tdfs != [] {
        var reply := replyOf(tdfs);
        logs := logs + GroupLogs(tdfs, reply);
      }
      i := i + 1;
    }
    assert groups[i..] == [];
    if |logs| != |fs| {
      return Raise(RepP4Exception, "len(filelogs) != len(depotfiles)");
    }
    return Ok(logs);
  }

  /** One group of the loop of `get_filelogs`. */
  lemma MergeGroupsStep<L>(groups: seq<seq<string>>, i: nat, replyOf: seq<string> -> FilelogReply<L>,
                           acc: map<string, Option<L>>)
    requires i < |groups|
    ensures MergeGroups(groups[i..], replyOf, acc) ==
            MergeGroups(groups[i + 1..], replyOf, if groups[i] == [] then acc else acc + GroupLogs(groups[i], replyOf(groups[i])))
  {
    assert groups[i..][0] == groups[i] && groups[i..][1..] == groups[i + 1..];
  }

  // ---------------------------------------------------------------------
  // get_integrations_to_replicate

  const IntegToActions: seq<string> :=
    ["copy into", "branch into", "edit into", "add into", "delete into", "merge into",
     "moved into", "ignored by", "undone by"]
  const IntegFromActions: seq<string> :=
    ["copy from", "branch from", "edit from", "delete from", "add from", "merge from",
     "moved from", "ignored", "undid"]

  /** How an integration record prints in the error messages. */
  function IntegText(how: string, file: string, srev: int, erev: int): string
  {
    how + " " + file + "#" + IntToString(srev) + ",#" + IntToString(erev)
  }

  /** The errors of `get_integrations_to_replicate` for record `x`. */
  function UnexpectedRevs(depotFile: string, rev: nat, x: RawInteg): Exc
  {
    Exc(RepP4Exception, "Unexpected revs: " + depotFile + "#" + NatToString(rev) + " " +
                        IntegText(x.how, x.file, x.srev, x.erev))
  }

  function UnexpectedHow(depotFile: string, rev: nat, x: RawInteg): Exc
  {
    Exc(RepP4Exception, "Unexpected how: " + depotFile + "#" + NatToString(rev) + " " +
                        IntegText(x.how, x.file, x.srev + 1, x.erev))
  }

  /** A kept record: srev moved to the first contributing revision and the
    * partner's workspace path looked up. */
  function Kept(x: RawInteg, localMap: string -> Option<string>): Integ
  {
    Integ(x.how, x.file, Num(x.srev + 1), Num(x.erev), localMap(x.file), None)
  }

  /** The loop of `get_integrations_to_replicate` over records already in
    * reversed filelog order. */
  function IntegrationsOf(depotFile: string, rev: nat, recs: seq<RawInteg>,
                          localMap: string -> Option<string>): (r: Result<seq<Integ>>)
    ensures r.Ok? ==> forall i :: 0 <= i < |r.value| ==> r.value[i].how in IntegFromActions
  {
    if recs == [] then Ok([])
    else
      var x := recs[0];
      if x.srev >= x.erev then
        Err(UnexpectedRevs(depotFile, rev, x))
      else if x.how in IntegToActions then IntegrationsOf(depotFile, rev, recs[1..], localMap)
      else if x.how in IntegFromActions then
        match IntegrationsOf(depotFile, rev, recs[1..], localMap)
        case Ok(t) => Ok([Kept(x, localMap)] + t)
        case Err(e) => Err(e)
      else
        Err(UnexpectedHow(depotFile, rev, x))
  }

  /** The kept records, as an independent filter. */
  function KeptFrom(recs: seq<RawInteg>, localMap: string -> Option<string>): seq<Integ>
  {
    if recs == [] then []
    else (if recs[0].how in IntegFromActions then [Kept(recs[0], localMap)] else []) + KeptFrom(recs[1..], localMap)
  }

  /** A record is acceptable when its revisions are ordered and its `how`
    * belongs to the known vocabulary. */
  predicate Acceptable(x: RawInteg)
  {
    x.srev < x.erev && (x.how in IntegToActions || x.how in IntegFromActions)
  }

  /** `get_integrations_to_replicate` raises exactly when some record is
    * unacceptable. */
  lemma {:induction false} IntegrationsFilter(depotFile: string, rev: nat, recs: seq<RawInteg>,
                                              localMap: string -> Option<string>)
    ensures IntegrationsOf(depotFile, rev, recs, localMap).Ok? <==> forall i :: 0 <= i < |recs| ==> Acceptable(recs[i])
  {
    if recs != [] {
      IntegrationsFilter(depotFile, rev, recs[1..], localMap);
      AcceptableCons(recs);
    }
  }

  lemma AcceptableCons(recs: seq<RawInteg>)
    requires recs != []
    ensures (forall i :: 0 <= i < |recs| ==> Acceptable(recs[i])) <==>
            Acceptable(recs[0]) && forall i :: 0 <= i < |recs[1..]| ==> Acceptable(recs[1..][i])
  {
    assert forall i :: 1 <= i < |recs| ==> recs[i] == recs[1..][i - 1];
  }

  /** When it does not raise, it keeps the "from" records (and 'ignored',
    * 'undid') in order and drops the "into"/"by" ones. */
  lemma {:induction false} IntegrationsKept(depotFile: string, rev: nat, recs: seq<RawInteg>,
                                            localMap: string -> Option<string>)
    ensures IntegrationsOf(depotFile, rev, recs, localMap).Ok? ==>
            IntegrationsOf(depotFile, rev, recs, localMap).value == KeptFrom(recs, localMap)
  {
    if recs != [] {
      IntegrationsKept(depotFile, rev, recs[1..], localMap);
    }
  }

  /** Each kept record starts at the revision after the reported srev and
    * still ends at or after it. */
  lemma {:induction false} KeptRevisions(recs: seq<RawInteg>, localMap: string -> Option<string>)
    requires forall i :: 0 <= i < |recs| ==> recs[i].srev < recs[i].erev
    ensures forall y :: y in KeptFrom(recs, localMap) ==>
              y.srev.Num? && y.erev.Num? && y.srev.n <= y.erev.n &&
              exists x :: x in recs && y.srev.n == x.srev + 1 && y.erev.n == x.erev && y.file == x.file
  {
    if recs != [] {
      KeptRevisions(recs[1..], localMap);
      assert recs[0] in recs;
    }
  }

  /** `get_integrations_to_replicate`: walks the filelog's records newest
    * first, in the opposite order to `run_filelog`'s. */
  method GetIntegrationsToReplicate(depotFile: string, rev: nat, integrations: seq<RawInteg>,
                                    localMap: string -> Option<string>)
    returns (r: Result<seq<Integ>>)
    ensures r == IntegrationsOf(depotFile, rev, Reverse(integrations), localMap)
  {
    var recs := Reverse(integrations);
    var integs: seq<Integ> := [];
    var j := 0;
    assert recs[0..] == recs;
    ThenNone(IntegrationsOf(depotFile, rev, recs, localMap));
    while j < |recs|
      invariant 0 <= j <= |recs|
      invariant IntegrationsOf(depotFile, rev, recs, localMap) == Then(integs, IntegrationsOf(depotFile, rev, recs[j..], localMap))
    {
      IntegrationsStep(depotFile, rev, recs, j, localMap);
      var x := recs[j];
      if x.srev >= x.erev {
        return Err(UnexpectedRevs(depotFile, rev, x));
      }
      if x.how in IntegToActions {
        j := j + 1;
        continue;
      }
      if x.how in IntegFromActions {
        ThenSnoc(integs, Kept(x, localMap), IntegrationsOf(depotFile, rev, recs[j + 1..], localMap));
        integs := integs + [Kept(x, localMap)];
        j := j + 1;
        continue;
      }
      return Err(UnexpectedHow(depotFile, rev, x));
    }
    assert recs[j..] == [] && integs + [] == integs;
    return Ok(integs);
  }

  /** One record of the loop of `get_integrations_to_replicate`. */
  lemma IntegrationsStep(depotFile: string, rev: nat, recs: seq<RawInteg>, j: nat, localMap: string -> Option<string>)
    requires j < |recs|
    ensures var x, r := recs[j], IntegrationsOf(depotFile, rev, recs[j..], localMap);
            var rest := IntegrationsOf(depotFile, rev, recs[j + 1..], localMap);
            (x.srev >= x.erev ==>
               r == Err(UnexpectedRevs(depotFile, rev, x))) &&
            (x.srev < x.erev && x.how in IntegToActions ==> r == rest) &&
            (x.srev < x.erev && x.how !in IntegToActions && x.how in IntegFromActions ==>
               r == Then([Kept(x, localMap)], rest)) &&
            (x.srev < x.erev && x.how !in IntegToActions && x.how !in IntegFromActions ==>
               r == Err(UnexpectedHow(depotFile, rev, x)))
  {
    assert recs[j..][0] == recs[j] && recs[j..][1..] == recs[j + 1..];
  }

  /** The records gathered so far, followed by what the rest yields. */
  function Then(done: seq<Integ>, rest: Result<seq<Integ>>): Result<seq<Integ>>
  {
    match rest
    case Ok(t) => Ok(done + t)
    case Err(e) => Err(e)
  }

  lemma ThenNone(rest: Result<seq<Integ>>)
    ensures Then([], rest) == rest
  {
    if rest.Ok? {
      assert [] + rest.value == rest.value;
    }
  }

  lemma ThenSnoc(done: seq<Integ>, x: Integ, rest: Result<seq<Integ>>)
    ensures Then(done + [x], rest) == Then(done, Then([x], rest))
  {
    if rest.Ok? {
      assert done + [x] + rest.value == done + ([x] + rest.value);
    }
  }

  // ---------------------------------------------------------------------
  // verify_depotfile_revisions

  /** The depot files whose target filelogs are fetched: every changed
    * file's, then every partner's that has one. */
  function TargetFilesOf(files: seq<ChangeRev>): seq<Option<string>>
  {
    seq(|files|, i requires 0 <= i < |files| => files[i].targetDepotFile) + PartnerFilesOf(files)
  }

  function PartnerFilesOf(files: seq<ChangeRev>): seq<Option<string>>
  {
    if files == [] then []
    else
      var ps := files[0].integrations;
      seq(|ps|, i requires 0 <= i < |ps| => ps[i].targetDepotFile) + PartnerFilesOf(files[1..])
  }

  /** The Perforce commands the replication issues (all on the target
    * workspace except `SyncSource`, the source sync before a retry). */
  datatype P4Op = Sync | Add | Edit | Reopen | Delete | Revert | Integrate | Resolve | Undo | Copy | Move
                | Submit | Change | Verify | SyncSource

  datatype P4Cmd = P4Cmd(op: P4Op, args: seq<string>)

  /** The head revision of a file in the target (0 when it has none). */
  function TargetHead(heads: map<string, Option<nat>>, f: ChangeRev): nat
  {
    match f.targetDepotFile
    case None => 0
    case Some(t) => if t in heads && heads[t].Some? then heads[t].value else 0
  }

  function AheadMessage(f: ChangeRev, head: nat): string
  {
    "File in source depot " + f.depotFile + "#" + NatToString(f.rev) +
    " should be 1 revision ahead of in target depot " + OptText(f.targetDepotFile) + "#" + NatToString(head) +
    ". Error, target file should never be a revision ahead of source. revert"
  }

  const RevertAll: P4Cmd := P4Cmd(Revert, ["..."])

  /** The first changed file that is not ahead of its target copy. */
  function FirstAhead(files: seq<ChangeRev>, heads: map<string, Option<nat>>): (r: Option<nat>)
    ensures r.None? <==> forall i :: 0 <= i < |files| ==> TargetHead(heads, files[i]) < files[i].rev
    ensures r.Some? ==> r.value < |files| && TargetHead(heads, files[r.value]) >= files[r.value].rev &&
                        forall i :: 0 <= i < r.value ==> TargetHead(heads, files[i]) < files[i].rev
  {
    if files == [] then None
    else if TargetHead(heads, files[0]) + 1 > files[0].rev then Some(0)
    else
      match FirstAhead(files[1..], heads)
      case None => None
      case Some(k) => Some(k + 1)
  }

  /** The first file not ahead of its target copy is the one reported. */
  lemma FirstAheadAt(files: seq<ChangeRev>, heads: map<string, Option<nat>>, k: nat)
    requires k < |files| && TargetHead(heads, files[k]) >= files[k].rev
    requires forall i :: 0 <= i < k ==> TargetHead(heads, files[i]) < files[i].rev
    ensures FirstAhead(files, heads) == Some(k)
  {
    var r := FirstAhead(files, heads);
    assert r.Some?;
    assert !(r.value < k);
  }

  /** What the check concludes once the target heads are known. */
  function AheadCheck(files: seq<ChangeRev>, heads: map<string, Option<nat>>): Result<()>
  {
    match FirstAhead(files, heads)
    case None => Ok(())
    case Some(i) => Raise(RepP4Exception, AheadMessage(files[i], TargetHead(heads, files[i])))
  }

  /** `verify_depotfile_revisions`: every changed file must be ahead of its
    * target copy; at the first that is not, the workspace is reverted and
    * the run stops.  Other mismatches, and partners behind their erev,
    * only log. */
  method VerifyDepotfileRevisions(files: seq<ChangeRev>, replyOf: seq<string> -> FilelogReply<nat>)
    returns (r: Result<()>, cmds: seq<P4Cmd>)
    ensures var logs := FilelogsOf(TargetFilesOf(files), replyOf);
            if logs.Err? then r == Err(logs.exc) && cmds == []
            else r == AheadCheck(files, logs.value) && cmds == (if r.Ok? then [] else [RevertAll])
  {
    var logs := GetFilelogs(TargetFilesOf(files), replyOf);
    if logs.Err? {
      return Err(logs.exc), [];
    }
    r, cmds := CheckAhead(files, logs.value);
  }

  /** `verify_depotfile_revisions` once the heads are known: at the first
    * file not ahead of its target copy the workspace is reverted and the
    * run stops. */
  method CheckAhead(files: seq<ChangeRev>, heads: map<string, Option<nat>>) returns (r: Result<()>, cmds: seq<P4Cmd>)
    ensures r == AheadCheck(files, heads)
    ensures r.Ok? ==> cmds == []
    ensures r.Err? ==> cmds == [RevertAll]
  {
    var k := FindAhead(files, heads);
    if k.Some? {
      return Raise(RepP4Exception, AheadMessage(files[k.value], TargetHead(heads, files[k.value]))), [RevertAll];
    }
    return Ok(()), [];
  }

  /** The loop of `verify_depotfile_revisions` over the changed files, each
    * compared with the head revision of its target copy. */
  method FindAhead(files: seq<ChangeRev>, heads: map<string, Option<nat>>) returns (k: Option<nat>)
    ensures k == FirstAhead(files, heads)
  {
    var idx := 0;
    while idx < |files|
      invariant 0 <= idx <= |files|
      invariant forall i :: 0 <= i < idx ==> TargetHead(heads, files[i]) < files[i].rev
    {
      var f := files[idx];
      var revision := 0;
      if f.targetDepotFile.Some? && f.targetDepotFile.value in heads && heads[f.targetDepotFile.value].Some? {
        revision := heads[f.targetDepotFile.value].value;
      }
      assert revision == TargetHead(heads, f);
      if revision + 1 > f.rev {
        FirstAheadAt(files, heads, idx);
        return Some(idx);
      }
      idx := idx + 1;
    }
    return None;
  }
}
