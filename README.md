# SCM replication, modelled in Dafny

The scripts this project models copy history from one version-control
server to another, one change at a time: Perforce to Perforce, Subversion
to Perforce and Perforce to Subversion, plus a release-branch generator
that copies the revisions of a source branch into a Perforce release
branch. Every replicated change carries a provenance tag in its
description (`Imported from <server>` and `r<rev>|<submitter>|<time>`).
A restarted run reads these tags back from the target to find where it
stopped.

The model keeps the decision logic and treats the servers as data:

- what a Perforce or Subversion server would answer is passed in as values;
- what the scripts send to a server is returned as a list of commands (`Cmd`);
- every Python exception is a `Result` error carrying its exception class.

Code that changes state in place is modelled as imperative Dafny: a
`class` with `modifies` clauses where the source updates an object's
fields, and methods with loop invariants where the source loops. Each such
method is proved equal to a specification function, and the properties the
scripts promise are proved as lemmas about those functions.

One module per source file:

| module | models |
|---|---|
| `Common`, `Strings` | options, results, exception kinds; the parts of Python's `str` the scripts use |
| `ScmRep` | lib/scmrep.py: writing and reading the provenance tag, configuration options, the shared tag pattern |
| `Scm2Scm` | lib/scm2scm.py: where a replication resumes |
| `ScmP4Names`, `ScmP4Ingest`, `ScmP4Integrate`, `ScmP4Replay` | lib/scmp4.py: file-name escaping, reading changes and file logs, replaying integrations, replaying and submitting a change with its one retry |
| `PerforceReplicate` | lib/PerforceReplicate.py: purged revisions, the digest parity check, the replay loop |
| `ScmSvn` | lib/scmsvn.py: revision window, changed-path repair, path translation, `svn:externals`, grouped updates |
| `SubversionToPerforce`, `PerforceToSubversion` | one revision or change replayed across |
| `P4ReleaseBranchGenerate` | lib/P4ReleaseBranchGenerate.py: the revert-then-copy plan, copy records, the server's timezone offset |
| `SvnP4BranchDetection` | SvnP4BranchDetection.py: where a Subversion branch starts in a replicated Perforce depot |
| `BuildCommon` | lib/buildcommon.py: file-hash input, exclusion, common stems |
| `SvnPython` | lib/SvnPython.py: argument flattening and shell splitting, the retry loop, XML-to-dict conversion, `update` arguments |
| `P4Server` | lib/p4server.py: workspace spec and login |
| `P4P4Replicate` | P4P4Replicate.py: workspace creation, the configuration file, the argument list |

## Model

| member | source | states |
|---|---|---|
| ScmRep.SanitiseCommitMessage | lib/scmrep.py:190-192 | the message loses every carriage return and nothing else: no `\r` is left, and a message without one comes back unchanged |
| ScmRep.SanitiseIsFilter | lib/scmrep.py:190-192 | the sanitiser splits over a concatenation, turns a lone `\r` into nothing and keeps every other character: it is the filter that drops carriage returns |
| ScmRep.SanitiseAppend | lib/scmrep.py:190-192 | removing carriage returns distributes over concatenation |
| ScmRep.FormatReplicateDesc | lib/scmrep.py:194-218 | the formatted description never holds a carriage return |
| ScmRep.PrefixedText | lib/scmrep.py:209-211 | when prefixing, the description is the tag, a blank line, then the left-stripped message |
| ScmRep.SuffixedText | lib/scmrep.py:212-216 | when suffixing, the description is the right-stripped message, a blank line, then the tag |
| ScmRep.DefaultRender | lib/scmrep.py:144-188 | the default formatter renders `Imported from <server>`, a line break, and `r<rev>\|<submitter>\|<time>` |
| ScmRep.TagText | lib/scmrep.py:183-188 | a rendered default tag is its two lines joined by one line break, neither holding a line break or carriage return |
| ScmRep.TagLines | lib/scmrep.py:183-188 | a rendered default tag is left alone by sanitising and reads as exactly its two stripped lines |
| ScmRep.GetReplicatedRev | lib/scmrep.py:112-139 | one decoded revision per recent description, in the same order |
| ScmRep.DescLinesUnstripped | lib/scmrep.py:23-25 | the outer `strip()` does not change which non-blank lines are read |
| ScmRep.LinesAppend | lib/scmrep.py:23-25 | the non-blank lines of `a + "\n" + b` are those of `a` followed by those of `b` |
| ScmRep.OwnLines | lib/scmrep.py:23-25 | the lines read from a sanitised description are those of its right-stripped form |
| ScmRep.TwoLines | lib/scmrep.py:23-25 | two single-line non-blank pieces joined by a line break read as their two stripped lines |
| ScmRep.MatchAfterHead | lib/scmrep.py:18-19 | after `Imported from <server>` and a line break the extracter's match is decided by the revision line alone |
| ScmRep.MatchRevLineOf | lib/scmrep.py:18-19 | a line `r<digits>\|u` where `u` holds another `\|` yields those digits as the revision |
| ScmRep.RevLineOfTag | lib/scmrep.py:18-19 | the second line of a default tag decodes to the tag's revision |
| ScmRep.MatchTagLines | lib/scmrep.py:46-55 | the two stripped tag lines joined by a line break match and give the tag's revision |
| ScmRep.NoTagBeforeTagHead | lib/scmrep.py:18-19 | a two-line window whose second line does not start with `r` is not a tag |
| ScmRep.NoTagWindow | lib/scmrep.py:46-51 | a window of at most two lines, none starting with `Imported from `, does not match |
| ScmRep.TagThenText | lib/scmrep.py:22-25 | a tag followed by more text contributes its two lines first |
| ScmRep.TextThenTag | lib/scmrep.py:22-25 | text followed by a blank line and a tag ends with the tag's two lines |
| ScmRep.FrontTagDecodes | lib/scmrep.py:32-48 | tag lines at the front of a description decode to the tag's revision |
| ScmRep.BackTagDecodes | lib/scmrep.py:35-48 | tag lines at the back decode to the tag's revision when the front window is no tag |
| ScmRep.FrontNotTag | lib/scmrep.py:41-48 | the front window of a description followed by a tag is no tag when the description's own first two lines are none |
| ScmRep.DecodePrefixedTag | lib/scmrep.py:22-55 | round trip: a default tag written before any description is read back as its revision |
| ScmRep.DecodeSuffixedTag | lib/scmrep.py:22-55 | round trip: a tag written after a description is read back unless the description's first two lines already form a tag |
| ScmRep.DecodeUntagged | lib/scmrep.py:50-51 | a description with no line starting `Imported from ` decodes to 0 |
| ScmRep.DecodeTaggedHistory | lib/scmrep.py:112-139 | a history of prefix-tagged descriptions decodes, position by position, to the recorded source revisions |
| ScmRep.ReadPropertyOption | lib/scmrep.py:86-104 | the value when the option is present, None exactly when it is absent and optional, and a `ReplicationException` exactly when it is absent and required |
| ScmRep.ApplyOptionsSpec | lib/scmrep.py:78-84 | reading the options fails exactly when a required one is missing; otherwise every property is set to its value or to None |
| ScmRep.ApplyOptionsKeeps | lib/scmrep.py:83-84 | a property already set keeps its value while later options are read |
| ScmRep.PatternStore.constructor | lib/scmrep.py:14-19 | the shared pattern starts as the default formatter and extracter |
| ScmRep.ReplicationScm.Init | lib/scmrep.py:62-72 | a new instance holds its section, option list and settings, refers to the shared store, and suffixes by default |
| ScmRep.ReplicationScm.New | lib/scmrep.py:62-84 | `__init__` refuses an empty option list, raises when the section is missing, succeeds exactly when every required option is present, and shares the given store |
| ScmRep.ReplicationScm.SetDescRepInfoPattern | lib/scmrep.py:74-76 | the pattern is written into the shared store, so every instance sees it |
| Scm2Scm.Tagged | lib/scm2scm.py:105-106 | the filtered list keeps only tagged (non-zero) entries and is no longer than the input |
| Scm2Scm.TaggedAppend | lib/scm2scm.py:105-106 | filtering distributes over concatenation |
| Scm2Scm.TaggedLast | lib/scm2scm.py:105-113 | the filtered list is empty exactly when nothing is tagged, and its last entry is the newest tagged revision |
| Scm2Scm.LastTaggedNone | lib/scm2scm.py:104-110 | nothing is tagged exactly when every decoded revision is 0 |
| Scm2Scm.LastTaggedSome | lib/scm2scm.py:112-114 | the newest tagged revision is an entry, is non-zero, and only untagged entries follow it |
| Scm2Scm.ClassifyTarget | lib/scm2scm.py:88-114 | exactly one of the four cases applies, each characterised in both directions: empty target, tagged newest change, nothing tagged, or an interrupted run with its last tagged revision |
| Scm2Scm.StartCounterOk | lib/scm2scm.py:68-114 | the start counter is found exactly when the counter is consistent with the target; every refusal is a `ReplicationException` |
| Scm2Scm.StartCounterMonotone | lib/scm2scm.py:14-66 | the counter never moves back; a clean resume lands on the newest replicated revision and every other case keeps the counter |
| Scm2Scm.InterruptedAtTen | lib/scm2scm.py:112-114 | ten replicated changes followed by a manual one classify as an interrupted run whose last replicated revision is 10 |
| Scm2Scm.ResumeWithoutCounter | lib/scm2scm.py:57-60 | resuming that target without a counter raises the "counter is 0" error |
| Scm2Scm.ResumeWithCounterBehind | lib/scm2scm.py:61-64 | resuming it with counter 8 raises the "counter behind" error |
| Scm2Scm.ResumeWithCounterAtLast | lib/scm2scm.py:65-66 | resuming it with counter 10 starts at 10 |
| Scm2Scm.FilterLenBlocksResume | lib/scm2scm.py:106-107 | as written, `len(filter(...))` raises a TypeError on that input, while the corrected resolver starts at 10 |
| Scm2Scm.Source.constructor | lib/scm2scm.py:22-29 | a source holds the counter it is given |
| Scm2Scm.Replication.constructor | lib/scm2scm.py:7-12 | a replication refers to its source |
| Scm2Scm.Replication.ResumeReplication | lib/scm2scm.py:14-35 | succeeds exactly when the counter is not past the last replicated revision, then moves the counter there; otherwise raises the source's message and leaves the counter |
| Scm2Scm.Replication.HasNoRepInfo | lib/scm2scm.py:37-44 | succeeds exactly when a counter is set, otherwise raises with the number of target revisions |
| Scm2Scm.Replication.ResumeInterruptedReplication | lib/scm2scm.py:46-66 | succeeds exactly when the counter is set and not behind the last replicated revision, with the source's two messages otherwise |
| Scm2Scm.Replication.CalcStartChangelist | lib/scm2scm.py:68-114 | the method succeeds exactly when the start-counter function does, leaving the counter at its value, and otherwise raises its exception with the counter unchanged |
| ScmP4Names.AnyIssueIn | lib/scmp4.py:20-25 | the loop over the known issues answers true exactly when one of them occurs in the message |
| ScmP4Names.KnownIssueRecognised | lib/scmp4.py:20-25 | a submit error holding any of the three known messages, anywhere in it, is recognised |
| ScmP4Names.EncodeAppend | lib/scmp4.py:43-54 | escaping a name escapes its parts independently |
| ScmP4Names.EncodeIsEscaped | lib/scmp4.py:43-54 | the four chained replacements escape each character on its own: no later step touches an escape an earlier step inserted |
| ScmP4Names.EncodeHasNoWildcard | lib/scmp4.py:43-54 | an escaped name holds no '@', '#' or '*' |
| ScmP4Names.DecodeAsWrittenRoundTrip | lib/scmp4.py:57-70 | for names without '%', unescaping as written undoes escaping |
| ScmP4Names.DecodeAsWrittenLosesPercent | lib/scmp4.py:57-70 | as written, the name "%40" escapes to "%2540" and unescapes to "@" |
| ScmP4Names.DecodeEncode | lib/scmp4.py:57-70 | the corrected unescaping undoes escaping for every name |
| ScmP4Names.DecodeKeepsPercent | lib/scmp4.py:57-70 | on "%40" the corrected unescaping gives the name back where the as-written one gives "@" |
| ScmP4Ingest.WithRank | lib/scmp4.py:216-221 | the revisions of one move rank, in order, and only those |
| ScmP4Ingest.ByRank | lib/scmp4.py:206-223 | the stable sort by move rank leaves ranks non-decreasing: plain actions, then move/add, then move/delete |
| ScmP4Ingest.ByRankPermutation | lib/scmp4.py:223 | the reordering is a permutation of the change's revisions |
| ScmP4Ingest.ByRankStable | lib/scmp4.py:223 | the reordering keeps the order of the revisions within each rank |
| ScmP4Ingest.ReorderChangeRevisions | lib/scmp4.py:206-223 | the in-place sort leaves the array equal to the stable rank order of its old contents |
| ScmP4Ingest.ChangesRange | lib/scmp4.py:151-154 | the range starts at the counter and runs to ENDCHANGE, or to the head exactly when ENDCHANGE is unset |
| ScmP4Ingest.OldestFirst | lib/scmp4.py:155-157 | reversing the newest-first reply gives the same changes with rising numbers, none before the counter |
| ScmP4Ingest.SkipCounterAfter | lib/scmp4.py:158-159 | dropping the counter's own change leaves, in order, every change after the counter and only those |
| ScmP4Ingest.ChangesAfterCounter | lib/scmp4.py:148-164 | the changes to replay are after the counter, oldest first, at most the maximum, and none is skipped unless the maximum cuts the list; a negative maximum drops changes from the end, as the slice does |
| ScmP4Ingest.CommitMessagesOfRev | lib/scmp4.py:181-198 | at most `num` descriptions, oldest first, taken from the newest changes |
| ScmP4Ingest.ReplicatedRevWindow | lib/scmp4.py:181-198 | the replicated revisions read back from at most 64 descriptions: none exactly when the target has no change, and the newest last |
| ScmP4Ingest.NamedFiles | lib/scmp4.py:238-241 | the names kept are the set of given names that are neither None nor empty |
| ScmP4Ingest.Groups | lib/scmp4.py:243-256 | the groups of at most 255 names cover every name and invent none |
| ScmP4Ingest.Warned | lib/scmp4.py:268-276 | the files asked about minus those whose path a "no such file(s)" warning names |
| ScmP4Ingest.ZipLogs | lib/scmp4.py:266 | pairing names with logs maps only given names, each to a log, and all of them when there are enough logs |
| ScmP4Ingest.GroupLogs | lib/scmp4.py:258-278 | a group's map names only the group's files, and all of them with a log when the counts agree |
| ScmP4Ingest.MergeGroupsFull | lib/scmp4.py:258-278 | when every call answers one log per file, the merged map holds every file with a log |
| ScmP4Ingest.FilelogsCover | lib/scmp4.py:280-282 | a map that is returned covers exactly the named files; otherwise the length check raises |
| ScmP4Ingest.FilelogsComplete | lib/scmp4.py:232-282 | when every call answers one log per file, nothing raises and no file maps to None |
| ScmP4Ingest.GetFilelogs | lib/scmp4.py:232-282 | the loop over the groups computes the filelog map of the specification function |
| ScmP4Ingest.IntegrationsOf | lib/scmp4.py:301-326 | every integration kept is a "from" action |
| ScmP4Ingest.IntegrationsFilter | lib/scmp4.py:301-326 | the walk raises exactly when some record has srev >= erev or an unknown `how` |
| ScmP4Ingest.IntegrationsKept | lib/scmp4.py:311-323 | when it does not raise, the "from" records are kept in order and the "into"/"by" ones dropped |
| ScmP4Ingest.KeptRevisions | lib/scmp4.py:305-311 | each kept record starts at the revision after the reported srev and ends at its erev, not before its start |
| ScmP4Ingest.GetIntegrationsToReplicate | lib/scmp4.py:285-328 | the loop over the reversed records computes the specification function |
| ScmP4Ingest.FirstAhead | lib/scmp4.py:502-516 | the first changed file whose target copy is not behind it, or none exactly when every target copy is behind |
| ScmP4Ingest.FirstAheadAt | lib/scmp4.py:502-516 | the file reported is the first one whose target head is not behind the source revision |
| ScmP4Ingest.VerifyDepotfileRevisions | lib/scmp4.py:481-551 | fails with the filelog error, or fails at the first file not ahead of its target copy after reverting, and otherwise runs no command |
| ScmP4Ingest.CheckAhead | lib/scmp4.py:500-516 | once the heads are known: reverts the workspace and raises exactly when some file is not ahead |
| ScmP4Ingest.FindAhead | lib/scmp4.py:500-516 | the loop over the changed files finds the first one not ahead of its target copy |
| ScmP4Integrate.After | lib/scmp4.py:1201-1284 | commands issued before a step precede the step's own and keep it a valid replay |
| ScmP4Integrate.HowInLength | lib/scmp4.py:1226-1277 | Python's `how in ('text')` is a substring test: it holds when the two are equal and never when `how` is longer |
| ScmP4Integrate.SkipIgnored | lib/scmp4.py:1300-1302 | the pops stop at the newest record that is not 'ignored', or at the oldest one |
| ScmP4Integrate.SeekDelete | lib/scmp4.py:1304-1306 | for a delete, the pops go on to the newest 'delete…' record, or to the oldest one |
| ScmP4Integrate.ChosenRecord | lib/scmp4.py:1298-1306 | outside a delete, the record integrated is the newest one that is not 'ignored' (the oldest when all are) |
| ScmP4Integrate.ChosenDeleteRecord | lib/scmp4.py:1304-1306 | for a delete, the record integrated is a 'delete…' one whenever one is reachable past the 'ignored' records |
| ScmP4Integrate.ChooseIntegration | lib/scmp4.py:1292-1306 | the pops on a copy of the list pick the record the specification function names |
| ScmP4Integrate.SrcMatch | lib/scmp4.py:1109-1117 | the source revision matched is the last in filelog order with that number, and none exactly when no revision has it |
| ScmP4Integrate.LastWithSig | lib/scmp4.py:1121-1126 | the target revision found is the last whose description carries the tag, and none exactly when none does |
| ScmP4Integrate.TranslateStoresText | lib/scmp4.py:1063-1162 | the translation succeeds exactly when both filelogs exist and some target description carries the end change's tag; it then stores both revisions as target revision text |
| ScmP4Integrate.FirstWithSigNone | lib/scmp4.py:1133-1140 | the search over the reversed target log finds nothing exactly when no target revision carries the tag |
| ScmP4Integrate.FirstWithSigSome | lib/scmp4.py:1133-1140 | a search over the reversed target log that finds a revision finds the first one listed that carries the tag |
| ScmP4Integrate.TranslateStartRev | lib/scmp4.py:1133-1162 | a translated record's start revision is the first listed target revision carrying the start change's tag, or the end revision when none carries it |
| ScmP4Integrate.RetranslateFails | lib/scmp4.py:1109-1151 | a record already translated matches no source revision, so translating it again fails unless a target description carries the tag of no change |
| ScmP4Integrate.MatchSourceRevisions | lib/scmp4.py:1109-1117 | the loop over the source filelog finds the last revisions numbered erev and srev |
| ScmP4Integrate.LastTagged | lib/scmp4.py:1121-1126 | the loop over a target filelog finds the last revision carrying the tag |
| ScmP4Integrate.TranslateIntegrationLoop | lib/scmp4.py:1063-1162 | the loops over the two filelogs compute the translation the specification function defines |
| ScmP4Integrate.CheckIntegration | lib/scmp4.py:1009-1061 | no error exactly when the opened file carries the action and between one and n+1 resolve records, one of the expected kind, with a trailing 'resolved' when there is an extra one |
| ScmP4Integrate.CopyBranchSameCheck | lib/scmp4.py:1041-1051 | expecting 'copy from' and expecting 'branch from' accept the same resolve records |
| ScmP4Integrate.NoIntegrate | lib/scmp4.py:1164-1199 | the stand-in for an integration replays with add, edit or delete and never integrates |
| ScmP4Integrate.NoIntegrateRefusesUndo | lib/scmp4.py:1164-1199 | an 'undid' record cannot be replayed without integration |
| ScmP4Integrate.NoIntegrateRefusesMove | lib/scmp4.py:1164-1199 | a 'moved from' record cannot be replayed without integration |
| ScmP4Integrate.NoIntegrateAccepts | lib/scmp4.py:1164-1199 | every other kept action is replayed without integration |
| ScmP4Integrate.FileIntegrate | lib/scmp4.py:1201-1284 | only the integrated record may change, the commands form a valid replay, and with --nointegrate nothing is integrated |
| ScmP4Integrate.IntegrateAs | lib/scmp4.py:1220-1282 | the commands for the rewritten action form a valid replay of the rewritten record |
| ScmP4Integrate.NoMergeWithoutAllowmerge | lib/scmp4.py:1216-1217 | without --allowmerge no record is replayed as a merge |
| ScmP4Integrate.SelfPartnerCopies | lib/scmp4.py:1210-1214 | a record whose partner is the file itself is replayed as a copy |
| ScmP4Integrate.ReplicateIntegration | lib/scmp4.py:1286-1322 | a file without integration records raises; the commands form a valid replay; with --nointegrate nothing is integrated |
| ScmP4Integrate.DegradeOnTranslateFailure | lib/scmp4.py:1308-1320 | a failed translation degrades to add, edit and reopen with the source's file type, without error and without integrating |
| ScmP4Integrate.ReplicateMove | lib/scmp4.py:1324-1449 | the move replay keeps the file and issues a valid replay |
| ScmP4Integrate.MoveOne | lib/scmp4.py:1324-1449 | the move replay of the single record issues a valid replay |
| ScmP4Integrate.UntranslatedMoveAdds | lib/scmp4.py:1324-1449 | a move whose partner cannot be found in the target is replayed as a plain add, never as `p4 move` |
| ScmP4Integrate.MoveFromOldRevisionAdds | lib/scmp4.py:1324-1449 | a move from a revision older than the partner's head is replayed as a plain add |
| ScmP4Replay.FilesInWorkspace | lib/scmp4.py:449-463 | the files kept are exactly those the workspace maps, in order |
| ScmP4Replay.WithTargetDepotFiles | lib/scmp4.py:465-479 | each file gets the target depot path its local path maps to, and nothing else about it changes |
| ScmP4Replay.ReplicatedFilesAreMapped | lib/scmp4.py:811-813 | every file that is replayed lies in the workspace and has a target depot path |
| ScmP4Replay.Purge | lib/scmp4.py:553-577 | a purged file is only re-synced when the target lacks it, and otherwise replayed without error |
| ScmP4Replay.EditAction | lib/scmp4.py:579-620 | an edit after an integration replays the integration and ends as action 'edit'; a plain edit keeps its action |
| ScmP4Replay.ForceIgnore | lib/scmp4.py:622-644 | the retry's integrate handler edits, deletes or adds but never integrates or resolves |
| ScmP4Replay.AddAction | lib/scmp4.py:646-690 | an add without integration records is a single `p4 add` with the source's file type |
| ScmP4Replay.AddAsBranch | lib/scmp4.py:660-690 | the re-add tail issues a valid replay |
| ScmP4Replay.DeleteAction | lib/scmp4.py:692-709 | a plain delete is skipped exactly when the target lacks the file or has it deleted |
| ScmP4Replay.BranchAction | lib/scmp4.py:711-718 | a branch without integration records is a single `p4 add` |
| ScmP4Replay.IntegrateAction | lib/scmp4.py:720-740 | an integration without records is replayed as an edit, add or delete without error |
| ScmP4Replay.MoveAddAction | lib/scmp4.py:742-748 | a move/add issues a valid replay of the same file |
| ScmP4Replay.MoveDeleteAction | lib/scmp4.py:750-756 | a move/delete issues a valid replay of the same file |
| ScmP4Replay.ActionTable | lib/scmp4.py:816-824 | the dispatch table handles exactly the eight source actions |
| ScmP4Replay.ActionTableReplays | lib/scmp4.py:816-824 | every handler of the table issues only replay commands, never a submit |
| ScmP4Replay.PatchedOnlyIntegrate | lib/scmp4.py:879 | the retry changes the handler of 'integrate', to the non-integrating one, and of nothing else |
| ScmP4Replay.TypeForTarget | lib/scmp4.py:838-843 | only the file type changes, and a non-unicode target never sees a "unicode" type |
| ScmP4Replay.ReplayFile | lib/scmp4.py:838-852 | an action without a handler raises before any command; otherwise the handler's commands are a valid replay |
| ScmP4Replay.RetryNeverIntegrates | lib/scmp4.py:879-898 | in the retry an integration is never replayed as one |
| ScmP4Replay.ReplayWith | lib/scmp4.py:826-852 | the loop keeps one record per file and, given valid handlers, issues a valid replay |
| ScmP4Replay.ReplayFiles | lib/scmp4.py:826-852 | the loop updating each record in place leaves the records, commands and error the specification function gives |
| ScmP4Replay.SubmittedNumber | lib/scmp4.py:959-961 | the submitted change number is one the reply carries, and there is none exactly when no entry carries one |
| ScmP4Replay.RefreshSpecs | lib/scmp4.py:995-999 | at most one revision to verify per reply entry |
| ScmP4Replay.SubmitOpenedFiles | lib/scmp4.py:936-965 | nothing opened means no command and no change; otherwise one submit with the tagged description, then only verifies; a change number comes from an accepted reply; a rejection raises its message |
| ScmP4Replay.NoReviewTag | lib/scmp4.py:950-953 | no "#review" survives the rewrite |
| ScmP4Replay.SubmittedDescriptionDecodes | lib/scmp4.py:953-958 | with the default tag in front, the submitted description decodes back to the source change number |
| ScmP4Replay.NoPatternLeft | lib/scmp4.py:953 | a replacement of this shape leaves no occurrence of the pattern |
| ScmP4Replay.FailedChangeNone | lib/scmp4.py:870-873 | the search for "p4 submit -c <digits>" finds nothing exactly when no marker followed by a digit occurs |
| ScmP4Replay.FailedChangeLeftmost | lib/scmp4.py:870-873 | what it finds is the digit run after the leftmost marker followed by a digit |
| ScmP4Replay.UpdateChange | lib/scmp4.py:967-993 | a change is rewritten exactly when a number, user and time are all given and the time is an integer; a non-integer time raises |
| ScmP4Replay.Finish | lib/scmp4.py:907-910 | restoring user and time only appends change updates and returns the new change number |
| ScmP4Replay.CheckTarget | lib/scmp4.py:814 | the target check either passes silently or reverts the workspace |
| ScmP4Replay.SubmissionCount | lib/scmp4.py:946-958 | a submission issues one submit when files are opened and none otherwise |
| ScmP4Replay.RetryCount | lib/scmp4.py:870-905 | the retry submits at most once more |
| ScmP4Replay.AtMostTwoSubmits | lib/scmp4.py:801-910 | a change is submitted at most twice: once, and once more in the retry |
| ScmP4Replay.UnknownIssueReraised | lib/scmp4.py:865-868 | a submit error that is not a known issue is raised again as it came, after the one submit |
| ScmP4Replay.KnownIssueRetried | lib/scmp4.py:865-905 | a known issue leads to the retry, after that one submit |
| ScmP4Replay.RetryResets | lib/scmp4.py:870-898 | the retry reverts everything, deletes the failed change named in the message and re-syncs the source before replaying |
| ScmP4Replay.RetrySubmitsWithWarning | lib/scmp4.py:900-905 | after a clean replay the retry submits under the warning prefix |
| ScmP4Replay.SubmitsAreTagged | lib/scmp4.py:801-910 | every submit of a change carries one of its two descriptions |
| ScmP4Replay.ChangeDescriptionsDecode | lib/scmp4.py:900-905 | both descriptions of a change decode back to its number |
| ScmP4Replay.SubmittedChangesDecode | lib/scmp4.py:801-910 | with the default tag in front, every description a change is submitted with decodes back to the source change number |
| PerforceReplicate.VerifyWorkDirRoot | lib/PerforceReplicate.py:157-165 | passes exactly when both workspace roots are equal, and otherwise raises P4TransferException |
| PerforceReplicate.SearchPlusSIff | lib/PerforceReplicate.py:178 | the search `\+.*S` succeeds exactly when a '+' precedes an 'S' in the file type |
| PerforceReplicate.RetainedBelowNone | lib/PerforceReplicate.py:179-183 | the greedy match `.*\+.*S(\d+)` fails exactly when no 'S' after a '+' is followed by a digit |
| PerforceReplicate.RetainedBelowLast | lib/PerforceReplicate.py:179-181 | otherwise it takes the digits after the last such 'S' |
| PerforceReplicate.RetainedOfSuffix | lib/PerforceReplicate.py:179-183 | a file type ending in `+S<digits>` retains that many revisions |
| PerforceReplicate.IgnoringPurgedRevision | lib/PerforceReplicate.py:167-188 | a non-purging type is never ignored; a purging one is ignored exactly when the revision lies at least the retained count below the latest; a failed or empty listing raises |
| PerforceReplicate.PurgedRevisionIgnored | lib/PerforceReplicate.py:177-188 | a `+S<n>` revision is ignored exactly when it lies at least n below the latest revision |
| PerforceReplicate.UnpurgedNeverIgnored | lib/PerforceReplicate.py:177-188 | a file type without a '+' before an 'S' is never ignored |
| PerforceReplicate.CountIgnored | lib/PerforceReplicate.py:213 | the count is at most the number of files, and 0 when no type purges |
| PerforceReplicate.DigestLeqTotal | lib/PerforceReplicate.py:235-236 | tuples of strings compare totally, so sorting them is well defined |
| PerforceReplicate.DigestLeqTrans | lib/PerforceReplicate.py:235-236 | the tuple order is transitive |
| PerforceReplicate.SortDigests | lib/PerforceReplicate.py:235-236 | `list.sort()` leaves the same pairs, in order |
| PerforceReplicate.SortedUnique | lib/PerforceReplicate.py:235-238 | two sorted lists of the same pairs are the same list |
| PerforceReplicate.SortedEqualIff | lib/PerforceReplicate.py:235-238 | after sorting, two digest lists are equal exactly when they hold the same pairs |
| PerforceReplicate.SrcDepotFiles | lib/PerforceReplicate.py:215-217 | at most one `depotFile#rev` per source revision |
| PerforceReplicate.HeadsOf | lib/PerforceReplicate.py:218 | `depotFile#head` for every file of the target change, in order |
| PerforceReplicate.DigestsOf | lib/PerforceReplicate.py:223-234 | pairs only for records with a non-empty digest; it fails exactly when some depot path is unmapped |
| PerforceReplicate.LowerNames | lib/PerforceReplicate.py:245-246 | the same pairs with their names lower-cased, in the same order |
| PerforceReplicate.CompareDigestsIff | lib/PerforceReplicate.py:238-261 | the corrected comparison passes exactly when the sides hold the same pairs, or the source-only pairs number the purged revisions, or the sides agree ignoring case; otherwise it raises the obliterate message |
| PerforceReplicate.CaseOnlyDifferenceRefused | lib/PerforceReplicate.py:245-247 | as written, two sides that differ only in the case of a name are reported for obliteration |
| PerforceReplicate.CaseOnlyDifferenceAccepted | lib/PerforceReplicate.py:245-247 | the corrected comparison passes on those two sides |
| PerforceReplicate.SanitySkipped | lib/PerforceReplicate.py:200-208 | no change, change 0, more than 2000 revisions or servers that disagree on unicode skip the check |
| PerforceReplicate.SanityErrorOrder | lib/PerforceReplicate.py:209-219 | a check that is not skipped fails first with IndexError on an empty description, then with the purged-revision lookup's error, and only then with KeyError on a description without files |
| PerforceReplicate.SanityFailureMeansDifference | lib/PerforceReplicate.py:190-263 | when every lookup answers, the check passes exactly when the comparison of the fetched digests does |
| PerforceReplicate.ChangeNums | lib/PerforceReplicate.py:295 | the change numbers of the changes, in order |
| PerforceReplicate.ReplaysOfOne | lib/PerforceReplicate.py:311-330 | one step of the loop replays exactly its change |
| PerforceReplicate.ReplayAllOrder | lib/PerforceReplicate.py:309-336 | the loop replays a prefix of the changes in order: all of them when nothing failed, at least one when something did |
| PerforceReplicate.NormalRun | lib/PerforceReplicate.py:287-341 | a full run replays the changes in order, all of them when it returns, and always ends by reverting the target and closing both sessions |
| PerforceReplicate.ModesReplayNothing | lib/PerforceReplicate.py:297-308 | base mode and dry runs replay nothing and return the change numbers; a dry run only closes the sessions |
| PerforceReplicate.Transfer.Replicate | lib/PerforceReplicate.py:287-341 | a failed counter check raises before any event; otherwise the events and the result are those of the run over the changes after the start counter; the source counter ends as the start counter when the check passes and unchanged when it fails |
| PerforceReplicate.Transfer.RunChanges | lib/PerforceReplicate.py:309-331 | the loop appends the events of the specification function and stops at its error |
| Strings.SliceTo | lib/scmsvn.py:145-146 | `s[:m]` is a prefix of `s`, of length min(m, len(s)) for non-negative m and max(len(s) + m, 0) for negative m |
| ScmSvn.ChangesToReplicate | lib/scmsvn.py:138-159 | without ENDCHANGE the window after the counter, cut at the maximum; with it, the window up to its first occurrence, which must lie inside the window, else RepSvnException with the source's message |
| ScmSvn.ChangesAfterCounter | lib/scmsvn.py:138-159 | the revisions chosen lie after the counter, in increasing order, at most the maximum |
| ScmSvn.WindowAfterCounter | lib/scmsvn.py:141-146 | the window is increasing, after the counter and within the maximum |
| ScmSvn.EndChangeBeyondMaximum | lib/scmsvn.py:145-157 | an ENDCHANGE svn lists beyond the first `maximum` revisions is refused |
| ScmSvn.FilesWithAction | lib/scmsvn.py:209-210 | no more paths than records |
| ScmSvn.FilesWithActionMembers | lib/scmsvn.py:209-210 | a path is selected exactly when some record has it with the action |
| ScmSvn.FilesToAdd | lib/scmsvn.py:208-228 | up to 1000 adds are returned as listed; beyond that, their common stems, each once, failing exactly when an added path is empty |
| ScmSvn.ListOf | lib/scmsvn.py:214 | `list(s)` holds each member of the set once |
| ScmSvn.Replacements | lib/scmsvn.py:821-822 | only 'R' records of the input |
| ScmSvn.MissingAdds | lib/scmsvn.py:827-834 | every record appended is an 'A' record |
| ScmSvn.FixRActionWithoutAdd | lib/scmsvn.py:811-836 | the loop computes the corrected repair, with the added paths held in a list |
| ScmSvn.MissingAddsCover | lib/scmsvn.py:827-834 | every replaced path is among the adds, given or made up |
| ScmSvn.EveryReplacementAdded | lib/scmsvn.py:811-836 | after the repair every 'R' record has an 'A' record for its path |
| ScmSvn.FixIdempotent | lib/scmsvn.py:811-836 | repairing twice changes nothing more |
| ScmSvn.SpuriousAddAsWritten | lib/scmsvn.py:823-829 | as written, searching the generator consumed by an earlier search appends an 'A' record that was not missing |
| ScmSvn.NoSpuriousAdd | lib/scmsvn.py:811-836 | the corrected repair appends nothing for that input |
| ScmSvn.TranslateRepoPathToAbsPath | lib/scmsvn.py:745-760 | every shared record is rewritten in place to its working-copy path, and the copy holds the same records |
| ScmSvn.TranslateAbsPathToRepoPath | lib/scmsvn.py:762-776 | one URL per path, each the translation of that path |
| ScmSvn.RepoToAbsOfRel | lib/scmsvn.py:755-758 | a repository path inside the project lands at the same relative path under the working copy |
| ScmSvn.AbsToRepoOfRel | lib/scmsvn.py:770-774 | a working-copy path goes back to repo URL plus project dir plus the same relative path, so the two translations are inverse inside the project |
| ScmSvn.UpdateChangedFilesInGroup | lib/scmsvn.py:529-546 | the loop updates the files in groups of 200, in order, as the specification function does |
| ScmSvn.UpdatedInGroupsOrder | lib/scmsvn.py:537-546 | when every group is updated as asked, the files come back in order |
| ScmSvn.GroupsKeepOrder | lib/scmsvn.py:529-546 | the grouped update returns exactly the files given when each update does |
| ScmSvn.VerifySvnUpdate | lib/scmsvn.py:192-206 | passes exactly when every record's path exists or it is a delete or an external; otherwise RepSvnException |
| ScmSvn.WordLen | lib/scmsvn.py:263 | the leading run of non-blank characters, ended by a blank or the end |
| ScmSvn.Words | lib/scmsvn.py:263 | the words of an external line are non-empty |
| ScmSvn.GetExternalDir | lib/scmsvn.py:241-311 | the loop over the lines computes the externals of the specification function |
| ScmSvn.ParseExternalLine | lib/scmsvn.py:261-309 | one line: its words scanned, then the peg revision split off |
| ScmSvn.ParseWord | lib/scmsvn.py:264-304 | one word: a URL, a relative URL, a revision or the destination |
| ScmSvn.ScanWordFails | lib/scmsvn.py:269-293 | a word fails exactly when it starts with '//', with the source's message |
| ScmSvn.ScanWordsFail | lib/scmsvn.py:263-304 | a line fails exactly when one of its words starts with '//' |
| ScmSvn.RevisionUrlDestination | lib/scmsvn.py:263-309 | a line of a revision, a URL and a destination gives that external, the destination joined to the directory |
| ScmSvn.PegRevisionSplit | lib/scmsvn.py:306-308 | an '@' inside the URL splits off the peg revision; one at its end stays in the URL |
| ScmSvn.TwoAtSigns | lib/scmsvn.py:307-308 | a URL with two '@' fails to unpack |
| ScmSvn.NoSourceFails | lib/scmsvn.py:307 | a line without a source URL raises TypeError |
| ScmSvn.ExternalsOfLinesCount | lib/scmsvn.py:260-311 | one external per line of the value, each that of its line |
| ScmSvn.OnlyIn | lib/scmsvn.py:396-401 | the set difference, each member once; the listing order is the model's choice |
| ScmSvn.Deletions | lib/scmsvn.py:413-416 | one 'D' record per external that went away, at its destination |
| ScmSvn.FlipFirstDelete | lib/scmsvn.py:419-422 | the same number of records |
| ScmSvn.ChangeRecords.UpdateModifiedDirs | lib/scmsvn.py:362-431 | the loop over the modified directories leaves the records and returns the externals the specification function gives |
| ScmSvn.ChangeRecords.UpdateModifiedDir | lib/scmsvn.py:367-429 | the body for one directory, as the specification function gives it |
| ScmSvn.ChangeRecords.UpdateExternals | lib/scmsvn.py:392-429 | the records and externals for a changed externals value |
| ScmSvn.ChangeRecords.RemoveRecord | lib/scmsvn.py:387-390 | removes the first record at the directory's path |
| ScmSvn.ChangeRecords.AppendDeletions | lib/scmsvn.py:413-416 | appends a 'D' record per external that went away |
| ScmSvn.ChangeRecords.AddCurrentExternals | lib/scmsvn.py:418-427 | flips the first 'D' at each new external's path to 'R' and appends an 'A' record |
| ScmSvn.ChangeRecords.FlipDelete | lib/scmsvn.py:419-422 | flips the first 'D' record at the path |
| ScmSvn.RemoveFirstRecordAt | lib/scmsvn.py:387-390 | the directory's own record is the first at its path, and nothing else moves |
| ScmSvn.RemoveFirstRecordAbsent | lib/scmsvn.py:387-390 | without a record at the path nothing is removed |
| ScmSvn.FlipFirstDeleteShape | lib/scmsvn.py:419-422 | every record is kept, at most one 'D' turning into 'R' |
| ScmSvn.FlipFirstDeleteNone | lib/scmsvn.py:419-422 | a path without a 'D' record is left alone |
| ScmSvn.AddExternalsShape | lib/scmsvn.py:418-427 | earlier records are kept (a 'D' may become 'R') and one external 'A' record is appended per new external |
| ScmSvn.NothingToReplicate | lib/scmsvn.py:392-409 | a value whose definitions did not change as a set, or a change under the ignore flag, adds no record |
| ScmSvn.ExternalReplaced | lib/scmsvn.py:392-429 | an external redefined at the same destination becomes a 'D' flipped to 'R' plus an external 'A' record |
| BuildCommon.NormaliseBlock | lib/buildcommon.py:23-24 | a normalised block holds no carriage return |
| BuildCommon.NormalisedBlocksNoCR | lib/buildcommon.py:19-26 | no carriage return reaches the hasher |
| BuildCommon.HashedBytes | lib/buildcommon.py:9-28 | the read loop feeds the hasher exactly the normalised 65536-byte blocks of the file, in order |
| BuildCommon.NormaliseWholeCRLF | lib/buildcommon.py:9-28 | normalising the whole file, as the hash is meant to, gives a file and its CRLF twin the same bytes |
| BuildCommon.StraddlingCRLF | lib/buildcommon.py:17-26 | as written, a CRLF that straddles two blocks becomes two line feeds, so a file and its CRLF twin hash differently |
| BuildCommon.GetListAttribute | lib/buildcommon.py:71-76 | only non-empty values are listed |
| BuildCommon.GetListAttributeMembers | lib/buildcommon.py:71-76 | a value is listed exactly when some record gives it, non-empty, for the attribute |
| BuildCommon.LStripSlashes | lib/buildcommon.py:100-101 | `lstrip('/')` leaves a suffix that does not start with '/' |
| BuildCommon.RootExclusions | lib/buildcommon.py:100-101 | exclusions starting with '/' are joined to the walked root, the others kept |
| BuildCommon.ExcludePath | lib/buildcommon.py:103-116 | the loop excludes a path exactly when the specification predicate does: an absolute exclusion contains it as a directory, a relative one occurs in it, or it ends with an excluded file |
| BuildCommon.RootedExclusion | lib/buildcommon.py:100-112 | under an absolute root, `/x` excludes exactly what lies inside `<root>/x` |
| BuildCommon.NormalisedPaths | lib/buildcommon.py:162 | trailing '/' dropped from each path; an empty path raises |
| BuildCommon.RemovesShorter | lib/buildcommon.py:172-174 | a path is dropped only by a strictly shorter one |
| BuildCommon.RemovesTrans | lib/buildcommon.py:172-174 | dropping is transitive |
| BuildCommon.SortByLen | lib/buildcommon.py:164 | `sorted(key=len)` leaves the same paths ordered by length |
| BuildCommon.RemovedFromComplete | lib/buildcommon.py:171-175 | a path drops every later path whose directory lies below it |
| BuildCommon.StemOfSorted | lib/buildcommon.py:166-177 | with the list sorted by length, what the loops leave is the set of paths no other path drops |
| BuildCommon.DropBelow | lib/buildcommon.py:171-175 | the inner loop appends exactly the later paths the current one drops |
| BuildCommon.DropNested | lib/buildcommon.py:166-177 | the outer loop leaves the stem set of the paths |
| BuildCommon.GetCommonStem | lib/buildcommon.py:156-179 | fails exactly on an empty path; otherwise the stem set of the normalised paths: a subset of them none of which drops another |
| SubversionToPerforce.AddFile | lib/SubversionToPerforce.py:126-132 | `p4 add -f` first; a revert and an edit follow exactly when the reply says the file is still opened for delete, and no second add |
| SubversionToPerforce.AddTree | lib/SubversionToPerforce.py:135-142 | the walk adds the files the specification function lists, in walk order |
| SubversionToPerforce.AddWalkedExactly | lib/SubversionToPerforce.py:135-142 | adding a directory adds exactly the files below it that are not inside a `.svn` directory |
| SubversionToPerforce.EditFile | lib/SubversionToPerforce.py:148-171 | sync first; a missing file raises; the edit type is symlink, +x or auto exactly as the file is a link, executable or neither; an add follows exactly when the edit warns "not on client" |
| SubversionToPerforce.ModAction | lib/SubversionToPerforce.py:173-183 | a Perforce directory or an untracked directory issues nothing |
| SubversionToPerforce.DelAction | lib/SubversionToPerforce.py:185-200 | a delete issues only syncs and deletes |
| SubversionToPerforce.RepAction | lib/SubversionToPerforce.py:202-227 | a replaced Perforce directory is moved aside, synced, deleted, removed and moved back, in five steps |
| SubversionToPerforce.Dispatch | lib/SubversionToPerforce.py:247-268 | a path outside the workspace is skipped; SvnToP4Exception is raised exactly for a path inside it with an unknown action, naming it |
| SubversionToPerforce.Only | lib/SubversionToPerforce.py:245-246 | the paths that are (or are not) replacements, in order |
| SubversionToPerforce.ReplacementsFirstPermutes | lib/SubversionToPerforce.py:245-246 | the reordering is a permutation of the changed paths |
| SubversionToPerforce.ReplacementsFirstSorted | lib/SubversionToPerforce.py:245-246 | the reordering puts every replacement before every other path |
| SubversionToPerforce.ReplacementsFirstStable | lib/SubversionToPerforce.py:245-246 | the sort is stable: each group keeps its relative order |
| SubversionToPerforce.InWorkspace | lib/SubversionToPerforce.py:250-251 | the paths inside the workspace, in order |
| SubversionToPerforce.OutsideSkipped | lib/SubversionToPerforce.py:247-251 | paths outside the workspace change nothing: the loop does what it would do over the paths inside it |
| SubversionToPerforce.UnknownActionRaises | lib/SubversionToPerforce.py:266-268 | the loop raises SvnToP4Exception only for a path inside the workspace with an action other than A, M, R or D, and names it |
| SubversionToPerforce.UnknownActionStops | lib/SubversionToPerforce.py:247-268 | such a path always stops the loop with an exception |
| SubversionToPerforce.SubmitRevision | lib/SubversionToPerforce.py:273-290 | without a commit message nothing is submitted and RepSvnException is raised; a change number needs a message and opened files; user and date are restored only when asked |
| SubversionToPerforce.DispatchAll | lib/SubversionToPerforce.py:247-271 | the dispatch loop computes the specification function |
| SubversionToPerforce.ReplicateChange | lib/SubversionToPerforce.py:229-290 | the effects and result are those of the specification function |
| SubversionToPerforce.EmptyRevisionSubmitsNothing | lib/SubversionToPerforce.py:240-243 | a revision without changed paths does and submits nothing |
| SubversionToPerforce.ChangeNumberOnlyFromSubmit | lib/SubversionToPerforce.py:279-290 | a change number comes back only from an accepted submit that carries it |
| SubversionToPerforce.VerifyWorkDirRoot | lib/SubversionToPerforce.py:292-300 | passes exactly when the two roots are equal, otherwise SvnToP4Exception |
| PerforceToSubversion.SvnPathToUrl | lib/PerforceToSubversion.py:117-127 | a URL exactly for paths under the working-copy root; any other path raises P4ToSvnException |
| PerforceToSubversion.UrlOfRelative | lib/PerforceToSubversion.py:117-127 | a path below the working-copy root lands at the same place below repo URL plus project dir |
| PerforceToSubversion.InGroups | lib/PerforceToSubversion.py:247-248 | the `range(gs, n + gs, gs)` loop hands out the consecutive groups of 500 |
| PerforceToSubversion.AtRev | lib/PerforceToSubversion.py:250 | `fn@rev` for every file, in order |
| PerforceToSubversion.P4SyncFiles | lib/PerforceToSubversion.py:240-251 | one forced sync per group of 500, as the specification function gives |
| PerforceToSubversion.SyncsEveryFile | lib/PerforceToSubversion.py:240-251 | the syncs name every file once, in order, at the change, and none names more than 500 |
| PerforceToSubversion.AddGroups | lib/PerforceToSubversion.py:253-262 | one `svn add` per group, of that group |
| PerforceToSubversion.UpdateGroups | lib/PerforceToSubversion.py:264-279 | one update per group, of that group |
| PerforceToSubversion.Insert | lib/PerforceToSubversion.py:158-161 | the directory keys are the old ones plus the new directory when it is new, each once; the order the model keeps them in is its own choice, as the source's dict has none |
| PerforceToSubversion.ByDirLookup | lib/PerforceToSubversion.py:157-161 | the list built for each directory holds exactly its files, in order |
| PerforceToSubversion.GroupByDir | lib/PerforceToSubversion.py:157-161 | the loop builds the directory map of the specification function |
| PerforceToSubversion.Union | lib/PerforceToSubversion.py:182-190 | `set.update` holds each member once, exactly the old and new members; the model lists the old ones first, an order of its own choosing |
| PerforceToSubversion.Climb | lib/PerforceToSubversion.py:172-194 | the climb keeps each path queued for submission once |
| PerforceToSubversion.ClimbAllSound | lib/PerforceToSubversion.py:171-194 | every path queued sits directly in a versioned directory and is a file to add or an unversioned directory |
| PerforceToSubversion.ClimbFrom | lib/PerforceToSubversion.py:172-194 | the while loop of one directory computes the climb of the specification function |
| PerforceToSubversion.ClimbEach | lib/PerforceToSubversion.py:171-194 | the loop over the directories computes the climb over all of them |
| PerforceToSubversion.ReplicateAdd | lib/PerforceToSubversion.py:146-215 | the effects and result are those of the specification function |
| PerforceToSubversion.AddsHighestUnversioned | lib/PerforceToSubversion.py:146-215 | what is added sits directly in a versioned directory and is one of the files or an unversioned directory holding some, each once |
| PerforceToSubversion.EditMatchesDisk | lib/PerforceToSubversion.py:217-238 | after the edit, svn:executable is '*' exactly when the file is executable and svn:special is '*' exactly when it is a link |
| PerforceToSubversion.UrlsOf | lib/PerforceToSubversion.py:310 | one URL per path when none fails |
| PerforceToSubversion.IsDirDeleted | lib/PerforceToSubversion.py:308-333 | a directory found deleted holds no added file in or below it; a failure comes from a path outside the working copy |
| PerforceToSubversion.Remove | lib/PerforceToSubversion.py:340 | the map without the directory's entry, the others unchanged |
| PerforceToSubversion.MoveUpMeasure | lib/PerforceToSubversion.py:339-344 | moving a deleted directory into its parent's list (its own list, for a directory that is its own parent) keeps each directory once and never raises the measure; it lowers it unless the directory is its own parent and already holds only itself |
| PerforceToSubversion.PassFrom | lib/PerforceToSubversion.py:335-344 | a pass keeps each directory once and never raises the measure, changes nothing when it reports no change, and reports a change once it has moved a directory, a directory that is its own parent moving into its own list |
| PerforceToSubversion.PassNoProgress | lib/PerforceToSubversion.py:335-344 | a pass that does not lower the measure met only directories not found deleted or stuck (their own parent, holding only themselves), left every list and every directory as they were, and reports a change only for a stuck one |
| PerforceToSubversion.QuietPass | lib/PerforceToSubversion.py:335-344 | a pass over such directories succeeds, changes no list, and reports a change exactly when one of them is stuck |
| PerforceToSubversion.StuckForever | lib/PerforceToSubversion.py:302-344 | from a stuck state the next pass again sets `recursive_detect_empty_dir`, keeps every list and leaves a stuck state, so the while loop never ends |
| PerforceToSubversion.PassProgress | lib/PerforceToSubversion.py:302-344 | a pass that reports a change lowers the measure unless the state is stuck, so outside a stuck state the while loop ends |
| PerforceToSubversion.RunPass | lib/PerforceToSubversion.py:335-344 | the for loop over the snapshot computes one pass |
| PerforceToSubversion.SettleDirs | lib/PerforceToSubversion.py:302-344 | the while loop computes the settled map of the specification function, which stops with LoopsForever exactly when it reaches a stuck state, from which the source's loop never ends |
| PerforceToSubversion.Removals | lib/PerforceToSubversion.py:348-351 | one update and one remove per path |
| PerforceToSubversion.ReplicateDelete | lib/PerforceToSubversion.py:281-356 | the effects and result are those of the specification function |
| PerforceToSubversion.RemoveEntries | lib/PerforceToSubversion.py:347-356 | every path left in the delete groups is updated, removed and reported, each once; the order the groups are visited in is the model's choice |
| PerforceToSubversion.SettledKept | lib/PerforceToSubversion.py:302-356 | the settled map keeps every deleted file covered, every directory justified and each directory once |
| PerforceToSubversion.DeleteCoversAndSpares | lib/PerforceToSubversion.py:281-356 | every deleted file is removed itself or through one of its directories, and a directory is removed only when no added file lies in or below it |
| PerforceToSubversion.Advance | lib/PerforceToSubversion.py:367-372 | the files updated in advance are exactly those with action edit, integrate, delete or move/delete |
| PerforceToSubversion.Deletes | lib/PerforceToSubversion.py:389-390 | the files to delete are exactly those with action delete or move/delete |
| PerforceToSubversion.Adds | lib/PerforceToSubversion.py:391-392 | the files to add are exactly those with action add, branch or move/add |
| PerforceToSubversion.Without | lib/PerforceToSubversion.py:393-394 | the files not among those deleted |
| PerforceToSubversion.WithoutDeletes | lib/PerforceToSubversion.py:393-394 | the files left are those whose action is not a delete, in order |
| PerforceToSubversion.Unsupported | lib/PerforceToSubversion.py:402-416 | some action is reported exactly when a file has an action the script does not know |
| PerforceToSubversion.EditFromStops | lib/PerforceToSubversion.py:402-416 | the loop stops at the first unknown action with NotImplementedError naming it |
| PerforceToSubversion.EditFromSubmits | lib/PerforceToSubversion.py:402-419 | a loop that runs to the end appends the edited files, in order |
| PerforceToSubversion.EditEach | lib/PerforceToSubversion.py:402-419 | the loop computes the specification function |
| PerforceToSubversion.ReplicateChange | lib/PerforceToSubversion.py:358-433 | the effects and result are those of the specification function |
| PerforceToSubversion.ChangeRouting | lib/PerforceToSubversion.py:358-433 | once deletes and adds went through, the change fails exactly when a file has an unknown action, naming the first; otherwise the commit takes the removed, added and edited paths in that order |
| PerforceToSubversion.CommitCarriesChange | lib/scmsvn.py:876-895 | with the default pattern the commit's tag reads back as the Perforce change |
| PerforceToSubversion.VerifyWorkDirRoot | lib/PerforceToSubversion.py:77-85 | passes exactly when the two roots are equal, otherwise P4ToSvnException |
| P4ReleaseBranchGenerate.RevsOf | lib/P4ReleaseBranchGenerate.py:297-298 | the revision column of a list of (revision, branch) pairs, position by position |
| P4ReleaseBranchGenerate.KeyDir | lib/P4ReleaseBranchGenerate.py:220-232 | the directory part of a copy-record key holds no '/' and no '.' |
| P4ReleaseBranchGenerate.KeyUnderPattern | lib/P4ReleaseBranchGenerate.py:246-261 | the `*` pattern used to list copy records covers the key of every record for the same target directory |
| P4ReleaseBranchGenerate.DottedDirsShareKeys | lib/P4ReleaseBranchGenerate.py:227-228 | every directory and the same directory with its dots dropped get the same key, so `a.b` and `ab` collide |
| P4ReleaseBranchGenerate.Fields | lib/P4ReleaseBranchGenerate.py:171 | `str.split()` gives no empty field |
| P4ReleaseBranchGenerate.FieldsAppendSpace | lib/P4ReleaseBranchGenerate.py:171 | a blank between two texts separates their fields |
| P4ReleaseBranchGenerate.ParseOffset | lib/P4ReleaseBranchGenerate.py:169-187 | an offset exactly when the second-last field of the server date is a sign and four digits, bounded by 99h99m; otherwise P4RBGError |
| P4ReleaseBranchGenerate.ParseOffsetRoundTrip | lib/P4ReleaseBranchGenerate.py:169-187 | a date written with a `+hhmm`/`-hhmm` offset parses back to that many minutes, the sign applied to hours and minutes alike |
| P4ReleaseBranchGenerate.OffsetCache.Delta | lib/P4ReleaseBranchGenerate.py:155-187 | a cached offset is returned unchanged; otherwise the date is parsed and a parsed offset is cached |
| P4ReleaseBranchGenerate.Shared | lib/P4ReleaseBranchGenerate.py:297-299 | exactly the revisions in both histories |
| P4ReleaseBranchGenerate.MaxOf | lib/P4ReleaseBranchGenerate.py:303 | a member of the list no smaller than any other |
| P4ReleaseBranchGenerate.CommonAncestor | lib/P4ReleaseBranchGenerate.py:284-305 | None exactly without a previous history; 0 when nothing is shared; otherwise the newest revision in both histories |
| P4ReleaseBranchGenerate.FirstCopy | lib/P4ReleaseBranchGenerate.py:435-441 | the target revision of the first record copied from the revision, None exactly when there is none |
| P4ReleaseBranchGenerate.MapRevs | lib/P4ReleaseBranchGenerate.py:423-443 | at most one target revision per source revision, all on the target directory |
| P4ReleaseBranchGenerate.MapRevsAllCopied | lib/P4ReleaseBranchGenerate.py:423-443 | when every source revision was copied, each maps in order to its first copy |
| P4ReleaseBranchGenerate.MapRevsNoneCopied | lib/P4ReleaseBranchGenerate.py:423-443 | source revisions never copied map to nothing |
| P4ReleaseBranchGenerate.OldestCopyWins | lib/P4ReleaseBranchGenerate.py:430-441 | with two records for one revision the first listed is used, since `.reverse` is never called |
| P4ReleaseBranchGenerate.LastBranchedFrom | lib/P4ReleaseBranchGenerate.py:346-350 | the source of a "copy from"/"branch from" integration, None exactly when there is none |
| P4ReleaseBranchGenerate.FirstBranched | lib/P4ReleaseBranchGenerate.py:341-352 | a file of the change together with the file it was branched or copied from |
| P4ReleaseBranchGenerate.ParentOf | lib/P4ReleaseBranchGenerate.py:333-362 | the parent found is a `...` directory path |
| P4ReleaseBranchGenerate.ParentOfRelative | lib/P4ReleaseBranchGenerate.py:357-360 | the parent directory plus the branched file's relative path gives back the file it was branched from |
| P4ReleaseBranchGenerate.ParentBranches | lib/P4ReleaseBranchGenerate.py:326-364 | a chain of `...` directories, no longer than the fuel bound |
| P4ReleaseBranchGenerate.ParentBranchesChain | lib/P4ReleaseBranchGenerate.py:362-364 | each directory of the chain is the parent of the one before it |
| P4ReleaseBranchGenerate.Tagged | lib/P4ReleaseBranchGenerate.py:494-495 | every revision paired with the one branch, in order |
| P4ReleaseBranchGenerate.TakenRelated | lib/P4ReleaseBranchGenerate.py:388-397 | the history holds only revisions related to the directory, each once, each with a branch it was submitted to |
| P4ReleaseBranchGenerate.TakeRevsGrows | lib/P4ReleaseBranchGenerate.py:392-397 | the inner loop keeps what it had and only appends revisions of its own branch |
| P4ReleaseBranchGenerate.RootContributes | lib/P4ReleaseBranchGenerate.py:404-411 | when the root branch contributes a revision, `index` finds it and no error is raised |
| P4ReleaseBranchGenerate.GetBranchRevHist | lib/P4ReleaseBranchGenerate.py:367-420 | the two nested loops compute the history the specification function gives |
| P4ReleaseBranchGenerate.AtLeast | lib/P4ReleaseBranchGenerate.py:477-478 | exactly the entries at or above the ancestor |
| P4ReleaseBranchGenerate.Above | lib/P4ReleaseBranchGenerate.py:488-489 | exactly the entries above the ancestor |
| P4ReleaseBranchGenerate.AtLeastAppend | lib/P4ReleaseBranchGenerate.py:477-478 | the filter keeps the order of the history: it splits over a concatenation |
| P4ReleaseBranchGenerate.AboveAppend | lib/P4ReleaseBranchGenerate.py:488-489 | the filter keeps the order of the history: it splits over a concatenation |
| P4ReleaseBranchGenerate.CopiedFrom | lib/P4ReleaseBranchGenerate.py:498-500 | every copied revision is tagged with the current source directory |
| P4ReleaseBranchGenerate.LastIndex | lib/P4ReleaseBranchGenerate.py:517-520 | the last position holding the ancestor, None exactly when it is absent |
| P4ReleaseBranchGenerate.CopiesAfter | lib/P4ReleaseBranchGenerate.py:516-520 | the loop yields what follows the ancestor's last occurrence, as the specification function gives |
| P4ReleaseBranchGenerate.SameDirResumesAbove | lib/P4ReleaseBranchGenerate.py:516-520 | on an ascending history holding the ancestor, what is copied is every revision above it |
| P4ReleaseBranchGenerate.Assemble | lib/P4ReleaseBranchGenerate.py:532-550 | reverts newest first then the copies cut by Python's `[:maximum]` when `maximum` is nonzero (a negative one cuts from the end); with a nonzero last revision, the prefix ending at its first occurrence, or P4RBGError exactly when it is absent, as a negative one always is |
| P4ReleaseBranchGenerate.PlanBounded | lib/P4ReleaseBranchGenerate.py:535-538 | no more than `maximum` copies are planned |
| P4ReleaseBranchGenerate.Switched | lib/P4ReleaseBranchGenerate.py:461-489 | copies are exactly the new source's revisions above the ancestor; reverts are the mapped copies from the ancestor on minus the last; TypeError exactly when there is no previous history but a current one |
| P4ReleaseBranchGenerate.RevertsAreCopies | lib/P4ReleaseBranchGenerate.py:477-486 | every revert undoes a recorded copy, made from a revision at or above the ancestor, in the target |
| P4ReleaseBranchGenerate.FirstRunCopiesAll | lib/P4ReleaseBranchGenerate.py:490-522 | with no records and no target history every source revision is copied, oldest first |
| P4ReleaseBranchGenerate.OtherSourceParts | lib/P4ReleaseBranchGenerate.py:461-489 | the switched-source branch computes the parts the specification function gives |
| P4ReleaseBranchGenerate.SameSourceParts | lib/P4ReleaseBranchGenerate.py:490-522 | the same-source branch computes the parts the specification function gives |
| P4ReleaseBranchGenerate.GetRevisionsToCopy | lib/P4ReleaseBranchGenerate.py:446-550 | the plan of reverts and copies is the one the specification function gives |
| P4ReleaseBranchGenerate.FirstSubmitted | lib/P4ReleaseBranchGenerate.py:137-141 | the first output line naming a submitted change, None exactly when none does |
| P4ReleaseBranchGenerate.SubmitCopy | lib/P4ReleaseBranchGenerate.py:103-152 | nothing when nothing is opened; IndexError with no pending change; otherwise submit with the rewritten description, the new change from the first line naming one, and a user/time update exactly when asked |
| P4ReleaseBranchGenerate.CopyDescriptionShape | lib/P4ReleaseBranchGenerate.py:124-131 | the description loses `#review` and ends with the line naming the source revision and its author |
| P4ReleaseBranchGenerate.BranchViews.constructor | lib/P4ReleaseBranchGenerate.py:625 | no branch views to start with |
| P4ReleaseBranchGenerate.BranchViews.Get | lib/P4ReleaseBranchGenerate.py:553-561 | an existing view is reused unchanged; otherwise a new `RBG_branch_view` is created with a `branch -i` command and remembered |
| SvnP4BranchDetection.FirstDecoded | SvnP4BranchDetection.py:139-145 | the revision from the first pattern that yields a nonzero one, 0 exactly when none does |
| SvnP4BranchDetection.CurrentTagDecodes | SvnP4BranchDetection.py:120-145 | a description carrying the current provenance tag decodes to the tagged revision |
| SvnP4BranchDetection.GetSrcSvnBranchRevision | SvnP4BranchDetection.py:70-87 | an error exactly when the log or its first changed paths are empty; a branch exactly when the first path was copied from a non-empty path, with that path, its copy revision and the first revision |
| SvnP4BranchDetection.LastNotAbove | SvnP4BranchDetection.py:107-114 | the last listed revision not above the copy revision, None exactly when all are above it |
| SvnP4BranchDetection.CopyRevisionIsClosest | SvnP4BranchDetection.py:90-117 | on the ascending log, the newest revision of the copied-from branch at or before the copy, None exactly when all are later |
| SvnP4BranchDetection.Revs | SvnP4BranchDetection.py:193-196 | one decoded revision per change |
| SvnP4BranchDetection.FirstChangeFor | SvnP4BranchDetection.py:192-202 | the first change, newest first, whose description decodes to the revision, None exactly when none does |
| SvnP4BranchDetection.SearchFound | SvnP4BranchDetection.py:179-206 | a result is the first directory mentioning the repository with a change decoding to the branch revision, paired with the newest such change of it |
| SvnP4BranchDetection.SearchNone | SvnP4BranchDetection.py:179-206 | finding nothing means every directory was passed over: each has changes and either does not mention the repository or has no change decoding to the branch revision |
| SvnP4BranchDetection.SearchBranchPoint | SvnP4BranchDetection.py:179-206 | the nested loops with their break flags compute the search the specification function gives |
| SvnP4BranchDetection.FindChange | SvnP4BranchDetection.py:192-202 | the inner loop finds the change the specification function gives |
| SvnP4BranchDetection.NotBranchUnpacking | SvnP4BranchDetection.py:77-84 | a first revision that copies nothing raises ValueError as written and finds nothing as intended |
| SvnP4BranchDetection.NoCopyRevisionMessage | SvnP4BranchDetection.py:166-171 | a copy revision older than the copied-from branch raises NameError as written and finds nothing as intended |
| SvnP4BranchDetection.AsWrittenAgreesOnBranches | SvnP4BranchDetection.py:148-211 | on a branch whose copy revision resolves, the code as written and as intended agree |
| SvnP4BranchDetection.DetectedBranchPoint | SvnP4BranchDetection.py:148-211 | a result names a searched directory at a change tagged with the copied-from revision, plus the branch's first revision |
| SvnPython.QuotedBody | lib/SvnPython.py:453-454 | inside single quotes, the `'\''` escape of a quote reads back as the quote, so the body reads back unchanged |
| SvnPython.QuotedWord | lib/SvnPython.py:453-454 | a shell-quoted text followed by a blank or the end reads back as exactly that one word |
| SvnPython.QuotedWords | lib/SvnPython.py:458-463 | quoted words separated by blanks read back as those words, in order |
| SvnPython.PlainWordRest | lib/SvnPython.py:37 | a run of plain characters followed by a blank ends the word being read |
| SvnPython.PlainWordThen | lib/SvnPython.py:37 | a plain word followed by a blank reads back as itself |
| SvnPython.SkipBlank | lib/SvnPython.py:37 | a leading blank between words is skipped |
| SvnPython.FlattenAllAppend | lib/SvnPython.py:39-41 | flattening a concatenation gives the first part's words then the second's, or the first error |
| SvnPython.FlattenRejectsOther | lib/SvnPython.py:42-43 | any argument that is neither a string nor iterable makes flattening raise |
| SvnPython.FlattenNested | lib/SvnPython.py:39-41 | wrapping a value in a one-item iterable changes nothing |
| SvnPython.CmdListShape | lib/SvnPython.py:168-177 | `svn --non-interactive`, then user and password options when given, the subcommand and the flattened words |
| SvnPython.RunFromFacts | lib/SvnPython.py:180-195 | at most three attempts; earlier ones failed with the connection glitch; stdout exactly when stderr is empty, otherwise SvnPythonException with stderr, and an early stop only for other errors |
| SvnPython.Run | lib/SvnPython.py:167-195 | a flattening error raises before any attempt; otherwise the command line is built as above and the retry loop gives the result the specification function gives |
| SvnPython.RemoveFirstAt | lib/SvnPython.py:88 | `list.remove` drops only the first occurrence |
| SvnPython.WantsOutputAsDictListMeaning | lib/SvnPython.py:83-92 | TypeError for a non-tuple; new arguments exactly when `--list` is present, with its first occurrence removed and `--xml` appended |
| SvnPython.WithTag | lib/SvnPython.py:77 | exactly the children carrying the tag |
| SvnPython.FromEach | lib/SvnPython.py:58 | one converted value per element |
| SvnPython.FromOne | lib/SvnPython.py:60-80 | one element never converts to a list |
| SvnPython.CreateDictFromElementCases | lib/SvnPython.py:48-80 | TypeError for a non-list; `{}` for the empty list; one element converted alone; several converted one by one into a list |
| SvnPython.LeafConversion | lib/SvnPython.py:65-73 | a leaf without attributes gives its text; with attributes, the attributes plus its tag mapped to its text |
| SvnPython.ChildrenGroupedByTag | lib/SvnPython.py:65-80 | the keys are the attributes plus the child tags; each child tag maps to the conversion of all children with that tag, and child tags win over attributes |
| SvnPython.InsertBy | lib/SvnPython.py:457 | inserting adds exactly one entry |
| SvnPython.SortBy | lib/SvnPython.py:457 | sorting keeps the length |
| SvnPython.InsertBySorted | lib/SvnPython.py:457 | inserting into a sorted list keeps it sorted |
| SvnPython.InsertByElements | lib/SvnPython.py:457 | inserting adds exactly the new entry to the multiset |
| SvnPython.InsertByWithKey | lib/SvnPython.py:457 | the new entry goes before the equal-key entries it meets, which keep their order |
| SvnPython.SortByCorrect | lib/SvnPython.py:457 | `sorted(key=len)` gives a sorted permutation that keeps the order of equal-length names (stability) |
| SvnPython.Zip | lib/SvnPython.py:461-462 | pairs position by position, as long as the shorter list |
| SvnPython.Repeat | lib/SvnPython.py:451 | `[''] * n`: n copies of the word |
| SvnPython.Targets | lib/SvnPython.py:459-462 | each target is `file@peg` |
| SvnPython.JoinSpaced | lib/SvnPython.py:463 | `' '.join` followed by a blank equals the words each followed by a blank |
| SvnPython.QuotedLength | lib/SvnPython.py:458-462 | one quoted word per target |
| SvnPython.QuotedJoinWords | lib/SvnPython.py:458-463 | the joined quoted targets read back as the targets, in order |
| SvnPython.UpdateCommandWords | lib/SvnPython.py:465-467 | the update arguments split back into `-r`, the revision, `--parents`, the `file@peg` targets and the extra arguments' words |
| SvnPython.RevisionWordPlain | lib/SvnPython.py:446-447 | a missing or numeric revision gives a single plain word |
| SvnPython.UpdatePairsCorrect | lib/SvnPython.py:450-462 | the corrected pairing keeps every file with its own peg revision and orders them by file-name length |
| SvnPython.PegsMispaired | lib/SvnPython.py:457-462 | sorting the files but not the pegs gives `a@1` for files `bb`, `a` with pegs `1`, `2`; the intended pairing gives `a@2` |
| SvnPython.InsertByConstPeg | lib/SvnPython.py:451 | with one peg for all files, inserting into the pairs is inserting into the files |
| SvnPython.ConstPegsAgree | lib/SvnPython.py:451-462 | with one peg for all files, sorting the pairs is sorting the files |
| SvnPython.DefaultPegsAgree | lib/SvnPython.py:438-467 | with no peg revisions given, the code as written and as intended produce the same arguments |
| SvnPython.UpdateArgsWords | lib/SvnPython.py:438-471 | the corrected argument string for `run_update`, in which each file keeps its own peg revision, flattens to exactly the intended words |
| P4Server.FieldLines | lib/p4server.py:120 | one `key: value` line per spec field, in order |
| P4Server.WorkspaceSpecChecks | lib/p4server.py:88-106 | a spec exactly when every entry is a mapping, every right-hand side starts with `./` and the line end is one of `local`, `share`, `unix`, `win`; otherwise an Exception, checked in that order, whose message is the source's: the mapping-format prefix, a blank and the repr of the mappings; the relative-path message; or the line-end message with the line end; the name is `user_host_replication-script_id` |
| P4Server.StreamReplacesView | lib/p4server.py:108-118 | the seven fields in order, the last being `Stream` when a stream is given and `View` otherwise |
| P4Server.ViewEntries | lib/p4server.py:102-103 | one view entry per mapping, in order |
| P4Server.ViewLines | lib/p4server.py:102-103 | the view text splits back into one line per mapping, each depot path followed by `//name` and the relative path without its dot |
| P4Server.Server.constructor | lib/p4server.py:25-33 | a new connection for the user has charset `none` (not unicode), no client and no commands run |
| P4Server.Server.TryLogin | lib/p4server.py:55-66 | one login when it succeeds; any other failure re-raised; on the unicode-only refusal the charset is looked up from the locale (KeyError if unknown) and login is retried once |
| P4Server.Server.CreateWorkspace | lib/p4server.py:68-135 | the defaults for root and id, the spec's checks, then `client -i` with the spec as input, the root as cwd and the name as client, and `switch` when a stream is given; nothing changes on an error |
| P4P4Replicate.WordsFrom | P4P4Replicate.py:29 | `str.split()` gives no empty word |
| P4P4Replicate.WordsOfWord | P4P4Replicate.py:29 | a word followed by a blank is split off whole |
| P4P4Replicate.WordsOfLastWord | P4P4Replicate.py:29 | a last word without blanks is kept whole |
| P4P4Replicate.MappingOfLine | P4P4Replicate.py:29-30 | a line gives a mapping of two non-empty words, or the error `_make` raises |
| P4P4Replicate.MappingOfLines | P4P4Replicate.py:27-30 | one mapping per line of the mapping file, or the first error |
| P4P4Replicate.MappingLineRoundTrip | P4P4Replicate.py:27-30 | a line `depot rel` reads back as the mapping from depot to rel |
| P4P4Replicate.UniqueIdIgnored | P4P4Replicate.py:33 | as written the unique id is never read, since a dict has no `uniqueid` attribute; as intended a configured id is used |
| P4P4Replicate.CreateP4Workspace | P4P4Replicate.py:19-42 | the mapping file's errors come first and leave the server untouched; otherwise the workspace is created with the configured root (or the current directory) and the configured unique id (or the random one), recording `client -i` and, for a stream, `switch`; the result is an Exception exactly when the new client is not listed |
| P4P4Replicate.Listed | P4P4Replicate.py:39 | true exactly when the new workspace's name is among the listed clients |
| P4P4Replicate.CfgEntries | P4P4Replicate.py:56-64 | exactly the configured workspace keys whose values are not None |
| P4P4Replicate.CfgLines | P4P4Replicate.py:59-64 | one `key=value` line per entry, in order |
| P4P4Replicate.SplitJoin | P4P4Replicate.py:59-69 | joining parts without the separator and splitting gives them back |
| P4P4Replicate.CfgKeyPlain | P4P4Replicate.py:56-57 | no configured key holds `=` or a line break |
| P4P4Replicate.CfgContentLines | P4P4Replicate.py:59-69 | the file reads as `[source]`, its lines, `[target]`, its lines, `[general]` |
| P4P4Replicate.CfgLinesReadBack | P4P4Replicate.py:59-64 | each written line parses back to its key and value |
| P4P4Replicate.LineReadBack | P4P4Replicate.py:59-64 | a `key=value` line of a configured entry splits at its first `=` back into key and value |
| P4P4Replicate.ReplicateArgv | P4P4Replicate.py:115-129 | program name, `-c` and the file, `-m N` exactly when a nonzero maximum is given, the set flags in order, `--verbose` and the level last |

## Left out

- Server round trips (P4Python, pysvn, `svn` processes): replies are parameters and commands are recorded, so the model cannot tell whether a command succeeds on a real server.
- The command-line front ends (argparse methods, `get_arguments`, `P4RBG.py`, `lib/scmrepargs.py`), logging and colours: no decision logic.
- Filesystem effects (temporary files, `os.walk` order, `shutil`, `chmod`) and random names from `generate_random_str`: the random suffix, the current directory and the host name are parameters.
- Dates and digests: `datetime` and timezone rendering, and SHA-256 digests, are opaque strings; only the byte stream fed to the hasher is modelled.
- The regular-expression engine, `shlex`, `urlparse` and ElementTree in general: the fixed tag patterns, the POSIX `shlex.split` subset the scripts rely on, and the element tree are written out by hand.
- Python 2 dict order: the workspace spec fields and the configuration entries keep insertion order (Python 3.7 order). Under Python 2 the order is the hash order; Perforce and `configparser` read these by name.
- Iteration over sets and Python 2 dicts (lib/PerforceToSubversion.py:157-171, 182-193, 200, 213-215, 292-296, 335-347; lib/scmsvn.py:396-418): the source iterates these in hash order, which it does not fix. The model iterates them in insertion or first-appearance order, so the order of the `svn update`, `svn add` and `svn remove` commands, of the returned submit list and of the appended 'D'/'A' records is the model's; only their contents are the source's.
- `PerforceToSubversion.Insert`: keeps the directory keys in insertion order; the source's dict (lib/PerforceToSubversion.py:157-171) has no fixed order.
- `PerforceToSubversion.Union`: lists the set in insertion order; the source's set (lib/PerforceToSubversion.py:182-193) has no fixed order, so the order of the `svn add` commands and of the submit list is unspecified there.
- `PerforceToSubversion.RemoveEntries`: visits the directories in insertion order; the source iterates a dict (lib/PerforceToSubversion.py:335-347), so the order of the `svn update` and `svn remove` commands and of the submit list is unspecified there.
- `ScmSvn.OnlyIn`: lists the difference in first-appearance order; the source iterates a Python 3 set of strings (lib/scmsvn.py:396-418), whose order varies with the per-process hash seed, so the order of the appended 'D'/'A' records is unspecified there.
- The resolver callbacks of `replicate_file_integrate` (merge-file swapping): library callbacks over temporary files.
- `PerforceToSubversion.replicate` (lib/PerforceToSubversion.py:435-468), the per-change driver loop: only the handling of one change is modelled.
- `outputAsDictList` and `_run_check_list` (lib/SvnPython.py:95-98, 197-206): they only combine modelled pieces with the XML parser. `_run_check_list` flattens its arguments twice, which the model does not reproduce.
- `SvnPython.Run`: stderr is modelled as text; the source tests a bytes value with `not stderr` and decodes it for the glitch test.
- `P4Server.Server.CreateWorkspace`: the repr of the mapping argument, which the mapping-format message ends with, is a parameter (`shown`); the model does not render Python reprs.
- `P4P4Replicate.CreateP4Workspace`: the mappings reach `create_workspace` as a list. Under Python 3, `map` (P4P4Replicate.py:30) makes a one-shot iterator, which the first `all(...)` check in lib/p4server.py:89-90 consumes, so the relative-path check and the view would then see no mappings; the model follows the Python 2 list.
- `P4Server.Server.CreateWorkspace`: an error from `client -i` is not modelled; a failing `switch` is ignored, as in the source.
- `P4Server.Server.constructor`: the connect and login done in `__init__`, and the random user and password used when none is given, are not modelled; `TryLogin` models the login separately.
- `P4ReleaseBranchGenerate.ParentBranches`: `find_parent_branches` recurses until a branch has no parent; the model follows at most `fuel` parents, so a parent chain longer than the fuel, or a cycle, is cut off.
- `P4ReleaseBranchGenerate.OffsetCache.Delta`: the check that a cached value is a `timedelta` cannot fail in the typed model and is left out.
- `P4ReleaseBranchGenerate.SubmitCopy`: `update_user_and_timestamp` (lib/P4ReleaseBranchGenerate.py:190-217) appears as one recorded `change -f` command carrying the user, the time and the offset; the date rendering in the server's timezone and the `change -f` permission error are not modelled.
- `repopulate_change_submitter_time` and `release_branch_generate` (lib/P4ReleaseBranchGenerate.py:564-656): driver loops over server calls; the plan they execute is `GetRevisionsToCopy`, and the branch views come from `BranchViews.Get`.
- Copy-record storage (`get_value_of_RBG_key`, `set_value_of_RBG_key`, `get_release_branch_copy_records`, `add_release_branch_copy_record`): JSON in Perforce keys. The records are given as data; only key naming is modelled.
- `get_revisions_earliest_first`, `create_branch_view`, `delete_branch_view` and the RBG workspace helpers: server listings and spec creation, given as data or recorded as one command.
- `P4P4Replicate.CreateP4Workspace`: reading the mapping file is modelled from its lines; `delete_p4_workspace` and running the transfer script in `replicate` are not modelled.
- `ScmP4Ingest.FixedLocalFile`: uses the corrected unescaping (ScmP4Names.DecodeWildcards) for the fixed local file name; as written, `convert_ascii_to_p4wildcard` (lib/scmp4.py:57-70) unescapes `%25` first, so a name containing a literal `%` is added under a different name (see Findings).
- `ScmP4Integrate.NoIntegrate`: uses the corrected unescaping through `ScmP4Ingest.FixedLocalFile`; a name containing a literal `%` differs from the source's, as the line above says.
- `ScmP4Integrate.IntegrateAs`: uses the corrected unescaping through `ScmP4Ingest.FixedLocalFile`; a name containing a literal `%` differs from the source's, as the line above says.
- `ScmP4Integrate.DegradeOnTranslateFailure`: uses the corrected unescaping through `ScmP4Ingest.FixedLocalFile`; a name containing a literal `%` differs from the source's, as the line above says.
- `ScmP4Integrate.ReplicateMove`: uses the corrected unescaping through `ScmP4Ingest.FixedLocalFile`; a name containing a literal `%` differs from the source's, as the line above says.
- `ScmP4Integrate.MoveOne`: uses the corrected unescaping through `ScmP4Ingest.FixedLocalFile`; a name containing a literal `%` differs from the source's, as the line above says.
- `ScmP4Integrate.UntranslatedMoveAdds`: uses the corrected unescaping through `ScmP4Ingest.FixedLocalFile`; a name containing a literal `%` differs from the source's, as the line above says.
- `ScmP4Integrate.MoveFromOldRevisionAdds`: uses the corrected unescaping through `ScmP4Ingest.FixedLocalFile`; a name containing a literal `%` differs from the source's, as the line above says.
- `ScmP4Replay.EditAction`: uses the corrected unescaping through `ScmP4Ingest.FixedLocalFile`; a name containing a literal `%` differs from the source's.
- `ScmP4Replay.ForceIgnore`: uses the corrected unescaping through `ScmP4Ingest.FixedLocalFile`; a name containing a literal `%` differs from the source's.
- `ScmP4Replay.AddAction`: uses the corrected unescaping through `ScmP4Ingest.FixedLocalFile`; a name containing a literal `%` differs from the source's.
- `ScmP4Replay.AddAsBranch`: uses the corrected unescaping through `ScmP4Ingest.FixedLocalFile`; a name containing a literal `%` differs from the source's.
- `ScmP4Replay.BranchAction`: uses the corrected unescaping through `ScmP4Ingest.FixedLocalFile`; a name containing a literal `%` differs from the source's.
- `ScmP4Replay.IntegrateAction`: uses the corrected unescaping through `ScmP4Ingest.FixedLocalFile`; a name containing a literal `%` differs from the source's.
- `ScmP4Replay.MoveAddAction`: uses the corrected unescaping through `ScmP4Ingest.FixedLocalFile`; a name containing a literal `%` differs from the source's.
- `PerforceReplicate.SanityCheck`: uses the corrected case-insensitive comparison (`PerforceReplicate.CompareDigests`); as written (lib/PerforceReplicate.py:245-247) the lowered lists are not sorted again, so sides that differ only in the case of names raise RepP4Exception (see Findings).
- `PerforceReplicate.SanityFailureMeansDifference`: states the corrected comparison; as written, a case-only difference between the sides fails the check.
- `PerforceReplicate.Transfer.Replicate`: uses the corrected start counter (`Scm2Scm.StartCounter`) and the corrected sanity check; as written under Python 3 (lib/scm2scm.py:106-107), an untagged newest target change raises TypeError, and a case-only difference fails the check (see Findings).
- `Scm2Scm.Replication.CalcStartChangelist`: uses the corrected start counter; as written under Python 3, an untagged newest target change raises TypeError (see Findings).
- `P4P4Replicate.CreateP4Workspace`: names the workspace with the configured unique id (`P4P4Replicate.UniqueId`); as written (P4P4Replicate.py:33) the random suffix is always used (see Findings).
- `PerforceReplicate.LowerNames`: lower-cases ASCII letters only; Python 3's `str.lower` also folds non-ASCII letters.
- `Strings.IsSpace`: is Python 3's Unicode `str.isspace`; under Python 2 a byte string's `split()` breaks only at ASCII blanks, so non-ASCII blanks in listings split words in the model and not in Python 2.

## Findings

| source | as written | input that shows it | evidently intended | confidence | as-written member | corrected member |
|---|---|---|---|---|---|---|
| lib/scm2scm.py:106-107 | `len(filter(...))`: under Python 3 `filter` returns an iterator, so `len` raises TypeError whenever the newest target change carries no tag | eleven target changes, the newest untagged and the one before it tagged with revision 10, counter 10 | count the tagged changes and resume at counter 10 | high, not executed | `Scm2Scm.StartCounterAsWritten` (shown by `Scm2Scm.FilterLenBlocksResume`) | `Scm2Scm.StartCounter` (`Scm2Scm.ResumeWithCounterAtLast`, `Scm2Scm.StartCounterOk`) |
| lib/scmp4.py:57-70 | `%25` is unescaped first, so an escape produced for a literal `%` is read again as another escape | the file name `%40`, escaped to `%2540`, unescapes to `@` | unescaping gives back every escaped name | high, not executed | `ScmP4Names.DecodeWildcardsAsWritten` (shown by `ScmP4Names.DecodeAsWrittenLosesPercent`) | `ScmP4Names.DecodeWildcards` (`ScmP4Names.DecodeEncode`, `ScmP4Names.DecodeKeepsPercent`) |
| lib/scmsvn.py:823-829 | `add_paths` is a generator, and each `in` test consumes it, so a later replaced path can miss an add record that is there | records R `/wc/b`, R `/wc/a`, A `/wc/a`, A `/wc/b`: an extra A `/wc/a` is appended | append an add record only for a replaced path that has none | high, not executed | `ScmSvn.FixedReplacementsAsWritten` (shown by `ScmSvn.SpuriousAddAsWritten`) | `ScmSvn.FixedReplacements` (`ScmSvn.EveryReplacementAdded`, `ScmSvn.NoSpuriousAdd`, `ScmSvn.FixIdempotent`) |
| lib/PerforceReplicate.py:245-247 | the case-insensitive retry lowers the names but does not sort the lists again | source digests `(B,1), (a,2)` and target digests `(a,2), (b,1)`, with no purged revisions | a change whose two sides differ only in the case of names passes | medium, not executed | `PerforceReplicate.CompareDigestsAsWritten` (shown by `PerforceReplicate.CaseOnlyDifferenceRefused`) | `PerforceReplicate.CompareDigests` (`PerforceReplicate.CaseOnlyDifferenceAccepted`, `PerforceReplicate.CompareDigestsIff`) |
| lib/buildcommon.py:17-26 | line ends are normalised block by block, so a `\r\n` split across two 65536-byte blocks becomes `\n\n` | 65535 bytes without line ends followed by `\r\n`, against the same bytes followed by `\n` | a file and its CRLF twin hash the same | medium, not executed | `BuildCommon.NormalisedBlocks` (shown by `BuildCommon.StraddlingCRLF`) | `BuildCommon.NormaliseWhole` (`BuildCommon.NormaliseWholeCRLF`) |
| SvnP4BranchDetection.py:159-160 | a first revision that is not a branch makes `get_src_svn_branch_revision` return a pair (line 84), and the caller unpacks three values, which raises ValueError | a project whose first logged path has no copy source | log that the first revision is not a branch and return None | high, not executed | `SvnP4BranchDetection.DetectBranchPointAsWritten` (shown by `SvnP4BranchDetection.NotBranchUnpacking`) | `SvnP4BranchDetection.DetectBranchPoint` (`SvnP4BranchDetection.DetectedBranchPoint`) |
| SvnP4BranchDetection.py:166-171 | the error message names `revs`, which is not defined in `detect_branch_point`, so NameError is raised | a branch copied at revision 5 from a path whose log lists no revision up to 5 | log the failure and return None | high, not executed | `SvnP4BranchDetection.DetectBranchPointAsWritten` (shown by `SvnP4BranchDetection.NoCopyRevisionMessage`) | `SvnP4BranchDetection.DetectBranchPoint` (`SvnP4BranchDetection.AsWrittenAgreesOnBranches`) |
| P4P4Replicate.py:33 | `hasattr(ws_cfg, 'uniqueid')` is false for a dict, so the configured unique id is never used | a configuration with `uniqueid` 7 | name the workspace with the configured unique id | high, not executed | `P4P4Replicate.UniqueIdAsWritten` (shown by `P4P4Replicate.UniqueIdIgnored`) | `P4P4Replicate.UniqueId` (used by `P4P4Replicate.CreateP4Workspace`) |
| lib/SvnPython.py:457-462 | the files are sorted by length but the peg revisions are not, so pegs are paired with the wrong files; latent, since the callers in this repository (lib/scmsvn.py:555-556 and 732-734, lib/PerforceToSubversion.py:203 and 349) pass no pegs or the same peg for every file | a direct call with files `bb`, `a` and pegs `1`, `2` gives `a@1` and `bb@2` | each file keeps its own peg revision | low (latent), not executed | `SvnPython.AsWrittenPairs` (shown by `SvnPython.PegsMispaired`) | `SvnPython.UpdatePairs` (`SvnPython.UpdatePairsCorrect`, `SvnPython.UpdateArgsWords`) |
