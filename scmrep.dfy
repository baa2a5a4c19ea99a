/** The provenance tag every replicated change carries in its description,
  * and the configuration reading shared by both sides of a replication
  * (lib/scmrep.py).
  *
  * A tag names the source server, the source revision, its submitter and
  * its submit time. It is written before or after the original description
  * and read back from the first or the last lines of a description; that
  * read-back is how a restarted replication finds where it stopped. */
module ScmRep {
  import opened Common
  import opened Strings

  /** One piece of a `str.format` template: literal text or a named field. */
  datatype Segment = Lit(text: string) | SrcServer | Revision | Submitter | SubmitTime

  /** The extraction regular expressions the scripts use, each matched by
    * hand below (a general regular-expression engine is not modelled). */
  datatype Extracter =
    | ImportedFrom            // 'Imported from (?P<srcserver>.+)\nr(?P<revision>[0-9]+)\|(?P<submitter>.+)\|(?P<submittime>.+)'
    | AutomatedImportFromSvn  // 'Automated import from SVN:\n+r(?P<revision>[0-9]+)\|(?P<submitter>.+)\|(?P<submittime>.+)'
    | UpdatePerforceToMatchSvn // 'update perforce to match svn revision (?P<revision1>[0-9]+)\n+r(?P<revision>[0-9]+)\|...'

  /** The formatter/extracter pair. */
  datatype RepInfoPattern = RepInfoPattern(formatter: seq<Segment>, extracter: Extracter)

  const TagHead: string := "Imported from "

  const DefaultFormatter: seq<Segment> :=
    [Lit(TagHead), SrcServer, Lit("\nr"), Revision, Lit("|"), Submitter, Lit("|"), SubmitTime]

  const DefaultPattern: RepInfoPattern := RepInfoPattern(DefaultFormatter, ImportedFrom)

  /** The values a tag is rendered from. Python renders a missing revision or
    * submitter as "None"; a falsy submit time becomes the empty string, and
    * a present one is the already rendered ISO-8601 text. */
  datatype Provenance = Provenance(server: string, rev: Option<nat>, submitter: Option<string>, submitTime: Option<string>)

  function RenderSegment(seg: Segment, p: Provenance): string
  {
    match seg
    case Lit(t) => t
    case SrcServer => p.server
    case Revision => if p.rev.Some? then NatToString(p.rev.value) else "None"
    case Submitter => if p.submitter.Some? then p.submitter.value else "None"
    case SubmitTime => if p.submitTime.Some? then p.submitTime.value else ""
  }

  function Render(fmt: seq<Segment>, p: Provenance): string
  {
    if fmt == [] then [] else RenderSegment(fmt[0], p) + Render(fmt[1..], p)
  }

  /** `format_replication_info`: the tag text. */
  function FormatReplicationInfo(pattern: RepInfoPattern, p: Provenance): string
  {
    Render(pattern.formatter, p)
  }

  /** `sanitise_commit_message`: carriage returns removed, nothing else. */
  function SanitiseCommitMessage(s: string): (r: string)
    ensures '\r' !in r
    ensures '\r' !in s ==> r == s
  {
    ReplaceOneRemoves(s, '\r', "");
    if '\r' !in s then ReplaceOneAbsent(s, '\r', ""); Replace(s, "\r", "") else Replace(s, "\r", "")
  }

  /** The sanitiser is a filter: it works character by character, a lone
    * carriage return becomes empty, and any other character stays. */
  lemma SanitiseIsFilter(a: string, b: string, c: char)
    ensures SanitiseCommitMessage(a + b) == SanitiseCommitMessage(a) + SanitiseCommitMessage(b)
    ensures SanitiseCommitMessage("\r") == ""
    ensures c != '\r' ==> SanitiseCommitMessage([c]) == [c]
  {
    ReplaceOneAppend(a, b, '\r', "");
    assert "\r"[..1] == "\r";
  }

  /** `format_replicate_desc`: the tag before the left-stripped description
    * or after the right-stripped one, a blank line between, and carriage
    * returns removed. */
  function FormatReplicateDesc(desc: string, repInfo: string, prefix: bool): (r: string)
    ensures '\r' !in r
  {
    if prefix then SanitiseCommitMessage(repInfo + "\n\n" + LStrip(desc))
    else SanitiseCommitMessage(RStrip(desc) + "\n\n" + repInfo)
  }

  // ---------------------------------------------------------------------
  // Decoding

  /** Each line stripped, blank lines dropped. */
  function NonBlank(ls: seq<string>): seq<string>
  {
    if ls == [] then []
    else (if Strip(ls[0]) == [] then [] else [Strip(ls[0])]) + NonBlank(ls[1..])
  }

  /** The lines `get_revision_from_desc` looks at. */
  function DescLines(desc: string): seq<string>
  {
    NonBlank(Split(Strip(desc), '\n'))
  }

  /** How many lines the extraction pattern spans (`len(p.split('\n'))`). */
  function PatternLineCount(e: Extracter): nat { 2 }

  /** Python's normalisation of a slice start. */
  function SliceStart(len: nat, start: int): (k: nat)
    ensures k <= len
  {
    if start < 0 then (if len + start < 0 then 0 else len + start) else if start > len then len else start
  }

  function FrontWindow(lines: seq<string>, n: nat): seq<string>
  {
    lines[..if n < |lines| then n else |lines|]
  }

  /** `lines[len - n:len]`, with Python's treatment of a negative start. */
  function BackWindow(lines: seq<string>, n: nat): seq<string>
  {
    lines[SliceStart(|lines|, |lines| - n)..]
  }

  /** `(?P<submitter>.+)\|(?P<submittime>.+)` can match the start of `u`. */
  predicate PipeSplits(u: string)
  {
    exists k :: 1 <= k < |u| - 1 && u[k] == '|'
  }

  /** The text up to the first line break (what `.` can match). */
  function LineHead(u: string): string
  {
    match IndexOf(u, '\n')
    case None => u
    case Some(k) => u[..k]
  }

  /** `r(?P<revision>[0-9]+)\|(?P<submitter>.+)\|(?P<submittime>.+)` at the
    * start of `t`; the greedy digit run must be followed by '|'. */
  function MatchRevLine(t: string): Option<nat>
  {
    if t == [] || t[0] != 'r' then None
    else
      var d := DigitRun(t[1..]);
      if |d| == 0 || |d| + 1 >= |t| || t[|d| + 1] != '|' then None
      else if PipeSplits(LineHead(t[|d| + 2..])) then Some(ParseDigits(d))
      else None
  }

  function LeadingNewlines(s: string): (n: nat)
    ensures n <= |s|
  {
    if s != [] && s[0] == '\n' then 1 + LeadingNewlines(s[1..]) else 0
  }

  const SvnImportHead: string := "Automated import from SVN:"
  const ReconcileHead: string := "update perforce to match svn revision "

  /** `re.match(extracter, text)`, giving the `revision` group as a number. */
  function MatchRepInfo(e: Extracter, w: string): Option<nat>
  {
    match e
    case ImportedFrom =>
      if !StartsWith(w, TagHead) then None
      else
        var rest := w[|TagHead|..];
        (match IndexOf(rest, '\n')
         case None => None
         case Some(k) => if k == 0 then None else MatchRevLine(rest[k + 1..]))
    case AutomatedImportFromSvn =>
      if !StartsWith(w, SvnImportHead) then None
      else
        var rest := w[|SvnImportHead|..];
        var n := LeadingNewlines(rest);
        if n == 0 then None else MatchRevLine(rest[n..])
    case UpdatePerforceToMatchSvn =>
      if !StartsWith(w, ReconcileHead) then None
      else
        var rest := w[|ReconcileHead|..];
        var d := DigitRun(rest);
        var n := LeadingNewlines(rest[|d|..]);
        if |d| == 0 || n == 0 then None else MatchRevLine(rest[|d| + n..])
  }

  /** `get_revision_from_desc`: the revision in the tag found in the first
    * lines, else in the last lines, else 0. */
  function GetRevisionFromDesc(desc: string, e: Extracter): nat
  {
    var lines := DescLines(desc);
    var n := PatternLineCount(e);
    match MatchRepInfo(e, Join(FrontWindow(lines, n), "\n"))
    case Some(r) => r
    case None =>
      match MatchRepInfo(e, Join(BackWindow(lines, n), "\n"))
      case Some(r) => r
      case None => 0
  }

  /** `get_replicated_rev`: the revision decoded from each of the recent
    * target descriptions, oldest first. */
  function GetReplicatedRev(lastDescs: seq<string>, pattern: RepInfoPattern): (r: seq<nat>)
    ensures |r| == |lastDescs|
    ensures forall i :: 0 <= i < |r| ==> r[i] == GetRevisionFromDesc(lastDescs[i], pattern.extracter)
  {
    if lastDescs == [] then [] else
    [GetRevisionFromDesc(lastDescs[0], pattern.extracter)] + GetReplicatedRev(lastDescs[1..], pattern)
  }

  // ---------------------------------------------------------------------
  // Round trip of the default tag

  predicate NoLineBreak(s: string) { '\n' !in s && '\r' !in s }

  /** What a tag must hold for its revision to be read back: a revision, a
    * single-line server name with some visible text, a non-empty single-line
    * submitter (or none, rendered "None"), and a visible single-line time. */
  predicate ValidProvenance(p: Provenance)
  {
    && p.rev.Some?
    && NoLineBreak(p.server) && HasNonSpace(p.server)
    && (p.submitter.None? || (p.submitter.value != [] && NoLineBreak(p.submitter.value)))
    && p.submitTime.Some? && NoLineBreak(p.submitTime.value) && HasNonSpace(p.submitTime.value)
  }

  /** The description's own first two lines already read as a tag. */
  predicate TagAtFront(desc: string, e: Extracter)
  {
    var lines := DescLines(SanitiseCommitMessage(desc));
    |lines| >= 2 && MatchRepInfo(e, lines[0] + "\n" + lines[1]).Some?
  }

  function SubmitterText(p: Provenance): string
  {
    if p.submitter.Some? then p.submitter.value else "None"
  }

  lemma RenderCons(seg: Segment, rest: seq<Segment>, p: Provenance)
    ensures Render([seg] + rest, p) == RenderSegment(seg, p) + Render(rest, p)
  {
    assert ([seg] + rest)[1..] == rest;
  }

  lemma DefaultRenderNested(p: Provenance)
    ensures Render(DefaultFormatter, p)
         == TagHead + (p.server + ("\nr" + (RenderSegment(Revision, p) + ("|" + (RenderSegment(Submitter, p) + ("|" + RenderSegment(SubmitTime, p)))))))
  {
    var f3 := [Revision, Lit("|"), Submitter, Lit("|"), SubmitTime];
    var f2 := [Lit("\nr")] + f3;
    var f1 := [SrcServer] + f2;
    assert [Lit(TagHead)] + f1 == DefaultFormatter;
    RevisionFieldsRender(p);
    RenderCons(Lit("\nr"), f3, p);
    RenderCons(SrcServer, f2, p);
    RenderCons(Lit(TagHead), f1, p);
  }

  /** The revision, submitter and time fields of the default tag. */
  lemma RevisionFieldsRender(p: Provenance)
    ensures Render([Revision, Lit("|"), Submitter, Lit("|"), SubmitTime], p)
         == RenderSegment(Revision, p) + ("|" + (RenderSegment(Submitter, p) + ("|" + RenderSegment(SubmitTime, p))))
  {
    var f7: seq<Segment> := [SubmitTime];
    var f6 := [Lit("|")] + f7;
    var f5 := [Submitter] + f6;
    var f4 := [Lit("|")] + f5;
    assert [Revision] + f4 == [Revision, Lit("|"), Submitter, Lit("|"), SubmitTime];
    RenderCons(SubmitTime, [], p);
    RenderCons(Lit("|"), f7, p);
    RenderCons(Submitter, f6, p);
    RenderCons(Lit("|"), f5, p);
    RenderCons(Revision, f4, p);
  }

  lemma Regroup(h: string, s: string, d: string, u: string, t: string)
    ensures h + (s + ("\nr" + (d + ("|" + (u + ("|" + t))))))
         == h + s + "\n" + ("r" + d + "|" + u + "|" + t)
  {
    assert "\nr" == "\n" + "r";
  }

  lemma DefaultRender(p: Provenance)
    requires p.rev.Some? && p.submitTime.Some?
    ensures FormatReplicationInfo(DefaultPattern, p)
         == TagHead + p.server + "\n" + ("r" + NatToString(p.rev.value) + "|" + SubmitterText(p) + "|" + p.submitTime.value)
  {
    DefaultRenderNested(p);
    Regroup(TagHead, p.server, NatToString(p.rev.value), SubmitterText(p), p.submitTime.value);
  }

  lemma {:induction false} NonBlankAppend(a: seq<string>, b: seq<string>)
    ensures NonBlank(a + b) == NonBlank(a) + NonBlank(b)
  {
    if a != [] {
      assert (a + b)[1..] == a[1..] + b;
      NonBlankAppend(a[1..], b);
    } else {
      assert a + b == b;
    }
  }

  /** Lines of `a + "\n" + b` are the lines of `a` then those of `b`. */
  lemma LinesAppend(a: string, b: string)
    ensures NonBlank(Split(a + "\n" + b, '\n')) == NonBlank(Split(a, '\n')) + NonBlank(Split(b, '\n'))
  {
    SplitAppend(a, b, '\n');
    NonBlankAppend(Split(a, '\n'), Split(b, '\n'));
  }

  lemma LinesLeadingSpace(c: char, s: string)
    requires IsSpace(c)
    ensures NonBlank(Split([c] + s, '\n')) == NonBlank(Split(s, '\n'))
  {
    SplitCons([c] + s, '\n');
    assert ([c] + s)[1..] == s;
    var r := Split(s, '\n');
    if c == '\n' {
      assert Split([c] + s, '\n') == [[]] + r;
      assert NonBlank([[]] + r) == NonBlank(r) by { assert ([[]] + r)[1..] == r; }
    } else {
      assert Split([c] + s, '\n') == [[c] + r[0]] + r[1..];
      StripConsSpace(c, r[0]);
      assert ([[c] + r[0]] + r[1..])[1..] == r[1..];
    }
  }

  lemma LinesTrailingSpace(s: string, c: char)
    requires IsSpace(c)
    ensures NonBlank(Split(s + [c], '\n')) == NonBlank(Split(s, '\n'))
  {
    if c == '\n' {
      LinesTrailingNewline(s);
    } else {
      LinesTrailingBlank(s, c);
    }
  }

  lemma LinesTrailingNewline(s: string)
    ensures NonBlank(Split(s + ['\n'], '\n')) == NonBlank(Split(s, '\n'))
  {
    var r := Split(s, '\n');
    SplitAppend(s, [], '\n');
    assert s + ['\n'] + [] == s + ['\n'];
    assert Split([], '\n') == [[]];
    NonBlankAppend(r, [[]]);
    assert NonBlank([[]]) == [];
  }

  lemma LinesTrailingBlank(s: string, c: char)
    requires IsSpace(c) && c != '\n'
    ensures NonBlank(Split(s + [c], '\n')) == NonBlank(Split(s, '\n'))
  {
    var r := Split(s, '\n');
    SplitSnoc(s, c, '\n');
    var k := |r| - 1;
    assert r == r[..k] + [r[k]];
    NonBlankAppend(r[..k], [r[k]]);
    NonBlankAppend(r[..k], [r[k] + [c]]);
    StripSnocSpace(r[k], c);
  }

  lemma {:induction false} LinesLeadingAll(w: string, s: string)
    requires AllSpace(w)
    ensures NonBlank(Split(w + s, '\n')) == NonBlank(Split(s, '\n'))
  {
    if w != [] {
      assert w + s == [w[0]] + (w[1..] + s);
      LinesLeadingSpace(w[0], w[1..] + s);
      LinesLeadingAll(w[1..], s);
    } else {
      assert w + s == s;
    }
  }

  lemma {:induction false} LinesTrailingAll(s: string, w: string)
    requires AllSpace(w)
    ensures NonBlank(Split(s + w, '\n')) == NonBlank(Split(s, '\n'))
  {
    if w != [] {
      var k := |w| - 1;
      assert s + w == (s + w[..k]) + [w[k]];
      LinesTrailingSpace(s + w[..k], w[k]);
      LinesTrailingAll(s, w[..k]);
    } else {
      assert s + w == s;
    }
  }

  lemma LinesOfLStrip(s: string)
    ensures NonBlank(Split(s, '\n')) == NonBlank(Split(LStrip(s), '\n'))
  {
    var n := LeadingSpaces(s);
    forall k | 0 <= k < n ensures IsSpace(s[k]) { LeadingSpacesAreSpace(s, k); }
    assert AllSpace(s[..n]);
    assert s == s[..n] + s[n..];
    LinesLeadingAll(s[..n], s[n..]);
  }

  lemma LinesOfRStrip(s: string)
    ensures NonBlank(Split(s, '\n')) == NonBlank(Split(RStrip(s), '\n'))
  {
    var t := TrailingStart(s);
    forall k | t <= k < |s| ensures IsSpace(s[k]) { TrailingSpacesAreSpace(s, k); }
    assert AllSpace(s[t..]);
    assert s == s[..t] + s[t..];
    LinesTrailingAll(s[..t], s[t..]);
  }

  /** The outer `strip()` does not change which lines are read. */
  lemma DescLinesUnstripped(s: string)
    ensures DescLines(s) == NonBlank(Split(s, '\n'))
  {
    LinesOfLStrip(s);
    LinesOfRStrip(LStrip(s));
  }

  lemma {:induction false} SanitiseAllSpace(w: string)
    requires AllSpace(w)
    ensures AllSpace(SanitiseCommitMessage(w))
  {
    if w != [] {
      SanitiseAllSpace(w[1..]);
      assert w == [w[0]] + w[1..];
      ReplaceOneAppend([w[0]], w[1..], '\r', "");
    }
  }

  lemma SanitiseAppend(a: string, b: string)
    ensures SanitiseCommitMessage(a + b) == SanitiseCommitMessage(a) + SanitiseCommitMessage(b)
  {
    ReplaceOneAppend(a, b, '\r', "");
  }

  lemma {:induction false} NonBlankNoBreak(ls: seq<string>, i: nat)
    requires forall j :: 0 <= j < |ls| ==> '\n' !in ls[j]
    requires i < |NonBlank(ls)|
    ensures '\n' !in NonBlank(ls)[i] && NonBlank(ls)[i] != []
  {
    var h := if Strip(ls[0]) == [] then [] else [Strip(ls[0])];
    assert NonBlank(ls) == h + NonBlank(ls[1..]);
    if i < |h| {
      var x := ls[0];
      var l := LStrip(x);
      assert '\n' !in l by {
        forall j | 0 <= j < |l| ensures l[j] != '\n' { assert l[j] == x[LeadingSpaces(x) + j]; }
      }
      assert '\n' !in RStrip(l) by {
        forall j | 0 <= j < |RStrip(l)| ensures RStrip(l)[j] != '\n' { assert RStrip(l)[j] == l[j]; }
      }
    } else {
      NonBlankNoBreak(ls[1..], i - |h|);
    }
  }

  lemma DescLinesNoBreak(s: string, i: nat)
    requires i < |DescLines(s)|
    ensures '\n' !in DescLines(s)[i] && DescLines(s)[i] != []
  {
    NonBlankNoBreak(Split(Strip(s), '\n'), i);
  }

  lemma RStripNonEmpty(s: string)
    requires HasNonSpace(s)
    ensures RStrip(s) != []
  {
    if RStrip(s) == [] {
      var i :| 0 <= i < |s| && !IsSpace(s[i]);
      TrailingSpacesAreSpace(s, i);
    }
  }

  lemma NoBreakStrip(s: string)
    requires '\n' !in s
    ensures '\n' !in RStrip(s)
  {
    forall j | 0 <= j < |RStrip(s)| ensures RStrip(s)[j] != '\n' { assert RStrip(s)[j] == s[j]; }
  }

  /** The two tag lines as the decoder sees them after stripping. */
  function TagLine1(p: Provenance): string { TagHead + RStrip(p.server) }

  function TagLine2(p: Provenance): string
    requires p.rev.Some? && p.submitTime.Some?
  {
    "r" + NatToString(p.rev.value) + "|" + SubmitterText(p) + "|" + RStrip(p.submitTime.value)
  }

  /** Two single-line, non-blank pieces joined by a line break are read as
    * their two stripped lines. */
  lemma TwoLines(l1: string, l2: string)
    requires '\n' !in l1 && '\n' !in l2 && Strip(l1) != [] && Strip(l2) != []
    ensures NonBlank(Split(l1 + "\n" + l2, '\n')) == [Strip(l1), Strip(l2)]
  {
    LinesAppend(l1, l2);
    SplitNoSep(l1, '\n');
    SplitNoSep(l2, '\n');
    assert NonBlank([l1]) == [Strip(l1)];
    assert NonBlank([l2]) == [Strip(l2)];
  }

  lemma StripLine1(p: Provenance)
    requires ValidProvenance(p)
    ensures Strip(TagHead + p.server) == TagLine1(p) && TagLine1(p) != []
  {
    RStripAppend(TagHead, p.server);
    assert LStrip(TagHead + p.server) == TagHead + p.server;
  }

  lemma StripLine2(p: Provenance)
    requires ValidProvenance(p)
    ensures var l2 := "r" + NatToString(p.rev.value) + "|" + SubmitterText(p) + "|" + p.submitTime.value;
            Strip(l2) == TagLine2(p) && TagLine2(p) != []
  {
    var l2 := "r" + NatToString(p.rev.value) + "|" + SubmitterText(p) + "|" + p.submitTime.value;
    RStripAppend("r" + NatToString(p.rev.value) + "|" + SubmitterText(p) + "|", p.submitTime.value);
    assert LStrip(l2) == l2;
  }

  lemma TagText(p: Provenance)
    requires ValidProvenance(p)
    ensures var info := FormatReplicationInfo(DefaultPattern, p);
            && info == (TagHead + p.server) + "\n" + ("r" + NatToString(p.rev.value) + "|" + SubmitterText(p) + "|" + p.submitTime.value)
            && '\r' !in info
            && '\n' !in TagHead + p.server
            && '\n' !in "r" + NatToString(p.rev.value) + "|" + SubmitterText(p) + "|" + p.submitTime.value
  {
    DefaultRender(p);
    var d := NatToString(p.rev.value);
    assert '\r' !in d && '\n' !in d;
  }

  /** The rendered tag contributes exactly its two stripped lines. */
  lemma TagLines(p: Provenance)
    requires ValidProvenance(p)
    ensures var info := FormatReplicationInfo(DefaultPattern, p);
            SanitiseCommitMessage(info) == info
            && NonBlank(Split(info, '\n')) == [TagLine1(p), TagLine2(p)]
  {
    TagText(p);
    StripLine1(p);
    StripLine2(p);
    TwoLines(TagHead + p.server, "r" + NatToString(p.rev.value) + "|" + SubmitterText(p) + "|" + p.submitTime.value);
  }

  lemma PrefixThenRest(h: string, x: string)
    ensures StartsWith(h + x, h) && (h + x)[|h|..] == x
  {
    assert (h + x)[..|h|] == h;
  }

  /** After the tag head, a non-empty single-line server name and a line
    * break, the match is decided by the revision line. */
  lemma MatchAfterHead(srv: string, t: string)
    requires srv != [] && '\n' !in srv
    ensures MatchRepInfo(ImportedFrom, TagHead + srv + "\n" + t) == MatchRevLine(t)
  {
    var x := srv + "\n" + t;
    assert TagHead + srv + "\n" + t == TagHead + x;
    PrefixThenRest(TagHead, x);
    IndexOfJoin(srv, t, '\n');
    assert x[|srv| + 1..] == t;
  }

  /** `r<digits>|<u>` with `u` holding an inner '|' yields the digits. */
  lemma MatchRevLineOf(d: string, u: string)
    requires d != [] && AllDigits(d) && '\n' !in u && PipeSplits(u)
    ensures MatchRevLine("r" + d + "|" + u) == Some(ParseDigits(d))
  {
    var t := "r" + d + "|" + u;
    assert t[1..] == d + ("|" + u);
    DigitRunOf(d, "|" + u);
    assert t[|d| + 1] == '|';
    assert t[|d| + 2..] == u;
    assert LineHead(u) == u;
  }

  lemma TagLine2Shape(p: Provenance)
    requires p.rev.Some? && p.submitTime.Some?
    ensures TagLine2(p) == "r" + NatToString(p.rev.value) + "|" + (SubmitterText(p) + "|" + RStrip(p.submitTime.value))
  {
  }

  /** The fields after the revision hold an inner '|' and no line break. */
  lemma TagTail(p: Provenance)
    requires ValidProvenance(p)
    ensures var u := SubmitterText(p) + "|" + RStrip(p.submitTime.value);
            '\n' !in u && PipeSplits(u)
  {
    var u := SubmitterText(p) + "|" + RStrip(p.submitTime.value);
    RStripNonEmpty(p.submitTime.value);
    NoBreakStrip(p.submitTime.value);
    assert u[|SubmitterText(p)|] == '|';
  }

  /** The second tag line decodes to the tag's revision. */
  lemma RevLineOfTag(p: Provenance)
    requires ValidProvenance(p)
    ensures MatchRevLine(TagLine2(p)) == Some(p.rev.value)
  {
    TagLine2Shape(p);
    TagTail(p);
    MatchRevLineOf(NatToString(p.rev.value), SubmitterText(p) + "|" + RStrip(p.submitTime.value));
    ParseNatToString(p.rev.value);
  }

  /** The two stripped tag lines, joined, decode to the tag's revision. */
  lemma MatchTagLines(p: Provenance)
    requires ValidProvenance(p)
    ensures MatchRepInfo(ImportedFrom, TagLine1(p) + "\n" + TagLine2(p)) == Some(p.rev.value)
  {
    RStripNonEmpty(p.server);
    NoBreakStrip(p.server);
    MatchAfterHead(RStrip(p.server), TagLine2(p));
    RevLineOfTag(p);
  }

  /** A single-line head found at the start of `a + "\n" + b` lies inside `a`. */
  lemma HeadInFirstLine(a: string, b: string, h: string)
    requires '\n' !in h
    ensures StartsWith(a + "\n" + b, h) ==> StartsWith(a, h) && (a + "\n" + b)[|h|..] == a[|h|..] + "\n" + b
  {
    var w := a + "\n" + b;
    assert w[|a|] == '\n';
    if StartsWith(w, h) {
      assert forall j :: 0 <= j < |h| ==> h[j] == w[j];
      assert a[..|h|] == w[..|h|];
      assert w[|h|..] == a[|h|..] + "\n" + b;
    }
  }

  /** A window whose second line does not start with 'r' is no tag. */
  lemma NoTagBeforeTagHead(a: string, b: string)
    requires '\n' !in a && b != [] && b[0] != 'r'
    ensures MatchRepInfo(ImportedFrom, a + "\n" + b) == None
  {
    HeadInFirstLine(a, b, TagHead);
    if StartsWith(a + "\n" + b, TagHead) {
      var a' := a[|TagHead|..];
      assert '\n' !in a' by {
        forall j | 0 <= j < |a'| ensures a'[j] != '\n' { assert a'[j] == a[|TagHead| + j]; }
      }
      IndexOfJoin(a', b, '\n');
      assert (a' + "\n" + b)[|a'| + 1..] == b;
    }
  }

  lemma PrefixedText(desc: string, info: string)
    requires '\r' !in info
    ensures FormatReplicateDesc(desc, info, true) == info + "\n" + ("\n" + SanitiseCommitMessage(LStrip(desc)))
  {
    SanitiseAppend(info + "\n\n", LStrip(desc));
    SanitiseAppend(info, "\n\n");
    ReplaceOneAbsent("\n\n", '\r', "");
  }

  lemma SuffixedText(desc: string, info: string)
    requires '\r' !in info
    ensures FormatReplicateDesc(desc, info, false) == SanitiseCommitMessage(RStrip(desc)) + "\n" + ("\n" + info)
  {
    SanitiseAppend(RStrip(desc) + "\n\n", info);
    SanitiseAppend(RStrip(desc), "\n\n");
    ReplaceOneAbsent("\n\n", '\r', "");
  }

  /** A tag followed by more text: the tag's two lines come first. */
  lemma TagThenText(p: Provenance, x: string)
    requires ValidProvenance(p)
    ensures DescLines(FormatReplicationInfo(DefaultPattern, p) + "\n" + x)
         == [TagLine1(p), TagLine2(p)] + NonBlank(Split(x, '\n'))
  {
    var info := FormatReplicationInfo(DefaultPattern, p);
    DescLinesUnstripped(info + "\n" + x);
    LinesAppend(info, x);
    TagLines(p);
  }

  /** Text followed by a blank line and a tag: the tag's two lines come last. */
  lemma TextThenTag(x: string, p: Provenance)
    requires ValidProvenance(p)
    ensures DescLines(x + "\n" + ("\n" + FormatReplicationInfo(DefaultPattern, p)))
         == NonBlank(Split(x, '\n')) + [TagLine1(p), TagLine2(p)]
  {
    var info := FormatReplicationInfo(DefaultPattern, p);
    DescLinesUnstripped(x + "\n" + ("\n" + info));
    LinesAppend(x, "\n" + info);
    LinesLeadingSpace('\n', info);
    TagLines(p);
  }

  /** The lines of a description are those of its right-stripped form. */
  lemma OwnLines(desc: string)
    ensures DescLines(SanitiseCommitMessage(desc)) == NonBlank(Split(SanitiseCommitMessage(RStrip(desc)), '\n'))
  {
    var t := TrailingStart(desc);
    forall k | t <= k < |desc| ensures IsSpace(desc[k]) { TrailingSpacesAreSpace(desc, k); }
    assert desc == RStrip(desc) + desc[t..];
    SanitiseAppend(RStrip(desc), desc[t..]);
    SanitiseAllSpace(desc[t..]);
    LinesTrailingAll(SanitiseCommitMessage(RStrip(desc)), SanitiseCommitMessage(desc[t..]));
    DescLinesUnstripped(SanitiseCommitMessage(desc));
  }

  /** Tag lines at the front decode to the tag's revision. */
  lemma FrontTagDecodes(desc: string, p: Provenance)
    requires ValidProvenance(p)
    requires |DescLines(desc)| >= 2 && DescLines(desc)[0] == TagLine1(p) && DescLines(desc)[1] == TagLine2(p)
    ensures GetRevisionFromDesc(desc, ImportedFrom) == p.rev.value
  {
    var lines := DescLines(desc);
    assert FrontWindow(lines, 2) == [TagLine1(p), TagLine2(p)];
    assert Join([TagLine1(p), TagLine2(p)], "\n") == TagLine1(p) + "\n" + TagLine2(p);
    MatchTagLines(p);
  }

  /** Tag lines at the back decode to the tag's revision when the front
    * does not already read as a tag. */
  lemma BackTagDecodes(desc: string, p: Provenance)
    requires ValidProvenance(p)
    requires var lines := DescLines(desc);
             && |lines| >= 2 && lines[|lines| - 2] == TagLine1(p) && lines[|lines| - 1] == TagLine2(p)
             && MatchRepInfo(ImportedFrom, Join(FrontWindow(lines, 2), "\n")) == None
    ensures GetRevisionFromDesc(desc, ImportedFrom) == p.rev.value
  {
    var lines := DescLines(desc);
    assert BackWindow(lines, 2) == [TagLine1(p), TagLine2(p)];
    assert Join([TagLine1(p), TagLine2(p)], "\n") == TagLine1(p) + "\n" + TagLine2(p);
    MatchTagLines(p);
  }

  /** The front window of `mine + tag` is no tag when `mine` has a line and
    * its own first two lines are no tag. */
  lemma FrontNotTag(mine: seq<string>, p: Provenance)
    requires ValidProvenance(p)
    requires |mine| >= 1 && '\n' !in mine[0]
    requires |mine| >= 2 ==> MatchRepInfo(ImportedFrom, mine[0] + "\n" + mine[1]).None?
    ensures MatchRepInfo(ImportedFrom, Join(FrontWindow(mine + [TagLine1(p), TagLine2(p)], 2), "\n")) == None
  {
    var lines := mine + [TagLine1(p), TagLine2(p)];
    if |mine| == 1 {
      assert FrontWindow(lines, 2) == [mine[0], TagLine1(p)];
      NoTagBeforeTagHead(mine[0], TagLine1(p));
    } else {
      assert FrontWindow(lines, 2) == [mine[0], mine[1]];
    }
  }

  /** Prefix placement: a tag written before a description is always read
    * back first, whatever the description says. */
  lemma DecodePrefixedTag(desc: string, p: Provenance)
    requires ValidProvenance(p)
    ensures GetRevisionFromDesc(FormatReplicateDesc(desc, FormatReplicationInfo(DefaultPattern, p), true), ImportedFrom)
         == p.rev.value
  {
    var info := FormatReplicationInfo(DefaultPattern, p);
    TagLines(p);
    PrefixedText(desc, info);
    TagThenText(p, "\n" + SanitiseCommitMessage(LStrip(desc)));
    FrontTagDecodes(FormatReplicateDesc(desc, info, true), p);
  }

  /** Suffix placement: a tag written after a description is read back
    * unless the description's own first two lines already form a tag. */
  lemma DecodeSuffixedTag(desc: string, p: Provenance)
    requires ValidProvenance(p)
    requires !TagAtFront(desc, ImportedFrom)
    ensures GetRevisionFromDesc(FormatReplicateDesc(desc, FormatReplicationInfo(DefaultPattern, p), false), ImportedFrom)
         == p.rev.value
  {
    var info := FormatReplicationInfo(DefaultPattern, p);
    var out := FormatReplicateDesc(desc, info, false);
    TagLines(p);
    SuffixedText(desc, info);
    TextThenTag(SanitiseCommitMessage(RStrip(desc)), p);
    OwnLines(desc);
    var mine := DescLines(SanitiseCommitMessage(desc));
    assert DescLines(out) == mine + [TagLine1(p), TagLine2(p)];
    if |mine| == 0 {
      assert DescLines(out) == [TagLine1(p), TagLine2(p)];
      FrontTagDecodes(out, p);
    } else {
      DescLinesNoBreak(SanitiseCommitMessage(desc), 0);
      FrontNotTag(mine, p);
      BackTagDecodes(out, p);
    }
  }

  /** A description with no line starting "Imported from " decodes to 0. */
  lemma DecodeUntagged(desc: string)
    requires forall i :: 0 <= i < |DescLines(desc)| ==> !StartsWith(DescLines(desc)[i], TagHead)
    ensures GetRevisionFromDesc(desc, ImportedFrom) == 0
  {
    var lines := DescLines(desc);
    var f := FrontWindow(lines, 2);
    var b := BackWindow(lines, 2);
    NoTagWindow(f);
    NoTagWindow(b);
  }

  lemma NoTagWindow(win: seq<string>)
    requires |win| <= 2
    requires forall i :: 0 <= i < |win| ==> !StartsWith(win[i], TagHead)
    ensures MatchRepInfo(ImportedFrom, Join(win, "\n")) == None
  {
    if |win| == 2 {
      assert Join(win, "\n") == win[0] + "\n" + win[1];
      HeadInFirstLine(win[0], win[1], TagHead);
    } else if |win| == 1 {
      assert Join(win, "\n") == win[0];
    }
  }

  /** `desc` is `body` with the default tag for `p` written before it. */
  predicate PrefixTagged(desc: string, p: Provenance, body: string)
  {
    desc == FormatReplicateDesc(body, FormatReplicationInfo(DefaultPattern, p), true)
  }

  /** A history of prefixed tags decodes to the source revisions it records. */
  lemma DecodeTaggedHistory(descs: seq<string>, tags: seq<Provenance>, bodies: seq<string>)
    requires |descs| == |tags| == |bodies|
    requires forall i :: 0 <= i < |tags| ==> ValidProvenance(tags[i])
    requires forall i :: 0 <= i < |descs| ==> PrefixTagged(descs[i], tags[i], bodies[i])
    ensures var r := GetReplicatedRev(descs, DefaultPattern);
            |r| == |descs| && forall i :: 0 <= i < |descs| ==> tags[i].rev == Some(r[i])
  {
    var r := GetReplicatedRev(descs, DefaultPattern);
    forall i | 0 <= i < |descs| ensures tags[i].rev == Some(r[i]) {
      assert PrefixTagged(descs[i], tags[i], bodies[i]);
      DecodePrefixedTag(bodies[i], tags[i]);
    }
  }

  // ---------------------------------------------------------------------
  // Configuration

  /** One entry of `option_properties`: option name, optional or not. */
  datatype OptionProperty = OptionProperty(name: string, optional: bool)

  /** A configuration section as ConfigParser holds it: option names are
    * stored lower-cased, and `has_option` lower-cases the name it is given. */
  type Section = map<string, string>

  /** `_read_property_option`: the value when the option is present, None when
    * it is absent and optional, an error when it is absent and required. */
  function ReadPropertyOption(section: string, sec: Section, prop: OptionProperty): (r: Result<Option<string>>)
    ensures r.Ok? && r.value.Some? <==> Lower(prop.name) in sec
    ensures r.Ok? && r.value.Some? ==> r.value.value == sec[Lower(prop.name)]
    ensures r.Err? <==> Lower(prop.name) !in sec && !prop.optional
    ensures r.Err? ==> r.exc.kind == ReplicationException
  {
    if Lower(prop.name) in sec then Ok(Some(sec[Lower(prop.name)]))
    else if prop.optional then Ok(None)
    else Raise(ReplicationException, "Required option " + prop.name + " not found in \"" + section + "\"")
  }

  /** The settings the option loop leaves behind, and the error that stopped
    * it, if any. */
  function ApplyOptions(section: string, sec: Section, props: seq<OptionProperty>, acc: map<string, Option<string>>)
    : (Option<Exc>, map<string, Option<string>>)
  {
    if props == [] then (None, acc)
    else
      match ReadPropertyOption(section, sec, props[0])
      case Err(e) => (Some(e), acc)
      case Ok(v) => ApplyOptions(section, sec, props[1..], acc[props[0].name := v])
  }

  /** The loop fails exactly when a required option is missing; otherwise
    * every property is set, to its value or to None. */
  lemma {:induction false} ApplyOptionsSpec(section: string, sec: Section, props: seq<OptionProperty>, acc: map<string, Option<string>>)
    ensures var (err, m) := ApplyOptions(section, sec, props, acc);
            && (err.None? <==> forall i :: 0 <= i < |props| ==> props[i].optional || Lower(props[i].name) in sec)
            && (err.None? ==> forall i :: 0 <= i < |props| ==>
                  props[i].name in m
                  && m[props[i].name] == (if Lower(props[i].name) in sec then Some(sec[Lower(props[i].name)]) else None))
  {
    if props != [] {
      var p := props[0];
      var r := ReadPropertyOption(section, sec, p);
      if r.Ok? {
        ApplyOptionsSpec(section, sec, props[1..], acc[p.name := r.value]);
        var (err, m) := ApplyOptions(section, sec, props, acc);
        if err.None? {
          ApplyOptionsKeeps(section, sec, props[1..], acc[p.name := r.value], p.name);
          forall i | 0 <= i < |props|
            ensures props[i].name in m
            ensures m[props[i].name] == (if Lower(props[i].name) in sec then Some(sec[Lower(props[i].name)]) else None)
          {
            if i > 0 { assert props[i] == props[1..][i - 1]; }
          }
        }
        forall i | 0 <= i < |props[1..]| ensures props[1..][i] == props[i + 1] { }
      }
    }
  }

  /** A name set earlier keeps a value of the same shape later: the value
    * depends only on the name. */
  lemma {:induction false} ApplyOptionsKeeps(section: string, sec: Section, props: seq<OptionProperty>, acc: map<string, Option<string>>, name: string)
    requires name in acc
    requires acc[name] == (if Lower(name) in sec then Some(sec[Lower(name)]) else None)
    ensures var (err, m) := ApplyOptions(section, sec, props, acc);
            err.None? ==> name in m && m[name] == acc[name]
  {
    if props != [] {
      var r := ReadPropertyOption(section, sec, props[0]);
      if r.Ok? {
        ApplyOptionsKeeps(section, sec, props[1..], acc[props[0].name := r.value], name);
      }
    }
  }

  /** The pattern dictionary. The module-level default is one object, and
    * every instance refers to that same object, so setting a pattern on
    * one instance changes it for all of them. */
  class PatternStore {
    var pattern: RepInfoPattern

    constructor()
      ensures pattern == DefaultPattern
    {
      pattern := DefaultPattern;
    }
  }

  /** `ReplicationSCM`: the section, the options read from it, the shared
    * pattern store and the prefix-or-suffix choice. */
  class ReplicationScm {
    const section: string
    const optionProperties: seq<OptionProperty>
    var settings: map<string, Option<string>>
    const store: PatternStore
    var prefixDescription: bool

    constructor Init(section: string, props: seq<OptionProperty>, settings: map<string, Option<string>>, store: PatternStore)
      ensures this.section == section && this.optionProperties == props
      ensures this.settings == settings && this.store == store && !prefixDescription
    {
      this.section := section;
      this.optionProperties := props;
      this.settings := settings;
      this.store := store;
      this.prefixDescription := false;
    }

    /** `__init__`: refuses an empty option list, reads the section (one
      * option at a time), and shares the default pattern store. */
    static method New(cfg: map<string, Section>, section: string, props: seq<OptionProperty>, store: PatternStore)
      returns (r: Result<ReplicationScm>)
      ensures |props| == 0 ==> r.Err?
      ensures |props| > 0 && section !in cfg ==> r.Err? && r.exc.kind == ReplicationException
      ensures |props| > 0 && section in cfg ==>
                (r.Ok? <==> ApplyOptions(section, cfg[section], props, map[]).0.None?)
      ensures r.Ok? ==> fresh(r.value) && r.value.store == store
                        && r.value.settings == ApplyOptions(section, cfg[section], props, map[]).1
    {
      if |props| == 0 {
        return Raise(ReplicationException, "option_properties not initialized");
      }
      if section !in cfg {
        return Raise(ReplicationException, "Config file has no section: " + section);
      }
      var sec := cfg[section];
      var acc: map<string, Option<string>> := map[];
      var i := 0;
      while i < |props|
        invariant 0 <= i <= |props|
        invariant ApplyOptions(section, sec, props[i..], acc) == ApplyOptions(section, sec, props, map[])
      {
        assert props[i..][1..] == props[i + 1..];
        var v := ReadPropertyOption(section, sec, props[i]);
        if v.Err? {
          return Err(v.exc);
        }
        acc := acc[props[i].name := v.value];
        i := i + 1;
      }
      var scm := new ReplicationScm.Init(section, props, acc, store);
      return Ok(scm);
    }

    /** `set_desc_rep_info_pattern`: writes into the shared store. */
    method SetDescRepInfoPattern(formatter: seq<Segment>, extracter: Extracter)
      modifies store
      ensures store.pattern == RepInfoPattern(formatter, extracter)
    {
      store.pattern := RepInfoPattern(formatter, extracter);
    }
  }
}
