/** Release-branch generation: the revisions of a source branch are copied
  * one at a time into a release branch, and a Perforce key remembers, for
  * every copy, the source revision it came from. When the release branch
  * is later fed from another source branch, the copies made since the two
  * sources' most recent common revision are reverted first. */
module P4ReleaseBranchGenerate {
  import opened Common
  import opened Strings
  import ScmP4Integrate
  import ScmP4Replay

  /** A revision and the branch it was submitted to. */
  datatype RevBranch = RevBranch(rev: nat, branch: string)

  /** The record a key holds for every revision copied. */
  datatype CopyRecord = CopyRecord(dst: nat, src: nat, srcDepot: string)

  function RevsOf(rbs: seq<RevBranch>): (r: seq<nat>)
    ensures |r| == |rbs| && forall i :: 0 <= i < |rbs| ==> r[i] == rbs[i].rev
  {
    if rbs == [] then [] else [rbs[0].rev] + RevsOf(rbs[1..])
  }

  // ---------------------------------------------------------------------
  // generate_RBG_key

  const KeyHead: string := "release_branch_generate-"

  /** The depot directory as it appears in a key: '/' becomes '_' and '.'
    * is dropped. */
  function KeyDir(dir: string): (r: string)
    ensures '/' !in r && '.' !in r
  {
    var slashes := Replace(dir, "/", "_");
    ReplaceOneRemoves(dir, '/', "_");
    ReplaceOneRemoves(slashes, '.', "");
    ReplaceOneKeepsOut(slashes, '.', '/', "");
    Replace(slashes, ".", "")
  }

  /** A character neither in `s` nor in the replacement stays out. */
  lemma {:induction false} ReplaceOneKeepsOut(s: string, x: char, z: char, rep: string)
    requires z !in s && z !in rep
    ensures z !in Replace(s, [x], rep)
  {
    if s != [] {
      assert z !in s[1..] by {
        forall i | 0 <= i < |s[1..]| ensures s[1..][i] != z { assert s[1..][i] == s[i + 1]; }
      }
      ReplaceOneKeepsOut(s[1..], x, z, rep);
    }
  }

  /** `generate_RBG_key`: the key of one copy (`rev` is '*' for the
    * pattern that lists them all). */
  function Key(targetDir: string, rev: string): string
  {
    KeyHead + KeyDir(targetDir) + "_" + rev
  }

  /** The pattern `get_release_branch_copy_records` lists, read as "this
    * text, then anything", covers the key of every copy recorded for the
    * same target directory. */
  lemma KeyUnderPattern(targetDir: string, rev: string)
    ensures var pat := Key(targetDir, "*");
            pat[|pat| - 1] == '*' && StartsWith(Key(targetDir, rev), pat[..|pat| - 1])
  {
    var p := KeyHead + KeyDir(targetDir) + "_";
    assert Key(targetDir, "*") == p + "*";
    assert Key(targetDir, rev)[..|p|] == p;
  }

  /** Dropping '.' makes different target directories share their keys:
    * every directory shares them with itself stripped of its dots, so
    * `a.b` and `ab` do. */
  lemma {:induction false} DottedDirsShareKeys(dir: string, rev: string)
    ensures KeyDir(Replace(dir, ".", "")) == KeyDir(dir)
    ensures Key(Replace(dir, ".", ""), rev) == Key(dir, rev)
    decreases |dir|
  {
    if dir != [] {
      var c, rest := dir[0], dir[1..];
      assert dir == [c] + rest;
      DottedDirsShareKeys(rest, rev);
      var dots := Replace([c], ".", "");
      var slash := Replace([c], "/", "_");
      assert [c][..1] == [c];
      assert dots == if c == '.' then [] else [c];
      assert slash == if c == '/' then "_" else [c];
      ReplaceOneAppend([c], rest, '/', "_");
      ReplaceOneAppend(slash, Replace(rest, "/", "_"), '.', "");
      ReplaceOneAppend([c], rest, '.', "");
      ReplaceOneAppend(dots, Replace(rest, ".", ""), '/', "_");
      ReplaceOneAppend(Replace(dots, "/", "_"), Replace(Replace(rest, ".", ""), "/", "_"), '.', "");
      assert Replace(Replace(dots, "/", "_"), ".", "") == Replace(slash, ".", "") by {
        if c != '.' && c != '/' {
          assert [c][..1] == [c];
        }
      }
      assert KeyDir(dir) == Replace(slash, ".", "") + KeyDir(rest);
      assert Replace(dir, ".", "") == dots + Replace(rest, ".", "");
      assert KeyDir(Replace(dir, ".", "")) == Replace(Replace(dots, "/", "_"), ".", "") + KeyDir(Replace(rest, ".", ""));
    }
  }

  // ---------------------------------------------------------------------
  // get_p4_srv_timezone_delta

  /** Length of the leading run of non-blank characters. */
  function FieldLen(s: string): (n: nat)
    ensures n <= |s| && (n < |s| ==> IsSpace(s[n]))
    ensures forall k :: 0 <= k < n ==> !IsSpace(s[k])
  {
    if s == [] || IsSpace(s[0]) then 0 else 1 + FieldLen(s[1..])
  }

  /** `str.split()` with no argument. */
  function Fields(s: string): (r: seq<string>)
    ensures forall i :: 0 <= i < |r| ==> r[i] != []
    decreases |s|
  {
    if s == [] then []
    else if IsSpace(s[0]) then Fields(s[1..])
    else [s[..FieldLen(s)]] + Fields(s[FieldLen(s)..])
  }

  lemma {:induction false} FieldLenAppend(x: string, s: string)
    requires s == [] || IsSpace(s[0])
    ensures FieldLen(x + s) == FieldLen(x)
  {
    if x != [] {
      assert (x + s)[1..] == x[1..] + s;
      FieldLenAppend(x[1..], s);
    } else {
      assert x + s == s;
    }
  }

  /** Splitting at a blank splits the fields. */
  lemma {:induction false} FieldsAppendSpace(x: string, c: char, y: string)
    requires IsSpace(c)
    ensures Fields(x + [c] + y) == Fields(x) + Fields(y)
    decreases |x|
  {
    var s := x + [c] + y;
    if x == [] {
      assert s == [c] + y;
      assert s[1..] == y;
    } else if IsSpace(x[0]) {
      assert s[1..] == x[1..] + [c] + y;
      FieldsAppendSpace(x[1..], c, y);
    } else {
      var k := FieldLen(x);
      FieldLenAppend(x, [c] + y);
      assert s == x + ([c] + y);
      assert s[..k] == x[..k];
      assert s[k..] == x[k..] + [c] + y;
      FieldsAppendSpace(x[k..], c, y);
    }
  }

  lemma FieldsOfWord(t: string)
    requires t != [] && forall i :: 0 <= i < |t| ==> !IsSpace(t[i])
    ensures Fields(t) == [t]
  {
    assert FieldLen(t) == |t|;
    assert t[..|t|] == t;
  }

  /** A token `[+-]` and four digits. */
  predicate OffsetToken(t: string)
  {
    |t| == 5 && (t[0] == '+' || t[0] == '-') && AllDigits(t[1..])
  }

  /** The server's offset from UTC in minutes, read from the second-last
    * field of its date; the sign applies to hours and minutes alike. */
  function ParseOffset(serverDate: string): (r: Result<int>)
    ensures r.Ok? <==> |Fields(serverDate)| >= 2 && OffsetToken(Fields(serverDate)[|Fields(serverDate)| - 2])
    ensures r.Ok? ==> -(99 * 60 + 99) <= r.value <= 99 * 60 + 99
    ensures r.Err? && |Fields(serverDate)| >= 2 ==> r.exc.kind == P4RBGError
  {
    var fs := Fields(serverDate);
    if |fs| < 2 then Raise(IndexError, "list index out of range")
    else
      var t := fs[|fs| - 2];
      if !OffsetToken(t) then Raise(P4RBGError, "incorrect srv_utc_offset(" + t + ")")
      else
        assert AllDigits(t[1..3]) && AllDigits(t[3..]) by {
          assert forall i :: 0 <= i < 2 ==> t[1..3][i] == t[1..][i] && t[3..][i] == t[1..][i + 2];
        }
        TwoDigitsBound(t[1..3]);
        TwoDigitsBound(t[3..]);
        var minutes := ParseDigits(t[1..3]) * 60 + ParseDigits(t[3..]);
        Ok(if t[0] == '+' then minutes else -minutes)
  }

  lemma TwoDigitsBound(s: string)
    requires |s| == 2 && AllDigits(s)
    ensures ParseDigits(s) <= 99
  {
    assert s[..1][..0] == [];
    assert IsDigit(s[0]) && IsDigit(s[1]);
    assert ParseDigits(s[..1]) == (s[0] as int) - ('0' as int);
  }

  /** Two decimal digits. */
  function TwoDigits(n: nat): (r: string)
    requires n < 100
    ensures |r| == 2 && AllDigits(r)
  {
    [DigitChar(n / 10), DigitChar(n % 10)]
  }

  lemma ParseTwoDigits(n: nat)
    requires n < 100
    ensures ParseDigits(TwoDigits(n)) == n
  {
    var s := TwoDigits(n);
    assert s[..1] == [DigitChar(n / 10)];
    assert s[..1][..0] == [];
  }

  /** The offset as a server date shows it. */
  function OffsetText(east: bool, hours: nat, minutes: nat): string
    requires hours < 100 && minutes < 100
  {
    [if east then '+' else '-'] + TwoDigits(hours) + TwoDigits(minutes)
  }

  lemma OffsetTextShape(east: bool, hours: nat, minutes: nat)
    requires hours < 100 && minutes < 100
    ensures var t := OffsetText(east, hours, minutes);
            OffsetToken(t) && (forall i :: 0 <= i < |t| ==> !IsSpace(t[i])) &&
            t[1..3] == TwoDigits(hours) && t[3..] == TwoDigits(minutes)
  {
    var t := OffsetText(east, hours, minutes);
    forall i | 0 <= i < |t|
      ensures !IsSpace(t[i])
    {
      if i > 0 {
        assert IsDigit(t[i]);
      }
    }
    assert t[1..] == TwoDigits(hours) + TwoDigits(minutes);
  }

  /** The offset token is the second-last field of a date written as
    * date, token, zone. */
  lemma OffsetField(date: string, t: string, zone: string)
    requires t != [] && forall i :: 0 <= i < |t| ==> !IsSpace(t[i])
    requires zone != [] && forall i :: 0 <= i < |zone| ==> !IsSpace(zone[i])
    ensures var fs := Fields(date + " " + t + " " + zone);
            |fs| >= 2 && fs[|fs| - 2] == t
  {
    FieldsOfWord(t);
    FieldsOfWord(zone);
    FieldsAppendSpace(t, ' ', zone);
    assert t + " " + zone == t + [' '] + zone;
    FieldsAppendSpace(date, ' ', t + " " + zone);
    assert date + " " + t + " " + zone == date + [' '] + (t + " " + zone);
  }

  /** Parsing gives back the offset a server date was written with. */
  lemma ParseOffsetRoundTrip(date: string, east: bool, hours: nat, minutes: nat, zone: string)
    requires hours < 100 && minutes < 100
    requires zone != [] && forall i :: 0 <= i < |zone| ==> !IsSpace(zone[i])
    ensures ParseOffset(date + " " + OffsetText(east, hours, minutes) + " " + zone)
         == Ok(if east then hours * 60 + minutes else -(hours * 60 + minutes))
  {
    var t := OffsetText(east, hours, minutes);
    OffsetTextShape(east, hours, minutes);
    OffsetField(date, t, zone);
    ParseTwoDigits(hours);
    ParseTwoDigits(minutes);
  }

  /** The module-level cache of the server's offset. */
  class OffsetCache {
    var cached: Option<int>

    constructor()
      ensures cached == None
    {
      cached := None;
    }

    /** `get_p4_srv_timezone_delta`: the server is asked once; a parsed
      * offset is kept and returned from then on. */
    method Delta(serverDate: string) returns (r: Result<int>)
      modifies this
      ensures old(cached).Some? ==> r == Ok(old(cached).value) && cached == old(cached)
      ensures old(cached).None? ==> r == ParseOffset(serverDate) &&
                                    cached == (if r.Ok? then Some(r.value) else None)
    {
      if cached.Some? {
        return Ok(cached.value);
      }
      r := ParseOffset(serverDate);
      if r.Ok? {
        cached := Some(r.value);
      }
    }
  }

  // ---------------------------------------------------------------------
  // find_most_recent_common_ancestor

  /** The revisions of `a` that also occur in `b`. */
  function Shared(a: seq<nat>, b: seq<nat>): (r: seq<nat>)
    ensures forall x :: x in r <==> x in a && x in b
  {
    if a == [] then [] else (if a[0] in b then [a[0]] else []) + Shared(a[1..], b)
  }

  function MaxOf(s: seq<nat>): (m: nat)
    requires s != []
    ensures m in s && forall x :: x in s ==> x <= m
  {
    if |s| == 1 then s[0]
    else
      var rest := MaxOf(s[1..]);
      assert forall x :: x in s ==> x == s[0] || x in s[1..];
      if s[0] >= rest then s[0] else rest
  }

  /** `find_most_recent_common_ancestor`: nothing without a previous
    * history, 0 when the histories share no revision, otherwise the
    * newest revision they share. */
  function CommonAncestor(prev: seq<RevBranch>, curr: seq<RevBranch>): (r: Option<nat>)
    ensures r.None? <==> prev == []
    ensures r.Some? ==> forall x :: x in RevsOf(prev) && x in RevsOf(curr) ==> x <= r.value
    ensures r.Some? && r.value != 0 ==> r.value in RevsOf(prev) && r.value in RevsOf(curr)
    ensures r.Some? && (forall x :: x in RevsOf(prev) ==> x !in RevsOf(curr)) ==> r.value == 0
  {
    if prev == [] then None
    else
      var common := Shared(RevsOf(prev), RevsOf(curr));
      if common == [] then Some(0) else Some(MaxOf(common))
  }

  // ---------------------------------------------------------------------
  // map_src_rev_to_target_rev

  /** The target revision of the first record copied from `rev`. */
  function FirstCopy(records: seq<CopyRecord>, rev: nat): (r: Option<nat>)
    ensures r.None? <==> forall i :: 0 <= i < |records| ==> records[i].src != rev
    ensures r.Some? ==> exists i :: 0 <= i < |records| && records[i].src == rev && records[i].dst == r.value &&
                                    forall j :: 0 <= j < i ==> records[j].src != rev
  {
    if records == [] then None
    else if records[0].src == rev then Some(records[0].dst)
    else
      var rest := FirstCopy(records[1..], rev);
      if rest.Some? then
        var i :| 0 <= i < |records[1..]| && records[1..][i].src == rev && records[1..][i].dst == rest.value &&
                 forall j :: 0 <= j < i ==> records[1..][j].src != rev;
        assert forall j :: 0 <= j < i + 1 ==> records[j].src != rev by {
          forall j | 0 <= j < i + 1 ensures records[j].src != rev {
            if j > 0 { assert records[j] == records[1..][j - 1]; }
          }
        }
        rest
      else
        assert forall i :: 1 <= i < |records| ==> records[i] == records[1..][i - 1];
        rest
  }

  /** `map_src_rev_to_target_rev`: for every source revision, in order,
    * the copy of the first record made from it, placed on the target;
    * revisions never copied are skipped. The records are scanned in the
    * order they are given, as the `reverse` meant to turn them around is
    * never called. */
  function MapRevs(src: seq<RevBranch>, records: seq<CopyRecord>, target: string): (r: seq<RevBranch>)
    ensures |r| <= |src|
    ensures forall x :: x in r ==> x.branch == target
  {
    if src == [] then []
    else
      var c := FirstCopy(records, src[0].rev);
      (if c.Some? then [RevBranch(c.value, target)] else []) + MapRevs(src[1..], records, target)
  }

  /** When every source revision was copied, each maps, position by
    * position, to its first copy. */
  lemma {:induction false} MapRevsAllCopied(src: seq<RevBranch>, records: seq<CopyRecord>, target: string)
    requires forall i :: 0 <= i < |src| ==> FirstCopy(records, src[i].rev).Some?
    ensures var r := MapRevs(src, records, target);
            |r| == |src| && forall i :: 0 <= i < |src| ==> r[i] == RevBranch(FirstCopy(records, src[i].rev).value, target)
  {
    if src != [] {
      assert forall i :: 1 <= i < |src| ==> src[i] == src[1..][i - 1];
      MapRevsAllCopied(src[1..], records, target);
    }
  }

  /** A source revision never copied contributes nothing. */
  lemma {:induction false} MapRevsNoneCopied(src: seq<RevBranch>, records: seq<CopyRecord>, target: string)
    requires forall i, j :: 0 <= i < |src| && 0 <= j < |records| ==> records[j].src != src[i].rev
    ensures MapRevs(src, records, target) == []
  {
    if src != [] {
      assert forall i :: 1 <= i < |src| ==> src[i] == src[1..][i - 1];
      MapRevsNoneCopied(src[1..], records, target);
    }
  }

  /** With two copies of one revision on record, the first listed is
    * used. */
  lemma OldestCopyWins()
    ensures MapRevs([RevBranch(5, "//src/...")], [CopyRecord(10, 5, "//src/..."), CopyRecord(20, 5, "//src/...")], "//rel/...")
         == [RevBranch(10, "//rel/...")]
  {
  }

  // ---------------------------------------------------------------------
  // find_parent_branches

  /** An integration as a file log reports it. */
  datatype Integ = Integ(how: string, file: string)

  /** What the server answers about a depot's history. */
  datatype Depot = Depot(
    changes: string -> seq<nat>,          // `p4 changes <dir>`, newest first
    related: string -> seq<nat>,          // `p4 changes -i <dir>`, newest first
    described: nat -> seq<(string, nat)>, // the files and revisions `p4 describe` gives for a change
    integs: ((string, nat)) -> seq<Integ>)  // the integrations of that file revision, as `p4 filelog -m1` lists them

  /** The source of the last branch-like integration in the list. */
  function LastBranchedFrom(integs: seq<Integ>): (r: Option<string>)
    ensures r.Some? ==> exists i :: 0 <= i < |integs| && integs[i].file == r.value &&
                                    (integs[i].how == "copy from" || integs[i].how == "branch from")
    ensures r.None? ==> forall i :: 0 <= i < |integs| ==> integs[i].how != "copy from" && integs[i].how != "branch from"
  {
    if integs == [] then None
    else
      var last := integs[|integs| - 1];
      if last.how == "copy from" || last.how == "branch from" then Some(last.file)
      else
        var r := LastBranchedFrom(integs[..|integs| - 1]);
        assert forall i :: 0 <= i < |integs| - 1 ==> integs[i] == integs[..|integs| - 1][i];
        r
  }

  /** The first file of the change that was branched or copied, and from
    * where (a source given as '' does not count, as it is false in
    * Python). */
  function FirstBranched(files: seq<(string, nat)>, depot: Depot): (r: Option<(string, string)>)
    ensures r.Some? ==> exists i :: 0 <= i < |files| && files[i].0 == r.value.0 &&
                                    LastBranchedFrom(depot.integs(files[i])) == Some(r.value.1)
  {
    if files == [] then None
    else
      var from := LastBranchedFrom(depot.integs(files[0]));
      if from.Some? && from.value != [] then Some((files[0].0, from.value))
      else
        var r := FirstBranched(files[1..], depot);
        if r.Some? then
          var i :| 0 <= i < |files[1..]| && files[1..][i].0 == r.value.0 &&
                   LastBranchedFrom(depot.integs(files[1..][i])) == Some(r.value.1);
          assert files[i + 1] == files[1..][i];
          r
        else r
  }

  /** Python's `s[k:]` and `s[:-k]` for `k >= 0`. */
  function From(s: string, k: nat): string { if k <= |s| then s[k..] else [] }
  function ButLast(s: string, k: nat): string { if k == 0 || k >= |s| then [] else s[..|s| - k] }

  /** One step of `find_parent_branches`: the branch the first change of
    * `dir` was branched from, as a `...` path. */
  function ParentOf(dir: string, depot: Depot): (r: Option<string>)
    ensures r.Some? ==> EndsWith(r.value, "...")
  {
    var revs := depot.changes(dir);
    if revs == [] then None
    else
      var found := FirstBranched(depot.described(revs[|revs| - 1]), depot);
      if found.None? then None
      else
        var (path, from) := found.value;
        var sub := From(path, if |dir| >= 3 then |dir| - 3 else 0);
        var p := ButLast(from, |sub|) + "...";
        assert p[|p| - 3..] == "...";
        Some(p)
  }

  /** When the branched file lies below `dir` and was branched from a file
    * with the same relative path, the parent directory and that relative
    * path give back the file it was branched from. */
  lemma ParentOfRelative(dir: string, depot: Depot)
    requires ParentOf(dir, depot).Some?
    requires var revs := depot.changes(dir);
             var found := FirstBranched(depot.described(revs[|revs| - 1]), depot).value;
             |dir| >= 3 && StartsWith(found.0, dir[..|dir| - 3]) && |found.0| > |dir| - 3 &&
             EndsWith(found.1, found.0[|dir| - 3..]) && |found.1| > |found.0| - (|dir| - 3)
    ensures var revs := depot.changes(dir);
            var found := FirstBranched(depot.described(revs[|revs| - 1]), depot).value;
            var p := ParentOf(dir, depot).value;
            p[..|p| - 3] + found.0[|dir| - 3..] == found.1
  {
    var revs := depot.changes(dir);
    var found := FirstBranched(depot.described(revs[|revs| - 1]), depot).value;
    RelativeJoin(found.0, found.1, |dir| - 3);
  }

  lemma RelativeJoin(path: string, from: string, k: nat)
    requires k < |path| && EndsWith(from, path[k..]) && |from| > |path| - k
    ensures ButLast(from, |From(path, k)|) + path[k..] == from
  {
    assert From(path, k) == path[k..];
    assert from == from[..|from| - |path[k..]|] + from[|from| - |path[k..]|..];
  }

  /** `find_parent_branches`, following at most `fuel` parents. */
  function ParentBranches(dir: string, depot: Depot, fuel: nat): (r: seq<string>)
    ensures |r| <= fuel
    ensures forall i :: 0 <= i < |r| ==> EndsWith(r[i], "...")
    decreases fuel
  {
    if fuel == 0 then []
    else
      var p := ParentOf(dir, depot);
      if p.None? then [] else [p.value] + ParentBranches(p.value, depot, fuel - 1)
  }

  /** Each branch in the chain is the parent of the one before it. */
  lemma {:induction false} ParentBranchesChain(dir: string, depot: Depot, fuel: nat, i: nat)
    requires i < |ParentBranches(dir, depot, fuel)|
    ensures var r := ParentBranches(dir, depot, fuel);
            ParentOf(if i == 0 then dir else r[i - 1], depot) == Some(r[i])
    decreases fuel
  {
    var p := ParentOf(dir, depot);
    var r := ParentBranches(dir, depot, fuel);
    assert p.Some? && r == [p.value] + ParentBranches(p.value, depot, fuel - 1);
    if i == 0 {
      assert r[0] == p.value;
    } else {
      var tail := ParentBranches(p.value, depot, fuel - 1);
      ParentBranchesChain(p.value, depot, fuel - 1, i - 1);
      assert r[i] == tail[i - 1];
      assert r[i - 1] == if i == 1 then p.value else tail[i - 2];
    }
  }

  // ---------------------------------------------------------------------
  // get_branch_rev_hist

  /** The inner loop: the revisions of branch `b`, newest first, that are
    * related to the directory and not taken yet, appended to `acc`. */
  function TakeRevs(revs: seq<nat>, b: string, related: seq<nat>, acc: seq<RevBranch>): seq<RevBranch>
    decreases |revs|
  {
    if revs == [] then acc
    else
      var next := if revs[0] in related && revs[0] !in RevsOf(acc) then acc + [RevBranch(revs[0], b)] else acc;
      TakeRevs(revs[1..], b, related, next)
  }

  /** The outer loop, from the leaf branch to the root. */
  function TakeBranches(branches: seq<string>, depot: Depot, related: seq<nat>, acc: seq<RevBranch>): seq<RevBranch>
    decreases |branches|
  {
    if branches == [] then acc
    else TakeBranches(branches[1..], depot, related, TakeRevs(depot.changes(branches[0]), branches[0], related, acc))
  }

  /** `get_branch_rev_hist`: the related revisions of the branches, then
    * the root branch's revisions older than the last one taken, all put
    * oldest first. */
  function BranchRevHist(dir: string, branches: seq<string>, depot: Depot): Result<seq<RevBranch>>
  {
    var taken := TakeBranches(branches, depot, depot.related(dir), []);
    var trunk := if branches == [] then [] else depot.changes(branches[|branches| - 1]);
    if taken == [] then Ok([])
    else
      var last := taken[|taken| - 1];
      var idx := IndexOf(trunk, last.rev);
      if idx.None? then Raise(ValueError, "'" + NatToString(last.rev) + "' is not in list")
      else Ok(Reverse(taken + Tagged(trunk[idx.value + 1..], last.branch)))
  }

  /** Each revision paired with the same branch. */
  function Tagged(revs: seq<nat>, b: string): (r: seq<RevBranch>)
    ensures |r| == |revs| && forall i :: 0 <= i < |revs| ==> r[i] == RevBranch(revs[i], b)
  {
    if revs == [] then [] else [RevBranch(revs[0], b)] + Tagged(revs[1..], b)
  }

  /** What the loops take: related revisions, each once, each with a
    * branch it was submitted to. */
  ghost predicate Taken(acc: seq<RevBranch>, branches: seq<string>, depot: Depot, related: seq<nat>)
  {
    NoDups(RevsOf(acc)) &&
    forall x :: x in acc ==> x.rev in related && x.branch in branches && x.rev in depot.changes(x.branch)
  }

  lemma RevsOfSnoc(acc: seq<RevBranch>, x: RevBranch)
    ensures RevsOf(acc + [x]) == RevsOf(acc) + [x.rev]
  {
    assert forall i :: 0 <= i < |acc| ==> (acc + [x])[i] == acc[i];
  }

  lemma {:induction false} TakeRevsKeeps(revs: seq<nat>, b: string, branches: seq<string>, depot: Depot,
                                         related: seq<nat>, acc: seq<RevBranch>)
    requires Taken(acc, branches, depot, related) && b in branches
    requires forall r :: r in revs ==> r in depot.changes(b)
    ensures Taken(TakeRevs(revs, b, related, acc), branches, depot, related)
    decreases |revs|
  {
    if revs != [] {
      assert forall r :: r in revs[1..] ==> r in revs;
      if revs[0] in related && revs[0] !in RevsOf(acc) {
        var x := RevBranch(revs[0], b);
        RevsOfSnoc(acc, x);
        assert forall y :: y in acc + [x] ==> y in acc || y == x;
        TakeRevsKeeps(revs[1..], b, branches, depot, related, acc + [x]);
      } else {
        TakeRevsKeeps(revs[1..], b, branches, depot, related, acc);
      }
    }
  }

  lemma {:induction false} TakeBranchesKeeps(rest: seq<string>, branches: seq<string>, depot: Depot,
                                             related: seq<nat>, acc: seq<RevBranch>)
    requires Taken(acc, branches, depot, related) && forall b :: b in rest ==> b in branches
    ensures Taken(TakeBranches(rest, depot, related, acc), branches, depot, related)
    decreases |rest|
  {
    if rest != [] {
      TakeRevsKeeps(depot.changes(rest[0]), rest[0], branches, depot, related, acc);
      assert forall b :: b in rest[1..] ==> b in rest;
      TakeBranchesKeeps(rest[1..], branches, depot, related, TakeRevs(depot.changes(rest[0]), rest[0], related, acc));
    }
  }

  /** Before the root branch's older revisions are added, the history
    * holds only revisions related to the directory, each once, each with a
    * branch it was submitted to. */
  lemma TakenRelated(dir: string, branches: seq<string>, depot: Depot)
    ensures Taken(TakeBranches(branches, depot, depot.related(dir), []), branches, depot, depot.related(dir))
  {
    TakeBranchesKeeps(branches, branches, depot, depot.related(dir), []);
  }

  /** The inner loop only ever adds entries of its own branch. */
  lemma {:induction false} TakeRevsGrows(revs: seq<nat>, b: string, related: seq<nat>, acc: seq<RevBranch>)
    ensures var r := TakeRevs(revs, b, related, acc);
            |acc| <= |r| && r[..|acc|] == acc && forall i :: |acc| <= i < |r| ==> r[i].branch == b && r[i].rev in revs
    decreases |revs|
  {
    if revs != [] {
      var next := if revs[0] in related && revs[0] !in RevsOf(acc) then acc + [RevBranch(revs[0], b)] else acc;
      TakeRevsGrows(revs[1..], b, related, next);
      var r := TakeRevs(revs, b, related, acc);
      assert r[..|next|] == next;
      assert r[..|acc|] == next[..|acc|];
      forall i | |acc| <= i < |r|
        ensures r[i].branch == b && r[i].rev in revs
      {
        if i >= |next| {
          assert r[i].rev in revs[1..];
        }
      }
    }
  }

  /** When the root branch itself contributes a revision, the last one
    * taken is found in it and no error is raised. */
  lemma RootContributes(dir: string, branches: seq<string>, depot: Depot)
    requires branches != []
    requires var init := TakeBranches(branches[..|branches| - 1], depot, depot.related(dir), []);
             |TakeRevs(depot.changes(branches[|branches| - 1]), branches[|branches| - 1], depot.related(dir), init)| > |init|
    ensures BranchRevHist(dir, branches, depot).Ok?
  {
    var init := TakeBranches(branches[..|branches| - 1], depot, depot.related(dir), []);
    var root := branches[|branches| - 1];
    TakeBranchesSnoc(branches[..|branches| - 1], root, depot, depot.related(dir), []);
    assert branches[..|branches| - 1] + [root] == branches;
    TakeRevsGrows(depot.changes(root), root, depot.related(dir), init);
  }

  lemma {:induction false} TakeBranchesSnoc(bs: seq<string>, b: string, depot: Depot, related: seq<nat>, acc: seq<RevBranch>)
    ensures TakeBranches(bs + [b], depot, related, acc) ==
            TakeRevs(depot.changes(b), b, related, TakeBranches(bs, depot, related, acc))
    decreases |bs|
  {
    if bs == [] {
      assert bs + [b] == [b];
    } else {
      assert (bs + [b])[1..] == bs[1..] + [b];
      TakeBranchesSnoc(bs[1..], b, depot, related, TakeRevs(depot.changes(bs[0]), bs[0], related, acc));
    }
  }

  /** `get_branch_rev_hist` with its two nested loops. */
  method GetBranchRevHist(dir: string, branches: seq<string>, depot: Depot) returns (r: Result<seq<RevBranch>>)
    ensures r == BranchRevHist(dir, branches, depot)
  {
    var related := depot.related(dir);
    var taken: seq<RevBranch> := [];
    var trunk: seq<nat> := [];
    var k := 0;
    while k < |branches|
      invariant 0 <= k <= |branches|
      invariant TakeBranches(branches, depot, related, []) == TakeBranches(branches[k..], depot, related, taken)
      invariant trunk == if k == 0 then [] else depot.changes(branches[k - 1])
    {
      var b := branches[k];
      var revs := depot.changes(b);
      assert branches[k..][1..] == branches[k + 1..];
      var j := 0;
      var acc := taken;
      while j < |revs|
        invariant 0 <= j <= |revs|
        invariant TakeRevs(revs, b, related, taken) == TakeRevs(revs[j..], b, related, acc)
      {
        assert revs[j..][1..] == revs[j + 1..];
        if revs[j] in related && revs[j] !in RevsOf(acc) {
          acc := acc + [RevBranch(revs[j], b)];
        }
        j := j + 1;
      }
      taken, trunk := acc, revs;
      k := k + 1;
    }
    if taken == [] {
      return Ok([]);
    }
    var last := taken[|taken| - 1];
    var idx := IndexOf(trunk, last.rev);
    if idx.None? {
      return Raise(ValueError, "'" + NatToString(last.rev) + "' is not in list");
    }
    return Ok(Reverse(taken + Tagged(trunk[idx.value + 1..], last.branch)));
  }

  // ---------------------------------------------------------------------
  // get_revisions_to_copy

  /** The revisions at or above `a`. */
  function AtLeast(rbs: seq<RevBranch>, a: nat): (r: seq<RevBranch>)
    ensures forall x :: x in r <==> x in rbs && x.rev >= a
  {
    if rbs == [] then [] else (if rbs[0].rev >= a then [rbs[0]] else []) + AtLeast(rbs[1..], a)
  }

  /** The revisions above `a`. */
  function Above(rbs: seq<RevBranch>, a: nat): (r: seq<RevBranch>)
    ensures forall x :: x in r <==> x in rbs && x.rev > a
  {
    if rbs == [] then [] else (if rbs[0].rev > a then [rbs[0]] else []) + Above(rbs[1..], a)
  }

  /** The filter keeps the order of the list: it splits over a
    * concatenation. */
  lemma {:induction false} AtLeastAppend(s: seq<RevBranch>, t: seq<RevBranch>, a: nat)
    ensures AtLeast(s + t, a) == AtLeast(s, a) + AtLeast(t, a)
  {
    if s == [] {
      assert s + t == t;
    } else {
      assert (s + t)[0] == s[0] && (s + t)[1..] == s[1..] + t;
      AtLeastAppend(s[1..], t, a);
    }
  }

  lemma {:induction false} AboveAppend(s: seq<RevBranch>, t: seq<RevBranch>, a: nat)
    ensures Above(s + t, a) == Above(s, a) + Above(t, a)
  {
    if s == [] {
      assert s + t == t;
    } else {
      assert (s + t)[0] == s[0] && (s + t)[1..] == s[1..] + t;
      AboveAppend(s[1..], t, a);
    }
  }

  /** The source revisions recorded as copied from `dir`. */
  function CopiedFrom(records: seq<CopyRecord>, dir: string): (r: seq<RevBranch>)
    ensures forall x :: x in r ==> x.branch == dir
  {
    if records == [] then []
    else (if records[0].srcDepot == dir then [RevBranch(records[0].src, dir)] else []) + CopiedFrom(records[1..], dir)
  }

  /** Python's `s[:-1]`. */
  function DropLast(s: seq<RevBranch>): seq<RevBranch> { if s == [] then [] else s[..|s| - 1] }

  /** The last position holding revision `a`. */
  function LastIndex(s: seq<RevBranch>, a: nat): (r: Option<nat>)
    ensures r.None? <==> forall i :: 0 <= i < |s| ==> s[i].rev != a
    ensures r.Some? ==> r.value < |s| && s[r.value].rev == a && forall j :: r.value < j < |s| ==> s[j].rev != a
  {
    if s == [] then None
    else if s[|s| - 1].rev == a then Some(|s| - 1)
    else
      var r := LastIndex(s[..|s| - 1], a);
      assert forall i :: 0 <= i < |s| - 1 ==> s[i] == s[..|s| - 1][i];
      r
  }

  /** Same source as before: everything when there is no ancestor, what
    * follows the ancestor's last occurrence when it is listed, and nothing
    * when it is not. */
  function SameDirCopies(curr: seq<RevBranch>, anc: Option<nat>): (r: seq<RevBranch>)
  {
    if anc.None? then curr
    else
      var i := LastIndex(curr, anc.value);
      if i.None? then [] else curr[i.value + 1..]
  }

  /** Looking one entry further: that entry wins when it is the ancestor. */
  lemma LastIndexStep(s: seq<RevBranch>, idx: nat, a: nat)
    requires idx < |s|
    ensures LastIndex(s[..idx + 1], a) == if s[idx].rev == a then Some(idx) else LastIndex(s[..idx], a)
  {
    assert s[..idx + 1][..idx] == s[..idx];
  }

  /** What follows the last occurrence found so far, nothing before one. */
  function After(curr: seq<RevBranch>, i: Option<nat>): seq<RevBranch>
    requires i.Some? ==> i.value < |curr|
  {
    if i.None? then [] else curr[i.value + 1..]
  }

  /** The loop of `get_revisions_to_copy` that looks for the ancestor. */
  method CopiesAfter(curr: seq<RevBranch>, anc: nat) returns (copies: seq<RevBranch>)
    ensures copies == SameDirCopies(curr, Some(anc))
  {
    copies := [];
    var idx := 0;
    while idx < |curr|
      invariant 0 <= idx <= |curr|
      invariant copies == After(curr, LastIndex(curr[..idx], anc))
    {
      LastIndexStep(curr, idx, anc);
      if curr[idx].rev == anc {
        copies := curr[idx + 1..];
      }
      idx := idx + 1;
    }
    assert curr[..|curr|] == curr;
  }

  /** Revisions listed oldest first, each once. */
  predicate Ascending(rbs: seq<RevBranch>)
  {
    forall i, j :: 0 <= i < j < |rbs| ==> rbs[i].rev < rbs[j].rev
  }

  /** On an ascending list holding the ancestor, the same-source rule and
    * the switched-source rule agree: what is copied is every revision
    * above the ancestor. */
  lemma {:induction false} SameDirResumesAbove(curr: seq<RevBranch>, k: nat, anc: nat)
    requires Ascending(curr) && k < |curr| && curr[k].rev == anc
    ensures SameDirCopies(curr, Some(anc)) == Above(curr, anc)
  {
    var i := LastIndex(curr, anc);
    assert i.Some?;
    AboveSplit(curr, i.value, anc);
  }

  lemma {:induction false} AboveSplit(curr: seq<RevBranch>, i: nat, anc: nat)
    requires Ascending(curr) && i < |curr| && curr[i].rev == anc
    ensures Above(curr, anc) == curr[i + 1..]
    decreases |curr|
  {
    if i == 0 {
      assert curr[0].rev == anc;
      AboveAll(curr[1..], anc);
    } else {
      AboveSplit(curr[1..], i - 1, anc);
      assert curr[1..][i..] == curr[i + 1..];
    }
  }

  lemma {:induction false} AboveAll(rbs: seq<RevBranch>, a: nat)
    requires forall i :: 0 <= i < |rbs| ==> rbs[i].rev > a
    ensures Above(rbs, a) == rbs
  {
    if rbs != [] {
      AboveAll(rbs[1..], a);
    }
  }

  function RevsText(revs: seq<nat>): string
  {
    "[" + Join(Quoted(revs), ", ") + "]"
  }

  function Quoted(revs: seq<nat>): seq<string>
  {
    if revs == [] then [] else ["'" + NatToString(revs[0]) + "'"] + Quoted(revs[1..])
  }

  /** The last part of `get_revisions_to_copy`: the reverts, newest
    * first, then the copies cut to `maximum` (0: all), cut after
    * `lastRev` when one is given (0: none). */
  function Assemble(reverts: seq<RevBranch>, copies: seq<RevBranch>, maximum: int, lastRev: int): (r: Result<seq<RevBranch>>)
    ensures var all := Reverse(reverts) + (if maximum != 0 then SliceTo(copies, maximum) else copies);
            (lastRev == 0 ==> r == Ok(all)) &&
            (lastRev != 0 ==> (r.Err? <==> lastRev !in RevsOf(all))) &&
            (r.Err? ==> r.exc.kind == P4RBGError) &&
            (lastRev != 0 && r.Ok? ==> 0 < |r.value| <= |all| && r.value == all[..|r.value|] &&
                                       r.value[|r.value| - 1].rev == lastRev &&
                                       lastRev !in RevsOf(r.value[..|r.value| - 1]))
  {
    var all := Reverse(reverts) + (if maximum != 0 then SliceTo(copies, maximum) else copies);
    if lastRev == 0 then Ok(all)
    else
      var i := IndexOf(RevsOf(all), lastRev);
      if i.None? then Raise(P4RBGError, IntToString(lastRev) + " not in " + RevsText(RevsOf(all)))
      else
        var r := all[..i.value + 1];
        assert RevsOf(r[..|r| - 1]) == RevsOf(all)[..i.value];
        Ok(r)
  }

  /** No more than `maximum` copies are planned. */
  lemma PlanBounded(reverts: seq<RevBranch>, copies: seq<RevBranch>, maximum: int, lastRev: int)
    requires maximum > 0 && Assemble(reverts, copies, maximum, lastRev).Ok?
    ensures |Assemble(reverts, copies, maximum, lastRev).value| <= |reverts| + maximum
  {
  }

  /** What the server answers, and how far parents are followed. */
  datatype Server = Server(depot: Depot, records: seq<CopyRecord>, fuel: nat)

  /** `get_branch_rev_hist` of a directory and its parents. */
  function History(dir: string, srv: Server): Result<seq<RevBranch>>
  {
    BranchRevHist(dir, [dir] + ParentBranches(dir, srv.depot, srv.fuel), srv.depot)
  }

  /** The plan before it is cut. */
  datatype Parts = Parts(reverts: seq<RevBranch>, copies: seq<RevBranch>)

  const NoneToInt: string := "int() argument must be a string, a bytes-like object or a real number, not 'NoneType'"

  /** The source changed: revert the copies of the previous source's
    * revisions from the ancestor on, except the newest, and copy the new
    * source's revisions above the ancestor. */
  function Switched(prev: seq<RevBranch>, curr: seq<RevBranch>, targetDir: string, records: seq<CopyRecord>): (r: Result<Parts>)
    ensures r.Err? <==> prev == [] && curr != []
    ensures r.Err? ==> r.exc.kind == TypeError
    ensures r.Ok? && prev != [] ==>
              var anc := CommonAncestor(prev, curr).value;
              (forall x :: x in r.value.copies <==> x in curr && x.rev > anc) &&
              r.value.reverts == DropLast(MapRevs(AtLeast(prev, anc), records, targetDir))
    ensures r.Ok? && prev == [] ==> r.value == Parts([], [])
  {
    var anc := CommonAncestor(prev, curr);
    if anc.None? then
      if curr == [] then Ok(Parts([], [])) else Raise(TypeError, NoneToInt)
    else
      Ok(Parts(DropLast(MapRevs(AtLeast(prev, anc.value), records, targetDir)), Above(curr, anc.value)))
  }

  /** Every revert undoes a recorded copy of a revision from the ancestor
    * on, in the target. */
  lemma {:induction false} RevertsAreCopies(src: seq<RevBranch>, records: seq<CopyRecord>, targetDir: string, anc: nat, x: RevBranch)
    requires forall y :: y in src ==> y.rev >= anc
    requires x in MapRevs(src, records, targetDir)
    ensures x.branch == targetDir
    ensures exists j :: 0 <= j < |records| && records[j].dst == x.rev && records[j].src >= anc
  {
    var c := FirstCopy(records, src[0].rev);
    if c.Some? && x == RevBranch(c.value, targetDir) {
      assert src[0] in src;
    } else {
      assert forall y :: y in src[1..] ==> y in src;
      RevertsAreCopies(src[1..], records, targetDir, anc, x);
    }
  }

  /** The same source as before. */
  function SameSource(sourceDir: string, targetDir: string, srv: Server): Result<Parts>
  {
    var curr := Tagged(Reverse(srv.depot.changes(sourceDir)), sourceDir);
    var recorded := CopiedFrom(srv.records, sourceDir);
    var copied := if recorded != [] then Ok(recorded) else History(targetDir, srv);
    if copied.Err? then Err(copied.exc)
    else Ok(Parts([], SameDirCopies(curr, CommonAncestor(copied.value, curr))))
  }

  /** A source other than the previous one. */
  function OtherSource(prevDir: string, sourceDir: string, targetDir: string, srv: Server): Result<Parts>
  {
    var prev := History(prevDir, srv);
    var curr := History(sourceDir, srv);
    if prev.Err? then Err(prev.exc)
    else if curr.Err? then Err(curr.exc)
    else Switched(prev.value, curr.value, targetDir, srv.records)
  }

  /** `get_revisions_to_copy`. */
  function RevisionsToCopy(sourceDir: string, targetDir: string, maximum: int, lastRev: int, srv: Server): Result<seq<RevBranch>>
  {
    var prevDir := if srv.records != [] then srv.records[|srv.records| - 1].srcDepot else sourceDir;
    var parts := if prevDir != sourceDir then OtherSource(prevDir, sourceDir, targetDir, srv)
                 else SameSource(sourceDir, targetDir, srv);
    Plan(parts, maximum, lastRev)
  }

  /** The plan assembled from its parts, or the error that stopped them. */
  function Plan(parts: Result<Parts>, maximum: int, lastRev: int): Result<seq<RevBranch>>
  {
    if parts.Err? then Err(parts.exc)
    else Assemble(parts.value.reverts, parts.value.copies, maximum, lastRev)
  }

  /** The first run for a target, with nothing recorded and no history in
    * the target, copies every revision of the source, oldest first. */
  lemma FirstRunCopiesAll(sourceDir: string, targetDir: string, srv: Server)
    requires srv.records == [] && History(targetDir, srv) == Ok([])
    ensures RevisionsToCopy(sourceDir, targetDir, 0, 0, srv) == Ok(Tagged(Reverse(srv.depot.changes(sourceDir)), sourceDir))
  {
    var curr := Tagged(Reverse(srv.depot.changes(sourceDir)), sourceDir);
    assert CopiedFrom(srv.records, sourceDir) == [];
    assert CommonAncestor([], curr) == None;
    assert SameSource(sourceDir, targetDir, srv) == Ok(Parts([], curr));
    assert Reverse<RevBranch>([]) == [];
    assert [] + curr == curr;
    assert Assemble([], curr, 0, 0) == Ok(curr);
  }

  method OtherSourceParts(prevDir: string, sourceDir: string, targetDir: string, srv: Server)
    returns (parts: Result<Parts>)
    ensures parts == OtherSource(prevDir, sourceDir, targetDir, srv)
  {
    var prev := GetBranchRevHist(prevDir, [prevDir] + ParentBranches(prevDir, srv.depot, srv.fuel), srv.depot);
    var curr := GetBranchRevHist(sourceDir, [sourceDir] + ParentBranches(sourceDir, srv.depot, srv.fuel), srv.depot);
    if prev.Err? {
      return Err(prev.exc);
    } else if curr.Err? {
      return Err(curr.exc);
    }
    parts := Switched(prev.value, curr.value, targetDir, srv.records);
  }

  method SameSourceParts(sourceDir: string, targetDir: string, srv: Server) returns (parts: Result<Parts>)
    ensures parts == SameSource(sourceDir, targetDir, srv)
  {
    var curr := Tagged(Reverse(srv.depot.changes(sourceDir)), sourceDir);
    var copied := CopiedFrom(srv.records, sourceDir);
    if copied == [] {
      var hist := GetBranchRevHist(targetDir, [targetDir] + ParentBranches(targetDir, srv.depot, srv.fuel), srv.depot);
      if hist.Err? {
        return Err(hist.exc);
      }
      copied := hist.value;
    }
    var anc := CommonAncestor(copied, curr);
    var copies := curr;
    if anc.Some? {
      copies := CopiesAfter(curr, anc.value);
    }
    parts := Ok(Parts([], copies));
  }

  /** `get_revisions_to_copy`: the plan of reverts and copies. */
  method GetRevisionsToCopy(sourceDir: string, targetDir: string, maximum: int, lastRev: int, srv: Server)
    returns (r: Result<seq<RevBranch>>)
    ensures r == RevisionsToCopy(sourceDir, targetDir, maximum, lastRev, srv)
  {
    var prevDir := if srv.records != [] then srv.records[|srv.records| - 1].srcDepot else sourceDir;
    var parts: Result<Parts>;
    if prevDir != sourceDir {
      parts := OtherSourceParts(prevDir, sourceDir, targetDir, srv);
    } else {
      parts := SameSourceParts(sourceDir, targetDir, srv);
    }
    r := Plan(parts, maximum, lastRev);
  }

  // ---------------------------------------------------------------------
  // submit_opened_files

  /** The source change as `p4 changes -l` lists it. */
  datatype SrcChange = SrcChange(desc: string, user: string, time: string)

  /** What the target server answers while a copy is committed: whether
    * files are opened, the listing of the source revision, one entry per
    * line of the submit's output (`Some(n)` for a line with a
    * `submittedChange`), and the server's offset from UTC when the
    * original user and time are to be restored. */
  datatype CopySubmit = CopySubmit(hasOpened: bool, changes: seq<SrcChange>, output: seq<Option<nat>>, offset: Result<int>)

  /** The description of a copy: `#review` defused, then a line naming the
    * source revision and its author. */
  function CopyDescription(desc: string, srcRev: nat, author: string): string
  {
    Replace(desc, "#review", "# review") + "\nCopied from revision @" + NatToString(srcRev) + " by " + author
  }

  /** The first submit-output line that names the new change. */
  function FirstSubmitted(output: seq<Option<nat>>): (r: Option<nat>)
    ensures r.None? <==> forall i :: 0 <= i < |output| ==> output[i].None?
    ensures r.Some? ==> exists i :: 0 <= i < |output| && output[i] == r && forall j :: 0 <= j < i ==> output[j].None?
  {
    if output == [] then None
    else if output[0].Some? then
      assert output[0] == output[0];
      output[0]
    else
      var r := FirstSubmitted(output[1..]);
      assert forall i :: 1 <= i < |output| ==> output[i] == output[1..][i - 1];
      if r.Some? then
        ghost var k :| 0 <= k < |output[1..]| && output[1..][k] == r && forall j :: 0 <= j < k ==> output[1..][j].None?;
        assert output[k + 1] == r;
        r
      else r
  }

  datatype CopyOutcome = CopyOutcome(cmds: seq<Cmd>, result: Result<Option<nat>>)

  /** `submit_opened_files`: nothing is submitted when nothing is opened;
    * otherwise the copy is submitted with its rewritten description, the
    * new change number is taken from the first line that carries one, and
    * with `replicateUserAndTimestamp` the new change is given the source
    * change's user and time. */
  function SubmitCopy(fromBranch: string, srcRev: nat, replicateUserAndTimestamp: bool, srv: CopySubmit): (r: CopyOutcome)
    ensures !srv.hasOpened ==> r == CopyOutcome([], Ok(None))
    ensures srv.hasOpened && srv.changes == [] ==> r.cmds == [] && r.result.Err? && r.result.exc.kind == IndexError
    ensures srv.hasOpened && srv.changes != [] ==>
              |r.cmds| >= 1 &&
              r.cmds[0] == Cmd("submit", ["-d", CopyDescription(srv.changes[0].desc, srcRev, srv.changes[0].user)])
    ensures r.result.Ok? && r.result.value.Some? ==>
              srv.hasOpened && r.result.value == FirstSubmitted(srv.output) &&
              (replicateUserAndTimestamp <==> |r.cmds| == 2)
    ensures srv.hasOpened && srv.changes != [] && FirstSubmitted(srv.output).None? ==>
              r.result == Raise(P4RBGError, "No submittedChange found")
    ensures srv.hasOpened && srv.changes != [] && FirstSubmitted(srv.output).Some? ==>
              if replicateUserAndTimestamp && srv.offset.Err? then
                r.result == Err(srv.offset.exc) && |r.cmds| == 1
              else
                && r.result == Ok(FirstSubmitted(srv.output))
                && (replicateUserAndTimestamp <==> |r.cmds| == 2)
                && (replicateUserAndTimestamp ==>
                      r.cmds[1] == Cmd("change", ["-f", NatToString(FirstSubmitted(srv.output).value),
                                                  srv.changes[0].user, srv.changes[0].time, IntToString(srv.offset.value)]))
  {
    if !srv.hasOpened then CopyOutcome([], Ok(None))
    else if srv.changes == [] then CopyOutcome([], Raise(IndexError, "list index out of range"))
    else
      var c := srv.changes[0];
      var submit := Cmd("submit", ["-d", CopyDescription(c.desc, srcRev, c.user)]);
      match FirstSubmitted(srv.output)
      case None => CopyOutcome([submit], Raise(P4RBGError, "No submittedChange found"))
      case Some(n) =>
        if !replicateUserAndTimestamp then CopyOutcome([submit], Ok(Some(n)))
        else if srv.offset.Err? then CopyOutcome([submit], Err(srv.offset.exc))
        else CopyOutcome([submit, Cmd("change", ["-f", NatToString(n), c.user, c.time, IntToString(srv.offset.value)])], Ok(Some(n)))
  }

  /** The submitted description holds no `#review` from the source and
    * ends with the line naming the source revision and its author. */
  lemma CopyDescriptionShape(desc: string, srcRev: nat, author: string)
    ensures var d := CopyDescription(desc, srcRev, author);
            var tail := "\nCopied from revision @" + NatToString(srcRev) + " by " + author;
            EndsWith(d, tail) &&
            !ScmP4Integrate.HowIn("#review", d[..|d| - |tail|])
  {
    var tail := "\nCopied from revision @" + NatToString(srcRev) + " by " + author;
    var body := Replace(desc, "#review", "# review");
    var d := body + tail;
    assert CopyDescription(desc, srcRev, author) == d;
    assert d[..|d| - |tail|] == body;
    assert d[|d| - |tail|..] == tail;
    ScmP4Replay.NoReviewTag(desc);
  }

  // ---------------------------------------------------------------------
  // get_branch_view

  /** The branch spec `create_branch_view` feeds to `p4 branch -i`. */
  function BranchSpec(name: string, owner: string, fromBranch: string, targetDir: string): string
  {
    "Branch: " + name + "\nDescription: branch for release branch generation\nOwner: " + owner +
    "\nOptions: unlocked\nView: " + fromBranch + " " + targetDir
  }

  /** The branch views made so far, keyed by the branch copied from, and
    * the commands that made them. */
  class BranchViews {
    var views: map<string, string>
    var cmds: seq<Cmd>

    constructor()
      ensures views == map[] && cmds == []
    {
      views := map[];
      cmds := [];
    }

    /** `get_branch_view`: a view already made for `fromBranch` is reused;
      * otherwise one named `RBG_branch_view<suffix>` is created and
      * remembered (`suffix` stands for the random string). */
    method Get(fromBranch: string, targetDir: string, owner: string, suffix: string) returns (view: string)
      modifies this
      ensures old(fromBranch in views && views[fromBranch] != "") ==>
                view == old(views[fromBranch]) && views == old(views) && cmds == old(cmds)
      ensures !old(fromBranch in views && views[fromBranch] != "") ==>
                view == "RBG_branch_view" + suffix &&
                views == old(views)[fromBranch := view] &&
                cmds == old(cmds) + [Cmd("branch", ["-i", BranchSpec(view, owner, fromBranch, targetDir)])]
      ensures view != "" && fromBranch in views && views[fromBranch] == view
    {
      if fromBranch in views && views[fromBranch] != "" {
        return views[fromBranch];
      }
      view := "RBG_branch_view" + suffix;
      cmds := cmds + [Cmd("branch", ["-i", BranchSpec(view, owner, fromBranch, targetDir)])];
      views := views[fromBranch := view];
    }
  }
}
