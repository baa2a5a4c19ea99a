/** The Perforce-to-Perforce driver (lib/PerforceReplicate.py): the check
  * that both workspaces share a root, the count of revisions a purging
  * filetype has already removed, the digest parity check run after each
  * submitted change, and the loop that replays the changes one by one. */
module PerforceReplicate {
  import opened Common
  import opened Strings
  import opened ScmP4Ingest
  import ScmP4Replay
  import Scm2Scm

  // ---------------------------------------------------------------------
  // verify_work_dir_root

  /** Both workspaces must be rooted in the same directory. */
  function VerifyWorkDirRoot(srcRoot: string, dstRoot: string): (r: Result<()>)
    ensures r.Ok? <==> srcRoot == dstRoot
    ensures r.Err? ==> r.exc.kind == P4TransferException
  {
    if srcRoot != dstRoot then Raise(P4TransferException, "src/dst workspace root directories must be the same")
    else Ok(())
  }

  // ---------------------------------------------------------------------
  // ignoring_purged_revision

  /** `re.search(r'\+.*S', t)`, scanned from the end: an 'S' somewhere
    * after a '+'. */
  function SearchPlusS(t: string): bool
  {
    if |t| < 2 then false
    else (t[|t| - 1] == 'S' && '+' in t[..|t| - 1]) || SearchPlusS(t[..|t| - 1])
  }

  /** The scan finds exactly the strings with a '+' before an 'S'. */
  lemma {:induction false} SearchPlusSIff(t: string)
    ensures SearchPlusS(t) <==> exists i, j :: 0 <= i < j < |t| && t[i] == '+' && t[j] == 'S'
  {
    if |t| >= 2 {
      var k := |t| - 1;
      var u := t[..k];
      SearchPlusSIff(u);
      if t[k] == 'S' && '+' in u {
        var i :| 0 <= i < |u| && u[i] == '+';
        assert t[i] == '+' && t[k] == 'S';
      } else if SearchPlusS(u) {
        var i, j :| 0 <= i < j < |u| && u[i] == '+' && u[j] == 'S';
        assert t[i] == '+' && t[j] == 'S';
      }
      if exists i, j :: 0 <= i < j < |t| && t[i] == '+' && t[j] == 'S' {
        var i, j :| 0 <= i < j < |t| && t[i] == '+' && t[j] == 'S';
        if j == k {
          assert u[i] == '+';
        } else {
          assert u[i] == '+' && u[j] == 'S';
        }
      }
    }
  }

  /** Position `q` can end the match of `.*\+.*S(\d+)`: an 'S' with a digit
    * after it and a '+' somewhere before it. */
  predicate RetainedAt(t: string, q: int)
  {
    0 <= q && q + 1 < |t| && t[q] == 'S' && IsDigit(t[q + 1]) && '+' in t[..q]
  }

  /** The digits `re.match(r'.*\+.*S(\d+)', t)` captures when the 'S' lies
    * below `k`: the greedy `.*` makes it the last position that can end
    * the match, and the greedy `\d+` takes the whole digit run. */
  function RetainedBelow(t: string, k: nat): Option<nat>
    requires k <= |t|
  {
    if k == 0 then None
    else if RetainedAt(t, k - 1) then Some(ParseDigits(DigitRun(t[k..])))
    else RetainedBelow(t, k - 1)
  }

  /** The scan finds nothing exactly when no position can end the match... */
  lemma {:induction false} RetainedBelowNone(t: string, k: nat)
    requires k <= |t|
    ensures RetainedBelow(t, k).None? <==> forall q :: 0 <= q < k ==> !RetainedAt(t, q)
  {
    if k > 0 && !RetainedAt(t, k - 1) {
      RetainedBelowNone(t, k - 1);
    }
  }

  /** ... and otherwise takes the digits after the last one that can. */
  lemma {:induction false} RetainedBelowLast(t: string, k: nat)
    requires k <= |t| && RetainedBelow(t, k).Some?
    ensures exists q :: 0 <= q < k && RetainedAt(t, q) && RetainedBelow(t, k).value == ParseDigits(DigitRun(t[q + 1..]))
                        && forall q' :: q < q' < k ==> !RetainedAt(t, q')
  {
    if RetainedAt(t, k - 1) {
      var q := k - 1;
      assert RetainedBelow(t, k).value == ParseDigits(DigitRun(t[q + 1..]));
    } else {
      RetainedBelowLast(t, k - 1);
      var r := RetainedBelow(t, k - 1);
      var q :| 0 <= q < k - 1 && RetainedAt(t, q) && r.value == ParseDigits(DigitRun(t[q + 1..]))
               && forall q' :: q < q' < k - 1 ==> !RetainedAt(t, q');
      assert forall q' :: q < q' < k ==> !RetainedAt(t, q');
    }
  }

  /** The number of revisions a `+S<n>` filetype keeps: `n`, or 1 when no
    * number follows the 'S'. */
  function Retained(t: string): nat
  {
    match RetainedBelow(t, |t|)
    case Some(n) => n
    case None => 1
  }

  /** The scan from `k` down stops at `q0` when no 'S' lies between. */
  lemma {:induction false} RetainedBelowFrom(t: string, k: nat, q0: nat)
    requires q0 < k <= |t| && RetainedAt(t, q0)
    requires forall q :: q0 < q < k ==> t[q] != 'S'
    ensures RetainedBelow(t, k) == Some(ParseDigits(DigitRun(t[q0 + 1..])))
  {
    if k - 1 != q0 {
      assert t[k - 1] != 'S';
      RetainedBelowFrom(t, k - 1, q0);
    }
  }

  /** A filetype ending in `+S<digits>` keeps that many revisions. */
  lemma RetainedOfSuffix(pre: string, d: string)
    requires d != [] && AllDigits(d)
    ensures Retained(pre + "+S" + d) == ParseDigits(d)
  {
    var t := pre + "+S" + d;
    var q0 := |pre| + 1;
    assert t[..q0][|pre|] == '+';
    assert t[q0 + 1] == d[0];
    assert t[q0 + 1..] == d + [];
    forall q | q0 < q < |t| ensures t[q] != 'S' {
      assert t[q] == d[q - q0 - 1];
    }
    RetainedBelowFrom(t, |t|, q0);
    DigitRunOf(d, []);
  }

  /** What `p4 files <file>` answered: a failure, or the revisions it lists. */
  datatype FilesReply = FilesFailed(msg: string) | FilesRevs(revs: seq<nat>)

  /** `ignoring_purged_revision`: a revision of a purging (`+S`) filetype
    * that lies at least the retained count below the latest revision has
    * been purged from the source. A failed `p4 files` leaves the reply
    * variable unbound; an empty listing has no first entry. */
  function IgnoringPurgedRevision(f: ChangeRev, latest: FilesReply): (r: Result<bool>)
    ensures !SearchPlusS(f.ftype) ==> r == Ok(false)
    ensures r == Ok(true) <==> SearchPlusS(f.ftype) && latest.FilesRevs? && latest.revs != []
                               && f.rev + Retained(f.ftype) <= latest.revs[0]
    ensures r.Err? <==> SearchPlusS(f.ftype) && (latest.FilesFailed? || latest.revs == [])
  {
    if !SearchPlusS(f.ftype) then Ok(false)
    else
      var allowed := Retained(f.ftype);
      match latest
      case FilesFailed(_) => Raise(UnboundLocalError, "local variable 'revision_line' referenced before assignment")
      case FilesRevs(revs) =>
        if revs == [] then Raise(IndexError, "list index out of range")
        else Ok(f.rev <= revs[0] - allowed)
  }

  /** A `+S<n>` revision is ignored exactly when it is at least `n` below
    * the latest revision. */
  lemma PurgedRevisionIgnored(f: ChangeRev, pre: string, d: string, latest: nat)
    requires d != [] && AllDigits(d) && f.ftype == pre + "+S" + d
    ensures IgnoringPurgedRevision(f, FilesRevs([latest])) == Ok(f.rev + ParseDigits(d) <= latest)
  {
    var t := f.ftype;
    assert t[|pre|] == '+' && t[|pre| + 1] == 'S';
    SearchPlusSIff(t);
    RetainedOfSuffix(pre, d);
  }

  /** A filetype without a '+' before an 'S' is never ignored. */
  lemma UnpurgedNeverIgnored(f: ChangeRev, latest: FilesReply)
    requires forall i, j :: 0 <= i < j < |f.ftype| && f.ftype[i] == '+' ==> f.ftype[j] != 'S'
    ensures IgnoringPurgedRevision(f, latest) == Ok(false)
  {
    SearchPlusSIff(f.ftype);
  }

  /** `len([x for x in files if ignoring_purged_revision(x)])`, evaluated
    * in order, so the first failing lookup is the one raised. */
  function CountIgnored(files: seq<ChangeRev>, latest: string -> FilesReply): (r: Result<nat>)
    ensures r.Ok? ==> r.value <= |files|
    ensures (forall i :: 0 <= i < |files| ==> !SearchPlusS(files[i].ftype)) ==> r == Ok(0)
  {
    if files == [] then Ok(0)
    else
      match IgnoringPurgedRevision(files[0], latest(files[0].localFile))
      case Err(e) => Err(e)
      case Ok(b) =>
        var rest := CountIgnored(files[1..], latest);
        if rest.Err? then rest else Ok(rest.value + if b then 1 else 0)
  }

  // ---------------------------------------------------------------------
  // Ordering of (basename, digest) pairs, as Python orders tuples of str

  /** Python's `<=` on strings: code point by code point, a prefix first. */
  predicate StrLeq(a: string, b: string)
  {
    a == [] || (b != [] && (a[0] < b[0] || (a[0] == b[0] && StrLeq(a[1..], b[1..]))))
  }

  lemma {:induction false} StrLeqRefl(a: string)
    ensures StrLeq(a, a)
  {
    if a != [] { StrLeqRefl(a[1..]); }
  }

  lemma {:induction false} StrLeqTotal(a: string, b: string)
    ensures StrLeq(a, b) || StrLeq(b, a)
  {
    if a != [] && b != [] && a[0] == b[0] { StrLeqTotal(a[1..], b[1..]); }
  }

  lemma {:induction false} StrLeqAntisym(a: string, b: string)
    requires StrLeq(a, b) && StrLeq(b, a)
    ensures a == b
  {
    if a != [] && b != [] {
      StrLeqAntisym(a[1..], b[1..]);
      assert a == [a[0]] + a[1..] && b == [b[0]] + b[1..];
    }
  }

  lemma {:induction false} StrLeqTrans(a: string, b: string, c: string)
    requires StrLeq(a, b) && StrLeq(b, c)
    ensures StrLeq(a, c)
  {
    if a != [] && b != [] && c != [] && a[0] == b[0] == c[0] {
      StrLeqTrans(a[1..], b[1..], c[1..]);
    }
  }

  /** One `(os.path.split(local)[1], digest)` pair of the check. */
  datatype Digest = Digest(name: string, digest: string)

  /** Tuple order: by name, then by digest. */
  predicate DigestLeq(p: Digest, q: Digest)
  {
    if p.name == q.name then StrLeq(p.digest, q.digest) else StrLeq(p.name, q.name)
  }

  lemma DigestLeqRefl(p: Digest)
    ensures DigestLeq(p, p)
  {
    StrLeqRefl(p.digest);
  }

  lemma DigestLeqTotal(p: Digest, q: Digest)
    ensures DigestLeq(p, q) || DigestLeq(q, p)
  {
    StrLeqTotal(p.name, q.name);
    StrLeqTotal(p.digest, q.digest);
  }

  lemma DigestLeqAntisym(p: Digest, q: Digest)
    requires DigestLeq(p, q) && DigestLeq(q, p)
    ensures p == q
  {
    if p.name == q.name {
      StrLeqAntisym(p.digest, q.digest);
    } else {
      StrLeqAntisym(p.name, q.name);
    }
  }

  lemma DigestLeqTrans(p: Digest, q: Digest, s: Digest)
    requires DigestLeq(p, q) && DigestLeq(q, s)
    ensures DigestLeq(p, s)
  {
    if p.name == q.name && q.name == s.name {
      StrLeqTrans(p.digest, q.digest, s.digest);
    } else if p.name != q.name && q.name != s.name {
      StrLeqTrans(p.name, q.name, s.name);
      if p.name == s.name {
        StrLeqAntisym(p.name, q.name);
      }
    }
  }

  predicate Sorted(s: seq<Digest>)
  {
    forall i, j :: 0 <= i < j < |s| ==> DigestLeq(s[i], s[j])
  }

  /** `x` placed before the first element it does not exceed. */
  function Insert(x: Digest, s: seq<Digest>): (r: seq<Digest>)
    requires Sorted(s)
    ensures Sorted(r) && multiset(r) == multiset(s) + multiset{x}
  {
    if s == [] then [x]
    else if DigestLeq(x, s[0]) then
      InsertFront(x, s);
      [x] + s
    else
      var t := Insert(x, s[1..]);
      assert s == [s[0]] + s[1..];
      DigestLeqTotal(x, s[0]);
      InsertBehind(x, s, t);
      [s[0]] + t
  }

  lemma InsertFront(x: Digest, s: seq<Digest>)
    requires Sorted(s) && s != [] && DigestLeq(x, s[0])
    ensures Sorted([x] + s)
  {
    var r := [x] + s;
    forall i, j | 0 <= i < j < |r| ensures DigestLeq(r[i], r[j]) {
      assert r[j] == s[j - 1];
      if i == 0 {
        if j > 1 { DigestLeqTrans(x, s[0], s[j - 1]); }
      } else {
        assert r[i] == s[i - 1];
      }
    }
  }

  lemma InsertBehind(x: Digest, s: seq<Digest>, t: seq<Digest>)
    requires Sorted(s) && s != [] && DigestLeq(s[0], x)
    requires Sorted(t) && multiset(t) == multiset(s[1..]) + multiset{x}
    ensures Sorted([s[0]] + t)
  {
    var r := [s[0]] + t;
    forall i, j | 0 <= i < j < |r| ensures DigestLeq(r[i], r[j]) {
      assert r[j] == t[j - 1];
      if i == 0 {
        assert t[j - 1] in multiset(t);
        if t[j - 1] != x {
          assert t[j - 1] in multiset(s[1..]);
          var k :| 0 <= k < |s[1..]| && s[1..][k] == t[j - 1];
          assert s[k + 1] == t[j - 1];
        }
      } else {
        assert r[i] == t[i - 1];
      }
    }
  }

  /** `list.sort()` on the pairs; tuples compare totally, so the result is
    * the one sorted arrangement of the same pairs (see `SortedUnique`). */
  function SortDigests(s: seq<Digest>): (r: seq<Digest>)
    ensures Sorted(r) && multiset(r) == multiset(s)
  {
    if s == [] then []
    else
      assert s == [s[0]] + s[1..];
      Insert(s[0], SortDigests(s[1..]))
  }

  /** The first element of a sorted list is below every element. */
  lemma SortedHead(s: seq<Digest>, x: Digest)
    requires Sorted(s) && x in multiset(s)
    ensures DigestLeq(s[0], x)
  {
    var i :| 0 <= i < |s| && s[i] == x;
    if i == 0 { DigestLeqRefl(x); }
  }

  lemma SortedTail(s: seq<Digest>)
    requires Sorted(s) && s != []
    ensures Sorted(s[1..]) && multiset(s[1..]) == multiset(s) - multiset{s[0]}
  {
    forall i, j | 0 <= i < j < |s| - 1 ensures DigestLeq(s[1..][i], s[1..][j]) {
      assert s[1..][i] == s[i + 1] && s[1..][j] == s[j + 1];
    }
    assert s == [s[0]] + s[1..];
  }

  /** Two sorted lists of the same pairs are the same list. */
  lemma {:induction false} SortedUnique(a: seq<Digest>, b: seq<Digest>)
    requires Sorted(a) && Sorted(b) && multiset(a) == multiset(b)
    ensures a == b
  {
    if a != [] {
      SortedSameHead(a, b);
      SortedTail(a);
      SortedTail(b);
      SortedUnique(a[1..], b[1..]);
      assert a == [a[0]] + a[1..] && b == [b[0]] + b[1..];
    } else {
      assert |multiset(b)| == 0;
    }
  }

  lemma SortedSameHead(a: seq<Digest>, b: seq<Digest>)
    requires Sorted(a) && Sorted(b) && multiset(a) == multiset(b) && a != []
    ensures b != [] && a[0] == b[0]
  {
    assert a[0] in multiset(a);
    assert b != [];
    assert b[0] in multiset(b);
    SortedHead(b, a[0]);
    SortedHead(a, b[0]);
    DigestLeqAntisym(a[0], b[0]);
  }

  /** Sorting makes two lists equal exactly when they hold the same pairs. */
  lemma SortedEqualIff(a: seq<Digest>, b: seq<Digest>)
    ensures SortDigests(a) == SortDigests(b) <==> multiset(a) == multiset(b)
  {
    if multiset(a) == multiset(b) {
      SortedUnique(SortDigests(a), SortDigests(b));
    }
  }

  // ---------------------------------------------------------------------
  // replication_sanity_check

  /** One `p4 fstat -Ol -m1` record. */
  datatype FstatEntry = FstatEntry(depotFile: string, digest: Option<string>)

  /** Everything the check asks of the two servers for one change. */
  datatype CheckInputs = CheckInputs(
    srcUnicode: bool,
    dstUnicode: bool,
    describe: seq<Option<seq<string>>>,               // `p4 describe`: each record's depotFile list, if any
    latest: string -> FilesReply,                      // `p4 files <local file>` on the source
    srcMask: Option<string -> Option<string>>, srcDepotOf: string -> Option<string>,
    dstMask: Option<string -> Option<string>>, dstDepotOf: string -> Option<string>,
    srcFstat: seq<string> -> Result<seq<FstatEntry>>,
    dstFstat: seq<string> -> Result<seq<FstatEntry>>,
    srcLocal: string -> Option<string>,                // the source depot-to-workspace map
    dstLocal: string -> Option<string>)                // the target depot-to-workspace map

  /** `depotFile#rev` of every source revision both workspaces map. */
  function SrcDepotFiles(files: seq<ChangeRev>, w: CheckInputs): (r: seq<string>)
    ensures |r| <= |files|
  {
    if files == [] then []
    else
      var f := files[0];
      (if ScmP4Replay.InWorkspace(f.localFile, w.srcMask, w.srcDepotOf) &&
          ScmP4Replay.InWorkspace(f.localFile, w.dstMask, w.dstDepotOf)
       then [f.depotFile + "#" + NatToString(f.rev)] else []) + SrcDepotFiles(files[1..], w)
  }

  /** `depotFile#head` of every file the target change holds. */
  function HeadsOf(names: seq<string>): (r: seq<string>)
    ensures |r| == |names| && forall i :: 0 <= i < |names| ==> r[i] == names[i] + "#head"
  {
    if names == [] then [] else [names[0] + "#head"] + HeadsOf(names[1..])
  }

  /** The (basename, digest) pairs of fstat records whose digest is set and
    * non-empty. An unmapped depot path is translated to None, which
    * `os.path.split` refuses. */
  function DigestsOf(entries: seq<FstatEntry>, local: string -> Option<string>): (r: Result<seq<Digest>>)
    ensures r.Ok? ==> |r.value| <= |entries| && forall i :: 0 <= i < |r.value| ==> r.value[i].digest != []
    ensures r.Ok? <==> forall i :: 0 <= i < |entries| ==> local(entries[i].depotFile).Some?
  {
    if entries == [] then Ok([])
    else
      var e := entries[0];
      var l := local(e.depotFile);
      if l.None? then Raise(TypeError, "expected str, bytes or os.PathLike object, not NoneType")
      else
        var rest := DigestsOf(entries[1..], local);
        if rest.Err? then rest
        else if e.digest.Some? && e.digest.value != [] then Ok([Digest(Basename(l.value), e.digest.value)] + rest.value)
        else rest
  }

  /** The pairs with their basenames lower-cased. */
  function LowerNames(s: seq<Digest>): (r: seq<Digest>)
    ensures |r| == |s| && forall i :: 0 <= i < |s| ==> r[i] == Digest(Lower(s[i].name), s[i].digest)
  {
    if s == [] then [] else [Digest(Lower(s[0].name), s[0].digest)] + LowerNames(s[1..])
  }

  function Elems(s: seq<Digest>): set<Digest>
  {
    set p | p in s
  }

  function ObliterateMessage(change: nat): string
  {
    "Please verify and obliterate changelist " + NatToString(change) + " if it is not a false negative"
  }

  /** The comparison as written: after the pairs were sorted, unequal lists
    * pass when the source-only pairs number the purged revisions, and are
    * then compared again with lower-cased names but in their old order. */
  function CompareDigestsAsWritten(src: seq<Digest>, dst: seq<Digest>, ignore: nat, change: nat): Result<()>
  {
    if src == dst then Ok(())
    else if |Elems(src) - Elems(dst)| == ignore then Ok(())
    else if LowerNames(src) == LowerNames(dst) then Ok(())
    else Raise(RepP4Exception, ObliterateMessage(change))
  }

  /** The comparison with the case-insensitive retry sorting the lowered
    * pairs again, so that only a difference in case is forgiven. */
  function CompareDigests(src: seq<Digest>, dst: seq<Digest>, ignore: nat, change: nat): Result<()>
  {
    if src == dst then Ok(())
    else if |Elems(src) - Elems(dst)| == ignore then Ok(())
    else if SortDigests(LowerNames(src)) == SortDigests(LowerNames(dst)) then Ok(())
    else Raise(RepP4Exception, ObliterateMessage(change))
  }

  /** On sorted lists the check passes exactly when the two sides hold the
    * same pairs, or the source-only pairs number the purged revisions, or
    * the two sides hold the same pairs once names are lower-cased. */
  lemma CompareDigestsIff(src: seq<Digest>, dst: seq<Digest>, ignore: nat, change: nat)
    requires Sorted(src) && Sorted(dst)
    ensures CompareDigests(src, dst, ignore, change).Ok? <==>
              multiset(src) == multiset(dst) || |Elems(src) - Elems(dst)| == ignore
              || multiset(LowerNames(src)) == multiset(LowerNames(dst))
    ensures CompareDigests(src, dst, ignore, change).Err? ==>
              CompareDigests(src, dst, ignore, change).exc == Exc(RepP4Exception, ObliterateMessage(change))
  {
    if multiset(src) == multiset(dst) {
      SortedUnique(src, dst);
    }
    SortedEqualIff(LowerNames(src), LowerNames(dst));
  }

  /** Two sides that differ only in the case of one name, sorted as
    * Python sorts them ("B" before "a"), with nothing purged. */
  function CaseOnlySrc(): seq<Digest> { [Digest("B", "1"), Digest("a", "2")] }
  function CaseOnlyDst(): seq<Digest> { [Digest("a", "2"), Digest("b", "1")] }

  lemma CaseOnlySorted()
    ensures Sorted(CaseOnlySrc()) && Sorted(CaseOnlyDst())
  {
    var s, d := CaseOnlySrc(), CaseOnlyDst();
    assert StrLeq(s[0].name, s[1].name) by { assert s[0].name[0] < s[1].name[0]; }
    assert StrLeq(d[0].name, d[1].name) by { assert d[0].name[0] < d[1].name[0]; }
  }

  lemma CaseOnlyDistinct()
    ensures |Elems(CaseOnlySrc()) - Elems(CaseOnlyDst())| == 1
  {
    var s, d := CaseOnlySrc(), CaseOnlyDst();
    assert Elems(s) == {s[0], s[1]};
    assert Elems(d) == {d[0], d[1]};
    assert s[0].name != d[1].name by { assert s[0].name[0] != d[1].name[0]; }
    assert Elems(s) - Elems(d) == {s[0]};
  }

  lemma CaseOnlyLowered()
    ensures LowerNames(CaseOnlySrc()) == [Digest("b", "1"), Digest("a", "2")]
    ensures LowerNames(CaseOnlyDst()) == [Digest("a", "2"), Digest("b", "1")]
  {
    assert Lower("B") == [LowerChar('B')];
    assert Lower("a") == "a" && Lower("b") == "b";
  }

  /** As written, the lowered lists keep their old order and differ, so a
    * change whose two sides differ only in case is reported for
    * obliteration. */
  lemma CaseOnlyDifferenceRefused()
    ensures Sorted(CaseOnlySrc()) && Sorted(CaseOnlyDst())
    ensures CompareDigestsAsWritten(CaseOnlySrc(), CaseOnlyDst(), 0, 7).Err?
  {
    var s, d := CaseOnlySrc(), CaseOnlyDst();
    CaseOnlySorted();
    CaseOnlyDistinct();
    CaseOnlyLowered();
    assert s[0] != d[0];
    var ls, ld := LowerNames(s), LowerNames(d);
    assert ls[0] != ld[0];
  }

  /** The corrected comparison sorts the lowered pairs again and passes. */
  lemma CaseOnlyDifferenceAccepted()
    ensures CompareDigests(CaseOnlySrc(), CaseOnlyDst(), 0, 7) == Ok(())
  {
    var s, d := CaseOnlySrc(), CaseOnlyDst();
    CaseOnlyDistinct();
    CaseOnlyLowered();
    assert s[0] != d[0];
    var ls, ld := LowerNames(s), LowerNames(d);
    assert multiset(ls) == multiset(ld) by {
      assert ls == [ld[1], ld[0]];
    }
    SortedEqualIff(ls, ld);
  }

  /** Whether the check runs at all: only for a submitted change, at most
    * 2000 revisions, and two servers that agree on unicode. */
  predicate CheckSkipped(files: seq<ChangeRev>, dstChange: Option<nat>, w: CheckInputs)
  {
    dstChange.None? || dstChange.value == 0 || |files| > 2000 || w.srcUnicode != w.dstUnicode
  }

  /** `replication_sanity_check` (with the corrected case-insensitive
    * comparison). */
  function SanityCheck(files: seq<ChangeRev>, dstChange: Option<nat>, w: CheckInputs): (r: Result<()>)
  {
    if CheckSkipped(files, dstChange, w) then Ok(())
    else if w.describe == [] then Raise(IndexError, "list index out of range")
    else
      var ignore := CountIgnored(files, w.latest);
      if ignore.Err? then Err(ignore.exc)
      else if w.describe[0].None? then Raise(KeyError, "'depotFile'")
      else CompareFstats(files, w.describe[0].value, ignore.value, dstChange.value, w)
  }

  /** The check fails in the order the source reads its inputs: the
    * description's first entry, then the purged-revision count, and only
    * then the description's file list. */
  lemma SanityErrorOrder(files: seq<ChangeRev>, dstChange: Option<nat>, w: CheckInputs)
    requires !CheckSkipped(files, dstChange, w)
    ensures w.describe == [] ==> SanityCheck(files, dstChange, w) == Raise(IndexError, "list index out of range")
    ensures w.describe != [] && CountIgnored(files, w.latest).Err? ==>
              SanityCheck(files, dstChange, w) == Err(CountIgnored(files, w.latest).exc)
    ensures w.describe != [] && CountIgnored(files, w.latest).Ok? && w.describe[0].None? ==>
              SanityCheck(files, dstChange, w) == Raise(KeyError, "'depotFile'")
  {
  }

  /** Fetch both sides' digests, sort them and compare. */
  function CompareFstats(files: seq<ChangeRev>, dstFiles: seq<string>, ignore: nat, change: nat, w: CheckInputs): Result<()>
  {
    var srcF := w.srcFstat(SrcDepotFiles(files, w));
    if srcF.Err? then Err(srcF.exc)
    else
      var dstF := w.dstFstat(HeadsOf(dstFiles));
      if dstF.Err? then Err(dstF.exc)
      else
        var sd := DigestsOf(srcF.value, w.srcLocal);
        if sd.Err? then Err(sd.exc)
        else
          var dd := DigestsOf(dstF.value, w.dstLocal);
          if dd.Err? then Err(dd.exc)
          else CompareDigests(SortDigests(sd.value), SortDigests(dd.value), ignore, change)
  }

  /** The check is skipped for no change, change 0, more than 2000
    * revisions, or servers that disagree on unicode. */
  lemma SanitySkipped(files: seq<ChangeRev>, dstChange: Option<nat>, w: CheckInputs)
    requires dstChange.None? || dstChange == Some(0) || |files| > 2000 || w.srcUnicode != w.dstUnicode
    ensures SanityCheck(files, dstChange, w) == Ok(())
  {
  }

  /** When every lookup answers, a run that raises RepP4Exception found two
    * sides that hold different pairs, even ignoring case, and whose
    * source-only pairs do not number the purged revisions. */
  lemma SanityFailureMeansDifference(files: seq<ChangeRev>, n: nat, w: CheckInputs)
    requires !CheckSkipped(files, Some(n), w) && w.describe != [] && w.describe[0].Some?
    requires CountIgnored(files, w.latest).Ok?
    requires w.srcFstat(SrcDepotFiles(files, w)).Ok? && w.dstFstat(HeadsOf(w.describe[0].value)).Ok?
    requires DigestsOf(w.srcFstat(SrcDepotFiles(files, w)).value, w.srcLocal).Ok?
    requires DigestsOf(w.dstFstat(HeadsOf(w.describe[0].value)).value, w.dstLocal).Ok?
    ensures var src := DigestsOf(w.srcFstat(SrcDepotFiles(files, w)).value, w.srcLocal).value;
            var dst := DigestsOf(w.dstFstat(HeadsOf(w.describe[0].value)).value, w.dstLocal).value;
            SanityCheck(files, Some(n), w).Ok? <==>
              multiset(src) == multiset(dst)
              || |Elems(SortDigests(src)) - Elems(SortDigests(dst))| == CountIgnored(files, w.latest).value
              || multiset(LowerNames(SortDigests(src))) == multiset(LowerNames(SortDigests(dst)))
  {
    var src := DigestsOf(w.srcFstat(SrcDepotFiles(files, w)).value, w.srcLocal).value;
    var dst := DigestsOf(w.dstFstat(HeadsOf(w.describe[0].value)).value, w.dstLocal).value;
    CompareDigestsIff(SortDigests(src), SortDigests(dst), CountIgnored(files, w.latest).value, n);
  }

  // ---------------------------------------------------------------------
  // replicate

  /** What the driver does to the two sessions, in order. */
  datatype Event =
    | SyncedTo(change: int)
    | AddBase(change: int)
    | Replayed(change: int, cmds: seq<P4Cmd>)
    | RevertTarget
    | DisconnectSource
    | DisconnectTarget

  /** How each change replays and is checked: the target's
    * `replicate_change`, the revisions `get_change` lists, and the
    * servers' answers to the parity check. */
  datatype Env = Env(replay: P4Change -> ScmP4Replay.Outcome,
                     filesOf: nat -> seq<ChangeRev>,
                     checkOf: nat -> CheckInputs)

  /** The events of a stretch of the loop and the exception that ended it. */
  datatype Pass = Pass(events: seq<Event>, err: Option<Exc>)

  /** One iteration: sync, replay, check. */
  function ReplayOne(c: P4Change, env: Env): Pass
  {
    var o := env.replay(c);
    Pass([SyncedTo(c.change), Replayed(c.change, o.cmds)], Failure(c, o, env))
  }

  /** The exception replaying `c` raised: from `replicate_change`, or else
    * from the parity check of the change it submitted. */
  function Failure(c: P4Change, o: ScmP4Replay.Outcome, env: Env): Option<Exc>
  {
    if o.result.Err? then Some(o.result.exc)
    else
      var chk := SanityCheck(env.filesOf(c.change), o.result.value, env.checkOf(c.change));
      if chk.Err? then Some(chk.exc) else None
  }

  /** The loop over the changes, stopping at the first exception. */
  function ReplayAll(changes: seq<P4Change>, env: Env): Pass
  {
    if changes == [] then Pass([], None)
    else
      var one := ReplayOne(changes[0], env);
      if one.err.Some? then one
      else Resume(one.events, ReplayAll(changes[1..], env))
  }

  function Resume(done: seq<Event>, p: Pass): Pass
  {
    Pass(done + p.events, p.err)
  }

  /** The `finally` block. */
  function Cleanup(): seq<Event>
  {
    [RevertTarget, DisconnectSource, DisconnectTarget]
  }

  function ChangeNums(changes: seq<P4Change>): (r: seq<nat>)
    ensures |r| == |changes| && forall i :: 0 <= i < |changes| ==> r[i] == changes[i].change
  {
    if changes == [] then [] else [changes[0].change] + ChangeNums(changes[1..])
  }

  /** A whole run once the counter is known. */
  datatype Run = Run(events: seq<Event>, result: Result<Option<seq<nat>>>)

  /** `replicate` after `calc_start_changelist`: base mode syncs and adds
    * the base, a dry run disconnects, and otherwise the changes replay in
    * order and the target is reverted and both sessions closed whatever
    * happened. */
  function Drive(counter: int, changes: seq<P4Change>, base: bool, dryRun: bool, env: Env): Run
  {
    if base then Run([SyncedTo(counter), AddBase(counter)], Ok(Some(ChangeNums(changes))))
    else if dryRun then Run([DisconnectSource, DisconnectTarget], Ok(Some(ChangeNums(changes))))
    else
      var p := ReplayAll(changes, env);
      Run(p.events + Cleanup(), if p.err.Some? then Err(p.err.value) else Ok(None))
  }

  /** The changes the events say were replayed, in order. */
  function Replays(events: seq<Event>): seq<int>
  {
    if events == [] then []
    else (if events[0].Replayed? then [events[0].change] else []) + Replays(events[1..])
  }

  lemma {:induction false} ReplaysAppend(a: seq<Event>, b: seq<Event>)
    ensures Replays(a + b) == Replays(a) + Replays(b)
  {
    if a != [] {
      assert (a + b)[1..] == a[1..] + b;
      ReplaysAppend(a[1..], b);
    } else {
      assert a + b == b;
    }
  }

  lemma ReplaysOfOne(c: P4Change, env: Env)
    ensures Replays(ReplayOne(c, env).events) == [c.change]
  {
    var e := ReplayOne(c, env).events;
    assert e[1..][1..] == [];
    assert Replays(e[1..]) == [c.change] + Replays(e[1..][1..]);
  }

  /** The loop replays a prefix of the changes in order, every one of them
    * when nothing failed, and at least one when something did. */
  lemma {:induction false} ReplayAllOrder(changes: seq<P4Change>, env: Env)
    ensures var p := ReplayAll(changes, env);
            var n := Replays(p.events);
            |n| <= |changes| && n == ChangeNums(changes)[..|n|]
            && (p.err.None? ==> n == ChangeNums(changes))
            && (p.err.Some? ==> n != [])
  {
    if changes != [] {
      var one := ReplayOne(changes[0], env);
      ReplaysOfOne(changes[0], env);
      if one.err.None? {
        var rest := ReplayAll(changes[1..], env);
        ReplayAllOrder(changes[1..], env);
        ReplaysAppend(one.events, rest.events);
        assert ChangeNums(changes) == [changes[0].change] + ChangeNums(changes[1..]);
      }
    }
  }

  /** A full run replays the changes in order, all of them when it
    * returns, and always ends by reverting the target and closing both
    * sessions. */
  lemma NormalRun(counter: int, changes: seq<P4Change>, env: Env)
    ensures var r := Drive(counter, changes, false, false, env);
            var n := Replays(r.events);
            |r.events| >= 3 && r.events[|r.events| - 3..] == Cleanup()
            && |n| <= |changes| && n == ChangeNums(changes)[..|n|]
            && (r.result.Ok? ==> r.result.value.None? && n == ChangeNums(changes))
  {
    var p := ReplayAll(changes, env);
    var r := Drive(counter, changes, false, false, env);
    assert r.events == p.events + Cleanup();
    assert r.events[|r.events| - 3..] == Cleanup();
    ReplayAllOrder(changes, env);
    ReplaysAppend(p.events, Cleanup());
    assert Replays(Cleanup()) == [] by {
      assert Cleanup()[1..][1..][1..] == [];
    }
    assert Replays(r.events) == Replays(p.events);
  }

  /** Base mode and dry runs replay nothing and return the change numbers. */
  lemma ModesReplayNothing(counter: int, changes: seq<P4Change>, dryRun: bool, env: Env)
    ensures var r := Drive(counter, changes, true, dryRun, env);
            Replays(r.events) == [] && r.result == Ok(Some(ChangeNums(changes)))
    ensures var r := Drive(counter, changes, false, true, env);
            Replays(r.events) == [] && r.result == Ok(Some(ChangeNums(changes)))
            && r.events == [DisconnectSource, DisconnectTarget]
  {
    var b := Drive(counter, changes, true, dryRun, env).events;
    assert b[1..][1..] == [];
    assert Replays(b) == Replays(b[1..]) == Replays(b[1..][1..]);
    var d := Drive(counter, changes, false, true, env).events;
    assert d[1..][1..] == [];
    assert Replays(d) == Replays(d[1..]) == Replays(d[1..][1..]);
  }

  /** `P4Transfer`: the resolver it inherits and the events it has sent to
    * the two sessions. */
  class Transfer {
    const replication: Scm2Scm.Replication
    var events: seq<Event>

    constructor(replication: Scm2Scm.Replication)
      ensures this.replication == replication && events == []
    {
      this.replication := replication;
      events := [];
    }

    /** `replicate`: resolve the counter, list the changes after it, then
      * run in the mode asked for. */
    method Replicate(reppedRevs: seq<nat>, changesFrom: int -> seq<P4Change>, maximum: int,
                     base: bool, dryRun: bool, env: Env)
      returns (r: Result<Option<seq<nat>>>)
      modifies this, replication.source
      ensures var start := Scm2Scm.StartCounter(reppedRevs, old(replication.source.counter));
              start.Err? ==> r == Err(start.exc) && events == old(events)
      ensures var start := Scm2Scm.StartCounter(reppedRevs, old(replication.source.counter));
              start.Ok? ==>
                var run := Drive(start.value, ChangesToReplicate(changesFrom(start.value), start.value, maximum),
                                 base, dryRun, env);
                events == old(events) + run.events && r == run.result
      ensures var start := Scm2Scm.StartCounter(reppedRevs, old(replication.source.counter));
              replication.source.counter == if start.Ok? then start.value else old(replication.source.counter)
    {
      var started := replication.CalcStartChangelist(reppedRevs);
      if started.Err? {
        return Err(started.exc);
      }
      var counter := replication.source.counter;
      var changes := ChangesToReplicate(changesFrom(counter), counter, maximum);
      var nums := ChangeNums(changes);
      if base {
        events := events + [SyncedTo(counter), AddBase(counter)];
        return Ok(Some(nums));
      }
      if dryRun {
        events := events + [DisconnectSource, DisconnectTarget];
        return Ok(Some(nums));
      }
      var err := RunChanges(changes, env);
      assert replication.source.counter == counter;
      events := events + Cleanup();
      r := if err.Some? then Err(err.value) else Ok(None);
    }

    /** The loop of `replicate`: sync, replay and check each change in
      * turn until one raises. */
    method RunChanges(changes: seq<P4Change>, env: Env) returns (err: Option<Exc>)
      modifies this
      ensures events == old(events) + ReplayAll(changes, env).events
      ensures err == ReplayAll(changes, env).err
    {
      ghost var before, done := events, [];
      err := None;
      var i := 0;
      while i < |changes| && err.None?
        invariant 0 <= i <= |changes| && events == before + done
        invariant ReplayAll(changes, env) ==
                    if err.Some? then Pass(done, err) else Resume(done, ReplayAll(changes[i..], env))
      {
        ReplayAllStep(changes, i, env, done);
        var c := changes[i];
        var o := env.replay(c);
        events := events + [SyncedTo(c.change), Replayed(c.change, o.cmds)];
        done := done + [SyncedTo(c.change), Replayed(c.change, o.cmds)];
        err := Failure(c, o, env);
        i := i + 1;
      }
      if err.None? {
        assert changes[i..] == [];
      }
    }
  }

  /** One unfolding of the loop at position `i`, after the events `done`. */
  lemma ReplayAllStep(changes: seq<P4Change>, i: nat, env: Env, done: seq<Event>)
    requires i < |changes|
    ensures var one := ReplayOne(changes[i], env);
            Resume(done, ReplayAll(changes[i..], env)) ==
              if one.err.Some? then Pass(done + one.events, one.err)
              else Resume(done + one.events, ReplayAll(changes[i + 1..], env))
  {
    assert changes[i..][0] == changes[i] && changes[i..][1..] == changes[i + 1..];
    var one := ReplayOne(changes[i], env);
    if one.err.None? {
      var rest := ReplayAll(changes[i + 1..], env);
      assert done + (one.events + rest.events) == (done + one.events) + rest.events;
    }
  }
}
