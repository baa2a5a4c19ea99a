/** Where a replication resumes (lib/scm2scm.py).
  *
  * The target reports, oldest first, the source revision decoded from each
  * of its recent change descriptions (0 for a change that carries no tag).
  * From that list and the source counter the resolver either moves the
  * counter forward or refuses to start. */
module Scm2Scm {
  import opened Common
  import opened Strings

  /** `filter(lambda x: x, revs)` read as a list: the tagged entries, in order. */
  function Tagged(revs: seq<nat>): (r: seq<nat>)
    ensures |r| <= |revs|
    ensures forall i :: 0 <= i < |r| ==> r[i] > 0
  {
    if revs == [] then [] else (if revs[0] > 0 then [revs[0]] else []) + Tagged(revs[1..])
  }

  /** Reference definition: the newest tagged entry, found from the back. */
  function LastTagged(revs: seq<nat>): Option<nat>
  {
    if revs == [] then None
    else if revs[|revs| - 1] > 0 then Some(revs[|revs| - 1])
    else LastTagged(revs[..|revs| - 1])
  }

  lemma {:induction false} TaggedAppend(a: seq<nat>, b: seq<nat>)
    ensures Tagged(a + b) == Tagged(a) + Tagged(b)
  {
    if a != [] {
      assert (a + b)[1..] == a[1..] + b;
      TaggedAppend(a[1..], b);
    } else {
      assert a + b == b;
    }
  }

  /** The filtered list is empty exactly when nothing is tagged, and its last
    * entry is the newest tagged one. */
  lemma {:induction false} TaggedLast(revs: seq<nat>)
    ensures Tagged(revs) == [] <==> LastTagged(revs).None?
    ensures Tagged(revs) != [] ==> Tagged(revs)[|Tagged(revs)| - 1] == LastTagged(revs).value
  {
    if revs != [] {
      var k := |revs| - 1;
      assert revs == revs[..k] + [revs[k]];
      TaggedAppend(revs[..k], [revs[k]]);
      assert Tagged([revs[k]]) == (if revs[k] > 0 then [revs[k]] else []) by {
        assert [revs[k]][1..] == [];
      }
      TaggedLast(revs[..k]);
    }
  }

  /** Nothing is tagged exactly when every entry is 0. */
  lemma {:induction false} LastTaggedNone(revs: seq<nat>)
    ensures LastTagged(revs).None? <==> forall i :: 0 <= i < |revs| ==> revs[i] == 0
  {
    if revs != [] {
      var k := |revs| - 1;
      LastTaggedNone(revs[..k]);
      assert forall i :: 0 <= i < k ==> revs[..k][i] == revs[i];
    }
  }

  /** The newest tagged entry is an entry, is tagged, and nothing after it is. */
  lemma {:induction false} LastTaggedSome(revs: seq<nat>)
    requires LastTagged(revs).Some?
    ensures exists j :: 0 <= j < |revs| && revs[j] == LastTagged(revs).value > 0
                        && forall i :: j < i < |revs| ==> revs[i] == 0
  {
    var k := |revs| - 1;
    if revs[k] > 0 {
      assert revs[k] == LastTagged(revs).value > 0;
    } else {
      LastTaggedSome(revs[..k]);
      var j :| 0 <= j < k && revs[..k][j] == LastTagged(revs[..k]).value > 0
                && forall i :: j < i < k ==> revs[..k][i] == 0;
      assert revs[j] == LastTagged(revs).value > 0;
      assert forall i :: j < i < |revs| ==> revs[i] == 0 by {
        forall i | j < i < |revs| ensures revs[i] == 0 {
          if i < k { assert revs[i] == revs[..k][i]; }
        }
      }
    }
  }

  /** The four situations `calc_start_changelist` tells apart. */
  datatype StartCase =
    | TargetMissing                   // case 0: the target has no changes
    | Resume(rev: nat)                // case 1: the newest target change is tagged
    | NoRepInfo(numTargetRevs: nat)   // case 2: no target change is tagged
    | ResumeInterrupted(lastRep: nat) // case 3: an older target change is tagged

  /** The handlers are tried in the order empty, newest tagged, none tagged,
    * interrupted; exactly one applies. */
  function ClassifyTarget(revs: seq<nat>): (c: StartCase)
    ensures c.TargetMissing? <==> |revs| == 0
    ensures c.Resume? <==> |revs| > 0 && revs[|revs| - 1] > 0
    ensures c.Resume? ==> c.rev == revs[|revs| - 1]
    ensures c.NoRepInfo? <==> |revs| > 0 && forall i :: 0 <= i < |revs| ==> revs[i] == 0
    ensures c.NoRepInfo? ==> c.numTargetRevs == |revs|
    ensures c.ResumeInterrupted? <==>
              |revs| > 0 && revs[|revs| - 1] == 0 && exists i :: 0 <= i < |revs| && revs[i] > 0
    ensures c.ResumeInterrupted? ==> Some(c.lastRep) == LastTagged(revs)
  {
    TaggedLast(revs);
    LastTaggedNone(revs);
    if |revs| == 0 then TargetMissing
    else if revs[|revs| - 1] > 0 then Resume(revs[|revs| - 1])
    else
      var tagged := Tagged(revs);
      if |tagged| == 0 then NoRepInfo(|revs|)
      else ResumeInterrupted(tagged[|tagged| - 1])
  }

  /** The counter each case leaves behind, or the exception it raises. */
  function StartCounter(revs: seq<nat>, counter: int): Result<int>
  {
    match ClassifyTarget(revs)
    case TargetMissing => Ok(counter)
    case Resume(rev) =>
      if counter <= rev then Ok(rev)
      else Raise(ReplicationException, "src counter(" + IntToString(counter) + ") > last replicated rev (" + NatToString(rev) + ")")
    case NoRepInfo(n) =>
      if counter != 0 then Ok(counter)
      else Raise(ReplicationException, "Target has " + NatToString(n) + " revs but found no rep info.")
    case ResumeInterrupted(last) =>
      if counter == 0 then Raise(ReplicationException, "src counter is 0(default) while last replicated rev is " + NatToString(last))
      else if counter < last then
        Raise(ReplicationException, "src counter(" + IntToString(counter) + ") < last replicated rev(" + NatToString(last) + ")")
      else Ok(counter)
  }

  /** The resolver starts exactly when the counter is consistent with the
    * target: the target is empty, or the counter is at most a tagged newest
    * change, or nothing is tagged and the counter is set, or the counter is
    * set and at least the newest tagged revision. */
  lemma StartCounterOk(revs: seq<nat>, counter: int)
    ensures StartCounter(revs, counter).Ok? <==>
              || |revs| == 0
              || (revs[|revs| - 1] > 0 && counter <= revs[|revs| - 1])
              || (LastTagged(revs).None? && counter != 0)
              || (revs[|revs| - 1] == 0 && LastTagged(revs).Some? && counter != 0 && counter >= LastTagged(revs).value)
    ensures StartCounter(revs, counter).Err? ==> StartCounter(revs, counter).exc.kind == ReplicationException
  {
    LastTaggedNone(revs);
    match ClassifyTarget(revs)
    case TargetMissing =>
    case Resume(rev) =>
      assert LastTagged(revs).Some?;
    case NoRepInfo(n) =>
    case ResumeInterrupted(last) =>
  }

  /** On every path that does not raise the counter never goes back, and a
    * clean resume lands on the newest replicated revision. */
  lemma StartCounterMonotone(revs: seq<nat>, counter: int)
    ensures StartCounter(revs, counter).Ok? ==> StartCounter(revs, counter).value >= counter
    ensures (StartCounter(revs, counter).Ok? && |revs| > 0 && revs[|revs| - 1] > 0)
              ==> StartCounter(revs, counter).value == revs[|revs| - 1]
    ensures (StartCounter(revs, counter).Ok? && (|revs| == 0 || revs[|revs| - 1] == 0))
              ==> StartCounter(revs, counter).value == counter
  {
  }

  lemma TenAndEight()
    ensures NatToString(10) == "10" && IntToString(8) == "8"
  {
    assert DigitChar(1) == '1' && DigitChar(0) == '0' && DigitChar(8) == '8';
  }

  lemma {:induction false} InterruptedAtTen(revs: seq<nat>)
    requires |revs| == 11 && revs[10] == 0 && revs[9] == 10
    ensures ClassifyTarget(revs) == ResumeInterrupted(10)
  {
    assert revs[..10][9] == 10;
    assert LastTagged(revs) == Some(10);
  }

  /** The resume scenario of the sample-depot test: ten replicated changes
    * followed by one manual change, resumed with no counter, ... */
  lemma ResumeWithoutCounter(revs: seq<nat>)
    requires |revs| == 11 && revs[10] == 0 && revs[9] == 10
    ensures StartCounter(revs, 0) == Raise(ReplicationException, "src counter is 0(default) while last replicated rev is 10")
  {
    InterruptedAtTen(revs);
    TenAndEight();
  }

  /** ... with a counter behind the last replicated change, ... */
  lemma ResumeWithCounterBehind(revs: seq<nat>)
    requires |revs| == 11 && revs[10] == 0 && revs[9] == 10
    ensures StartCounter(revs, 8) == Raise(ReplicationException, "src counter(8) < last replicated rev(10)")
  {
    InterruptedAtTen(revs);
    TenAndEight();
    assert "src counter(" + IntToString(8) + ") < last replicated rev(" + NatToString(10) + ")"
        == "src counter(8) < last replicated rev(10)";
  }

  /** ... and with the counter at the last replicated change. */
  lemma ResumeWithCounterAtLast(revs: seq<nat>)
    requires |revs| == 11 && revs[10] == 0 && revs[9] == 10
    ensures StartCounter(revs, 10) == Ok(10)
  {
    InterruptedAtTen(revs);
  }

  /** As written, `len(filter(...))` is applied to a `filter` object, which
    * has no length in Python 3: every list whose newest entry is untagged
    * raises TypeError before cases 2 and 3 are reached. */
  function StartCounterAsWritten(revs: seq<nat>, counter: int): Result<int>
  {
    if |revs| > 0 && revs[|revs| - 1] == 0 then Raise(TypeError, "object of type 'filter' has no len()")
    else StartCounter(revs, counter)
  }

  /** The interrupted-resume case of the test above is unreachable as
    * written: the counter the test supplies is refused with a TypeError. */
  lemma FilterLenBlocksResume(revs: seq<nat>)
    requires |revs| == 11 && revs[10] == 0 && revs[9] == 10
    ensures StartCounterAsWritten(revs, 10).Err? && StartCounterAsWritten(revs, 10).exc.kind == TypeError
    ensures StartCounter(revs, 10) == Ok(10)
  {
    ResumeWithCounterAtLast(revs);
  }

  /** `self.source`: only its counter matters here. */
  class Source {
    var counter: int

    constructor(counter: int)
      ensures this.counter == counter
    {
      this.counter := counter;
    }
  }

  /** `Replication`: the resolver over a source whose counter it may move. */
  class Replication {
    const source: Source

    constructor(source: Source)
      ensures this.source == source
    {
      this.source := source;
    }

    /** Case 1: move the counter up to the newest replicated revision. */
    method ResumeReplication(revInLastChange: nat) returns (r: Result<()>)
      modifies source
      ensures r.Ok? <==> old(source.counter) <= revInLastChange
      ensures r.Ok? ==> source.counter == revInLastChange
      ensures r.Err? ==> source.counter == old(source.counter)
                         && r.exc == Exc(ReplicationException, "src counter(" + IntToString(source.counter) + ") > last replicated rev (" + NatToString(revInLastChange) + ")")
    {
      if source.counter <= revInLastChange {
        source.counter := revInLastChange;
        return Ok(());
      }
      return Raise(ReplicationException, "src counter(" + IntToString(source.counter) + ") > last replicated rev (" + NatToString(revInLastChange) + ")");
    }

    /** Case 2: a set counter is kept, an unset one is refused. */
    method HasNoRepInfo(numTargetRevs: nat) returns (r: Result<()>)
      ensures r.Ok? <==> source.counter != 0
      ensures r.Err? ==> r.exc == Exc(ReplicationException, "Target has " + NatToString(numTargetRevs) + " revs but found no rep info.")
    {
      if source.counter != 0 {
        return Ok(());
      }
      return Raise(ReplicationException, "Target has " + NatToString(numTargetRevs) + " revs but found no rep info.");
    }

    /** Case 3: the counter is kept if it is set and not behind. */
    method ResumeInterruptedReplication(lastRepRev: nat) returns (r: Result<()>)
      ensures r.Ok? <==> source.counter != 0 && source.counter >= lastRepRev
      ensures r.Err? && source.counter == 0 ==>
                r.exc == Exc(ReplicationException, "src counter is 0(default) while last replicated rev is " + NatToString(lastRepRev))
      ensures r.Err? && source.counter != 0 ==>
                r.exc == Exc(ReplicationException, "src counter(" + IntToString(source.counter) + ") < last replicated rev(" + NatToString(lastRepRev) + ")")
    {
      if source.counter == 0 {
        return Raise(ReplicationException, "src counter is 0(default) while last replicated rev is " + NatToString(lastRepRev));
      } else if source.counter < lastRepRev {
        return Raise(ReplicationException, "src counter(" + IntToString(source.counter) + ") < last replicated rev(" + NatToString(lastRepRev) + ")");
      }
      return Ok(());
    }

    /** `calc_start_changelist`, given the revisions the target decoded. The
      * list is filtered with a list filter (see `StartCounterAsWritten`). */
    method CalcStartChangelist(reppedRevs: seq<nat>) returns (r: Result<()>)
      modifies source
      ensures r.Ok? <==> StartCounter(reppedRevs, old(source.counter)).Ok?
      ensures r.Ok? ==> source.counter == StartCounter(reppedRevs, old(source.counter)).value
      ensures r.Err? ==> source.counter == old(source.counter) && r.exc == StartCounter(reppedRevs, old(source.counter)).exc
    {
      var numTargetRevs := |reppedRevs|;
      if |reppedRevs| == 0 {
        return Ok(());
      }
      if reppedRevs[|reppedRevs| - 1] > 0 {
        r := ResumeReplication(reppedRevs[|reppedRevs| - 1]);
        return;
      }
      var tagged := Tagged(reppedRevs);
      if |tagged| == 0 {
        r := HasNoRepInfo(numTargetRevs);
        return;
      }
      r := ResumeInterruptedReplication(tagged[|tagged| - 1]);
    }
  }
}
