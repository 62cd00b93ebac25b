/** WorkflowRepository: publishing a new, immutable version of a workflow
    definition. The version number follows the latest stored one, and the
    steps are normalised: disabled ones dropped, the rest ordered by their
    StepOrder (stably), renumbered 1..N and stamped with the workflow's id
    and version. The database rows are a sequence parameter; the insert is
    not modelled. */
module WorkflowRepository {
  import opened Bytes

  /** A Guid; 0 stands for Guid.Empty. */
  type Guid = nat

  const EmptyGuid: Guid := 0

  datatype WorkflowStep = WorkflowStep(
    id: Guid,
    workflowId: Guid,
    workflowVersion: int,
    stepOrder: int,
    name: string,
    actionType: string,
    actionDataJson: string,
    isEnabled: bool)

  /** A Workflows row; the timestamps are left out. */
  datatype WorkflowRow = WorkflowRow(id: Guid, name: string, version: int, isActive: bool)

  // ---------------------------------------------------------------------
  // GetLatestVersionAsync
  // ---------------------------------------------------------------------

  /** The highest Version among the rows of the workflow, or 0 when it has
      none (the `?? 0` of FirstOrDefault). */
  function LatestVersion(rows: seq<WorkflowRow>, workflowId: Guid): (v: int)
    ensures (forall i :: 0 <= i < |rows| ==> rows[i].id != workflowId) ==> v == 0
    ensures (exists i :: 0 <= i < |rows| && rows[i].id == workflowId) ==>
      (exists i :: 0 <= i < |rows| && rows[i].id == workflowId && rows[i].version == v)
    ensures forall i :: 0 <= i < |rows| && rows[i].id == workflowId ==> rows[i].version <= v
  {
    if rows == [] then 0
    else
      var rest := LatestVersion(rows[1..], workflowId);
      var restHasRow := exists i :: 1 <= i < |rows| && rows[i].id == workflowId;
      if rows[0].id != workflowId then rest
      else if !restHasRow || rows[0].version >= rest then rows[0].version
      else rest
  }

  // ---------------------------------------------------------------------
  // The version rule
  // ---------------------------------------------------------------------

  /** `latest + 1` in unchecked 32-bit arithmetic, floored at 1. */
  function NextVersion(latest: int): (v: int)
    requires IsInt32(latest)
    ensures 1 <= v && IsInt32(v)
    ensures 0 <= latest < Int32Max ==> v == latest + 1
    ensures latest < 0 || latest == Int32Max ==> v == 1
  {
    var next := WrapInt32(latest + 1);
    if next <= 0 then 1 else next
  }

  // ---------------------------------------------------------------------
  // Step normalisation
  // ---------------------------------------------------------------------

  /** Where(s => s.IsEnabled). */
  function EnabledSteps(steps: seq<WorkflowStep>): (r: seq<WorkflowStep>)
    ensures |r| <= |steps|
    ensures forall i :: 0 <= i < |r| ==> r[i].isEnabled
    ensures forall x :: multiset(r)[x] == if x.isEnabled then multiset(steps)[x] else 0
  {
    if steps == [] then []
    else
      var init := EnabledSteps(steps[..|steps| - 1]);
      var last := steps[|steps| - 1];
      assert steps == steps[..|steps| - 1] + [last];
      if last.isEnabled then init + [last] else init
  }

  /** s is what remains of t after deleting some of its elements, in t's
      order (matched from the end, which loses nothing). */
  ghost predicate IsSubsequence(s: seq<WorkflowStep>, t: seq<WorkflowStep>)
    decreases |t|
  {
    if s == [] then true
    else if t == [] then false
    else if s[|s| - 1] == t[|t| - 1] then IsSubsequence(s[..|s| - 1], t[..|t| - 1])
    else IsSubsequence(s, t[..|t| - 1])
  }

  ghost predicate SortedByStepOrder(s: seq<WorkflowStep>) {
    forall i, j :: 0 <= i < j < |s| ==> s[i].stepOrder <= s[j].stepOrder
  }

  /** The last step of a sorted sequence has the greatest StepOrder. */
  lemma LastIsGreatest(s: seq<WorkflowStep>)
    requires SortedByStepOrder(s) && s != []
    ensures forall e :: e in s ==> e.stepOrder <= s[|s| - 1].stepOrder
  {
    forall e | e in s ensures e.stepOrder <= s[|s| - 1].stepOrder {
      var m :| 0 <= m < |s| && s[m] == e;
    }
  }

  /** Puts x after every element whose StepOrder is not greater than its own. */
  function InsertByStepOrder(x: WorkflowStep, s: seq<WorkflowStep>): (r: seq<WorkflowStep>)
    requires SortedByStepOrder(s)
    ensures |r| == |s| + 1
    ensures forall e :: e in r <==> e in s || e == x
    ensures SortedByStepOrder(r)
    ensures multiset(r) == multiset(s) + multiset{x}
  {
    if s == [] then [x]
    else if s[|s| - 1].stepOrder <= x.stepOrder then
      LastIsGreatest(s);
      s + [x]
    else
      var init := s[..|s| - 1];
      var last := s[|s| - 1];
      assert s == init + [last];
      var r := InsertByStepOrder(x, init);
      LastIsGreatest(s);
      assert forall e :: e in r ==> e.stepOrder <= last.stepOrder;
      r + [last]
  }

  /** OrderBy(s => s.StepOrder): a stable sort, here by insertion from the
      front of the input. */
  function SortByStepOrder(s: seq<WorkflowStep>): (r: seq<WorkflowStep>)
    ensures |r| == |s|
    ensures forall e :: e in r <==> e in s
    ensures SortedByStepOrder(r)
    ensures multiset(r) == multiset(s)
  {
    if s == [] then []
    else
      assert s == s[..|s| - 1] + [s[|s| - 1]];
      InsertByStepOrder(s[|s| - 1], SortByStepOrder(s[..|s| - 1]))
  }

  /** The steps with a given StepOrder, in their order in s. */
  function WithStepOrder(s: seq<WorkflowStep>, k: int): seq<WorkflowStep> {
    if s == [] then []
    else WithStepOrder(s[..|s| - 1], k) + (if s[|s| - 1].stepOrder == k then [s[|s| - 1]] else [])
  }

  /** The Select((s, idx) => ...) lambda: a fresh id for an empty one, the
      workflow id and version, and the position as StepOrder. */
  function Stamp(step: WorkflowStep, idx: nat, workflowId: Guid, version: int, freshId: Guid): WorkflowStep {
    step.(
      id := if step.id == EmptyGuid then freshId else step.id,
      workflowId := workflowId,
      workflowVersion := version,
      stepOrder := idx + 1)
  }

  /** The whole pipeline; freshIds[idx] is the Guid.NewGuid() the lambda
      draws for the idx-th normalised step. */
  function NormalizeSteps(steps: seq<WorkflowStep>, workflowId: Guid, version: int, freshIds: seq<Guid>): (r: seq<WorkflowStep>)
    requires |freshIds| >= |steps|
  {
    var sorted := SortByStepOrder(EnabledSteps(steps));
    seq(|sorted|, idx requires 0 <= idx < |sorted| => Stamp(sorted[idx], idx, workflowId, version, freshIds[idx]))
  }

  // ---------------------------------------------------------------------
  // PublishNewVersionAsync
  // ---------------------------------------------------------------------

  /** The locals workflowId and nextVersion are reassigned as in PublishNewVersionAsync;
      newWorkflowId is the Guid.NewGuid() drawn for an empty workflow id. */
  method PublishNewVersion(
    rows: seq<WorkflowRow>, workflowId: Guid, name: string, steps: seq<WorkflowStep>, isActive: bool,
    newWorkflowId: Guid, freshStepIds: seq<Guid>)
    returns (publishedId: Guid, version: int, wf: WorkflowRow, normalized: seq<WorkflowStep>)
    requires forall i :: 0 <= i < |rows| ==> IsInt32(rows[i].version)
    requires newWorkflowId != EmptyGuid
    requires |freshStepIds| >= |steps|
    ensures publishedId == (if workflowId == EmptyGuid then newWorkflowId else workflowId)
    ensures version == NextVersion(LatestVersion(rows, publishedId))
    ensures wf == WorkflowRow(publishedId, name, version, isActive)
    ensures normalized == NormalizeSteps(steps, publishedId, version, freshStepIds)
  {
    var id := workflowId;
    if id == EmptyGuid {
      id := newWorkflowId;
    }
    var latest := LatestVersion(rows, id);
    assert IsInt32(latest) by {
      if exists i :: 0 <= i < |rows| && rows[i].id == id {
        var i :| 0 <= i < |rows| && rows[i].id == id && rows[i].version == latest;
      }
    }
    var nextVersion := WrapInt32(latest + 1);
    if nextVersion <= 0 {
      nextVersion := 1;
    }
    wf := WorkflowRow(id, name, nextVersion, isActive);
    normalized := NormalizeSteps(steps, id, nextVersion, freshStepIds);
    return id, nextVersion, wf, normalized;
  }

  // ---------------------------------------------------------------------
  // Properties
  // ---------------------------------------------------------------------

  /** A workflow with no stored rows is published as version 1. */
  lemma FirstVersionIsOne(rows: seq<WorkflowRow>, workflowId: Guid)
    requires forall i :: 0 <= i < |rows| ==> rows[i].id != workflowId
    ensures NextVersion(LatestVersion(rows, workflowId)) == 1
  {
  }

  lemma WithStepOrderSnoc(t: seq<WorkflowStep>, e: WorkflowStep, k: int)
    ensures WithStepOrder(t + [e], k) == WithStepOrder(t, k) + (if e.stepOrder == k then [e] else [])
    ensures e.stepOrder != k ==> WithStepOrder(t + [e], k) == WithStepOrder(t, k)
  {
    assert (t + [e])[..|t|] == t;
    if e.stepOrder != k {
      assert WithStepOrder(t, k) + [] == WithStepOrder(t, k);
    }
  }

  lemma EnabledStepsSnoc(t: seq<WorkflowStep>, e: WorkflowStep)
    ensures e.isEnabled ==> EnabledSteps(t + [e]) == EnabledSteps(t) + [e]
    ensures !e.isEnabled ==> EnabledSteps(t + [e]) == EnabledSteps(t)
  {
    assert (t + [e])[..|t|] == t;
  }

  /** Where keeps the enabled steps in the order the caller gave them. */
  lemma {:induction false} EnabledStepsInOrder(steps: seq<WorkflowStep>)
    ensures IsSubsequence(EnabledSteps(steps), steps)
  {
    if steps != [] {
      var init := steps[..|steps| - 1];
      var last := steps[|steps| - 1];
      var r := EnabledSteps(steps);
      EnabledStepsInOrder(init);
      if last.isEnabled {
        assert r[..|r| - 1] == EnabledSteps(init);
      }
    }
  }

  /** A subsequence holds no element more often than the sequence it comes from. */
  lemma {:induction false} SubsequenceCounts(s: seq<WorkflowStep>, t: seq<WorkflowStep>)
    requires IsSubsequence(s, t)
    ensures forall x :: multiset(s)[x] <= multiset(t)[x]
    decreases |t|
  {
    if s != [] {
      var ti := t[..|t| - 1];
      var tl := t[|t| - 1];
      assert t == ti + [tl];
      if s[|s| - 1] == tl {
        var si := s[..|s| - 1];
        assert s == si + [tl];
        SubsequenceCounts(si, ti);
      } else {
        SubsequenceCounts(s, ti);
      }
    }
  }

  /** Where's result is pinned down by the three facts above: the only
      subsequence of the steps that is all enabled and holds every enabled
      step as often as the input does is EnabledSteps. */
  lemma {:induction false} EnabledStepsUnique(steps: seq<WorkflowStep>, r: seq<WorkflowStep>)
    requires IsSubsequence(r, steps)
    requires forall i :: 0 <= i < |r| ==> r[i].isEnabled
    requires forall x: WorkflowStep :: x.isEnabled ==> multiset(r)[x] == multiset(steps)[x]
    ensures r == EnabledSteps(steps)
    decreases |steps|
  {
    if steps != [] {
      var init := steps[..|steps| - 1];
      var last := steps[|steps| - 1];
      assert steps == init + [last];
      if last.isEnabled {
        assert r != [] && r[|r| - 1] == last by {
          if r != [] && r[|r| - 1] != last {
            SubsequenceCounts(r, init);
          }
        }
        var ri := r[..|r| - 1];
        assert r == ri + [last];
        EnabledStepsUnique(init, ri);
      } else {
        EnabledStepsUnique(init, r);
      }
    }
  }

  /** Dropping the disabled steps and picking the steps with one StepOrder
      can be done in either order. */
  lemma {:induction false} EnabledWithStepOrderCommute(steps: seq<WorkflowStep>, k: int)
    ensures WithStepOrder(EnabledSteps(steps), k) == EnabledSteps(WithStepOrder(steps, k))
  {
    if steps != [] {
      var init := steps[..|steps| - 1];
      var last := steps[|steps| - 1];
      EnabledWithStepOrderCommute(init, k);
      var e := EnabledSteps(init);
      var w := WithStepOrder(init, k);
      assert EnabledSteps(steps) == if last.isEnabled then e + [last] else e;
      assert WithStepOrder(steps, k) == if last.stepOrder == k then w + [last] else w by {
        if last.stepOrder != k {
          assert w + [] == w;
        }
      }
      if last.isEnabled {
        WithStepOrderSnoc(e, last, k);
      }
      if last.stepOrder == k {
        EnabledStepsSnoc(w, last);
      }
    }
  }

  /** Inserting keeps, for every StepOrder, the order of the steps that have it:
      x lands after all those already present. */
  lemma {:induction false} InsertKeepsTies(x: WorkflowStep, s: seq<WorkflowStep>, k: int)
    requires SortedByStepOrder(s)
    ensures WithStepOrder(InsertByStepOrder(x, s), k) ==
      WithStepOrder(s, k) + (if x.stepOrder == k then [x] else [])
  {
    if s == [] {
      WithStepOrderSnoc([], x, k);
    } else if s[|s| - 1].stepOrder <= x.stepOrder {
      WithStepOrderSnoc(s, x, k);
    } else {
      InsertKeepsTies(x, s[..|s| - 1], k);
      InsertBeforeLastKeepsTies(x, s, k);
    }
  }

  /** The inductive step of InsertKeepsTies, where x goes before the last step. */
  lemma InsertBeforeLastKeepsTies(x: WorkflowStep, s: seq<WorkflowStep>, k: int)
    requires SortedByStepOrder(s) && s != [] && x.stepOrder < s[|s| - 1].stepOrder
    requires WithStepOrder(InsertByStepOrder(x, s[..|s| - 1]), k) ==
      WithStepOrder(s[..|s| - 1], k) + (if x.stepOrder == k then [x] else [])
    ensures WithStepOrder(InsertByStepOrder(x, s), k) ==
      WithStepOrder(s, k) + (if x.stepOrder == k then [x] else [])
  {
    var init := s[..|s| - 1];
    var last := s[|s| - 1];
    var r0 := InsertByStepOrder(x, init);
    var xs := if x.stepOrder == k then [x] else [];
    var tail := if last.stepOrder == k then [last] else [];
    // x sorts before last, so at most one of them has StepOrder k
    assert xs == [] || tail == [];
    calc {
      WithStepOrder(InsertByStepOrder(x, s), k);
      WithStepOrder(r0 + [last], k);
      { WithStepOrderSnoc(r0, last, k); }
      WithStepOrder(r0, k) + tail;
      WithStepOrder(init, k) + xs + tail;
      WithStepOrder(init, k) + tail + xs;
      WithStepOrder(s, k) + xs;
    }
  }

  /** The sort is stable: steps with equal StepOrder keep their input order. */
  lemma {:induction false} SortIsStable(s: seq<WorkflowStep>, k: int)
    ensures WithStepOrder(SortByStepOrder(s), k) == WithStepOrder(s, k)
  {
    if s != [] {
      var init := s[..|s| - 1];
      SortIsStable(init, k);
      InsertKeepsTies(s[|s| - 1], SortByStepOrder(init), k);
    }
  }

  /** End to end: the steps that share a StepOrder reach the numbering as
      exactly the caller's enabled steps with that StepOrder, in the caller's
      order. */
  lemma TiesKeepInputOrder(steps: seq<WorkflowStep>, k: int)
    ensures WithStepOrder(SortByStepOrder(EnabledSteps(steps)), k) == EnabledSteps(WithStepOrder(steps, k))
  {
    SortIsStable(EnabledSteps(steps), k);
    EnabledWithStepOrderCommute(steps, k);
  }

  /** The normalised steps: the enabled input steps in the order
      SortByStepOrder gives them (stable, see TiesKeepInputOrder), numbered 1..N, with the workflow's id and version, a non-empty
      id each, and every other field as it was. */
  lemma NormalizeStepsSpec(steps: seq<WorkflowStep>, workflowId: Guid, version: int, freshIds: seq<Guid>, i: nat)
    requires |freshIds| >= |steps|
    requires forall j :: 0 <= j < |freshIds| ==> freshIds[j] != EmptyGuid
    requires i < |SortByStepOrder(EnabledSteps(steps))|
    ensures |NormalizeSteps(steps, workflowId, version, freshIds)| == |SortByStepOrder(EnabledSteps(steps))|
    ensures var sorted := SortByStepOrder(EnabledSteps(steps));
      var step := NormalizeSteps(steps, workflowId, version, freshIds)[i];
      && step.stepOrder == i + 1
      && step.workflowId == workflowId && step.workflowVersion == version
      && step.id != EmptyGuid
      && (sorted[i].id != EmptyGuid ==> step.id == sorted[i].id)
      && step.name == sorted[i].name && step.actionType == sorted[i].actionType
      && step.actionDataJson == sorted[i].actionDataJson && step.isEnabled
  {
    var enabled := EnabledSteps(steps);
    var sorted := SortByStepOrder(enabled);
    assert sorted[i] in enabled;
  }
}
