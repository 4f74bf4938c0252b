/** The start-up sequence of an analysis run, composed from the planning rules in
    the order the runner applies them: select, decide overwrite, compute group
    statuses, reset, build jobs, queue the first work. */
module AnalysisPlan {
  import opened Wrappers
  import opened Measurement
  import opened AnalysisStatus
  import opened Seqs
  import opened JobPlanning

  /** Everything the runner has decided when it signals that jobs are ready. */
  datatype Plan = Plan(
    store: Measurements,        // the measurements after the status reset
    imageSets: seq<int>,        // the image sets to process
    overwrite: bool,            // the effective overwrite flag
    workerRunsPostGroup: bool,  // grouped run: workers run post-group themselves
    jobs: seq<seq<int>>,        // every job, in dispatch order
    dispatch: Dispatch)         // the initial work queue

  /** Jobs for the image sets to process: grouped jobs for a grouped or
      aggregating run, singleton jobs otherwise. Either way a permutation. */
  function BuildJobs(m: Measurements, todo: seq<int>, grouped: bool): (r: Result<seq<seq<int>>, PlanError>)
    ensures r.Success? ==> multiset(Flatten(r.value)) == multiset(todo)
    ensures !grouped ==>
      (r.Success? && Flatten(r.value) == todo && |r.value| == |todo| &&
       forall i :: 0 <= i < |todo| ==> r.value[i] == [todo[i]])
    ensures grouped ==> (r.Success? <==> forall n :: n in todo ==> Grouped(m, n))
    ensures grouped && r.Success? ==> GroupedJobsShape(m, todo, GroupedJobs(m, todo).value.0, r.value)
    ensures r.Failure? ==> Some(r.error) == MissingGrouping(m, todo)
  {
    if grouped then
      var grouping := GroupedJobs(m, todo);
      if grouping.Success? then Success(grouping.value.1) else Failure(grouping.error)
    else
      var jobs := SingletonJobs(todo);
      assert multiset(Flatten(jobs)) == multiset(todo);
      Success(jobs)
  }

  /** The verdict with a group status table agrees with the verdict read from the
      store directly, whenever the table is the one the runner computed. */
  lemma ResetRuleAgrees(m: Measurements, todo: seq<int>, overwrite: bool, hasGroups: bool, groupStatus: map<int, Status>)
    requires forall n :: n in todo ==> n in m.imageNumbers
    requires hasGroups && !overwrite ==>
      && (forall j :: 0 <= j < |m.imageNumbers| ==> ImageInt(m, GROUP_NUMBER, m.imageNumbers[j]).Some?)
      && (forall g :: g in groupStatus <==>
            exists j :: 0 <= j < |m.imageNumbers| && ImageInt(m, GROUP_NUMBER, m.imageNumbers[j]) == Some(g))
      && (forall g :: g in groupStatus ==> (groupStatus[g] == Done <==> GroupDone(m, g)))
    ensures forall n :: n in todo ==>
      ResetRule(m, n, overwrite, hasGroups, groupStatus) == NeedsReset(m, n, overwrite, hasGroups)
    ensures hasGroups && !overwrite ==> forall n :: n in todo ==>
      ImageInt(m, GROUP_NUMBER, n).Some? && ImageInt(m, GROUP_NUMBER, n).value in groupStatus
  {
    forall n | n in todo
      ensures ResetRule(m, n, overwrite, hasGroups, groupStatus) == NeedsReset(m, n, overwrite, hasGroups)
      ensures hasGroups && !overwrite ==> ImageInt(m, GROUP_NUMBER, n).Some? && ImageInt(m, GROUP_NUMBER, n).value in groupStatus
    {
      if hasGroups && !overwrite {
        var j :| 0 <= j < |m.imageNumbers| && m.imageNumbers[j] == n;
        var g := ImageInt(m, GROUP_NUMBER, n).value;
        assert g in groupStatus;
      }
    }
  }

  /** Status writes leave the grouping of every image set as it was. */
  lemma ResetKeepsGrouping(m: Measurements, ns: seq<int>, n: int)
    ensures ImageInt(SetStatus(m, ns, Unprocessed), GROUP_NUMBER, n) == ImageInt(m, GROUP_NUMBER, n)
    ensures ImageInt(SetStatus(m, ns, Unprocessed), GROUP_INDEX, n) == ImageInt(m, GROUP_INDEX, n)
  {
    var s := SetStatus(m, ns, Unprocessed);
    assert Get(s, IMAGE, GROUP_NUMBER, n) == Get(m, IMAGE, GROUP_NUMBER, n);
    assert Get(s, IMAGE, GROUP_INDEX, n) == Get(m, IMAGE, GROUP_INDEX, n);
  }

  /** The second half of planning, once the image sets, the overwrite flag and the
      group status table are known: reset, build the jobs, queue the first work. */
  method ResetAndSchedule(m: Measurements, todo: seq<int>, ow: bool, hasGroups: bool, grouped: bool,
                          groupStatus: map<int, Status>)
    returns (r: Result<Plan, PlanError>)
    requires forall n :: n in todo ==> n in m.imageNumbers
    requires hasGroups && !ow ==>
      && (forall j :: 0 <= j < |m.imageNumbers| ==> ImageInt(m, GROUP_NUMBER, m.imageNumbers[j]).Some?)
      && (forall g :: g in groupStatus <==>
            exists j :: 0 <= j < |m.imageNumbers| && ImageInt(m, GROUP_NUMBER, m.imageNumbers[j]) == Some(g))
      && (forall g :: g in groupStatus ==> (groupStatus[g] == Done <==> GroupDone(m, g)))
    ensures r.Success? ==>
      && r.value.overwrite == ow
      && r.value.workerRunsPostGroup == grouped
      && r.value.imageSets == NeedingReset(m, todo, ow, hasGroups)
      && r.value.store == SetStatus(m, r.value.imageSets, Unprocessed)
      && BuildJobs(r.value.store, r.value.imageSets, grouped) == Success(r.value.jobs)
      && StartDispatch(r.value.jobs, grouped) == Success(r.value.dispatch)
    ensures r.Failure? && (r.error.MissingGroupNumber? || r.error.MissingGroupIndex?) ==>
      r.error.imageNumber in m.imageNumbers && !Grouped(m, r.error.imageNumber)
    ensures r.Failure? && r.error == NoJobs ==> !grouped
    ensures r.Failure? ==> r.error != NoImageSets
    ensures !grouped && r.Failure? ==> r.error == NoJobs
    ensures grouped && (forall n :: n in m.imageNumbers ==> Grouped(m, n)) ==> r.Success?
    ensures !grouped ==> (r.Success? <==> |NeedingReset(m, todo, ow, hasGroups)| > 0)
  {
    ResetRuleAgrees(m, todo, ow, hasGroups, groupStatus);
    var store, reset := ResetImageSets(m, todo, ow, hasGroups, groupStatus);
    ResetSelectionAgrees(m, todo, ow, hasGroups, groupStatus);
    forall n ensures Grouped(store, n) == Grouped(m, n) {
      ResetKeepsGrouping(m, reset, n);
    }
    var jobs := BuildJobs(store, reset, grouped);
    if jobs.Failure? {
      assert jobs.error.imageNumber in reset;
      assert jobs.error.imageNumber in todo;
      return Failure(jobs.error);
    }
    var dispatch := StartDispatch(jobs.value, grouped);
    if dispatch.Failure? {
      return Failure(dispatch.error);
    }
    return Success(Plan(store, reset, ow, grouped, jobs.value, dispatch.value));
  }

  /** Plans a run over the image sets numbered `start..end` of store `m`. */
  method PlanAnalysis(m: Measurements, start: int, end: Option<int>, overwrite: bool,
                      requiresAggregation: bool, hasGroups: bool)
    returns (r: Result<Plan, PlanError>)
    ensures end.None? && |m.imageNumbers| == 0 ==> r == Failure(NoImageSets)
    ensures r.Success? ==>
      var selected := SelectImageSets(m, start, end);
      var ow := EffectiveOverwrite(overwrite, requiresAggregation, hasGroups, HasFeature(m, IMAGE, STATUS));
      && selected.Success?
      && r.value.overwrite == ow
      && r.value.workerRunsPostGroup == (hasGroups || requiresAggregation)
      && r.value.imageSets == NeedingReset(m, selected.value, ow, hasGroups)
      && r.value.store == SetStatus(m, r.value.imageSets, Unprocessed)
      && BuildJobs(r.value.store, r.value.imageSets, r.value.workerRunsPostGroup) == Success(r.value.jobs)
      && StartDispatch(r.value.jobs, r.value.workerRunsPostGroup) == Success(r.value.dispatch)
    ensures r.Failure? && (r.error.MissingGroupNumber? || r.error.MissingGroupIndex?) ==>
      r.error.imageNumber in m.imageNumbers && !Grouped(m, r.error.imageNumber)
    ensures r.Failure? && r.error == NoJobs ==> !hasGroups && !requiresAggregation
    ensures r.Failure? && r.error == NoImageSets ==> end.None? && |m.imageNumbers| == 0
    ensures !hasGroups && !requiresAggregation && r.Failure? ==> r.error == NoImageSets || r.error == NoJobs
    ensures !hasGroups && !requiresAggregation && (end.Some? || |m.imageNumbers| > 0) ==>
      var ow := EffectiveOverwrite(overwrite, requiresAggregation, hasGroups, HasFeature(m, IMAGE, STATUS));
      (r.Success? <==> |NeedingReset(m, SelectImageSets(m, start, end).value, ow, hasGroups)| > 0)
    ensures ((end.Some? || |m.imageNumbers| > 0) && (hasGroups || requiresAggregation) &&
             (forall n :: n in m.imageNumbers ==> Grouped(m, n))) ==> r.Success?
  {
    var selected := SelectImageSets(m, start, end);
    if selected.Failure? {
      return Failure(selected.error);
    }
    var todo := selected.value;
    var ow := EffectiveOverwrite(overwrite, requiresAggregation, hasGroups, HasFeature(m, IMAGE, STATUS));
    var groupStatus: map<int, Status> := map[];
    if hasGroups && !ow {
      var statuses := GroupStatuses(m);
      if statuses.Failure? {
        ghost var j :| 0 <= j < |m.imageNumbers| && ImageInt(m, GROUP_NUMBER, m.imageNumbers[j]).None? &&
                       statuses.error == MissingGroupNumber(m.imageNumbers[j]);
        assert !Grouped(m, m.imageNumbers[j]);
        return Failure(statuses.error);
      }
      groupStatus := statuses.value;
    }
    r := ResetAndSchedule(m, todo, ow, hasGroups, hasGroups || requiresAggregation, groupStatus);
  }
}
