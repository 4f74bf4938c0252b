/** The planned run, end to end: once every job's measurements have come back
    and been merged, the runner's completion test holds. */
module AnalysisRun {
  import opened Measurement
  import opened AnalysisStatus
  import opened Seqs
  import opened JobPlanning
  import opened AnalysisPlan
  import opened MeasurementMerge

  /** Every image set to process lies in some job. */
  lemma JobsCoverImageSets(m: Measurements, todo: seq<int>, grouped: bool)
    requires BuildJobs(m, todo, grouped).Success?
    ensures var jobs := BuildJobs(m, todo, grouped).value;
      forall n :: n in todo ==> exists i :: 0 <= i < |jobs| && n in jobs[i]
  {
    var jobs := BuildJobs(m, todo, grouped).value;
    forall n | n in todo ensures exists i :: 0 <= i < |jobs| && n in jobs[i] {
      assert multiset(todo)[n] > 0;
      assert n in multiset(Flatten(jobs));
      FlattenMembership(jobs, n);
    }
  }

  /** Merging the returned measurements of every job, in any order of arrival given by
      `batches`, marks every image set of the plan Done. */
  lemma PlannedRunCompletes(m: Measurements, todo: seq<int>, grouped: bool,
                            stores: seq<Measurements>, batches: seq<Batch>)
    requires BuildJobs(m, todo, grouped).Success?
    requires MergeChain(stores, batches)
    requires forall j :: 0 <= j < |BuildJobs(m, todo, grouped).value| ==>
      exists i :: 0 <= i < |batches| && batches[i].imageNumbers == BuildJobs(m, todo, grouped).value[j]
    ensures IsComplete(stores[|batches|], todo)
  {
    var jobs := BuildJobs(m, todo, grouped).value;
    JobsCoverImageSets(m, todo, grouped);
    forall n | n in todo ensures exists i :: 0 <= i < |batches| && n in batches[i].imageNumbers {
      var j :| 0 <= j < |jobs| && n in jobs[j];
      var i :| 0 <= i < |batches| && batches[i].imageNumbers == jobs[j];
      assert n in batches[i].imageNumbers;
    }
    RunCompletes(stores, batches, todo);
  }
}
