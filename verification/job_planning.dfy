/** The planning rules the analysis runner applies before any work is dispatched:
    which image sets to process, which of them to reset, and how they are split
    into jobs. */
module JobPlanning {
  import opened Wrappers
  import opened Measurement
  import opened AnalysisStatus
  import opened Seqs
  import opened Sorting

  datatype PlanError =
    | NoImageSets                         // the end defaults to the last image number of an empty store
    | MissingGroupNumber(imageNumber: int) // an image set has no integer Group_Number
    | MissingGroupIndex(imageNumber: int)  // an image set has no integer Group_Index
    | NoJobs                              // ungrouped run with nothing to process: there is no first job

  /* ---------------------------------------------------------------------- */
  /* Range selection                                                        */

  /** The image sets to process: stored image numbers in `[start, end]`, in stored
      order; a missing `end` means the last stored image number. */
  function SelectImageSets(m: Measurements, start: int, end: Option<int>): (r: Result<seq<int>, PlanError>)
    ensures r.Failure? <==> end.None? && |m.imageNumbers| == 0
    ensures r.Failure? ==> r.error == NoImageSets
    ensures r.Success? ==>
      var last := if end.Some? then end.value else m.imageNumbers[|m.imageNumbers| - 1];
      && IsSubsequence(r.value, m.imageNumbers)
      && (forall x :: x in r.value <==> x in m.imageNumbers && start <= x <= last)
      && (forall x :: multiset(r.value)[x] == if start <= x <= last then multiset(m.imageNumbers)[x] else 0)
  {
    if end.None? && |m.imageNumbers| == 0 then Failure(NoImageSets)
    else
      var last := if end.Some? then end.value else m.imageNumbers[|m.imageNumbers| - 1];
      Success(Filter(m.imageNumbers, x => start <= x <= last))
  }

  /* ---------------------------------------------------------------------- */
  /* Overwrite                                                              */

  /** The overwrite flag the run actually uses: forced by aggregation, and by
      grouping when no status has ever been stored; otherwise the caller's. */
  function EffectiveOverwrite(overwrite: bool, requiresAggregation: bool, hasGroups: bool, hasStatusFeature: bool): (r: bool)
    ensures r <==> overwrite || requiresAggregation || (hasGroups && !hasStatusFeature)
    ensures !requiresAggregation && !(hasGroups && !hasStatusFeature) ==> r == overwrite
  {
    if requiresAggregation then true
    else if hasGroups && !overwrite && !hasStatusFeature then true
    else overwrite
  }

  /* ---------------------------------------------------------------------- */
  /* Group status                                                           */

  /** Every stored image set of group `g` is Done. */
  predicate GroupDone(m: Measurements, g: int) {
    forall j :: 0 <= j < |m.imageNumbers| && ImageInt(m, GROUP_NUMBER, m.imageNumbers[j]) == Some(g) ==>
      IsDone(m, m.imageNumbers[j])
  }

  /** The status of every group that occurs among the stored image sets: Done when
      all its image sets are Done, Unprocessed otherwise. Fails on the first stored
      image set without a group number. */
  method GroupStatuses(m: Measurements) returns (r: Result<map<int, Status>, PlanError>)
    ensures r.Success? <==> forall j :: 0 <= j < |m.imageNumbers| ==> ImageInt(m, GROUP_NUMBER, m.imageNumbers[j]).Some?
    ensures r.Failure? ==>
      (exists j :: 0 <= j < |m.imageNumbers| && ImageInt(m, GROUP_NUMBER, m.imageNumbers[j]).None? &&
                   r.error == MissingGroupNumber(m.imageNumbers[j]))
    ensures r.Success? ==> forall g :: g in r.value <==>
      exists j :: 0 <= j < |m.imageNumbers| && ImageInt(m, GROUP_NUMBER, m.imageNumbers[j]) == Some(g)
    ensures r.Success? ==> forall g :: g in r.value ==>
      (r.value[g] == Done || r.value[g] == Unprocessed) && (r.value[g] == Done <==> GroupDone(m, g))
  {
    var status: map<int, Status> := map[];
    var i := 0;
    while i < |m.imageNumbers|
      invariant 0 <= i <= |m.imageNumbers|
      invariant forall j :: 0 <= j < i ==> ImageInt(m, GROUP_NUMBER, m.imageNumbers[j]).Some?
      invariant forall g :: g in status <==>
        exists j :: 0 <= j < i && ImageInt(m, GROUP_NUMBER, m.imageNumbers[j]) == Some(g)
      invariant forall g :: g in status ==> status[g] == Done || status[g] == Unprocessed
      invariant forall g :: g in status ==> (status[g] == Done <==>
        forall j :: 0 <= j < i && ImageInt(m, GROUP_NUMBER, m.imageNumbers[j]) == Some(g) ==> IsDone(m, m.imageNumbers[j]))
    {
      var n := m.imageNumbers[i];
      match ImageInt(m, GROUP_NUMBER, n) {
        case None =>
          return Failure(MissingGroupNumber(n));
        case Some(g) =>
          if !IsDone(m, n) {
            status := status[g := Unprocessed];
          } else if g !in status {
            status := status[g := Done];
          }
      }
      i := i + 1;
    }
    return Success(status);
  }

  /* ---------------------------------------------------------------------- */
  /* Reset                                                                  */

  /** The group of image set `n` is known and all of its image sets are Done. */
  predicate GroupOfDone(m: Measurements, n: int) {
    match ImageInt(m, GROUP_NUMBER, n)
    case Some(g) => GroupDone(m, g)
    case None => false
  }

  /** Whether image set `n` must be (re)processed, judged on the store as loaded:
      overwrite, no Done status, or (with groups) a group that is not all Done. */
  predicate NeedsReset(m: Measurements, n: int, overwrite: bool, hasGroups: bool) {
    overwrite || !IsDone(m, n) || (hasGroups && !GroupOfDone(m, n))
  }

  /** The same rule read against a table of group statuses. */
  predicate ResetRule(m: Measurements, n: int, overwrite: bool, hasGroups: bool, groupStatus: map<int, Status>) {
    overwrite || !IsDone(m, n) ||
    (hasGroups && !(ImageInt(m, GROUP_NUMBER, n).Some? && ImageInt(m, GROUP_NUMBER, n).value in groupStatus
                    && groupStatus[ImageInt(m, GROUP_NUMBER, n).value] == Done))
  }

  /** The image sets of `todo` that need a reset, in order. */
  function NeedingReset(m: Measurements, todo: seq<int>, overwrite: bool, hasGroups: bool): seq<int> {
    Filter(todo, n => NeedsReset(m, n, overwrite, hasGroups))
  }

  /** With overwrite in effect every image set to process is reset, in order. */
  lemma {:induction false} OverwriteResetsAll(m: Measurements, todo: seq<int>, hasGroups: bool)
    ensures NeedingReset(m, todo, true, hasGroups) == todo
    decreases |todo|
  {
    if |todo| > 0 {
      var init := todo[..|todo| - 1];
      assert todo == init + [todo[|todo| - 1]];
      OverwriteResetsAll(m, init, hasGroups);
    }
  }

  /** The image sets of `todo` the rule with a group status table selects, in order. */
  function ResetSelection(m: Measurements, todo: seq<int>, overwrite: bool, hasGroups: bool,
                          groupStatus: map<int, Status>): seq<int> {
    Filter(todo, n => ResetRule(m, n, overwrite, hasGroups, groupStatus))
  }

  /** Where the two verdicts agree, so do the selections. */
  lemma ResetSelectionAgrees(m: Measurements, todo: seq<int>, overwrite: bool, hasGroups: bool,
                             groupStatus: map<int, Status>)
    requires forall n :: n in todo ==>
      ResetRule(m, n, overwrite, hasGroups, groupStatus) == NeedsReset(m, n, overwrite, hasGroups)
    ensures ResetSelection(m, todo, overwrite, hasGroups, groupStatus) == NeedingReset(m, todo, overwrite, hasGroups)
  {
    FilterCongruent(todo, n => ResetRule(m, n, overwrite, hasGroups, groupStatus), n => NeedsReset(m, n, overwrite, hasGroups));
  }

    /** The runner's test for one image set, read from the store as it stands. */
  method DecideReset(store: Measurements, n: int, overwrite: bool, hasGroups: bool, groupStatus: map<int, Status>)
    returns (needsReset: bool)
    requires hasGroups && !overwrite ==>
      ImageInt(store, GROUP_NUMBER, n).Some? && ImageInt(store, GROUP_NUMBER, n).value in groupStatus
    ensures needsReset <==>
      (overwrite || !IsDone(store, n) || (hasGroups && groupStatus[ImageInt(store, GROUP_NUMBER, n).value] != Done))
  {
    needsReset := false;
    if overwrite || Get(store, IMAGE, STATUS, n).None? || Get(store, IMAGE, STATUS, n) != Some(StatusValue(Done)) {
      needsReset := true;
    } else if hasGroups {
      var g := ImageInt(store, GROUP_NUMBER, n).value;
      if groupStatus[g] != Done {
        needsReset := true;
      }
    }
  }

/** Walks the image sets in order; each one that needs a reset gets status
      Unprocessed and is kept, in order, for processing. */
  method ResetImageSets(m: Measurements, todo: seq<int>, overwrite: bool, hasGroups: bool, groupStatus: map<int, Status>)
    returns (store: Measurements, reset: seq<int>)
    requires hasGroups && !overwrite ==> forall n :: n in todo ==>
      ImageInt(m, GROUP_NUMBER, n).Some? && ImageInt(m, GROUP_NUMBER, n).value in groupStatus
    ensures reset == ResetSelection(m, todo, overwrite, hasGroups, groupStatus)
    ensures store == SetStatus(m, reset, Unprocessed)
  {
    store := m;
    reset := [];
    for i := 0 to |todo|
      invariant reset == ResetSelection(m, todo[..i], overwrite, hasGroups, groupStatus)
      invariant store == SetStatus(m, reset, Unprocessed)
    {
      var n := todo[i];
      ResetStep(m, todo, i, overwrite, hasGroups, groupStatus);
      var needsReset := DecideReset(store, n, overwrite, hasGroups, groupStatus);
      if needsReset {
        SetStatusSnoc(m, reset, n, Unprocessed);
        store := Put(store, IMAGE, STATUS, n, Some(StatusValue(Unprocessed)));
        reset := reset + [n];
      }
    }
    assert todo[..|todo|] == todo;
  }

  /** One step of the reset walk: the verdict read from the partly reset store is
      the verdict on the store as loaded, and the kept list grows accordingly. */
  lemma ResetStep(m: Measurements, todo: seq<int>, i: int, overwrite: bool, hasGroups: bool, groupStatus: map<int, Status>)
    requires 0 <= i < |todo|
    ensures var reset := ResetSelection(m, todo[..i], overwrite, hasGroups, groupStatus);
      && ImageInt(SetStatus(m, reset, Unprocessed), GROUP_NUMBER, todo[i]) == ImageInt(m, GROUP_NUMBER, todo[i])
      && ResetRule(SetStatus(m, reset, Unprocessed), todo[i], overwrite, hasGroups, groupStatus)
         == ResetRule(m, todo[i], overwrite, hasGroups, groupStatus)
      && ResetSelection(m, todo[..i + 1], overwrite, hasGroups, groupStatus)
         == reset + (if ResetRule(m, todo[i], overwrite, hasGroups, groupStatus) then [todo[i]] else [])
  {
    var reset := ResetSelection(m, todo[..i], overwrite, hasGroups, groupStatus);
    ResetReadsLoadedStore(m, reset, todo[i], overwrite, hasGroups, groupStatus);
    TakeOneMore(todo, i);
    FilterSnoc(todo[..i], todo[i], n => ResetRule(m, n, overwrite, hasGroups, groupStatus));
  }

  /** Reading the store while resetting gives the same verdict as reading it as
      loaded: a reset image set is no longer Done, and that is a reason to reset it. */
  lemma ResetReadsLoadedStore(m: Measurements, reset: seq<int>, n: int, overwrite: bool, hasGroups: bool,
                              groupStatus: map<int, Status>)
    requires forall x :: x in reset ==> ResetRule(m, x, overwrite, hasGroups, groupStatus)
    ensures var store := SetStatus(m, reset, Unprocessed);
      && ImageInt(store, GROUP_NUMBER, n) == ImageInt(m, GROUP_NUMBER, n)
      && ResetRule(store, n, overwrite, hasGroups, groupStatus) == ResetRule(m, n, overwrite, hasGroups, groupStatus)
  {
    var store := SetStatus(m, reset, Unprocessed);
    assert Get(store, IMAGE, GROUP_NUMBER, n) == Get(m, IMAGE, GROUP_NUMBER, n);
    if n in reset {
      assert HasStatus(store, n, Unprocessed);
    } else {
      assert Get(store, IMAGE, STATUS, n) == Get(m, IMAGE, STATUS, n);
    }
  }

  /* ---------------------------------------------------------------------- */
  /* Jobs                                                                   */

  /** Image set `n` has an integer group number and group index. */
  predicate Grouped(m: Measurements, n: int) {
    ImageInt(m, GROUP_NUMBER, n).Some? && ImageInt(m, GROUP_INDEX, n).Some?
  }

  /** The exception raised when reading the grouping of `n` fails. */
  function GroupingError(m: Measurements, n: int): PlanError {
    if ImageInt(m, GROUP_NUMBER, n).None? then MissingGroupNumber(n) else MissingGroupIndex(n)
  }

  /** The first image set, in order, whose grouping cannot be read. */
  function MissingGrouping(m: Measurements, todo: seq<int>): (r: Option<PlanError>)
    ensures r.None? <==> forall n :: n in todo ==> Grouped(m, n)
    ensures r.Some? ==>
      ((r.value.MissingGroupNumber? || r.value.MissingGroupIndex?) &&
       r.value.imageNumber in todo && !Grouped(m, r.value.imageNumber))
    ensures r.Some? ==>
      (exists i :: 0 <= i < |todo| && !Grouped(m, todo[i]) && r.value == GroupingError(m, todo[i]) &&
                   forall j :: 0 <= j < i ==> Grouped(m, todo[j]))
  {
    if |todo| == 0 then None
    else if !Grouped(m, todo[0]) then Some(GroupingError(m, todo[0]))
    else
      var rest := MissingGrouping(m, todo[1..]);
      assert todo == [todo[0]] + todo[1..];
      if rest.Some? then
        var i :| 0 <= i < |todo[1..]| && !Grouped(m, todo[1..][i]) && rest.value == GroupingError(m, todo[1..][i])
          && forall j :: 0 <= j < i ==> Grouped(m, todo[1..][j]);
        assert forall j :: 0 <= j < i + 1 ==> Grouped(m, todo[j]) by {
          forall j | 0 <= j < i + 1 ensures Grouped(m, todo[j]) {
            if j > 0 { assert todo[j] == todo[1..][j - 1]; }
          }
        }
        rest
      else rest
  }

  /** Python's order on `(Group_Index, image number)` pairs, read from the store. */
  predicate InIndexOrder(m: Measurements, a: int, b: int) {
    match (ImageInt(m, GROUP_INDEX, a), ImageInt(m, GROUP_INDEX, b))
    case (Some(x), Some(y)) => x < y || (x == y && a <= b)
    case _ => false
  }

  /** The group number of every image set in `todo`. */
  function GroupNumberMap(m: Measurements, todo: seq<int>): (r: map<int, int>)
    requires forall n :: n in todo ==> Grouped(m, n)
    ensures forall n :: n in r <==> n in todo
    ensures forall n :: n in r ==> ImageInt(m, GROUP_NUMBER, n) == Some(r[n])
  {
    var r := map n | n in todo :: assert Grouped(m, n); ImageInt(m, GROUP_NUMBER, n).value;
    assert forall n :: n in r ==> ImageInt(m, GROUP_NUMBER, n) == Some(r[n]) by {
      forall n | n in r ensures ImageInt(m, GROUP_NUMBER, n) == Some(r[n]) {
        assert Grouped(m, n);
      }
    }
    r
  }

  /** The group index of every image set in `todo`. */
  function GroupIndexMap(m: Measurements, todo: seq<int>): (r: map<int, int>)
    requires forall n :: n in todo ==> Grouped(m, n)
    ensures forall n :: n in r <==> n in todo
    ensures forall n :: n in r ==> ImageInt(m, GROUP_INDEX, n) == Some(r[n])
  {
    var r := map n | n in todo :: assert Grouped(m, n); ImageInt(m, GROUP_INDEX, n).value;
    assert forall n :: n in r ==> ImageInt(m, GROUP_INDEX, n) == Some(r[n]) by {
      forall n | n in r ensures ImageInt(m, GROUP_INDEX, n) == Some(r[n]) {
        assert Grouped(m, n);
      }
    }
    r
  }

  /** The job of group `g`: its image sets in `todo`, sorted by `(index, image number)`. */
  function GroupJob(todo: seq<int>, groupOf: map<int, int>, indexOf: map<int, int>, g: int): (job: seq<int>)
    requires forall n :: n in todo ==> n in indexOf
    ensures SortedByIndex(job, indexOf)
    ensures forall n :: n in job <==> n in todo && n in groupOf && groupOf[n] == g
    ensures forall x :: multiset(job)[x] == if x in groupOf && groupOf[x] == g then multiset(todo)[x] else 0
  {
    var members := Filter(todo, n => n in groupOf && groupOf[n] == g);
    var job := SortByIndex(members, indexOf);
    assert forall n :: n in job <==> n in members by {
      forall n ensures n in job <==> n in members {
        assert n in job <==> n in multiset(job);
      }
    }
    job
  }

  /** One job per group in `groups`, in that order. */
  function JobsFor(todo: seq<int>, groupOf: map<int, int>, indexOf: map<int, int>, groups: seq<int>): (jobs: seq<seq<int>>)
    requires forall n :: n in todo ==> n in indexOf
    ensures |jobs| == |groups|
    ensures forall i :: 0 <= i < |jobs| ==> jobs[i] == GroupJob(todo, groupOf, indexOf, groups[i])
    decreases |groups|
  {
    if |groups| == 0 then []
    else [GroupJob(todo, groupOf, indexOf, groups[0])] + JobsFor(todo, groupOf, indexOf, groups[1..])
  }

  /** Each image set occurs in the jobs as often as in `todo` when its group is
      listed, and not at all otherwise. */
  lemma {:induction false} JobsForCount(todo: seq<int>, groupOf: map<int, int>, indexOf: map<int, int>, groups: seq<int>, x: int)
    requires forall n :: n in todo ==> n in indexOf
    requires StrictlyIncreasing(groups)
    ensures multiset(Flatten(JobsFor(todo, groupOf, indexOf, groups)))[x]
      == if x in groupOf && groupOf[x] in groups then multiset(todo)[x] else 0
    decreases |groups|
  {
    if |groups| > 0 {
      var jobs := JobsFor(todo, groupOf, indexOf, groups);
      assert jobs[1..] == JobsFor(todo, groupOf, indexOf, groups[1..]);
      JobsForCount(todo, groupOf, indexOf, groups[1..], x);
      assert multiset(Flatten(jobs)) == multiset(jobs[0]) + multiset(Flatten(jobs[1..]));
      if x in groupOf && groupOf[x] == groups[0] {
        assert groupOf[x] !in groups[1..];
      }
      assert x in groupOf && groupOf[x] in groups <==>
        (x in groupOf && groupOf[x] == groups[0]) || (x in groupOf && groupOf[x] in groups[1..]);
    }
  }

  /** The group numbers of `todo`, in order. */
  function GroupKeys(todo: seq<int>, groupOf: map<int, int>): (keys: seq<int>)
    requires forall n :: n in todo ==> n in groupOf
    ensures |keys| == |todo|
    ensures forall i :: 0 <= i < |todo| ==> todo[i] in groupOf && keys[i] == groupOf[todo[i]]
  {
    EveryElementKeyed(todo, groupOf);
    seq(|todo|, i requires 0 <= i < |todo| => groupOf[todo[i]])
  }

  /** Every element of `todo` is a key of `keyed`, stated by position. */
  lemma EveryElementKeyed(todo: seq<int>, keyed: map<int, int>)
    requires forall n :: n in todo ==> n in keyed
    ensures forall i :: 0 <= i < |todo| ==> todo[i] in keyed
  {
    forall i | 0 <= i < |todo| ensures todo[i] in keyed {
      var n := todo[i];
      assert n in todo;
    }
  }

  /** The jobs of a grouped run, together with the group number of each job:
      one job per group, groups ascending, members sorted by `(Group_Index,
      image number)`. Fails on the first image set whose grouping is missing. */
  function GroupedJobs(m: Measurements, todo: seq<int>): (r: Result<(seq<int>, seq<seq<int>>), PlanError>)
    ensures r.Success? <==> forall n :: n in todo ==> Grouped(m, n)
    ensures r.Failure? ==> Some(r.error) == MissingGrouping(m, todo)
    ensures r.Success? ==> GroupedJobsShape(m, todo, r.value.0, r.value.1)
  {
    match MissingGrouping(m, todo)
    case Some(e) => Failure(e)
    case None =>
      var groupOf := GroupNumberMap(m, todo);
      var indexOf := GroupIndexMap(m, todo);
      var groups := SortDistinct(GroupKeys(todo, groupOf));
      var jobs := JobsFor(todo, groupOf, indexOf, groups);
      GroupedJobsProperties(m, todo, groupOf, indexOf, groups, jobs);
      Success((groups, jobs))
  }

  /** What the grouped jobs promise: as many jobs as groups, groups strictly
      ascending, each job exactly the image sets of its group (and not empty),
      sorted by `(Group_Index, image number)`, and together a permutation of `todo`. */
  ghost predicate GroupedJobsShape(m: Measurements, todo: seq<int>, groups: seq<int>, jobs: seq<seq<int>>) {
    && |groups| == |jobs|
    && StrictlyIncreasing(groups)
    && (forall i, n :: 0 <= i < |jobs| ==> (n in jobs[i] <==> n in todo && ImageInt(m, GROUP_NUMBER, n) == Some(groups[i])))
    && (forall i :: 0 <= i < |jobs| ==> |jobs[i]| > 0)
    && (forall i, p, q :: 0 <= i < |jobs| && 0 <= p < q < |jobs[i]| ==> InIndexOrder(m, jobs[i][p], jobs[i][q]))
    && multiset(Flatten(jobs)) == multiset(todo)
  }

  lemma GroupedJobsProperties(m: Measurements, todo: seq<int>, groupOf: map<int, int>, indexOf: map<int, int>,
                              groups: seq<int>, jobs: seq<seq<int>>)
    requires forall n :: n in todo ==> Grouped(m, n)
    requires groupOf == GroupNumberMap(m, todo)
    requires indexOf == GroupIndexMap(m, todo)
    requires groups == SortDistinct(GroupKeys(todo, groupOf))
    requires jobs == JobsFor(todo, groupOf, indexOf, groups)
    ensures GroupedJobsShape(m, todo, groups, jobs)
  {
    JobsMembership(m, todo, groupOf, indexOf, groups, jobs);
    JobsNotEmpty(todo, groupOf, indexOf, groups, jobs);
    JobsInIndexOrder(m, todo, groupOf, indexOf, groups, jobs);
    JobsPartition(todo, groupOf, indexOf, groups, jobs);
  }

  lemma JobsMembership(m: Measurements, todo: seq<int>, groupOf: map<int, int>, indexOf: map<int, int>,
                       groups: seq<int>, jobs: seq<seq<int>>)
    requires forall n :: n in todo ==> Grouped(m, n)
    requires groupOf == GroupNumberMap(m, todo)
    requires indexOf == GroupIndexMap(m, todo)
    requires jobs == JobsFor(todo, groupOf, indexOf, groups)
    ensures forall i, n :: 0 <= i < |jobs| ==> (n in jobs[i] <==> n in todo && ImageInt(m, GROUP_NUMBER, n) == Some(groups[i]))
  {
    forall i, n | 0 <= i < |jobs| ensures n in jobs[i] <==> n in todo && ImageInt(m, GROUP_NUMBER, n) == Some(groups[i]) {
      assert jobs[i] == GroupJob(todo, groupOf, indexOf, groups[i]);
    }
  }

  lemma JobsNotEmpty(todo: seq<int>, groupOf: map<int, int>, indexOf: map<int, int>,
                     groups: seq<int>, jobs: seq<seq<int>>)
    requires forall n :: n in todo ==> n in groupOf && n in indexOf
    requires groups == SortDistinct(GroupKeys(todo, groupOf))
    requires jobs == JobsFor(todo, groupOf, indexOf, groups)
    ensures forall i :: 0 <= i < |jobs| ==> |jobs[i]| > 0
  {
    var keys := GroupKeys(todo, groupOf);
    forall i | 0 <= i < |jobs| ensures |jobs[i]| > 0 {
      assert groups[i] in keys;
      var k :| 0 <= k < |todo| && keys[k] == groups[i];
      assert jobs[i] == GroupJob(todo, groupOf, indexOf, groups[i]);
      assert todo[k] in jobs[i];
    }
  }

  lemma JobsInIndexOrder(m: Measurements, todo: seq<int>, groupOf: map<int, int>, indexOf: map<int, int>,
                         groups: seq<int>, jobs: seq<seq<int>>)
    requires forall n :: n in todo ==> Grouped(m, n)
    requires indexOf == GroupIndexMap(m, todo)
    requires jobs == JobsFor(todo, groupOf, indexOf, groups)
    ensures forall i, p, q :: 0 <= i < |jobs| && 0 <= p < q < |jobs[i]| ==> InIndexOrder(m, jobs[i][p], jobs[i][q])
  {
    forall i, p, q | 0 <= i < |jobs| && 0 <= p < q < |jobs[i]| ensures InIndexOrder(m, jobs[i][p], jobs[i][q]) {
      assert jobs[i] == GroupJob(todo, groupOf, indexOf, groups[i]);
      assert IndexLe(indexOf, jobs[i][p], jobs[i][q]);
    }
  }

  /** An image set to process has its group among the listed groups. */
  lemma GroupListed(todo: seq<int>, groupOf: map<int, int>, groups: seq<int>, x: int)
    requires forall n :: n in todo ==> n in groupOf
    requires groups == SortDistinct(GroupKeys(todo, groupOf))
    requires x in todo
    ensures x in groupOf && groupOf[x] in groups
  {
    var keys := GroupKeys(todo, groupOf);
    var k :| 0 <= k < |todo| && todo[k] == x;
    assert keys[k] == groupOf[x];
  }

  lemma JobsCountOne(todo: seq<int>, groupOf: map<int, int>, indexOf: map<int, int>,
                     groups: seq<int>, jobs: seq<seq<int>>, x: int)
    requires forall n :: n in todo ==> n in groupOf && n in indexOf
    requires groups == SortDistinct(GroupKeys(todo, groupOf))
    requires jobs == JobsFor(todo, groupOf, indexOf, groups)
    ensures multiset(Flatten(jobs))[x] == multiset(todo)[x]
  {
    JobsForCount(todo, groupOf, indexOf, groups, x);
    if x in todo {
      GroupListed(todo, groupOf, groups, x);
    }
  }

  lemma JobsPartition(todo: seq<int>, groupOf: map<int, int>, indexOf: map<int, int>,
                      groups: seq<int>, jobs: seq<seq<int>>)
    requires forall n :: n in todo ==> n in groupOf && n in indexOf
    requires groups == SortDistinct(GroupKeys(todo, groupOf))
    requires jobs == JobsFor(todo, groupOf, indexOf, groups)
    ensures multiset(Flatten(jobs)) == multiset(todo)
  {
    forall x ensures multiset(Flatten(jobs))[x] == multiset(todo)[x] {
      JobsCountOne(todo, groupOf, indexOf, groups, jobs, x);
    }
  }

  /** The jobs of an ungrouped run: every image set alone, in order. */
  function SingletonJobs(todo: seq<int>): (jobs: seq<seq<int>>)
    ensures |jobs| == |todo|
    ensures forall i :: 0 <= i < |jobs| ==> jobs[i] == [todo[i]]
    ensures Flatten(jobs) == todo
  {
    if |todo| == 0 then []
    else
      var rest := SingletonJobs(todo[1..]);
      assert ([[todo[0]]] + rest)[1..] == rest;
      [[todo[0]]] + rest
  }

  /* ---------------------------------------------------------------------- */
  /* Dispatch                                                               */

  /** One entry of the work queue: the image sets of a job, whether the worker runs
      post-group itself, and whether it must send back the shared dictionaries. */
  datatype WorkItem = WorkItem(imageSets: seq<int>, workerRunsPostGroup: bool, wantsDictionary: bool)

  /** The work queue, the jobs held back until the first image set finishes, and
      whether the runner is still waiting for it. */
  datatype Dispatch = Dispatch(queued: seq<WorkItem>, deferred: seq<seq<int>>, waitingForFirstImageSet: bool)

  function QueueAll(jobs: seq<seq<int>>, workerRunsPostGroup: bool): (items: seq<WorkItem>)
    ensures |items| == |jobs|
    ensures forall i :: 0 <= i < |jobs| ==> items[i] == WorkItem(jobs[i], workerRunsPostGroup, false)
  {
    seq(|jobs|, i requires 0 <= i < |jobs| => WorkItem(jobs[i], workerRunsPostGroup, false))
  }

  /** The initial queue: an ungrouped run queues only its first job, asking for the
      shared dictionaries, and holds the rest back; a grouped run queues every job. */
  function StartDispatch(jobs: seq<seq<int>>, workerRunsPostGroup: bool): (r: Result<Dispatch, PlanError>)
    ensures r.Failure? <==> !workerRunsPostGroup && |jobs| == 0
    ensures r.Failure? ==> r.error == NoJobs
    ensures r.Success? && !workerRunsPostGroup ==>
      r.value == Dispatch([WorkItem(jobs[0], false, true)], jobs[1..], true)
    ensures r.Success? && workerRunsPostGroup ==>
      && r.value.deferred == [] && !r.value.waitingForFirstImageSet
      && |r.value.queued| == |jobs|
      && forall i :: 0 <= i < |jobs| ==> r.value.queued[i] == WorkItem(jobs[i], true, false)
  {
    if !workerRunsPostGroup then
      if |jobs| == 0 then Failure(NoJobs)
      else Success(Dispatch([WorkItem(jobs[0], false, true)], jobs[1..], true))
    else Success(Dispatch(QueueAll(jobs, true), [], false))
  }

  /** A finished image set: while the runner waits for the first one, the held
      back jobs are queued now that the shared dictionaries are known. */
  function ImageSetFinished(d: Dispatch, workerRunsPostGroup: bool): Dispatch {
    if d.waitingForFirstImageSet then
      Dispatch(d.queued + QueueAll(d.deferred, workerRunsPostGroup), d.deferred, false)
    else d
  }

  /** Once the first image set has finished, every job has been queued exactly
      once and in order, and only the very first job of an ungrouped run asked for
      the shared dictionaries. */
  lemma EveryJobQueuedOnce(jobs: seq<seq<int>>, workerRunsPostGroup: bool)
    requires StartDispatch(jobs, workerRunsPostGroup).Success?
    ensures var d := ImageSetFinished(StartDispatch(jobs, workerRunsPostGroup).value, workerRunsPostGroup);
      && !d.waitingForFirstImageSet
      && |d.queued| == |jobs|
      && (forall i :: 0 <= i < |jobs| ==> d.queued[i].imageSets == jobs[i])
      && (forall i :: 0 <= i < |jobs| ==> d.queued[i].workerRunsPostGroup == workerRunsPostGroup)
      && (forall i :: 0 <= i < |jobs| ==> (d.queued[i].wantsDictionary <==> !workerRunsPostGroup && i == 0))
  {
    var d0 := StartDispatch(jobs, workerRunsPostGroup).value;
    var d := ImageSetFinished(d0, workerRunsPostGroup);
    if !workerRunsPostGroup {
      forall i | 0 <= i < |jobs| ensures d.queued[i].imageSets == jobs[i] && (d.queued[i].wantsDictionary <==> i == 0) {
        if i > 0 {
          assert d.queued[i] == QueueAll(jobs[1..], false)[i - 1];
        }
      }
    }
  }
}
