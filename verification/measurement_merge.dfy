/** Merging the measurements a worker sends back for a batch of image sets into
    the runner's own store, and the progress this makes towards completion. */
module MeasurementMerge {
  import opened Wrappers
  import opened Measurement
  import opened AnalysisStatus
  import opened Seqs

  /** Writes `src[o, f, n]` into `m` for every `n` in `ns`; nothing else changes. */
  function CopyValues(m: Measurements, src: Measurements, o: string, f: string, ns: seq<int>): (r: Measurements)
    ensures r.imageNumbers == m.imageNumbers
    ensures forall n :: n in ns ==> Get(r, o, f, n) == Get(src, o, f, n)
    ensures forall o', f', n' :: !(o' == o && f' == f && n' in ns) ==> Get(r, o', f', n') == Get(m, o', f', n')
  {
    if |ns| == 0 then m
    else
      var init := ns[..|ns| - 1];
      assert ns == init + [ns[|ns| - 1]];
      Put(CopyValues(m, src, o, f, init), o, f, ns[|ns| - 1], Get(src, o, f, ns[|ns| - 1]))
  }

  /** The image numbers of `ns` whose local value of the feature differs from the received one. */
  function ChangedImageNumbers(local: Measurements, recd: Measurements, o: string, f: string, ns: seq<int>): (r: seq<int>)
    ensures forall n :: n in r <==> n in ns && Get(local, o, f, n) != Get(recd, o, f, n)
    ensures IsSubsequence(r, ns)
  {
    Filter(ns, n => Get(local, o, f, n) != Get(recd, o, f, n))
  }

  /** Copying only the changed values has the same effect as copying them all. */
  lemma CopyChangedOnly(m: Measurements, src: Measurements, o: string, f: string, ns: seq<int>)
    ensures CopyValues(m, src, o, f, ChangedImageNumbers(m, src, o, f, ns)) == CopyValues(m, src, o, f, ns)
  {
    var a := CopyValues(m, src, o, f, ChangedImageNumbers(m, src, o, f, ns));
    var b := CopyValues(m, src, o, f, ns);
    forall o', f', n' ensures Get(a, o', f', n') == Get(b, o', f', n') {
    }
    SameLookupsSameStore(a, b);
  }

  /** What the local store holds at (o, f, n) after a batch has been merged: the
      batch's image numbers are Done, received non-experiment features hold the
      received values at the batch's image numbers, and everything else is untouched. */
  function MergedValue(local: Measurements, recd: Measurements, ns: seq<int>, o: string, f: string, n: int): Option<Value> {
    if o == IMAGE && f == STATUS && n in ns then Some(StatusValue(Done))
    else if o != EXPERIMENT && HasFeature(recd, o, f) && n in ns then Get(recd, o, f, n)
    else Get(local, o, f, n)
  }

  ghost predicate IsMergeOf(local: Measurements, recd: Measurements, ns: seq<int>, r: Measurements) {
    r.imageNumbers == local.imageNumbers &&
    forall o, f, n :: Get(r, o, f, n) == MergedValue(local, recd, ns, o, f, n)
  }

  /** Copies one received feature the way the runner does: experiment features are
      skipped, an image feature the store already has is written only where it changed,
      anything else is written for the whole batch. */
  function CopyFeature(store: Measurements, recd: Measurements, o: string, f: string, ns: seq<int>): (r: Measurements)
    ensures o == EXPERIMENT ==> r == store
    ensures o != EXPERIMENT ==> r == CopyValues(store, recd, o, f, ns)
  {
    if o == EXPERIMENT then store
    else if o == IMAGE then
      var changed := if !HasFeature(store, IMAGE, f) then ns else ChangedImageNumbers(store, recd, o, f, ns);
      CopyChangedOnly(store, recd, o, f, ns);
      if |changed| > 0 then CopyValues(store, recd, o, f, changed) else store
    else CopyValues(store, recd, o, f, ns)
  }

  /** `store` is `local` with the features in `copied` copied from `recd` for the batch. */
  ghost predicate CopiedSoFar(local: Measurements, recd: Measurements, ns: seq<int>,
                              copied: set<(string, string)>, store: Measurements) {
    store.imageNumbers == local.imageNumbers &&
    forall o, f, n :: Get(store, o, f, n) ==
      if o != EXPERIMENT && (o, f) in copied && n in ns then Get(recd, o, f, n) else Get(local, o, f, n)
  }

  lemma CopyStep(local: Measurements, recd: Measurements, ns: seq<int>, copied: set<(string, string)>,
                 store: Measurements, o: string, f: string)
    requires CopiedSoFar(local, recd, ns, copied, store)
    ensures CopiedSoFar(local, recd, ns, copied + {(o, f)}, CopyFeature(store, recd, o, f, ns))
  {
  }

  lemma CopyFinish(local: Measurements, recd: Measurements, ns: seq<int>, store: Measurements)
    requires CopiedSoFar(local, recd, ns, Features(recd), store)
    ensures IsMergeOf(local, recd, ns, SetStatus(store, ns, Done))
  {
    var r := SetStatus(store, ns, Done);
    forall o, f, n ensures Get(r, o, f, n) == MergedValue(local, recd, ns, o, f, n) {
      if o == IMAGE && f == STATUS && n in ns {
        assert HasStatus(r, n, Done);
      } else {
        assert Get(r, o, f, n) == Get(store, o, f, n);
        assert (o, f) in Features(recd) <==> HasFeature(recd, o, f);
      }
    }
  }

  /** The runner's merge of a worker's measurements for the batch `ns`: every received
      feature is copied, then the batch is marked Done. */
  method CopyReceivedMeasurements(recd: Measurements, local: Measurements, ns: seq<int>) returns (r: Measurements)
    ensures IsMergeOf(local, recd, ns, r)
  {
    var store := local;
    var pending := Features(recd);
    ghost var copied: set<(string, string)> := {};
    while pending != {}
      invariant pending + copied == Features(recd) && pending !! copied
      invariant CopiedSoFar(local, recd, ns, copied, store)
      decreases pending
    {
      var feature :| feature in pending;
      var (o, f) := feature;
      CopyStep(local, recd, ns, copied, store, o, f);
      store := CopyFeature(store, recd, o, f, ns);
      pending := pending - {feature};
      copied := copied + {feature};
    }
    CopyFinish(local, recd, ns, store);
    r := SetStatus(store, ns, Done);
  }

  /** After a merge, the batch is Done and every image set that was Done still is. */
  lemma MergeMarksDone(local: Measurements, recd: Measurements, ns: seq<int>, r: Measurements)
    requires IsMergeOf(local, recd, ns, r)
    ensures forall n :: n in ns ==> IsDone(r, n)
    ensures forall n :: IsDone(local, n) ==> IsDone(r, n)
  {
    forall n | n in ns || IsDone(local, n) ensures IsDone(r, n) {
      assert Get(r, IMAGE, STATUS, n) == MergedValue(local, recd, ns, IMAGE, STATUS, n);
    }
  }

  /** One received batch: the worker's measurements and the image numbers it processed. */
  datatype Batch = Batch(recd: Measurements, imageNumbers: seq<int>)

  /** `stores[i + 1]` is `stores[i]` with `batches[i]` merged in. */
  ghost predicate MergeChain(stores: seq<Measurements>, batches: seq<Batch>) {
    |stores| == |batches| + 1 &&
    forall i :: 0 <= i < |batches| ==> IsMergeOf(stores[i], batches[i].recd, batches[i].imageNumbers, stores[i + 1])
  }

  /** Merging batches never undoes a Done, and marks every batch's image sets Done. */
  lemma {:induction false} MergeChainDone(stores: seq<Measurements>, batches: seq<Batch>, n: int)
    requires MergeChain(stores, batches)
    requires IsDone(stores[0], n) || exists i :: 0 <= i < |batches| && n in batches[i].imageNumbers
    ensures IsDone(stores[|batches|], n)
    decreases |batches|
  {
    var k := |batches|;
    if k == 0 {
    } else {
      var last := batches[k - 1];
      MergeMarksDone(stores[k - 1], last.recd, last.imageNumbers, stores[k]);
      if n !in last.imageNumbers {
        assert MergeChain(stores[..k], batches[..k - 1]);
        if !IsDone(stores[0], n) {
          var i :| 0 <= i < k && n in batches[i].imageNumbers;
          assert i < k - 1;
          assert n in batches[..k - 1][i].imageNumbers;
        }
        MergeChainDone(stores[..k], batches[..k - 1], n);
      }
    }
  }

  /** Once every job's measurements have been merged, the runner's completion test holds. */
  lemma RunCompletes(stores: seq<Measurements>, batches: seq<Batch>, todo: seq<int>)
    requires MergeChain(stores, batches)
    requires forall n :: n in todo ==> exists i :: 0 <= i < |batches| && n in batches[i].imageNumbers
    ensures IsComplete(stores[|batches|], todo)
  {
    forall n | n in todo ensures IsDone(stores[|batches|], n) {
      MergeChainDone(stores, batches, n);
    }
    CompleteIffAllDone(stores[|batches|], todo);
  }
}
