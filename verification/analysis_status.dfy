/** The per-image-set processing status the analysis runner keeps in the
    measurement store, and the completion test built on it. */
module AnalysisStatus {
  import opened Wrappers
  import opened Measurement
  import opened Seqs

  /** The image feature that holds an image set's status. */
  const STATUS: string := "ProcessingStatus"

  datatype Status = Unprocessed | InProcess | FinishedWaitingMeasurements | Done

  /** Every status, in the runner's listing order. */
  const STATUSES: seq<Status> := [Unprocessed, InProcess, FinishedWaitingMeasurements, Done]

  /** The text the runner stores for a status. */
  function Name(s: Status): string
  {
    match s
    case Unprocessed => "Unprocessed"
    case InProcess => "InProcess"
    case FinishedWaitingMeasurements => "FinishedWaitingMeasurements"
    case Done => "Done"
  }

  /** The four stored texts are distinct, so a stored status names exactly one state,
      and the listing holds every state once. */
  lemma StatusNamesDistinct(s: Status, t: Status)
    ensures Name(s) == Name(t) <==> s == t
    ensures s in STATUSES && |STATUSES| == 4
    ensures forall i, j :: 0 <= i < j < |STATUSES| ==> STATUSES[i] != STATUSES[j]
  {
    if s != t {
      assert |Name(s)| != |Name(t)|;
    }
  }

  function StatusValue(s: Status): Value {
    Text(Name(s))
  }

  predicate HasStatus(m: Measurements, n: int, s: Status) {
    Get(m, IMAGE, STATUS, n) == Some(StatusValue(s))
  }

  predicate IsDone(m: Measurements, n: int) {
    HasStatus(m, n, Done)
  }

  /** Writes status `s` for every image number in `ns`, in order; no other entry changes. */
  function SetStatus(m: Measurements, ns: seq<int>, s: Status): (r: Measurements)
    ensures r.imageNumbers == m.imageNumbers
    ensures forall n :: n in ns ==> HasStatus(r, n, s)
    ensures forall o, f, n :: !(o == IMAGE && f == STATUS && n in ns) ==> Get(r, o, f, n) == Get(m, o, f, n)
  {
    if |ns| == 0 then m
    else
      var init := ns[..|ns| - 1];
      assert ns == init + [ns[|ns| - 1]];
      Put(SetStatus(m, init, s), IMAGE, STATUS, ns[|ns| - 1], Some(StatusValue(s)))
  }

  /** Writing one more status is one more `Put`. */
  lemma SetStatusSnoc(m: Measurements, ns: seq<int>, n: int, s: Status)
    ensures SetStatus(m, ns + [n], s) == Put(SetStatus(m, ns, s), IMAGE, STATUS, n, Some(StatusValue(s)))
  {
    assert (ns + [n])[..|ns|] == ns;
  }

  /** How many of `ns` currently have status `s` (one entry of the progress counter). */
  function CountStatus(m: Measurements, ns: seq<int>, s: Status): (c: nat)
    ensures c <= |ns|
  {
    Count(ns, n => HasStatus(m, n, s))
  }

  /** The runner's termination test: the Done count equals the number of image sets. */
  predicate IsComplete(m: Measurements, ns: seq<int>) {
    CountStatus(m, ns, Done) == |ns|
  }

  /** The run is complete exactly when every image set to process is Done. */
  lemma {:induction false} CompleteIffAllDone(m: Measurements, ns: seq<int>)
    ensures IsComplete(m, ns) <==> forall n :: n in ns ==> IsDone(m, n)
  {
    CountAll(ns, n => HasStatus(m, n, Done));
  }
}
