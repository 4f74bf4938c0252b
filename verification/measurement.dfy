/** The measurement store the analysis runner reads and writes: values keyed by
    (object name, feature name, image number), plus the ordered image numbers. */
module Measurement {
  import opened Wrappers

  const IMAGE: string := "Image"
  const EXPERIMENT: string := "Experiment"
  const GROUP_NUMBER: string := "Group_Number"
  const GROUP_INDEX: string := "Group_Index"

  /** A stored measurement: integers (group number, group index) and text (statuses)
      are the only kinds the runner inspects; everything else is compared for equality only. */
  datatype Value = Num(n: int) | Text(s: string)

  datatype Key = Key(objectName: string, feature: string, imageNumber: int)

  datatype Measurements = Measurements(imageNumbers: seq<int>, values: map<Key, Value>)

  /** `m[o, f, n]`, or None when nothing is stored there. */
  function Get(m: Measurements, o: string, f: string, n: int): Option<Value> {
    if Key(o, f, n) in m.values then Some(m.values[Key(o, f, n)]) else None
  }

  /** `m.has_feature(o, f)`: some image has a value for the feature. */
  predicate HasFeature(m: Measurements, o: string, f: string) {
    exists k :: k in m.values && k.objectName == o && k.feature == f
  }

  /** `m[o, f, n] = v`; writing an absent value leaves the key absent. */
  function Put(m: Measurements, o: string, f: string, n: int, v: Option<Value>): (r: Measurements)
    ensures r.imageNumbers == m.imageNumbers
    ensures Get(r, o, f, n) == v
    ensures forall o', f', n' :: (o', f', n') != (o, f, n) ==> Get(r, o', f', n') == Get(m, o', f', n')
  {
    match v
    case Some(x) => Measurements(m.imageNumbers, m.values[Key(o, f, n) := x])
    case None => Measurements(m.imageNumbers, m.values - {Key(o, f, n)})
  }

  /** The (object, feature) pairs that have at least one value. */
  function Features(m: Measurements): (r: set<(string, string)>)
    ensures forall o, f :: (o, f) in r <==> HasFeature(m, o, f)
  {
    set k | k in m.values :: (k.objectName, k.feature)
  }

  /** Two stores that agree on every lookup are the same store. */
  lemma SameLookupsSameStore(a: Measurements, b: Measurements)
    requires a.imageNumbers == b.imageNumbers
    requires forall o, f, n :: Get(a, o, f, n) == Get(b, o, f, n)
    ensures a == b
  {
    forall k | k in a.values ensures k in b.values && b.values[k] == a.values[k] {
      assert Get(a, k.objectName, k.feature, k.imageNumber) == Some(a.values[k]);
    }
    forall k | k in b.values ensures k in a.values {
      assert Get(b, k.objectName, k.feature, k.imageNumber) == Some(b.values[k]);
    }
  }

  /** The integer stored under the image feature `f`, if there is one. */
  function ImageInt(m: Measurements, f: string, n: int): Option<int> {
    match Get(m, IMAGE, f, n)
    case Some(Num(x)) => Some(x)
    case _ => None
  }
}
