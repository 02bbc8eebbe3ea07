/**
 * The distribution report over a scanned directory tree: each FLAC file's
 * duration is put in one of eight buckets and counted per folder and overall.
 */
module AudioDistribution {
  import opened Wrappers
  import Sums

  // ---------------------------------------------------------------------
  // Buckets and their labels
  // ---------------------------------------------------------------------

  /** The upper end of a bucket: a whole number of seconds, or float('inf'). */
  datatype Bound = Finite(n: nat) | Infinite

  /** A bucket [low, high). */
  datatype Range = Range(low: nat, high: Bound)

  /** The bucket table, in order. */
  const Buckets: seq<Range> := [
    Range(0, Finite(1)),
    Range(1, Finite(5)),
    Range(5, Finite(10)),
    Range(10, Finite(15)),
    Range(15, Finite(20)),
    Range(20, Finite(25)),
    Range(25, Finite(30)),
    Range(30, Infinite)
  ]

  /** The label for a duration that no bucket holds. */
  const Unbucketed: string := "UNBUCKETED"

  function DigitChar(d: nat): char
    requires d < 10
  {
    ('0' as int + d) as char
  }

  /** Decimal formatting of a natural number, as an f-string renders an int. */
  function NatToString(n: nat): (s: string)
    decreases n
  {
    if n < 10 then [DigitChar(n)] else NatToString(n / 10) + [DigitChar(n % 10)]
  }

  /** The number a string of decimal digits denotes. */
  function DecimalValue(s: string): int {
    if s == [] then 0 else DecimalValue(s[..|s| - 1]) * 10 + (s[|s| - 1] as int - '0' as int)
  }

  /** The rendering is a non-empty string of decimal digits denoting n. */
  lemma {:induction false} NatToStringRoundTrip(n: nat)
    ensures |NatToString(n)| > 0
    ensures forall k :: 0 <= k < |NatToString(n)| ==> '0' <= NatToString(n)[k] <= '9'
    ensures DecimalValue(NatToString(n)) == n
    decreases n
  {
    if n >= 10 {
      NatToStringRoundTrip(n / 10);
      var s := NatToString(n);
      assert s == NatToString(n / 10) + [DigitChar(n % 10)];
      assert s[..|s| - 1] == NatToString(n / 10);
    }
  }

  /** f"[{low}, {high})", or f"[{low}+)" for the open-ended bucket. */
  function Label(r: Range): (l: string)
    ensures |l| > 2 && l[0] == '[' && l[|l| - 1] == ')'
    ensures l != Unbucketed
  {
    match r.high
    case Infinite => "[" + NatToString(r.low) + "+)"
    case Finite(h) => "[" + NatToString(r.low) + ", " + NatToString(h) + ")"
  }

  /** `low <= duration < high`, where every finite duration is below float('inf'). */
  predicate Within(r: Range, d: real) {
    r.low as real <= d && (r.high.Finite? ==> d < r.high.n as real)
  }

  /** The index of the first range that holds d. */
  function FirstWithin(ranges: seq<Range>, d: real): (r: Option<nat>)
    ensures r.Some? ==> r.value < |ranges| && Within(ranges[r.value], d)
    ensures r.Some? ==> forall j :: 0 <= j < r.value ==> !Within(ranges[j], d)
    ensures r.None? ==> forall j :: 0 <= j < |ranges| ==> !Within(ranges[j], d)
  {
    if ranges == [] then None
    else if Within(ranges[0], d) then Some(0)
    else match FirstWithin(ranges[1..], d)
      case None => None
      case Some(k) => Some(k + 1)
  }

  /** assign_bucket: the label of the first bucket holding the duration, else "UNBUCKETED". */
  function AssignBucket(d: real): (b: string)
    ensures b == Unbucketed <==> forall j :: 0 <= j < |Buckets| ==> !Within(Buckets[j], d)
    ensures b != Unbucketed ==> exists j :: 0 <= j < |Buckets| && Within(Buckets[j], d) && b == Label(Buckets[j])
  {
    match FirstWithin(Buckets, d)
    case None => Unbucketed
    case Some(i) => Label(Buckets[i])
  }

  /** The labels of the table, in table order (the specification of get_bucket_labels). */
  function BucketLabels(): (labels: seq<string>)
    ensures |labels| == |Buckets|
    ensures forall k :: 0 <= k < |Buckets| ==> labels[k] == Label(Buckets[k])
  {
    seq(|Buckets|, k requires 0 <= k < |Buckets| => Label(Buckets[k]))
  }

  /** The keys every counter dict carries: the labels, as a set. */
  function LabelSet(): set<string> {
    set k | 0 <= k < |Buckets| :: Label(Buckets[k])
  }

  /** The literal form of get_bucket_labels. */
  const LabelsLiteral: seq<string> := ["[0, 1)", "[1, 5)", "[5, 10)", "[10, 15)", "[15, 20)", "[20, 25)", "[25, 30)", "[30+)"]

  /** The two-digit bounds of the table, rendered. */
  lemma TwoDigitBounds()
    ensures NatToString(10) == "10" && NatToString(15) == "15" && NatToString(20) == "20"
    ensures NatToString(25) == "25" && NatToString(30) == "30"
  {
    assert NatToString(10) == "10";
    assert NatToString(15) == "15";
    assert NatToString(20) == "20";
    assert NatToString(25) == "25";
  }

  lemma LowerLabels()
    ensures Label(Buckets[0]) == "[0, 1)" && Label(Buckets[1]) == "[1, 5)"
    ensures Label(Buckets[2]) == "[5, 10)" && Label(Buckets[3]) == "[10, 15)"
  {
    TwoDigitBounds();
    assert Label(Buckets[0]) == "[0, 1)";
    assert Label(Buckets[1]) == "[1, 5)";
    assert Label(Buckets[2]) == "[5, 10)";
  }

  lemma UpperLabels()
    ensures Label(Buckets[4]) == "[15, 20)" && Label(Buckets[5]) == "[20, 25)"
    ensures Label(Buckets[6]) == "[25, 30)" && Label(Buckets[7]) == "[30+)"
  {
    TwoDigitBounds();
  }

  /** The labels written out. */
  lemma BucketLabelsLiteral()
    ensures BucketLabels() == LabelsLiteral
  {
    LowerLabels();
    UpperLabels();
    var ls := BucketLabels();
    assert ls == [ls[0], ls[1], ls[2], ls[3], ls[4], ls[5], ls[6], ls[7]];
  }

  ghost predicate Distinct(s: seq<string>) {
    forall a, b :: 0 <= a < b < |s| ==> s[a] != s[b]
  }

  lemma LabelsLiteralDistinct()
    ensures Distinct(LabelsLiteral) && Unbucketed !in LabelsLiteral
  {
  }

  /** get_bucket_labels gives eight distinct labels, none of them "UNBUCKETED". */
  lemma BucketLabelsDistinct()
    ensures |BucketLabels()| == 8
    ensures Distinct(BucketLabels())
    ensures Unbucketed !in BucketLabels()
  {
    BucketLabelsLiteral();
    LabelsLiteralDistinct();
  }

  /** The key set holds exactly the labels get_bucket_labels lists. */
  lemma LabelSetIsLabels(l: string)
    ensures l in LabelSet() <==> l in BucketLabels()
  {
    if l in BucketLabels() {
      var k :| 0 <= k < |BucketLabels()| && BucketLabels()[k] == l;
      assert Label(Buckets[k]) == l;
    }
  }

  /** A non-negative duration's bucket index, read off the thresholds. */
  function ThresholdIndex(d: real): (i: nat)
    requires d >= 0.0
    ensures i < |Buckets| && Within(Buckets[i], d)
  {
    if d < 1.0 then 0
    else if d < 5.0 then 1
    else if d < 10.0 then 2
    else if d < 15.0 then 3
    else if d < 20.0 then 4
    else if d < 25.0 then 5
    else if d < 30.0 then 6
    else 7
  }

  /** No duration lies in two buckets. */
  lemma RangesDisjoint(d: real, i: nat, j: nat)
    requires i < j < |Buckets|
    ensures !(Within(Buckets[i], d) && Within(Buckets[j], d))
  {
    assert Buckets[i].high.Finite? && Buckets[i].high.n <= Buckets[j].low;
  }

  /**
   * For d >= 0, assign_bucket gives the label of the unique bucket holding d,
   * which is one of get_bucket_labels; "[30+)" from 30 s on; "UNBUCKETED" below 0.
   */
  lemma AssignBucketSpec(d: real)
    ensures d >= 0.0 ==> AssignBucket(d) == Label(Buckets[ThresholdIndex(d)])
    ensures d >= 0.0 ==> AssignBucket(d) in BucketLabels()
    ensures d >= 30.0 ==> AssignBucket(d) == "[30+)"
    ensures d < 0.0 ==> AssignBucket(d) == Unbucketed
  {
    if d >= 0.0 {
      FirstIsThreshold(d);
      var i := ThresholdIndex(d);
      assert BucketLabels()[i] == Label(Buckets[i]);
      if d >= 30.0 {
        assert i == 7;
        UpperLabels();
      }
    }
  }

  /** The first-match search and the threshold chain pick the same range. */
  lemma FirstIsThreshold(d: real)
    requires d >= 0.0
    ensures FirstWithin(Buckets, d) == Some(ThresholdIndex(d))
  {
    var r := FirstWithin(Buckets, d);
    var i := ThresholdIndex(d);
    assert r.Some?;
    if r.value < i {
      RangesDisjoint(d, r.value, i);
    }
  }

  /** A duration's bucket is one of the counter keys exactly when the duration is non-negative. */
  lemma BucketedIffNonNegative(d: real)
    ensures AssignBucket(d) in LabelSet() <==> d >= 0.0
  {
    AssignBucketSpec(d);
    BucketLabelsDistinct();
    LabelSetIsLabels(AssignBucket(d));
  }

  /** get_bucket_labels. */
  method GetBucketLabels() returns (labels: seq<string>)
    ensures labels == BucketLabels()
  {
    labels := [];
    for i := 0 to |Buckets|
      invariant labels == BucketLabels()[..i]
    {
      var b := Buckets[i];
      if b.high.Infinite? {
        labels := labels + ["[" + NatToString(b.low) + "+)"];
      } else {
        labels := labels + ["[" + NatToString(b.low) + ", " + NatToString(b.high.n) + ")"];
      }
      assert BucketLabels()[..i + 1] == BucketLabels()[..i] + [Label(Buckets[i])];
    }
    assert BucketLabels()[..|Buckets|] == BucketLabels();
  }

  // ---------------------------------------------------------------------
  // The scanned tree and the counters
  // ---------------------------------------------------------------------

  /** A "flac_files" entry; only its "duration_seconds" is read. */
  datatype FlacFile = FlacFile(durationSeconds: real)

  /**
   * A directory node of the scan: its "name", its "flac_files" list when the
   * key is present, and its "subdirectories" (an absent key reads as []).
   */
  datatype Dir = Dir(name: string, flacFiles: Option<seq<FlacFile>>, subdirectories: seq<Dir>)

  /** os.path.join(a, b) on a POSIX host. */
  function JoinPath(a: string, b: string): (r: string)
    ensures |b| > 0 && b[0] == '/' ==> r == b
    ensures (|b| == 0 || b[0] != '/') ==> |a| + |b| <= |r| && r[..|a|] == a && r[|r| - |b|..] == b
  {
    if |b| > 0 && b[0] == '/' then b
    else if a == [] || a[|a| - 1] == '/' then a + b
    else a + "/" + b
  }

  /** Every duration in the tree is non-negative. */
  predicate NonNegative(node: Dir)
    decreases node
  {
    (node.flacFiles.Some? ==> forall k :: 0 <= k < |node.flacFiles.value| ==> node.flacFiles.value[k].durationSeconds >= 0.0)
    && forall i :: 0 <= i < |node.subdirectories| ==> NonNegative(node.subdirectories[i])
  }

  /** One folder_stats entry. */
  datatype FolderStat = FolderStat(buckets: map<string, int>, totalFiles: int, totalDuration: real)

  /** The two dicts walk updates: folder_stats and overall_buckets. */
  datatype Tally = Tally(folderStats: map<string, FolderStat>, overall: map<string, int>)

  /** Every counter dict has exactly the bucket labels as keys. */
  ghost predicate Ready(t: Tally) {
    KeyedBy(t, LabelSet())
  }

  /** Every counter dict has exactly the given keys. */
  ghost predicate KeyedBy(t: Tally, keys: set<string>) {
    t.overall.Keys == keys
    && forall p :: p in t.folderStats ==> t.folderStats[p].buckets.Keys == keys
  }

  /** A zero counter per label. */
  function ZeroCounts(): (m: map<string, int>)
    ensures m.Keys == LabelSet()
    ensures forall l :: l in m ==> m[l] == 0
  {
    map l | l in LabelSet() :: 0
  }

  /** {label: 0 for label in get_bucket_labels()} is the zero counter per label. */
  lemma ZeroCountsFromLabels(labels: seq<string>)
    requires labels == BucketLabels()
    ensures (map l | l in labels :: 0) == ZeroCounts()
  {
    forall l
      ensures l in labels <==> l in LabelSet()
    {
      LabelSetIsLabels(l);
    }
  }

  /** A fresh folder_stats entry. */
  function EmptyStat(): (st: FolderStat)
    ensures st.buckets.Keys == LabelSet() && st.totalFiles == 0 && st.totalDuration == 0.0
    ensures forall l :: l in st.buckets ==> st.buckets[l] == 0
  {
    FolderStat(ZeroCounts(), 0, 0.0)
  }

  /** The entry for a folder is created if missing; an existing one is kept. */
  function EnsureEntry(t: Tally, path: string): (r: Tally)
    ensures path in r.folderStats && r.folderStats.Keys == t.folderStats.Keys + {path}
    ensures path in t.folderStats ==> r == t
    ensures path !in t.folderStats ==> r.folderStats[path] == EmptyStat()
    ensures forall p :: p in t.folderStats ==> r.folderStats[p] == t.folderStats[p]
    ensures r.overall == t.overall
  {
    if path in t.folderStats then t
    else Tally(t.folderStats[path := EmptyStat()], t.overall)
  }

  /** The keys the updates of one file read; a missing one raises KeyError. */
  predicate CanCount(t: Tally, path: string, d: real) {
    path in t.folderStats
    && AssignBucket(d) in t.overall
    && AssignBucket(d) in t.folderStats[path].buckets
  }

  /** From t to r no key of the dicts, nor of path's counters, is created or lost. */
  predicate SameKeys(t: Tally, r: Tally, path: string) {
    r.folderStats.Keys == t.folderStats.Keys
    && r.overall.Keys == t.overall.Keys
    && (path in t.folderStats ==> r.folderStats[path].buckets.Keys == t.folderStats[path].buckets.Keys)
  }

  /** The counting of one file into a folder's entry and the overall counters; None is the KeyError. */
  function AddFile(t: Tally, path: string, f: FlacFile): (r: Option<Tally>)
    ensures r.Some? <==> CanCount(t, path, f.durationSeconds)
    ensures r.Some? ==> SameKeys(t, r.value, path)
    ensures r.Some? ==> forall p :: p in t.folderStats && p != path ==> r.value.folderStats[p] == t.folderStats[p]
    ensures r.Some? ==> var b := AssignBucket(f.durationSeconds);
      r.value.folderStats[path].buckets == t.folderStats[path].buckets[b := t.folderStats[path].buckets[b] + 1]
    ensures r.Some? ==> r.value.folderStats[path].totalFiles == t.folderStats[path].totalFiles + 1
    ensures r.Some? ==> r.value.folderStats[path].totalDuration == t.folderStats[path].totalDuration + f.durationSeconds
    ensures r.Some? ==> var b := AssignBucket(f.durationSeconds);
      r.value.overall == t.overall[b := t.overall[b] + 1]
  {
    if !CanCount(t, path, f.durationSeconds) then None
    else
      var b := AssignBucket(f.durationSeconds);
      var st := t.folderStats[path];
      var st' := FolderStat(st.buckets[b := st.buckets[b] + 1], st.totalFiles + 1, st.totalDuration + f.durationSeconds);
      Some(Tally(t.folderStats[path := st'], t.overall[b := t.overall[b] + 1]))
  }

  /** The files from index i on, counted in order into the folder's entry. */
  function AddFiles(t: Tally, path: string, files: seq<FlacFile>, i: nat): (r: Option<Tally>)
    requires i <= |files|
    ensures r.Some? <==> forall k :: i <= k < |files| ==> CanCount(t, path, files[k].durationSeconds)
    ensures r.Some? ==> SameKeys(t, r.value, path)
    decreases |files| - i
  {
    if i == |files| then Some(t)
    else match AddFile(t, path, files[i])
      case None => None
      case Some(t') => AddFiles(t', path, files, i + 1)
  }

  /** The node's own files counted into its entry. */
  function AddNodeFiles(t: Tally, path: string, node: Dir): (r: Option<Tally>)
    ensures node.flacFiles.None? ==> r == Some(t)
    ensures r.Some? <==> forall k :: 0 <= k < FilesHere(node) ==> CanCount(t, path, node.flacFiles.value[k].durationSeconds)
    ensures r.Some? ==> SameKeys(t, r.value, path)
  {
    if node.flacFiles.Some? then AddFiles(t, path, node.flacFiles.value, 0) else Some(t)
  }

  /** From t to r no entry is lost and the overall keys stay. */
  predicate Grew(t: Tally, r: Tally) {
    t.folderStats.Keys <= r.folderStats.Keys && r.overall.Keys == t.overall.Keys
  }

  /** The state after walk(node, path, ...) from state t; None when it raises KeyError. */
  function WalkSpec(node: Dir, path: string, t: Tally): (r: Option<Tally>)
    ensures r.Some? ==> path in r.value.folderStats && Grew(t, r.value)
    decreases node, |node.subdirectories| + 1
  {
    match AddNodeFiles(EnsureEntry(t, path), path, node)
    case None => None
    case Some(t') => WalkChildren(node, path, 0, t')
  }

  /** The state after the recursion into the subdirectories from index i on. */
  function WalkChildren(node: Dir, path: string, i: nat, t: Tally): (r: Option<Tally>)
    requires i <= |node.subdirectories|
    ensures r.Some? ==> Grew(t, r.value)
    decreases node, |node.subdirectories| - i
  {
    if i == |node.subdirectories| then Some(t)
    else
      var sub := node.subdirectories[i];
      match WalkSpec(sub, JoinPath(path, sub.name), t)
      case None => None
      case Some(t') => WalkChildren(node, path, i + 1, t')
  }

  /** The folder paths walk visits: the node's own and those of its subtrees. */
  function Visited(node: Dir, path: string): (r: set<string>)
    ensures path in r
    decreases node, |node.subdirectories| + 1
  {
    {path} + VisitedFrom(node, path, 0)
  }

  function VisitedFrom(node: Dir, path: string, i: nat): set<string>
    requires i <= |node.subdirectories|
    decreases node, |node.subdirectories| - i
  {
    if i == |node.subdirectories| then {}
    else
      var sub := node.subdirectories[i];
      Visited(sub, JoinPath(path, sub.name)) + VisitedFrom(node, path, i + 1)
  }

  function FilesHere(node: Dir): nat {
    if node.flacFiles.Some? then |node.flacFiles.value| else 0
  }

  /** The number of FLAC files in the tree. */
  function FileCount(node: Dir): nat
    decreases node, |node.subdirectories| + 1
  {
    FilesHere(node) + FileCountFrom(node, 0)
  }

  function FileCountFrom(node: Dir, i: nat): nat
    requires i <= |node.subdirectories|
    decreases node, |node.subdirectories| - i
  {
    if i == |node.subdirectories| then 0
    else FileCount(node.subdirectories[i]) + FileCountFrom(node, i + 1)
  }

  // ---------------------------------------------------------------------
  // walk, on the two dicts it updates in place
  // ---------------------------------------------------------------------

  /** The mutable state walk threads through the recursion: folder_stats and overall_buckets. */
  class Distribution {
    var folderStats: map<string, FolderStat>
    var overallBuckets: map<string, int>

    function State(): Tally
      reads this
    {
      Tally(folderStats, overallBuckets)
    }

    /** The state process_dataset starts from: no folders, a zero per label overall. */
    constructor ()
      ensures folderStats == map[]
      ensures overallBuckets == ZeroCounts()
    {
      var labels := GetBucketLabels();
      folderStats := map[];
      overallBuckets := map l | l in labels :: 0;
      ZeroCountsFromLabels(labels);
    }

    /**
     * The body of walk's file loop: one file counted into its folder's entry
     * and overall. ok is false where the source raises KeyError: before any
     * update when the folder's counters lack the bucket, and after the
     * folder's updates when the overall counters lack it.
     */
    method CountFile(folderPath: string, f: FlacFile) returns (ok: bool)
      requires folderPath in folderStats
      modifies this
      ensures ok <==> CanCount(old(State()), folderPath, f.durationSeconds)
      ensures ok ==> Some(State()) == AddFile(old(State()), folderPath, f)
      ensures folderPath in folderStats
      ensures !ok ==> overallBuckets == old(overallBuckets)
      ensures !ok && AssignBucket(f.durationSeconds) !in old(folderStats[folderPath].buckets) ==> folderStats == old(folderStats)
      ensures !ok && AssignBucket(f.durationSeconds) in old(folderStats[folderPath].buckets) ==>
        var b := AssignBucket(f.durationSeconds);
        var st := old(folderStats[folderPath]);
        folderStats == old(folderStats)[folderPath := FolderStat(st.buckets[b := st.buckets[b] + 1], st.totalFiles + 1, st.totalDuration + f.durationSeconds)]
    {
      var dur := f.durationSeconds;
      var bucket := AssignBucket(dur);
      var st := folderStats[folderPath];
      if bucket !in st.buckets {
        return false;
      }
      folderStats := folderStats[folderPath := FolderStat(st.buckets[bucket := st.buckets[bucket] + 1], st.totalFiles + 1, st.totalDuration + dur)];
      if bucket !in overallBuckets {
        return false;
      }
      overallBuckets := overallBuckets[bucket := overallBuckets[bucket] + 1];
      ok := true;
    }

    /** walk(node, folder_path, folder_stats, overall_buckets); ok is false where it raises KeyError. */
    method Walk(node: Dir, folderPath: string) returns (ok: bool)
      modifies this
      ensures ok <==> WalkSpec(node, folderPath, old(State())).Some?
      ensures ok ==> Some(State()) == WalkSpec(node, folderPath, old(State()))
      decreases node, 2
    {
      if folderPath !in folderStats {
        var labels := GetBucketLabels();
        ZeroCountsFromLabels(labels);
        folderStats := folderStats[folderPath := FolderStat(map l | l in labels :: 0, 0, 0.0)];
      }
      assert State() == EnsureEntry(old(State()), folderPath);
      if node.flacFiles.Some? {
        ok := CountFiles(folderPath, node.flacFiles.value);
        if !ok {
          return;
        }
      }
      ok := WalkSubdirectories(node, folderPath);
    }

    /** The loop over a node's "flac_files"; ok is false where a file raises KeyError. */
    method CountFiles(folderPath: string, files: seq<FlacFile>) returns (ok: bool)
      requires folderPath in folderStats
      modifies this
      ensures ok <==> AddFiles(old(State()), folderPath, files, 0).Some?
      ensures ok ==> Some(State()) == AddFiles(old(State()), folderPath, files, 0)
    {
      for i := 0 to |files|
        invariant folderPath in folderStats
        invariant AddFiles(State(), folderPath, files, i) == AddFiles(old(State()), folderPath, files, 0)
      {
        ghost var before := State();
        ok := CountFile(folderPath, files[i]);
        if !ok {
          assert AddFiles(before, folderPath, files, i) == None;
          return;
        }
      }
      ok := true;
    }

    /**
     * The loop over a node's "subdirectories", each walked under
     * os.path.join(folder_path, name); ok is false where a subtree raises
     * KeyError.
     */
    method WalkSubdirectories(node: Dir, folderPath: string) returns (ok: bool)
      modifies this
      ensures ok <==> WalkChildren(node, folderPath, 0, old(State())).Some?
      ensures ok ==> Some(State()) == WalkChildren(node, folderPath, 0, old(State()))
      decreases node, 1
    {
      var subs := node.subdirectories;
      for i := 0 to |subs|
        invariant WalkChildren(node, folderPath, i, State()) == WalkChildren(node, folderPath, 0, old(State()))
      {
        var sub := subs[i];
        var subPath := JoinPath(folderPath, sub.name);
        ghost var before := State();
        ok := Walk(sub, subPath);
        WalkedChild(node, folderPath, i, before, State(), ok);
        if !ok {
          return;
        }
      }
      ok := true;
    }
  }

  // ---------------------------------------------------------------------
  // What walk keeps: ready counters, and when it raises KeyError
  // ---------------------------------------------------------------------

  /** Every duration of the tree has its bucket among keys. */
  ghost predicate TreeIn(node: Dir, keys: set<string>)
    decreases node
  {
    (node.flacFiles.Some? ==> forall k :: 0 <= k < |node.flacFiles.value| ==> AssignBucket(node.flacFiles.value[k].durationSeconds) in keys)
    && forall i :: 0 <= i < |node.subdirectories| ==> TreeIn(node.subdirectories[i], keys)
  }

  /** With the label keys, that is every duration being non-negative. */
  lemma {:induction false} TreeInLabels(node: Dir)
    ensures TreeIn(node, LabelSet()) <==> NonNegative(node)
    decreases node
  {
    if node.flacFiles.Some? {
      var files := node.flacFiles.value;
      forall k | 0 <= k < |files|
        ensures AssignBucket(files[k].durationSeconds) in LabelSet() <==> files[k].durationSeconds >= 0.0
      {
        BucketedIffNonNegative(files[k].durationSeconds);
      }
    }
    forall i | 0 <= i < |node.subdirectories|
      ensures TreeIn(node.subdirectories[i], LabelSet()) <==> NonNegative(node.subdirectories[i])
    {
      TreeInLabels(node.subdirectories[i]);
    }
  }

  /** One file is counted without KeyError exactly when its bucket is a key; the keys stay. */
  lemma AddFileKeyed(t: Tally, path: string, f: FlacFile, keys: set<string>)
    requires KeyedBy(t, keys) && path in t.folderStats
    ensures AddFile(t, path, f).Some? <==> AssignBucket(f.durationSeconds) in keys
    ensures AddFile(t, path, f).Some? ==> KeyedBy(AddFile(t, path, f).value, keys)
    ensures AddFile(t, path, f).Some? ==> AddFile(t, path, f).value.folderStats.Keys == t.folderStats.Keys
  {
    if AddFile(t, path, f).Some? {
      var r := AddFile(t, path, f).value;
      forall p | p in r.folderStats
        ensures r.folderStats[p].buckets.Keys == keys
      {
        if p != path {
          assert r.folderStats[p] == t.folderStats[p];
        }
      }
    }
  }

  /** From a ready state a file is counted without KeyError exactly when its duration is non-negative. */
  lemma AddFileReady(t: Tally, path: string, f: FlacFile)
    requires Ready(t) && path in t.folderStats
    ensures AddFile(t, path, f).Some? <==> f.durationSeconds >= 0.0
    ensures AddFile(t, path, f).Some? ==> Ready(AddFile(t, path, f).value)
  {
    AddFileKeyed(t, path, f, LabelSet());
    BucketedIffNonNegative(f.durationSeconds);
  }

  /** Every file from index i on has its bucket among keys. */
  ghost predicate FilesIn(files: seq<FlacFile>, i: nat, keys: set<string>) {
    forall k :: i <= k < |files| ==> AssignBucket(files[k].durationSeconds) in keys
  }

  lemma FilesInStep(files: seq<FlacFile>, i: nat, keys: set<string>)
    requires i < |files|
    ensures FilesIn(files, i, keys) <==> AssignBucket(files[i].durationSeconds) in keys && FilesIn(files, i + 1, keys)
  {
    if AssignBucket(files[i].durationSeconds) in keys && FilesIn(files, i + 1, keys) {
      forall k | i <= k < |files|
        ensures AssignBucket(files[k].durationSeconds) in keys
      {
        if k > i {
          assert i + 1 <= k;
        }
      }
    }
  }

  lemma {:induction false} AddFilesKeyed(t: Tally, path: string, files: seq<FlacFile>, i: nat, keys: set<string>)
    requires KeyedBy(t, keys) && path in t.folderStats && i <= |files|
    ensures AddFiles(t, path, files, i).Some? <==> FilesIn(files, i, keys)
    ensures AddFiles(t, path, files, i).Some? ==> KeyedBy(AddFiles(t, path, files, i).value, keys)
    decreases |files| - i
  {
    if i < |files| {
      AddFileKeyed(t, path, files[i], keys);
      match AddFile(t, path, files[i])
      case None =>
        assert AddFiles(t, path, files, i) == None;
        FilesInStep(files, i, keys);
      case Some(t') =>
        assert AddFiles(t, path, files, i) == AddFiles(t', path, files, i + 1);
        AddFilesKeyed(t', path, files, i + 1, keys);
        FilesInStep(files, i, keys);
    }
  }

  lemma {:induction false} WalkKeyed(node: Dir, path: string, t: Tally, keys: set<string>)
    requires KeyedBy(t, keys) && EmptyStat().buckets.Keys == keys
    ensures WalkSpec(node, path, t).Some? <==> TreeIn(node, keys)
    ensures WalkSpec(node, path, t).Some? ==> KeyedBy(WalkSpec(node, path, t).value, keys)
    decreases node, |node.subdirectories| + 1
  {
    var e := EnsureEntry(t, path);
    EntryKeyed(t, path, keys);
    NodeFilesKeyed(e, path, node, keys);
    TreeInUnfold(node, keys);
    match AddNodeFiles(e, path, node)
    case None =>
    case Some(t') =>
      WalkChildrenKeyed(node, path, 0, t', keys);
  }

  lemma EntryKeyed(t: Tally, path: string, keys: set<string>)
    requires KeyedBy(t, keys) && EmptyStat().buckets.Keys == keys
    ensures KeyedBy(EnsureEntry(t, path), keys) && path in EnsureEntry(t, path).folderStats
  {
  }

  lemma NodeFilesKeyed(e: Tally, path: string, node: Dir, keys: set<string>)
    requires KeyedBy(e, keys) && path in e.folderStats
    ensures AddNodeFiles(e, path, node).Some? <==> (node.flacFiles.Some? ==> FilesIn(node.flacFiles.value, 0, keys))
    ensures AddNodeFiles(e, path, node).Some? ==> KeyedBy(AddNodeFiles(e, path, node).value, keys)
  {
    if node.flacFiles.Some? {
      AddFilesKeyed(e, path, node.flacFiles.value, 0, keys);
    }
  }

  lemma TreeInUnfold(node: Dir, keys: set<string>)
    ensures TreeIn(node, keys) <==>
      ((node.flacFiles.Some? ==> FilesIn(node.flacFiles.value, 0, keys))
      && forall j :: 0 <= j < |node.subdirectories| ==> TreeIn(node.subdirectories[j], keys))
  {
  }

  lemma {:induction false} WalkChildrenKeyed(node: Dir, path: string, i: nat, t: Tally, keys: set<string>)
    requires KeyedBy(t, keys) && EmptyStat().buckets.Keys == keys && i <= |node.subdirectories|
    ensures WalkChildren(node, path, i, t).Some? <==> forall j :: i <= j < |node.subdirectories| ==> TreeIn(node.subdirectories[j], keys)
    ensures WalkChildren(node, path, i, t).Some? ==> KeyedBy(WalkChildren(node, path, i, t).value, keys)
    decreases node, |node.subdirectories| - i
  {
    if i < |node.subdirectories| {
      var sub := node.subdirectories[i];
      WalkKeyed(sub, JoinPath(path, sub.name), t, keys);
      match WalkSpec(sub, JoinPath(path, sub.name), t)
      case None =>
      case Some(t') =>
        WalkChildrenKeyed(node, path, i + 1, t', keys);
    }
  }

  /** From a ready state walk raises KeyError exactly when some duration in the tree is negative, and otherwise leaves the state ready. */
  lemma WalkSucceeds(node: Dir, path: string, t: Tally)
    requires Ready(t)
    ensures WalkSpec(node, path, t).Some? <==> NonNegative(node)
    ensures WalkSpec(node, path, t).Some? ==> Ready(WalkSpec(node, path, t).value)
  {
    WalkKeyed(node, path, t, LabelSet());
    TreeInLabels(node);
  }

  // ---------------------------------------------------------------------
  // What walk counts
  // ---------------------------------------------------------------------

  /** sum(d.values()) for a counter dict. */
  ghost function SumValues(m: map<string, int>): int {
    Sums.SumOver(m.Keys, k => if k in m then m[k] else 0)
  }

  /** The sum of total_files over the folder_stats entries. */
  ghost function TotalFiles(fs: map<string, FolderStat>): int {
    Sums.SumOver(fs.Keys, p => if p in fs then fs[p].totalFiles else 0)
  }

  /** Every entry's total_files equals the sum of its bucket counts. */
  ghost predicate Consistent(fs: map<string, FolderStat>) {
    forall p :: p in fs ==> fs[p].totalFiles == SumValues(fs[p].buckets)
  }

  /** No counter of an entry goes down. */
  ghost predicate StatGrows(a: FolderStat, b: FolderStat) {
    b.totalFiles >= a.totalFiles
    && forall l :: l in a.buckets ==> l in b.buckets && b.buckets[l] >= a.buckets[l]
  }

  /**
   * From t to r only the entries of paths are created or changed, no key is
   * lost and no counter decreases.
   */
  ghost predicate Frame(t: Tally, r: Tally, paths: set<string>) {
    r.folderStats.Keys == t.folderStats.Keys + paths
    && r.overall.Keys == t.overall.Keys
    && (forall p :: p in t.folderStats && p !in paths ==> r.folderStats[p] == t.folderStats[p])
    && (forall p :: p in t.folderStats ==> StatGrows(t.folderStats[p], r.folderStats[p]))
    && (forall l :: l in t.overall ==> r.overall[l] >= t.overall[l])
  }

  /** From t to r exactly n files are counted, overall and over the entries, and consistency is kept. */
  ghost predicate Counted(t: Tally, r: Tally, n: int) {
    SumValues(r.overall) == SumValues(t.overall) + n
    && TotalFiles(r.folderStats) == TotalFiles(t.folderStats) + n
    && (Consistent(t.folderStats) ==> Consistent(r.folderStats))
  }

  lemma FrameTrans(a: Tally, b: Tally, c: Tally, p: set<string>, q: set<string>)
    requires Frame(a, b, p) && Frame(b, c, q)
    ensures Frame(a, c, p + q)
  {
    forall x | x in a.folderStats
      ensures StatGrows(a.folderStats[x], c.folderStats[x])
    {
      assert StatGrows(a.folderStats[x], b.folderStats[x]);
      assert StatGrows(b.folderStats[x], c.folderStats[x]);
    }
  }

  /** A step that changes nothing. */
  lemma Unchanged(t: Tally, paths: set<string>)
    requires paths <= t.folderStats.Keys
    ensures Frame(t, t, paths) && Counted(t, t, 0)
  {
    forall x | x in t.folderStats
      ensures StatGrows(t.folderStats[x], t.folderStats[x])
    {
    }
  }

  lemma CountedTrans(a: Tally, b: Tally, c: Tally, m: int, n: int)
    requires Counted(a, b, m) && Counted(b, c, n)
    ensures Counted(a, c, m + n)
  {
  }

  lemma EmptyStatSums()
    ensures SumValues(EmptyStat().buckets) == 0
  {
    var m := EmptyStat().buckets;
    Sums.SumOverZero(m.Keys, k => if k in m then m[k] else 0);
  }

  /** Creating a folder's entry keeps every count. */
  lemma EnsureEntryCounts(t: Tally, path: string)
    ensures Frame(t, EnsureEntry(t, path), {path})
    ensures Counted(t, EnsureEntry(t, path), 0)
  {
    var r := EnsureEntry(t, path);
    if path !in t.folderStats {
      var f := (p: string) => if p in t.folderStats then t.folderStats[p].totalFiles else 0;
      var g := (p: string) => if p in r.folderStats then r.folderStats[p].totalFiles else 0;
      Sums.SumOverPut(t.folderStats.Keys, f, g, path);
      EmptyStatSums();
      assert StatGrows(t.folderStats[path := EmptyStat()][path], r.folderStats[path]);
    } else {
      forall x | x in t.folderStats
        ensures StatGrows(t.folderStats[x], r.folderStats[x])
      {
      }
    }
  }

  /** A counted file changes only its folder's entry, and lowers no counter. */
  lemma AddFileFrame(t: Tally, path: string, f: FlacFile)
    requires AddFile(t, path, f).Some?
    ensures Frame(t, AddFile(t, path, f).value, {path})
  {
    var r := AddFile(t, path, f).value;
    forall x | x in t.folderStats
      ensures StatGrows(t.folderStats[x], r.folderStats[x])
    {
      if x != path {
        assert r.folderStats[x] == t.folderStats[x];
      }
    }
  }

  /** A counted file adds one to the overall sum, to the folder totals and to its entry's bucket sum. */
  lemma AddFileCounts(t: Tally, path: string, f: FlacFile)
    requires AddFile(t, path, f).Some?
    ensures Counted(t, AddFile(t, path, f).value, 1)
    ensures SumValues(AddFile(t, path, f).value.folderStats[path].buckets) == SumValues(t.folderStats[path].buckets) + 1
    ensures t.folderStats[path].totalFiles == SumValues(t.folderStats[path].buckets) ==>
      AddFile(t, path, f).value.folderStats[path].totalFiles == SumValues(AddFile(t, path, f).value.folderStats[path].buckets)
  {
    var r := AddFile(t, path, f).value;
    var b := AssignBucket(f.durationSeconds);
    var st := t.folderStats[path];
    var st' := r.folderStats[path];
    Sums.SumOverPut(t.overall.Keys, k => if k in t.overall then t.overall[k] else 0, k => if k in r.overall then r.overall[k] else 0, b);
    assert t.overall.Keys + {b} == r.overall.Keys;
    Sums.SumOverPut(t.folderStats.Keys, p => if p in t.folderStats then t.folderStats[p].totalFiles else 0,
      p => if p in r.folderStats then r.folderStats[p].totalFiles else 0, path);
    assert t.folderStats.Keys + {path} == r.folderStats.Keys;
    Sums.SumOverPut(st.buckets.Keys, k => if k in st.buckets then st.buckets[k] else 0, k => if k in st'.buckets then st'.buckets[k] else 0, b);
    assert st.buckets.Keys + {b} == st'.buckets.Keys;
  }

  lemma {:induction false} AddFilesCounts(t: Tally, path: string, files: seq<FlacFile>, i: nat)
    requires i <= |files| && path in t.folderStats && AddFiles(t, path, files, i).Some?
    ensures Frame(t, AddFiles(t, path, files, i).value, {path})
    ensures Counted(t, AddFiles(t, path, files, i).value, |files| - i)
    decreases |files| - i
  {
    if i == |files| {
      Unchanged(t, {path});
    } else {
      var t' := AddFile(t, path, files[i]).value;
      AddFileFrame(t, path, files[i]);
      AddFileCounts(t, path, files[i]);
      AddFilesCounts(t', path, files, i + 1);
      var r := AddFiles(t', path, files, i + 1).value;
      FrameTrans(t, t', r, {path}, {path});
      CountedTrans(t, t', r, 1, |files| - (i + 1));
    }
  }

  /**
   * walk(node, path, ...) creates or changes only the entries of the folders it
   * visits, gives each of them an entry, lowers no counter, and adds the tree's
   * file count to the overall sum and to the sum of total_files.
   */
  lemma {:induction false} WalkCounts(node: Dir, path: string, t: Tally)
    requires WalkSpec(node, path, t).Some?
    ensures Frame(t, WalkSpec(node, path, t).value, Visited(node, path))
    ensures Counted(t, WalkSpec(node, path, t).value, FileCount(node))
    decreases node, |node.subdirectories| + 1
  {
    var e := EnsureEntry(t, path);
    EnsureEntryCounts(t, path);
    var a := AddNodeFiles(e, path, node).value;
    NodeFilesCounts(e, path, node);
    FrameTrans(t, e, a, {path}, {path});
    assert {path} + {path} == {path};
    CountedTrans(t, e, a, 0, FilesHere(node));
    WalkChildrenCounts(node, path, 0, a);
    var r := WalkChildren(node, path, 0, a).value;
    FrameTrans(t, a, r, {path}, VisitedFrom(node, path, 0));
    CountedTrans(t, a, r, FilesHere(node), FileCountFrom(node, 0));
  }

  lemma NodeFilesCounts(t: Tally, path: string, node: Dir)
    requires path in t.folderStats && AddNodeFiles(t, path, node).Some?
    ensures Frame(t, AddNodeFiles(t, path, node).value, {path})
    ensures Counted(t, AddNodeFiles(t, path, node).value, FilesHere(node))
  {
    if node.flacFiles.Some? {
      AddFilesCounts(t, path, node.flacFiles.value, 0);
    } else {
      Unchanged(t, {path});
    }
  }

  /** Walking the children from i is walking child i, then the children after it. */
  lemma ChildStep(node: Dir, path: string, i: nat, t: Tally)
    requires i < |node.subdirectories|
    ensures WalkSpec(node.subdirectories[i], JoinPath(path, node.subdirectories[i].name), t).None? ==> WalkChildren(node, path, i, t).None?
    ensures WalkSpec(node.subdirectories[i], JoinPath(path, node.subdirectories[i].name), t).Some? ==>
      (WalkChildren(node, path, i, t)
      == WalkChildren(node, path, i + 1, WalkSpec(node.subdirectories[i], JoinPath(path, node.subdirectories[i].name), t).value))
  {
  }

  /** After child i is walked from before to after, with ok telling whether it raised KeyError. */
  lemma WalkedChild(node: Dir, path: string, i: nat, before: Tally, after: Tally, ok: bool)
    requires i < |node.subdirectories|
    requires ok <==> WalkSpec(node.subdirectories[i], JoinPath(path, node.subdirectories[i].name), before).Some?
    requires ok ==> Some(after) == WalkSpec(node.subdirectories[i], JoinPath(path, node.subdirectories[i].name), before)
    ensures !ok ==> WalkChildren(node, path, i, before).None?
    ensures ok ==> WalkChildren(node, path, i, before) == WalkChildren(node, path, i + 1, after)
  {
    ChildStep(node, path, i, before);
  }

  /** A successful walk of the children from i is a successful walk of child i, then of the children after it. */
  lemma ChildStepSome(node: Dir, path: string, i: nat, t: Tally)
    requires i < |node.subdirectories| && WalkChildren(node, path, i, t).Some?
    ensures WalkSpec(node.subdirectories[i], JoinPath(path, node.subdirectories[i].name), t).Some?
    ensures WalkChildren(node, path, i, t)
      == WalkChildren(node, path, i + 1, WalkSpec(node.subdirectories[i], JoinPath(path, node.subdirectories[i].name), t).value)
  {
    ChildStep(node, path, i, t);
  }

  lemma {:induction false} WalkChildrenCounts(node: Dir, path: string, i: nat, t: Tally)
    requires i <= |node.subdirectories| && WalkChildren(node, path, i, t).Some?
    ensures Frame(t, WalkChildren(node, path, i, t).value, VisitedFrom(node, path, i))
    ensures Counted(t, WalkChildren(node, path, i, t).value, FileCountFrom(node, i))
    decreases node, |node.subdirectories| - i
  {
    if i == |node.subdirectories| {
      Unchanged(t, {});
    } else {
      var sub := node.subdirectories[i];
      var subPath := JoinPath(path, sub.name);
      ChildStepSome(node, path, i, t);
      WalkCounts(sub, subPath, t);
      var t' := WalkSpec(sub, subPath, t).value;
      WalkChildrenCounts(node, path, i + 1, t');
      var r := WalkChildren(node, path, i + 1, t').value;
      FrameTrans(t, t', r, Visited(sub, subPath), VisitedFrom(node, path, i + 1));
      CountedTrans(t, t', r, FileCount(sub), FileCountFrom(node, i + 1));
    }
  }

  // ---------------------------------------------------------------------
  // process_dataset
  // ---------------------------------------------------------------------

  /** The sum of the counters of ks, in order (a missing key reads as 0). */
  function SumSeq(m: map<string, int>, ks: seq<string>): int {
    if ks == [] then 0
    else SumSeq(m, ks[..|ks| - 1]) + (if ks[|ks| - 1] in m then m[ks[|ks| - 1]] else 0)
  }

  /** Summing distinct keys in order is summing over the set of those keys. */
  lemma {:induction false} SumSeqPrefix(m: map<string, int>, ks: seq<string>, n: nat)
    requires n <= |ks| && Distinct(ks)
    ensures SumSeq(m, ks[..n]) == Sums.SumOver(set j | 0 <= j < n :: ks[j], k => if k in m then m[k] else 0)
  {
    var f := k => if k in m then m[k] else 0;
    if n > 0 {
      SumSeqPrefix(m, ks, n - 1);
      var s := set j | 0 <= j < n :: ks[j];
      var s' := set j | 0 <= j < n - 1 :: ks[j];
      assert ks[..n][..n - 1] == ks[..n - 1];
      Sums.SumOverRemove(s, f, ks[n - 1]);
      assert s - {ks[n - 1]} == s' by {
        forall x | x in s - {ks[n - 1]}
          ensures x in s'
        {
          var j :| 0 <= j < n && ks[j] == x;
        }
      }
    }
  }

  /** Over the label keys, the in-order sum of the labels is sum(d.values()). */
  lemma SumLabelsIsSumValues(m: map<string, int>)
    requires m.Keys == LabelSet()
    ensures SumSeq(m, BucketLabels()) == SumValues(m)
  {
    var ls := BucketLabels();
    BucketLabelsDistinct();
    SumSeqPrefix(m, ls, |ls|);
    assert ls[..|ls|] == ls;
    assert (set j | 0 <= j < |ls| :: ls[j]) == LabelSet();
  }

  /** The zero counters and the empty folder_stats sum to zero. */
  lemma InitialSums()
    ensures SumValues(ZeroCounts()) == 0
    ensures TotalFiles(map[]) == 0
  {
    var m := ZeroCounts();
    Sums.SumOverZero(m.Keys, k => if k in m then m[k] else 0);
  }

  /**
   * What a walk from the root, under the root's name and from the empty
   * tally, leaves behind: every visited folder has an entry and nothing else
   * does, every entry is consistent, and the overall counters, the folders'
   * total_files and the tree's file count agree.
   */
  lemma RootTally(root: Dir, r: Tally)
    requires WalkSpec(root, root.name, Tally(map[], ZeroCounts())) == Some(r)
    ensures r.overall.Keys == LabelSet()
    ensures r.folderStats.Keys == Visited(root, root.name)
    ensures Consistent(r.folderStats)
    ensures SumValues(r.overall) == FileCount(root)
    ensures TotalFiles(r.folderStats) == FileCount(root)
  {
    var init := Tally(map[], ZeroCounts());
    WalkCounts(root, root.name, init);
    assert Frame(init, r, Visited(root, root.name)) && Counted(init, r, FileCount(root));
    InitialSums();
  }

  /**
   * process_dataset(json_data, ...): walk from the root under the root's name,
   * then total_files = sum(overall_buckets.values()). The result's total is
   * the tree's file count and the sum of every folder's total_files; every
   * visited folder has an entry and nothing else does.
   */
  method ProcessDataset(jsonData: Dir) returns (ok: bool, overallBuckets: map<string, int>, folderStats: map<string, FolderStat>, totalFiles: int)
    ensures ok <==> NonNegative(jsonData)
    ensures ok <==> WalkSpec(jsonData, jsonData.name, Tally(map[], ZeroCounts())).Some?
    ensures ok ==> WalkSpec(jsonData, jsonData.name, Tally(map[], ZeroCounts())) == Some(Tally(folderStats, overallBuckets))
    ensures ok ==> overallBuckets.Keys == LabelSet()
    ensures ok ==> folderStats.Keys == Visited(jsonData, jsonData.name)
    ensures ok ==> Consistent(folderStats)
    ensures ok ==> totalFiles == SumValues(overallBuckets)
    ensures ok ==> totalFiles == FileCount(jsonData)
    ensures ok ==> totalFiles == TotalFiles(folderStats)
  {
    var dist := new Distribution();
    var rootPath := jsonData.name;
    ok := dist.Walk(jsonData, rootPath);
    WalkSucceeds(jsonData, rootPath, Tally(map[], ZeroCounts()));
    overallBuckets := dist.overallBuckets;
    folderStats := dist.folderStats;
    totalFiles := 0;
    if !ok {
      return;
    }
    RootTally(jsonData, Tally(folderStats, overallBuckets));
    totalFiles := SumCounters(overallBuckets);
  }

  /** sum(d.values()) over a counter dict keyed by the labels, read in label order. */
  method SumCounters(m: map<string, int>) returns (total: int)
    requires m.Keys == LabelSet()
    ensures total == SumValues(m)
  {
    var labels := GetBucketLabels();
    total := 0;
    for i := 0 to |labels|
      invariant total == SumSeq(m, labels[..i])
    {
      LabelSetIsLabels(labels[i]);
      var prefix := labels[..i + 1];
      assert prefix[..i] == labels[..i] && prefix[i] == labels[i];
      assert SumSeq(m, prefix) == SumSeq(m, labels[..i]) + m[labels[i]];
      total := total + m[labels[i]];
    }
    assert labels[..|labels|] == labels;
    assert total == SumSeq(m, BucketLabels());
    SumLabelsIsSumValues(m);
  }
}
