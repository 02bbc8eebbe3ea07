/**
 * The sampling utility for the TTS audio set: a constant table of duration
 * buckets, the audio-file test, the folder -> bucket -> files grouping, the
 * per-folder quota sampling and the final de-duplication by (folder, path).
 */
module SampleTts {
  import opened Wrappers
  import Sums

  // ---------------------------------------------------------------------
  // Duration buckets
  // ---------------------------------------------------------------------

  /** A named half-open interval [lo, hi); `hi == None` means open-ended. */
  datatype BucketDef = BucketDef(name: string, lo: real, hi: Option<real>)

  /** The bucket table, in its declaration order (the order of the plan's columns). */
  const BucketDefs: seq<BucketDef> := [
    BucketDef("[0, 1)", 0.0, Some(1.0)),
    BucketDef("[1, 5)", 1.0, Some(5.0)),
    BucketDef("[5, 10)", 5.0, Some(10.0)),
    BucketDef("[10, 15)", 10.0, Some(15.0)),
    BucketDef("[15, 20)", 15.0, Some(20.0)),
    BucketDef("[20, 25)", 20.0, Some(25.0)),
    BucketDef("[25, 30)", 25.0, Some(30.0)),
    BucketDef("[30+)", 30.0, None)
  ]

  /** The test applied to one table entry. */
  predicate InBucket(b: BucketDef, d: real) {
    match b.hi
    case None => d >= b.lo
    case Some(hi) => b.lo <= d < hi
  }

  /** First entry of defs that contains d, searched in table order. */
  function FindBucket(defs: seq<BucketDef>, d: real): (r: Option<nat>)
    ensures r.Some? ==> r.value < |defs| && InBucket(defs[r.value], d)
    ensures r.Some? ==> forall j :: 0 <= j < r.value ==> !InBucket(defs[j], d)
    ensures r.None? ==> forall j :: 0 <= j < |defs| ==> !InBucket(defs[j], d)
  {
    if defs == [] then None
    else if InBucket(defs[0], d) then Some(0)
    else match FindBucket(defs[1..], d)
      case None => None
      case Some(k) => Some(k + 1)
  }

  /** The name of the bucket of a duration, or None when no bucket holds it. */
  function AssignBucket(d: real): (r: Option<string>)
    ensures r.Some? ==> exists i :: 0 <= i < |BucketDefs| && BucketDefs[i].name == r.value && InBucket(BucketDefs[i], d)
    ensures r.None? ==> forall i :: 0 <= i < |BucketDefs| ==> !InBucket(BucketDefs[i], d)
  {
    match FindBucket(BucketDefs, d)
    case None => None
    case Some(i) => Some(BucketDefs[i].name)
  }

  /**
   * An independent reading of the table as a chain of thresholds: the index of
   * the bucket that a non-negative duration belongs to.
   */
  function ThresholdIndex(d: real): (i: nat)
    requires d >= 0.0
    ensures i < |BucketDefs| && InBucket(BucketDefs[i], d)
  {
    if d < 1.0 then 0
    else if d < 5.0 then 1
    else if d < 10.0 then 2
    else if d < 15.0 then 3
    else if d < 20.0 then 4
    else if d < 25.0 then 5
    else if d < 30.0 then 6
    else 7
  }

  /** No duration lies in two buckets of the table. */
  lemma BucketsDisjoint(d: real, i: nat, j: nat)
    requires i < j < |BucketDefs|
    ensures !(InBucket(BucketDefs[i], d) && InBucket(BucketDefs[j], d))
  {
    var a, b := BucketDefs[i], BucketDefs[j];
    assert a.hi.Some? && a.hi.value <= b.lo;
  }

  /** The bucket names are pairwise distinct, so a name identifies its entry. */
  lemma BucketNamesDistinct(i: nat, j: nat)
    requires i < j < |BucketDefs|
    ensures BucketDefs[i].name != BucketDefs[j].name
  {
  }

  /** The bucket that holds d is the one assign_bucket names: the match is unique. */
  lemma AssignBucketUnique(d: real, i: nat)
    requires i < |BucketDefs| && InBucket(BucketDefs[i], d)
    ensures AssignBucket(d) == Some(BucketDefs[i].name)
  {
    var r := FindBucket(BucketDefs, d);
    assert r.Some?;
    if r.value < i {
      BucketsDisjoint(d, r.value, i);
    }
  }

  /**
   * assign_bucket fails exactly on negative durations; otherwise it names the
   * bucket the threshold chain picks, and every duration of 30 s or more is "[30+)".
   */
  lemma AssignBucketTotal(d: real)
    ensures AssignBucket(d).None? <==> d < 0.0
    ensures d >= 0.0 ==> AssignBucket(d) == Some(BucketDefs[ThresholdIndex(d)].name)
    ensures d >= 30.0 ==> AssignBucket(d) == Some("[30+)")
  {
    if d >= 0.0 {
      AssignBucketUnique(d, ThresholdIndex(d));
    }
  }

  // ---------------------------------------------------------------------
  // Audio-file test
  // ---------------------------------------------------------------------

  /** The extensions that count as audio, lower case. */
  const AudioExtensions: set<string> := {".wav", ".flac", ".mp3", ".m4a", ".ogg"}

  /** Index of the last occurrence of c in s, or -1. */
  function LastIndexOf(s: string, c: char): (r: int)
    ensures -1 <= r < |s|
    ensures r >= 0 ==> s[r] == c
    ensures forall k :: r < k < |s| ==> s[k] != c
  {
    if s == [] then -1
    else if s[|s| - 1] == c then |s| - 1
    else LastIndexOf(s[..|s| - 1], c)
  }

  /**
   * posixpath.splitext: the extension starts at the last '.' of the last path
   * component, provided that component has a character other than '.' before
   * it (so ".wav" and "..wav" have no extension).
   */
  function SplitExt(p: string): (r: (string, string))
    ensures r.0 + r.1 == p
  {
    var sep := LastIndexOf(p, '/');
    var dot := LastIndexOf(p, '.');
    if dot > sep && exists k :: sep < k < dot && p[k] != '.' then
      assert p[..dot] + p[dot..] == p;
      (p[..dot], p[dot..])
    else (p, "")
  }

  /** str.lower restricted to ASCII letters. */
  function LowerChar(c: char): char {
    if 'A' <= c <= 'Z' then (c as int - 'A' as int + 'a' as int) as char else c
  }

  function Lower(s: string): (r: string)
    ensures |r| == |s|
    ensures forall k :: 0 <= k < |s| ==> r[k] == LowerChar(s[k])
  {
    seq(|s|, k requires 0 <= k < |s| => LowerChar(s[k]))
  }

  /** is_audio_file: the lower-cased extension is one of the audio extensions. */
  function IsAudioFile(path: string): (r: bool)
    ensures r ==> exists e :: e in AudioExtensions && |e| <= |path| && Lower(path[|path| - |e|..]) == e
  {
    var ext := SplitExt(path).1;
    assert path[|path| - |ext|..] == ext;
    Lower(ext) in AudioExtensions
  }

  /** The extension splitext returns is "" or a '.' followed by no '.' or '/'. */
  lemma SplitExtShape(p: string)
    ensures SplitExt(p).1 == [] || (SplitExt(p).1[0] == '.' &&
              forall k :: 1 <= k < |SplitExt(p).1| ==> SplitExt(p).1[k] != '.' && SplitExt(p).1[k] != '/')
  {
  }

  /** A path separator or a dot. */
  predicate IsSepOrDot(c: char) { c == '/' || c == '.' }

  /**
   * Acceptance is by suffix: a path is audio exactly when it is a stem followed
   * by an audio extension in any letter case, where the stem's last component
   * is not made of dots only.
   */
  lemma IsAudioFileBySuffix(stem: string, ext: string)
    requires Lower(ext) in AudioExtensions
    requires exists k :: 0 <= k < |stem| && !IsSepOrDot(stem[k]) &&
                         forall m :: k < m < |stem| ==> stem[m] != '/'
    ensures IsAudioFile(stem + ext)
  {
    var p := stem + ext;
    var k :| 0 <= k < |stem| && !IsSepOrDot(stem[k]) && forall m :: k < m < |stem| ==> stem[m] != '/';
    assert ext[0] == '.' && forall m :: 1 <= m < |ext| ==> ext[m] != '.' && ext[m] != '/' by {
      var l := Lower(ext);
      assert l == ".wav" || l == ".flac" || l == ".mp3" || l == ".m4a" || l == ".ogg";
      assert |ext| == |l|;
      assert forall m :: 0 <= m < |ext| ==> LowerChar(ext[m]) == l[m];
    }
    var dot := LastIndexOf(p, '.');
    assert p[|stem|] == '.';
    assert dot == |stem|;
    var sep := LastIndexOf(p, '/');
    assert p[k] == stem[k];
    assert sep < k;
    assert SplitExt(p) == (stem, ext);
  }

  /** Acceptance ignores letter case: paths that agree up to ASCII case are accepted together. */
  lemma IsAudioFileCaseInsensitive(p: string, q: string)
    requires Lower(p) == Lower(q)
    ensures IsAudioFile(p) == IsAudioFile(q)
  {
    ExtLowerAgree(p, q);
  }

  /** Paths that agree up to ASCII case have extensions that agree up to ASCII case. */
  lemma ExtLowerAgree(p: string, q: string)
    requires Lower(p) == Lower(q)
    ensures Lower(SplitExt(p).1) == Lower(SplitExt(q).1)
  {
    LowerIndexAgree(p, q, '/');
    LowerIndexAgree(p, q, '.');
    DotsAgree(p, q);
    var sep, dot := LastIndexOf(p, '/'), LastIndexOf(p, '.');
    StemAgree(p, q, sep, dot);
    if dot > sep && exists k :: sep < k < dot && p[k] != '.' {
      LowerSuffix(p, q, dot);
    }
  }

  /** With the dots at the same places, both paths have a non-dot between sep and dot, or neither has. */
  lemma StemAgree(p: string, q: string, sep: int, dot: int)
    requires |p| == |q| && forall k :: 0 <= k < |p| ==> (p[k] == '.' <==> q[k] == '.')
    requires -1 <= sep && dot < |p|
    ensures (exists k :: sep < k < dot && p[k] != '.') <==> (exists k :: sep < k < dot && q[k] != '.')
  {
    if exists k :: sep < k < dot && p[k] != '.' {
      var k :| sep < k < dot && p[k] != '.';
      assert q[k] != '.';
    }
    if exists k :: sep < k < dot && q[k] != '.' {
      var k :| sep < k < dot && q[k] != '.';
      assert p[k] != '.';
    }
  }

  /** Paths that agree up to ASCII case have their dots at the same places. */
  lemma DotsAgree(p: string, q: string)
    requires Lower(p) == Lower(q)
    ensures |p| == |q| && forall k :: 0 <= k < |p| ==> (p[k] == '.' <==> q[k] == '.')
  {
    assert |p| == |q|;
    forall k | 0 <= k < |p| ensures p[k] == '.' <==> q[k] == '.' {
      assert LowerChar(p[k]) == LowerChar(q[k]);
    }
  }

  /** Agreement up to ASCII case carries over to suffixes. */
  lemma LowerSuffix(p: string, q: string, i: nat)
    requires Lower(p) == Lower(q) && i <= |p|
    ensures Lower(p[i..]) == Lower(q[i..])
  {
    assert |p| == |q|;
    forall m | 0 <= m < |p| - i ensures Lower(p[i..])[m] == Lower(q[i..])[m] {
      assert Lower(p)[i + m] == Lower(q)[i + m];
    }
  }

  /** Paths that agree up to ASCII case put a given separator at the same places. */
  lemma {:induction false} LowerIndexAgree(p: string, q: string, c: char)
    requires Lower(p) == Lower(q) && IsSepOrDot(c)
    ensures LastIndexOf(p, c) == LastIndexOf(q, c)
    decreases |p|
  {
    assert |p| == |q|;
    if p != [] {
      var n := |p| - 1;
      assert LowerChar(p[n]) == LowerChar(q[n]);
      assert (p[n] == c) == (q[n] == c);
      assert Lower(p[..n]) == Lower(q[..n]) by {
        forall m | 0 <= m < n ensures Lower(p[..n])[m] == Lower(q[..n])[m] {
          assert LowerChar(p[m]) == LowerChar(q[m]);
        }
      }
      LowerIndexAgree(p[..n], q[..n], c);
    }
  }

  /** A last component made of a dot and an extension (".wav") is a hidden name, not an audio file. */
  lemma DotNameIsNotAudio(dir: string, name: string)
    requires |name| > 0 && name[0] == '.'
    requires forall k :: 1 <= k < |name| ==> name[k] != '.' && name[k] != '/'
    ensures SplitExt(dir + "/" + name).1 == ""
    ensures !IsAudioFile(dir + "/" + name)
  {
    var p := dir + "/" + name;
    var n := |dir|;
    assert p[n] == '/' && p[n + 1] == '.';
    assert forall k :: n + 1 < k < |p| ==> p[k] != '.' && p[k] != '/';
    assert LastIndexOf(p, '/') == n;
    assert LastIndexOf(p, '.') == n + 1;
  }

  // ---------------------------------------------------------------------
  // Indexed files and the folder -> bucket -> files map
  // ---------------------------------------------------------------------

  /** One indexed audio file; `bucket` is None when no bucket holds its duration. */
  datatype FileInfo = FileInfo(folder: string, path: string, relPath: string, duration: real, bucket: Option<string>)

  /** folder -> bucket name -> files, as nested dicts. */
  type BucketMap = map<string, map<string, seq<FileInfo>>>

  /** The list at mapping[folder][bucket], or [] when either key is absent. */
  function Lookup(m: BucketMap, folder: string, bucket: string): seq<FileInfo> {
    if folder in m && bucket in m[folder] then m[folder][bucket] else []
  }

  /** The files of `files` that belong in mapping[folder][bucket], in input order. */
  function Select(files: seq<FileInfo>, folder: string, bucket: string): (r: seq<FileInfo>)
    ensures forall x :: x in r ==> x.folder == folder && x.bucket == Some(bucket)
    ensures |r| <= |files|
  {
    if files == [] then []
    else
      var last := files[|files| - 1];
      Select(files[..|files| - 1], folder, bucket) +
        (if last.folder == folder && last.bucket == Some(bucket) then [last] else [])
  }

  /** How many files carry a bucket. */
  function CountBucketed(files: seq<FileInfo>): (n: nat)
    ensures n <= |files|
  {
    if files == [] then 0
    else CountBucketed(files[..|files| - 1]) + (if files[|files| - 1].bucket.Some? then 1 else 0)
  }

  /** The number of files in one folder's bucket lists. */
  ghost function FolderTotal(fm: map<string, seq<FileInfo>>): int {
    Sums.SumOver(fm.Keys, b => if b in fm then |fm[b]| else 0)
  }

  /** The number of files in all lists of the map. */
  ghost function MapTotal(m: BucketMap): int {
    Sums.SumOver(m.Keys, f => if f in m then FolderTotal(m[f]) else 0)
  }

  /** Neither a folder dict nor a bucket list is ever empty. */
  ghost predicate NoEmptyEntries(m: BucketMap) {
    forall f :: f in m ==> m[f] != map[] && forall b :: b in m[f] ==> m[f][b] != []
  }

  /** mapping.setdefault(folder, {}).setdefault(bucket, []).append(x) */
  function Put(m: BucketMap, folder: string, bucket: string, x: FileInfo): (r: BucketMap)
    ensures r.Keys == m.Keys + {folder}
    ensures forall f :: f in m && f != folder ==> r[f] == m[f]
    ensures Lookup(r, folder, bucket) == Lookup(m, folder, bucket) + [x]
  {
    var fm := if folder in m then m[folder] else map[];
    var list := if bucket in fm then fm[bucket] else [];
    m[folder := fm[bucket := list + [x]]]
  }

  /** Each append adds one file to the total. */
  lemma PutTotal(m: BucketMap, folder: string, bucket: string, x: FileInfo)
    ensures MapTotal(Put(m, folder, bucket, x)) == MapTotal(m) + 1
  {
    var m' := Put(m, folder, bucket, x);
    var fm := if folder in m then m[folder] else map[];
    var fm' := m'[folder];
    Sums.SumOverPut(fm.Keys, b => if b in fm then |fm[b]| else 0, b => if b in fm' then |fm'[b]| else 0, bucket);
    assert fm'.Keys == fm.Keys + {bucket};
    assert FolderTotal(fm') == FolderTotal(fm) + 1;
    assert folder !in m ==> FolderTotal(fm) == 0;
    Sums.SumOverPut(m.Keys, f => if f in m then FolderTotal(m[f]) else 0, f => if f in m' then FolderTotal(m'[f]) else 0, folder);
    assert m'.Keys == m.Keys + {folder};
  }

  /** Select splits along a concatenation: it is a filter that keeps input order. */
  lemma {:induction false} SelectAppend(a: seq<FileInfo>, b: seq<FileInfo>, folder: string, bucket: string)
    ensures Select(a + b, folder, bucket) == Select(a, folder, bucket) + Select(b, folder, bucket)
    decreases |b|
  {
    if b == [] {
      assert a + b == a;
    } else {
      var n := |b| - 1;
      assert (a + b)[..|a + b| - 1] == a + b[..n];
      SelectAppend(a, b[..n], folder, bucket);
    }
  }

  /** A file that belongs in mapping[folder][bucket] occurs there exactly as often as in the input. */
  lemma {:induction false} SelectCount(files: seq<FileInfo>, folder: string, bucket: string, x: FileInfo)
    requires x.folder == folder && x.bucket == Some(bucket)
    ensures multiset(Select(files, folder, bucket))[x] == multiset(files)[x]
    decreases |files|
  {
    if files != [] {
      var n := |files| - 1;
      SelectCount(files[..n], folder, bucket, x);
      assert files == files[..n] + [files[n]];
    }
  }

  /** mapping is exactly the grouping of files: the lists, the folders present, no empty entries. */
  ghost predicate Groups(mapping: BucketMap, files: seq<FileInfo>) {
    && (forall f, b :: Lookup(mapping, f, b) == Select(files, f, b))
    && (forall f :: f in mapping <==> exists i :: 0 <= i < |files| && files[i].folder == f && files[i].bucket.Some?)
    && NoEmptyEntries(mapping)
  }

  /** What an append does to the lists. */
  lemma PutLookup(m: BucketMap, folder: string, bucket: string, x: FileInfo, f: string, b: string)
    ensures Lookup(Put(m, folder, bucket, x), f, b) == Lookup(m, f, b) + (if f == folder && b == bucket then [x] else [])
  {
  }

  /** Select on one more file. */
  lemma SelectSnoc(files: seq<FileInfo>, x: FileInfo, f: string, b: string)
    ensures Select(files + [x], f, b) == Select(files, f, b) + (if x.folder == f && x.bucket == Some(b) then [x] else [])
  {
    assert (files + [x])[..|files|] == files;
  }

  lemma GroupsEmpty()
    ensures Groups(map[], [])
  {
  }

  /** An append never leaves an empty folder entry or an empty list behind. */
  lemma PutNoEmpty(m: BucketMap, folder: string, bucket: string, x: FileInfo)
    requires NoEmptyEntries(m)
    ensures NoEmptyEntries(Put(m, folder, bucket, x))
  {
    var m' := Put(m, folder, bucket, x);
    forall f | f in m'
      ensures m'[f] != map[] && forall b :: b in m'[f] ==> m'[f][b] != []
    {
      if f == folder {
        assert bucket in m'[f];
      } else {
        assert m'[f] == m[f];
      }
    }
  }

  /** Grouping one more file: append it when it has a bucket, skip it otherwise. */
  lemma GroupsStep(m: BucketMap, files: seq<FileInfo>, x: FileInfo)
    requires Groups(m, files)
    ensures x.bucket.Some? ==> Groups(Put(m, x.folder, x.bucket.value, x), files + [x])
    ensures x.bucket.None? ==> Groups(m, files + [x])
  {
    var m' := if x.bucket.Some? then Put(m, x.folder, x.bucket.value, x) else m;
    ListsStep(m, m', files, x);
    FoldersStep(m, m', files, x);
    if x.bucket.Some? {
      PutNoEmpty(m, x.folder, x.bucket.value, x);
    }
  }

  /** The lists after one more file. */
  lemma ListsStep(m: BucketMap, m': BucketMap, files: seq<FileInfo>, x: FileInfo)
    requires forall f, b :: Lookup(m, f, b) == Select(files, f, b)
    requires m' == if x.bucket.Some? then Put(m, x.folder, x.bucket.value, x) else m
    ensures forall f, b :: Lookup(m', f, b) == Select(files + [x], f, b)
  {
    forall f, b ensures Lookup(m', f, b) == Select(files + [x], f, b) {
      SelectSnoc(files, x, f, b);
      if x.bucket.Some? {
        PutLookup(m, x.folder, x.bucket.value, x, f, b);
      }
    }
  }

  /** The folders present after one more file. */
  lemma FoldersStep(m: BucketMap, m': BucketMap, files: seq<FileInfo>, x: FileInfo)
    requires forall f :: f in m <==> exists i :: 0 <= i < |files| && files[i].folder == f && files[i].bucket.Some?
    requires m' == if x.bucket.Some? then Put(m, x.folder, x.bucket.value, x) else m
    ensures forall f :: f in m' <==> exists i :: 0 <= i < |files + [x]| && (files + [x])[i].folder == f && (files + [x])[i].bucket.Some?
  {
    var files' := files + [x];
    forall f ensures f in m' <==> exists i :: 0 <= i < |files'| && files'[i].folder == f && files'[i].bucket.Some? {
      if f in m' {
        if f in m {
          var i :| 0 <= i < |files| && files[i].folder == f && files[i].bucket.Some?;
          assert files'[i] == files[i];
        } else {
          assert files'[|files|] == x;
        }
      }
      if exists i :: 0 <= i < |files'| && files'[i].folder == f && files'[i].bucket.Some? {
        var i :| 0 <= i < |files'| && files'[i].folder == f && files'[i].bucket.Some?;
        if i < |files| {
          assert files[i] == files'[i];
        }
      }
    }
  }

  /** The loop state of build_folder_bucket_map after the first i files. */
  ghost predicate Grouped(mapping: BucketMap, files: seq<FileInfo>, i: nat) {
    && i <= |files|
    && Groups(mapping, files[..i])
    && MapTotal(mapping) == CountBucketed(files[..i])
  }

  /** The loop's step: the mapping grown by file i is the grouping of the first i + 1 files. */
  lemma GroupedStep(m: BucketMap, files: seq<FileInfo>, i: nat)
    requires i < |files| && Grouped(m, files, i)
    ensures files[i].bucket.None? ==> Grouped(m, files, i + 1)
    ensures files[i].bucket.Some? ==> Grouped(Put(m, files[i].folder, files[i].bucket.value, files[i]), files, i + 1)
  {
    var fi := files[i];
    assert files[..i + 1] == files[..i] + [fi];
    GroupsStep(m, files[..i], fi);
    if fi.bucket.Some? {
      PutTotal(m, fi.folder, fi.bucket.value, fi);
    }
    assert CountBucketed(files[..i] + [fi]) == CountBucketed(files[..i]) + (if fi.bucket.Some? then 1 else 0);
  }

  /** At the end of the loop the mapping is the grouping of all the files. */
  lemma GroupedAll(mapping: BucketMap, files: seq<FileInfo>)
    requires Grouped(mapping, files, |files|)
    ensures forall f, b :: Lookup(mapping, f, b) == Select(files, f, b)
    ensures forall f :: f in mapping <==> exists i :: 0 <= i < |files| && files[i].folder == f && files[i].bucket.Some?
    ensures NoEmptyEntries(mapping)
    ensures MapTotal(mapping) == CountBucketed(files)
  {
    assert files[..|files|] == files;
  }

  /**
   * build_folder_bucket_map: groups the bucketed files by folder and bucket,
   * dropping files whose bucket is None.
   */
  method BuildFolderBucketMap(files: seq<FileInfo>) returns (mapping: BucketMap)
    ensures forall f, b :: Lookup(mapping, f, b) == Select(files, f, b)
    ensures forall f :: f in mapping <==> exists i :: 0 <= i < |files| && files[i].folder == f && files[i].bucket.Some?
    ensures NoEmptyEntries(mapping)
    ensures MapTotal(mapping) == CountBucketed(files)
  {
    mapping := map[];
    var i := 0;
    assert files[..i] == [];
    GroupsEmpty();
    while i < |files|
      invariant Grouped(mapping, files, i)
    {
      var fi := files[i];
      GroupedStep(mapping, files, i);
      if fi.bucket.Some? {
        mapping := Put(mapping, fi.folder, fi.bucket.value, fi);
      }
      i := i + 1;
    }
    GroupedAll(mapping, files);
  }

  // ---------------------------------------------------------------------
  // Quota sampling for one folder
  // ---------------------------------------------------------------------

  /** One row of the sampling plan: column name -> cell, None standing for an empty (NaN) cell. */
  type PlanRow = map<string, Option<int>>

  /** The plan column holding the requested count of a bucket. */
  function SampleColumn(name: string): string {
    "Samples " + name
  }

  /** The count a row asks for: the cell's value, 0 for a NaN cell or a missing column. */
  function RequestedCount(row: PlanRow, name: string): int {
    var col := SampleColumn(name);
    if col in row && row[col].Some? then row[col].value else 0
  }

  /** An entry of the `requested` dict: bucket name -> positive count. */
  datatype Request = Request(bucket: string, count: nat)

  /** The requests a row makes, for the buckets of defs, in the order of defs. */
  function Wanted(row: PlanRow, defs: seq<BucketDef>): (r: seq<Request>)
    ensures |r| <= |defs|
  {
    if defs == [] then []
    else
      var n := RequestedCount(row, defs[0].name);
      (if n > 0 then [Request(defs[0].name, n)] else []) + Wanted(row, defs[1..])
  }

  /** Every request names a bucket of the table and carries the row's positive count for it. */
  lemma {:induction false} WantedMember(row: PlanRow, defs: seq<BucketDef>, k: nat)
    requires k < |Wanted(row, defs)|
    ensures Wanted(row, defs)[k].count > 0
    ensures Wanted(row, defs)[k].count == RequestedCount(row, Wanted(row, defs)[k].bucket)
    ensures exists i :: 0 <= i < |defs| && defs[i].name == Wanted(row, defs)[k].bucket
  {
    var n := RequestedCount(row, defs[0].name);
    var head := if n > 0 then [Request(defs[0].name, n)] else [];
    var rest := Wanted(row, defs[1..]);
    assert Wanted(row, defs) == head + rest;
    if k >= |head| {
      WantedMember(row, defs[1..], k - |head|);
      var i :| 0 <= i < |defs[1..]| && defs[1..][i].name == rest[k - |head|].bucket;
      assert defs[i + 1].name == Wanted(row, defs)[k].bucket;
    } else {
      assert defs[0].name == Wanted(row, defs)[k].bucket;
    }
  }

  /** The table's names are pairwise distinct. */
  ghost predicate DistinctNames(defs: seq<BucketDef>) {
    forall a, b :: 0 <= a < b < |defs| ==> defs[a].name != defs[b].name
  }

  /** Wanted distributes over concatenation of tables. */
  lemma {:induction false} WantedAppend(row: PlanRow, a: seq<BucketDef>, b: seq<BucketDef>)
    ensures Wanted(row, a + b) == Wanted(row, a) + Wanted(row, b)
    decreases |a|
  {
    if a == [] {
      assert a + b == b;
    } else {
      assert (a + b)[0] == a[0] && (a + b)[1..] == a[1..] + b;
      WantedAppend(row, a[1..], b);
    }
  }

  /** Around entry i, the requests are those before it, its own (at most one) and those after it. */
  lemma WantedAround(row: PlanRow, defs: seq<BucketDef>, i: nat)
    requires i < |defs|
    ensures Wanted(row, defs) == Wanted(row, defs[..i]) + Wanted(row, defs[i..i + 1]) + Wanted(row, defs[i + 1..])
    ensures |Wanted(row, defs[i..i + 1])| <= 1
  {
    assert defs == defs[..i] + (defs[i..i + 1] + defs[i + 1..]);
    WantedAppend(row, defs[..i], defs[i..i + 1] + defs[i + 1..]);
    WantedAppend(row, defs[i..i + 1], defs[i + 1..]);
  }

  /** A bucket is requested exactly when the row asks for a positive count of it. */
  lemma WantedComplete(row: PlanRow, defs: seq<BucketDef>, i: nat)
    requires i < |defs|
    ensures RequestedCount(row, defs[i].name) > 0 <==>
            exists k :: 0 <= k < |Wanted(row, defs)| && Wanted(row, defs)[k].bucket == defs[i].name
  {
    var w := Wanted(row, defs);
    var name := defs[i].name;
    if exists k :: 0 <= k < |w| && w[k].bucket == name {
      var k :| 0 <= k < |w| && w[k].bucket == name;
      WantedMember(row, defs, k);
    }
    if RequestedCount(row, name) > 0 {
      WantedAround(row, defs, i);
      var a := Wanted(row, defs[..i]);
      assert defs[i..i + 1][1..] == [];
      assert Wanted(row, defs[i..i + 1]) == [Request(name, RequestedCount(row, name))];
      assert w[|a|].bucket == name;
    }
  }

  /** A name the table does not hold is never requested. */
  lemma WantedAvoids(row: PlanRow, defs: seq<BucketDef>, name: string, k: nat)
    requires k < |Wanted(row, defs)|
    requires forall m :: 0 <= m < |defs| ==> defs[m].name != name
    ensures Wanted(row, defs)[k].bucket != name
  {
    WantedMember(row, defs, k);
  }

  /** With distinct names, no entry before or after i carries the name of entry i. */
  lemma OthersDiffer(defs: seq<BucketDef>, i: nat, before: seq<BucketDef>, after: seq<BucketDef>)
    requires DistinctNames(defs) && i < |defs| && before == defs[..i] && after == defs[i + 1..]
    ensures forall m :: 0 <= m < |before| ==> before[m].name != defs[i].name
    ensures forall m :: 0 <= m < |after| ==> after[m].name != defs[i].name
  {
    forall m | 0 <= m < |after|
      ensures after[m].name != defs[i].name
    {
      assert after[m] == defs[i + 1 + m];
    }
  }

  /** The request for entry i of the table is the one just after the requests for entries before i. */
  lemma WantedPosition(row: PlanRow, defs: seq<BucketDef>, k: nat, i: nat)
    requires DistinctNames(defs)
    requires k < |Wanted(row, defs)| && i < |defs| && Wanted(row, defs)[k].bucket == defs[i].name
    ensures k == |Wanted(row, defs[..i])|
    ensures Wanted(row, defs)[k + 1..] == Wanted(row, defs[i + 1..])
  {
    var a := Wanted(row, defs[..i]);
    var c := Wanted(row, defs[i..i + 1]);
    var b := Wanted(row, defs[i + 1..]);
    WantedAround(row, defs, i);
    var name := defs[i].name;
    OthersDiffer(defs, i, defs[..i], defs[i + 1..]);
    forall k' | 0 <= k' < |a|
      ensures a[k'].bucket != name
    {
      WantedAvoids(row, defs[..i], name, k');
    }
    forall k' | 0 <= k' < |b|
      ensures b[k'].bucket != name
    {
      WantedAvoids(row, defs[i + 1..], name, k');
    }
    var w := Wanted(row, defs);
    forall k' | 0 <= k' < |w| && !(|a| <= k' < |a| + |c|)
      ensures w[k'].bucket != name
    {
      if k' < |a| {
        assert w[k'] == a[k'];
      } else {
        assert w[k'] == b[k' - |a| - |c|];
      }
    }
    assert |c| == 1;
    assert w[k + 1..] == b;
  }

  /** Requests follow the table order. */
  lemma WantedOrder(row: PlanRow, defs: seq<BucketDef>, k: nat, l: nat, i: nat, j: nat)
    requires DistinctNames(defs)
    requires k < l < |Wanted(row, defs)| && i < |defs| && j < |defs|
    requires Wanted(row, defs)[k].bucket == defs[i].name && Wanted(row, defs)[l].bucket == defs[j].name
    ensures i < j
  {
    WantedPosition(row, defs, k, i);
    var rest := defs[i + 1..];
    var b := Wanted(row, rest);
    assert Wanted(row, defs)[l] == b[l - k - 1];
    WantedMember(row, rest, l - k - 1);
    var m :| 0 <= m < |rest| && rest[m].name == b[l - k - 1].bucket;
    assert defs[i + 1 + m].name == defs[j].name;
  }

  /** Wanted takes the table one entry at a time. */
  lemma WantedHead(row: PlanRow, defs: seq<BucketDef>)
    requires defs != []
    ensures Wanted(row, defs) == Wanted(row, defs[..1]) + Wanted(row, defs[1..])
  {
    assert defs[..1][1..] == [];
  }

  /** One pass of the requested loop: the entry for defs[i], if any, moves from the remaining requests to the result. */
  lemma WantedStep(row: PlanRow, defs: seq<BucketDef>, i: nat, prev: seq<Request>, next: seq<Request>)
    requires i < |defs|
    requires var n := RequestedCount(row, defs[i].name);
             next == prev + (if n > 0 then [Request(defs[i].name, n)] else [])
    ensures next + Wanted(row, defs[i + 1..]) == prev + Wanted(row, defs[i..])
  {
    var rest := defs[i..];
    WantedHead(row, rest);
    assert rest[1..] == defs[i + 1..];
    assert rest[..1][1..] == [];
    var head := Wanted(row, rest[..1]);
    assert next == prev + head;
    assert (prev + head) + Wanted(row, rest[1..]) == prev + (head + Wanted(row, rest[1..]));
  }

  /** The requested dict of sample_for_folder: the table's buckets with a positive count, in table order. */
  method RequestedCounts(row: PlanRow) returns (requested: seq<Request>)
    ensures requested == Wanted(row, BucketDefs)
  {
    requested := [];
    ghost var all := Wanted(row, BucketDefs);
    assert BucketDefs[0..] == BucketDefs;
    for i := 0 to |BucketDefs|
      invariant requested + Wanted(row, BucketDefs[i..]) == all
    {
      ghost var prev := requested;
      var name := BucketDefs[i].name;
      var col := SampleColumn(name);
      if col in row {
        var requestedCount := if row[col].Some? then row[col].value else 0;
        if requestedCount > 0 {
          requested := requested + [Request(name, requestedCount)];
        }
      }
      WantedStep(row, BucketDefs, i, prev, requested);
    }
  }

  /**
   * rng.sample(population, k): k elements drawn without replacement. The draw
   * itself is left open: any index of the remaining pool may be taken.
   */
  method RandomSample<T>(population: seq<T>, k: nat) returns (chosen: seq<T>)
    requires k <= |population|
    ensures |chosen| == k
    ensures multiset(chosen) <= multiset(population)
  {
    var pool := population;
    chosen := [];
    while |chosen| < k
      invariant |chosen| <= k
      invariant |chosen| + |pool| == |population|
      invariant multiset(chosen) + multiset(pool) == multiset(population)
    {
      var j :| 0 <= j < |pool|;
      assert pool == pool[..j] + [pool[j]] + pool[j + 1..];
      chosen := chosen + [pool[j]];
      pool := pool[..j] + pool[j + 1..];
    }
  }

  /** folder_buckets.get(name, []) */
  function Available(folderBuckets: map<string, seq<FileInfo>>, name: string): (r: seq<FileInfo>)
    ensures r == [] <==> name !in folderBuckets || folderBuckets[name] == []
    ensures forall x :: x in r ==> name in folderBuckets && x in folderBuckets[name]
  {
    if name in folderBuckets then folderBuckets[name] else []
  }

  /** What one requested bucket may contribute: nothing, everything, or n distinct draws. */
  ghost predicate Contribution(available: seq<FileInfo>, n: nat, part: seq<FileInfo>) {
    if available == [] then part == []
    else if |available| <= n then part == available
    else |part| == n && multiset(part) <= multiset(available)
  }

  /** A contribution has min(n, |available|) files, all taken from available. */
  lemma ContributionSize(available: seq<FileInfo>, n: nat, part: seq<FileInfo>)
    requires Contribution(available, n, part)
    ensures |part| == if n < |available| then n else |available|
    ensures multiset(part) <= multiset(available)
    ensures forall x :: x in part ==> x in available
  {
    forall x | x in part ensures x in available {
      assert x in multiset(part);
    }
  }

  /** The parts joined in order. */
  function Concat(parts: seq<seq<FileInfo>>): seq<FileInfo> {
    if parts == [] then [] else Concat(parts[..|parts| - 1]) + parts[|parts| - 1]
  }

  /** The sum of the requested counts. */
  function TotalRequested(requests: seq<Request>): nat {
    if requests == [] then 0 else TotalRequested(requests[..|requests| - 1]) + requests[|requests| - 1].count
  }

  /** The loop state of sample_for_folder after the first k requests. */
  ghost predicate SampledSoFar(folderBuckets: map<string, seq<FileInfo>>, requested: seq<Request>, k: nat,
                               parts: seq<seq<FileInfo>>, selected: seq<FileInfo>) {
    && k <= |requested|
    && |parts| == k
    && selected == Concat(parts)
    && (forall m :: 0 <= m < k ==>
          Contribution(Available(folderBuckets, requested[m].bucket), requested[m].count, parts[m]))
    && |selected| <= TotalRequested(requested[..k])
    && (forall x :: x in selected ==> exists b :: b in folderBuckets && x in folderBuckets[b])
  }

  /** One request handled: its contribution is appended to the parts and to the selection. */
  lemma SampleStep(folderBuckets: map<string, seq<FileInfo>>, requested: seq<Request>, k: nat,
                   parts: seq<seq<FileInfo>>, selected: seq<FileInfo>, chosen: seq<FileInfo>)
    requires k < |requested| && SampledSoFar(folderBuckets, requested, k, parts, selected)
    requires Contribution(Available(folderBuckets, requested[k].bucket), requested[k].count, chosen)
    ensures SampledSoFar(folderBuckets, requested, k + 1, parts + [chosen], selected + chosen)
  {
    var available := Available(folderBuckets, requested[k].bucket);
    ContributionSize(available, requested[k].count, chosen);
    assert requested[..k + 1][..k] == requested[..k];
    var parts' := parts + [chosen];
    assert parts'[..k] == parts;
    forall m | 0 <= m < k + 1
      ensures Contribution(Available(folderBuckets, requested[m].bucket), requested[m].count, parts'[m])
    {
      if m < k {
        assert parts'[m] == parts[m];
      }
    }
    forall x | x in selected + chosen
      ensures exists b :: b in folderBuckets && x in folderBuckets[b]
    {
      if x !in selected {
        assert x in available;
      }
    }
  }

  /**
   * sample_for_folder: for each requested bucket, in table order, take all of
   * its files when there are no more than requested, else a random sample of
   * the requested size; buckets without files contribute nothing.
   * `parts` names the contribution of each request.
   */
  method SampleForFolder(folderRow: PlanRow, folderBuckets: map<string, seq<FileInfo>>)
    returns (selected: seq<FileInfo>, ghost parts: seq<seq<FileInfo>>)
    ensures |parts| == |Wanted(folderRow, BucketDefs)|
    ensures selected == Concat(parts)
    ensures forall k :: 0 <= k < |parts| ==>
      Contribution(Available(folderBuckets, Wanted(folderRow, BucketDefs)[k].bucket), Wanted(folderRow, BucketDefs)[k].count, parts[k])
    ensures |selected| <= TotalRequested(Wanted(folderRow, BucketDefs))
    ensures forall x :: x in selected ==> exists b :: b in folderBuckets && x in folderBuckets[b]
  {
    var requested := RequestedCounts(folderRow);
    selected := [];
    parts := [];
    assert requested[..0] == [];
    for k := 0 to |requested|
      invariant SampledSoFar(folderBuckets, requested, k, parts, selected)
    {
      var bucketName, nReq := requested[k].bucket, requested[k].count;
      var available := if bucketName in folderBuckets then folderBuckets[bucketName] else [];
      var chosen: seq<FileInfo>;
      if available == [] {
        chosen := [];
      } else if |available| <= nReq {
        chosen := available;
      } else {
        chosen := RandomSample(available, nReq);
      }
      SampleStep(folderBuckets, requested, k, parts, selected, chosen);
      selected := selected + chosen;
      parts := parts + [chosen];
    }
    assert requested[..|requested|] == requested;
  }

  // ---------------------------------------------------------------------
  // De-duplication of the selection
  // ---------------------------------------------------------------------

  /** The dedup key: (folder, path). */
  type Key = (string, string)

  function KeyOf(fi: FileInfo): Key {
    (fi.folder, fi.path)
  }

  function KeySet(s: seq<FileInfo>): set<Key> {
    set x | x in s :: KeyOf(x)
  }

  lemma KeySetSnoc(s: seq<FileInfo>, x: FileInfo)
    ensures KeySet(s + [x]) == KeySet(s) + {KeyOf(x)}
  {
    assert forall y :: y in s + [x] <==> y in s || y == x;
  }

  /** The keys of s in order of first occurrence: the key order of the insertion-ordered dict. */
  function DistinctKeys(s: seq<FileInfo>): (r: seq<Key>)
    ensures forall a, b :: 0 <= a < b < |r| ==> r[a] != r[b]
    ensures forall key :: key in r <==> key in KeySet(s)
  {
    if s == [] then []
    else
      var n := |s| - 1;
      KeySetSnoc(s[..n], s[n]);
      assert s[..n] + [s[n]] == s;
      var p := DistinctKeys(s[..n]);
      if KeyOf(s[n]) in p then p else p + [KeyOf(s[n])]
  }

  /** The last element of s with the given key: the value the dict keeps for it. */
  function LastWith(s: seq<FileInfo>, key: Key): (r: FileInfo)
    requires key in KeySet(s)
    ensures KeyOf(r) == key
    ensures exists i :: 0 <= i < |s| && s[i] == r && forall j :: i < j < |s| ==> KeyOf(s[j]) != key
  {
    var n := |s| - 1;
    KeySetSnoc(s[..n], s[n]);
    assert s[..n] + [s[n]] == s;
    if KeyOf(s[n]) == key then s[n]
    else
      var r := LastWith(s[..n], key);
      assert exists i :: 0 <= i < n && s[i] == r && forall j :: i < j < |s| ==> KeyOf(s[j]) != key by {
        var i :| 0 <= i < n && s[..n][i] == r && forall j :: i < j < n ==> KeyOf(s[..n][j]) != key;
        assert s[i] == r;
      }
      r
  }

  /** Every occurrence of a later key is preceded by an occurrence of each earlier key. */
  lemma {:induction false} DistinctKeysFirstOccurrence(s: seq<FileInfo>, a: nat, b: nat, j: nat)
    requires a < b < |DistinctKeys(s)| && j < |s| && KeyOf(s[j]) == DistinctKeys(s)[b]
    ensures exists j' :: 0 <= j' < j && KeyOf(s[j']) == DistinctKeys(s)[a]
    decreases |s|
  {
    var n := |s| - 1;
    var prefix := s[..n];
    var p := DistinctKeys(prefix);
    var d := DistinctKeys(s);
    KeySetSnoc(prefix, s[n]);
    assert prefix + [s[n]] == s;
    assert forall t :: 0 <= t < n ==> prefix[t] == s[t];
    if j < n {
      assert prefix[j] in prefix;
      if b < |p| {
        DistinctKeysFirstOccurrence(prefix, a, b, j);
        var j' :| 0 <= j' < j && KeyOf(prefix[j']) == p[a];
        assert KeyOf(s[j']) == d[a];
      } else {
        assert false;
      }
    } else {
      assert d[a] in p;
      assert d[a] in KeySet(prefix);
      var x :| x in prefix && KeyOf(x) == d[a];
      var t :| 0 <= t < n && prefix[t] == x;
      assert KeyOf(s[t]) == d[a];
    }
  }

  /** The dict after a prefix s: its key order and, for each key, the last file seen. */
  ghost predicate DedupState(s: seq<FileInfo>, order: seq<Key>, table: map<Key, FileInfo>) {
    && order == DistinctKeys(s)
    && table.Keys == KeySet(s)
    && forall key :: key in table ==> table[key] == LastWith(s, key)
  }

  /** One more file: its key joins the order when it is new. */
  lemma DistinctKeysSnoc(s: seq<FileInfo>, x: FileInfo)
    ensures DistinctKeys(s + [x]) == if KeyOf(x) in KeySet(s) then DistinctKeys(s) else DistinctKeys(s) + [KeyOf(x)]
  {
    assert (s + [x])[..|s|] == s;
  }

  /** One more file: it becomes the last one seen for its key. */
  lemma LastWithSnoc(s: seq<FileInfo>, x: FileInfo, key: Key)
    requires key in KeySet(s + [x])
    ensures KeyOf(x) != key ==> key in KeySet(s)
    ensures LastWith(s + [x], key) == if KeyOf(x) == key then x else LastWith(s, key)
  {
    KeySetSnoc(s, x);
    assert (s + [x])[..|s|] == s;
  }

  /** `unique_selected[key] = fi`: a new key goes to the end, an old key keeps its place and takes the new value. */
  lemma DedupStep(s: seq<FileInfo>, order: seq<Key>, table: map<Key, FileInfo>, fi: FileInfo)
    requires DedupState(s, order, table)
    ensures DedupState(s + [fi], if KeyOf(fi) in table then order else order + [KeyOf(fi)], table[KeyOf(fi) := fi])
  {
    DistinctKeysSnoc(s, fi);
    TableStep(s, table, fi);
  }

  /** The dict's values after one more assignment. */
  lemma TableStep(s: seq<FileInfo>, table: map<Key, FileInfo>, fi: FileInfo)
    requires table.Keys == KeySet(s) && forall key :: key in table ==> table[key] == LastWith(s, key)
    ensures table[KeyOf(fi) := fi].Keys == KeySet(s + [fi])
    ensures forall key :: key in table[KeyOf(fi) := fi] ==> table[KeyOf(fi) := fi][key] == LastWith(s + [fi], key)
  {
    var s' := s + [fi];
    var table' := table[KeyOf(fi) := fi];
    KeySetSnoc(s, fi);
    forall key | key in table'
      ensures table'[key] == LastWith(s', key)
    {
      LastWithSnoc(s, fi, key);
    }
  }

  /** DedupStep on the prefix of length i of all. */
  lemma DedupPrefixStep(all: seq<FileInfo>, i: nat, order: seq<Key>, table: map<Key, FileInfo>)
    requires i < |all| && DedupState(all[..i], order, table)
    ensures DedupState(all[..i + 1], if KeyOf(all[i]) in table then order else order + [KeyOf(all[i])], table[KeyOf(all[i]) := all[i]])
  {
    DedupStep(all[..i], order, table, all[i]);
    assert all[..i + 1] == all[..i] + [all[i]];
  }

  /** The final list, read off the dict in key order, follows the key order with the kept values. */
  lemma DedupResultKeys(all: seq<FileInfo>, order: seq<Key>, table: map<Key, FileInfo>, finalList: seq<FileInfo>)
    requires DedupState(all, order, table)
    requires |finalList| == |order| && forall k :: 0 <= k < |order| ==> finalList[k] == table[order[k]]
    ensures forall k :: 0 <= k < |finalList| ==> KeyOf(finalList[k]) == DistinctKeys(all)[k]
    ensures forall k :: 0 <= k < |finalList| ==> finalList[k] == LastWith(all, KeyOf(finalList[k]))
  {
    forall k | 0 <= k < |finalList| ensures KeyOf(finalList[k]) == order[k] {
      assert order[k] in KeySet(all);
    }
  }

  /** No key is lost and none is added. */
  lemma DedupResultKeySet(all: seq<FileInfo>, finalList: seq<FileInfo>)
    requires |finalList| == |DistinctKeys(all)|
    requires forall k :: 0 <= k < |finalList| ==> KeyOf(finalList[k]) == DistinctKeys(all)[k]
    ensures KeySet(finalList) == KeySet(all)
  {
    var order := DistinctKeys(all);
    forall key | key in KeySet(all) ensures key in KeySet(finalList) {
      var k :| 0 <= k < |order| && order[k] == key;
      assert finalList[k] in finalList;
    }
    forall key | key in KeySet(finalList) ensures key in KeySet(all) {
      var x :| x in finalList && KeyOf(x) == key;
      var k :| 0 <= k < |finalList| && finalList[k] == x;
      assert order[k] in order;
    }
  }

  /** The list read off the final dict: one file per key, the last one seen, in first-occurrence order. */
  lemma DedupResult(all: seq<FileInfo>, order: seq<Key>, table: map<Key, FileInfo>, finalList: seq<FileInfo>)
    requires DedupState(all, order, table)
    requires |finalList| == |order| && forall k :: 0 <= k < |order| ==> finalList[k] == table[order[k]]
    ensures |finalList| == |DistinctKeys(all)|
    ensures forall k :: 0 <= k < |finalList| ==> KeyOf(finalList[k]) == DistinctKeys(all)[k]
    ensures forall k :: 0 <= k < |finalList| ==> finalList[k] == LastWith(all, KeyOf(finalList[k]))
    ensures forall a, b :: 0 <= a < b < |finalList| ==> KeyOf(finalList[a]) != KeyOf(finalList[b])
    ensures KeySet(finalList) == KeySet(all)
    ensures forall a, b, j :: 0 <= a < b < |finalList| && 0 <= j < |all| && KeyOf(all[j]) == KeyOf(finalList[b]) ==>
              exists j' :: 0 <= j' < j && KeyOf(all[j']) == KeyOf(finalList[a])
  {
    DedupResultKeys(all, order, table, finalList);
    DedupResultKeySet(all, finalList);
    forall a, b, j | 0 <= a < b < |finalList| && 0 <= j < |all| && KeyOf(all[j]) == KeyOf(finalList[b])
      ensures exists j' :: 0 <= j' < j && KeyOf(all[j']) == KeyOf(finalList[a])
    {
      DistinctKeysFirstOccurrence(all, a, b, j);
    }
  }

  /**
   * The dedup loop of run_sampling: one entry per (folder, path), holding the
   * last file seen with that key, at the position where the key first appeared.
   */
  method Deduplicate(allSelected: seq<FileInfo>) returns (finalList: seq<FileInfo>)
    ensures |finalList| == |DistinctKeys(allSelected)|
    ensures forall k :: 0 <= k < |finalList| ==> KeyOf(finalList[k]) == DistinctKeys(allSelected)[k]
    ensures forall k :: 0 <= k < |finalList| ==> finalList[k] == LastWith(allSelected, KeyOf(finalList[k]))
    ensures forall a, b :: 0 <= a < b < |finalList| ==> KeyOf(finalList[a]) != KeyOf(finalList[b])
    ensures KeySet(finalList) == KeySet(allSelected)
    ensures forall a, b, j :: 0 <= a < b < |finalList| && 0 <= j < |allSelected| && KeyOf(allSelected[j]) == KeyOf(finalList[b]) ==>
              exists j' :: 0 <= j' < j && KeyOf(allSelected[j']) == KeyOf(finalList[a])
  {
    var order: seq<Key> := [];
    var uniqueSelected: map<Key, FileInfo> := map[];
    assert allSelected[..0] == [];
    for i := 0 to |allSelected|
      invariant DedupState(allSelected[..i], order, uniqueSelected)
    {
      var fi := allSelected[i];
      var key := (fi.folder, fi.path);
      DedupPrefixStep(allSelected, i, order, uniqueSelected);
      if key !in uniqueSelected {
        order := order + [key];
      }
      uniqueSelected := uniqueSelected[key := fi];
    }
    assert allSelected[..|allSelected|] == allSelected;
    finalList := seq(|order|, k requires 0 <= k < |order| => uniqueSelected[order[k]]);
    DedupResult(allSelected, order, uniqueSelected, finalList);
  }
}
