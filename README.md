# TTS sample tooling: duration buckets, grouping, quota sampling and distribution counts

This project is a Dafny model of the data-preparation utilities of a
transcript-review repository. It covers the two Python scripts that contain
the logic:

- `utils/sample_tts_files.py` picks a sample of TTS audio clips according to
  a sampling plan. It indexes audio files, puts each file's duration into one
  of eight duration buckets, and groups the files by folder and bucket. For
  each folder it draws the requested number of files per bucket, then removes
  duplicate (folder, path) entries. Module `SampleTts`.
- `utils/audio_distribution.py` walks a JSON description of a directory
  tree. It counts the FLAC files of every folder, and of the whole tree, per
  duration bucket, and `process_dataset` reports the total. Module
  `AudioDistribution`. The in-place updates of `walk` are kept as methods of
  the class `Distribution`, whose two fields are the dicts `folder_stats` and
  `overall_buckets`.

Two small support modules are shared:

- `Wrappers` defines `Option`.
- `Sums` defines the sum of an integer function over a finite set, which
  models `sum(d.values())`.

`Agreement` shows that the two scripts' bucket tables agree on every finite
duration.

How the Python is modelled:

- Durations are exact `real`s.
- A Python `dict` is a Dafny `map`. When key order matters, a `seq` of keys
  comes with it, since a Python dict remembers insertion order.
- `walk` is specified by the function `WalkSpec`, which returns `None` where
  the Python raises `KeyError`.
- The methods that model `walk` and its loops, the grouping loop and the
  dedup loop are proved to leave exactly the state that a specification
  function computes. The counting lemmas are then proved about those
  functions. The sampling methods are deterministic only up to the random
  draw, so they are proved against a relation instead: any draw of the
  right size from the right files is allowed.
- Where the Python raises `KeyError` inside `walk`, the methods return
  `ok == false` and stop. For a single file (`CountFile`) the dicts are
  stated at both points where the source can raise. For the loops and the
  recursion they are not stated at the exception.

A consequence shown by the model: a negative duration makes
`audio_distribution.assign_bucket` return `"UNBUCKETED"`. That label is not
a key of the counter dicts, so `walk` raises `KeyError` for any tree that
holds such a file. For finite durations, `AudioDistribution.WalkSucceeds`
states this exactly, and `AudioDistribution.ProcessDataset` reports success
exactly when every duration is non-negative.

## Model

| member | source | states |
|---|---|---|
| SampleTts.AssignBucket | utils/sample_tts_files.py:61-69 | a returned name is the name of a table entry that holds d; None only when no entry holds d |
| SampleTts.FindBucket | utils/sample_tts_files.py:62-69 | the first table entry containing d, with no earlier entry containing it; None when no entry contains d |
| SampleTts.AssignBucketTotal | utils/sample_tts_files.py:61-69 | assign_bucket is None exactly for negative durations; otherwise it names the bucket picked by an independent chain of thresholds; every d >= 30 gets "[30+)" |
| SampleTts.AssignBucketUnique | utils/sample_tts_files.py:20-29 | whichever table entry holds d is the one assign_bucket names, so the match is unique |
| SampleTts.BucketsDisjoint | utils/sample_tts_files.py:20-29 | no duration lies in two buckets of BUCKET_DEFS |
| SampleTts.BucketNamesDistinct | utils/sample_tts_files.py:20-29 | the eight bucket names are pairwise distinct |
| SampleTts.SplitExt | utils/sample_tts_files.py:46 | splitext loses nothing: root + ext is the path |
| SampleTts.SplitExtShape | utils/sample_tts_files.py:46 | the extension is empty or a dot followed by no dot or slash |
| SampleTts.IsAudioFile | utils/sample_tts_files.py:45-47 | an accepted path ends with one of the audio extensions, in some letter case |
| SampleTts.IsAudioFileBySuffix | utils/sample_tts_files.py:45-47 | a stem followed by any letter-case spelling of .wav/.flac/.mp3/.m4a/.ogg is accepted, when the stem's last component is not only dots |
| SampleTts.IsAudioFileCaseInsensitive | utils/sample_tts_files.py:45-47 | two paths equal up to ASCII case are accepted or rejected together |
| SampleTts.DotNameIsNotAudio | utils/sample_tts_files.py:45-47 | a hidden name such as ".wav" has no extension and is not an audio file |
| SampleTts.BuildFolderBucketMap | utils/sample_tts_files.py:133-144 | mapping[f][b] is exactly the input files with folder f and bucket b, in input order. A folder is present iff some bucketed file has it. No empty dict or list is created. The list sizes add up to the number of bucketed files |
| SampleTts.SelectCount | utils/sample_tts_files.py:138-143 | a file with folder f and bucket b occurs in mapping[f][b] exactly as often as in the input |
| SampleTts.SelectAppend | utils/sample_tts_files.py:138-143 | the grouping of a concatenation is the concatenation of the groupings: input order is kept |
| SampleTts.Put | utils/sample_tts_files.py:141-143 | setdefault/setdefault/append: the folder becomes a key, other folders are untouched, and mapping[folder][bucket] gains x at its end |
| SampleTts.PutTotal | utils/sample_tts_files.py:141-143 | one setdefault/append adds exactly one file to the total |
| SampleTts.RequestedCounts | utils/sample_tts_files.py:159-165 | the requested dict equals Wanted: one entry per bucket whose "Samples <bucket>" cell is present, not NaN and positive |
| SampleTts.WantedMember | utils/sample_tts_files.py:159-165 | every request names a table bucket and carries the row's positive count for it |
| SampleTts.WantedComplete | utils/sample_tts_files.py:159-165 | a bucket is requested iff the row's count for it is positive |
| SampleTts.WantedOrder | utils/sample_tts_files.py:160-167 | requests come in BUCKET_DEFS order |
| SampleTts.RandomSample | utils/sample_tts_files.py:185 | rng.sample returns n_req elements forming a sub-multiset of the population |
| SampleTts.Available | utils/sample_tts_files.py:168 | folder_buckets.get(name, []) is empty exactly when the bucket is missing or empty, and every file in it comes from folder_buckets[name] |
| SampleTts.ContributionSize | utils/sample_tts_files.py:168-186 | each requested bucket contributes min(n_req, len(available)) files, all taken from available |
| SampleTts.SampleForFolder | utils/sample_tts_files.py:147-188 | the selection is the concatenation of one part per request, in order. A part is empty for a missing or empty bucket, all of the bucket when it is no larger than n_req, and n_req drawn files otherwise. The length is at most the sum of the requests, and every file comes from folder_buckets |
| SampleTts.DistinctKeys | utils/sample_tts_files.py:220-224 | the dict's key order has no repeated key and holds exactly the keys of the input |
| SampleTts.LastWith | utils/sample_tts_files.py:221-223 | the value the dict keeps for a key is the last input file with that key |
| SampleTts.DistinctKeysFirstOccurrence | utils/sample_tts_files.py:220-224 | keys sit in order of first occurrence: every occurrence of a later key is preceded by one of each earlier key |
| SampleTts.DedupStep | utils/sample_tts_files.py:221-223 | one assignment unique_selected[key] = fi appends a new key at the end, keeps an old key's place, and stores fi as the last value |
| SampleTts.DedupResult | utils/sample_tts_files.py:224 | the list drawn from the dict has one file per key, the last one seen, in first-occurrence order, and the same key set as the input |
| SampleTts.Deduplicate | utils/sample_tts_files.py:220-224 | the dedup loop returns no two entries with the same (folder, path). Every input key survives. Each entry is the key's last occurrence, placed at the key's first occurrence |
| AudioDistribution.Label | utils/audio_distribution.py:36-38 | a label has the bracket form "[...)", so it is never "UNBUCKETED" |
| AudioDistribution.AssignBucket | utils/audio_distribution.py:21-28 | "UNBUCKETED" exactly when no range holds d; otherwise the label of a range that holds d |
| AudioDistribution.FirstWithin | utils/audio_distribution.py:23-24 | the first range with low <= d < high, and no earlier one; None when no range holds d |
| AudioDistribution.RangesDisjoint | utils/audio_distribution.py:10-19 | no duration lies in two ranges of BUCKETS |
| AudioDistribution.AssignBucketSpec | utils/audio_distribution.py:21-28 | for d >= 0 the label of the unique range holding d, found by an independent chain of thresholds, and a member of get_bucket_labels; "[30+)" for d >= 30; "UNBUCKETED" for d < 0 |
| AudioDistribution.BucketedIffNonNegative | utils/audio_distribution.py:21-28 | assign_bucket(d) is one of the counter keys iff d >= 0 |
| AudioDistribution.BucketLabelsLiteral | utils/audio_distribution.py:31-39 | the labels built from the ranges are "[0, 1)", "[1, 5)", ..., "[25, 30)", "[30+)" |
| AudioDistribution.BucketLabelsDistinct | utils/audio_distribution.py:31-39 | there are 8 labels, pairwise distinct, and "UNBUCKETED" is not one of them |
| AudioDistribution.LabelSetIsLabels | utils/audio_distribution.py:31-39 | the counter key set is exactly the set of listed labels |
| AudioDistribution.GetBucketLabels | utils/audio_distribution.py:31-39 | the loop returns exactly the label list |
| AudioDistribution.JoinPath | utils/audio_distribution.py:74 | POSIX os.path.join: an absolute b replaces a; otherwise the result starts with a and ends with b |
| AudioDistribution.ZeroCountsFromLabels | utils/audio_distribution.py:53 | {label: 0 for label in get_bucket_labels()} has exactly the labels as keys, all mapped to 0 |
| AudioDistribution.EmptyStat | utils/audio_distribution.py:52-56 | a new entry has exactly the labels as counter keys, every counter 0, total_files 0 and total_duration 0 |
| AudioDistribution.NatToStringRoundTrip | utils/audio_distribution.py:36-38 | the f-string rendering of a bound is a non-empty string of decimal digits that reads back as the bound itself; BucketLabelsLiteral gives the resulting labels |
| AudioDistribution.EnsureEntry | utils/audio_distribution.py:51-56 | a missing folder entry is created with zero counters, zero total_files and zero total_duration; an existing entry and the overall counters are untouched |
| AudioDistribution.AddFile | utils/audio_distribution.py:62-70 | counting a file fails (KeyError) exactly when its folder entry or its bucket key is missing. On success no key is created or lost and other folders' entries are unchanged. In the folder's counters and in the overall counters, exactly the file's own bucket rises by one. The folder's total_files rises by one and its total_duration by the duration |
| AudioDistribution.AddNodeFiles | utils/audio_distribution.py:59-60 | a node without "flac_files" leaves the tally unchanged. Otherwise counting its files fails exactly when one of them cannot be counted, and on success creates or loses no key |
| AudioDistribution.AddFiles | utils/audio_distribution.py:59-70 | the file loop fails exactly when some file's bucket is missing from the starting counters, and otherwise creates or loses no key |
| AudioDistribution.WalkSpec | utils/audio_distribution.py:45-75 | a successful walk gives the folder an entry, loses no entry, and keeps the overall keys |
| AudioDistribution.WalkChildren | utils/audio_distribution.py:73-75 | a successful walk of the subdirectories loses no entry and keeps the overall keys |
| AudioDistribution.Distribution.constructor | utils/audio_distribution.py:88-90 | no folders, and a zero counter per label overall |
| AudioDistribution.Distribution.CountFile | utils/audio_distribution.py:61-70 | the in-place increments of one file leave the state AddFile computes. ok is false exactly where the source raises KeyError, and the overall counters are then unchanged. A KeyError at the folder's bucket changes nothing. A KeyError at the overall bucket leaves the folder's bucket, total_files and total_duration already raised, with every other entry as it was |
| AudioDistribution.Distribution.CountFiles | utils/audio_distribution.py:59-70 | the loop over flac_files succeeds exactly when AddFiles does, and then leaves the state of counting the files in order |
| AudioDistribution.Distribution.WalkSubdirectories | utils/audio_distribution.py:73-75 | the loop over subdirectories succeeds exactly when WalkChildren does, and then leaves the state of walking each child in order under os.path.join(folder_path, name) |
| AudioDistribution.Distribution.Walk | utils/audio_distribution.py:45-75 | walk succeeds exactly when WalkSpec does, and then leaves exactly the state WalkSpec computes from the old state |
| AudioDistribution.AddFileReady | utils/audio_distribution.py:62-70 | from label-keyed counters, counting one file succeeds iff its duration is non-negative, and keeps the keys |
| AudioDistribution.TreeInLabels | utils/audio_distribution.py:62-65 | every duration in the tree has a counter key iff every duration is non-negative |
| AudioDistribution.WalkSucceeds | utils/audio_distribution.py:45-75 | from label-keyed counters, walk raises KeyError iff some duration in the tree is negative; otherwise the counters stay label-keyed |
| AudioDistribution.EnsureEntryCounts | utils/audio_distribution.py:51-56 | creating an entry changes no count and keeps every entry consistent |
| AudioDistribution.AddFileFrame | utils/audio_distribution.py:64-70 | a counted file changes only its folder's entry and the overall counters, and lowers no counter |
| AudioDistribution.AddFileCounts | utils/audio_distribution.py:64-70 | a counted file adds one to the overall sum, to the sum of total_files, and to its folder entry's bucket sum. When that entry's total_files equalled its bucket sum, it still does |
| AudioDistribution.AddFilesCounts | utils/audio_distribution.py:59-70 | counting a folder's files adds their number to both sums and touches only that folder's entry |
| AudioDistribution.WalkCounts | utils/audio_distribution.py:45-75 | walk creates entries exactly for the visited paths. Entries outside the subtree are unchanged, and no counter goes down. The overall sum and the sum of total_files both rise by the number of FLAC files in the subtree, even when sibling folders share a path. Per-entry consistency is kept |
| AudioDistribution.WalkChildrenCounts | utils/audio_distribution.py:73-75 | the same frame and counting facts for the children from index i on |
| AudioDistribution.SumLabelsIsSumValues | utils/audio_distribution.py:97 | summing a label-keyed dict in label order is sum(d.values()) |
| AudioDistribution.SumCounters | utils/audio_distribution.py:97 | the summing loop returns sum(overall_buckets.values()) |
| AudioDistribution.RootTally | utils/audio_distribution.py:88-97 | after the walk from the root: overall is label-keyed, entries exist exactly for the visited paths, and every entry's total_files is its bucket sum. The overall sum and the sum of total_files both equal the tree's file count |
| AudioDistribution.ProcessDataset | utils/audio_distribution.py:81-111 | ok exactly when every duration is non-negative, that is, when the walk raises no KeyError. Then the returned dicts are the walk's result from empty folder_stats and zero counters. total_files == sum(overall_buckets.values()), which equals the tree's FLAC count and the sum of every folder's total_files. Every visited folder has an entry, none other does, and each entry is consistent |
| Agreement.SameLabels | utils/audio_distribution.py:31-39 | get_bucket_labels lists the names of BUCKET_DEFS in utils/sample_tts_files.py, in the same order |
| Agreement.SameBucket | utils/audio_distribution.py:21-28 | for d >= 0 both assign_bucket functions name the same bucket; for d < 0 one gives None and the other "UNBUCKETED" |

## Left out

- Filesystem and audio I/O are not modelled. This covers `find_files_in_folder` (`os.walk`, `os.path.isdir`), `get_duration_seconds` (soundfile), `build_file_index`, `os.path.relpath` and JSON loading. Durations and directory trees are inputs.
- pandas plan loading is not modelled, nor the `int(...)` conversion of plan cells. A plan row is a map from column name to an optional integer, where None stands for NaN.
- The CSV writer, `write_to_excel`, every `print`, the target-shortfall warning, the per-row loop of `run_sampling` around `sample_for_folder`, and the argparse entry points are left out. These are output and glue around the modelled functions.
- `copy_samples.py` is not part of this model. It only copies files.
- The CER scoring and alignment engine is not part of this model.
- Floating point is not modelled: durations are exact reals. NaN, infinity and rounding are left out, and so are the accumulation of `total_duration` (an exact real sum here), the percentages and the hour conversion.
- SampleTts.RandomSample: states only the size of the draw and that it is a sub-multiset of the population. The seeded Mersenne Twister output of `random.Random(seed).sample` is left open; any draw is allowed.
- SampleTts.IsAudioFile: lower-cases ASCII letters only. Python's full Unicode `str.lower` is not modelled. Paths are split at '/' only, as the next line explains.
- SampleTts.SplitExt: follows POSIX `posixpath.splitext`, where '/' is the only separator. On Windows `os.path.splitext` is `ntpath.splitext`, which also splits at '\', so there `D:\data\.wav` has no extension and is not an audio file, while the model accepts it. SampleTts.IsAudioFileBySuffix and SampleTts.DotNameIsNotAudio are stated for '/' paths.
- AudioDistribution.JoinPath: implements POSIX `os.path.join` only.
- Float infinity and NaN: `json.load` accepts `Infinity` and `NaN`. For infinity the sampler's `assign_bucket` gives "[30+)", but the report's gives "UNBUCKETED", since `30 <= inf < inf` is false, and `walk` then raises `KeyError` on a non-negative duration. For NaN both give no bucket, and `walk` raises `KeyError` too. Agreement.SameBucket and AudioDistribution.WalkSucceeds are stated for finite durations only.
- AudioDistribution.Distribution.Walk: when it returns ok == false, the source has raised `KeyError` after partial updates. The dicts as they stand at that point are not stated.
- AudioDistribution.Distribution.CountFiles: when it returns ok == false, the files before the failing one have been counted. The dicts at that point are not stated.
- AudioDistribution.Distribution.WalkSubdirectories: when it returns ok == false, the subtrees before the failing one have been walked. The dicts at that point are not stated.
- AudioDistribution.ProcessDataset: when ok == false, the source raises `KeyError` and returns nothing. The outputs are then left unspecified.
- AudioDistribution.SumCounters: reads the counter dict in label order. That is the dict's insertion order, and the sum of integers does not depend on order anyway.
