# SynthMoCap download script: metadata reconciliation, extraction targets, part names

This project models the core of `download_data.py` from the SynthMoCap data
release and proves properties of the model.

The script downloads the SynthMoCap body and hand datasets. Their record files
(`*.json`) do not ship every pose value. A record's `"pose"` list can hold
string references instead:

- entry 1 can refer to a frame of an AMASS motion sequence (MoSh or PoseLimits
  archive), which stands for body joints 1..21;
- entry 22 can refer to a row of the left MANO hand-pose library;
- entry 37 can refer to a row of the right MANO hand-pose library.

`process_metadata` replaces each reference with the numbers it names and
rewrites the file.

The model covers:

- **The reconciliation of one record** (module `Reconcile`). Each of the three
  steps is a function on the pose list: `BodyStep`, `LeftHandStep` and
  `RightHandStep`, composed into `ResolveRecord`. The steps cover everything
  the script does for an entry:
  - parsing the reference (frame token, hand row token);
  - deriving the sequence path with pathlib and the MoSh/PoseLimits renaming,
    including the one retry with a doubled `_poses` suffix;
  - the frame step `floor(rate / 30)` and the `[::step][frame]` selection with
    numpy's negative indexing;
  - `reshape(-1, 3)`;
  - the slice assignments, which can change the length of the list;
  - every error the script raises on the way for well-formed sequence files.
- **The imperative loop** (module `MetadataFiles`).
  - `Metadata` is a class whose `pose` field the three step methods rewrite in
    place.
  - `ProcessMetadata` walks an array of record pose lists in `glob` order.
    Each record is reconciled and written back. The first failure stops the
    run, and that record keeps its old contents.
  - The methods are proved against the functions above. The function
    `ProcessRecords` specifies the run.
  - The `ghost resolve` parameter of `ReconcileRecords` and `ReconcileRecord`
    is only a verification device. It is always the function `ResolveRecord`,
    as `ProcessMetadata` shows.
- **The output-path rule of `extract`, and the part file names** (module
  `Download`).
  - `ExtractTarget` gives the directory an archive unpacks into.
  - `PartFileName` and `PartFileNames` give the fifteen
    `{dataset}_{part:02d}.zip` names.
- **Supporting library models.**
  - `PyStrings`: `str.split`, `join`, `startswith`, `replace`, `rfind`,
    `int()` and `{:02d}`.
  - `PurePath`: `PurePosixPath` parsing, `as_posix`, `name`, `suffix`,
    `stem`, `parent`, `with_suffix` and `/`.
  - `PoseData`: Python slicing and slice assignment, numpy indexing,
    `reshape` and `[::step]`, plus the record layout constants 15, 22, 22, 37
    and the archive directory names.

How the source's environment appears in the model:

- The archive files on disk are a `map` from the path relative to the data
  directory (`ArchiveFile(archive, path)`) to the loaded `MotionSequence`.
  - An `exists()` test is membership in the map.
  - `np.load` is a lookup that fails with `FileNotFound`.
- The two MANO libraries are a `HandLibrary` value.
- Pose numbers are an opaque type `Value`, because the script only copies them.
- Capture rates are whole numbers `nat`. For a non-negative rate,
  `floor(rate / 30)` on the real rate equals `(floor rate) / 30`, so a
  fractional rate selects the same step.

Notes on what the code does:

- **The mirror check never fires.** `mirrored` compares the last `_` token, a
  string, with the integer 1. The `assert not mirrored` therefore never fails.
  - When the last component has the form `stem.ext_<frame>_<mirror>` and
    the frame and mirror tokens hold no dot, the token has no effect at all:
    it sits inside the suffix that `with_suffix` replaces
    (`MirrorTokenIgnored`). A mirror token that holds a dot carries the suffix
    itself, so everything before that dot, the frame token and the start of
    the mirror token included, stays in the file name.
  - When the last component has no dot, the token stays in the derived file
    name, so two mirror tokens name two different sequence files
    (`MirrorTokenChangesPath`).
- **The frame token stays in the derived file name.** The sequence path is
  the reference minus its first segment, with its final suffix replaced by
  `.npz`. The frame and mirror tokens are not removed first.
  - A reference whose last component is `stem.ext_5_0` yields `stem.npz` (the
    tokens sit inside the old suffix).
  - A reference without a dot in its last component, such as
    `MoSh_MPI_MoSh/subjectA/seqB_0005_0`, yields
    `subjectA/seqB_0005_0.npz`, and then `subjectA/seqB_0005_0_poses.npz`:
    the frame and mirror tokens remain part of the file name that is looked
    up.
- **A short frame does not raise.** A body frame with fewer than 22 joints
  makes the slice assignment shrink the list (`ShortFrameShrinksPose`). The
  hand references are then read at shifted positions.
- **The right-hand write truncates the list.** It writes `pose[37:]`, not
  `pose[37:52]`, so a resolved right hand always leaves exactly 52 entries
  (`RightHandWriteExact`).
- **Earlier records stay rewritten.** A failing record aborts the run, but
  the files processed before it have already been rewritten
  (`ProcessRecordsStops`).
- **Data-directory wiring.** `main` extracts the MoSh, PosePrior and MANO
  archives into `data_dir`, but calls `process_metadata(data_dir /
  dataset_name)`. That function then looks for those archives under the
  dataset directory. This wiring lies in `main`, outside the model. The model
  treats the directory `process_metadata` receives as the one holding the
  archives.

## Model

| member | source | states |
|---|---|---|
| PoseData.Slice | download_data.py:196 | Python slicing with clamped bounds: the exact sub-sequence when in range, the tail when the end overshoots, empty when the start is past the end |
| PoseData.SliceAssign | download_data.py:195 | slice assignment replaces the clamped range by the new piece: the new length is old length minus range plus piece, the prefix and suffix are kept, and an overshooting end truncates |
| PoseData.PyIndex | download_data.py:196 | a numpy/list index is valid exactly in [-n, n); negative indices count from the end |
| PoseData.Triples | download_data.py:196-197 | `reshape(-1, 3)` gives one joint per consecutive triple, joint j holding values 3j, 3j+1, 3j+2 |
| PoseData.FlattenTriples | download_data.py:196 | reshaping into triples loses nothing: flattening them back gives the original row |
| PoseData.FrameCountBound | download_data.py:193 | `a[::step]` has frame k exactly when raw frame k*step exists |
| PoseData.SubsampleAt | download_data.py:193 | frame k of `a[::step]` exists iff raw frame k*step does, and is that raw frame |
| PyStrings.Split | download_data.py:168 | `split` always yields at least one piece, and no piece contains the separator |
| PyStrings.Join | download_data.py:172 | a join of at least one part starts with the first part |
| PyStrings.JoinEndsWithLast | download_data.py:172 | a join of at least one part ends with the last part |
| PyStrings.JoinAvoids | download_data.py:172 | a character in no part and not in the separator is not in the join |
| PyStrings.JoinSplit | download_data.py:172 | `"/".join(s.split("/"))` gives `s` back |
| PyStrings.SplitJoin | download_data.py:172 | splitting a join of at least one separator-free piece gives the pieces back |
| PyStrings.SplitConcat | download_data.py:168 | a string split at one separator occurrence splits as its two sides |
| PyStrings.JoinSplitTail | download_data.py:172 | dropping the first `/` segment and re-joining gives exactly what followed the first `/` |
| PyStrings.Replace | download_data.py:178-179 | `replace` leaves a string without an occurrence of the pattern unchanged |
| PyStrings.ReplaceAtEnd | download_data.py:179 | when the pattern's first character does not occur in the text before it, `replace` changes only the final occurrence |
| PyStrings.ReplaceSkipsNonMatch | download_data.py:178-179 | one step of the left-to-right scan: where the pattern does not start the text, `replace` keeps the first character and carries on with the rest |
| PyStrings.ReplaceAtStart | download_data.py:178 | one step of the left-to-right scan: an occurrence at the front is replaced and the rest is processed on its own |
| PyStrings.ReplaceKeepsFreePrefix | download_data.py:179 | a prefix that holds no first character of the pattern passes through `replace` unchanged |
| PyStrings.ReplaceAtEndIfAbsent | download_data.py:179 | for a pattern like `.npz` whose first character does not recur in it, `replace` on a text with no other occurrence followed by the pattern changes only that final occurrence |
| PyStrings.RFind | download_data.py:111 | the last position of the character, every later position differs from it, -1 when absent |
| PyStrings.ParseInt | download_data.py:168 | `int()` accepts exactly an optionally signed non-empty digit run (leading zeros allowed) and yields its decimal value with the sign |
| PyStrings.LeadingZeros | download_data.py:168 | leading zeros in a frame token (as in `0005`) do not change its value |
| PyStrings.ParseShowNat | download_data.py:168 | `int(str(n)) == n` and `int("-" + str(n)) == -n` |
| PyStrings.Format02 | download_data.py:127 | `{:02d}` renders a digit run that reads back as the number, exactly two digits below 100 |
| PurePath.Parse | download_data.py:172-174 | parsing yields only real components (no empty or `.` segment) and is absolute exactly when the string starts with `/` |
| PurePath.AsPosix | download_data.py:174 | `as_posix` of a well-formed path is never empty and starts with `/` exactly when the path is absolute |
| PurePath.ParseAsPosix | download_data.py:172-174 | `PurePosixPath(p.as_posix()) == p` for every well-formed path |
| PurePath.Suffix | download_data.py:111-115 | a non-empty suffix is a tail of the name, starting with its only dot, strictly shorter than the name |
| PurePath.SuffixEmptyIff | download_data.py:111-115 | the suffix is empty exactly when the name has no dot, its only dot is the first character, or it ends in a dot |
| PurePath.Stem | download_data.py:112 | stem followed by suffix is the name |
| PurePath.SuffixOfExtension | download_data.py:173 | `stem.ext` has suffix `.ext` and stem `stem` |
| PurePath.WithSuffix | download_data.py:173 | `with_suffix` fails exactly on an empty name, otherwise keeps the parent and rootedness and renames the last component to stem + suffix |
| PurePath.Div | download_data.py:180 | `/` keeps paths well formed, and an absolute right operand replaces the left |
| PurePath.DivComponent | download_data.py:112 | joining one component appends it: its parent is the left operand and its name the component |
| Reconcile.FrameIsSecondToLastToken | download_data.py:168 | the frame is the `_` token before the last, whatever the last token is |
| Reconcile.FrameNumber | download_data.py:168 | a reference without `_` has no frame token (IndexError) |
| Reconcile.LastTokenIgnored | download_data.py:168 | the frame read does not depend on the last `_` token |
| Reconcile.HandRowIndex | download_data.py:200 | a reference without `_` has no hand-row token (IndexError) |
| Reconcile.HandIndexIsSecondToken | download_data.py:200 | the hand row is the token right after the first `_`; later tokens are ignored |
| Reconcile.SequencePathOf | download_data.py:171-175 | `family/d1/.../stem.ext` yields the sequence path `d1/.../stem.npz`: family dropped, last suffix replaced |
| Reconcile.SequencePath | download_data.py:171-175 | a reference without `/` leaves an empty path, which `with_suffix` refuses; every path it yields ends in `.npz` |
| Reconcile.SequencePathDotless | download_data.py:171-175 | a dot-free last component is kept whole, frame and mirror tokens included, with `.npz` appended |
| Reconcile.MoShCandidate | download_data.py:178-179 | a fits-directory path `Data/moshpp_fits_SMPL` + m + `.npz`, where the middle m holds no `.npz` and no second `Data/moshpp_fits_SMPL`, becomes `MPI_mosh` + m + `_poses.npz` (with more occurrences, replace-all rewrites each of them) |
| Reconcile.MoShRetryCandidate | download_data.py:180-182 | under the same conditions on the middle m, the retry re-applies the suffix rule, giving `MPI_mosh` + m + `_poses_poses.npz` |
| Reconcile.PoseLimitsCandidate | download_data.py:186-187 | under the same conditions on the middle m, a PoseLimits path `Data/moshpp_fits_SMPL` + m + `.npz` becomes `MPI_Limits` + m + `_poses.npz`, with no retry |
| Reconcile.ArchiveFileJoined | download_data.py:180 | `data_dir / archive / "p1/.../pn"` is the key `archive/p1/.../pn` |
| Reconcile.Load | download_data.py:183-188 | `np.load` succeeds exactly when the file exists, gives its content, and otherwise fails naming that file |
| Reconcile.LocateSequence | download_data.py:176-190 | MoSh: the first candidate when it exists, else exactly one retry with the doubled suffix; PoseLimits: one candidate, no retry; any other family is rejected whatever files exist |
| Reconcile.SelectFrame | download_data.py:192-193 | a capture rate below 30 gives a zero slice step, which is an error |
| Reconcile.SelectsRawFrame | download_data.py:192-196 | for a rate of at least 30, requested frame k is raw frame k*floor(rate/30), out of range exactly when that raw frame does not exist |
| Reconcile.RateOneTwentySelectsEveryFourth | download_data.py:192-196 | at 120 fps frame k is raw frame 4k |
| Reconcile.SelectsFromEnd | download_data.py:192-196 | for a rate of at least 30, a negative frame -n counts from the end of the subsampled sequence: raw frame (count - n) * step when n is at most the frame count, out of range otherwise |
| Reconcile.BodyFrameOf | download_data.py:168-193 | unfolds `BodyFrame`: a body reference gives the frame its frame token names in the sequence its path and family locate; `MoShDoubledReferenceResolves` and `BodyFrameDeterminedBy` are what pin `BodyFrame` down |
| Reconcile.BodyStep | download_data.py:165-197 | a pose without entry 1 fails; a non-reference entry 1 leaves the pose as it is; a success keeps the root entry |
| Reconcile.BodyRows | download_data.py:196 | a frame that is not a whole number of triples fails with the shape error; otherwise the result is joints 1..21 of the frame (fewer for a short frame), joint j made of raw values 3(j+1), 3(j+1)+1, 3(j+1)+2 |
| Reconcile.HandRows | download_data.py:200-208 | the result is the 15 joints of the library row that the token after the first `_` names, counted from the end when negative; a bad token fails with its error, an index outside the library with the index error, a row of other than 45 values with the shape error |
| Reconcile.HandReferenceRow | download_data.py:200-202 | `prefix_i...` with a 45-value row i gives exactly that row's 15 joints |
| Reconcile.HandReferenceFromEnd | download_data.py:200-202 | `prefix_-n...` gives the row n from the end of the library |
| Reconcile.HandReferenceOutOfRange | download_data.py:200-202 | a row index at or past the library's size fails with the index error |
| Reconcile.LeftHandStep | download_data.py:198-203 | a pose without entry 22 fails; a non-reference entry leaves it as it is; a success keeps entries [0, 22) |
| Reconcile.RightHandStep | download_data.py:204-209 | a pose without entry 37 fails; a non-reference entry leaves it as it is; a resolved reference leaves exactly 52 entries with [0, 37) kept |
| Reconcile.ResolveRecord | download_data.py:165-209 | a resolved record had an entry 37, still has one, and keeps its root orientation, entry 0 |
| Reconcile.NoReferencesNoChange | download_data.py:165-209 | a record with no reference at entries 1, 22, 37 is left unchanged |
| Reconcile.BodyWriteExact | download_data.py:195-197 | a full-size frame replaces exactly entries [1, 22) by its joints 1..21 and keeps the length and all other entries |
| Reconcile.ShortFrameShrinksPose | download_data.py:195-197 | a frame of m joints, 1 <= m < 22, shrinks the list by 22 - m, moving later entries down |
| Reconcile.LeftHandWriteExact | download_data.py:201-203 | a 15-joint row replaces exactly entries [22, 37), keeping the rest and the length |
| Reconcile.RightHandWriteExact | download_data.py:207-209 | the right-hand write leaves exactly 52 entries: [0, 37) kept, then the row's 15 joints |
| Reconcile.BodyStepWrites | download_data.py:165-197 | a body reference resolving to a well-shaped frame yields the slice write of its joints |
| Reconcile.LeftHandStepWrites | download_data.py:198-203 | a left-hand reference splices its rows into [22, 37) |
| Reconcile.RightHandStepWrites | download_data.py:204-209 | a right-hand reference replaces everything from entry 37 with its rows |
| Reconcile.BodyStepFullFrame | download_data.py:195-197 | root, joints 1..21 of the frame, then entries from 22 on |
| Reconcile.FullRecord | download_data.py:165-209 | a 52-entry record with all three references resolves to root + frame joints 1..21 + left row + right row |
| Reconcile.ResolvedRecordIsStable | download_data.py:165-209 | reconciling a fully resolved record again changes nothing |
| Reconcile.UnknownFamilyRejected | download_data.py:189-190 | a reference of an unknown archive family fails with that error once its frame token and sequence path have been read (errors in those come first) |
| Reconcile.MirrorTokenIgnored | download_data.py:168-170 | for a last component `stem.ext_<mirror>`, where `ext` carries the frame token and holds no `.` or `/`, and for mirror tokens free of `_`, `.` and `/`, two references differing only in the mirror token resolve to the same frame data or fail alike (a mirror token holding a dot moves the suffix into itself and can name a different file) |
| Reconcile.MirrorTokenChangesPath | download_data.py:168-175 | for a dot-free last component, two references differing only in the mirror token name different sequence files |
| Reconcile.MoShReferenceTokens | download_data.py:168-175 | for a dot-free `ext` and a mirror token free of `_`, `.` and `/`, `MoSh_MPI_MoSh/Data/moshpp_fits_SMPL/d1/.../s.ext_k_m` names frame k of `Data/moshpp_fits_SMPL/d1/.../s.npz` |
| Reconcile.MoShKey | download_data.py:180 | for a `/`-free `x`, the archive key of `MoSh / "MPI_mosh/d1/.../s" + x` is that path under `MoSh/` |
| Reconcile.MoShCandidateKeys | download_data.py:178-182 | when `d1/.../s` holds no `.npz` and no second `Data/moshpp_fits_SMPL` (dots are allowed), such a path is looked up as `MoSh/MPI_mosh/d1/.../s_poses.npz`, then as `..._poses_poses.npz` |
| Reconcile.MoShDoubledReferenceResolves | download_data.py:165-196 | for `MoSh_MPI_MoSh/Data/moshpp_fits_SMPL/d1/.../s.ext_k_m` with a dot-free `ext`, a mirror token free of `_`, `.` and `/`, and `d1/.../s` holding no `.npz` and no second fits segment (dots are allowed): when only the doubled `_poses_poses.npz` file exists, captured at 120 fps, the reference resolves to raw frame 4k of it |
| Reconcile.BodyFrameDeterminedBy | download_data.py:168-196 | the frame data depends only on the frame number, the sequence path and the family prefix |
| MetadataFiles.Metadata.ResolveBody | download_data.py:165-197 | updates the pose to the body step's result, or reports its error leaving the pose untouched |
| MetadataFiles.Metadata.ResolveLeftHand | download_data.py:198-203 | updates the pose to the left-hand step's result, or reports its error leaving the pose untouched |
| MetadataFiles.Metadata.ResolveRightHand | download_data.py:204-209 | updates the pose to the right-hand step's result, or reports its error leaving the pose untouched |
| MetadataFiles.Metadata.Reconcile | download_data.py:165-209 | runs the three steps in order; on success the pose is the record's resolution; on failure the error is reported and the writes of the earlier steps remain |
| MetadataFiles.ReadBodyFrame | download_data.py:166-196 | reads the frame a body reference names, agreeing with `BodyFrame` on the result and on every error |
| MetadataFiles.FindSequence | download_data.py:176-190 | rewrites the path step by step and loads the archive file, agreeing with `LocateSequence` |
| MetadataFiles.PickFrame | download_data.py:192-196 | computes the frame step and selects the frame, agreeing with `SelectFrame` |
| MetadataFiles.LibraryRow | download_data.py:200-208 | returns the library row the reference's index names (negative counted from the end), 45 values whose triples are `HandRows`, or the same error |
| MetadataFiles.ProcessRecords | download_data.py:162-211 | the run keeps the number of records |
| MetadataFiles.ProcessRecordsSucceeds | download_data.py:162-211 | the run succeeds exactly when every record resolves, and then every record is its resolution |
| MetadataFiles.ProcessRecordsStops | download_data.py:162-211 | at the first failing record the run reports its error; earlier records are resolved, that one and later ones unchanged |
| MetadataFiles.ProcessRecordsAppend | download_data.py:162 | a run over two batches whose first succeeds is the first batch's run followed by the second's |
| MetadataFiles.ProcessRecordsExtend | download_data.py:162 | one more resolving record extends a successful run by its resolution |
| MetadataFiles.ProcessRecordsFailAt | download_data.py:162-211 | a failing record after a successful run ends it there, leaving the rest as it was |
| MetadataFiles.ReconcileRecord | download_data.py:163-209 | one record is reconciled: its resolution on success, its error otherwise |
| MetadataFiles.ReconcileRecords | download_data.py:162-211 | the loop leaves the records and the error that `ProcessRecords` specifies |
| MetadataFiles.ProcessMetadata | download_data.py:150-211 | the records and the error `ProcessRecords` gives under `ResolveRecord` |
| Download.ExtractTarget | download_data.py:108-120 | fails exactly for a suffix other than `.zip` and `.bz2`, naming that suffix, even with an output path; a given output path is used as it is |
| Download.ExtractBeside | download_data.py:111-120 | without an output path, `dir/name` unpacks into `dir/stem` for `.zip`, into `dir/` + name without `.tar.bz2` for `.bz2` |
| Download.ZipExtractsBesideArchive | download_data.py:111-112 | `dir/stem.zip` unpacks into `dir/stem` |
| Download.TarBz2ExtractsBesideArchive | download_data.py:115-116 | for a dot-free `base`, `dir/base.tar.bz2` unpacks into `dir/base` |
| Download.BareBz2TargetsItself | download_data.py:115-116 | for a dot-free `base`, a bare `dir/base.bz2` has no `.tar.bz2` to remove and targets its own path `dir/base.bz2` |
| Download.OtherSuffixRefused | download_data.py:119-120 | any other extension is refused with its suffix, output path given or not |
| Download.PartFileNames | download_data.py:125-127 | fifteen names, the k-th being part k+1 |
| Download.PartNumberRoundTrip | download_data.py:126-127 | a part file is a `.zip` whose stem's last `_` token is two digits reading back as the part number |
| Download.PartNamesDistinct | download_data.py:126-127 | distinct parts below 100 have distinct file names |
| Download.PartFileNamesDistinct | download_data.py:125-127 | the fifteen part names are pairwise distinct, so no download overwrites another |
| Download.PartExtractsIntoGivenDir | download_data.py:241-243 | every part unpacks into the dataset directory it is given |

The constants in `PoseData` (`MANO_N_J`, `SMPL_H_N_J`, `LEFT_HAND`,
`RIGHT_HAND`, and the three archive directory names) are those of
`download_data.py:34-41`. `Download.N_PARTS` is the constant at line 43.

## Left out

- `_download_mpii_file`, `get_mano`, `get_amass`, `download_synthmocap_data`'s network transfer and `wget` (download_data.py:46-105, 123-147): network I/O, credentials and process control; only the part naming of line 126-127 is modelled.
- The unpacking itself (`ZipFile.extractall`, `tarfile.open(...).extractall`) and `path.unlink()`: file-system effects; only the target directory is modelled.
- `np.load` of the MANO libraries (download_data.py:153-160), `glob("*.json")`, `json.load` and `json.dump`: I/O. The libraries are a parameter, the records an array in `glob` order, and the rewrite is writing into that array.
- The format of the sequence files: a `.npz` without a `mocap_framerate` or `poses` key (KeyError, download_data.py:192-193), a `poses` array that is not two-dimensional, or a path that exists but `np.load` cannot read (a directory, which `.exists()` at line 180 accepts so no retry happens, or a corrupt file; lines 183 and 188) is not modelled; every key in the sequence map loads as a `MotionSequence`, and `Load` fails only with `FileNotFound`.
- Other JSON shapes: a missing `"pose"` key or a non-list pose (KeyError/TypeError) is not modelled; a non-string entry of any shape is a `Joint`.
- Floating point: pose numbers are opaque and only copied; the capture rate is taken as a non-negative whole number. Reconcile.SelectFrame: a negative or NaN rate is not modelled.
- Reconcile.MoShCandidate states its closed form only when the middle path holds no `.npz` and no second `Data/moshpp_fits_SMPL`; for other paths the model still applies the script's replace-all through `MoShPath`/`PoseLimitsPath`, but no lemma states the resulting name.
- Reconcile.MoShRetryCandidate states its closed form only when the middle path holds no `.npz` and no second `Data/moshpp_fits_SMPL`; for other paths the model still applies the script's replace-all through `MoShPath`/`PoseLimitsPath`, but no lemma states the resulting name.
- Reconcile.PoseLimitsCandidate states its closed form only when the middle path holds no `.npz` and no second `Data/moshpp_fits_SMPL`; for other paths the model still applies the script's replace-all through `MoShPath`/`PoseLimitsPath`, but no lemma states the resulting name.
- Reconcile.MoShCandidateKeys states its closed form only when the middle path holds no `.npz` and no second `Data/moshpp_fits_SMPL`; for other paths the model still applies the script's replace-all through `MoShPath`/`PoseLimitsPath`, but no lemma states the resulting name.
- Reconcile.MoShDoubledReferenceResolves states its closed form only when the middle path holds no `.npz` and no second `Data/moshpp_fits_SMPL`; for other paths the model still applies the script's replace-all through `MoShPath`/`PoseLimitsPath`, but no lemma states the resulting name.
- PyStrings.ParseInt: `int()` also accepts surrounding whitespace and non-ASCII decimal digits, which the model refuses; underscores never reach it because tokens come from a split on `_`.
- PurePath.Parse: a path starting with exactly two slashes keeps them as a distinct root in pathlib; the model treats it as `/`.
- PurePath.WithSuffix: pathlib's validation of the suffix argument is left out; the only suffix the script passes is `.npz`.
- `main` (download_data.py:214-248): argument parsing, the order of the download and extract steps, and the rule that only the `body` and `hand` datasets are reconciled.
- Concurrency and partially written files: a record file whose rewrite is interrupted is not modelled.
