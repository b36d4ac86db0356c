/** What `process_metadata` does to one record, as functions of the record's
    pose list and the two pose sources, and what is proved about it. The
    three steps run in order on the same list: body (entry 1, from a motion
    sequence), left hand (entry 22) and right hand (entry 37, from the MANO
    libraries). */
module Reconcile {
  import opened Wrappers
  import opened PyStrings
  import opened PurePath
  import opened PoseData

  /** Reference prefixes of the two motion-sequence archive families. */
  const MOSH_PREFIX := "MoSh_MPI_MoSh"
  const POSELIMITS_PREFIX := "MoSh_MPI_PoseLimits"
  /** The directory segment references carry and the archives do not. */
  const FITS_SEGMENT := "Data/moshpp_fits_SMPL"
  const MOSH_SEGMENT := "MPI_mosh"
  const LIMITS_SEGMENT := "MPI_Limits"
  const NPZ := ".npz"
  const POSES_NPZ := "_poses.npz"

  // ----- reading references -----

  function IntToken(token: string): Result<int, Error> {
    match ParseInt(token)
    case None => Err(NotAnInteger)
    case Some(n) => Ok(n)
  }

  /** The requested frame of a body reference: its second-to-last `_` token as
      an integer. A reference with no `_` at all has no such token. */
  function FrameNumber(name: string): (r: Result<int, Error>)
    ensures '_' !in name ==> r == Err(MissingToken)
  {
    var tokens := Split(name, '_');
    assert '_' !in name ==> tokens == [name] by {
      if '_' !in name { SplitNoSeparator(name, '_'); }
    }
    if |tokens| < 2 then Err(MissingToken) else IntToken(tokens[|tokens| - 2])
  }

  /** The library row of a hand reference: its `_` token at position 1 as an
      integer. A reference with no `_` at all has no such token. */
  function HandRowIndex(name: string): (r: Result<int, Error>)
    ensures '_' !in name ==> r == Err(MissingToken)
  {
    var tokens := Split(name, '_');
    assert '_' !in name ==> tokens == [name] by {
      if '_' !in name { SplitNoSeparator(name, '_'); }
    }
    if |tokens| < 2 then Err(MissingToken) else IntToken(tokens[1])
  }

  /** The frame is the token before the last one, whatever the last (mirror) token is. */
  lemma FrameIsSecondToLastToken(head: string, frame: string, mirror: string)
    requires '_' !in frame && '_' !in mirror
    ensures FrameNumber(head + "_" + frame + "_" + mirror) == IntToken(frame)
  {
    SplitConcat(head + "_" + frame, mirror, '_');
    SplitConcat(head, frame, '_');
    SplitNoSeparator(frame, '_');
    SplitNoSeparator(mirror, '_');
    var tokens := Split(head, '_') + [frame] + [mirror];
    assert Split(head + "_" + frame + "_" + mirror, '_') == tokens;
    assert tokens[|tokens| - 2] == frame;
  }

  /** The hand row is the token right after the first `_`, not the last token:
      anything after a further `_` is ignored. */
  lemma HandIndexIsSecondToken(prefix: string, index: string, rest: string)
    requires '_' !in prefix && '_' !in index
    requires rest == "" || rest[0] == '_'
    ensures HandRowIndex(prefix + "_" + index + rest) == IntToken(index)
  {
    SplitNoSeparator(prefix, '_');
    SplitNoSeparator(index, '_');
    if rest == "" {
      assert prefix + "_" + index + rest == prefix + "_" + index;
      SplitConcat(prefix, index, '_');
    } else {
      var more := rest[1..];
      assert prefix + "_" + index + rest == prefix + "_" + (index + "_" + more);
      SplitConcat(prefix, index + "_" + more, '_');
      SplitConcat(index, more, '_');
    }
  }

  // ----- locating the motion sequence -----

  /** The sequence file a body reference names, relative to its archive: the
      reference without its first `/` segment, read as a path whose final
      suffix is replaced by `.npz`. The result always ends in `.npz`; a
      reference without a `/` leaves an empty path, which has no name to
      re-suffix. */
  function SequencePath(name: string): (r: Result<string, Error>)
    ensures '/' !in name ==> r == Err(EmptyName)
    ensures r.Ok? ==> EndsWith(r.value, NPZ)
  {
    var rel := Join(Split(name, '/')[1..], "/");
    assert '/' !in name ==> rel == "" by {
      if '/' !in name { SplitNoSeparator(name, '/'); }
    }
    assert Split("", '/') == [""];
    match WithSuffix(Parse(rel), NPZ)
    case None => Err(EmptyName)
    case Some(p) =>
      RenderedNameSuffix(p, Stem(Name(Parse(rel))), NPZ);
      Ok(AsPosix(p))
  }

  /** A rendered path ends with its name, so with any ending of its name. */
  lemma RenderedNameSuffix(p: Path, stem: string, suf: string)
    requires Name(p) == stem + suf
    ensures EndsWith(AsPosix(p), suf)
  {
    assert EndsWith(Name(p), suf) by {
      assert (stem + suf)[|stem|..] == suf;
    }
    if |p.parts| == 0 {
      assert suf == "";
      assert AsPosix(p)[|AsPosix(p)|..] == "";
    } else {
      var j := Join(p.parts, "/");
      assert EndsWith(AsPosix(p), j) by {
        if p.absolute {
          assert ("/" + j)[1..] == j;
        } else {
          assert j[0..] == j;
        }
      }
      JoinEndsWithLast(p.parts, "/");
      EndsWithTrans(AsPosix(p), j, Name(p));
      EndsWithTrans(AsPosix(p), Name(p), suf);
    }
  }

  /** The family segment is dropped: what follows the first `/` is the relative path. */
  lemma SequencePathAfterFamily(family: string, j: string)
    requires '/' !in family
    ensures SequencePath(family + "/" + j)
         == match WithSuffix(Parse(j), NPZ) case None => Err(EmptyName) case Some(p) => Ok(AsPosix(p))
  {
    assert family + "/" + j == family + ['/'] + j;
    JoinSplitTail(family, j, '/');
  }

  /** Re-suffixing a relative path replaces the suffix of its last component only. */
  lemma WithSuffixLast(dirs: seq<string>, last: string, suf: string)
    requires last != ""
    ensures WithSuffix(Path(false, dirs + [last]), suf) == Some(Path(false, dirs + [Stem(last) + suf]))
  {
    var parts := dirs + [last];
    assert parts[|parts| - 1] == last;
    assert parts[..|parts| - 1] == dirs;
  }

  /** A reference `family/d1/.../stem.ext` names `d1/.../stem.npz`: the family
      segment is dropped and the last extension becomes `.npz`. */
  lemma SequencePathOf(family: string, dirs: seq<string>, stem: string, ext: string)
    requires '/' !in family
    requires forall i :: 0 <= i < |dirs| ==> IsComponent(dirs[i])
    requires stem != "" && '/' !in stem
    requires ext != "" && '.' !in ext && '/' !in ext
    ensures SequencePath(family + "/" + Join(dirs + [stem + "." + ext], "/"))
         == Ok(Join(dirs + [stem + NPZ], "/"))
  {
    var last := stem + "." + ext;
    var parts := dirs + [last];
    assert IsComponent(last);
    assert forall i :: 0 <= i < |parts| ==> IsComponent(parts[i]) by {
      forall i | 0 <= i < |parts| ensures IsComponent(parts[i]) {
        if i < |dirs| { assert parts[i] == dirs[i]; }
      }
    }
    var j := Join(parts, "/");
    SequencePathAfterFamily(family, j);
    assert Parse(j) == Path(false, parts) by { ParseJoined(parts); }
    SuffixOfExtension(stem, ext);
    WithSuffixLast(dirs, last, NPZ);
  }

  /** The key of `data_dir / archive / path` in the map of archive files, which
      is keyed relative to `data_dir` (an absolute `path` stands for itself). */
  function ArchiveFile(archive: string, path: string): string {
    AsPosix(Div(Parse(archive), path))
  }

  /** `data_dir / archive / path` for a relative path of real components is
      the archive directory name, a `/`, and the path. */
  lemma ArchiveFileJoined(archive: string, parts: seq<string>)
    requires IsComponent(archive) && |parts| >= 1
    requires forall i :: 0 <= i < |parts| ==> IsComponent(parts[i])
    ensures ArchiveFile(archive, Join(parts, "/")) == archive + "/" + Join(parts, "/")
  {
    ParseJoined(parts);
    assert forall i :: 0 <= i < |[archive]| ==> IsComponent([archive][i]);
    ParseJoined([archive]);
    assert Div(Parse(archive), Join(parts, "/")) == Path(false, [archive] + parts);
    JoinCons(archive, parts, "/");
  }

  /** First-choice MoSh file: fits segment renamed, `.npz` turned into `_poses.npz`. */
  function MoShPath(path: string): string {
    Replace(Replace(path, FITS_SEGMENT, MOSH_SEGMENT), NPZ, POSES_NPZ)
  }

  /** The fallback for MoSh files that carry a doubled `_poses` suffix. */
  function DoubledPath(path: string): string {
    Replace(path, NPZ, POSES_NPZ)
  }

  /** The only PoseLimits file tried. */
  function PoseLimitsPath(path: string): string {
    Replace(Replace(path, FITS_SEGMENT, LIMITS_SEGMENT), NPZ, POSES_NPZ)
  }

  /** `.npz` starts with a character it does not repeat. */
  lemma NpzShape()
    ensures |NPZ| > 0 && NPZ[0] !in NPZ[1..] && '.' !in "_poses" && '_' !in NPZ
  {
    assert NPZ[1..] == "npz";
  }

  /** Renaming a leading segment and then replacing the one trailing `pat`. */
  lemma {:induction false} RenameThenReplaceLast(segment: string, renamed: string, rest: string, pat: string, rep: string)
    requires |segment| > 0 && |pat| > 0 && pat[0] !in pat[1..] && pat[0] !in renamed
    requires !Occurs(pat, rest) && !Occurs(segment, rest + pat)
    ensures Replace(Replace(segment + rest + pat, segment, renamed), pat, rep) == renamed + rest + rep
  {
    var tail := rest + pat;
    var renamedTail := renamed + tail;
    assert segment + rest + pat == segment + tail;
    assert Replace(segment + tail, segment, renamed) == renamedTail by {
      ReplaceAtStart(segment, tail, renamed);
    }
    assert Replace(renamedTail, pat, rep) == renamed + (rest + rep) by {
      ReplaceKeepsFreePrefix(renamed, tail, pat, rep);
      ReplaceAtEndIfAbsent(rest, pat, rep);
    }
    assert renamed + (rest + rep) == renamed + rest + rep;
  }

  /** Renaming a leading segment and then re-suffixing the one `.npz`. */
  lemma RenameAndResuffix(segment: string, renamed: string, rest: string)
    requires |segment| > 0 && '.' !in renamed && !Occurs(NPZ, rest) && !Occurs(segment, rest + NPZ)
    ensures Replace(Replace(segment + rest + NPZ, segment, renamed), NPZ, POSES_NPZ) == renamed + rest + POSES_NPZ
  {
    NpzShape();
    RenameThenReplaceLast(segment, renamed, rest, NPZ, POSES_NPZ);
  }

  /** For a path inside the fits directory whose only `.npz` is the final one
      and with no second fits segment, the first MoSh candidate is
      `MPI_mosh..._poses.npz`. */
  lemma MoShCandidate(rest: string)
    requires !Occurs(NPZ, rest) && !Occurs(FITS_SEGMENT, rest + NPZ)
    ensures MoShPath(FITS_SEGMENT + rest + NPZ) == MOSH_SEGMENT + rest + POSES_NPZ
  {
    RenameAndResuffix(FITS_SEGMENT, MOSH_SEGMENT, rest);
  }

  /** Re-suffixing a `_poses.npz` path doubles its `_poses`. */
  lemma ResuffixAgain(x: string)
    requires !Occurs(NPZ, x)
    ensures Replace(x + POSES_NPZ, NPZ, POSES_NPZ) == x + "_poses" + POSES_NPZ
  {
    NpzShape();
    var once := x + "_poses";
    OccursAppendFree(NPZ, x, "_poses");
    assert x + POSES_NPZ == once + NPZ;
    ReplaceAtEndIfAbsent(once, NPZ, POSES_NPZ);
  }

  /** ... and the retry is `MPI_mosh..._poses_poses.npz`. */
  lemma MoShRetryCandidate(rest: string)
    requires !Occurs(NPZ, rest) && !Occurs(FITS_SEGMENT, rest + NPZ)
    ensures DoubledPath(MoShPath(FITS_SEGMENT + rest + NPZ)) == MOSH_SEGMENT + rest + "_poses" + POSES_NPZ
  {
    NpzShape();
    assert '.' !in MOSH_SEGMENT;
    OccursPastFree(NPZ, MOSH_SEGMENT, rest);
    MoShCandidate(rest);
    ResuffixAgain(MOSH_SEGMENT + rest);
  }

  /** The one PoseLimits file is `MPI_Limits..._poses.npz`, under the same
      conditions as `MoShCandidate`. */
  lemma PoseLimitsCandidate(rest: string)
    requires !Occurs(NPZ, rest) && !Occurs(FITS_SEGMENT, rest + NPZ)
    ensures PoseLimitsPath(FITS_SEGMENT + rest + NPZ) == LIMITS_SEGMENT + rest + POSES_NPZ
  {
    RenameAndResuffix(FITS_SEGMENT, LIMITS_SEGMENT, rest);
  }

  /** `np.load` of a sequence file: the file's content, or FileNotFound. */
  function Load(files: map<string, MotionSequence>, key: string): (r: Result<MotionSequence, Error>)
    ensures r.Ok? <==> key in files
    ensures r.Ok? ==> r.value == files[key]
    ensures r.Err? ==> r.error == FileNotFound(key)
  {
    if key in files then Ok(files[key]) else Err(FileNotFound(key))
  }

  /** The motion sequence a body reference resolves to, given its derived path. */
  function LocateSequence(name: string, path: string, files: map<string, MotionSequence>)
    : (r: Result<MotionSequence, Error>)
    // MoSh: the first candidate wins when it exists
    ensures StartsWith(name, MOSH_PREFIX) && ArchiveFile(MOSH_FILENAME, MoShPath(path)) in files
      ==> r == Ok(files[ArchiveFile(MOSH_FILENAME, MoShPath(path))])
    // MoSh: otherwise exactly one retry, with the doubled suffix
    ensures StartsWith(name, MOSH_PREFIX) && ArchiveFile(MOSH_FILENAME, MoShPath(path)) !in files
      ==> r == Load(files, ArchiveFile(MOSH_FILENAME, DoubledPath(MoShPath(path))))
    // PoseLimits: a single candidate, no retry
    ensures !StartsWith(name, MOSH_PREFIX) && StartsWith(name, POSELIMITS_PREFIX)
      ==> r == Load(files, ArchiveFile(POSELIM_FILENAME, PoseLimitsPath(path)))
    // any other family is rejected whatever files exist
    ensures !StartsWith(name, MOSH_PREFIX) && !StartsWith(name, POSELIMITS_PREFIX)
      ==> r == Err(UnknownSequence)
  {
    if StartsWith(name, MOSH_PREFIX) then
      var first := MoShPath(path);
      var chosen := if ArchiveFile(MOSH_FILENAME, first) in files then first else DoubledPath(first);
      Load(files, ArchiveFile(MOSH_FILENAME, chosen))
    else if StartsWith(name, POSELIMITS_PREFIX) then
      Load(files, ArchiveFile(POSELIM_FILENAME, PoseLimitsPath(path)))
    else
      Err(UnknownSequence)
  }

  // ----- selecting the frame -----

  /** `seq_data["poses"][::step][frame]` with `step = floor(rate / 30)`. */
  function SelectFrame(sq: MotionSequence, frame: int): (r: Result<seq<Value>, Error>)
    ensures sq.rate < 30 ==> r == Err(ZeroFrameStep)
  {
    var step := sq.rate / 30;
    if step == 0 then Err(ZeroFrameStep)
    else
      var frames := Subsample(sq.poses, step);
      match PyIndex(|frames|, frame)
      case None => Err(FrameOutOfRange)
      case Some(j) => Ok(frames[j])
  }

  /** Requested frame `k` is raw frame `k * (rate / 30)`, and is out of range
      exactly when that raw frame does not exist. */
  lemma SelectsRawFrame(sq: MotionSequence, k: nat)
    requires sq.rate >= 30
    ensures var raw := k * (sq.rate / 30);
      SelectFrame(sq, k) == if raw < |sq.poses| then Ok(sq.poses[raw]) else Err(FrameOutOfRange)
  {
    SubsampleAt(sq.poses, sq.rate / 30, k);
  }

  /** A negative frame `-n` counts from the end of `[::step]`: it is raw frame
      `(count - n) * step`, where `count` is the number of subsampled frames,
      and out of range when `n` exceeds that number. */
  lemma SelectsFromEnd(sq: MotionSequence, n: nat)
    requires sq.rate >= 30 && n >= 1
    ensures var step := sq.rate / 30; var count := FrameCount(|sq.poses|, step);
      SelectFrame(sq, -(n as int)) == if n <= count then Ok(sq.poses[(count - n) * step]) else Err(FrameOutOfRange)
  {
    var step := sq.rate / 30;
    var count := FrameCount(|sq.poses|, step);
    if n <= count {
      SubsampleAt(sq.poses, step, count - n);
    }
  }

  /** At 120 frames per second the step is 4: frame k is raw frame 4k. */
  lemma RateOneTwentySelectsEveryFourth(sq: MotionSequence, k: nat)
    requires sq.rate == 120 && 4 * k < |sq.poses|
    ensures SelectFrame(sq, k) == Ok(sq.poses[4 * k])
  {
    SelectsRawFrame(sq, k);
  }

  /** The frame data a body reference resolves to, in the order the script
      raises its errors: frame token, path, archive file, frame step, frame. */
  function BodyFrame(name: string, files: map<string, MotionSequence>): Result<seq<Value>, Error> {
    var frame :- FrameNumber(name);
    var path :- SequencePath(name);
    var sq :- LocateSequence(name, path, files);
    SelectFrame(sq, frame)
  }

  // ----- the three steps -----

  /** Joints 1..21 of a frame (root dropped), or fewer when the frame is short;
      a frame whose length is not a multiple of 3 cannot be reshaped. */
  function BodyRows(row: seq<Value>): (r: Result<seq<Entry>, Error>)
    ensures r.Err? <==> |row| % 3 != 0
    ensures r.Err? ==> r.error == BadFrameShape
    ensures r.Ok? ==> |r.value| == if |row| < 3 then 0 else if |row| / 3 < SMPL_H_N_J then |row| / 3 - 1 else SMPL_H_N_J - 1
    ensures r.Ok? ==> forall j :: 0 <= j < |r.value| ==>
      r.value[j] == Joint(row[3 * (j + 1)], row[3 * (j + 1) + 1], row[3 * (j + 1) + 2])
  {
    if |row| % 3 != 0 then Err(BadFrameShape)
    else
      var t := Triples(row);
      var rows := Slice(t, 1, SMPL_H_N_J);
      assert forall j :: 0 <= j < |rows| ==> rows[j] == t[j + 1];
      Ok(rows)
  }

  /** The body step: a reference at entry 1 stands for entries [1, 22), which
      are replaced by joints 1..21 of the referenced frame. */
  function BodyStep(pose: seq<Entry>, files: map<string, MotionSequence>): (r: Result<seq<Entry>, Error>)
    ensures |pose| < 2 ==> r == Err(PoseTooShort(1))
    ensures |pose| >= 2 && !pose[1].Ref? ==> r == Ok(pose)
    ensures r.Ok? ==> |r.value| >= 1 && r.value[0] == pose[0]
    ensures r.Ok? ==> |r.value| <= if |pose| < SMPL_H_N_J then SMPL_H_N_J else |pose|
  {
    if |pose| < 2 then Err(PoseTooShort(1))
    else if !pose[1].Ref? then Ok(pose)
    else
      var row :- BodyFrame(pose[1].name, files);
      var rows :- BodyRows(row);
      Ok(SliceAssign(pose, 1, SMPL_H_N_J, rows))
  }

  /** The fifteen joints of library row `index` (negative rows count from the end). */
  function HandRows(name: string, library: seq<seq<Value>>): (r: Result<seq<Entry>, Error>)
    ensures r.Ok? ==> |r.value| == MANO_N_J
    ensures r.Ok? ==> forall j :: 0 <= j < |r.value| ==> r.value[j].Joint?
    // the row is the one token [1] names, counted from the end when negative
    ensures r.Ok? ==> (HandRowIndex(name).Ok? && PyIndex(|library|, HandRowIndex(name).value).Some? &&
      var row := library[PyIndex(|library|, HandRowIndex(name).value).value];
      |row| == 3 * MANO_N_J && r.value == Triples(row))
    ensures HandRowIndex(name).Err? ==> r == Err(HandRowIndex(name).error)
    ensures r == Err(LibraryIndexOutOfRange) <==>
      (HandRowIndex(name).Ok? && PyIndex(|library|, HandRowIndex(name).value).None?)
    ensures r == Err(BadHandShape) <==>
      (HandRowIndex(name).Ok? && PyIndex(|library|, HandRowIndex(name).value).Some? &&
       |library[PyIndex(|library|, HandRowIndex(name).value).value]| != 3 * MANO_N_J)
  {
    var index :- HandRowIndex(name);
    match PyIndex(|library|, index)
    case None => Err(LibraryIndexOutOfRange)
    case Some(j) =>
      if |library[j]| != MANO_N_J * 3 then Err(BadHandShape) else Ok(Triples(library[j]))
  }

  /** A hand reference `prefix_i...` names library row `i`: its 15 triples. */
  lemma HandReferenceRow(prefix: string, i: nat, rest: string, library: seq<seq<Value>>)
    requires '_' !in prefix && (rest == "" || rest[0] == '_')
    requires i < |library| && |library[i]| == 3 * MANO_N_J
    ensures HandRows(prefix + "_" + ShowNat(i) + rest, library) == Ok(Triples(library[i]))
  {
    var digits := ShowNat(i);
    assert '_' !in digits by {
      assert forall k :: 0 <= k < |digits| ==> IsDigit(digits[k]);
    }
    HandIndexIsSecondToken(prefix, digits, rest);
    ParseShowNat(i);
  }

  /** A hand reference `prefix_-n...` names row `n` counted from the end. */
  lemma HandReferenceFromEnd(prefix: string, n: nat, rest: string, library: seq<seq<Value>>)
    requires '_' !in prefix && (rest == "" || rest[0] == '_')
    requires 1 <= n <= |library| && |library[|library| - n]| == 3 * MANO_N_J
    ensures HandRows(prefix + "_" + ("-" + ShowNat(n)) + rest, library) == Ok(Triples(library[|library| - n]))
  {
    var digits := ShowNat(n);
    var index := "-" + digits;
    assert '_' !in index by {
      assert forall k :: 0 <= k < |digits| ==> IsDigit(digits[k]);
      assert forall k :: 1 <= k < |index| ==> index[k] == digits[k - 1];
    }
    HandIndexIsSecondToken(prefix, index, rest);
    ParseShowNat(n);
  }

  /** A row index outside the library is an IndexError, whatever the library rows hold. */
  lemma HandReferenceOutOfRange(prefix: string, i: nat, rest: string, library: seq<seq<Value>>)
    requires '_' !in prefix && (rest == "" || rest[0] == '_')
    requires i >= |library|
    ensures HandRows(prefix + "_" + ShowNat(i) + rest, library) == Err(LibraryIndexOutOfRange)
  {
    var digits := ShowNat(i);
    assert '_' !in digits by {
      assert forall k :: 0 <= k < |digits| ==> IsDigit(digits[k]);
    }
    HandIndexIsSecondToken(prefix, digits, rest);
    ParseShowNat(i);
  }

  /** The left-hand step: a reference at entry 22 stands for entries [22, 37). */
  function LeftHandStep(pose: seq<Entry>, left: seq<seq<Value>>): (r: Result<seq<Entry>, Error>)
    ensures |pose| <= LEFT_HAND ==> r == Err(PoseTooShort(LEFT_HAND))
    ensures |pose| > LEFT_HAND && !pose[LEFT_HAND].Ref? ==> r == Ok(pose)
    ensures r.Ok? ==> |r.value| >= LEFT_HAND && r.value[..LEFT_HAND] == pose[..LEFT_HAND]
    ensures r.Ok? && |pose| <= RIGHT_HAND ==> |r.value| <= RIGHT_HAND
  {
    if |pose| <= LEFT_HAND then Err(PoseTooShort(LEFT_HAND))
    else if !pose[LEFT_HAND].Ref? then Ok(pose)
    else
      var rows :- HandRows(pose[LEFT_HAND].name, left);
      Ok(SliceAssign(pose, LEFT_HAND, RIGHT_HAND, rows))
  }

  /** The right-hand step: a reference at entry 37 replaces everything from 37
      on (`pose[37:]`), so a resolved pose ends with exactly those 15 joints. */
  function RightHandStep(pose: seq<Entry>, right: seq<seq<Value>>): (r: Result<seq<Entry>, Error>)
    ensures |pose| <= RIGHT_HAND ==> r == Err(PoseTooShort(RIGHT_HAND))
    ensures |pose| > RIGHT_HAND && !pose[RIGHT_HAND].Ref? ==> r == Ok(pose)
    ensures r.Ok? && pose[RIGHT_HAND].Ref? ==> |r.value| == RIGHT_HAND + MANO_N_J
    ensures r.Ok? ==> |r.value| > RIGHT_HAND && r.value[..RIGHT_HAND] == pose[..RIGHT_HAND]
  {
    if |pose| <= RIGHT_HAND then Err(PoseTooShort(RIGHT_HAND))
    else if !pose[RIGHT_HAND].Ref? then Ok(pose)
    else
      var rows :- HandRows(pose[RIGHT_HAND].name, right);
      Ok(SliceAssign(pose, RIGHT_HAND, |pose|, rows))
  }

  /** One record of `process_metadata`: body, then left hand, then right hand,
      each step seeing the list as the previous one left it. A record of at
      most 37 entries always fails, whatever its references; a resolved one
      keeps its root orientation (entry 0). */
  function ResolveRecord(pose: seq<Entry>, files: map<string, MotionSequence>, library: HandLibrary)
    : (r: Result<seq<Entry>, Error>)
    ensures r.Ok? ==> |pose| > RIGHT_HAND && |r.value| > RIGHT_HAND && r.value[0] == pose[0]
  {
    var afterBody :- BodyStep(pose, files);
    var afterLeft :- LeftHandStep(afterBody, library.left);
    var q :- RightHandStep(afterLeft, library.right);
    assert q[..RIGHT_HAND][0] == afterLeft[..RIGHT_HAND][0];
    assert afterLeft[..LEFT_HAND][0] == afterBody[..LEFT_HAND][0];
    Ok(q)
  }

  // ----- properties of a whole record -----

  /** A record whose entries 1, 22 and 37 are all already resolved is left as it is. */
  lemma NoReferencesNoChange(pose: seq<Entry>, files: map<string, MotionSequence>, library: HandLibrary)
    requires |pose| > RIGHT_HAND
    requires !pose[1].Ref? && !pose[LEFT_HAND].Ref? && !pose[RIGHT_HAND].Ref?
    ensures ResolveRecord(pose, files, library) == Ok(pose)
  {
  }

  /** A full-size frame (at least 22 joints) replaces exactly entries [1, 22)
      with its joints 1..21, and keeps the length and every other entry. */
  lemma BodyWriteExact(pose: seq<Entry>, row: seq<Value>)
    requires |pose| >= SMPL_H_N_J && |row| % 3 == 0 && |row| >= 3 * SMPL_H_N_J
    ensures var q := SliceAssign(pose, 1, SMPL_H_N_J, BodyRows(row).value);
      && |q| == |pose|
      && q[0] == pose[0]
      && (forall j :: 1 <= j < SMPL_H_N_J ==> q[j] == Joint(row[3 * j], row[3 * j + 1], row[3 * j + 2]))
      && (forall j :: SMPL_H_N_J <= j < |q| ==> q[j] == pose[j])
  {
    var rows := BodyRows(row).value;
    var t := Triples(row);
    assert rows == t[1..SMPL_H_N_J];
    var q := SliceAssign(pose, 1, SMPL_H_N_J, rows);
    forall j | 1 <= j < SMPL_H_N_J
      ensures q[j] == Joint(row[3 * j], row[3 * j + 1], row[3 * j + 2])
    {
      assert q[1..1 + |rows|][j - 1] == rows[j - 1];
    }
    forall j | SMPL_H_N_J <= j < |q|
      ensures q[j] == pose[j]
    {
      assert q[1 + |rows|..][j - SMPL_H_N_J] == pose[SMPL_H_N_J..][j - SMPL_H_N_J];
    }
  }

  /** A frame of only `m` joints (1 <= m < 22) shrinks the list by 22 - m
      entries, so every later entry, hand references included, moves down. */
  lemma ShortFrameShrinksPose(pose: seq<Entry>, row: seq<Value>, m: nat)
    requires |pose| >= SMPL_H_N_J && 1 <= m < SMPL_H_N_J && |row| == 3 * m
    ensures var q := SliceAssign(pose, 1, SMPL_H_N_J, BodyRows(row).value);
      |q| == |pose| - (SMPL_H_N_J - m) && q[m..] == pose[SMPL_H_N_J..]
  {
    var t := Triples(row);
    assert |t| == m;
  }

  /** A 45-value library row replaces exactly entries [22, 37) with its 15 joints. */
  lemma LeftHandWriteExact(pose: seq<Entry>, row: seq<Value>)
    requires |pose| >= RIGHT_HAND && |row| == 3 * MANO_N_J
    ensures var q := SliceAssign(pose, LEFT_HAND, RIGHT_HAND, Triples(row));
      && |q| == |pose|
      && q[..LEFT_HAND] == pose[..LEFT_HAND]
      && (forall j :: 0 <= j < MANO_N_J ==> q[LEFT_HAND + j] == Joint(row[3 * j], row[3 * j + 1], row[3 * j + 2]))
      && q[RIGHT_HAND..] == pose[RIGHT_HAND..]
  {
    var t := Triples(row);
    var q := SliceAssign(pose, LEFT_HAND, RIGHT_HAND, t);
    forall j | 0 <= j < MANO_N_J
      ensures q[LEFT_HAND + j] == Joint(row[3 * j], row[3 * j + 1], row[3 * j + 2])
    {
      assert q[LEFT_HAND..LEFT_HAND + |t|][j] == t[j];
    }
  }

  /** The right-hand write leaves a list of exactly 52 entries whatever its length
      was, keeping entries [0, 37) and ending with the row's 15 joints. */
  lemma RightHandWriteExact(pose: seq<Entry>, row: seq<Value>)
    requires |pose| > RIGHT_HAND && |row| == 3 * MANO_N_J
    ensures var q := SliceAssign(pose, RIGHT_HAND, |pose|, Triples(row));
      && |q| == RIGHT_HAND + MANO_N_J
      && q[..RIGHT_HAND] == pose[..RIGHT_HAND]
      && q[RIGHT_HAND..] == Triples(row)
  {
  }

  /** A body reference whose frame data is `row` (a multiple of 3 values)
      resolves to the slice write of that frame's joints. */
  lemma BodyStepWrites(pose: seq<Entry>, files: map<string, MotionSequence>, row: seq<Value>)
    requires |pose| >= 2 && pose[1].Ref?
    requires BodyFrame(pose[1].name, files) == Ok(row) && |row| % 3 == 0
    ensures BodyStep(pose, files) == Ok(SliceAssign(pose, 1, SMPL_H_N_J, BodyRows(row).value))
  {
  }

  /** A left-hand reference whose row resolves to `rows` splices them into [22, 37). */
  lemma LeftHandStepWrites(pose: seq<Entry>, left: seq<seq<Value>>, rows: seq<Entry>)
    requires |pose| >= RIGHT_HAND && pose[LEFT_HAND].Ref?
    requires HandRows(pose[LEFT_HAND].name, left) == Ok(rows)
    ensures LeftHandStep(pose, left) == Ok(pose[..LEFT_HAND] + rows + pose[RIGHT_HAND..])
  {
  }

  /** A right-hand reference whose row resolves to `rows` replaces everything from 37 on. */
  lemma RightHandStepWrites(pose: seq<Entry>, right: seq<seq<Value>>, rows: seq<Entry>)
    requires |pose| > RIGHT_HAND && pose[RIGHT_HAND].Ref?
    requires HandRows(pose[RIGHT_HAND].name, right) == Ok(rows)
    ensures RightHandStep(pose, right) == Ok(pose[..RIGHT_HAND] + rows)
  {
  }

  /** A full-size frame keeps the length: the root, joints 1..21, then the rest. */
  lemma BodyStepFullFrame(pose: seq<Entry>, files: map<string, MotionSequence>, row: seq<Value>)
    requires |pose| >= SMPL_H_N_J && pose[1].Ref?
    requires BodyFrame(pose[1].name, files) == Ok(row)
    requires |row| % 3 == 0 && |row| >= 3 * SMPL_H_N_J
    ensures BodyStep(pose, files) == Ok([pose[0]] + Triples(row)[1..SMPL_H_N_J] + pose[SMPL_H_N_J..])
  {
    var joints := Triples(row)[1..SMPL_H_N_J];
    BodyStepWrites(pose, files, row);
    assert BodyRows(row).value == joints;
    assert SliceAssign(pose, 1, SMPL_H_N_J, joints) == pose[..1] + joints + pose[SMPL_H_N_J..];
    assert pose[..1] == [pose[0]];
  }

  /** The record result is the right-hand step applied to what the first two steps left. */
  lemma ResolveRecordChain(pose: seq<Entry>, files: map<string, MotionSequence>, library: HandLibrary,
                           b: seq<Entry>, l: seq<Entry>)
    requires BodyStep(pose, files) == Ok(b) && LeftHandStep(b, library.left) == Ok(l)
    ensures ResolveRecord(pose, files, library) == RightHandStep(l, library.right)
  {
  }

  /** Where the hand entries sit after a full-size body write, and before the right-hand write. */
  lemma SpliceLayout(root: Entry, joints: seq<Entry>, mid: seq<Entry>, leftRows: seq<Entry>)
    requires |joints| == SMPL_H_N_J - 1 && |mid| == RIGHT_HAND + MANO_N_J - SMPL_H_N_J && |leftRows| == MANO_N_J
    ensures var b := [root] + joints + mid;
      && |b| == RIGHT_HAND + MANO_N_J
      && b[LEFT_HAND] == mid[LEFT_HAND - SMPL_H_N_J] && b[RIGHT_HAND] == mid[RIGHT_HAND - SMPL_H_N_J]
      && var l := b[..LEFT_HAND] + leftRows + b[RIGHT_HAND..];
      && |l| == RIGHT_HAND + MANO_N_J
      && l[RIGHT_HAND] == mid[RIGHT_HAND - SMPL_H_N_J]
      && l[..RIGHT_HAND] == [root] + joints + leftRows
  {
    var b := [root] + joints + mid;
    assert b[..LEFT_HAND] == [root] + joints;
  }

  /** A 52-entry record with all three references, a full-size frame and 15x3
      library rows resolves to: its root, joints 1..21 of the frame, the left
      row's 15 joints and the right row's 15 joints. The hand references are
      read where they were, because the body write keeps the length. */
  lemma FullRecord(pose: seq<Entry>, files: map<string, MotionSequence>, library: HandLibrary,
                   row: seq<Value>, leftRows: seq<Entry>, rightRows: seq<Entry>)
    requires |pose| == RIGHT_HAND + MANO_N_J
    requires pose[1].Ref? && pose[LEFT_HAND].Ref? && pose[RIGHT_HAND].Ref?
    requires BodyFrame(pose[1].name, files) == Ok(row)
    requires |row| % 3 == 0 && |row| >= 3 * SMPL_H_N_J
    requires HandRows(pose[LEFT_HAND].name, library.left) == Ok(leftRows)
    requires HandRows(pose[RIGHT_HAND].name, library.right) == Ok(rightRows)
    ensures ResolveRecord(pose, files, library)
         == Ok([pose[0]] + Triples(row)[1..SMPL_H_N_J] + leftRows + rightRows)
  {
    var joints := Triples(row)[1..SMPL_H_N_J];
    var mid := pose[SMPL_H_N_J..];
    var b := [pose[0]] + joints + mid;
    var l := b[..LEFT_HAND] + leftRows + b[RIGHT_HAND..];
    assert BodyStep(pose, files) == Ok(b) by {
      BodyStepFullFrame(pose, files, row);
    }
    assert LeftHandStep(b, library.left) == Ok(l) by {
      SpliceLayout(pose[0], joints, mid, leftRows);
      assert mid[LEFT_HAND - SMPL_H_N_J] == pose[LEFT_HAND];
      LeftHandStepWrites(b, library.left, leftRows);
    }
    assert RightHandStep(l, library.right) == Ok([pose[0]] + joints + leftRows + rightRows) by {
      SpliceLayout(pose[0], joints, mid, leftRows);
      assert mid[RIGHT_HAND - SMPL_H_N_J] == pose[RIGHT_HAND];
      RightHandStepWrites(l, library.right, rightRows);
    }
    ResolveRecordChain(pose, files, library, b, l);
  }

  /** Running the reconciliation again on a record it fully resolved changes
      nothing: entries 1, 22 and 37 now hold joints, not references. */
  lemma ResolvedRecordIsStable(pose: seq<Entry>, files: map<string, MotionSequence>, library: HandLibrary,
                               row: seq<Value>, leftRows: seq<Entry>, rightRows: seq<Entry>)
    requires |pose| == RIGHT_HAND + MANO_N_J
    requires pose[1].Ref? && pose[LEFT_HAND].Ref? && pose[RIGHT_HAND].Ref?
    requires BodyFrame(pose[1].name, files) == Ok(row)
    requires |row| % 3 == 0 && |row| >= 3 * SMPL_H_N_J
    requires HandRows(pose[LEFT_HAND].name, library.left) == Ok(leftRows)
    requires HandRows(pose[RIGHT_HAND].name, library.right) == Ok(rightRows)
    ensures ResolveRecord(pose, files, library).Ok?
    ensures ResolveRecord(ResolveRecord(pose, files, library).value, files, library)
         == ResolveRecord(pose, files, library)
  {
    FullRecord(pose, files, library, row, leftRows, rightRows);
    var joints := Triples(row)[1..SMPL_H_N_J];
    var q := [pose[0]] + joints + leftRows + rightRows;
    assert q[1] == joints[0] && q[LEFT_HAND] == leftRows[0] && q[RIGHT_HAND] == rightRows[0];
    NoReferencesNoChange(q, files, library);
  }

  /** An unknown archive family is reported as such, not left unresolved. */
  lemma UnknownFamilyRejected(pose: seq<Entry>, files: map<string, MotionSequence>)
    requires |pose| >= 2 && pose[1].Ref?
    requires !StartsWith(pose[1].name, MOSH_PREFIX) && !StartsWith(pose[1].name, POSELIMITS_PREFIX)
    requires FrameNumber(pose[1].name).Ok? && SequencePath(pose[1].name).Ok?
    ensures BodyStep(pose, files) == Err(UnknownSequence)
  {
  }

  // ----- the mirror token -----

  /** Whether a reference starts with `p` is decided before its first `/` when
      `p` has no `/`: text after that point cannot change the answer. */
  lemma PrefixDecidedBeforeSlash(head: string, y1: string, y2: string, p: string)
    requires |head| > 0 && head[|head| - 1] == '/' && '/' !in p
    ensures StartsWith(head + y1, p) == StartsWith(head + y2, p)
  {
    if |p| <= |head| {
      assert (head + y1)[..|p|] == head[..|p|] == (head + y2)[..|p|];
    } else {
      assert (head + y1)[|head| - 1] == '/' && (head + y2)[|head| - 1] == '/';
      assert p[|head| - 1] != '/';
    }
  }

  // Only a proof step that guides the solver: the family prefixes hold no `/`.
  lemma PrefixesHaveNoSlash()
    ensures '/' !in MOSH_PREFIX && '/' !in POSELIMITS_PREFIX
  {
  }

  /** The reference `family/d1/.../stem.ext_mirror`. */
  function Reference(family: string, dirs: seq<string>, stem: string, ext: string, mirror: string): string {
    family + "/" + Join(dirs + [stem + "." + (ext + "_" + mirror)], "/")
  }

  /** The reference without its mirror token, and where that token is attached. */
  lemma ReferenceShape(family: string, dirs: seq<string>, stem: string, ext: string, mirror: string)
    ensures Reference(family, dirs, stem, ext, mirror)
         == family + "/" + Join(dirs + [stem + "." + ext], "/") + ['_'] + mirror
  {
    var parts := dirs + [stem + "." + ext];
    var tagged := "_" + mirror;
    assert parts[..|parts| - 1] == dirs;
    assert parts[|parts| - 1] + tagged == stem + "." + (ext + "_" + mirror);
    JoinExtendLast(parts, tagged, "/");
    var j := Join(parts, "/");
    assert Join(dirs + [stem + "." + (ext + "_" + mirror)], "/") == j + tagged;
    assert family + "/" + (j + tagged) == family + "/" + j + ['_'] + mirror;
  }

  /** The sequence path of a reference does not depend on its mirror token. */
  lemma MirrorSamePath(family: string, dirs: seq<string>, stem: string, ext: string, mirror: string)
    requires '/' !in family
    requires forall i :: 0 <= i < |dirs| ==> IsComponent(dirs[i])
    requires stem != "" && '/' !in stem
    requires '.' !in ext && '/' !in ext
    requires '.' !in mirror && '/' !in mirror
    ensures SequencePath(Reference(family, dirs, stem, ext, mirror)) == Ok(Join(dirs + [stem + NPZ], "/"))
  {
    var ext' := ext + "_" + mirror;
    assert '.' !in ext' && '/' !in ext';
    SequencePathOf(family, dirs, stem, ext');
  }

  /** Nor does its frame token, which comes before the mirror token. */
  lemma MirrorSameFrame(family: string, dirs: seq<string>, stem: string, ext: string, mirror: string)
    requires '_' !in mirror
    ensures FrameNumber(Reference(family, dirs, stem, ext, mirror))
         == FrameNumber(family + "/" + Join(dirs + [stem + "." + ext], "/") + "_0")
  {
    ReferenceShape(family, dirs, stem, ext, mirror);
    LastTokenIgnored(family + "/" + Join(dirs + [stem + "." + ext], "/"), mirror);
  }

  /** The frame of `body_mirror` is read as if the last token were `0`. */
  lemma LastTokenIgnored(body: string, mirror: string)
    requires '_' !in mirror
    ensures FrameNumber(body + ['_'] + mirror) == FrameNumber(body + "_0")
  {
    SplitConcat(body, mirror, '_');
    SplitConcat(body, "0", '_');
    SplitNoSeparator(mirror, '_');
    SplitNoSeparator("0", '_');
    assert body + "_0" == body + ['_'] + "0";
  }

  /** Nor does its archive family, which is decided before the first `/`. */
  lemma MirrorSameFamily(family: string, dirs: seq<string>, stem: string, ext: string,
                         mirror1: string, mirror2: string, p: string)
    requires '/' !in p
    ensures StartsWith(Reference(family, dirs, stem, ext, mirror1), p)
         == StartsWith(Reference(family, dirs, stem, ext, mirror2), p)
  {
    var head := family + "/";
    var y1 := Join(dirs + [stem + "." + (ext + "_" + mirror1)], "/");
    var y2 := Join(dirs + [stem + "." + (ext + "_" + mirror2)], "/");
    assert Reference(family, dirs, stem, ext, mirror1) == head + y1;
    assert Reference(family, dirs, stem, ext, mirror2) == head + y2;
    PrefixDecidedBeforeSlash(head, y1, y2, p);
  }

  /** Two references agreeing on frame, path and family resolve to the same frame data. */
  lemma BodyFrameDeterminedBy(n1: string, n2: string, files: map<string, MotionSequence>)
    requires FrameNumber(n1) == FrameNumber(n2) && SequencePath(n1) == SequencePath(n2)
    requires StartsWith(n1, MOSH_PREFIX) == StartsWith(n2, MOSH_PREFIX)
    requires StartsWith(n1, POSELIMITS_PREFIX) == StartsWith(n2, POSELIMITS_PREFIX)
    ensures BodyFrame(n1, files) == BodyFrame(n2, files)
  {
    if SequencePath(n1).Ok? {
      var path := SequencePath(n1).value;
      assert LocateSequence(n1, path, files) == LocateSequence(n2, path, files);
    }
  }

  /** The mirror flag (the last `_` token) has no effect: the source compares it
      with the integer 1, which a string never equals. Two references that differ
      only in that token resolve to the same frame data, or fail the same way,
      as long as the file name carries an extension before the frame token. */
  lemma MirrorTokenIgnored(family: string, dirs: seq<string>, stem: string, ext: string,
                           mirror1: string, mirror2: string, files: map<string, MotionSequence>)
    requires '/' !in family
    requires forall i :: 0 <= i < |dirs| ==> IsComponent(dirs[i])
    requires stem != "" && '/' !in stem
    requires '.' !in ext && '/' !in ext
    requires '_' !in mirror1 && '.' !in mirror1 && '/' !in mirror1
    requires '_' !in mirror2 && '.' !in mirror2 && '/' !in mirror2
    ensures BodyFrame(Reference(family, dirs, stem, ext, mirror1), files)
         == BodyFrame(Reference(family, dirs, stem, ext, mirror2), files)
  {
    PrefixesHaveNoSlash();
    var n1 := Reference(family, dirs, stem, ext, mirror1);
    var n2 := Reference(family, dirs, stem, ext, mirror2);
    assert FrameNumber(n1) == FrameNumber(n2) by {
      MirrorSameFrame(family, dirs, stem, ext, mirror1);
      MirrorSameFrame(family, dirs, stem, ext, mirror2);
    }
    assert SequencePath(n1) == SequencePath(n2) by {
      MirrorSamePath(family, dirs, stem, ext, mirror1);
      MirrorSamePath(family, dirs, stem, ext, mirror2);
    }
    assert StartsWith(n1, MOSH_PREFIX) == StartsWith(n2, MOSH_PREFIX) by {
      MirrorSameFamily(family, dirs, stem, ext, mirror1, mirror2, MOSH_PREFIX);
    }
    assert StartsWith(n1, POSELIMITS_PREFIX) == StartsWith(n2, POSELIMITS_PREFIX) by {
      MirrorSameFamily(family, dirs, stem, ext, mirror1, mirror2, POSELIMITS_PREFIX);
    }
    BodyFrameDeterminedBy(n1, n2, files);
  }

  /** Without a dot in its last component, a reference keeps that whole
      component, frame and mirror tokens included, in the file name. */
  lemma SequencePathDotless(family: string, dirs: seq<string>, last: string)
    requires '/' !in family
    requires forall i :: 0 <= i < |dirs| ==> IsComponent(dirs[i])
    requires IsComponent(last) && '.' !in last
    ensures SequencePath(family + "/" + Join(dirs + [last], "/")) == Ok(Join(dirs + [last + NPZ], "/"))
  {
    var parts := dirs + [last];
    assert forall i :: 0 <= i < |parts| ==> IsComponent(parts[i]) by {
      forall i | 0 <= i < |parts| ensures IsComponent(parts[i]) {
        if i < |dirs| { assert parts[i] == dirs[i]; }
      }
    }
    SequencePathAfterFamily(family, Join(parts, "/"));
    ParseJoined(parts);
    SuffixWithoutDot(last);
    WithSuffixLast(dirs, last, NPZ);
  }

  /** So for such a reference the mirror token is not ignored: two references
      differing only in it name two different sequence files. */
  lemma MirrorTokenChangesPath(family: string, dirs: seq<string>, stem: string, frame: string,
                               mirror1: string, mirror2: string)
    requires '/' !in family
    requires forall i :: 0 <= i < |dirs| ==> IsComponent(dirs[i])
    requires IsComponent(stem) && '.' !in stem && '.' !in frame && '/' !in frame
    requires '.' !in mirror1 && '/' !in mirror1 && '.' !in mirror2 && '/' !in mirror2
    requires mirror1 != mirror2
    ensures SequencePath(family + "/" + Join(dirs + [stem + "_" + frame + "_" + mirror1], "/"))
         != SequencePath(family + "/" + Join(dirs + [stem + "_" + frame + "_" + mirror2], "/"))
  {
    DotlessExtended(stem, "_");
    DotlessExtended(stem + "_", frame);
    DotlessExtended(stem + "_" + frame, "_");
    var x := stem + "_" + frame + "_";
    DotlessExtended(x, mirror1);
    DotlessExtended(x, mirror2);
    SequencePathDotless(family, dirs, x + mirror1);
    SequencePathDotless(family, dirs, x + mirror2);
    JoinLastExtended(dirs, x, mirror1);
    JoinLastExtended(dirs, x + mirror1, NPZ);
    JoinLastExtended(dirs, x, mirror2);
    JoinLastExtended(dirs, x + mirror2, NPZ);
    DistinctTails(Join(dirs + [x], "/"), mirror1, mirror2, NPZ);
  }

  /** A dot-free component stays one, still without a dot, when dot-free text
      without a separator is appended. */
  lemma DotlessExtended(c: string, t: string)
    requires IsComponent(c) && '.' !in c && '/' !in t && '.' !in t
    ensures IsComponent(c + t) && '.' !in c + t
  {
    ComponentExtended(c, t);
  }

  /** Text appended to the last of some directories extends their join. */
  lemma JoinLastExtended(dirs: seq<string>, last: string, t: string)
    ensures Join(dirs + [last + t], "/") == Join(dirs + [last], "/") + t
  {
    var parts := dirs + [last];
    JoinExtendLast(parts, t, "/");
    assert parts[..|parts| - 1] == dirs && parts[|parts| - 1] == last;
  }

  // Only a proof step that guides the solver: different middles, different strings.
  lemma DistinctTails(a: string, m1: string, m2: string, t: string)
    requires m1 != m2
    ensures a + m1 + t != a + m2 + t
  {
    if |m1| != |m2| {
      assert |a + m1 + t| != |a + m2 + t|;
    } else {
      var i :| 0 <= i < |m1| && m1[i] != m2[i];
      assert (a + m1 + t)[|a| + i] == m1[i];
      assert (a + m2 + t)[|a| + i] == m2[i];
    }
  }

  // ----- an end-to-end MoSh reference -----

  /** The fits directory as path components. */
  const FITS_PARTS: seq<string> := ["Data", "moshpp_fits_SMPL"]

  lemma FitsSegmentParts()
    ensures Join(FITS_PARTS, "/") == FITS_SEGMENT
    ensures forall i :: 0 <= i < |FITS_PARTS| ==> IsComponent(FITS_PARTS[i])
  {
    assert FITS_PARTS[1..] == ["moshpp_fits_SMPL"];
  }

  /** Joining two runs of parts puts a separator between their joins. */
  lemma {:induction false} JoinAppend(xs: seq<string>, ys: seq<string>, sep: string)
    requires |xs| >= 1 && |ys| >= 1
    ensures Join(xs + ys, sep) == Join(xs, sep) + sep + Join(ys, sep)
    decreases |xs|
  {
    if |xs| == 1 {
      JoinCons(xs[0], ys, sep);
      assert xs + ys == [xs[0]] + ys;
    } else {
      JoinAppend(xs[1..], ys, sep);
      assert (xs + ys)[1..] == xs[1..] + ys;
      JoinCons(xs[0], xs[1..] + ys, sep);
      assert xs + ys == [xs[0]] + (xs[1..] + ys);
      JoinCons(xs[0], xs[1..], sep);
      assert xs == [xs[0]] + xs[1..];
    }
  }

  lemma FitsJoin(xs: seq<string>)
    requires |xs| >= 1
    ensures Join(FITS_PARTS + xs, "/") == FITS_SEGMENT + "/" + Join(xs, "/")
  {
    FitsSegmentParts();
    JoinAppend(FITS_PARTS, xs, "/");
  }

  /** The MoSh reference `MoSh_MPI_MoSh/Data/moshpp_fits_SMPL/d1/.../s.ext_k_m`. */
  function MoShReference(dirs: seq<string>, s: string, ext: string, k: nat, mirror: string): string {
    MOSH_PREFIX + "/" + Join(FITS_PARTS + dirs + [s + "." + ext + "_" + ShowNat(k) + "_" + mirror], "/")
  }

  /** Where the sequence sits below the renamed segment: `d1/.../s`. */
  function SequenceTail(dirs: seq<string>, s: string): string {
    Join(dirs + [s], "/")
  }

  /** Such a reference names frame `k` of `Data/moshpp_fits_SMPL/d1/.../s.npz`. */
  lemma MoShReferenceTokens(dirs: seq<string>, s: string, ext: string, k: nat, mirror: string)
    requires forall i :: 0 <= i < |dirs| ==> IsComponent(dirs[i])
    requires IsComponent(s) && '.' !in ext && '/' !in ext
    requires '_' !in mirror && '.' !in mirror && '/' !in mirror
    ensures FrameNumber(MoShReference(dirs, s, ext, k, mirror)) == Ok(k)
    ensures SequencePath(MoShReference(dirs, s, ext, k, mirror))
         == Ok(FITS_SEGMENT + "/" + SequenceTail(dirs, s) + NPZ)
  {
    var ks := ShowNat(k);
    assert '_' !in ks && '.' !in ks && '/' !in ks by {
      assert forall i :: 0 <= i < |ks| ==> IsDigit(ks[i]);
    }
    ParseShowNat(k);
    assert IsComponent("Data") && IsComponent("moshpp_fits_SMPL") && '/' !in MOSH_PREFIX;
    var ds := FITS_PARTS + dirs;
    assert forall i :: 0 <= i < |ds| ==> IsComponent(ds[i]) by {
      forall i | 0 <= i < |ds| ensures IsComponent(ds[i]) {
        if i >= 2 { assert ds[i] == dirs[i - 2]; }
      }
    }
    var e := s + "." + ext;
    var name := MoShReference(dirs, s, ext, k, mirror);
    // the frame token
    var head := MOSH_PREFIX + "/" + Join(ds + [e], "/");
    TokensExtendJoin(ds, e, ks, mirror);
    RegroupTokens(MOSH_PREFIX + "/", Join(ds + [e], "/"), ks, mirror);
    assert name == head + "_" + ks + "_" + mirror;
    FrameIsSecondToLastToken(head, ks, mirror);
    // the path, with the fits segment in front
    var ext' := ext + "_" + ks + "_" + mirror;
    assert '.' !in ext' && '/' !in ext';
    RegroupTokens(s + ".", ext, ks, mirror);
    SequencePathOf(MOSH_PREFIX, ds, s, ext');
    FitsPath(dirs, s);
  }

  /** Appending the frame and mirror tokens to the last part extends the join. */
  lemma TokensExtendJoin(ds: seq<string>, e: string, ks: string, mirror: string)
    ensures Join(ds + [e + "_" + ks + "_" + mirror], "/") == Join(ds + [e], "/") + "_" + ks + "_" + mirror
  {
    JoinLastExtended(ds, e, "_");
    JoinLastExtended(ds, e + "_", ks);
    JoinLastExtended(ds, e + "_" + ks, "_");
    JoinLastExtended(ds, e + "_" + ks + "_", mirror);
  }

  // Only a proof step that guides the solver: regrouping the token tail.
  lemma RegroupTokens(a: string, b: string, ks: string, mirror: string)
    ensures a + (b + "_" + ks + "_" + mirror) == a + b + "_" + ks + "_" + mirror
  {
  }

  /** The path of a sequence below the fits directory. */
  lemma FitsPath(dirs: seq<string>, s: string)
    ensures Join(FITS_PARTS + dirs + [s + NPZ], "/") == FITS_SEGMENT + "/" + SequenceTail(dirs, s) + NPZ
  {
    assert FITS_PARTS + dirs + [s + NPZ] == FITS_PARTS + (dirs + [s + NPZ]);
    FitsJoin(dirs + [s + NPZ]);
    JoinLastExtended(dirs, s, NPZ);
  }

  /** The key of `data_dir / "MoSh" / "MPI_mosh/d1/.../s" + x`. */
  lemma MoShKey(dirs: seq<string>, s: string, x: string)
    requires forall i :: 0 <= i < |dirs| ==> IsComponent(dirs[i])
    requires IsComponent(s) && '/' !in x
    ensures ArchiveFile(MOSH_FILENAME, MOSH_SEGMENT + "/" + SequenceTail(dirs, s) + x)
         == MOSH_FILENAME + "/" + MOSH_SEGMENT + "/" + SequenceTail(dirs, s) + x
  {
    assert IsComponent(MOSH_SEGMENT) && IsComponent(MOSH_FILENAME);
    ComponentExtended(s, x);
    var parts := [MOSH_SEGMENT] + dirs + [s + x];
    assert forall i :: 0 <= i < |parts| ==> IsComponent(parts[i]) by {
      forall i | 0 <= i < |parts| ensures IsComponent(parts[i]) {
        if 1 <= i <= |dirs| { assert parts[i] == dirs[i - 1]; }
      }
    }
    var tail := SequenceTail(dirs, s);
    assert Join(dirs + [s + x], "/") == tail + x by {
      JoinExtendLast(dirs + [s], x, "/");
      assert (dirs + [s])[..|dirs|] == dirs && (dirs + [s])[|dirs|] == s;
    }
    var j := Join(parts, "/");
    assert j == MOSH_SEGMENT + "/" + tail + x by {
      assert parts == [MOSH_SEGMENT] + (dirs + [s + x]);
      JoinCons(MOSH_SEGMENT, dirs + [s + x], "/");
    }
    ArchiveFileJoined(MOSH_FILENAME, parts);
    Regroup(MOSH_FILENAME + "/", MOSH_SEGMENT, "/", tail, x);
  }

  /** A reference resolves to the frame its tokens name in the file it locates. */
  lemma BodyFrameOf(name: string, files: map<string, MotionSequence>, frame: int, path: string, sq: MotionSequence)
    requires FrameNumber(name) == Ok(frame) && SequencePath(name) == Ok(path)
    requires LocateSequence(name, path, files) == Ok(sq)
    ensures BodyFrame(name, files) == SelectFrame(sq, frame)
  {
  }

  /** The reference `MoSh_MPI_MoSh/Data/moshpp_fits_SMPL/d1/.../s.ext_k_m`, when
      only the doubled `MoSh/MPI_mosh/d1/.../s_poses_poses.npz` exists and was
      captured at 120 frames per second, resolves to raw frame 4k of that file. */
  lemma MoShDoubledReferenceResolves(dirs: seq<string>, s: string, ext: string, k: nat, mirror: string,
                                     files: map<string, MotionSequence>)
    requires forall i :: 0 <= i < |dirs| ==> IsComponent(dirs[i])
    requires IsComponent(s) && !Occurs(NPZ, SequenceTail(dirs, s)) && '.' !in ext && '/' !in ext
    requires '_' !in mirror && '.' !in mirror && '/' !in mirror
    requires !Occurs(FITS_SEGMENT, "/" + SequenceTail(dirs, s) + NPZ)
    requires MOSH_FILENAME + "/" + MOSH_SEGMENT + "/" + SequenceTail(dirs, s) + POSES_NPZ !in files
    requires var key := MOSH_FILENAME + "/" + MOSH_SEGMENT + "/" + SequenceTail(dirs, s) + "_poses" + POSES_NPZ;
      key in files && files[key].rate == 120 && 4 * k < |files[key].poses|
    ensures var key := MOSH_FILENAME + "/" + MOSH_SEGMENT + "/" + SequenceTail(dirs, s) + "_poses" + POSES_NPZ;
      BodyFrame(MoShReference(dirs, s, ext, k, mirror), files) == Ok(files[key].poses[4 * k])
  {
    var name := MoShReference(dirs, s, ext, k, mirror);
    var path := FITS_SEGMENT + "/" + SequenceTail(dirs, s) + NPZ;
    MoShReferenceTokens(dirs, s, ext, k, mirror);
    MoShCandidateKeys(dirs, s);
    var key := MOSH_FILENAME + "/" + MOSH_SEGMENT + "/" + SequenceTail(dirs, s) + "_poses" + POSES_NPZ;
    assert StartsWith(name, MOSH_PREFIX);
    assert LocateSequence(name, path, files) == Ok(files[key]);
    BodyFrameOf(name, files, k, path, files[key]);
    RateOneTwentySelectsEveryFourth(files[key], k);
  }

  /** The two MoSh archive keys tried for `Data/moshpp_fits_SMPL/d1/.../s.npz`. */
  lemma MoShCandidateKeys(dirs: seq<string>, s: string)
    requires forall i :: 0 <= i < |dirs| ==> IsComponent(dirs[i])
    requires IsComponent(s) && !Occurs(NPZ, SequenceTail(dirs, s))
    requires !Occurs(FITS_SEGMENT, "/" + SequenceTail(dirs, s) + NPZ)
    ensures var path := FITS_SEGMENT + "/" + SequenceTail(dirs, s) + NPZ;
      ArchiveFile(MOSH_FILENAME, MoShPath(path))
        == MOSH_FILENAME + "/" + MOSH_SEGMENT + "/" + SequenceTail(dirs, s) + POSES_NPZ
    ensures var path := FITS_SEGMENT + "/" + SequenceTail(dirs, s) + NPZ;
      ArchiveFile(MOSH_FILENAME, DoubledPath(MoShPath(path)))
        == MOSH_FILENAME + "/" + MOSH_SEGMENT + "/" + SequenceTail(dirs, s) + "_poses" + POSES_NPZ
  {
    var tail := SequenceTail(dirs, s);
    var rest := "/" + tail;
    assert !Occurs(NPZ, rest) by {
      NpzShape();
      OccursPastFree(NPZ, "/", tail);
    }
    assert FITS_SEGMENT + "/" + tail + NPZ == FITS_SEGMENT + rest + NPZ;
    MoShCandidate(rest);
    MoShRetryCandidate(rest);
    assert MOSH_SEGMENT + rest + POSES_NPZ == MOSH_SEGMENT + "/" + tail + POSES_NPZ;
    assert MOSH_SEGMENT + rest + "_poses" + POSES_NPZ == MOSH_SEGMENT + "/" + tail + ("_poses" + POSES_NPZ);
    MoShKey(dirs, s, POSES_NPZ);
    MoShKey(dirs, s, "_poses" + POSES_NPZ);
    assert MOSH_FILENAME + "/" + MOSH_SEGMENT + "/" + tail + ("_poses" + POSES_NPZ)
        == MOSH_FILENAME + "/" + MOSH_SEGMENT + "/" + tail + "_poses" + POSES_NPZ;
  }
}
