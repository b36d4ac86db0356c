/** The imperative side of `process_metadata`: a record's pose list is a
    field that the body, left-hand and right-hand steps rewrite in turn, and
    the record files are processed one after another, each rewritten only
    when all of its steps succeed. */
module MetadataFiles {
  import opened Wrappers
  import opened PyStrings
  import opened PurePath
  import opened PoseData
  import opened Reconcile

  /** The `metadata` dictionary of one record file; only its "pose" list is touched. */
  class Metadata {
    var pose: seq<Entry>

    constructor (pose0: seq<Entry>)
      ensures pose == pose0
    {
      pose := pose0;
    }

    /** Resolves a body reference at entry 1 from the motion-sequence archives.
        On an error nothing has been written yet. */
    method ResolveBody(files: map<string, MotionSequence>) returns (err: Option<Error>)
      modifies this
      ensures BodyStep(old(pose), files).Ok? ==> err.None? && pose == BodyStep(old(pose), files).value
      ensures BodyStep(old(pose), files).Err? ==> err == Some(BodyStep(old(pose), files).error) && pose == old(pose)
    {
      if |pose| < 2 {
        return Some(PoseTooShort(1));
      }
      if !pose[1].Ref? {
        return None;
      }
      var seqName := pose[1].name;
      var found := ReadBodyFrame(seqName, files);
      if found.Err? {
        return Some(found.error);
      }
      var row := found.value;
      if |row| % 3 != 0 {
        return Some(BadFrameShape);
      }
      // the root joint of the frame is dropped
      pose := SliceAssign(pose, 1, SMPL_H_N_J, Slice(Triples(row), 1, SMPL_H_N_J));
      return None;
    }

    /** Resolves a left-hand reference at entry 22 from the left MANO library. */
    method ResolveLeftHand(left: seq<seq<Value>>) returns (err: Option<Error>)
      modifies this
      ensures LeftHandStep(old(pose), left).Ok? ==> err.None? && pose == LeftHandStep(old(pose), left).value
      ensures LeftHandStep(old(pose), left).Err? ==> err == Some(LeftHandStep(old(pose), left).error) && pose == old(pose)
    {
      if |pose| <= LEFT_HAND {
        return Some(PoseTooShort(LEFT_HAND));
      }
      if !pose[LEFT_HAND].Ref? {
        return None;
      }
      var row := LibraryRow(pose[LEFT_HAND].name, left);
      if row.Err? {
        return Some(row.error);
      }
      pose := SliceAssign(pose, LEFT_HAND, RIGHT_HAND, Triples(row.value));
      return None;
    }

    /** Resolves a right-hand reference at entry 37 from the right MANO library;
        the write covers everything from entry 37 on. */
    method ResolveRightHand(right: seq<seq<Value>>) returns (err: Option<Error>)
      modifies this
      ensures RightHandStep(old(pose), right).Ok? ==> err.None? && pose == RightHandStep(old(pose), right).value
      ensures RightHandStep(old(pose), right).Err? ==> err == Some(RightHandStep(old(pose), right).error) && pose == old(pose)
    {
      if |pose| <= RIGHT_HAND {
        return Some(PoseTooShort(RIGHT_HAND));
      }
      if !pose[RIGHT_HAND].Ref? {
        return None;
      }
      var row := LibraryRow(pose[RIGHT_HAND].name, right);
      if row.Err? {
        return Some(row.error);
      }
      pose := SliceAssign(pose, RIGHT_HAND, |pose|, Triples(row.value));
      return None;
    }

    /** The body of the loop in `process_metadata`: the three steps in order.
        The first failing step stops it, leaving what the earlier steps wrote. */
    method Reconcile(files: map<string, MotionSequence>, library: HandLibrary) returns (err: Option<Error>)
      modifies this
      ensures ResolveRecord(old(pose), files, library).Ok? ==> err.None? && pose == ResolveRecord(old(pose), files, library).value
      ensures ResolveRecord(old(pose), files, library).Err? ==> err == Some(ResolveRecord(old(pose), files, library).error)
      ensures BodyStep(old(pose), files).Err? ==> pose == old(pose)
      ensures BodyStep(old(pose), files).Ok? && LeftHandStep(BodyStep(old(pose), files).value, library.left).Err?
        ==> pose == BodyStep(old(pose), files).value
      ensures BodyStep(old(pose), files).Ok? && LeftHandStep(BodyStep(old(pose), files).value, library.left).Ok?
        && ResolveRecord(old(pose), files, library).Err?
        ==> pose == LeftHandStep(BodyStep(old(pose), files).value, library.left).value
    {
      err := ResolveBody(files);
      if err.Some? {
        return;
      }
      err := ResolveLeftHand(library.left);
      if err.Some? {
        return;
      }
      err := ResolveRightHand(library.right);
    }
  }

  /** The frame a body reference names: frame token, sequence path, archive
      file, frame step and frame, read in the order the script reads them. */
  method ReadBodyFrame(seqName: string, files: map<string, MotionSequence>) returns (r: Result<seq<Value>, Error>)
    ensures r == BodyFrame(seqName, files)
  {
    var tokens := Split(seqName, '_');
    if |tokens| < 2 {
      return Err(MissingToken);
    }
    var frame := ParseInt(tokens[|tokens| - 2]);
    if frame.None? {
      return Err(NotAnInteger);
    }
    // The mirror flag tokens[|tokens| - 1] is a string compared with the
    // integer 1, so it is never set and the assertion on it never fails.
    var named := WithSuffix(Parse(Join(Split(seqName, '/')[1..], "/")), NPZ);
    if named.None? {
      return Err(EmptyName);
    }
    var seqPath := AsPosix(named.value);
    var located := FindSequence(seqName, seqPath, files);
    if located.Err? {
      return Err(located.error);
    }
    r := PickFrame(located.value, frame.value);
  }

  /** The archive file of a derived sequence path, rewritten step by step. */
  method FindSequence(seqName: string, path: string, files: map<string, MotionSequence>)
    returns (r: Result<MotionSequence, Error>)
    ensures r == LocateSequence(seqName, path, files)
  {
    var seqPath := path;
    var archive;
    if StartsWith(seqName, MOSH_PREFIX) {
      seqPath := Replace(seqPath, FITS_SEGMENT, MOSH_SEGMENT);
      seqPath := Replace(seqPath, NPZ, POSES_NPZ);
      if ArchiveFile(MOSH_FILENAME, seqPath) !in files {
        // one sequence is stored with a doubled `_poses` suffix
        seqPath := Replace(seqPath, NPZ, POSES_NPZ);
      }
      archive := MOSH_FILENAME;
    } else if StartsWith(seqName, POSELIMITS_PREFIX) {
      seqPath := Replace(seqPath, FITS_SEGMENT, LIMITS_SEGMENT);
      seqPath := Replace(seqPath, NPZ, POSES_NPZ);
      archive := POSELIM_FILENAME;
    } else {
      return Err(UnknownSequence);
    }
    var key := ArchiveFile(archive, seqPath);
    if key !in files {
      return Err(FileNotFound(key));
    }
    return Ok(files[key]);
  }

  /** `seq_data["poses"][::frame_step][frame]` with the step from the capture rate. */
  method PickFrame(seqData: MotionSequence, frame: int) returns (r: Result<seq<Value>, Error>)
    ensures r == SelectFrame(seqData, frame)
  {
    var frameStep := seqData.rate / 30;
    if frameStep == 0 {
      return Err(ZeroFrameStep);
    }
    var frames := Subsample(seqData.poses, frameStep);
    var j := PyIndex(|frames|, frame);
    if j.None? {
      return Err(FrameOutOfRange);
    }
    return Ok(frames[j.value]);
  }

  /** The library row a hand reference names, checked to hold 15 joints. */
  method LibraryRow(name: string, library: seq<seq<Value>>) returns (r: Result<seq<Value>, Error>)
    ensures r.Ok? ==> |r.value| == 3 * MANO_N_J && HandRows(name, library) == Ok(Triples(r.value))
    ensures r.Ok? ==> (HandRowIndex(name).Ok? && PyIndex(|library|, HandRowIndex(name).value).Some? &&
      r.value == library[PyIndex(|library|, HandRowIndex(name).value).value])
    ensures r.Err? ==> HandRows(name, library) == Err(r.error)
  {
    var tokens := Split(name, '_');
    if |tokens| < 2 {
      return Err(MissingToken);
    }
    var idx := ParseInt(tokens[1]);
    if idx.None? {
      return Err(NotAnInteger);
    }
    var j := PyIndex(|library|, idx.value);
    if j.None? {
      return Err(LibraryIndexOutOfRange);
    }
    if |library[j.value]| != 3 * MANO_N_J {
      return Err(BadHandShape);
    }
    return Ok(library[j.value]);
  }

  /** What a run over the record files leaves: the records as they are then,
      and the error that stopped the run, if any. */
  datatype Outcome = Outcome(records: seq<seq<Entry>>, failure: Option<Error>)

  /** How one record's pose list is resolved. */
  type Resolver = seq<Entry> -> Result<seq<Entry>, Error>

  /** The resolution `process_metadata` applies to every record. */
  function RecordResolver(files: map<string, MotionSequence>, library: HandLibrary): Resolver {
    pose => ResolveRecord(pose, files, library)
  }

  /** The specification of the run: records are resolved in order and each is
      replaced by its resolution; the first failing record stops the run, and
      it and every later record keep their old contents. */
  function ProcessRecords(records: seq<seq<Entry>>, resolve: Resolver): (r: Outcome)
    ensures |r.records| == |records|
    decreases |records|
  {
    if |records| == 0 then Outcome([], None)
    else
      match resolve(records[0])
      case Err(e) => Outcome(records, Some(e))
      case Ok(q) =>
        var rest := ProcessRecords(records[1..], resolve);
        Outcome([q] + rest.records, rest.failure)
  }

  /** A run succeeds exactly when every record resolves, and then every
      record is replaced by its resolution. */
  lemma {:induction false} ProcessRecordsSucceeds(records: seq<seq<Entry>>, resolve: Resolver)
    ensures ProcessRecords(records, resolve).failure.None?
        <==> forall k :: 0 <= k < |records| ==> resolve(records[k]).Ok?
    ensures ProcessRecords(records, resolve).failure.None? ==>
      forall k :: 0 <= k < |records| ==> ProcessRecords(records, resolve).records[k] == resolve(records[k]).value
    decreases |records|
  {
    if |records| > 0 {
      ProcessRecordsSucceeds(records[1..], resolve);
      assert forall k :: 1 <= k < |records| ==> records[1..][k - 1] == records[k];
    }
  }

  /** When record `i` is the first that fails, the run reports its error, every
      earlier record is resolved, and record `i` and all later ones are unchanged. */
  lemma {:induction false} ProcessRecordsStops(records: seq<seq<Entry>>, resolve: Resolver, i: nat)
    requires i < |records| && resolve(records[i]).Err?
    requires forall k :: 0 <= k < i ==> resolve(records[k]).Ok?
    ensures var r := ProcessRecords(records, resolve);
      && r.failure == Some(resolve(records[i]).error)
      && r.records[i..] == records[i..]
      && forall k :: 0 <= k < i ==> r.records[k] == resolve(records[k]).value
    decreases i
  {
    if i > 0 {
      assert forall k :: 0 <= k < i - 1 ==> records[1..][k] == records[k + 1];
      ProcessRecordsStops(records[1..], resolve, i - 1);
      var r := ProcessRecords(records, resolve);
      var rest := ProcessRecords(records[1..], resolve);
      assert r.records == [resolve(records[0]).value] + rest.records;
      assert r.records[i..] == rest.records[i - 1..];
    }
  }

  /** A run over `xs + ys` whose `xs` part succeeds is the run over `xs`
      followed by the run over `ys`. */
  lemma {:induction false} ProcessRecordsAppend(xs: seq<seq<Entry>>, ys: seq<seq<Entry>>, resolve: Resolver)
    requires ProcessRecords(xs, resolve).failure.None?
    ensures ProcessRecords(xs + ys, resolve)
         == Outcome(ProcessRecords(xs, resolve).records + ProcessRecords(ys, resolve).records,
                    ProcessRecords(ys, resolve).failure)
    decreases |xs|
  {
    if |xs| == 0 {
      assert xs + ys == ys;
    } else {
      assert (xs + ys)[0] == xs[0];
      assert (xs + ys)[1..] == xs[1..] + ys;
      ProcessRecordsAppend(xs[1..], ys, resolve);
    }
  }

  /** One more record that resolves extends a successful run by its resolution. */
  lemma ProcessRecordsExtend(xs: seq<seq<Entry>>, x: seq<Entry>, resolve: Resolver)
    requires ProcessRecords(xs, resolve).failure.None? && resolve(x).Ok?
    ensures ProcessRecords(xs + [x], resolve) == Outcome(ProcessRecords(xs, resolve).records + [resolve(x).value], None)
  {
    ProcessRecordsAppend(xs, [x], resolve);
  }

  /** A failing record after a successful run ends it there, leaving the rest as it was. */
  lemma ProcessRecordsFailAt(xs: seq<seq<Entry>>, ys: seq<seq<Entry>>, resolve: Resolver)
    requires ProcessRecords(xs, resolve).failure.None?
    requires |ys| > 0 && resolve(ys[0]).Err?
    ensures ProcessRecords(xs + ys, resolve)
         == Outcome(ProcessRecords(xs, resolve).records + ys, Some(resolve(ys[0]).error))
  {
    ProcessRecordsAppend(xs, ys, resolve);
  }

  /** One record file: its metadata is loaded, reconciled, and its pose list
      handed back for writing when no step failed. `resolve` is any function
      that agrees with `ResolveRecord`. */
  method ReconcileRecord(pose: seq<Entry>, files: map<string, MotionSequence>, library: HandLibrary,
                         ghost resolve: Resolver)
    returns (resolved: seq<Entry>, err: Option<Error>)
    requires forall p {:trigger ResolveRecord(p, files, library)} :: resolve(p) == ResolveRecord(p, files, library)
    ensures resolve(pose).Ok? ==> err.None? && resolved == resolve(pose).value
    ensures resolve(pose).Err? ==> err == Some(resolve(pose).error)
  {
    var metadata := new Metadata(pose);
    err := metadata.Reconcile(files, library);
    resolved := metadata.pose;
  }

  /** `process_metadata` over the record files in the order `glob` lists them:
      each record is reconciled and written back; the first error ends the run
      and that record's file is not rewritten. */
  method ProcessMetadata(records: array<seq<Entry>>, files: map<string, MotionSequence>, library: HandLibrary)
    returns (err: Option<Error>)
    modifies records
    ensures records[..] == ProcessRecords(old(records[..]), RecordResolver(files, library)).records
    ensures err == ProcessRecords(old(records[..]), RecordResolver(files, library)).failure
  {
    err := ReconcileRecords(records, files, library, RecordResolver(files, library));
  }

  /** The loop of `process_metadata`, specified with any `resolve` that agrees
      with `ResolveRecord` on the records it meets. */
  method ReconcileRecords(records: array<seq<Entry>>, files: map<string, MotionSequence>, library: HandLibrary,
                          ghost resolve: Resolver)
    returns (err: Option<Error>)
    requires forall p {:trigger ResolveRecord(p, files, library)} :: resolve(p) == ResolveRecord(p, files, library)
    modifies records
    ensures records[..] == ProcessRecords(old(records[..]), resolve).records
    ensures err == ProcessRecords(old(records[..]), resolve).failure
  {
    ghost var original := records[..];
    var i := 0;
    while i < records.Length
      invariant 0 <= i <= records.Length
      invariant forall p {:trigger ResolveRecord(p, files, library)} :: resolve(p) == ResolveRecord(p, files, library)
      invariant forall k :: 0 <= k < i ==> resolve(original[k]).Ok? && records[k] == resolve(original[k]).value
      invariant records[i..] == original[i..]
    {
      assert records[i] == original[i];
      var resolved;
      resolved, err := ReconcileRecord(records[i], files, library, resolve);
      if err.Some? {
        ProcessRecordsStops(original, resolve, i);
        ghost var r := ProcessRecords(original, resolve);
        assert records[..] == r.records by {
          assert records[..] == records[..i] + records[i..];
          assert r.records == r.records[..i] + r.records[i..];
        }
        return;
      }
      records[i] := resolved;
      i := i + 1;
    }
    ProcessRecordsSucceeds(original, resolve);
    assert records[..] == ProcessRecords(original, resolve).records;
    return None;
  }
}
