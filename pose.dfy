/** The pose data the reconciliation works on: the record layout constants,
    pose entries, the motion-sequence and hand-library sources, the errors,
    and the list and array operations the script applies to them (Python
    slicing and slice assignment, numpy indexing, `reshape(-1, 3)` and
    `[::step]`). */
module PoseData {
  import opened Wrappers

  /** Joints per MANO hand. */
  const MANO_N_J: nat := 15
  /** SMPL-H body joints, root included. */
  const SMPL_H_N_J: nat := 22
  /** Index of the first left-hand entry of a pose. */
  const LEFT_HAND: nat := SMPL_H_N_J
  /** Index of the first right-hand entry of a pose. */
  const RIGHT_HAND: nat := SMPL_H_N_J + MANO_N_J

  /** Archive directories inside the data directory. */
  const MANO_FILENAME := "manoposesv10"
  const MOSH_FILENAME := "MoSh"
  const POSELIM_FILENAME := "PosePrior"

  /** A pose number. The script only copies these, so nothing is assumed about them. */
  type Value(==, !new)

  /** One entry of a record's "pose" list: a resolved joint rotation (three
      numbers) or a string reference still to be resolved. */
  datatype Entry = Joint(x: Value, y: Value, z: Value) | Ref(name: string)

  /** A motion-sequence `.npz` file: its capture rate (whole frames per second)
      and its table of flattened per-frame poses. */
  datatype MotionSequence = MotionSequence(rate: nat, poses: seq<seq<Value>>)

  /** The two MANO pose libraries, one flattened 15x3 pose per row. */
  datatype HandLibrary = HandLibrary(left: seq<seq<Value>>, right: seq<seq<Value>>)

  /** Why resolving a record fails; each one aborts the whole run. */
  datatype Error =
    | PoseTooShort(index: nat)   // IndexError reading metadata["pose"][index]
    | MissingToken               // IndexError on the `_`-split of a reference
    | NotAnInteger               // ValueError from int()
    | EmptyName                  // ValueError from with_suffix on a path without a name
    | UnknownSequence            // RuntimeError: neither known archive family
    | FileNotFound(path: string) // np.load on a sequence file that is not there
    | ZeroFrameStep              // ValueError: slice step cannot be zero
    | FrameOutOfRange            // IndexError selecting the frame
    | BadFrameShape              // ValueError: frame length not a multiple of 3
    | LibraryIndexOutOfRange     // IndexError selecting the library row
    | BadHandShape               // ValueError: library row is not 15x3

  /** Python's `s[lo:hi]` for non-negative bounds: both are clamped to the length. */
  function Slice<T>(s: seq<T>, lo: nat, hi: nat): (r: seq<T>)
    ensures lo <= hi <= |s| ==> r == s[lo..hi]
    ensures lo <= |s| <= hi ==> r == s[lo..]
    ensures |s| <= lo || hi <= lo ==> r == []
  {
    var a := if lo < |s| then lo else |s|;
    var b := if hi < |s| then hi else |s|;
    if a <= b then s[a..b] else []
  }

  /** Python's `s[lo:hi] = r` (step 1, non-negative bounds): the clamped range
      is replaced by `r`, which may change the length of the list. */
  function SliceAssign<T>(s: seq<T>, lo: nat, hi: nat, r: seq<T>): (t: seq<T>)
    ensures lo <= hi <= |s| ==> |t| == |s| - (hi - lo) + |r|
    ensures lo <= hi <= |s| ==> t[..lo] == s[..lo] && t[lo..lo + |r|] == r && t[lo + |r|..] == s[hi..]
    ensures lo <= |s| <= hi ==> t == s[..lo] + r
    ensures forall i :: 0 <= i < lo && i < |s| ==> i < |t| && t[i] == s[i]
  {
    var a := if lo < |s| then lo else |s|;
    var b := if hi < a then a else if hi < |s| then hi else |s|;
    s[..a] + r + s[b..]
  }

  /** The position `a[i]` reads in a Python list or numpy array of length `n`;
      negative indices count from the end. None stands for the IndexError. */
  function PyIndex(n: nat, i: int): (r: Option<nat>)
    ensures r.Some? <==> -(n as int) <= i < n
    ensures r.Some? ==> r.value < n
    ensures r.Some? && i >= 0 ==> r.value == i
    ensures r.Some? && i < 0 ==> r.value == n + i
  {
    if 0 <= i < n then Some(i)
    else if -(n as int) <= i < 0 then Some(n + i)
    else None
  }

  /** `row.reshape((-1, 3)).tolist()`: consecutive triples of a flattened row. */
  function Triples(row: seq<Value>): (r: seq<Entry>)
    requires |row| % 3 == 0
    ensures |r| == |row| / 3
    ensures forall j :: 0 <= j < |r| ==> r[j] == Joint(row[3 * j], row[3 * j + 1], row[3 * j + 2])
    decreases |row|
  {
    if |row| == 0 then [] else [Joint(row[0], row[1], row[2])] + Triples(row[3..])
  }

  /** The numbers of a list of joint entries, in order (numpy's `ravel`). */
  function Flatten(es: seq<Entry>): seq<Value>
    requires forall j :: 0 <= j < |es| ==> es[j].Joint?
    decreases |es|
  {
    if |es| == 0 then [] else [es[0].x, es[0].y, es[0].z] + Flatten(es[1..])
  }

  /** Reshaping into triples loses nothing: flattening them gives the row back. */
  lemma {:induction false} FlattenTriples(row: seq<Value>)
    requires |row| % 3 == 0
    ensures Flatten(Triples(row)) == row
    decreases |row|
  {
    if |row| > 0 {
      var t := Triples(row);
      assert t[1..] == Triples(row[3..]);
      FlattenTriples(row[3..]);
      assert row == [row[0], row[1], row[2]] + row[3..];
    }
  }

  /** The number of frames in `a[::step]` for `n` raw frames: `ceil(n / step)`. */
  function FrameCount(n: nat, step: nat): nat
    requires step > 0
  {
    (n + step - 1) / step
  }

  /** Frame `k` of `a[::step]` exists exactly when raw frame `k * step` does. */
  lemma FrameCountBound(n: nat, step: nat, k: nat)
    requires step > 0
    ensures k < FrameCount(n, step) <==> k * step < n
  {
    var q := FrameCount(n, step);
    var m := n + step - 1;
    assert m == q * step + m % step && 0 <= m % step < step;
    if k < q {
      assert (k + 1) * step <= q * step by { MulMono(k + 1, q, step); }
    } else {
      assert q * step <= k * step by { MulMono(q, k, step); }
    }
  }

  // Only a proof step that guides the solver: multiplication is monotone.
  lemma MulMono(a: nat, b: nat, c: nat)
    requires a <= b
    ensures a * c <= b * c
  {
    assert b * c == a * c + (b - a) * c;
  }

  /** Raw frame `k * step`, frame `k` of `a[::step]`. */
  function FrameAt<T>(s: seq<T>, step: nat, k: nat): T
    requires step > 0 && k < FrameCount(|s|, step)
  {
    FrameCountBound(|s|, step, k);
    s[k * step]
  }

  /** numpy's `a[::step]` on the first axis: every `step`-th frame from the first. */
  function Subsample<T>(s: seq<T>, step: nat): (r: seq<T>)
    requires step > 0
    ensures |r| == FrameCount(|s|, step)
  {
    seq(FrameCount(|s|, step), (k: int) requires 0 <= k < FrameCount(|s|, step) => FrameAt(s, step, k))
  }

  /** Frame `k` of `s[::step]` exists exactly when raw frame `k * step` does, and is that frame. */
  lemma SubsampleAt<T>(s: seq<T>, step: nat, k: nat)
    requires step > 0
    ensures k < |Subsample(s, step)| <==> k * step < |s|
    ensures k < |Subsample(s, step)| ==> Subsample(s, step)[k] == s[k * step]
  {
    FrameCountBound(|s|, step, k);
    if k < |Subsample(s, step)| {
      assert Subsample(s, step)[k] == FrameAt(s, step, k);
    }
  }
}
