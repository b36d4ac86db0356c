/** The Python `str` operations the download script relies on: `split`, `join`,
    `startswith`, `replace`, `rfind`, `int()` on a decimal token and the
    `{:02d}` format. Characters are Dafny `char`s; no case folding or
    normalisation happens anywhere in the script, so none is modelled. */
module PyStrings {
  import opened Wrappers

  // ----- str.split with a one-character separator, and sep.join -----

  /** `s.split(c)`: the pieces of `s` between the occurrences of `c`, in order.
      There is always at least one piece, and no piece holds the separator. */
  function Split(s: string, c: char): (r: seq<string>)
    ensures |r| >= 1
    ensures forall k :: 0 <= k < |r| ==> c !in r[k]
  {
    SplitFromPieces(s, c, 0, 0);
    SplitFrom(s, c, 0, 0)
  }

  /** The pieces of `s[start..]`, scanning from position `i`, where the
      current piece began at `start`. */
  function SplitFrom(s: string, c: char, start: nat, i: nat): (r: seq<string>)
    requires start <= i <= |s|
    ensures |r| >= 1
    decreases |s| - i
  {
    if i == |s| then [s[start..]]
    else if s[i] == c then [s[start..i]] + SplitFrom(s, c, i + 1, i + 1)
    else SplitFrom(s, c, start, i + 1)
  }

  /** Concatenation regrouped: a tail built on its own, then appended.
      Only a proof step that guides the solver; it models nothing. */
  lemma Regroup(a: string, b: string, c: string, d: string, e: string)
    ensures a + (b + c + d + e) == a + b + c + d + e
  {
  }

  /** `s.endswith(t)`. */
  predicate EndsWith(s: string, t: string) {
    |t| <= |s| && s[|s| - |t|..] == t
  }

  lemma EndsWithTrans(s: string, t: string, u: string)
    requires EndsWith(s, t) && EndsWith(t, u)
    ensures EndsWith(s, u)
  {
    assert s[|s| - |u|..] == s[|s| - |t|..][|t| - |u|..];
  }

  /** `sep.join(parts)`: it starts with the first part. */
  function Join(parts: seq<string>, sep: string): (r: string)
    ensures |parts| >= 1 ==> parts[0] <= r
    decreases |parts|
  {
    if |parts| == 0 then ""
    else if |parts| == 1 then parts[0]
    else parts[0] + sep + Join(parts[1..], sep)
  }

  /** ... and ends with the last. */
  lemma {:induction false} JoinEndsWithLast(parts: seq<string>, sep: string)
    requires |parts| >= 1
    ensures EndsWith(Join(parts, sep), parts[|parts| - 1])
    decreases |parts|
  {
    if |parts| > 1 {
      var rest := Join(parts[1..], sep);
      JoinEndsWithLast(parts[1..], sep);
      assert parts[1..][|parts| - 2] == parts[|parts| - 1];
      var r := parts[0] + sep + rest;
      assert r[|r| - |rest|..] == rest;
      EndsWithTrans(r, rest, parts[|parts| - 1]);
    }
  }

  /** Joining a first part in front of at least one more. */
  lemma JoinCons(a: string, xs: seq<string>, sep: string)
    requires |xs| >= 1
    ensures Join([a] + xs, sep) == a + sep + Join(xs, sep)
  {
    assert ([a] + xs)[1..] == xs;
  }

  /** A character missing from every part and from the separator is missing from the join. */
  lemma {:induction false} JoinAvoids(parts: seq<string>, sep: string, ch: char)
    requires ch !in sep && forall i :: 0 <= i < |parts| ==> ch !in parts[i]
    ensures ch !in Join(parts, sep)
    decreases |parts|
  {
    if |parts| > 1 {
      JoinAvoids(parts[1..], sep, ch);
    }
  }

  lemma {:induction false} SplitFromNoSeparator(s: string, c: char, start: nat, i: nat)
    requires start <= i <= |s|
    requires forall j :: i <= j < |s| ==> s[j] != c
    ensures SplitFrom(s, c, start, i) == [s[start..]]
    decreases |s| - i
  {
    if i < |s| {
      SplitFromNoSeparator(s, c, start, i + 1);
    }
  }

  lemma {:induction false} SplitFromPieces(s: string, c: char, start: nat, i: nat)
    requires start <= i <= |s|
    requires forall j :: start <= j < i ==> s[j] != c
    ensures forall k :: 0 <= k < |SplitFrom(s, c, start, i)| ==> c !in SplitFrom(s, c, start, i)[k]
    decreases |s| - i
  {
    if i == |s| {
      assert forall j :: 0 <= j < |s[start..]| ==> s[start..][j] == s[start + j];
    } else if s[i] == c {
      SplitFromPieces(s, c, i + 1, i + 1);
      assert forall j :: 0 <= j < |s[start..i]| ==> s[start..i][j] == s[start + j];
    } else {
      SplitFromPieces(s, c, start, i + 1);
    }
  }

  /** A string without the separator splits into itself alone. */
  lemma SplitNoSeparator(s: string, c: char)
    requires c !in s
    ensures Split(s, c) == [s]
  {
    SplitFromNoSeparator(s, c, 0, 0);
    assert s[0..] == s;
  }

  /** Scanning `p + b` past `p` is scanning `b`. */
  lemma {:induction false} SplitFromShift(p: string, b: string, c: char, start: nat, i: nat)
    requires start <= i <= |b|
    ensures SplitFrom(p + b, c, |p| + start, |p| + i) == SplitFrom(b, c, start, i)
    decreases |b| - i
  {
    var s := p + b;
    if i == |b| {
      assert s[|p| + start..] == b[start..];
    } else {
      assert s[|p| + i] == b[i];
      if b[i] == c {
        assert s[|p| + start..|p| + i] == b[start..i];
        SplitFromShift(p, b, c, i + 1, i + 1);
      } else {
        SplitFromShift(p, b, c, start, i + 1);
      }
    }
  }

  /** Scanning `a + [c] + b` inside `a` is scanning `a`, then the rest splits `b`. */
  lemma {:induction false} SplitFromConcat(a: string, b: string, c: char, start: nat, i: nat)
    requires start <= i <= |a|
    ensures SplitFrom(a + [c] + b, c, start, i) == SplitFrom(a, c, start, i) + SplitFrom(b, c, 0, 0)
    decreases |a| - i
  {
    var s := a + [c] + b;
    if i == |a| {
      assert s[i] == c;
      assert s[start..i] == a[start..];
      assert s == (a + [c]) + b;
      SplitFromShift(a + [c], b, c, 0, 0);
    } else {
      assert s[i] == a[i];
      if a[i] == c {
        assert s[start..i] == a[start..i];
        SplitFromConcat(a, b, c, i + 1, i + 1);
      } else {
        SplitFromConcat(a, b, c, start, i + 1);
      }
    }
  }

  /** Splitting at one occurrence of the separator splits the two sides independently. */
  lemma SplitConcat(a: string, b: string, c: char)
    ensures Split(a + [c] + b, c) == Split(a, c) + Split(b, c)
  {
    SplitFromConcat(a, b, c, 0, 0);
  }

  lemma {:induction false} JoinSplitFrom(s: string, c: char, start: nat, i: nat)
    requires start <= i <= |s|
    ensures Join(SplitFrom(s, c, start, i), [c]) == s[start..]
    decreases |s| - i
  {
    if i < |s| {
      if s[i] == c {
        JoinSplitFrom(s, c, i + 1, i + 1);
        assert s[start..] == s[start..i] + [c] + s[i + 1..];
      } else {
        JoinSplitFrom(s, c, start, i + 1);
      }
    }
  }

  /** Joining the pieces of a split with the separator gives back the string. */
  lemma JoinSplit(s: string, c: char)
    ensures Join(Split(s, c), [c]) == s
  {
    JoinSplitFrom(s, c, 0, 0);
    assert s[0..] == s;
  }

  /** Splitting the pieces of a join (none holding the separator) gives back the pieces. */
  lemma {:induction false} SplitJoin(parts: seq<string>, c: char)
    requires |parts| >= 1
    requires forall i :: 0 <= i < |parts| ==> c !in parts[i]
    ensures Split(Join(parts, [c]), c) == parts
    decreases |parts|
  {
    if |parts| == 1 {
      SplitNoSeparator(parts[0], c);
    } else {
      SplitJoin(parts[1..], c);
      SplitConcat(parts[0], Join(parts[1..], [c]), c);
      SplitNoSeparator(parts[0], c);
      assert parts == [parts[0]] + parts[1..];
    }
  }

  /** Dropping the first piece of a split and joining the rest gives what
      followed the first separator. */
  lemma JoinSplitTail(head: string, tail: string, c: char)
    requires c !in head
    ensures Join(Split(head + [c] + tail, c)[1..], [c]) == tail
  {
    SplitConcat(head, tail, c);
    SplitNoSeparator(head, c);
    assert Split(head + [c] + tail, c)[1..] == Split(tail, c);
    JoinSplit(tail, c);
  }

  /** Extending the last part of a join extends the joined string. */
  lemma {:induction false} JoinExtendLast(parts: seq<string>, t: string, sep: string)
    requires |parts| >= 1
    ensures Join(parts[..|parts| - 1] + [parts[|parts| - 1] + t], sep) == Join(parts, sep) + t
    decreases |parts|
  {
    var n := |parts|;
    var ext := parts[..n - 1] + [parts[n - 1] + t];
    if n == 1 {
      assert ext == [parts[0] + t];
    } else {
      var tail := parts[1..];
      JoinExtendLast(tail, t, sep);
      assert ext[1..] == tail[..n - 2] + [tail[n - 2] + t];
      assert ext[0] == parts[0];
      JoinCons(ext[0], ext[1..], sep);
      assert ext == [ext[0]] + ext[1..];
      JoinCons(parts[0], tail, sep);
      assert parts == [parts[0]] + tail;
    }
  }

  // ----- str.startswith, the `in` test and str.replace -----

  /** `s.startswith(p)`. */
  predicate StartsWith(s: string, p: string) {
    p <= s
  }

  /** `pat in s`: `pat` occurs in `s` as a contiguous piece. */
  predicate Occurs(pat: string, s: string)
    decreases |s|
  {
    pat <= s || (|s| > 0 && Occurs(pat, s[1..]))
  }

  /** A piece occurs only in a string at least as long as it. */
  lemma {:induction false} OccursNeedsRoom(pat: string, s: string)
    requires |s| < |pat|
    ensures !Occurs(pat, s)
    decreases |s|
  {
    if |s| > 0 {
      OccursNeedsRoom(pat, s[1..]);
    }
  }

  /** A piece whose first character is missing from `s` can only occur in
      `s + t` inside `t`, so not at all when `t` is shorter than it. */
  lemma {:induction false} OccursOnlyInTail(pat: string, s: string, t: string)
    requires |t| < |pat| && pat[0] !in s
    ensures !Occurs(pat, s + t)
    decreases |s|
  {
    if |s| == 0 {
      assert s + t == t;
      OccursNeedsRoom(pat, t);
    } else {
      assert (s + t)[0] == s[0];
      assert (s + t)[1..] == s[1..] + t;
      OccursOnlyInTail(pat, s[1..], t);
    }
  }

  /** `s.replace(pat, rep)`: every occurrence of `pat`, found from left to right
      without overlap, is replaced by `rep`. The script never replaces an empty
      pattern. */
  function Replace(s: string, pat: string, rep: string): (r: string)
    requires |pat| > 0
    ensures !Occurs(pat, s) ==> r == s
    decreases |s|
  {
    if |s| < |pat| then s
    else if pat <= s then rep + Replace(s[|pat|..], pat, rep)
    else [s[0]] + Replace(s[1..], pat, rep)
  }

  /** Where the pattern does not start, the first character is kept and the
      scan moves on by one; with `ReplaceAtStart` this pins `Replace` down
      step by step, left to right. */
  lemma ReplaceSkipsNonMatch(s: string, pat: string, rep: string)
    requires 0 < |pat| <= |s| && !(pat <= s)
    ensures Replace(s, pat, rep) == [s[0]] + Replace(s[1..], pat, rep)
  {
  }

  /** When the pattern's first character does not occur before it, only the
      final occurrence is replaced. */
  lemma {:induction false} ReplaceAtEnd(s: string, pat: string, rep: string)
    requires |pat| > 0 && pat[0] !in s
    ensures Replace(s + pat, pat, rep) == s + rep
    decreases |s|
  {
    if |s| == 0 {
      assert s + pat == pat;
      assert pat[|pat|..] == [];
    } else {
      assert (s + pat)[0] == s[0];
      assert !(pat <= s + pat);
      assert (s + pat)[1..] == s[1..] + pat;
      ReplaceAtEnd(s[1..], pat, rep);
      assert [s[0]] + (s[1..] + rep) == s + rep;
    }
  }

  /** A piece whose first character is missing from `a` occurs in `a + t`
      only if it occurs in `t`. */
  lemma {:induction false} OccursPastFree(pat: string, a: string, t: string)
    requires |pat| > 0 && pat[0] !in a && !Occurs(pat, t)
    ensures !Occurs(pat, a + t)
    decreases |a|
  {
    if |a| == 0 {
      assert a + t == t;
    } else {
      assert (a + t)[0] == a[0];
      assert (a + t)[1..] == a[1..] + t;
      OccursPastFree(pat, a[1..], t);
    }
  }

  /** Appending `y` creates no occurrence when `y` holds no first character of
      the piece and `y` starts with a character the piece does not hold. */
  lemma {:induction false} OccursAppendFree(pat: string, x: string, y: string)
    requires |pat| > 0 && !Occurs(pat, x) && pat[0] !in y && (|y| > 0 ==> y[0] !in pat)
    ensures !Occurs(pat, x + y)
    decreases |x|
  {
    if |x| == 0 {
      assert x + y == y;
      OccursPastFree(pat, y, []);
      assert y + [] == y;
    } else {
      if |pat| <= |x| {
        assert (x + y)[..|pat|] == x[..|pat|];
      } else if |y| > 0 {
        assert (x + y)[|x|] == y[0] && pat[|x|] in pat;
      }
      assert !(pat <= x + y);
      assert (x + y)[1..] == x[1..] + y;
      OccursAppendFree(pat, x[1..], y);
    }
  }

  /** A prefix holding no first character of the pattern is kept by `replace`. */
  lemma {:induction false} ReplaceKeepsFreePrefix(a: string, t: string, pat: string, rep: string)
    requires |pat| > 0 && pat[0] !in a
    ensures Replace(a + t, pat, rep) == a + Replace(t, pat, rep)
    decreases |a|
  {
    if |a| > 0 {
      assert (a + t)[0] == a[0];
      assert !(pat <= a + t);
      if |a + t| < |pat| {
        assert Replace(t, pat, rep) == t;
      } else {
        assert (a + t)[1..] == a[1..] + t;
        ReplaceKeepsFreePrefix(a[1..], t, pat, rep);
        assert [a[0]] + (a[1..] + Replace(t, pat, rep)) == a + Replace(t, pat, rep);
      }
    } else {
      assert a + t == t;
    }
  }

  /** When a pattern whose first character does not recur in it is absent from
      `s`, `replace` on `s + pat` changes only that final occurrence. */
  lemma {:induction false} ReplaceAtEndIfAbsent(s: string, pat: string, rep: string)
    requires |pat| > 0 && pat[0] !in pat[1..] && !Occurs(pat, s)
    ensures Replace(s + pat, pat, rep) == s + rep
    decreases |s|
  {
    if |s| == 0 {
      assert s + pat == pat;
      assert pat[|pat|..] == [];
    } else {
      if |pat| <= |s| {
        assert (s + pat)[..|pat|] == s[..|pat|];
      } else {
        assert (s + pat)[|s|] == pat[0];
        assert pat[1..][|s| - 1] == pat[|s|];
      }
      assert !(pat <= s + pat);
      assert (s + pat)[1..] == s[1..] + pat;
      ReplaceAtEndIfAbsent(s[1..], pat, rep);
      assert [s[0]] + (s[1..] + rep) == s + rep;
    }
  }

  /** An occurrence at the front is replaced, and the rest is processed alone. */
  lemma ReplaceAtStart(pat: string, t: string, rep: string)
    requires |pat| > 0
    ensures Replace(pat + t, pat, rep) == rep + Replace(t, pat, rep)
  {
    assert (pat + t)[|pat|..] == t;
  }

  // ----- str.rfind -----

  /** `s.rfind(c)`: the last position of `c` in `s`, or -1 when there is none. */
  function RFind(s: string, c: char): (i: int)
    ensures -1 <= i < |s|
    ensures i >= 0 ==> s[i] == c
    ensures forall j :: i < j < |s| ==> s[j] != c
  {
    LastBefore(s, c, |s|)
  }

  /** The last position of `c` among the first `n` characters of `s`, or -1. */
  function LastBefore(s: string, c: char, n: nat): (i: int)
    requires n <= |s|
    ensures -1 <= i < n
    ensures i >= 0 ==> s[i] == c
    ensures forall j :: i < j < n ==> s[j] != c
    decreases n
  {
    if n == 0 then -1
    else if s[n - 1] == c then n - 1
    else LastBefore(s, c, n - 1)
  }

  /** Text appended without `c` does not move the last `c`. */
  lemma RFindAppend(s: string, t: string, c: char)
    requires c !in t
    ensures RFind(s + t, c) == RFind(s, c)
  {
    var u := s + t;
    var i := RFind(u, c);
    var j := RFind(s, c);
    assert forall k :: |s| <= k < |u| ==> u[k] == t[k - |s|];
    assert i < |s|;
    assert forall k :: 0 <= k < |s| ==> u[k] == s[k];
  }

  // ----- int() on a decimal token, and decimal rendering -----

  predicate IsDigit(ch: char) {
    '0' <= ch <= '9'
  }

  /** A non-empty run of ASCII decimal digits. */
  predicate IsDigits(s: string) {
    |s| > 0 && forall i :: 0 <= i < |s| ==> IsDigit(s[i])
  }

  function DigitValue(ch: char): nat
    requires IsDigit(ch)
  {
    (ch as int) - ('0' as int)
  }

  function DigitChar(d: nat): (ch: char)
    requires d < 10
    ensures IsDigit(ch) && DigitValue(ch) == d
  {
    (('0' as int) + d) as char
  }

  /** The number a run of decimal digits denotes, most significant digit first. */
  function DigitsValue(s: string): nat
    requires forall i :: 0 <= i < |s| ==> IsDigit(s[i])
    decreases |s|
  {
    if |s| == 0 then 0 else DigitsValue(s[..|s| - 1]) * 10 + DigitValue(s[|s| - 1])
  }

  /** `int(s)` on a token as the script meets it: an optional `+` or `-` followed
      by decimal digits, leading zeros allowed. None stands for the ValueError. */
  function ParseInt(s: string): (r: Option<int>)
    ensures r.Some? <==> IsDigits(s) || (|s| > 1 && (s[0] == '+' || s[0] == '-') && IsDigits(s[1..]))
    ensures r.Some? && IsDigits(s) ==> r.value == DigitsValue(s)
    ensures r.Some? && |s| > 0 && s[0] == '-' ==> r.value == -(DigitsValue(s[1..]) as int)
    ensures r.Some? && |s| > 0 && s[0] == '+' ==> r.value == DigitsValue(s[1..])
  {
    if IsDigits(s) then Some(DigitsValue(s))
    else if |s| > 1 && s[0] == '-' && IsDigits(s[1..]) then Some(-(DigitsValue(s[1..]) as int))
    else if |s| > 1 && s[0] == '+' && IsDigits(s[1..]) then Some(DigitsValue(s[1..]))
    else None
  }

  /** `str(n)` for a natural number: its shortest decimal rendering. */
  function ShowNat(n: nat): (s: string)
    ensures IsDigits(s)
    ensures DigitsValue(s) == n
    ensures n < 10 ==> |s| == 1
    ensures 10 <= n < 100 ==> |s| == 2
    decreases n
  {
    if n < 10 then [DigitChar(n)]
    else
      var s := ShowNat(n / 10) + [DigitChar(n % 10)];
      assert s[..|s| - 1] == ShowNat(n / 10);
      s
  }

  /** A leading zero does not change the value of a digit run. */
  lemma {:induction false} LeadingZero(s: string)
    requires forall i :: 0 <= i < |s| ==> IsDigit(s[i])
    ensures DigitsValue("0" + s) == DigitsValue(s)
    decreases |s|
  {
    if |s| > 0 {
      var t := "0" + s;
      assert t[..|t| - 1] == "0" + s[..|s| - 1];
      assert t[|t| - 1] == s[|s| - 1];
      LeadingZero(s[..|s| - 1]);
    }
  }

  /** Any number of leading zeros (as in the frame token "0005") leaves the value alone. */
  lemma {:induction false} LeadingZeros(z: string, s: string)
    requires forall i :: 0 <= i < |z| ==> z[i] == '0'
    requires forall i :: 0 <= i < |s| ==> IsDigit(s[i])
    ensures DigitsValue(z + s) == DigitsValue(s)
    decreases |z|
  {
    if |z| > 0 {
      assert z + s == "0" + (z[1..] + s);
      LeadingZero(z[1..] + s);
      LeadingZeros(z[1..], s);
    } else {
      assert z + s == s;
    }
  }

  /** `int()` reads back what `str()` renders, with or without a minus sign. */
  lemma ParseShowNat(n: nat)
    ensures ParseInt(ShowNat(n)) == Some(n)
    ensures ParseInt("-" + ShowNat(n)) == Some(-(n as int))
  {
    var s := ShowNat(n);
    assert ("-" + s)[1..] == s;
  }

  /** Python's `format(n, "02d")` for a natural number: padded with a zero to two digits. */
  function Format02(n: nat): (s: string)
    ensures IsDigits(s)
    ensures ParseInt(s) == Some(n)
    ensures n < 100 ==> |s| == 2
  {
    if n < 10 then
      LeadingZero(ShowNat(n));
      "0" + ShowNat(n)
    else ShowNat(n)
  }
}
