/** The part of `pathlib.PurePosixPath` the download script uses: parsing a
    string, `as_posix`, `name`, `suffix`, `stem`, `parent`, `with_suffix` and
    the `/` operator. Rules follow CPython's pathlib (3.8 to 3.12). */
module PurePath {
  import opened Wrappers
  import opened PyStrings

  /** A parsed POSIX path: whether it is rooted, and its components. */
  datatype Path = Path(absolute: bool, parts: seq<string>)

  /** A component as pathlib keeps one: not empty, not ".", no separator. */
  predicate IsComponent(s: string) {
    s != "" && s != "." && '/' !in s
  }

  predicate WellFormed(p: Path) {
    forall i :: 0 <= i < |p.parts| ==> IsComponent(p.parts[i])
  }

  /** The segments of a split path string that pathlib keeps: it drops empty
      segments (repeated or trailing slashes) and "." segments. */
  function Components(segments: seq<string>): (r: seq<string>)
    requires forall i :: 0 <= i < |segments| ==> '/' !in segments[i]
    ensures forall i :: 0 <= i < |r| ==> IsComponent(r[i])
    ensures (forall i :: 0 <= i < |segments| ==> IsComponent(segments[i])) ==> r == segments
    decreases |segments|
  {
    if |segments| == 0 then []
    else if segments[0] == "" || segments[0] == "." then Components(segments[1..])
    else [segments[0]] + Components(segments[1..])
  }

  lemma {:induction false} ComponentsConcat(xs: seq<string>, ys: seq<string>)
    requires forall i :: 0 <= i < |xs| ==> '/' !in xs[i]
    requires forall i :: 0 <= i < |ys| ==> '/' !in ys[i]
    ensures Components(xs + ys) == Components(xs) + Components(ys)
    decreases |xs|
  {
    if |xs| == 0 {
      assert xs + ys == ys;
    } else {
      assert (xs + ys)[0] == xs[0];
      assert (xs + ys)[1..] == xs[1..] + ys;
      ComponentsConcat(xs[1..], ys);
    }
  }

  /** `PurePosixPath(s)`. */
  function Parse(s: string): (p: Path)
    ensures WellFormed(p)
    ensures p.absolute <==> |s| > 0 && s[0] == '/'
  {
    Path(|s| > 0 && s[0] == '/', Components(Split(s, '/')))
  }

  /** `p.as_posix()`, which is also `str(p)`: never empty, and for a
      well-formed path it starts with `/` exactly when the path is absolute. */
  function AsPosix(p: Path): (r: string)
    ensures WellFormed(p) ==> r != "" && (r[0] == '/' <==> p.absolute)
  {
    if p.absolute then "/" + Join(p.parts, "/")
    else if |p.parts| == 0 then "."
    else Join(p.parts, "/")
  }

  /** Joined components parse back into the relative path they make up. */
  lemma ParseJoined(parts: seq<string>)
    requires |parts| >= 1
    requires forall i :: 0 <= i < |parts| ==> IsComponent(parts[i])
    ensures Parse(Join(parts, "/")) == Path(false, parts)
  {
    var j := Join(parts, "/");
    SplitJoin(parts, '/');
    assert j[0] == parts[0][0];
  }

  /** A leading separator splits off one empty segment. */
  lemma SplitRooted(j: string)
    ensures Split("/" + j, '/') == [""] + Split(j, '/')
  {
    SplitConcat("", j, '/');
    assert "" + ['/'] + j == "/" + j;
    SplitNoSeparator("", '/');
  }

  /** An empty segment contributes no component. */
  lemma ComponentsDropEmpty(xs: seq<string>)
    requires forall i :: 0 <= i < |xs| ==> '/' !in xs[i]
    ensures Components([""] + xs) == Components(xs)
  {
    assert ([""] + xs)[1..] == xs;
  }

  /** A rooted rendering parses back into the absolute path. */
  lemma ParseRooted(parts: seq<string>)
    requires forall i :: 0 <= i < |parts| ==> IsComponent(parts[i])
    ensures Parse("/" + Join(parts, "/")) == Path(true, parts)
  {
    var j := Join(parts, "/");
    SplitRooted(j);
    ComponentsDropEmpty(Split(j, '/'));
    if |parts| == 0 {
      SplitNoSeparator(j, '/');
    } else {
      SplitJoin(parts, '/');
    }
  }

  /** Rendering a well-formed path and parsing it again gives the same path. */
  lemma ParseAsPosix(p: Path)
    requires WellFormed(p)
    ensures Parse(AsPosix(p)) == p
  {
    if p.absolute {
      ParseRooted(p.parts);
    } else if |p.parts| == 0 {
      SplitNoSeparator(".", '/');
    } else {
      ParseJoined(p.parts);
    }
  }

  /** `p.name`: the final component, or "" for a path without components. */
  function Name(p: Path): string {
    if |p.parts| == 0 then "" else p.parts[|p.parts| - 1]
  }

  /** `suffix` of a final component: from its last '.', unless that dot is the
      first or the last character, in which case there is no suffix. */
  function Suffix(name: string): (suf: string)
    ensures |suf| <= |name| && suf == name[|name| - |suf|..]
    ensures suf != "" ==> 2 <= |suf| < |name| && suf[0] == '.' && '.' !in suf[1..]
  {
    var i := RFind(name, '.');
    if 0 < i < |name| - 1 then name[i..] else ""
  }

  /** The suffix is empty exactly when the name has no dot, or its only dot
      is the first character, or its last character is a dot. */
  lemma SuffixEmptyIff(name: string)
    ensures Suffix(name) == "" <==>
      ('.' !in name || (name[0] == '.' && '.' !in name[1..]) || name[|name| - 1] == '.')
  {
  }

  /** `stem` of a final component: the name without its suffix. */
  function Stem(name: string): (stem: string)
    ensures stem + Suffix(name) == name
  {
    name[..|name| - |Suffix(name)|]
  }

  /** A name of the form `stem.ext`, with `ext` free of dots and both sides
      non-empty, has suffix `.ext` and stem `stem`. */
  lemma SuffixOfExtension(stem: string, ext: string)
    requires stem != "" && ext != "" && '.' !in ext
    ensures Suffix(stem + "." + ext) == "." + ext
    ensures Stem(stem + "." + ext) == stem
  {
    var dotted := stem + ".";
    var name := dotted + ext;
    assert dotted[|dotted| - 1] == '.';
    assert RFind(dotted, '.') == |stem|;
    RFindAppend(dotted, ext, '.');
    var i := RFind(name, '.');
    assert i == |stem| && 0 < i < |name| - 1;
    assert name[i..] == "." + ext;
    assert Suffix(name) == name[i..];
  }

  /** A name without a dot has no suffix. */
  lemma SuffixWithoutDot(name: string)
    requires '.' !in name
    ensures Suffix(name) == "" && Stem(name) == name
  {
  }

  /** A component stays one when text without a separator is appended. */
  lemma ComponentExtended(c: string, t: string)
    requires IsComponent(c) && '/' !in t
    ensures IsComponent(c + t)
  {
    assert (c + t)[..|c|] == c;
  }

  /** `p.with_suffix(suf)`. None stands for the ValueError raised when `p` has
      an empty name (the path "." or "/"). */
  function WithSuffix(p: Path, suf: string): (r: Option<Path>)
    ensures r.None? <==> Name(p) == ""
    ensures r.Some? ==> r.value.absolute == p.absolute
    ensures r.Some? ==> Parent(r.value) == Parent(p)
    ensures r.Some? ==> Name(r.value) == Stem(Name(p)) + suf
  {
    if Name(p) == "" then None
    else
      var n := |p.parts|;
      var q := Path(p.absolute, p.parts[..n - 1] + [Stem(Name(p)) + suf]);
      assert q.parts[..n - 1] == p.parts[..n - 1];
      Some(q)
  }

  /** `p.parent`: the path without its final component ("." and "/" are their own parent). */
  function Parent(p: Path): Path {
    if |p.parts| == 0 then p else Path(p.absolute, p.parts[..|p.parts| - 1])
  }

  /** `p / s` for a string operand: the operand is parsed, and an absolute
      operand replaces `p` altogether. */
  function Div(p: Path, s: string): (r: Path)
    ensures WellFormed(p) ==> WellFormed(r)
    ensures (|s| > 0 && s[0] == '/') ==> r == Parse(s)
  {
    var q := Parse(s);
    if q.absolute then q else Path(p.absolute, p.parts + q.parts)
  }

  /** Joining a single component appends it; its parent is the original path. */
  lemma DivComponent(p: Path, c: string)
    requires IsComponent(c)
    ensures Div(p, c) == Path(p.absolute, p.parts + [c])
    ensures Parent(Div(p, c)) == p && Name(Div(p, c)) == c
  {
    SplitNoSeparator(c, '/');
    assert (p.parts + [c])[..|p.parts|] == p.parts;
  }
}
