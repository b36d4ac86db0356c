/** The two naming rules of the download steps: where `extract` unpacks an
    archive, and how the parts of a SynthMoCap dataset are named. */
module Download {
  import opened Wrappers
  import opened PyStrings
  import opened PurePath

  /** Number of zip parts a SynthMoCap dataset is split into. */
  const N_PARTS: nat := 15

  const ZIP := ".zip"
  const BZ2 := ".bz2"
  const TAR_BZ2 := ".tar.bz2"

  /** The directory `extract(dataPath, outPath)` unpacks into. A given output
      path is used as it is; otherwise a `.zip` goes beside itself into a
      directory named by its stem, and a `.bz2` into one named by its file
      name with `.tar.bz2` removed. Any other suffix is a ValueError carrying
      that suffix, raised whether or not an output path was given. */
  function ExtractTarget(dataPath: Path, outPath: Option<Path>): (r: Result<Path, string>)
    ensures r.Err? <==> Suffix(Name(dataPath)) != ZIP && Suffix(Name(dataPath)) != BZ2
    ensures r.Err? ==> r.error == Suffix(Name(dataPath))
    ensures r.Ok? && outPath.Some? ==> r.value == outPath.value
  {
    var name := Name(dataPath);
    var suffix := Suffix(name);
    if suffix == ZIP then
      Ok(if outPath.Some? then outPath.value else Div(Parent(dataPath), Stem(name)))
    else if suffix == BZ2 then
      Ok(if outPath.Some? then outPath.value else Div(Parent(dataPath), Replace(name, TAR_BZ2, "")))
    else
      Err(suffix)
  }

  /** Without an output path, an archive named by one component of `dir`
      unpacks into `dir` joined with the name the suffix rule derives. */
  lemma ExtractBeside(dir: Path, name: string)
    requires IsComponent(name)
    ensures ExtractTarget(Div(dir, name), None)
         == if Suffix(name) == ZIP then Ok(Div(dir, Stem(name)))
            else if Suffix(name) == BZ2 then Ok(Div(dir, Replace(name, TAR_BZ2, "")))
            else Err(Suffix(name))
  {
    DivComponent(dir, name);
  }

  /** The `.zip` case of `ExtractBeside`. */
  lemma ExtractBesideZip(dir: Path, name: string, stem: string)
    requires IsComponent(name) && Suffix(name) == ZIP && Stem(name) == stem
    ensures ExtractTarget(Div(dir, name), None) == Ok(Div(dir, stem))
  {
    ExtractBeside(dir, name);
  }

  /** The `.bz2` case of `ExtractBeside`. */
  lemma ExtractBesideBz2(dir: Path, name: string, base: string)
    requires IsComponent(name) && Suffix(name) == BZ2 && Replace(name, TAR_BZ2, "") == base
    ensures ExtractTarget(Div(dir, name), None) == Ok(Div(dir, base))
  {
    ExtractBeside(dir, name);
  }

  /** `dir/stem.zip` unpacks into `dir/stem`. */
  lemma ZipExtractsBesideArchive(dir: Path, stem: string)
    requires IsComponent(stem)
    ensures ExtractTarget(Div(dir, stem + ZIP), None) == Ok(Div(dir, stem))
  {
    assert "." + "zip" == ZIP && '.' !in "zip";
    var name := stem + ZIP;
    assert Suffix(name) == ZIP && Stem(name) == stem by {
      assert name == stem + "." + "zip";
      SuffixOfExtension(stem, "zip");
    }
    ExtractBesideZip(dir, name, stem);
  }

  /** `base.tar.bz2` has suffix `.bz2`. */
  lemma TarBz2Suffix(base: string)
    requires base != "" && '.' !in base
    ensures Suffix(base + TAR_BZ2) == BZ2
  {
    assert "." + "bz2" == BZ2 && ".tar" + BZ2 == TAR_BZ2 && '.' !in "bz2";
    var front := base + ".tar";
    assert base + TAR_BZ2 == front + "." + "bz2";
    SuffixOfExtension(front, "bz2");
  }

  /** Removing `.tar.bz2` from `base.tar.bz2` leaves `base`. */
  lemma TarBz2Strip(base: string)
    requires '.' !in base
    ensures Replace(base + TAR_BZ2, TAR_BZ2, "") == base
  {
    assert TAR_BZ2[0] == '.';
    ReplaceAtEnd(base, TAR_BZ2, "");
    assert base + "" == base;
  }

  /** `dir/base.tar.bz2` unpacks into `dir/base` when `base` has no dot. */
  lemma TarBz2ExtractsBesideArchive(dir: Path, base: string)
    requires IsComponent(base) && '.' !in base
    ensures ExtractTarget(Div(dir, base + TAR_BZ2), None) == Ok(Div(dir, base))
  {
    assert '/' !in TAR_BZ2;
    ComponentExtended(base, TAR_BZ2);
    TarBz2Suffix(base);
    TarBz2Strip(base);
    ExtractBesideBz2(dir, base + TAR_BZ2, base);
  }

  /** A bare `dir/base.bz2` (no `.tar`) keeps its name: the target directory
      is the archive's own path. */
  lemma BareBz2TargetsItself(dir: Path, base: string)
    requires IsComponent(base) && '.' !in base
    ensures ExtractTarget(Div(dir, base + BZ2), None) == Ok(Div(dir, base + BZ2))
  {
    assert '/' !in BZ2 && "." + "bz2" == BZ2 && '.' !in "bz2";
    var name := base + BZ2;
    ComponentExtended(base, BZ2);
    assert Suffix(name) == BZ2 by {
      assert name == base + "." + "bz2";
      SuffixOfExtension(base, "bz2");
    }
    assert Replace(name, TAR_BZ2, "") == name by {
      OccursOnlyInTail(TAR_BZ2, base, BZ2);
    }
    ExtractBesideBz2(dir, name, name);
  }

  /** Any other suffix is refused, even when an output path is given. */
  lemma OtherSuffixRefused(dir: Path, stem: string, ext: string, outPath: Option<Path>)
    requires stem != "" && '/' !in stem && ext != "" && '.' !in ext && '/' !in ext
    requires ext != "zip" && ext != "bz2"
    ensures ExtractTarget(Div(dir, stem + "." + ext), outPath) == Err("." + ext)
  {
    var name := stem + "." + ext;
    assert IsComponent(name) by {
      assert name[|stem|] == '.' && |name| > 1;
    }
    SuffixOfExtension(stem, ext);
    DivComponent(dir, name);
    assert ("." + ext)[1..] == ext;
  }

  // ----- part files -----

  /** `f"{dataset}_{part:02d}.zip"`. */
  function PartFileName(dataset: string, part: nat): string {
    dataset + "_" + Format02(part) + ZIP
  }

  /** The part files of a dataset, parts 1 to 15 in order. */
  function PartFileNames(dataset: string): (names: seq<string>)
    ensures |names| == N_PARTS
    ensures forall k :: 0 <= k < N_PARTS ==> names[k] == PartFileName(dataset, k + 1)
  {
    seq(N_PARTS, (k: nat) => PartFileName(dataset, k + 1))
  }

  /** A part file is a `.zip` whose stem ends in `_NN`, and the last `_` token
      of that stem reads back as the part number, in exactly two digits. */
  lemma PartNumberRoundTrip(dataset: string, part: nat)
    requires part < 100
    ensures var name := PartFileName(dataset, part);
      && Suffix(name) == ZIP
      && Stem(name) == dataset + "_" + Format02(part)
      && var tokens := Split(Stem(name), '_');
         |tokens[|tokens| - 1]| == 2 && ParseInt(tokens[|tokens| - 1]) == Some(part)
  {
    assert "." + "zip" == ZIP && '.' !in "zip";
    var digits := Format02(part);
    var stem := dataset + "_" + digits;
    assert PartFileName(dataset, part) == stem + "." + "zip";
    SuffixOfExtension(stem, "zip");
    assert '_' !in digits by {
      assert forall i :: 0 <= i < |digits| ==> IsDigit(digits[i]);
    }
    assert stem == dataset + ['_'] + digits;
    SplitConcat(dataset, digits, '_');
    SplitNoSeparator(digits, '_');
  }

  /** Distinct parts get distinct file names, so no download overwrites another. */
  lemma PartNamesDistinct(dataset: string, p: nat, q: nat)
    requires p < 100 && q < 100 && p != q
    ensures PartFileName(dataset, p) != PartFileName(dataset, q)
  {
    var n := |dataset| + 1;
    assert PartFileName(dataset, p)[n..n + 2] == Format02(p);
    assert PartFileName(dataset, q)[n..n + 2] == Format02(q);
  }

  /** The fifteen part names of a dataset are pairwise distinct. */
  lemma PartFileNamesDistinct(dataset: string)
    ensures var names := PartFileNames(dataset);
      forall i, j :: 0 <= i < j < |names| ==> names[i] != names[j]
  {
    var names := PartFileNames(dataset);
    forall i, j | 0 <= i < j < |names|
      ensures names[i] != names[j]
    {
      PartNamesDistinct(dataset, i + 1, j + 1);
    }
  }

  /** Every part unpacks into the one given dataset directory. */
  lemma PartExtractsIntoGivenDir(zipDir: Path, dataset: string, part: nat, out: Path)
    requires IsComponent(dataset) && part < 100
    ensures ExtractTarget(Div(zipDir, PartFileName(dataset, part)), Some(out)) == Ok(out)
  {
    var name := PartFileName(dataset, part);
    PartNumberRoundTrip(dataset, part);
    assert IsComponent(name) by {
      assert '/' !in Format02(part) by {
        assert forall i :: 0 <= i < |Format02(part)| ==> IsDigit(Format02(part)[i]);
      }
    }
    DivComponent(zipDir, name);
  }
}
