/**
 * Where the removed records are written: the `--removed_file` argument when it
 * is given and non-empty, otherwise `out_file.split(".")[0] + "_removed.json"`.
 */
module OutputPaths {
  import opened Text

  datatype Option<T> = None | Some(value: T)

  const RemovedSuffix: string := "_removed.json"

  /** `stem` is the `.`-free prefix of `outFile` that stops at its first `.` or at its end. */
  ghost predicate IsStem(outFile: string, stem: string) {
    && |stem| <= |outFile| && outFile[..|stem|] == stem
    && '.' !in stem
    && (|stem| < |outFile| ==> outFile[|stem|] == '.')
  }

  /** `path` is a stem of `outFile` followed by `_removed.json`. */
  ghost predicate IsDefaultPathFor(outFile: string, path: string) {
    && |path| >= |RemovedSuffix|
    && path[|path| - |RemovedSuffix|..] == RemovedSuffix
    && IsStem(outFile, path[..|path| - |RemovedSuffix|])
  }

  /** `out_file.split(".")[0]`: the part of `outFile` before its first `.`. */
  function Stem(outFile: string): (stem: string)
    ensures IsStem(outFile, stem)
  {
    SplitFirstPiece(outFile, '.');
    Split(outFile, '.')[0]
  }

  /** The default path: the stem followed by `_removed.json`. */
  function DefaultRemovedFile(outFile: string): (path: string)
    ensures IsDefaultPathFor(outFile, path)
  {
    assert (Stem(outFile) + RemovedSuffix)[..|Stem(outFile)|] == Stem(outFile);
    Stem(outFile) + RemovedSuffix
  }

  /**
   * `args.removed_file if args.removed_file else ...`: Python treats both a
   * missing argument and an empty string as false, so both fall back to the default.
   */
  function ResolveRemovedFile(outFile: string, removedFile: Option<string>): (path: string)
    ensures removedFile.Some? && removedFile.value != "" ==> path == removedFile.value
    ensures removedFile == None || removedFile == Some("") ==> IsDefaultPathFor(outFile, path)
  {
    if removedFile.Some? && removedFile.value != "" then removedFile.value
    else DefaultRemovedFile(outFile)
  }

  /** The stem is the only string with the properties stated for it: a `.`-free prefix ending at the first `.` or at the end. */
  lemma StemIsUnique(outFile: string, stem: string)
    requires IsStem(outFile, stem)
    ensures stem == Stem(outFile)
  {
  }

  /** The default for a name with one extension drops that extension. */
  lemma CleanJson(outFile: string)
    requires outFile == "clean.json"
    ensures ResolveRemovedFile(outFile, None) == "clean_removed.json"
  {
    StemIsUnique(outFile, "clean");
    assert DefaultRemovedFile(outFile) == "clean" + RemovedSuffix;
  }

  /** Only the text before the first `.` survives, so a second extension goes too. */
  lemma FirstDotWins(outFile: string)
    requires outFile == "data.v2.json"
    ensures ResolveRemovedFile(outFile, None) == "data_removed.json"
  {
    StemIsUnique(outFile, "data");
    assert DefaultRemovedFile(outFile) == "data" + RemovedSuffix;
  }

  /** A name without `.` is kept whole, and an empty `--removed_file` counts as not given. */
  lemma NoDotAndEmptyArgument(outFile: string)
    requires outFile == "cleaned"
    ensures ResolveRemovedFile(outFile, Some("")) == "cleaned_removed.json"
  {
    StemIsUnique(outFile, "cleaned");
    assert DefaultRemovedFile(outFile) == "cleaned" + RemovedSuffix;
  }

  /** A leading `.` (also in `./out/clean.json`) leaves an empty stem. */
  lemma LeadingDotGivesEmptyStem(outFile: string)
    requires |outFile| > 0 && outFile[0] == '.'
    ensures ResolveRemovedFile(outFile, None) == RemovedSuffix
  {
  }

  /** A non-empty `--removed_file` is used exactly as given. */
  lemma ExplicitPathWins()
    ensures ResolveRemovedFile("clean.json", Some("refusals.json")) == "refusals.json"
  {
  }
}
