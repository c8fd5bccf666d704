/** Two helpers of the desktop automation script: choosing a file name that does not
    overwrite an existing output, and resolving a possibly negative list index. The file system
    is the set of paths that exist; the configuration's overwrite flag and output directory are
    parameters. */
module DemoAutomation {
  import opened Wrappers
  import opened Numerals

  /** The highest suffix tried before giving up. */
  const MaxCounter := 100

  /** The Windows path separators. */
  predicate IsSeparator(c: char) {
    c == '\\' || c == '/'
  }

  /** `os.path.join(dir, name)` for a non-empty directory and a relative name: a backslash
      goes between them unless the directory already ends with a separator. A directory that
      is a bare drive such as `C:` is not covered (Windows joins it without a separator). */
  function Join(dir: string, name: string): (p: string)
    requires dir != []
    ensures IsSeparator(dir[|dir| - 1]) ==> p == dir + name
    ensures !IsSeparator(dir[|dir| - 1]) ==> p == dir + "\\" + name
  {
    if IsSeparator(dir[|dir| - 1]) then dir + name else dir + "\\" + name
  }

  /** The path checked on disk for a save name: the name with the extension, inside the
      output directory when one is configured. */
  function DiskPath(outputDir: string, name: string, ext: string): string {
    if outputDir != [] then Join(outputDir, name + ext) else name + ext
  }

  /** The `counter`-th alternative name, `base_counter`. */
  function Candidate(base: string, counter: nat): string {
    base + "_" + NatToString(counter)
  }

  /** The checked path is the name with its extension, placed inside the output directory
      when one is configured. */
  lemma DiskPathShape(outputDir: string, name: string, ext: string)
    ensures var p := DiskPath(outputDir, name, ext);
      && |p| >= |name + ext| && p[|p| - |name + ext|..] == name + ext
      && (outputDir == [] ==> p == name + ext)
      && |p| >= |outputDir| && p[..|outputDir|] == outputDir
  {
  }

  /** An alternative name is the base, an underscore, and a numeral that `int()` reads back
      as the counter. */
  lemma CandidateShape(base: string, counter: nat)
    ensures var r := Candidate(base, counter);
      && |r| > |base| + 1 && r[..|base| + 1] == base + "_"
      && ParseInt(r[|base| + 1..]) == Some(counter)
  {
    assert Candidate(base, counter)[|base| + 1..] == NatToString(counter);
    ParseIntOfNatToString(counter);
  }

  /** Different names are checked at different paths. */
  lemma DiskPathInjective(outputDir: string, n1: string, n2: string, ext: string)
    requires DiskPath(outputDir, n1, ext) == DiskPath(outputDir, n2, ext)
    ensures n1 == n2
  {
    var p1, p2 := DiskPath(outputDir, n1, ext), DiskPath(outputDir, n2, ext);
    var lead := if outputDir == [] then 0 else if IsSeparator(outputDir[|outputDir| - 1]) then |outputDir| else |outputDir| + 1;
    assert p1[lead..] == n1 + ext;
    assert p2[lead..] == n2 + ext;
    assert n1 == (n1 + ext)[..|n1|];
    assert n2 == (n2 + ext)[..|n2|];
  }

  /** Different counters give different names. */
  lemma CandidateInjective(base: string, k1: nat, k2: nat)
    requires Candidate(base, k1) == Candidate(base, k2)
    ensures k1 == k2
  {
    var s1, s2 := NatToString(k1), NatToString(k2);
    assert Candidate(base, k1)[|base| + 1..] == s1;
    assert Candidate(base, k2)[|base| + 1..] == s2;
  }

  /** `get_safe_filename`: the base name when overwriting is allowed or its path is free;
      otherwise the first of `base_1` … `base_100` whose path is free, and the base name
      again when all hundred are taken. */
  method SafeFilename(base: string, ext: string, overwrite: bool, outputDir: string, existing: set<string>)
    returns (name: string)
    ensures overwrite ==> name == base
    ensures !overwrite && DiskPath(outputDir, base, ext) !in existing ==> name == base
    ensures !overwrite && DiskPath(outputDir, base, ext) in existing ==>
      || (exists k :: 1 <= k <= MaxCounter && name == Candidate(base, k)
            && DiskPath(outputDir, name, ext) !in existing
            && forall m :: 1 <= m < k ==> DiskPath(outputDir, Candidate(base, m), ext) in existing)
      || (name == base && forall m :: 1 <= m <= MaxCounter ==> DiskPath(outputDir, Candidate(base, m), ext) in existing)
  {
    if overwrite {
      return base;
    }
    var diskName := DiskPath(outputDir, base, ext);
    if diskName !in existing {
      return base;
    }
    var counter := 1;
    while true
      invariant 1 <= counter <= MaxCounter
      invariant forall m :: 1 <= m < counter ==> DiskPath(outputDir, Candidate(base, m), ext) in existing
      decreases MaxCounter - counter
    {
      var newBase := base + "_" + NatToString(counter);
      var newDisk := DiskPath(outputDir, newBase, ext);
      if newDisk !in existing {
        assert newBase == Candidate(base, counter);
        return newBase;
      }
      counter := counter + 1;
      if counter > MaxCounter {
        return base;
      }
    }
  }

  /** The list position `select_pcs_item` picks: a non-negative index counts from the front,
      a negative one from the back; an empty list or an index outside it selects nothing. */
  function ResolveIndex(index: int, count: nat): (r: Option<nat>)
    ensures r.Some? <==> count > 0 && -(count as int) <= index < count
    ensures r.Some? ==> r.value < count
    ensures r.Some? && index >= 0 ==> r.value == index
    ensures r.Some? && index < 0 ==> r.value == count + index
  {
    if count == 0 then None
    else
      var target := if index >= 0 then index else count + index;
      if target < 0 || target >= count then None else Some(target)
  }

  /** An index and the same position counted from the back select the same item. */
  lemma FrontAndBackAgree(position: nat, count: nat)
    requires position < count
    ensures ResolveIndex(position, count) == Some(position)
    ensures ResolveIndex(position as int - count as int, count) == Some(position)
  {
  }
}
