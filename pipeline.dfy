// The one file-name rule of the driver: each png found is written to the
// output directory under its own basename prefixed with "gray_".

module Pipeline {
  import opened NodePath
  import opened Scanner

  const GrayPrefix := "gray_"

  /** A prefix before an entry name that has an extension leaves that extension alone. */
  lemma ExtnameOfPrefixed(prefix: string, name: string)
    requires '/' !in prefix + name && Extname(name) != ""
    ensures Extname(prefix + name) == Extname(name)
  {
    BasenameOfName(name);
    var d := LastIndexOf(name, '.');
    var full := prefix + name;
    assert full[|prefix| + d] == '.';
    assert full[|prefix| + d + 1..] == name[d + 1..];
    assert full[|prefix| + d..] == name[d..];
    ExtnameOfName(full, |prefix| + d);
  }

  /** `path.join(pathProcessed, "gray_" + path.basename(pngFile))`. */
  function OutputPath(pathProcessed: string, pngFile: string): string {
    Join(pathProcessed, GrayPrefix + Basename(pngFile))
  }

  /** The output file is named by the input's basename with "gray_" in front. */
  lemma OutputPathNamed(pathProcessed: string, pngFile: string)
    ensures Basename(OutputPath(pathProcessed, pngFile)) == GrayPrefix + Basename(pngFile)
  {
    var name := GrayPrefix + Basename(pngFile);
    assert '/' !in name;
    BasenameOfJoin(pathProcessed, name);
  }

  /** The output of a png file is itself a png file. */
  lemma OutputPathKeepsPng(pathProcessed: string, pngFile: string)
    requires IsPng(pngFile)
    ensures IsPng(OutputPath(pathProcessed, pngFile))
  {
    var b := Basename(pngFile);
    var name := GrayPrefix + b;
    assert '/' !in name;
    BasenameOfName(b);
    assert Extname(b) == Extname(pngFile);
    ExtnameOfPrefixed(GrayPrefix, b);
    ExtnameOfJoin(pathProcessed, name);
  }

  /** Two png files get the same output path only when they have the same basename. */
  lemma OutputPathsDistinct(pathProcessed: string, a: string, b: string)
    requires Basename(a) != Basename(b)
    ensures OutputPath(pathProcessed, a) != OutputPath(pathProcessed, b)
  {
    var oa, ob := OutputPath(pathProcessed, a), OutputPath(pathProcessed, b);
    OutputPathNamed(pathProcessed, a);
    OutputPathNamed(pathProcessed, b);
    assert Basename(oa)[|GrayPrefix|..] == Basename(a);
    assert Basename(ob)[|GrayPrefix|..] == Basename(b);
  }
}
