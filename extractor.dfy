// The extraction-directory rule of `unzip`: extract into `pathOut` itself
// when it already ends with "unzipped", otherwise into `pathOut/unzipped`.
// The test is a plain string suffix test, not a comparison of the last
// path segment, so "out/notunzipped" is used as it stands.

module Extractor {
  import opened NodePath

  const Marker := "unzipped"

  function ExtractionDirectory(pathOut: string): (dir: string)
    ensures EndsWith(dir, Marker)
    ensures dir == pathOut <==> EndsWith(pathOut, Marker)
    ensures !EndsWith(pathOut, Marker) ==> pathOut <= dir && |dir| <= |pathOut| + 1 + |Marker|
    ensures !EndsWith(pathOut, Marker) && pathOut != [] && pathOut[|pathOut| - 1] != '/' ==>
      dir == pathOut + "/" + Marker
    ensures !EndsWith(pathOut, Marker) && (pathOut == [] || pathOut[|pathOut| - 1] == '/') ==>
      dir == pathOut + Marker
  {
    if EndsWith(pathOut, Marker) then pathOut else Join(pathOut, Marker)
  }

  /** The rule applied to its own result changes nothing. */
  lemma ExtractionDirectoryIdempotent(pathOut: string)
    ensures ExtractionDirectory(ExtractionDirectory(pathOut)) == ExtractionDirectory(pathOut)
  {
  }

  /**
    * Any path ending in "unzipped" is used as it is, even when "unzipped" is
    * only the tail of a longer last segment; a trailing separator defeats
    * the test, so "out/unzipped/" gets a nested "unzipped".
    */
  lemma SuffixNotSegment(prefix: string)
    ensures ExtractionDirectory(prefix + "notunzipped") == prefix + "notunzipped"
    ensures ExtractionDirectory(prefix + "unzipped/") == prefix + "unzipped/unzipped"
  {
    var p := prefix + "notunzipped";
    assert p[|p| - |Marker|..] == Marker;
    var q := prefix + "unzipped/";
    assert q[|q| - 1] == '/' != Marker[|Marker| - 1];
    assert q + Marker == prefix + "unzipped/unzipped";
  }
}
