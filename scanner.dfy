// The filter/map of `readDir`: of the entry names a directory listing
// returns, keep those whose lower-cased extension is ".png", in listing
// order, each joined onto the directory.

module Scanner {
  import opened NodePath

  /** `path.extname(file).toLowerCase() === '.png'`. */
  predicate IsPng(file: string) {
    ToLower(Extname(file)) == ".png"
  }

  /** `xs.filter(keep)`: the elements satisfying `keep`, in order. */
  function Filter<T>(keep: T -> bool, xs: seq<T>): (r: seq<T>)
    ensures |r| <= |xs|
    ensures forall x :: x in r ==> x in xs && keep(x)
  {
    if xs == [] then []
    else if keep(xs[0]) then [xs[0]] + Filter(keep, xs[1..])
    else Filter(keep, xs[1..])
  }

  /** `xs.map(f)`. */
  function Map<T, U>(f: T -> U, xs: seq<T>): (r: seq<U>)
    ensures |r| == |xs|
    ensures forall k :: 0 <= k < |xs| ==> r[k] == f(xs[k])
  {
    if xs == [] then [] else [f(xs[0])] + Map(f, xs[1..])
  }

  /** `files.filter(file => IsPng(file)).map(file => path.join(dir, file))`. */
  function PngFiles(dir: string, files: seq<string>): (r: seq<string>)
    ensures |r| <= |files|
  {
    Map(file => Join(dir, file), Filter(IsPng, files))
  }

  /** Lower-casing gives ".png" exactly for the eight case variants of ".png". */
  lemma LowerIsPng(e: string)
    ensures ToLower(e) == ".png" <==>
      |e| == 4 && e[0] == '.' && e[1] in "pP" && e[2] in "nN" && e[3] in "gG"
  {
    if |e| == 4 {
      assert ToLower(e) == [LowerChar(e[0]), LowerChar(e[1]), LowerChar(e[2]), LowerChar(e[3])];
    }
  }

  /** Whether a file is kept depends on its extension alone, in any mix of cases. */
  lemma IsPngCases(file: string)
    ensures var e := Extname(file);
      IsPng(file) <==>
        |e| == 4 && e[0] == '.' && e[1] in "pP" && e[2] in "nN" && e[3] in "gG"
  {
    LowerIsPng(Extname(file));
  }

  /**
    * `idx` picks out the elements of `xs` that make up `r`: strictly
    * increasing positions of elements satisfying `keep`, and every such
    * position picked.
    */
  ghost predicate Selection<T>(keep: T -> bool, xs: seq<T>, r: seq<T>, idx: seq<nat>) {
    Picks(keep, xs, r, idx) && Increasing(idx) && Covers(keep, xs, idx)
  }

  /** `r` lists the elements of `xs` at positions `idx`, each satisfying `keep`. */
  ghost predicate Picks<T>(keep: T -> bool, xs: seq<T>, r: seq<T>, idx: seq<nat>) {
    |idx| == |r| &&
    forall k :: 0 <= k < |idx| ==> idx[k] < |xs| && keep(xs[idx[k]]) && r[k] == xs[idx[k]]
  }

  ghost predicate Increasing(idx: seq<nat>) {
    forall k, l :: 0 <= k < l < |idx| ==> idx[k] < idx[l]
  }

  /** Every position of `xs` whose element satisfies `keep` is in `idx`. */
  ghost predicate Covers<T>(keep: T -> bool, xs: seq<T>, idx: seq<nat>) {
    forall j :: 0 <= j < |xs| && keep(xs[j]) ==> j in idx
  }

  /** Positions one further on: positions in `xs[1..]` as positions in `xs`. */
  function Shift(idx: seq<nat>): (r: seq<nat>)
    ensures |r| == |idx| && forall k :: 0 <= k < |idx| ==> r[k] == idx[k] + 1
  {
    seq(|idx|, k requires 0 <= k < |idx| => idx[k] + 1)
  }

  lemma PicksShift<T>(keep: T -> bool, xs: seq<T>, r: seq<T>, tail: seq<nat>)
    requires xs != [] && Picks(keep, xs[1..], r, tail)
    ensures Picks(keep, xs, r, Shift(tail))
    ensures keep(xs[0]) ==> Picks(keep, xs, [xs[0]] + r, [0] + Shift(tail))
  {
    var shifted := Shift(tail);
    forall k | 0 <= k < |shifted|
      ensures shifted[k] < |xs| && keep(xs[shifted[k]]) && r[k] == xs[shifted[k]]
    {
      assert xs[shifted[k]] == xs[1..][tail[k]];
    }
    if keep(xs[0]) {
      var idx := [0] + shifted;
      var r' := [xs[0]] + r;
      forall k | 0 <= k < |idx|
        ensures idx[k] < |xs| && keep(xs[idx[k]]) && r'[k] == xs[idx[k]]
      {
        if k > 0 {
          assert idx[k] == shifted[k - 1] && r'[k] == r[k - 1];
        }
      }
    }
  }

  lemma IncreasingShift(tail: seq<nat>)
    requires Increasing(tail)
    ensures Increasing(Shift(tail)) && Increasing([0] + Shift(tail))
  {
    var shifted := Shift(tail);
    var idx := [0] + shifted;
    forall k, l | 0 <= k < l < |idx|
      ensures idx[k] < idx[l]
    {
      assert idx[l] == shifted[l - 1];
      if k > 0 {
        assert idx[k] == shifted[k - 1];
      }
    }
  }

  lemma CoversShift<T>(keep: T -> bool, xs: seq<T>, tail: seq<nat>)
    requires xs != [] && Covers(keep, xs[1..], tail)
    ensures !keep(xs[0]) ==> Covers(keep, xs, Shift(tail))
    ensures Covers(keep, xs, [0] + Shift(tail))
  {
    var shifted := Shift(tail);
    forall j | 0 < j < |xs| && keep(xs[j])
      ensures j in shifted
    {
      assert xs[1..][j - 1] == xs[j];
      var k :| 0 <= k < |tail| && tail[k] == j - 1;
      assert shifted[k] == j;
    }
    var idx := [0] + shifted;
    forall j | 0 <= j < |xs| && keep(xs[j])
      ensures j in idx
    {
      if j > 0 {
        var k :| 0 <= k < |shifted| && shifted[k] == j;
        assert idx[k + 1] == j;
      }
    }
  }

  /** Filter keeps exactly the elements satisfying `keep`, in their original order. */
  lemma {:induction false} FilterSelects<T>(keep: T -> bool, xs: seq<T>) returns (idx: seq<nat>)
    ensures Selection(keep, xs, Filter(keep, xs), idx)
  {
    if xs == [] {
      idx := [];
    } else {
      var tail := FilterSelects(keep, xs[1..]);
      var rest := Filter(keep, xs[1..]);
      PicksShift(keep, xs, rest, tail);
      IncreasingShift(tail);
      CoversShift(keep, xs, tail);
      if keep(xs[0]) {
        idx := [0] + Shift(tail);
        assert Filter(keep, xs) == [xs[0]] + rest;
      } else {
        idx := Shift(tail);
        assert Filter(keep, xs) == rest;
      }
    }
  }

  /**
    * The result of `readDir` is exactly the png entries of the listing, in
    * listing order, each joined onto `dir`: `idx` gives their positions.
    */
  lemma PngFilesSelects(dir: string, files: seq<string>) returns (idx: seq<nat>)
    ensures var r := PngFiles(dir, files);
      |idx| == |r| && Increasing(idx) && Covers(IsPng, files, idx) &&
      forall k :: 0 <= k < |idx| ==> idx[k] < |files| && IsPng(files[idx[k]]) && r[k] == Join(dir, files[idx[k]])
  {
    var kept := Filter(IsPng, files);
    var r := PngFiles(dir, files);
    idx := FilterSelects(IsPng, files);
    assert |idx| == |r| && Increasing(idx) && Covers(IsPng, files, idx);
    forall k | 0 <= k < |idx|
      ensures idx[k] < |files| && IsPng(files[idx[k]]) && r[k] == Join(dir, files[idx[k]])
    {
      assert kept[k] == files[idx[k]];
    }
  }

  /** Every path in the result is a png entry of the listing joined onto `dir`. */
  lemma PngFilesOnlyPng(dir: string, files: seq<string>, p: string)
    requires p in PngFiles(dir, files)
    ensures exists f :: f in files && IsPng(f) && p == Join(dir, f)
  {
    var kept := Filter(IsPng, files);
    var k :| 0 <= k < |kept| && PngFiles(dir, files)[k] == p;
    assert kept[k] in kept;
  }

  /** Every name of the listing that is a png is in the result, under its joined path. */
  lemma PngFilesKeeps(dir: string, files: seq<string>, f: string)
    requires f in files && IsPng(f)
    ensures Join(dir, f) in PngFiles(dir, files)
  {
    var idx := PngFilesSelects(dir, files);
    var j :| 0 <= j < |files| && files[j] == f;
    var k :| 0 <= k < |idx| && idx[k] == j;
  }

  /** A png entry joined onto a directory is a png path whose basename is the entry. */
  lemma JoinedPngIsPng(dir: string, f: string)
    requires '/' !in f && IsPng(f)
    ensures IsPng(Join(dir, f)) && Basename(Join(dir, f)) == f
  {
    if f == [] {
      NoExtname(f);
    }
    ExtnameOfJoin(dir, f);
    BasenameOfJoin(dir, f);
  }

  /**
    * Directory entries are single segments, so every path in the result
    * itself has a png extension, and its basename is an entry of the listing.
    */
  lemma PngFilesArePng(dir: string, files: seq<string>)
    requires forall f :: f in files ==> '/' !in f
    ensures forall p :: p in PngFiles(dir, files) ==> IsPng(p) && Basename(p) in files
  {
    forall p | p in PngFiles(dir, files)
      ensures IsPng(p) && Basename(p) in files
    {
      PngFilesOnlyPng(dir, files, p);
      var f :| f in files && IsPng(f) && p == Join(dir, f);
      JoinedPngIsPng(dir, f);
    }
  }

  /** An entry name's extension is what follows its last '.', so that alone decides whether it is kept. */
  lemma IsPngByExtension(stem: string, ext: string)
    requires stem != [] && '/' !in stem + ext
    requires |ext| >= 2 && ext[0] == '.' && '.' !in ext[1..]
    ensures Extname(stem + ext) == ext
    ensures IsPng(stem + ext) <==> ToLower(ext) == ".png"
  {
    var name := stem + ext;
    assert name[|stem|] == '.';
    assert name[|stem| + 1..] == ext[1..];
    ExtnameOfName(name, |stem|);
    assert name[|stem|..] == ext;
  }

  /** ".png", ".PNG" and ".Png" are all kept, whatever stem precedes them. */
  lemma PngInAnyCase(stem: string)
    requires stem != [] && '/' !in stem
    ensures IsPng(stem + ".png") && IsPng(stem + ".PNG") && IsPng(stem + ".Png")
  {
    IsPngByExtension(stem, ".png");
    IsPngByExtension(stem, ".PNG");
    IsPngByExtension(stem, ".Png");
    LowerIsPng(".png");
    LowerIsPng(".PNG");
    LowerIsPng(".Png");
  }

  /**
    * Other extensions are dropped, and so are near misses; the stem may itself
    * end in ".png", as in "a.png.txt".
    */
  lemma OtherExtensionDropped(stem: string, ext: string)
    requires stem != [] && '/' !in stem
    requires ext == ".jpg" || ext == ".txt" || ext == ".pn" || ext == ".pngx"
    ensures !IsPng(stem + ext)
  {
    IsPngByExtension(stem, ext);
    LowerIsPng(ext);
  }

  /**
    * A name whose only '.' is its first character, such as ".png" itself,
    * has no extension and is dropped, as is a name with no '.' at all.
    */
  lemma NoExtensionDropped(name: string)
    requires '/' !in name
    requires forall j :: 0 < j < |name| ==> name[j] != '.'
    ensures !IsPng(name)
  {
    NoExtname(name);
  }
}
