/** Collision-free destination names. A name `{base}{ext}` is tried first; while
    the candidate exists, `{base}_1{ext}`, `{base}_2{ext}`, ... are tried in turn.
    The file system is the finite set of paths that exist when the probe runs. */
module OutputNaming {
  import opened PathText

  /** The `i`-th candidate in `dir`: the plain name for `i == 0`, the name
      numbered `_i` otherwise. Every candidate ends in `ext`. */
  function Candidate(dir: string, base: string, ext: string, i: nat): string {
    Join(dir, if i == 0 then base + ext else base + "_" + DecimalString(i) + ext)
  }

  /** Every candidate ends in `ext`. */
  lemma CandidateKeepsExtension(dir: string, base: string, ext: string, i: nat)
    ensures var c := Candidate(dir, base, ext, i); |c| >= |ext| && c[|c| - |ext|..] == ext
  {
    var name := if i == 0 then base + ext else base + "_" + DecimalString(i) + ext;
    JoinEndsWith(dir, name);
    assert name[|name| - |ext|..] == ext;
  }

  /** `k` is the first probe index whose candidate does not exist. */
  ghost predicate FirstFreeAt(existing: set<string>, dir: string, base: string, ext: string, k: nat) {
    && Candidate(dir, base, ext, k) !in existing
    && forall j :: 0 <= j < k ==> Candidate(dir, base, ext, j) in existing
  }

  /** Numbered candidates for different numbers are different paths. */
  lemma NumberedCandidatesDistinct(dir: string, base: string, ext: string, i: nat, j: nat)
    requires 1 <= i && 1 <= j && i != j
    ensures Candidate(dir, base, ext, i) != Candidate(dir, base, ext, j)
  {
    var di, dj := DecimalString(i), DecimalString(j);
    var ni, nj := base + "_" + di + ext, base + "_" + dj + ext;
    if Candidate(dir, base, ext, i) == Candidate(dir, base, ext, j) {
      assert ni[0] == nj[0];
      JoinInjective(dir, ni, nj);
      assert |di| == |dj|;
      assert ni[|base| + 1..|base| + 1 + |di|] == di;
      assert nj[|base| + 1..|base| + 1 + |dj|] == dj;
      DecimalStringInjective(i, j);
    }
  }

  /** Distinct numbers give distinct names. */
  ghost predicate NumberedInjective(f: nat -> string) {
    forall i, j :: 1 <= i < j ==> f(i) != f(j)
  }

  /** Pigeonhole: `n` distinct names `f(1)` .. `f(n)` that all lie in `s` need
      at least `n` elements of `s`. */
  lemma {:induction false} InjectiveCoverBound(f: nat -> string, s: set<string>, n: nat)
    requires NumberedInjective(f)
    requires forall j :: 1 <= j <= n ==> f(j) in s
    ensures n <= |s|
  {
    if n > 0 {
      var rest := s - {f(n)};
      forall j | 1 <= j <= n - 1 ensures f(j) in rest {
        assert f(j) != f(n);
      }
      InjectiveCoverBound(f, rest, n - 1);
    }
  }

  /** If `_1` .. `_n` all exist, there are at least `n` existing files. */
  lemma CoveredPrefixBound(existing: set<string>, dir: string, base: string, ext: string, n: nat)
    requires forall j :: 1 <= j <= n ==> Candidate(dir, base, ext, j) in existing
    ensures n <= |existing|
  {
    var f: nat -> string := (i: nat) => Candidate(dir, base, ext, i);
    forall i, j | 1 <= i < j ensures f(i) != f(j) {
      NumberedCandidatesDistinct(dir, base, ext, i, j);
    }
    InjectiveCoverBound(f, existing, n);
  }

  /** A finite set of existing files cannot cover all numbered candidates:
      one of `_1` .. `_{|existing| + 1}` is free. */
  lemma SomeNumberedCandidateFree(existing: set<string>, dir: string, base: string, ext: string)
    ensures exists j :: 1 <= j <= |existing| + 1 && Candidate(dir, base, ext, j) !in existing
  {
    if forall j :: 1 <= j <= |existing| + 1 ==> Candidate(dir, base, ext, j) in existing {
      CoveredPrefixBound(existing, dir, base, ext, |existing| + 1);
    }
  }

  /** The first free index is at most one past the number of existing files. */
  lemma FirstFreeBound(existing: set<string>, dir: string, base: string, ext: string, k: nat)
    requires FirstFreeAt(existing, dir, base, ext, k)
    ensures k <= |existing| + 1
  {
    if k > 0 {
      CoveredPrefixBound(existing, dir, base, ext, k - 1);
    }
  }

  /** The first free index is determined by the existing files alone. */
  lemma FirstFreeUnique(existing: set<string>, dir: string, base: string, ext: string, k1: nat, k2: nat)
    requires FirstFreeAt(existing, dir, base, ext, k1)
    requires FirstFreeAt(existing, dir, base, ext, k2)
    ensures k1 == k2
  {
  }

  /** Allocating again after the first result has been written yields a later
      index and hence a different path. */
  lemma AllocateAfterWrite(existing: set<string>, dir: string, base: string, ext: string, k1: nat, k2: nat)
    requires FirstFreeAt(existing, dir, base, ext, k1)
    requires FirstFreeAt(existing + {Candidate(dir, base, ext, k1)}, dir, base, ext, k2)
    ensures k1 < k2
    ensures Candidate(dir, base, ext, k2) != Candidate(dir, base, ext, k1)
  {
  }

  /** The probe loop: returns the first candidate that is not an existing file. */
  method FreshName(existing: set<string>, dir: string, base: string, ext: string) returns (dst: string)
    ensures dst !in existing
    ensures exists k :: FirstFreeAt(existing, dir, base, ext, k) && dst == Candidate(dir, base, ext, k)
  {
    dst := Join(dir, base + ext);
    var i := 1;
    while dst in existing
      invariant i >= 1
      invariant dst == Candidate(dir, base, ext, i - 1)
      invariant forall j :: 0 <= j < i - 1 ==> Candidate(dir, base, ext, j) in existing
      decreases |existing| - (i - 1)
    {
      CoveredPrefixBound(existing, dir, base, ext, i - 1);
      dst := Join(dir, base + "_" + DecimalString(i) + ext);
      i := i + 1;
    }
    assert FirstFreeAt(existing, dir, base, ext, i - 1);
  }

  /** `ensure_output_path`: the destination for `srcPath` in `outDir` keeps the
      source's stem between `prefix` and `suffix` and keeps its extension; the
      plain name is used when free, otherwise the first free numbered one.
      `keepName` selects the stem on both of its branches. */
  method EnsureOutputPath(srcPath: string, outDir: string, prefix: string, suffix: string,
                          keepName: bool, existing: set<string>) returns (dst: string)
    ensures dst !in existing
    ensures exists k :: FirstFreeAt(existing, outDir, prefix + Stem(srcPath) + suffix, Suffix(srcPath), k)
                        && dst == Candidate(outDir, prefix + Stem(srcPath) + suffix, Suffix(srcPath), k)
    ensures Join(outDir, prefix + Stem(srcPath) + suffix + Suffix(srcPath)) !in existing ==>
              dst == Join(outDir, prefix + Stem(srcPath) + suffix + Suffix(srcPath))
    ensures |dst| >= |Suffix(srcPath)| && dst[|dst| - |Suffix(srcPath)|..] == Suffix(srcPath)
  {
    var name := if keepName then Stem(srcPath) else Stem(srcPath);
    var base, ext := prefix + name + suffix, Suffix(srcPath);
    dst := FreshName(existing, outDir, base, ext);
    ghost var k :| FirstFreeAt(existing, outDir, base, ext, k) && dst == Candidate(outDir, base, ext, k);
    CandidateKeepsExtension(outDir, base, ext, k);
    if Candidate(outDir, base, ext, 0) !in existing {
      FirstFreeUnique(existing, outDir, base, ext, k, 0);
    }
    assert Candidate(outDir, base, ext, 0) == Join(outDir, prefix + Stem(srcPath) + suffix + Suffix(srcPath));
  }
}
