/**
 * File names of a package. Packaging a binary at `path` writes
 * `path.package` and `path.checksum` (bin.go:214, bin.go:226); installing
 * accepts either the bare path or the `.package` name and derives both
 * file names from it (bin.go:74-80).
 */
module Paths {
  import Strings

  const PackageSuffix: string := ".package"
  const ChecksumSuffix: string := ".checksum"

  /** The package file written for the binary at `stem`. */
  function PackageFileName(stem: string): string {
    stem + PackageSuffix
  }

  /** The checksum file written for the binary at `stem`. */
  function ChecksumFileName(stem: string): string {
    stem + ChecksumSuffix
  }

  datatype PackagePaths = PackagePaths(package: string, checksum: string)

  /** The package and checksum files `install` reads for its argument. */
  function DerivePaths(arg: string): (p: PackagePaths)
    ensures Strings.Contains(p.package, PackageSuffix)
    ensures |p.checksum| >= |ChecksumSuffix| && p.checksum[|p.checksum| - |ChecksumSuffix|..] == ChecksumSuffix
    ensures Strings.Contains(arg, PackageSuffix) ==> p.package == arg
  {
    if !Strings.Contains(arg, PackageSuffix) then
      assert Strings.OccursAt(arg + PackageSuffix, PackageSuffix, |arg|);
      PackagePaths(arg + PackageSuffix, arg + ChecksumSuffix)
    else
      PackagePaths(arg, Strings.ReplaceFirst(arg, PackageSuffix, "") + ChecksumSuffix)
  }

  /**
   * When the argument names `.package` somewhere, the package is the argument
   * itself and the checksum file is the argument with its first `.package` cut out.
   */
  lemma DeriveFromPackageName(arg: string, i: nat)
    requires Strings.OccursAt(arg, PackageSuffix, i)
    requires forall j :: 0 <= j < i ==> !Strings.OccursAt(arg, PackageSuffix, j)
    ensures DerivePaths(arg) == PackagePaths(arg, arg[..i] + arg[i + |PackageSuffix|..] + ChecksumSuffix)
  {
    Strings.ReplaceFirstAt(arg, PackageSuffix, "", i);
    assert arg[..i] + "" + arg[i + |PackageSuffix|..] == arg[..i] + arg[i + |PackageSuffix|..];
  }

  /**
   * In a stem free of `.package` followed by `.package` and anything else,
   * the first occurrence is the one right after the stem: `.package` cannot
   * overlap itself, since its only `.` is its first character.
   */
  lemma FirstOccurrenceAtEnd(stem: string, rest: string)
    requires !Strings.Contains(stem, PackageSuffix)
    ensures Strings.OccursAt(stem + PackageSuffix + rest, PackageSuffix, |stem|)
    ensures forall j :: 0 <= j < |stem| ==> !Strings.OccursAt(stem + PackageSuffix + rest, PackageSuffix, j)
  {
    var s := stem + PackageSuffix + rest;
    assert s[|stem|..|stem| + |PackageSuffix|] == PackageSuffix;
    forall j | 0 <= j < |stem|
      ensures !Strings.OccursAt(s, PackageSuffix, j)
    {
      if j + |PackageSuffix| <= |stem| {
        assert s[j..j + |PackageSuffix|] == stem[j..j + |PackageSuffix|];
        assert !Strings.OccursAt(stem, PackageSuffix, j);
      } else if j <= |s| - |PackageSuffix| {
        var k := |stem| - j;
        assert 0 < k < |PackageSuffix|;
        assert s[j..j + |PackageSuffix|][k] == s[|stem|] == '.';
        assert PackageSuffix[k] != '.';
      }
    }
  }

  /**
   * A stem and its `.package` name lead `install` to the same two files, and
   * they are the two files packaging the stem writes.
   */
  lemma DeriveAgreesWithPackaging(stem: string)
    requires !Strings.Contains(stem, PackageSuffix)
    ensures DerivePaths(stem) == PackagePaths(PackageFileName(stem), ChecksumFileName(stem))
    ensures DerivePaths(stem + PackageSuffix) == DerivePaths(stem)
  {
    var s := stem + PackageSuffix;
    FirstOccurrenceAtEnd(stem, "");
    assert s + "" == s;
    DeriveFromPackageName(s, |stem|);
    assert s[..|stem|] == stem;
    assert s[|stem| + |PackageSuffix|..] == "";
  }

  /**
   * A binary whose path already holds `.package` is not found again by
   * installing it by that path. Write the path as `x.package<y>` with `x`
   * free of `.package`: installing takes the binary itself as the package
   * and looks for the checksum in `x<y>.checksum`, while packaging wrote
   * `x.package<y>.package` and `x.package<y>.checksum`.
   */
  lemma StemHoldingPackageSuffix(x: string, y: string)
    requires !Strings.Contains(x, PackageSuffix)
    ensures var stem := x + PackageSuffix + y;
            && DerivePaths(stem) == PackagePaths(stem, x + y + ChecksumSuffix)
            && DerivePaths(stem).package != PackageFileName(stem)
            && DerivePaths(stem).checksum != ChecksumFileName(stem)
  {
    DeriveAroundFirst(x, y);
  }

  /**
   * Installing the same binary by its `.package` name reads the right
   * package but looks for the checksum in `x<y>.package.checksum`.
   */
  lemma PackageNameHoldingPackageSuffix(x: string, y: string)
    requires !Strings.Contains(x, PackageSuffix)
    ensures var stem := x + PackageSuffix + y;
            DerivePaths(PackageFileName(stem)) == PackagePaths(PackageFileName(stem), x + y + PackageSuffix + ChecksumSuffix)
  {
    var stem := x + PackageSuffix + y;
    assert PackageFileName(stem) == x + PackageSuffix + (y + PackageSuffix);
    DeriveAroundFirst(x, y + PackageSuffix);
    assert x + (y + PackageSuffix) + ChecksumSuffix == x + y + PackageSuffix + ChecksumSuffix;
  }

  /** Local helper: an argument whose first `.package` follows `x` loses that `.package` in the checksum path. */
  lemma DeriveAroundFirst(x: string, y: string)
    requires !Strings.Contains(x, PackageSuffix)
    ensures DerivePaths(x + PackageSuffix + y) == PackagePaths(x + PackageSuffix + y, x + y + ChecksumSuffix)
  {
    var arg := x + PackageSuffix + y;
    FirstOccurrenceAtEnd(x, y);
    DeriveFromPackageName(arg, |x|);
    assert arg[..|x|] == x;
    assert arg[|x| + |PackageSuffix|..] == y;
  }
}
