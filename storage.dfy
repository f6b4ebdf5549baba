/**
  The storage tally of the `files` command (src/GprTool/Program.cs, FilesCommand).

  The package listing the GraphQL query returns is an input; a file's size
  is a nullable 32-bit GraphQL Int. Sizes are added into a 64-bit total,
  which is reported in whole megabytes by C#'s truncating division.
 */
module Storage {
  import opened Wrappers
  import AccessToken

  type Int32 = x: int | -0x8000_0000 <= x < 0x8000_0000

  datatype FileInfo = FileInfo(name: seq<char>, size: Option<Int32>)

  datatype Version = Version(version: seq<char>, files: seq<FileInfo>)

  datatype Package = Package(name: seq<char>, versions: seq<Version>)

  const BytesPerMegabyte: int := 1024 * 1024

  /** A file's contribution: its size, or nothing when the size is null. */
  function FileBytes(f: FileInfo): int {
    if f.size.Some? then f.size.value else 0
  }

  function FilesTotal(fs: seq<FileInfo>): int {
    if fs == [] then 0 else FilesTotal(fs[..|fs| - 1]) + FileBytes(fs[|fs| - 1])
  }

  function VersionsTotal(vs: seq<Version>): int {
    if vs == [] then 0 else VersionsTotal(vs[..|vs| - 1]) + FilesTotal(vs[|vs| - 1].files)
  }

  /** The total the nested loops compute: package by package, version by version, file by file. */
  function PackagesTotal(ps: seq<Package>): int {
    if ps == [] then 0 else PackagesTotal(ps[..|ps| - 1]) + VersionsTotal(ps[|ps| - 1].versions)
  }

  function VersionFiles(vs: seq<Version>): seq<FileInfo> {
    if vs == [] then [] else VersionFiles(vs[..|vs| - 1]) + vs[|vs| - 1].files
  }

  /** Every file of every version of every package, in listing order. */
  function AllFiles(ps: seq<Package>): seq<FileInfo> {
    if ps == [] then [] else AllFiles(ps[..|ps| - 1]) + VersionFiles(ps[|ps| - 1].versions)
  }

  /** `/` on `long`: the quotient truncated toward zero. */
  function TruncDiv(a: int, d: int): (q: int)
    requires d > 0
    ensures a >= 0 ==> q >= 0 && q * d <= a < (q + 1) * d
    ensures a < 0 ==> q <= 0 && (q - 1) * d < a <= q * d
  {
    if a >= 0 then
      DivisionBounds(a, d);
      a / d
    else
      NegatedDivisionBounds(-a, d);
      -((-a) / d)
  }

  lemma DivisionBounds(n: int, d: int)
    requires n >= 0 && d > 0
    ensures n / d >= 0 && (n / d) * d <= n < (n / d + 1) * d
  {
    var q, r := n / d, n % d;
    assert n == q * d + r;
    assert (q + 1) * d == q * d + d;
  }

  lemma NegatedDivisionBounds(n: int, d: int)
    requires n >= 0 && d > 0
    ensures var q := -(n / d); q <= 0 && (q - 1) * d < -n <= q * d
  {
    DivisionBounds(n, d);
    var p := n / d;
    assert (-p) * d == -(p * d);
    assert (-p - 1) * d == -((p + 1) * d);
  }

  /**
    The figure printed as "Storage used N MB": for a non-negative total, the
    number of whole megabytes in it; a negative total rounds toward zero.
   */
  function StorageMegabytes(total: int): (mb: int)
    ensures total >= 0 ==> mb >= 0 && mb * 1048576 <= total < (mb + 1) * 1048576
    ensures total < 0 ==> mb <= 0 && (mb - 1) * 1048576 < total <= mb * 1048576
  {
    TruncDiv(total, BytesPerMegabyte)
  }

  lemma {:induction false} FilesTotalAppend(a: seq<FileInfo>, b: seq<FileInfo>)
    ensures FilesTotal(a + b) == FilesTotal(a) + FilesTotal(b)
    decreases |b|
  {
    if b == [] {
      assert a + b == a;
    } else {
      assert (a + b)[..|a + b| - 1] == a + b[..|b| - 1];
      FilesTotalAppend(a, b[..|b| - 1]);
    }
  }

  lemma {:induction false} VersionsTotalIsFilesTotal(vs: seq<Version>)
    ensures VersionsTotal(vs) == FilesTotal(VersionFiles(vs))
  {
    if vs != [] {
      VersionsTotalIsFilesTotal(vs[..|vs| - 1]);
      FilesTotalAppend(VersionFiles(vs[..|vs| - 1]), vs[|vs| - 1].files);
    }
  }

  /** The storage total is the sum of the non-null sizes of all files listed, however they are grouped. */
  lemma {:induction false} PackagesTotalIsFilesTotal(ps: seq<Package>)
    ensures PackagesTotal(ps) == FilesTotal(AllFiles(ps))
  {
    if ps != [] {
      PackagesTotalIsFilesTotal(ps[..|ps| - 1]);
      VersionsTotalIsFilesTotal(ps[|ps| - 1].versions);
      FilesTotalAppend(AllFiles(ps[..|ps| - 1]), VersionFiles(ps[|ps| - 1].versions));
    }
  }

  /** Each file adds at most one Int32, so the total is within n × 2^31 of zero. */
  lemma {:induction false} FilesTotalBound(fs: seq<FileInfo>)
    ensures -|fs| * 0x8000_0000 <= FilesTotal(fs) <= |fs| * 0x7FFF_FFFF
  {
    if fs != [] {
      FilesTotalBound(fs[..|fs| - 1]);
    }
  }

  /** So the 64-bit total cannot wrap around while fewer than 2^32 files are listed. */
  lemma StorageFitsInLong(ps: seq<Package>)
    requires |AllFiles(ps)| < 0x1_0000_0000
    ensures -0x8000_0000_0000_0000 <= PackagesTotal(ps) < 0x8000_0000_0000_0000
  {
    PackagesTotalIsFilesTotal(ps);
    FilesTotalBound(AllFiles(ps));
  }

  /** The nested loops that accumulate `totalStorage`. */
  method TotalStorage(packages: seq<Package>) returns (total: int)
    ensures total == PackagesTotal(packages)
  {
    total := 0;
    var i := 0;
    while i < |packages|
      invariant 0 <= i <= |packages|
      invariant total == PackagesTotal(packages[..i])
    {
      var versions := packages[i].versions;
      var j := 0;
      while j < |versions|
        invariant 0 <= j <= |versions|
        invariant total == PackagesTotal(packages[..i]) + VersionsTotal(versions[..j])
      {
        var files := versions[j].files;
        var k := 0;
        while k < |files|
          invariant 0 <= k <= |files|
          invariant total == PackagesTotal(packages[..i]) + VersionsTotal(versions[..j]) + FilesTotal(files[..k])
        {
          if files[k].size.Some? {
            total := total + files[k].size.value;
          }
          assert files[..k + 1][..k] == files[..k];
          k := k + 1;
        }
        assert files[..k] == files;
        assert versions[..j + 1][..j] == versions[..j];
        j := j + 1;
      }
      assert versions[..j] == versions;
      assert packages[..i + 1][..i] == packages[..i];
      i := i + 1;
    }
    assert packages[..i] == packages;
  }

  /**
    The command: a missing token, a missing packages path or a path that
    names no packages give exit code 1; otherwise it exits 0 and reports the
    storage used in megabytes.
   */
  method FilesCommand(tokens: AccessToken.TokenSources, packagesPath: Option<seq<char>>,
                      found: Option<seq<Package>>)
    returns (exitCode: int, megabytes: Option<int>)
    ensures exitCode == 0 <==>
      AccessToken.GetAccessToken(tokens).Ok? && packagesPath.Some? && found.Some?
    ensures exitCode == 0 || exitCode == 1
    ensures exitCode == 0 ==> megabytes == Some(StorageMegabytes(FilesTotal(AllFiles(found.value))))
    ensures exitCode == 1 ==> megabytes == None
  {
    var token := AccessToken.GetAccessToken(tokens);
    if token.Err? || packagesPath.None? || found.None? {
      return 1, None;
    }
    var total := TotalStorage(found.value);
    PackagesTotalIsFilesTotal(found.value);
    return 0, Some(StorageMegabytes(total));
  }
}
