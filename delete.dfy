/**
  The `delete` command (src/GprTool/Program.cs, DeleteCommand).

  The package listing the GraphQL query returns is an input, and so is the
  answer of each DeletePackageVersion mutation (true when the registry
  reported success, false when it did not or raised a GraphQL error).
 */
module Delete {
  import opened Wrappers
  import AccessToken

  /** A GraphQL node id of a package version. */
  type VersionId = seq<char>

  datatype PackageVersion = PackageVersion(id: VersionId, version: seq<char>)

  datatype Package = Package(name: seq<char>, versions: seq<PackageVersion>)

  const DockerBaseLayer: seq<char> := "docker-base-layer"

  /** The docker clean-up only touches a package whose only version is `docker-base-layer`. */
  predicate IsOrphanedDockerLayer(p: Package) {
    |p.versions| == 1 && p.versions[0].version == DockerBaseLayer
  }

  /** The versions the docker clean-up asks to delete, in listing order. */
  function DockerCleanUpIds(ps: seq<Package>): (ids: seq<VersionId>)
    ensures |ids| <= |ps|
  {
    if ps == [] then []
    else
      var p := ps[|ps| - 1];
      DockerCleanUpIds(ps[..|ps| - 1]) + (if IsOrphanedDockerLayer(p) then [p.versions[0].id] else [])
  }

  function VersionIds(vs: seq<PackageVersion>): (ids: seq<VersionId>)
    ensures |ids| == |vs|
    ensures forall k :: 0 <= k < |vs| ==> ids[k] == vs[k].id
  {
    if vs == [] then [] else VersionIds(vs[..|vs| - 1]) + [vs[|vs| - 1].id]
  }

  /** Every listed version of every package, in listing order. */
  function AllVersionIds(ps: seq<Package>): seq<VersionId> {
    if ps == [] then [] else AllVersionIds(ps[..|ps| - 1]) + VersionIds(ps[|ps| - 1].versions)
  }

  /** The number of versions listed over all packages. */
  function TotalVersions(ps: seq<Package>): nat {
    if ps == [] then 0 else TotalVersions(ps[..|ps| - 1]) + |ps[|ps| - 1].versions|
  }

  /** How many of the requested deletions the registry confirmed. */
  function CountSucceeded(ids: seq<VersionId>, succeeds: VersionId -> bool): (n: nat)
    ensures n <= |ids|
  {
    if ids == [] then 0
    else CountSucceeded(ids[..|ids| - 1], succeeds) + (if succeeds(ids[|ids| - 1]) then 1 else 0)
  }

  datatype Outcome = Outcome(exitCode: int, requested: seq<VersionId>, deleted: nat)

  /**
    What the command does with a listing it found. The docker clean-up always
    exits 0 and counts only the deletions the registry confirmed; the listing
    loop counts every version it sent, confirmed or not.
   */
  function DeleteOutcome(ps: seq<Package>, dockerCleanUp: bool, force: bool, succeeds: VersionId -> bool): (o: Outcome)
    ensures o.exitCode == 0 || o.exitCode == 1
    ensures o.deleted <= |o.requested|
    ensures dockerCleanUp ==> o.exitCode == 0 && |o.requested| <= |ps|
    ensures !dockerCleanUp ==> o.deleted == |o.requested|
  {
    if dockerCleanUp then
      var ids := DockerCleanUpIds(ps);
      Outcome(0, ids, CountSucceeded(ids, succeeds))
    else
      var ids := if force then AllVersionIds(ps) else [];
      Outcome(if |ids| == |ps| then 0 else 1, ids, |ids|)
  }

  /**
    The command: a missing token, a missing packages path or a path that
    names no packages give exit code 1 and delete nothing; otherwise the
    listing is processed as DeleteOutcome says.
   */
  method DeleteCommand(tokens: AccessToken.TokenSources, packagesPath: Option<seq<char>>,
                       found: Option<seq<Package>>, dockerCleanUp: bool, force: bool,
                       succeeds: VersionId -> bool)
    returns (exitCode: int, requested: seq<VersionId>, deleted: nat)
    ensures AccessToken.GetAccessToken(tokens).Err? || packagesPath.None? || found.None? ==>
      exitCode == 1 && requested == [] && deleted == 0
    ensures AccessToken.GetAccessToken(tokens).Ok? && packagesPath.Some? && found.Some? ==>
      Outcome(exitCode, requested, deleted) == DeleteOutcome(found.value, dockerCleanUp, force, succeeds)
  {
    requested, deleted := [], 0;
    var token := AccessToken.GetAccessToken(tokens);
    if token.Err? || packagesPath.None? || found.None? {
      return 1, requested, deleted;
    }
    var packages := found.value;
    if dockerCleanUp {
      requested, deleted := DockerCleanUp(packages, succeeds);
      return 0, requested, deleted;
    }
    requested := DeleteAll(packages, force);
    deleted := |requested|;
    exitCode := if deleted == |packages| then 0 else 1;
  }

  /** The `--docker-clean-up` loop: delete each orphaned base layer, counting confirmed deletions. */
  method DockerCleanUp(packages: seq<Package>, succeeds: VersionId -> bool)
    returns (requested: seq<VersionId>, deleted: nat)
    ensures requested == DockerCleanUpIds(packages)
    ensures deleted == CountSucceeded(requested, succeeds)
  {
    requested, deleted := [], 0;
    var i := 0;
    while i < |packages|
      invariant 0 <= i <= |packages|
      invariant requested == DockerCleanUpIds(packages[..i])
      invariant deleted == CountSucceeded(requested, succeeds)
    {
      var p := packages[i];
      CleanUpStep(packages, i);
      if IsOrphanedDockerLayer(p) {
        var versionId := p.versions[0].id;
        var success := succeeds(versionId);
        CountStep(requested, versionId, succeeds);
        requested := requested + [versionId];
        if success {
          deleted := deleted + 1;
        }
      }
      i := i + 1;
    }
    assert packages[..i] == packages;
  }

  lemma CleanUpStep(ps: seq<Package>, i: nat)
    requires i < |ps|
    ensures DockerCleanUpIds(ps[..i + 1]) ==
      DockerCleanUpIds(ps[..i]) + (if IsOrphanedDockerLayer(ps[i]) then [ps[i].versions[0].id] else [])
  {
    assert ps[..i + 1][..i] == ps[..i];
  }

  lemma CountStep(ids: seq<VersionId>, id: VersionId, succeeds: VersionId -> bool)
    ensures CountSucceeded(ids + [id], succeeds) == CountSucceeded(ids, succeeds) + (if succeeds(id) then 1 else 0)
  {
    assert (ids + [id])[..|ids|] == ids;
  }

  lemma AllVersionIdsStep(ps: seq<Package>, i: nat)
    requires i < |ps|
    ensures AllVersionIds(ps[..i + 1]) == AllVersionIds(ps[..i]) + VersionIds(ps[i].versions)
  {
    assert ps[..i + 1][..i] == ps[..i];
  }

  /**
    The listing loop: with `--force` every version of every package is sent
    for deletion (the answer is not looked at); without it only listed.
   */
  method DeleteAll(packages: seq<Package>, force: bool) returns (requested: seq<VersionId>)
    ensures requested == if force then AllVersionIds(packages) else []
  {
    requested := [];
    var i := 0;
    while i < |packages|
      invariant 0 <= i <= |packages|
      invariant requested == if force then AllVersionIds(packages[..i]) else []
    {
      var ids := DeleteVersions(packages[i].versions, force);
      AllVersionIdsStep(packages, i);
      requested := requested + ids;
      i := i + 1;
    }
    assert packages[..i] == packages;
  }

  /** The inner loop over one package's versions: with `--force` each version id is sent, in order. */
  method DeleteVersions(versions: seq<PackageVersion>, force: bool) returns (requested: seq<VersionId>)
    ensures requested == if force then VersionIds(versions) else []
  {
    requested := [];
    var j := 0;
    while j < |versions|
      invariant 0 <= j <= |versions|
      invariant requested == if force then VersionIds(versions[..j]) else []
    {
      if force {
        VersionIdsStep(versions, j);
        requested := requested + [versions[j].id];
      }
      j := j + 1;
    }
    assert versions[..j] == versions;
  }

  lemma VersionIdsStep(vs: seq<PackageVersion>, j: nat)
    requires j < |vs|
    ensures VersionIds(vs[..j + 1]) == VersionIds(vs[..j]) + [vs[j].id]
  {
    assert vs[..j + 1][..j] == vs[..j];
  }

  /** The docker clean-up asks to delete exactly the single versions of the orphaned base-layer packages. */
  lemma {:induction false} DockerCleanUpSelection(ps: seq<Package>)
    ensures forall i :: 0 <= i < |ps| && IsOrphanedDockerLayer(ps[i]) ==> ps[i].versions[0].id in DockerCleanUpIds(ps)
    ensures forall x :: x in DockerCleanUpIds(ps) ==>
      exists i :: 0 <= i < |ps| && IsOrphanedDockerLayer(ps[i]) && ps[i].versions[0].id == x
  {
    if ps != [] {
      var init := ps[..|ps| - 1];
      DockerCleanUpSelection(init);
      forall i | 0 <= i < |init| ensures init[i] == ps[i] { }
    }
  }

  /** The positions of the packages the docker clean-up is about. */
  function OrphanedPositions(ps: seq<Package>): set<int> {
    set i | 0 <= i < |ps| && IsOrphanedDockerLayer(ps[i])
  }

  /** The docker clean-up sends exactly one request per orphaned base-layer package. */
  lemma {:induction false} DockerCleanUpCount(ps: seq<Package>)
    ensures |DockerCleanUpIds(ps)| == |OrphanedPositions(ps)|
  {
    if ps != [] {
      var init := ps[..|ps| - 1];
      DockerCleanUpCount(init);
      assert forall i | 0 <= i < |init| :: init[i] == ps[i];
      if IsOrphanedDockerLayer(ps[|ps| - 1]) {
        assert OrphanedPositions(ps) == OrphanedPositions(init) + {|ps| - 1};
      } else {
        assert OrphanedPositions(ps) == OrphanedPositions(init);
      }
    }
  }

  /** With `--force` every listed version is counted, so the count is the number of versions. */
  lemma {:induction false} AllVersionIdsCount(ps: seq<Package>)
    ensures |AllVersionIds(ps)| == TotalVersions(ps)
  {
    if ps != [] {
      AllVersionIdsCount(ps[..|ps| - 1]);
    }
  }

  /** Without `--force` nothing is deleted, and the exit code is 0 only for an empty listing. */
  lemma ListingOnlyExitCode(ps: seq<Package>, succeeds: VersionId -> bool)
    ensures DeleteOutcome(ps, false, false, succeeds).requested == []
    ensures DeleteOutcome(ps, false, false, succeeds).exitCode == 0 <==> ps == []
  {
  }

  /**
    With `--force` the code compares the number of deleted versions with the
    number of packages: it exits 0 iff the two agree.
   */
  lemma ForcedExitCode(ps: seq<Package>, succeeds: VersionId -> bool)
    ensures DeleteOutcome(ps, false, true, succeeds).exitCode == 0 <==> TotalVersions(ps) == |ps|
  {
    AllVersionIdsCount(ps);
  }

  /** When every package has exactly one version, a forced delete exits 0. */
  lemma {:induction false} ForcedSingleVersionsExitZero(ps: seq<Package>, succeeds: VersionId -> bool)
    requires forall i :: 0 <= i < |ps| ==> |ps[i].versions| == 1
    ensures DeleteOutcome(ps, false, true, succeeds).exitCode == 0
  {
    SingleVersionsTotal(ps);
    ForcedExitCode(ps, succeeds);
  }

  lemma {:induction false} SingleVersionsTotal(ps: seq<Package>)
    requires forall i :: 0 <= i < |ps| ==> |ps[i].versions| == 1
    ensures TotalVersions(ps) == |ps|
  {
    if ps != [] {
      var init := ps[..|ps| - 1];
      assert forall i :: 0 <= i < |init| ==> init[i] == ps[i];
      SingleVersionsTotal(init);
    }
  }

  /**
    A package with two versions, both sent for deletion with `--force`, still
    makes the command exit 1: the count of versions (2) is not the count of
    packages (1).
   */
  lemma ForcedTwoVersionsExitOne(succeeds: VersionId -> bool)
    ensures var p := Package("lib", [PackageVersion("v1", "1.0.0"), PackageVersion("v2", "2.0.0")]);
      && DeleteOutcome([p], false, true, succeeds).requested == ["v1", "v2"]
      && DeleteOutcome([p], false, true, succeeds).exitCode == 1
  {
    var p := Package("lib", [PackageVersion("v1", "1.0.0"), PackageVersion("v2", "2.0.0")]);
    assert [p][..0] == [];
    assert p.versions[..1] == [PackageVersion("v1", "1.0.0")];
    assert p.versions[..1][..0] == [];
  }
}
