/** `deploy` of 3-deploy_web_static.py: pack a fresh archive, then distribute it. */
module Pipeline {
  import opened Wrappers
  import opened Commands
  import opened Clock
  import opened Decimal
  import Pack
  import Paths
  import Distribute

  /** Python truthiness of what `do_pack` returns: None and "" are false. */
  predicate Truthy(archive: Option<string>) {
    archive.Some? && archive.value != ""
  }

  /**
   * `deploy`: run `do_pack`; if it produced an archive path, return what
   * `do_deploy` returns for it, otherwise False without deploying. The
   * commands are those of `do_pack` followed by those of `do_deploy`.
   */
  function Deploy(now: DateTime, tarSucceeded: bool, archiveExists: bool, ok: seq<bool>): (o: Outcome)
    requires Valid(now) && |ok| == Distribute.StepCount
    ensures o.succeeded <==> tarSucceeded && archiveExists && AllSucceeded(ok)
    ensures !tarSucceeded ==> o == Outcome(Pack.DoPack(now, tarSucceeded).issued, false)
    ensures tarSucceeded ==>
              var d := Distribute.DoDeploy(Pack.ArchivePath(now), archiveExists, ok);
              o == Outcome(Pack.DoPack(now, tarSucceeded).issued + d.issued, d.succeeded)
  {
    var packed := Pack.DoPack(now, tarSucceeded);
    if Truthy(packed.archive) then
      var d := Distribute.DoDeploy(packed.archive.value, archiveExists, ok);
      Outcome(packed.issued + d.issued, d.succeeded)
    else
      Outcome(packed.issued, false)
  }

  lemma SlashFreeTimestampName(now: DateTime)
    requires Valid(now)
    ensures '/' !in Pack.ArchivePrefix + Timestamp(now)
    ensures Paths.HasNonDot(Pack.ArchivePrefix + Timestamp(now), 0, |Pack.ArchivePrefix + Timestamp(now)|)
  {
    var root := Pack.ArchivePrefix + Timestamp(now);
    forall j | 0 <= j < |root|
      ensures root[j] != '/'
    {
      if j >= |Pack.ArchivePrefix| {
        assert root[j] == Timestamp(now)[j - |Pack.ArchivePrefix|];
      }
    }
    assert root[0] == 'w';
  }

  /**
   * The archive `do_pack` names is installed under
   * /data/web_static/releases/web_static_<timestamp>: the basename and
   * extension split recover exactly the packed name.
   */
  lemma PackedArchiveRelease(now: DateTime)
    requires Valid(now)
    ensures Distribute.ArchiveName(Pack.ArchivePath(now)) == Pack.ArchiveFileName(now)
    ensures Distribute.ReleasePath(Pack.ArchivePath(now)) == Distribute.ReleasesDir + Pack.ArchivePrefix + Timestamp(now)
  {
    var root := Pack.ArchivePrefix + Timestamp(now);
    SlashFreeTimestampName(now);
    assert Pack.ArchiveExtension[1..] == "tgz";
    Distribute.ReleasePathOfArchive(Pack.VersionsDir, root, Pack.ArchiveExtension);
    assert Pack.ArchivePath(now) == Pack.VersionsDir + "/" + root + Pack.ArchiveExtension;
  }

  /**
   * When every step succeeds, `deploy` returns True having pointed
   * /data/web_static/current at the release named after the packing time.
   */
  lemma DeployLinksTimestampedRelease(now: DateTime, ok: seq<bool>)
    requires Valid(now) && |ok| == Distribute.StepCount && AllSucceeded(ok)
    ensures var o := Deploy(now, true, true, ok);
            && o.succeeded
            && |o.issued| == 2 + Distribute.StepCount
            && o.issued[9] == Run("ln -s " + Distribute.ReleasesDir + Pack.ArchivePrefix + Timestamp(now) + "/ " + Distribute.CurrentLink)
  {
    PackedArchiveRelease(now);
    var o := Deploy(now, true, true, ok);
    var d := Distribute.DoDeploy(Pack.ArchivePath(now), true, ok);
    assert d.issued == Distribute.DeploySteps(Pack.ArchivePath(now));
    assert o.issued[9] == d.issued[7];
  }
}
