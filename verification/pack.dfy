/** `do_pack` (identical in 1-pack_web_static.py and 3-deploy_web_static.py). */
module Pack {
  import opened Wrappers
  import opened Commands
  import opened Clock
  import opened Decimal

  const VersionsDir := "versions"
  const ArchivePrefix := "web_static_"
  const ArchiveExtension := ".tgz"

  /** The file name of the archive packed at `now`, without its directory. */
  function ArchiveFileName(now: DateTime): string
    requires Valid(now)
  {
    ArchivePrefix + Timestamp(now) + ArchiveExtension
  }

  /** The archive path `do_pack` builds: versions/web_static_<%Y%m%d%H%M%S>.tgz. */
  function ArchivePath(now: DateTime): string
    requires Valid(now)
  {
    VersionsDir + "/" + ArchiveFileName(now)
  }

  /** The local commands `do_pack` issued and the archive path it returned (None for Python's None). */
  datatype PackRun = PackRun(issued: seq<Command>, archive: Option<string>)

  /**
   * `do_pack`: create versions/, then tar web_static/ into the timestamped
   * archive. The outcome of `mkdir -p` is not looked at; the archive path
   * is returned exactly when tar succeeded.
   */
  function DoPack(now: DateTime, tarSucceeded: bool): (r: PackRun)
    requires Valid(now)
    ensures |r.issued| == 2
    ensures r.issued[0] == Local("mkdir -p " + VersionsDir)
    ensures r.issued[1] == Local("tar -cvzf " + ArchivePath(now) + " web_static")
    ensures r.archive.Some? <==> tarSucceeded
    ensures r.archive.Some? ==> r.archive.value == ArchivePath(now)
  {
    var archive := ArchivePath(now);
    var issued := [Local("mkdir -p " + VersionsDir), Local("tar -cvzf " + archive + " web_static")];
    if tarSucceeded then PackRun(issued, Some(archive)) else PackRun(issued, None)
  }

  /**
   * The path returned is the file the tar command wrote, and it lies in the
   * directory the preceding `mkdir -p` created.
   */
  lemma ReturnedArchiveIsTarOutput(now: DateTime, tarSucceeded: bool)
    requires Valid(now)
    ensures var r := DoPack(now, tarSucceeded);
            r.archive.Some? ==>
              && r.issued[1] == Local("tar -cvzf " + r.archive.value + " web_static")
              && r.issued[0] == Local("mkdir -p " + r.archive.value[..|VersionsDir|])
              && r.archive.value[|VersionsDir|] == '/'
  {
  }

  /**
   * For years 1000 to 9999 the archive path is 38 characters: the fixed
   * prefix, 14 digits and ".tgz", and the digits read back as `now`.
   */
  lemma ArchivePathLayout(now: DateTime)
    requires Valid(now) && now.year >= 1000
    ensures var p := ArchivePath(now);
            && |p| == 38
            && p[..20] == "versions/web_static_"
            && p[34..] == ".tgz"
            && AllDigits(p[20..34])
            && ParseTimestamp(p[20..34]) == now
  {
    TimestampRoundTrip(now);
    var p := ArchivePath(now);
    assert p == "versions/web_static_" + Timestamp(now) + ".tgz";
    assert p[20..34] == Timestamp(now);
  }

  /** Two moments in years 1000 to 9999 never pack to the same archive path. */
  lemma ArchivePathInjective(a: DateTime, b: DateTime)
    requires Valid(a) && a.year >= 1000
    requires Valid(b) && b.year >= 1000
    ensures ArchivePath(a) == ArchivePath(b) ==> a == b
  {
    ArchivePathLayout(a);
    ArchivePathLayout(b);
  }
}
