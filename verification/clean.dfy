/**
 * `do_clean` of 100-clean_web_static.py: keep the first `max(number, 1)`
 * lines of the remote and local `ls -tr` listings and remove the rest.
 * Read one name per line, as `ls -1tr` prints it, the listing is oldest
 * first, so the entries kept are the OLDEST ones. (On a pseudo-terminal,
 * Fabric's default for `run`, `ls` prints several names per line instead.)
 */
module Clean {
  import opened Commands
  import Distribute

  const LocalVersionsDir := "versions/"

  /** `max(number, 1)`: at least one entry is always kept. */
  function KeepCount(number: int): (k: nat)
    ensures k >= 1 && k >= number
    ensures k == number || k == 1
  {
    if number > 1 then number else 1
  }

  /** Python's `listing[keep:]`: everything after the first `keep` entries (nothing when the listing is shorter). */
  function DropFirst(listing: seq<string>, keep: nat): (d: seq<string>)
    ensures |d| == if |listing| > keep then |listing| - keep else 0
    ensures d == listing[|listing| - |d|..]
  {
    if keep >= |listing| then [] else listing[keep..]
  }

  /** The entries `do_clean` leaves in place: the first `keep` of the listing. */
  function Kept(listing: seq<string>, keep: nat): seq<string> {
    if keep >= |listing| then listing else listing[..keep]
  }

  /** One command per name, in the order of `names`. */
  function Removals(names: seq<string>, remove: string -> Command): (cmds: seq<Command>)
    ensures |cmds| == |names|
    ensures forall i :: 0 <= i < |names| ==> cmds[i] == remove(names[i])
  {
    seq(|names|, i requires 0 <= i < |names| => remove(names[i]))
  }

  function RemoteRemove(name: string): Command {
    Run("rm -rf " + Distribute.ReleasesDir + name)
  }

  function LocalRemove(name: string): Command {
    Local("rm -fr " + LocalVersionsDir + name)
  }

  /**
   * The command sequence of `do_clean` given which remote and local entries
   * go: list the remote releases, remove each stale one, list the local
   * archives, remove each stale one.
   */
  function CleanCommands(remoteStale: seq<string>, localStale: seq<string>): (cmds: seq<Command>)
    ensures |cmds| == 2 + |remoteStale| + |localStale|
    ensures cmds[0] == RunIn(Distribute.ReleasesDir, "ls -tr")
    ensures cmds[1 + |remoteStale|] == Local("ls -tr " + LocalVersionsDir)
    ensures forall i :: 0 <= i < |remoteStale| ==> cmds[1 + i] == RemoteRemove(remoteStale[i])
    ensures forall i :: 0 <= i < |localStale| ==> cmds[2 + |remoteStale| + i] == LocalRemove(localStale[i])
  {
    [RunIn(Distribute.ReleasesDir, "ls -tr")]
      + Removals(remoteStale, RemoteRemove)
      + [Local("ls -tr " + LocalVersionsDir)]
      + Removals(localStale, LocalRemove)
  }

  /**
   * `do_clean(number)`, given the two `ls -tr` listings (oldest first): the
   * same keep count applies to both, and each entry past it is removed, in
   * listing order.
   */
  function DoClean(number: int, remoteListing: seq<string>, localListing: seq<string>): (cmds: seq<Command>)
    ensures |cmds| == 2 + |DropFirst(remoteListing, KeepCount(number))| + |DropFirst(localListing, KeepCount(number))|
    ensures cmds[0] == RunIn(Distribute.ReleasesDir, "ls -tr")
    ensures cmds[1 + |DropFirst(remoteListing, KeepCount(number))|] == Local("ls -tr " + LocalVersionsDir)
    ensures forall j :: KeepCount(number) <= j < |remoteListing| ==>
              cmds[1 + j - KeepCount(number)] == RemoteRemove(remoteListing[j])
    ensures forall j :: KeepCount(number) <= j < |localListing| ==>
              cmds[2 + |DropFirst(remoteListing, KeepCount(number))| + j - KeepCount(number)] == LocalRemove(localListing[j])
  {
    var keep := KeepCount(number);
    var remoteStale := DropFirst(remoteListing, keep);
    var localStale := DropFirst(localListing, keep);
    assert forall j :: keep <= j < |remoteListing| ==> remoteStale[j - keep] == remoteListing[j];
    assert forall j :: keep <= j < |localListing| ==> localStale[j - keep] == localListing[j];
    CleanCommands(remoteStale, localStale)
  }

  /**
   * `do_clean` as 100-clean_web_static.py writes it: `local('ls -tr versions/')`
   * is called without `capture=True`, and Fabric's `local` then returns the
   * empty string, so the local listing it splits is always empty. The local
   * `ls` runs, and no local archive is ever removed.
   */
  function DoCleanAsWritten(number: int, remoteListing: seq<string>): (cmds: seq<Command>)
    ensures |cmds| == 2 + |DropFirst(remoteListing, KeepCount(number))|
    ensures cmds[|cmds| - 1] == Local("ls -tr " + LocalVersionsDir)
    ensures forall i :: 0 <= i < |cmds| && cmds[i].Local? ==> i == |cmds| - 1
  {
    DoClean(number, remoteListing, [])
  }

  /** Dropping the local removals leaves the commands up to the local listing. */
  lemma CleanCommandsWithoutLocalRemovals(remoteStale: seq<string>, localStale: seq<string>)
    ensures CleanCommands(remoteStale, []) == CleanCommands(remoteStale, localStale)[..2 + |remoteStale|]
  {
    var short := CleanCommands(remoteStale, []);
    var full := CleanCommands(remoteStale, localStale);
    forall i | 0 <= i < |short|
      ensures short[i] == full[i]
    {
      if 0 < i < 1 + |remoteStale| {
        assert short[1 + (i - 1)] == full[1 + (i - 1)];
      }
    }
  }

  /** A local removal is never the local listing command. */
  lemma LocalRemoveIsNotListing(name: string)
    ensures LocalRemove(name) != Local("ls -tr " + LocalVersionsDir)
  {
    var prefix := "rm -fr " + LocalVersionsDir;
    assert (prefix + name)[1] == prefix[1] == 'm';
    assert ("ls -tr " + LocalVersionsDir)[1] == 's';
  }

  /**
   * Whatever the local `versions/` directory holds, the as-written clean
   * issues exactly the commands of `DoClean` up to the local `ls`.
   */
  lemma AsWrittenIsRemoteHalf(number: int, remoteListing: seq<string>, localListing: seq<string>)
    ensures var full := DoClean(number, remoteListing, localListing);
            var written := DoCleanAsWritten(number, remoteListing);
            |written| <= |full| && written == full[..|written|]
  {
    var k := KeepCount(number);
    var remoteStale := DropFirst(remoteListing, k);
    assert DoClean(number, remoteListing, localListing) == CleanCommands(remoteStale, DropFirst(localListing, k));
    assert DoCleanAsWritten(number, remoteListing) == CleanCommands(remoteStale, []);
    CleanCommandsWithoutLocalRemovals(remoteStale, DropFirst(localListing, k));
  }

  /** None of the local removals `DoClean` issues is among the as-written commands. */
  lemma AsWrittenSkipsLocalRemovals(number: int, remoteListing: seq<string>, localListing: seq<string>)
    ensures forall j :: KeepCount(number) <= j < |localListing| ==>
              LocalRemove(localListing[j]) !in DoCleanAsWritten(number, remoteListing)
  {
    var written := DoCleanAsWritten(number, remoteListing);
    forall j | KeepCount(number) <= j < |localListing|
      ensures LocalRemove(localListing[j]) !in written
    {
      LocalRemoveIsNotListing(localListing[j]);
      forall i | 0 <= i < |written|
        ensures written[i] != LocalRemove(localListing[j])
      {
        if written[i].Local? {
          assert written[i] == Local("ls -tr " + LocalVersionsDir);
        }
      }
    }
  }

  /**
   * With two local archives and number 1, `DoClean` removes
   * web_static_2.tgz locally, while the as-written clean issues only the
   * two listings.
   */
  lemma UncapturedLocalListingKeepsArchives()
    ensures var cmds := DoClean(1, [], ["web_static_1.tgz", "web_static_2.tgz"]);
            |cmds| == 3 && cmds[2] == LocalRemove("web_static_2.tgz")
    ensures DoCleanAsWritten(1, []) == [RunIn(Distribute.ReleasesDir, "ls -tr"), Local("ls -tr " + LocalVersionsDir)]
  {
    assert DropFirst(["web_static_1.tgz", "web_static_2.tgz"], 1) == ["web_static_2.tgz"];
    assert DropFirst([], 1) == [];
  }

  /** The kept entries followed by the removed ones are exactly the listing. */
  lemma KeptThenDropped(listing: seq<string>, keep: nat)
    ensures Kept(listing, keep) + DropFirst(listing, keep) == listing
    ensures |Kept(listing, keep)| == if keep < |listing| then keep else |listing|
  {
  }

  /**
   * Nothing is removed from a listing no longer than the keep count, and a
   * non-empty listing always keeps its first entry.
   */
  lemma RetentionBounds(number: int, listing: seq<string>)
    ensures |listing| <= KeepCount(number) ==> DropFirst(listing, KeepCount(number)) == []
    ensures |listing| > 0 ==>
              |Kept(listing, KeepCount(number))| >= 1 && Kept(listing, KeepCount(number))[0] == listing[0]
  {
  }

  /** `number` 0, 1 and every negative number behave alike: keep one. */
  lemma SmallNumbersKeepOne(number: int, remoteListing: seq<string>, localListing: seq<string>)
    requires number <= 1
    ensures DoClean(number, remoteListing, localListing) == DoClean(1, remoteListing, localListing)
  {
  }

  /**
   * Entries are kept from the front of the oldest-first listing: the oldest
   * entry is never removed, and whenever anything is removed the newest
   * entry is among it.
   */
  lemma KeepsOldest(listing: seq<string>, keep: nat)
    requires keep >= 1
    ensures |listing| > 0 ==> Kept(listing, keep)[0] == listing[0] && |DropFirst(listing, keep)| < |listing|
    ensures |DropFirst(listing, keep)| > 0 ==>
              DropFirst(listing, keep)[|DropFirst(listing, keep)| - 1] == listing[|listing| - 1]
  {
  }

  /** The stale entries under the retention the docstring describes: all but the last `keep`. */
  function DropAllButLast(listing: seq<string>, keep: nat): (d: seq<string>)
    ensures |d| == if |listing| > keep then |listing| - keep else 0
    ensures d == listing[..|d|]
  {
    if keep >= |listing| then [] else listing[..|listing| - keep]
  }

  /** `do_clean` keeping the most recent `max(number, 1)` entries of each oldest-first listing. */
  function DoCleanKeepingNewest(number: int, remoteListing: seq<string>, localListing: seq<string>): (cmds: seq<Command>)
    ensures |cmds| == 2 + |DropAllButLast(remoteListing, KeepCount(number))| + |DropAllButLast(localListing, KeepCount(number))|
    ensures cmds[0] == RunIn(Distribute.ReleasesDir, "ls -tr")
    ensures cmds[1 + |DropAllButLast(remoteListing, KeepCount(number))|] == Local("ls -tr " + LocalVersionsDir)
    ensures forall i :: 0 <= i < |remoteListing| - KeepCount(number) ==> cmds[1 + i] == RemoteRemove(remoteListing[i])
    ensures forall i :: 0 <= i < |localListing| - KeepCount(number) ==>
              cmds[2 + |DropAllButLast(remoteListing, KeepCount(number))| + i] == LocalRemove(localListing[i])
  {
    var keep := KeepCount(number);
    var remoteStale := DropAllButLast(remoteListing, keep);
    var localStale := DropAllButLast(localListing, keep);
    assert forall i :: 0 <= i < |remoteListing| - keep ==> remoteStale[i] == remoteListing[i];
    assert forall i :: 0 <= i < |localListing| - keep ==> localStale[i] == localListing[i];
    CleanCommands(remoteStale, localStale)
  }

  /**
   * Keeping the newest: the removed entries followed by the last `keep`
   * entries are the listing, so every removed entry is older than every
   * kept one and the newest entry is never removed.
   */
  lemma KeepingNewestKeepsNewest(listing: seq<string>, keep: nat)
    requires keep >= 1
    ensures var d := DropAllButLast(listing, keep);
            && d + listing[|d|..] == listing
            && |listing[|d|..]| == (if keep < |listing| then keep else |listing|)
            && (|listing| > 0 ==> |d| < |listing|)
  {
  }

  /**
   * With the oldest-first listing ["web_static_1", "web_static_2"] and
   * number 1, `do_clean` removes web_static_2, the newest release.
   */
  lemma OldestFirstRemovesNewest()
    ensures var cmds := DoClean(1, ["web_static_1", "web_static_2"], []);
            |cmds| == 3 && cmds[1] == RemoteRemove("web_static_2")
  {
    assert DropFirst(["web_static_1", "web_static_2"], 1) == ["web_static_2"];
  }

  /** On the same listing, keeping the newest removes web_static_1 instead. */
  lemma KeepingNewestRemovesOldest()
    ensures var cmds := DoCleanKeepingNewest(1, ["web_static_1", "web_static_2"], []);
            |cmds| == 3 && cmds[1] == RemoteRemove("web_static_1")
  {
    assert DropAllButLast(["web_static_1", "web_static_2"], 1) == ["web_static_1"];
  }
}
