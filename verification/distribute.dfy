/**
 * `do_deploy`: upload an archive and install it as the current release
 * through eight remote steps, stopping at the first one that fails.
 * 3-deploy_web_static.py holds the intended version; 2-do_deploy_web_static.py
 * differs only in the directory its `mkdir -p` step creates.
 */
module Distribute {
  import opened Commands
  import Paths

  const ReleasesDir := "/data/web_static/releases/"
  const CurrentLink := "/data/web_static/current"
  const StepCount := 8

  /** `os.path.basename(archive_path)`, the name the upload has under /tmp/. */
  function ArchiveName(archivePath: string): string {
    Paths.Basename(archivePath)
  }

  /** `os.path.splitext(archive_name)[0]`, the release directory's name. */
  function ReleaseName(archivePath: string): string {
    Paths.Splitext(ArchiveName(archivePath)).0
  }

  /** `/data/web_static/releases/<release name>`. */
  function ReleasePath(archivePath: string): string {
    ReleasesDir + ReleaseName(archivePath)
  }

  /**
   * The eight steps of `do_deploy` in order, given the directory its
   * `mkdir -p` creates: upload the archive to /tmp/, create `mkdirTarget`,
   * extract into the release directory, delete the upload, move the
   * contents of web_static/ up one level, delete the emptied web_static/,
   * then replace the `current` link with one to the release directory.
   * Every step after the upload is a remote shell line.
   */
  function Steps(archivePath: string, mkdirTarget: string): (s: seq<Command>)
    ensures |s| == StepCount
    ensures s[0] == Put(archivePath, "/tmp/")
    ensures forall i :: 1 <= i < |s| ==> s[i].Run?
    ensures s[1] == Run("mkdir -p " + mkdirTarget)
    ensures s[2] == Run("tar -xzf /tmp/" + ArchiveName(archivePath) + " -C " + ReleasePath(archivePath) + "/")
    ensures s[3] == Run("rm /tmp/" + ArchiveName(archivePath))
    ensures s[4] == Run("mv " + ReleasePath(archivePath) + "/web_static/* " + ReleasePath(archivePath) + "/")
    ensures s[5] == Run("rm -rf " + ReleasePath(archivePath) + "/web_static")
    ensures s[6] == Run("rm -rf " + CurrentLink)
    ensures s[7] == Run("ln -s " + ReleasePath(archivePath) + "/ " + CurrentLink)
  {
    var name := ArchiveName(archivePath);
    var release := ReleasePath(archivePath);
    var extract := "tar -xzf /tmp/" + name + " -C " + release + "/";
    var unlink := "rm /tmp/" + name;
    var flatten := "mv " + release + "/web_static/* " + release + "/";
    var prune := "rm -rf " + release + "/web_static";
    var link := "ln -s " + release + "/ " + CurrentLink;
    [ Put(archivePath, "/tmp/"),
      Run("mkdir -p " + mkdirTarget),
      Run(extract),
      Run(unlink),
      Run(flatten),
      Run(prune),
      Run("rm -rf " + CurrentLink),
      Run(link) ]
  }

  /** Only the `mkdir -p` step depends on the directory it is given. */
  lemma StepsDifferOnlyInMkdir(archivePath: string, target1: string, target2: string)
    ensures forall i :: 0 <= i < StepCount && i != 1 ==> Steps(archivePath, target1)[i] == Steps(archivePath, target2)[i]
    ensures Steps(archivePath, target1) == Steps(archivePath, target2) <==> target1 == target2
  {
    var s1 := Steps(archivePath, target1);
    var s2 := Steps(archivePath, target2);
    if s1 == s2 {
      assert s1[1].line == s2[1].line;
      assert target1 == s1[1].line[|"mkdir -p "|..];
      assert target2 == s2[1].line[|"mkdir -p "|..];
    }
  }

  /**
   * The steps of 3-deploy_web_static.py: `mkdir -p` creates the release
   * directory, and every other step is the one 2-do_deploy_web_static.py
   * issues.
   */
  function DeploySteps(archivePath: string): (s: seq<Command>)
    ensures |s| == StepCount
    ensures s[1] == Run("mkdir -p " + ReleasePath(archivePath))
    ensures forall i :: 0 <= i < StepCount && i != 1 ==> s[i] == DeployStepsV2(archivePath)[i]
  {
    StepsDifferOnlyInMkdir(archivePath, ReleasePath(archivePath), ReleasePath(archivePath) + ReleaseName(archivePath));
    Steps(archivePath, ReleasePath(archivePath))
  }

  /**
   * The steps of 2-do_deploy_web_static.py as written: `mkdir -p` gets the
   * release name twice, while `tar -C` still extracts into the release
   * directory.
   */
  function DeployStepsV2(archivePath: string): (s: seq<Command>)
    ensures |s| == StepCount
    ensures s[1] == Run("mkdir -p " + (ReleasePath(archivePath) + ReleaseName(archivePath)))
    ensures s[2] == Run("tar -xzf /tmp/" + ArchiveName(archivePath) + " -C " + ReleasePath(archivePath) + "/")
  {
    Steps(archivePath, ReleasePath(archivePath) + ReleaseName(archivePath))
  }

  /**
   * Nothing is issued for an archive that does not exist; otherwise the
   * steps run until the first failure. True only when the archive exists
   * and every step succeeded.
   */
  function Attempt(steps: seq<Command>, archiveExists: bool, ok: seq<bool>): (o: Outcome)
    requires |ok| == |steps|
    ensures !archiveExists ==> o.issued == [] && !o.succeeded
    ensures |o.issued| <= |steps| && o.issued == steps[..|o.issued|]
    ensures o.succeeded <==> archiveExists && AllSucceeded(ok)
    ensures o.succeeded ==> o.issued == steps
    ensures forall i :: 0 <= i < |o.issued| - 1 ==> ok[i]
    ensures archiveExists && !o.succeeded ==> |o.issued| > 0 && !ok[|o.issued| - 1]
  {
    if !archiveExists then Outcome([], false) else RunSteps(steps, ok)
  }

  /** `do_deploy` of 3-deploy_web_static.py. */
  function DoDeploy(archivePath: string, archiveExists: bool, ok: seq<bool>): (o: Outcome)
    requires |ok| == StepCount
    ensures !archiveExists ==> o.issued == [] && !o.succeeded
    ensures |o.issued| <= StepCount && o.issued == DeploySteps(archivePath)[..|o.issued|]
    ensures o.succeeded <==> archiveExists && AllSucceeded(ok)
    ensures o.succeeded ==> o.issued == DeploySteps(archivePath)
    ensures forall i :: 0 <= i < |o.issued| - 1 ==> ok[i]
    ensures archiveExists && !o.succeeded ==> |o.issued| > 0 && !ok[|o.issued| - 1]
  {
    Attempt(DeploySteps(archivePath), archiveExists, ok)
  }

  /** `do_deploy` of 2-do_deploy_web_static.py, as written. */
  function DoDeployV2(archivePath: string, archiveExists: bool, ok: seq<bool>): (o: Outcome)
    requires |ok| == StepCount
    ensures !archiveExists ==> o.issued == [] && !o.succeeded
    ensures |o.issued| <= StepCount && o.issued == DeployStepsV2(archivePath)[..|o.issued|]
    ensures o.succeeded <==> archiveExists && AllSucceeded(ok)
    ensures o.succeeded ==> o.issued == DeployStepsV2(archivePath)
    ensures forall i :: 0 <= i < |o.issued| - 1 ==> ok[i]
    ensures archiveExists && !o.succeeded ==> |o.issued| > 0 && !ok[|o.issued| - 1]
  {
    Attempt(DeployStepsV2(archivePath), archiveExists, ok)
  }

  /**
   * When step `k` is the first to fail, `do_deploy` returns False having
   * issued steps 0..k and nothing after.
   */
  lemma DeployStopsAtFirstFailure(archivePath: string, ok: seq<bool>, k: nat)
    requires |ok| == StepCount && k < StepCount
    requires !ok[k] && forall j :: 0 <= j < k ==> ok[j]
    ensures DoDeploy(archivePath, true, ok) == Outcome(DeploySteps(archivePath)[..k + 1], false)
    ensures DoDeployV2(archivePath, true, ok) == Outcome(DeployStepsV2(archivePath)[..k + 1], false)
  {
    StopsAtFirstFailure(DeploySteps(archivePath), ok, k);
    StopsAtFirstFailure(DeployStepsV2(archivePath), ok, k);
  }

  /**
   * The `current` link is created only after the old one was removed
   * successfully, and it points at the release directory.
   */
  lemma LinkOnlyAfterCurrentRemoved(archivePath: string, archiveExists: bool, ok: seq<bool>)
    requires |ok| == StepCount
    ensures var o := DoDeploy(archivePath, archiveExists, ok);
            |o.issued| == StepCount ==>
              && ok[6] && o.issued[6] == Run("rm -rf " + CurrentLink)
              && o.issued[7] == Run("ln -s " + ReleasePath(archivePath) + "/ " + CurrentLink)
  {
    var o := DoDeploy(archivePath, archiveExists, ok);
    if |o.issued| == StepCount {
      assert o.issued == DeploySteps(archivePath);
    }
  }

  /** The same ordering holds in 2-do_deploy_web_static.py. */
  lemma LinkOnlyAfterCurrentRemovedV2(archivePath: string, archiveExists: bool, ok: seq<bool>)
    requires |ok| == StepCount
    ensures var o := DoDeployV2(archivePath, archiveExists, ok);
            |o.issued| == StepCount ==>
              && ok[6] && o.issued[6] == Run("rm -rf " + CurrentLink)
              && o.issued[7] == Run("ln -s " + ReleasePath(archivePath) + "/ " + CurrentLink)
  {
    var o := DoDeployV2(archivePath, archiveExists, ok);
    if |o.issued| == StepCount {
      assert o.issued == DeployStepsV2(archivePath);
    }
  }

  /**
   * In 3-deploy_web_static.py the directory `mkdir -p` creates is the one
   * `tar -C` extracts into, less the trailing '/'.
   */
  lemma MkdirCreatesTarDirectory(archivePath: string)
    ensures var steps := DeploySteps(archivePath);
            var made := steps[1].line[|"mkdir -p "|..];
            && steps[1] == Run("mkdir -p " + made)
            && steps[2] == Run("tar -xzf /tmp/" + ArchiveName(archivePath) + " -C " + made + "/")
  {
    var steps := DeploySteps(archivePath);
    assert steps[1].line[|"mkdir -p "|..] == ReleasePath(archivePath);
  }

  /**
   * In 2-do_deploy_web_static.py, whenever the release name is non-empty,
   * `mkdir -p` creates a directory other than the one `tar -C` extracts into.
   */
  lemma MkdirMissesTarDirectoryV2(archivePath: string)
    requires ReleaseName(archivePath) != ""
    ensures var steps := DeployStepsV2(archivePath);
            var made := steps[1].line[|"mkdir -p "|..];
            && steps[1] == Run("mkdir -p " + made)
            && made == ReleasePath(archivePath) + ReleaseName(archivePath)
            && steps[2] != Run("tar -xzf /tmp/" + ArchiveName(archivePath) + " -C " + made + "/")
  {
    var steps := DeployStepsV2(archivePath);
    var made := steps[1].line[|"mkdir -p "|..];
    assert made == ReleasePath(archivePath) + ReleaseName(archivePath);
    var tarLine := "tar -xzf /tmp/" + ArchiveName(archivePath) + " -C " + ReleasePath(archivePath) + "/";
    assert steps[2].line == tarLine;
    assert |tarLine| < |"tar -xzf /tmp/" + ArchiveName(archivePath) + " -C " + made + "/"|;
  }

  /**
   * The release directory of `<dir>/<root><ext>` is
   * /data/web_static/releases/<root>, for a root with a character other
   * than '.' and a single extension.
   */
  lemma ReleasePathOfArchive(dir: string, root: string, ext: string)
    requires '/' !in root && Paths.HasNonDot(root, 0, |root|)
    requires |ext| > 0 && ext[0] == '.' && '.' !in ext[1..] && '/' !in ext
    ensures ArchiveName(dir + "/" + root + ext) == root + ext
    ensures ReleasePath(dir + "/" + root + ext) == ReleasesDir + root
  {
    assert '/' !in root + ext by {
      forall j | 0 <= j < |root + ext| ensures (root + ext)[j] != '/' {
        if j < |root| { assert (root + ext)[j] == root[j]; } else { assert (root + ext)[j] == ext[j - |root|]; }
      }
    }
    assert dir + "/" + root + ext == dir + "/" + (root + ext);
    Paths.BasenameOfJoin(dir, root + ext);
    Paths.SplitextOfRootAndExtension(root, ext);
  }
}
