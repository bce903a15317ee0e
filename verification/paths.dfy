/**
 * The two POSIX path helpers `do_deploy` uses to derive the release
 * directory from an archive path: `os.path.basename` and `os.path.splitext`.
 */
module Paths {

  /** Index of the last `c` in `s`, or -1 when there is none (Python's `str.rfind`). */
  function LastIndexOf(s: string, c: char): (r: int)
    ensures -1 <= r < |s|
    ensures r >= 0 ==> s[r] == c
    ensures forall j :: r < j < |s| ==> s[j] != c
  {
    if |s| == 0 then -1
    else if s[|s| - 1] == c then |s| - 1
    else LastIndexOf(s[..|s| - 1], c)
  }

  lemma LastIndexOfAt(s: string, c: char, i: int)
    requires 0 <= i < |s| && s[i] == c
    requires forall j :: i < j < |s| ==> s[j] != c
    ensures LastIndexOf(s, c) == i
  {
  }

  lemma LastIndexOfAbsent(s: string, c: char)
    requires c !in s
    ensures LastIndexOf(s, c) == -1
  {
  }

  /**
   * `os.path.basename`: the longest suffix of `p` free of '/'; when it is
   * shorter than `p`, a '/' stands right before it.
   */
  function Basename(p: string): (b: string)
    ensures '/' !in b
    ensures |b| <= |p| && p[|p| - |b|..] == b
    ensures |b| < |p| ==> p[|p| - |b| - 1] == '/'
  {
    var i := LastIndexOf(p, '/') + 1;
    assert forall k :: 0 <= k < |p[i..]| ==> p[i..][k] != '/' by {
      forall k | 0 <= k < |p[i..]| ensures p[i..][k] != '/' {
        assert p[i..][k] == p[i + k];
      }
    }
    p[i..]
  }

  /** The basename of `dir/name` is `name`, whatever `dir` is. */
  lemma BasenameOfJoin(dir: string, name: string)
    requires '/' !in name
    ensures Basename(dir + "/" + name) == name
  {
    var p := dir + "/" + name;
    forall j | |dir| < j < |p|
      ensures p[j] != '/'
    {
      assert p[j] == name[j - |dir| - 1];
    }
    LastIndexOfAt(p, '/', |dir|);
    assert p[|dir| + 1..] == name;
  }

  /** Some character of `p[lo..hi]` is not a '.'. */
  predicate HasNonDot(p: string, lo: int, hi: int)
    requires 0 <= lo <= hi <= |p|
  {
    exists k :: lo <= k < hi && p[k] != '.'
  }

  /**
   * `os.path.splitext` on POSIX: `(root, ext)` with `root + ext == p`; `ext`
   * is empty or one '.' followed by neither '.' nor '/'. The last '.' of the
   * final component starts the extension only when some character other
   * than '.' precedes it in that component, so ".bashrc" has none.
   */
  function Splitext(p: string): (r: (string, string))
    ensures r.0 + r.1 == p
    ensures r.1 == [] || (r.1[0] == '.' && '.' !in r.1[1..] && '/' !in r.1)
    ensures r.1 != [] ==> exists j :: LastIndexOf(p, '/') < j < |r.0| && p[j] != '.'
    ensures r.1 == [] ==> forall j :: LastIndexOf(p, '/') < j < LastIndexOf(p, '.') ==> p[j] == '.'
  {
    var sep := LastIndexOf(p, '/');
    var dot := LastIndexOf(p, '.');
    if dot > sep && HasNonDot(p, sep + 1, dot) then
      assert forall k :: 0 <= k < |p[dot..]| ==> p[dot..][k] != '/' && (k > 0 ==> p[dot..][k] != '.') by {
        forall k | 0 <= k < |p[dot..]|
          ensures p[dot..][k] != '/' && (k > 0 ==> p[dot..][k] != '.')
        {
          assert p[dot..][k] == p[dot + k];
        }
      }
      assert p[dot..][1..] == p[dot + 1..];
      (p[..dot], p[dot..])
    else
      (p, [])
  }

  /**
   * A name made of a root holding some character other than '.', then one
   * extension, splits back into exactly that root and extension.
   */
  lemma SplitextOfRootAndExtension(root: string, ext: string)
    requires '/' !in root && HasNonDot(root, 0, |root|)
    requires |ext| > 0 && ext[0] == '.' && '.' !in ext[1..] && '/' !in ext
    ensures Splitext(root + ext) == (root, ext)
  {
    var p := root + ext;
    assert '/' !in p by {
      forall j | 0 <= j < |p| ensures p[j] != '/' {
        if j < |root| { assert p[j] == root[j]; } else { assert p[j] == ext[j - |root|]; }
      }
    }
    LastIndexOfAbsent(p, '/');
    forall j | |root| < j < |p|
      ensures p[j] != '.'
    {
      assert p[j] == ext[1..][j - |root| - 1];
    }
    LastIndexOfAt(p, '.', |root|);
    var k :| 0 <= k < |root| && root[k] != '.';
    assert p[k] == root[k];
    assert HasNonDot(p, 0, |root|);
    assert p[..|root|] == root;
    assert p[|root|..] == ext;
  }

  /** `k` dot characters. */
  function Dots(k: nat): (d: string)
    ensures |d| == k
    ensures forall i :: 0 <= i < k ==> d[i] == '.'
  {
    seq(k, _ => '.')
  }

  /**
   * Leading dots do not start an extension: a name made of one or more
   * dots and then a tail with no '.', such as ".bashrc" or "..bashrc",
   * keeps its whole name as root.
   */
  lemma SplitextLeadingDots(k: nat, tail: string)
    requires k >= 1
    requires '.' !in tail && '/' !in tail
    ensures Splitext(Dots(k) + tail) == (Dots(k) + tail, [])
  {
    var name := Dots(k) + tail;
    forall j | 0 <= j < |name|
      ensures name[j] != '/'
      ensures j >= k ==> name[j] != '.'
      ensures j < k ==> name[j] == '.'
    {
      if j < k { assert name[j] == Dots(k)[j]; } else { assert name[j] == tail[j - k]; }
    }
    LastIndexOfAbsent(name, '/');
    LastIndexOfAt(name, '.', k - 1);
    assert !HasNonDot(name, 0, k - 1);
  }
}
