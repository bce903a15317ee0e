/**
 * The commands the deployment scripts issue through Fabric, and the
 * "stop at the first failure" discipline of `do_deploy`. Whether a command
 * succeeds is an input: one boolean per step, in order.
 */
module Commands {

  datatype Command =
    | Put(src: string, dst: string)   // upload a local file to the remote host
    | Run(line: string)               // remote shell command
    | RunIn(dir: string, line: string) // remote shell command inside `with cd(dir)`
    | Local(line: string)             // local shell command

  /** What a sequence of steps did: the commands issued and the value returned. */
  datatype Outcome = Outcome(issued: seq<Command>, succeeded: bool)

  /** Every step reported success. */
  predicate AllSucceeded(ok: seq<bool>) {
    forall i :: 0 <= i < |ok| ==> ok[i]
  }

  /**
   * Issue `steps` in order and give up right after the first one that fails,
   * returning False; True only once every step has succeeded. `ok[i]` is the
   * success of step `i` when it is issued.
   */
  function RunSteps(steps: seq<Command>, ok: seq<bool>): (o: Outcome)
    requires |ok| == |steps|
    ensures |o.issued| <= |steps| && o.issued == steps[..|o.issued|]
    ensures forall i :: 0 <= i < |o.issued| - 1 ==> ok[i]
    ensures o.succeeded ==> o.issued == steps
    ensures !o.succeeded ==> |o.issued| > 0 && !ok[|o.issued| - 1]
    ensures o.succeeded <==> AllSucceeded(ok)
  {
    if |steps| == 0 then
      Outcome([], true)
    else if !ok[0] then
      Outcome([steps[0]], false)
    else
      var rest := RunSteps(steps[1..], ok[1..]);
      assert forall i :: 1 <= i < |ok| ==> ok[i] == ok[1..][i - 1];
      Outcome([steps[0]] + rest.issued, rest.succeeded)
  }

  /** Step `i` is issued exactly when every step before it succeeded. */
  lemma IssuedIffEarlierSucceeded(steps: seq<Command>, ok: seq<bool>, i: nat)
    requires |ok| == |steps| && i < |steps|
    ensures i < |RunSteps(steps, ok).issued| <==> forall j :: 0 <= j < i ==> ok[j]
  {
    var o := RunSteps(steps, ok);
    if forall j :: 0 <= j < i ==> ok[j] {
      if !o.succeeded {
        assert !ok[|o.issued| - 1];
      }
    }
  }

  /** When step `k` is the first to fail, exactly steps 0..k are issued and the result is False. */
  lemma StopsAtFirstFailure(steps: seq<Command>, ok: seq<bool>, k: nat)
    requires |ok| == |steps| && k < |steps|
    requires !ok[k] && forall j :: 0 <= j < k ==> ok[j]
    ensures RunSteps(steps, ok) == Outcome(steps[..k + 1], false)
  {
    var o := RunSteps(steps, ok);
    IssuedIffEarlierSucceeded(steps, ok, k);
  }
}
