/**
 * The commit loop of StageCommitPush (util/GenUtil.Git.cs:102-115; MdmGen.cs:109-121
 * is the same loop): every operation of the dictionary is invoked once, in order, and
 * each one that returns true is followed by staging everything and a commit carrying
 * the operation's message.
 */
module Commits {

  /**
   * One entry of the operations dictionary: the commit message (the key) and what the
   * operation (the value) returns when invoked. What the operation does to the files is
   * outside the model.
   */
  datatype Operation = Operation(message: string, succeeds: bool)

  /** The messages of all operations, in dictionary order. */
  function Messages(ops: seq<Operation>): (r: seq<string>)
    ensures |r| == |ops| && forall i | 0 <= i < |ops| :: r[i] == ops[i].message
  {
    if ops == [] then [] else Messages(ops[..|ops| - 1]) + [ops[|ops| - 1].message]
  }

  /** The messages of the operations that return true, in dictionary order. */
  function Committed(ops: seq<Operation>): seq<string> {
    if ops == [] then []
    else Committed(ops[..|ops| - 1]) + (if ops[|ops| - 1].succeeds then [ops[|ops| - 1].message] else [])
  }

  /** The number of operations that return true. */
  function Successes(ops: seq<Operation>): nat {
    if ops == [] then 0 else Successes(ops[..|ops| - 1]) + (if ops[|ops| - 1].succeeds then 1 else 0)
  }

  /**
   * The cloned repository as the loop changes it: the operations invoked so far, the
   * number of `Stage(repo, "*")` calls and the messages of the commits made, oldest first.
   */
  class Repository {
    var invoked: seq<string>
    var stagings: nat
    var log: seq<string>

    constructor (log: seq<string>)
      ensures this.invoked == [] && this.stagings == 0 && this.log == log
    {
      this.invoked := [];
      this.stagings := 0;
      this.log := log;
    }

    /** `actionMessage.Value.Invoke()`. */
    method Invoke(op: Operation) returns (ok: bool)
      modifies this
      ensures ok == op.succeeds
      ensures invoked == old(invoked) + [op.message] && stagings == old(stagings) && log == old(log)
    {
      invoked := invoked + [op.message];
      ok := op.succeeds;
    }

    /** `Commands.Stage(repo, "*")`. */
    method StageAll()
      modifies this
      ensures stagings == old(stagings) + 1 && invoked == old(invoked) && log == old(log)
    {
      stagings := stagings + 1;
    }

    /** `repo.Commit(message, author, committer)`. */
    method Commit(message: string)
      modifies this
      ensures log == old(log) + [message] && invoked == old(invoked) && stagings == old(stagings)
    {
      log := log + [message];
    }

    /**
     * The loop: every operation runs once, in order, and the log gains exactly the
     * messages of the operations that returned true, each after one staging.
     */
    method RunOperations(ops: seq<Operation>)
      modifies this
      ensures invoked == old(invoked) + Messages(ops)
      ensures log == old(log) + Committed(ops)
      ensures stagings == old(stagings) + Successes(ops)
    {
      for i := 0 to |ops|
        invariant invoked == old(invoked) + Messages(ops[..i])
        invariant log == old(log) + Committed(ops[..i])
        invariant stagings == old(stagings) + Successes(ops[..i])
      {
        assert ops[..i + 1][..i] == ops[..i];
        var commit := ops[i].message;
        var ok := Invoke(ops[i]);
        if ok {
          StageAll();
          Commit(commit);
        }
      }
      assert ops[..|ops|] == ops;
    }
  }

  // ---- properties of the loop's result ----

  /**
   * A message is committed exactly when some operation with that message returned
   * true; there are as many commits as successes, never more than operations.
   */
  lemma {:induction false} CommittedSpec(ops: seq<Operation>)
    ensures |Committed(ops)| == Successes(ops) <= |ops|
    ensures forall m :: m in Committed(ops) <==> exists i | 0 <= i < |ops| :: ops[i].message == m && ops[i].succeeds
  {
    if ops != [] {
      var init := ops[..|ops| - 1];
      CommittedSpec(init);
      forall i | 0 <= i < |init| ensures init[i] == ops[i] { }
    }
  }

  /** Commits keep the order of the operations: the commits of a split list are the commits of its parts. */
  lemma {:induction false} CommittedAppend(a: seq<Operation>, b: seq<Operation>)
    ensures Committed(a + b) == Committed(a) + Committed(b)
    decreases |b|
  {
    if b == [] {
      assert a + b == a;
    } else {
      var b' := b[..|b| - 1];
      assert (a + b)[..|a + b| - 1] == a + b';
      CommittedAppend(a, b');
    }
  }

  /** When every operation returns true, every message is committed, in dictionary order. */
  lemma {:induction false} AllSucceedCommitsAll(ops: seq<Operation>)
    requires forall i | 0 <= i < |ops| :: ops[i].succeeds
    ensures Committed(ops) == Messages(ops)
  {
    if ops != [] {
      var init := ops[..|ops| - 1];
      assert forall i | 0 <= i < |init| :: init[i] == ops[i];
      AllSucceedCommitsAll(init);
    }
  }

  /** When no operation returns true, nothing is committed. */
  lemma {:induction false} NoneSucceedCommitsNothing(ops: seq<Operation>)
    requires forall i | 0 <= i < |ops| :: !ops[i].succeeds
    ensures Committed(ops) == [] && Successes(ops) == 0
  {
    if ops != [] {
      var init := ops[..|ops| - 1];
      assert forall i | 0 <= i < |init| :: init[i] == ops[i];
      NoneSucceedCommitsNothing(init);
    }
  }
}
