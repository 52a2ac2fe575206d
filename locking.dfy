/**
 * The lock discipline of the miner server's handlers. `threading.Lock` is
 * not reentrant: a thread that acquires it while holding it blocks forever,
 * and releasing it while not holding it raises an error.
 */
module LockDiscipline {

  datatype LockOp = Acquire | Release

  datatype Option<T> = None | Some(value: T)

  /**
   * Runs `ops` from one thread on a lock it holds when `held`. None when the
   * thread blocks on its own lock or releases a lock it does not hold;
   * otherwise whether it holds the lock at the end.
   */
  function Perform(held: bool, ops: seq<LockOp>): (r: Option<bool>)
    ensures r == Some(false) && ops != [] ==> ops[|ops| - 1] == Release
    decreases |ops|
  {
    if ops == [] then Some(held)
    else if ops[0] == Acquire && held then None
    else if ops[0] == Release && !held then None
    else Perform(ops[0] == Acquire, ops[1..])
  }

  /** Lock and unlock taken strictly in turn, ending unlocked. */
  ghost predicate Alternating(ops: seq<LockOp>)
  {
    |ops| % 2 == 0 && forall i :: 0 <= i < |ops| ==> ops[i] == (if i % 2 == 0 then Acquire else Release)
  }

  /**
   * Starting unlocked, a thread finishes with the lock free exactly when it
   * takes and releases the lock strictly in turn.
   */
  lemma {:induction false} CompletesIffAlternating(ops: seq<LockOp>)
    ensures Perform(false, ops) == Some(false) <==> Alternating(ops)
    decreases |ops|
  {
    if |ops| >= 2 {
      var rest := ops[2..];
      CompletesIffAlternating(rest);
      assert ops[2..] == ops[1..][1..];
      if ops[0] == Acquire && ops[1] == Release {
        assert Perform(false, ops) == Perform(false, rest);
        if Alternating(rest) {
          forall i | 0 <= i < |ops| ensures ops[i] == (if i % 2 == 0 then Acquire else Release) {
            if i >= 2 { assert ops[i] == rest[i - 2]; }
          }
        }
        if Alternating(ops) {
          forall i | 0 <= i < |rest| ensures rest[i] == (if i % 2 == 0 then Acquire else Release) {
            assert rest[i] == ops[i + 2];
          }
        }
      } else {
        assert !Alternating(ops) by {
          if ops[0] != Acquire { assert ops[0] == (if 0 % 2 == 0 then Acquire else Release) ==> false; }
          else { assert ops[1] == (if 1 % 2 == 0 then Acquire else Release) ==> false; }
        }
        if ops[0] == Acquire {
          assert Perform(false, ops) == Perform(true, ops[1..]);
          assert ops[1] == Acquire;
        }
      }
    } else if |ops| == 1 {
      assert !Alternating(ops);
    }
  }

  /**
   * The lock operations of SubmitChallenge's accept path as written:
   * `with DB.lock` in the handler, then `with self.lock` inside
   * create_new_challenge, then the two releases.
   */
  const AcceptPathAsWritten: seq<LockOp> := [Acquire, Acquire, Release, Release]

  /** The accept path as one critical section: record the winner and roll over under one acquisition. */
  const AcceptPathAtomic: seq<LockOp> := [Acquire, Release]

  /** As written, every accepted submission blocks its thread on its own lock. */
  lemma AcceptPathAsWrittenBlocks()
    ensures Perform(false, AcceptPathAsWritten) == None
    ensures !Alternating(AcceptPathAsWritten)
  {
  }

  /** With one acquisition the accept path completes and leaves the lock free. */
  lemma AcceptPathAtomicCompletes()
    ensures Perform(false, AcceptPathAtomic) == Some(false)
    ensures Alternating(AcceptPathAtomic)
  {
  }
}
