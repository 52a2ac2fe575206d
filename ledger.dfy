/**
 * The miner server's proof-of-work transaction ledger, as values.
 *
 * A ledger holds the table `id -> (challenge, solution, winner)`, the id of
 * the challenge currently open for mining and the counter that hands out
 * new ids. Every request handler of the server is one atomic step on it: the
 * read handlers are functions of the ledger, `Submit` maps a ledger to a
 * response code and a new ledger. The SHA-1 hex digest is a parameter
 * `hash` (any function from strings to 40 lowercase hex characters), and the
 * difficulty `random.randint(1, 5)` would draw is a parameter `draw`.
 */
module MinerLedger {

  /** Range of the difficulty drawn for a new challenge. */
  const MinChallenge := 1
  const MaxChallenge := 5

  /** Winner slot of a transaction nobody has won yet. */
  const NoWinner := -1

  /** Response codes of SubmitChallenge. */
  const InvalidId := -1
  const Rejected := 0
  const Accepted := 1
  const AlreadySolved := 2

  predicate IsLowerHex(c: char)
  {
    '0' <= c <= '9' || 'a' <= c <= 'f'
  }

  /** A SHA-1 digest as `hexdigest()` renders it. */
  type Digest = s: string | |s| == 40 && forall i :: 0 <= i < |s| ==> IsLowerHex(s[i])
    witness "0000000000000000000000000000000000000000"

  /** The string `'0' * n` (empty when n <= 0). */
  function Zeros(n: int): (z: string)
    ensures |z| == if n <= 0 then 0 else n
    ensures forall i :: 0 <= i < |z| ==> z[i] == '0'
    decreases n
  {
    if n <= 0 then "" else Zeros(n - 1) + "0"
  }

  /** `s.endswith(suffix)` */
  predicate EndsWith(s: string, suffix: string)
  {
    |suffix| <= |s| && s[|s| - |suffix|..] == suffix
  }

  /** The proof-of-work test `hash_hex.endswith('0' * challenge)`. */
  predicate MeetsChallenge(hex: string, challenge: int)
  {
    EndsWith(hex, Zeros(challenge))
  }

  /** The test passes exactly when the last `challenge` characters are all '0'. */
  lemma MeetsChallengeIffTrailingZeros(hex: string, challenge: int)
    ensures MeetsChallenge(hex, challenge) <==>
      (challenge <= |hex| && forall i :: |hex| - challenge <= i < |hex| ==> hex[i] == '0')
  {
  }

  /** A digest meeting a difficulty also meets every lower difficulty. */
  lemma MeetsLowerChallenge(hex: string, hard: int, easy: int)
    requires easy <= hard && MeetsChallenge(hex, hard)
    ensures MeetsChallenge(hex, easy)
  {
  }

  /** One row of the table: `[Challenge, Solution, WinnerClientID]`. */
  datatype Entry = Entry(challenge: int, solution: string, winner: int)

  /** The TransactionDatabase's table and its two counters. */
  datatype Ledger = Ledger(table: map<int, Entry>, current: int, next: int)

  /** A row as create_new_challenge writes it: no solution, no winner. */
  predicate Blank(e: Entry)
  {
    e.solution == "" && e.winner == NoWinner
  }

  /** The ids are exactly 0 .. next - 1, and the current id is the newest. */
  ghost predicate WellFormed(l: Ledger)
  {
    && l.next >= 0
    && l.current == l.next - 1
    && forall t :: t in l.table <==> 0 <= t < l.next
  }

  /**
   * WellFormed, every difficulty was drawn from its range, and the current
   * challenge is still untouched.
   */
  ghost predicate Valid(l: Ledger)
  {
    && WellFormed(l)
    && (forall t :: t in l.table ==> MinChallenge <= l.table[t].challenge <= MaxChallenge)
    && (l.current in l.table ==> Blank(l.table[l.current]))
  }

  /** Every row that is not blank holds a solution that meets its difficulty. */
  ghost predicate Sound(l: Ledger, hash: string -> Digest)
  {
    forall t :: t in l.table ==>
      Blank(l.table[t]) || MeetsChallenge(hash(l.table[t].solution), l.table[t].challenge)
  }

  /** TransactionDatabase.__init__: an empty table and no challenge yet. */
  function Fresh(): (l: Ledger)
    ensures Valid(l)
    ensures forall t :: t !in l.table
    ensures GetTransactionID(l) == -1
  {
    Ledger(map[], -1, 0)
  }

  /**
   * create_new_challenge with `draw` as the difficulty: a blank row under
   * the next id, which becomes the current one.
   */
  function CreateChallenge(l: Ledger, draw: int): (l': Ledger)
    ensures WellFormed(l) ==> WellFormed(l') && l.next !in l.table
    ensures l'.current == l.next && l'.next == l.next + 1
    ensures l'.table.Keys == l.table.Keys + {l.next}
    ensures forall t :: t in l.table && t != l.next ==> l'.table[t] == l.table[t]
    ensures l'.table[l.next] == Entry(draw, "", NoWinner)
    ensures Valid(l) && MinChallenge <= draw <= MaxChallenge ==> Valid(l')
  {
    Ledger(l.table[l.next := Entry(draw, "", NoWinner)], l.next, l.next + 1)
  }

  /** is_valid_tid */
  predicate IsValidTid(l: Ledger, t: int)
  {
    t in l.table
  }

  /** is_solved: a known id whose winner slot is not the sentinel. */
  predicate IsSolved(l: Ledger, t: int)
  {
    IsValidTid(l, t) && l.table[t].winner != NoWinner
  }

  /** GetTransactionID: the current id, -1 before the first challenge. */
  function GetTransactionID(l: Ledger): (tid: int)
    ensures Valid(l) && l.next == 0 ==> tid == -1
    ensures Valid(l) && l.next > 0 ==> IsValidTid(l, tid) && !IsSolved(l, tid)
    ensures Valid(l) ==> forall t :: IsValidTid(l, t) ==> t <= tid
  {
    l.current
  }

  /** GetChallenge: the stored difficulty, or -1 for an unknown id. */
  function GetChallenge(l: Ledger, t: int): (challenge: int)
    ensures IsValidTid(l, t) ==> challenge == l.table[t].challenge
    ensures !IsValidTid(l, t) ==> challenge == -1
    ensures Valid(l) ==> (challenge == -1 <==> !IsValidTid(l, t))
    ensures Valid(l) && IsValidTid(l, t) ==> MinChallenge <= challenge <= MaxChallenge
  {
    if !IsValidTid(l, t) then -1 else l.table[t].challenge
  }

  /** GetTransactionStatus: -1 unknown, 0 solved, 1 pending. */
  function GetTransactionStatus(l: Ledger, t: int): (status: int)
    ensures status == -1 <==> !IsValidTid(l, t)
    ensures status == 0 <==> IsSolved(l, t)
    ensures status == 1 <==> IsValidTid(l, t) && !IsSolved(l, t)
  {
    if !IsValidTid(l, t) then -1
    else if IsSolved(l, t) then 0
    else 1
  }

  /**
   * GetWinner: -1 unknown, 0 while nobody has won, otherwise the winner.
   * A winner whose client id is 0 is reported exactly like "nobody yet".
   */
  function GetWinner(l: Ledger, t: int): (clientId: int)
    ensures clientId == -1 <==> !IsValidTid(l, t)
    ensures IsSolved(l, t) ==> clientId == l.table[t].winner
    ensures clientId == 0 <==> IsValidTid(l, t) && (!IsSolved(l, t) || l.table[t].winner == 0)
  {
    if !IsValidTid(l, t) then -1
    else
      var winner := l.table[t].winner;
      if winner == NoWinner then 0 else winner
  }

  /** The fields of a SolutionResponse. */
  datatype SolutionResponse = SolutionResponse(status: int, solution: string, challenge: int)

  /**
   * GetSolution: status -1 with empty data for an unknown id, otherwise
   * status 1 with the stored solution (empty while unsolved) and difficulty.
   */
  function GetSolution(l: Ledger, t: int): (r: SolutionResponse)
    ensures r.status == -1 <==> !IsValidTid(l, t)
    ensures !IsValidTid(l, t) ==> r == SolutionResponse(-1, "", 0)
    ensures IsValidTid(l, t) ==>
      r.status == 1 && r.solution == l.table[t].solution && r.challenge == GetChallenge(l, t)
  {
    if !IsValidTid(l, t) then SolutionResponse(-1, "", 0)
    else
      var e := l.table[t];
      SolutionResponse(1, e.solution, e.challenge)
  }

  /**
   * Lines 157-158 of the accept path: the row of a known id takes the
   * solution and the winner; nothing else changes.
   */
  function Record(l: Ledger, t: int, clientId: int, solution: string): (l': Ledger)
    requires IsValidTid(l, t)
    ensures l'.current == l.current && l'.next == l.next && l'.table.Keys == l.table.Keys
    ensures l'.table[t] == Entry(l.table[t].challenge, solution, clientId)
    ensures forall u :: u in l.table && u != t ==> l'.table[u] == l.table[u]
  {
    l.(table := l.table[t := l.table[t].(solution := solution, winner := clientId)])
  }

  /**
   * SubmitChallenge as one atomic step: the response code and the ledger
   * afterwards. `draw` is the difficulty of the challenge opened when the
   * submission is accepted.
   */
  function Submit(l: Ledger, hash: string -> Digest, t: int, clientId: int, solution: string, draw: int)
    : (r: (int, Ledger))
    ensures r.0 == InvalidId <==> !IsValidTid(l, t)
    ensures r.0 == AlreadySolved <==> IsSolved(l, t)
    ensures r.0 == Rejected <==>
      IsValidTid(l, t) && !IsSolved(l, t) && !MeetsChallenge(hash(solution), l.table[t].challenge)
    ensures r.0 == Accepted <==>
      IsValidTid(l, t) && !IsSolved(l, t) && MeetsChallenge(hash(solution), l.table[t].challenge)
    ensures r.0 != Accepted ==> r.1 == l
  {
    if !IsValidTid(l, t) then (InvalidId, l)
    else if IsSolved(l, t) then (AlreadySolved, l)
    else
      var e := l.table[t];
      if !MeetsChallenge(hash(solution), e.challenge) then (Rejected, l)
      else
        (Accepted, CreateChallenge(Record(l, t, clientId, solution), draw))
  }

  /**
   * What an accepted submission does: it records solution and winner in its
   * row, opens exactly one new blank challenge under the old `next`, which
   * becomes current and exceeds the solved id, and leaves every other row
   * as it was.
   */
  lemma AcceptedSubmission(l: Ledger, hash: string -> Digest, t: int, clientId: int, solution: string, draw: int)
    requires WellFormed(l)
    requires Submit(l, hash, t, clientId, solution, draw).0 == Accepted
    ensures var l' := Submit(l, hash, t, clientId, solution, draw).1;
      && WellFormed(l')
      && l'.table[t] == Entry(l.table[t].challenge, solution, clientId)
      && l'.table[l.next] == Entry(draw, "", NoWinner)
      && l'.current == l.next && l'.next == l.next + 1 && t < l'.current
      && l'.table.Keys == l.table.Keys + {l.next}
      && (forall u :: u in l.table && u != t ==> l'.table[u] == l.table[u])
  {
  }

  /** Every submission keeps the invariants and removes no row. */
  lemma SubmitPreservesInvariants(l: Ledger, hash: string -> Digest, t: int, clientId: int, solution: string, draw: int)
    requires Valid(l) && Sound(l, hash)
    requires MinChallenge <= draw <= MaxChallenge
    ensures var l' := Submit(l, hash, t, clientId, solution, draw).1;
      Valid(l') && Sound(l', hash) && l.table.Keys <= l'.table.Keys && l.next <= l'.next
  {
  }

  /** A solved row is final: no submission changes it, and a submission for it gets 2. */
  lemma SubmitKeepsSolved(l: Ledger, hash: string -> Digest, t: int, clientId: int, solution: string, draw: int, u: int)
    requires WellFormed(l) && IsSolved(l, u)
    ensures var r := Submit(l, hash, t, clientId, solution, draw);
      && WellFormed(r.1)
      && u in r.1.table && r.1.table[u] == l.table[u]
      && (t == u ==> r.0 == AlreadySolved)
  {
  }

  /**
   * An accepted submission with a real client id closes its round: the id
   * reports status 0 and its winner, and every later submission for it gets 2.
   */
  lemma AcceptanceClosesRound(
    l: Ledger, hash: string -> Digest, t: int, clientId: int, solution: string, draw: int,
    clientId2: int, solution2: string, draw2: int)
    requires WellFormed(l) && clientId != NoWinner
    requires Submit(l, hash, t, clientId, solution, draw).0 == Accepted
    ensures var l' := Submit(l, hash, t, clientId, solution, draw).1;
      && GetTransactionStatus(l', t) == 0
      && (clientId != 0 ==> GetWinner(l', t) == clientId)
      && GetSolution(l', t) == SolutionResponse(1, solution, l.table[t].challenge)
      && GetTransactionID(l') > t
      && Submit(l', hash, t, clientId2, solution2, draw2).0 == AlreadySolved
  {
  }

  /**
   * An accepted submission whose client id is -1 stores the solution and
   * opens a new challenge, yet leaves its id pending: the same valid
   * solution is accepted again.
   */
  lemma AcceptanceWithoutWinnerStaysPending(
    l: Ledger, hash: string -> Digest, t: int, solution: string, draw: int,
    clientId2: int, draw2: int)
    requires WellFormed(l)
    requires Submit(l, hash, t, NoWinner, solution, draw).0 == Accepted
    ensures var l' := Submit(l, hash, t, NoWinner, solution, draw).1;
      && GetTransactionStatus(l', t) == 1
      && GetWinner(l', t) == 0
      && GetTransactionID(l') != t
      && Submit(l', hash, t, clientId2, solution, draw2).0 == Accepted
  {
  }

  /**
   * GetWinner cannot tell a winner with client id 0 from no winner at all,
   * although the status handler can.
   */
  lemma WinnerZeroLooksUnsolved(l: Ledger, t: int)
    requires IsValidTid(l, t)
    ensures var won := l.(table := l.table[t := l.table[t].(winner := 0)]);
      var open := l.(table := l.table[t := l.table[t].(winner := NoWinner)]);
      && GetWinner(won, t) == GetWinner(open, t) == 0
      && GetTransactionStatus(won, t) == 0 && GetTransactionStatus(open, t) == 1
  {
  }

  /** A submission as a client sends it, with the difficulty drawn if it is accepted. */
  datatype Request = Request(t: int, clientId: int, solution: string, draw: int)

  /** The response codes and the final ledger of a sequence of submissions. */
  function Run(l: Ledger, hash: string -> Digest, reqs: seq<Request>): (r: (seq<int>, Ledger))
    ensures |r.0| == |reqs|
    decreases |reqs|
  {
    if reqs == [] then ([], l)
    else
      var q := reqs[0];
      var step := Submit(l, hash, q.t, q.clientId, q.solution, q.draw);
      var rest := Run(step.1, hash, reqs[1..]);
      ([step.0] + rest.0, rest.1)
  }

  /** The first step of a run, and the rest of it. */
  lemma RunUnfold(l: Ledger, hash: string -> Digest, reqs: seq<Request>)
    requires reqs != []
    ensures var q := reqs[0];
      var step := Submit(l, hash, q.t, q.clientId, q.solution, q.draw);
      var rest := Run(step.1, hash, reqs[1..]);
      && Run(l, hash, reqs).0[0] == step.0
      && Run(l, hash, reqs).1 == rest.1
      && forall k :: 1 <= k < |reqs| ==> Run(l, hash, reqs).0[k] == rest.0[k - 1]
  {
  }

  /** Once solved, a row never changes and every later submission for it gets 2. */
  lemma {:induction false} RunKeepsSolved(l: Ledger, hash: string -> Digest, reqs: seq<Request>, u: int)
    requires WellFormed(l) && IsSolved(l, u)
    ensures var r := Run(l, hash, reqs);
      && WellFormed(r.1) && u in r.1.table && r.1.table[u] == l.table[u]
      && forall k :: 0 <= k < |reqs| && reqs[k].t == u ==> r.0[k] == AlreadySolved
    decreases |reqs|
  {
    if reqs != [] {
      var q := reqs[0];
      var step := Submit(l, hash, q.t, q.clientId, q.solution, q.draw);
      SubmitKeepsSolved(l, hash, q.t, q.clientId, q.solution, q.draw, u);
      RunKeepsSolved(step.1, hash, reqs[1..], u);
      RunUnfold(l, hash, reqs);
      var r := Run(l, hash, reqs);
      forall k | 0 <= k < |reqs| && reqs[k].t == u ensures r.0[k] == AlreadySolved {
        if k > 0 {
          assert reqs[1..][k - 1] == reqs[k];
        }
      }
    }
  }

  /**
   * At most one acceptance per id: when two submissions for the same id are
   * both accepted, the earlier one carried client id -1 and so recorded no
   * winner.
   */
  lemma {:induction false} AtMostOneAcceptance(l: Ledger, hash: string -> Digest, reqs: seq<Request>, i: int, j: int)
    requires WellFormed(l)
    requires 0 <= i < j < |reqs| && reqs[i].t == reqs[j].t
    requires Run(l, hash, reqs).0[i] == Accepted && Run(l, hash, reqs).0[j] == Accepted
    ensures reqs[i].clientId == NoWinner
    decreases i
  {
    var q := reqs[0];
    var step := Submit(l, hash, q.t, q.clientId, q.solution, q.draw);
    RunUnfold(l, hash, reqs);
    if step.0 == Accepted {
      AcceptedSubmission(l, hash, q.t, q.clientId, q.solution, q.draw);
    }
    assert WellFormed(step.1);
    if i == 0 {
      if q.clientId != NoWinner {
        assert IsSolved(step.1, q.t);
        assert reqs[1..][j - 1] == reqs[j];
        RunKeepsSolved(step.1, hash, reqs[1..], q.t);
        assert false;
      }
    } else {
      assert reqs[1..][i - 1] == reqs[i] && reqs[1..][j - 1] == reqs[j];
      AtMostOneAcceptance(step.1, hash, reqs[1..], i - 1, j - 1);
    }
  }

  /** Every id below the current one has a winner. */
  ghost predicate ClosedRounds(l: Ledger)
  {
    forall t :: 0 <= t < l.current ==> IsSolved(l, t)
  }

  /**
   * With real client ids the only id that can be won is the current one, and
   * winning it closes its round.
   */
  lemma SubmitClosesRounds(l: Ledger, hash: string -> Digest, t: int, clientId: int, solution: string, draw: int)
    requires WellFormed(l) && ClosedRounds(l) && clientId != NoWinner
    ensures var r := Submit(l, hash, t, clientId, solution, draw);
      WellFormed(r.1) && ClosedRounds(r.1) && (r.0 == Accepted ==> t == l.current)
  {
    var r := Submit(l, hash, t, clientId, solution, draw);
    if r.0 == Accepted {
      AcceptedSubmission(l, hash, t, clientId, solution, draw);
      forall u | 0 <= u < r.1.current ensures IsSolved(r.1, u) {
        if u != t {
          assert IsSolved(l, u);
        }
      }
    }
  }

  /**
   * When no client submits with id -1, a run keeps exactly one pending id,
   * the current one: every earlier id stays won.
   */
  lemma {:induction false} RunClosesRounds(l: Ledger, hash: string -> Digest, reqs: seq<Request>)
    requires WellFormed(l) && ClosedRounds(l)
    requires forall k :: 0 <= k < |reqs| ==> reqs[k].clientId != NoWinner
    ensures WellFormed(Run(l, hash, reqs).1) && ClosedRounds(Run(l, hash, reqs).1)
    decreases |reqs|
  {
    if reqs != [] {
      var q := reqs[0];
      var step := Submit(l, hash, q.t, q.clientId, q.solution, q.draw);
      SubmitClosesRounds(l, hash, q.t, q.clientId, q.solution, q.draw);
      assert forall k :: 0 <= k < |reqs[1..]| ==> reqs[1..][k] == reqs[k + 1];
      RunClosesRounds(step.1, hash, reqs[1..]);
      RunUnfold(l, hash, reqs);
    }
  }

  /**
   * Any run keeps the invariants, removes no row and never lowers the id
   * counter, so an id once valid stays valid and a negative id never is.
   */
  lemma {:induction false} RunPreservesInvariants(l: Ledger, hash: string -> Digest, reqs: seq<Request>)
    requires Valid(l) && Sound(l, hash)
    requires forall k :: 0 <= k < |reqs| ==> MinChallenge <= reqs[k].draw <= MaxChallenge
    ensures var l' := Run(l, hash, reqs).1;
      Valid(l') && Sound(l', hash) && l.table.Keys <= l'.table.Keys && l.next <= l'.next
    decreases |reqs|
  {
    if reqs != [] {
      var q := reqs[0];
      var step := Submit(l, hash, q.t, q.clientId, q.solution, q.draw);
      SubmitPreservesInvariants(l, hash, q.t, q.clientId, q.solution, q.draw);
      assert forall k :: 0 <= k < |reqs[1..]| ==> reqs[1..][k] == reqs[k + 1];
      RunPreservesInvariants(step.1, hash, reqs[1..]);
      RunUnfold(l, hash, reqs);
    }
  }

  /** An id that is never created answers every query with its "invalid" code. */
  lemma UnknownIdAnswers(l: Ledger, hash: string -> Digest, t: int, clientId: int, solution: string, draw: int)
    requires !IsValidTid(l, t)
    ensures GetChallenge(l, t) == -1
    ensures GetTransactionStatus(l, t) == -1
    ensures GetWinner(l, t) == -1
    ensures GetSolution(l, t) == SolutionResponse(-1, "", 0)
    ensures Submit(l, hash, t, clientId, solution, draw) == (InvalidId, l)
  {
  }

  /**
   * The accept path as written stops after recording (the roll-over at line
   * 162 blocks on the lock, which it still holds). The current id stays the
   * newest row and no new row is opened, while the read handlers that take no
   * lock (GetTransactionStatus, GetWinner, GetSolution) already report that
   * id won; GetTransactionID, which takes the lock, waits forever.
   */
  lemma RecordWithoutRolloverStrandsCurrent(l: Ledger, clientId: int, solution: string)
    requires Valid(l) && l.next > 0 && clientId != NoWinner
    ensures var l' := Record(l, l.current, clientId, solution);
      && l'.current == l.current && l'.next == l.next && l'.table.Keys == l.table.Keys
      && GetTransactionStatus(l', l.current) == 0
      && (clientId != 0 ==> GetWinner(l', l.current) == clientId)
      && GetSolution(l', l.current).solution == solution
      && !Valid(l')
  {
  }

  /**
   * The bootstrap scenario: the server opens challenge 0 with difficulty 1,
   * client 42 submits "abc123" whose digest ends in a zero and wins it.
   */
  lemma BootstrapScenario(hash: string -> Digest, draw: int)
    requires MeetsChallenge(hash("abc123"), 1)
    ensures var l0 := CreateChallenge(Fresh(), 1);
      var r := Submit(l0, hash, 0, 42, "abc123", draw);
      && GetTransactionID(l0) == 0
      && r.0 == Accepted
      && GetWinner(r.1, 0) == 42
      && GetSolution(r.1, 0) == SolutionResponse(1, "abc123", 1)
      && GetTransactionStatus(r.1, 0) == 0
      && GetTransactionID(r.1) == 1
  {
  }
}
