/**
 * The miner server's state as the source keeps it: a TransactionDatabase
 * object whose table and counters are updated in place, and the servicer
 * whose SubmitChallenge is the one write path. Both operations are proved
 * against the ledger functions of MinerLedger; the read handlers are those
 * functions applied to `db.State()`, each one atomic step.
 */
module MinerServer {
  import opened MinerLedger

  class TransactionDatabase {
    var table: map<int, Entry>
    var currentTransactionId: int
    var nextTransactionId: int

    /** The database as a ledger value. */
    function State(): (l: Ledger)
      reads this
      ensures l.table == table && l.current == currentTransactionId && l.next == nextTransactionId
    {
      Ledger(table, currentTransactionId, nextTransactionId)
    }

    constructor ()
      ensures State() == Fresh()
    {
      table := map[];
      currentTransactionId := -1;
      nextTransactionId := 0;
    }

    /**
     * create_new_challenge: draws a difficulty in [1, 5], stores a blank row
     * under the next id, makes it current and advances the counter.
     */
    method CreateNewChallenge() returns (tId: int, challenge: int)
      modifies this
      ensures MinChallenge <= challenge <= MaxChallenge
      ensures tId == old(nextTransactionId)
      ensures nextTransactionId == old(nextTransactionId) + 1
      ensures currentTransactionId == tId
      ensures table == old(table)[tId := Entry(challenge, "", NoWinner)]
      ensures State() == CreateChallenge(old(State()), challenge)
      ensures Valid(old(State())) ==> Valid(State())
    {
      tId := nextTransactionId;
      challenge :| MinChallenge <= challenge <= MaxChallenge;
      table := table[tId := Entry(challenge, "", NoWinner)];
      currentTransactionId := tId;
      nextTransactionId := nextTransactionId + 1;
    }
  }

  class MinerServicer {
    /** The shared database (the module-level `DB` of the source). */
    const db: TransactionDatabase
    /** `hashlib.sha1(s.encode('utf-8')).hexdigest()` */
    const sha1: string -> Digest

    /** The database keeps its invariants and every recorded solution is a valid proof of work. */
    ghost predicate Valid()
      reads db
    {
      MinerLedger.Valid(db.State()) && Sound(db.State(), sha1)
    }

    constructor (db: TransactionDatabase, sha1: string -> Digest)
      requires MinerLedger.Valid(db.State()) && Sound(db.State(), sha1)
      ensures this.db == db && this.sha1 == sha1
      ensures Valid()
    {
      this.db := db;
      this.sha1 := sha1;
    }

    /**
     * SubmitChallenge: -1 for an unknown id, 2 for a solved one, 0 when the
     * digest misses the difficulty; otherwise records solution and winner,
     * opens the next challenge and answers 1. `draw` is the difficulty the
     * new challenge received.
     *
     * The source runs this under `with DB.lock` and then calls
     * create_new_challenge, which takes the same non-reentrant lock again
     * and so blocks forever; the model performs the intended sequence,
     * record and roll over, as one atomic step.
     */
    method SubmitChallenge(tId: int, clientId: int, solution: string) returns (status: int, ghost draw: int)
      requires Valid()
      modifies db
      ensures Valid()
      ensures MinChallenge <= draw <= MaxChallenge
      ensures (status, db.State()) == Submit(old(db.State()), sha1, tId, clientId, solution, draw)
    {
      draw := MinChallenge;
      ghost var before := db.State();
      if !IsValidTid(db.State(), tId) {
        return InvalidId, draw;
      }
      if IsSolved(db.State(), tId) {
        return AlreadySolved, draw;
      }
      var challengeLevel := db.table[tId].challenge;
      var hashHex := sha1(solution);
      var targetZeros := Zeros(challengeLevel);
      if EndsWith(hashHex, targetZeros) {
        db.table := db.table[tId := db.table[tId].(solution := solution)];
        db.table := db.table[tId := db.table[tId].(winner := clientId)];
        assert db.State() == before.(table := before.table[tId := before.table[tId].(solution := solution, winner := clientId)]);
        var _, challenge := db.CreateNewChallenge();
        draw := challenge;
        status := Accepted;
      } else {
        status := Rejected;
      }
      SubmitPreservesInvariants(before, sha1, tId, clientId, solution, draw);
    }
  }
}
