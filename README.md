# Proof-of-work ledger and integer calculator, in Dafny

This project models the two gRPC servers of the `CalculadoraRPC` repository.

**The miner server** (`MineradorRPC/miner_server.py`) keeps a proof-of-work ledger. A
`TransactionDatabase` holds a table `id -> [challenge, solution, winner]`, the id of the
challenge currently open for mining, and a counter that hands out new ids.
`create_new_challenge` opens a challenge with a difficulty drawn from 1..5. Five read
handlers turn the table into integer codes. `SubmitChallenge` is the only write path. It
answers -1 for an unknown id and 2 for a solved one. It answers 0 when the SHA-1 hex
digest of the candidate does not end in `challenge` zeros. Otherwise it is meant to record
solution and winner, open the next challenge and answer 1. As written it blocks at line
162 instead (see "## Findings"); the model performs the intended step.

**The calculator server** (`CalculadoraRPC/grpcCalc_server.py`) answers `Add`, `Sub`,
`Mul` and `Div` on integers. `Div` uses Python's floor division `//` and answers an
`INVALID_ARGUMENT` error when the divisor is 0.

Files:

- `ledger.dfy`, module `MinerLedger`: the ledger as a value (`Ledger`, `Entry`), its
  invariants (`WellFormed`, `Valid`, `Sound`), every handler as a function, and the
  lemmas about single submissions and about runs of submissions (`Run`).
- `server.dfy`, module `MinerServer`: the classes `TransactionDatabase` and
  `MinerServicer`. The fields are updated in place. `CreateNewChallenge` and
  `SubmitChallenge` are proved against `MinerLedger.CreateChallenge` and
  `MinerLedger.Submit`. A read handler is the `MinerLedger` function of the same name
  applied to `db.State()`; each handler is one atomic step.
- `locking.dfy`, module `LockDiscipline`: what a non-reentrant lock does with a sequence
  of acquire and release operations, used for the finding below.
- `calculator.dfy`, module `Calculator`: the four arithmetic handlers.

Modelling choices:

- SHA-1 is the parameter `hash` / the field `sha1`: any function from strings to
  `Digest`, a string of 40 lowercase hex characters.
- `random.randint(1, 5)` is a nondeterministic choice (`:|`) in `CreateNewChallenge`.
  The ledger functions take the drawn value as the parameter `draw`.
- Integers are unbounded, as Python's are. The protobuf field widths are not part of
  this model.
- A response code is an `int` with the source's values (`InvalidId`, `Rejected`,
  `Accepted`, `AlreadySolved`). The winner slot of a row nobody has won holds the
  sentinel `NoWinner` (-1), which `GetWinner` reports as 0.

Edge cases the model keeps:

- `is_solved` looks only at the winner slot. A submission with client id -1 and a valid
  digest stores its solution and opens a new challenge. Its id stays pending and can be
  accepted again (`AcceptanceWithoutWinnerStaysPending`). "At most one acceptance per
  id" therefore holds only for real client ids (`AtMostOneAcceptance`). The reference
  client draws its id from 100..999.
- `GetWinner` reports a winner with client id 0 as "no winner yet" (`WinnerZeroLooksUnsolved`).
- `GetSolution` answers status 1 for every known id, solved or not.

## Model

| member | source | states |
|---|---|---|
| `MinerLedger.Fresh` | CalculadoraRPC/MineradorRPC/miner_server.py:15-24 | a new database has no rows, current id -1 and next id 0, and satisfies the invariant |
| `MinerLedger.CreateChallenge` | CalculadoraRPC/MineradorRPC/miner_server.py:26-44 | adds exactly one blank row (no solution, winner -1) under the old next id; that id becomes current; the counter goes up by one; other rows are unchanged; on a well-formed ledger the new id was not in use; the invariant is kept when the draw is in 1..5 |
| `MinerServer.TransactionDatabase.constructor` | CalculadoraRPC/MineradorRPC/miner_server.py:15-24 | the object starts in the state `Fresh` describes |
| `MinerServer.TransactionDatabase.CreateNewChallenge` | CalculadoraRPC/MineradorRPC/miner_server.py:26-44 | returns the old next id and a difficulty in 1..5; the new state is `CreateChallenge` of the old one with that difficulty; the invariant is kept |
| `MinerLedger.IsValidTid` | CalculadoraRPC/MineradorRPC/miner_server.py:47-48 | an id is valid exactly when it is a key of the table |
| `MinerLedger.IsSolved` | CalculadoraRPC/MineradorRPC/miner_server.py:51-54 | false for an unknown id; otherwise true exactly when the winner slot is not -1 |
| `MinerLedger.GetTransactionID` | CalculadoraRPC/MineradorRPC/miner_server.py:65-71 | -1 before the first challenge; afterwards a known, pending id that no other id exceeds |
| `MinerLedger.GetChallenge` | CalculadoraRPC/MineradorRPC/miner_server.py:73-81 | -1 exactly for an unknown id, otherwise the stored difficulty, which lies in 1..5 |
| `MinerLedger.GetTransactionStatus` | CalculadoraRPC/MineradorRPC/miner_server.py:83-92 | -1 exactly when unknown, 0 exactly when solved, 1 exactly when known and pending |
| `MinerLedger.GetWinner` | CalculadoraRPC/MineradorRPC/miner_server.py:94-105 | -1 exactly when unknown; the winner when solved; 0 exactly when known and either pending or won by client 0 |
| `MinerLedger.WinnerZeroLooksUnsolved` | CalculadoraRPC/MineradorRPC/miner_server.py:102-105 | a row won by client 0 and a row with no winner give the same GetWinner answer 0, though their statuses differ |
| `MinerLedger.GetSolution` | CalculadoraRPC/MineradorRPC/miner_server.py:107-117 | (-1, "", 0) exactly for an unknown id; otherwise status 1 with the stored solution and difficulty |
| `MinerLedger.Zeros` | CalculadoraRPC/MineradorRPC/miner_server.py:149 | `'0' * n` has length max(n, 0) and holds only '0' characters |
| `MinerLedger.MeetsChallengeIffTrailingZeros` | CalculadoraRPC/MineradorRPC/miner_server.py:145-152 | the `endswith` test passes exactly when the digest's last `challenge` characters are all '0' |
| `MinerLedger.MeetsLowerChallenge` | CalculadoraRPC/MineradorRPC/miner_server.py:149-152 | a digest that meets a difficulty meets every lower one |
| `MinerLedger.Record` | CalculadoraRPC/MineradorRPC/miner_server.py:157-158 | the row of a known id takes the solution and the winner; ids, counters and every other row are unchanged |
| `MinerLedger.RecordWithoutRolloverStrandsCurrent` | CalculadoraRPC/MineradorRPC/miner_server.py:157-162 | if the accept path stops after recording, as it does when line 162 blocks, the current id and the row count stay the same; for a client id other than -1 the lock-free readers report the current id solved, with its winner (when it is not 0) and its solution, and the invariant is broken |
| `MinerLedger.Submit` | CalculadoraRPC/MineradorRPC/miner_server.py:119-168 | -1 exactly for an unknown id, 2 exactly for a solved one (unknown checked first), 0 exactly when the digest misses the difficulty, 1 otherwise; every answer but 1 leaves the state unchanged |
| `MinerLedger.AcceptedSubmission` | CalculadoraRPC/MineradorRPC/miner_server.py:152-164 | an accepted submission sets that row's solution and winner, adds exactly one blank row under the old next id, makes it current (greater than the solved id) and changes no other row |
| `MinerLedger.SubmitPreservesInvariants` | CalculadoraRPC/MineradorRPC/miner_server.py:128-168 | every submission keeps the ids exactly 0..next-1 with current = next-1, keeps difficulties in 1..5, keeps the current row blank, keeps every non-blank row's solution a valid proof of work, and removes no row |
| `MinerLedger.SubmitKeepsSolved` | CalculadoraRPC/MineradorRPC/miner_server.py:129-134 | a solved row is never changed again, and a submission for it answers 2 |
| `MinerLedger.AcceptanceClosesRound` | CalculadoraRPC/MineradorRPC/miner_server.py:152-164 | after acceptance with a client id other than -1: status 0, the winner reported (when not 0), the solution stored, a current id above the solved one, and 2 for every later submission |
| `MinerLedger.AcceptanceWithoutWinnerStaysPending` | CalculadoraRPC/MineradorRPC/miner_server.py:51-54 | after acceptance with client id -1 the id still reports status 1 and winner 0, the current id has moved on, and the same solution is accepted again |
| `MinerLedger.RunKeepsSolved` | CalculadoraRPC/MineradorRPC/miner_server.py:129-134 | over any run of submissions a solved row stays as it was, and every submission for it answers 2 |
| `MinerLedger.AtMostOneAcceptance` | CalculadoraRPC/MineradorRPC/miner_server.py:128-164 | if two submissions for the same id in a run are both accepted, the earlier one carried client id -1 |
| `MinerLedger.SubmitClosesRounds` | CalculadoraRPC/MineradorRPC/miner_server.py:152-162 | with a client id other than -1, only the current id can be accepted, and every id below the current one stays solved |
| `MinerLedger.RunClosesRounds` | CalculadoraRPC/MineradorRPC/miner_server.py:152-162 | in a run where no client id is -1, every id below the current one is solved at the end |
| `MinerLedger.RunPreservesInvariants` | CalculadoraRPC/MineradorRPC/miner_server.py:119-168 | any run of submissions whose roll-overs draw in 1..5 (the range of line 30) keeps the invariants, removes no row and never lowers the id counter |
| `MinerLedger.UnknownIdAnswers` | CalculadoraRPC/MineradorRPC/miner_server.py:73-130 | an unknown id answers -1 to every query and to a submission, and the submission changes nothing |
| `MinerLedger.BootstrapScenario` | CalculadoraRPC/MineradorRPC/miner_server.py:174-176 | after the bootstrap challenge 0 with difficulty 1, client 42 submitting a candidate whose digest ends in a zero is accepted; winner 42, solution and difficulty 1 are reported, status 0, current id 1 |
| `MinerServer.MinerServicer.constructor` | CalculadoraRPC/MineradorRPC/miner_server.py:58 | a servicer over a database that satisfies the invariant and whose stored solutions meet their difficulties starts `Valid` |
| `MinerServer.MinerServicer.SubmitChallenge` | CalculadoraRPC/MineradorRPC/miner_server.py:119-168 | answers and moves to exactly what `Submit` gives for a difficulty drawn in 1..5, and keeps the invariant and the proof-of-work soundness of the stored solutions |
| `LockDiscipline.Perform` | CalculadoraRPC/MineradorRPC/miner_server.py:19-20 | a thread that ends with the lock free after a non-empty sequence of lock operations ended with a release |
| `LockDiscipline.CompletesIffAlternating` | CalculadoraRPC/MineradorRPC/miner_server.py:19-20 | on a non-reentrant lock, a thread starting unlocked finishes unlocked exactly when it acquires and releases strictly in turn |
| `LockDiscipline.AcceptPathAsWrittenBlocks` | CalculadoraRPC/MineradorRPC/miner_server.py:128-162 | the accept path as written (acquire at 128, acquire again at 27) blocks on its own lock |
| `LockDiscipline.AcceptPathAtomicCompletes` | CalculadoraRPC/MineradorRPC/miner_server.py:128-162 | the accept path with one acquisition completes and leaves the lock free |
| `Calculator.Add` | CalculadoraRPC/CalculadoraRPC/grpcCalc_server.py:15-19 | always answers a value, and subtracting y from it gives x back |
| `Calculator.Sub` | CalculadoraRPC/CalculadoraRPC/grpcCalc_server.py:22-25 | always answers a value, and adding y to it gives x back |
| `Calculator.Mul` | CalculadoraRPC/CalculadoraRPC/grpcCalc_server.py:28-31 | always answers a value: 0 when y is 0, otherwise a multiple of y whose floor quotient by y is x |
| `Calculator.MulContractIsProduct` | CalculadoraRPC/CalculadoraRPC/grpcCalc_server.py:30 | the only value Mul's contract admits for a nonzero y is the product x * y |
| `Calculator.MulStep` | CalculadoraRPC/CalculadoraRPC/grpcCalc_server.py:30 | raising y by one raises Mul's value by x; with Mul(x, 0) == 0 this is multiplication as repeated addition |
| `Calculator.DivUndoesMul` | CalculadoraRPC/CalculadoraRPC/grpcCalc_server.py:28-45 | Div of the product by a nonzero y answers x |
| `Calculator.Div` | CalculadoraRPC/CalculadoraRPC/grpcCalc_server.py:34-45 | an error exactly when y is 0, namely INVALID_ARGUMENT with "Erro: Divisão por zero!" and no value; otherwise a value q with x - q*y zero or of y's sign and smaller than abs(y) |
| `Calculator.FloorDiv` | CalculadoraRPC/CalculadoraRPC/grpcCalc_server.py:44 | `x // y` for y != 0 is a floor quotient |
| `Calculator.FloorQuotientUnique` | CalculadoraRPC/CalculadoraRPC/grpcCalc_server.py:44 | there is only one floor quotient, so Div's contract fixes its value |
| `Calculator.FloorDivVersusEuclidean` | CalculadoraRPC/CalculadoraRPC/grpcCalc_server.py:44 | `x // y` equals Dafny's Euclidean `x / y` when y > 0 or y divides x, and is one less when y < 0 and y does not divide x |
| `Calculator.FloorDivVersusTruncated` | CalculadoraRPC/CalculadoraRPC/grpcCalc_server.py:44 | `x // y` equals the quotient truncated toward zero, except when x and y have opposite signs and y does not divide x; then it is one less |

## Findings

| source | as written | input that shows it | evidently intended | confidence | as-written member | corrected member |
|---|---|---|---|---|---|---|
| CalculadoraRPC/MineradorRPC/miner_server.py:128-162 | `SubmitChallenge` holds `DB.lock` (line 128) and calls `create_new_challenge`, which takes the same `threading.Lock` again (line 27); the lock is not reentrant, so the handler thread blocks forever, holding the lock | any submission for a pending id whose digest meets its difficulty, e.g. "abc123" for challenge 0 in `BootstrapScenario` | record solution and winner and open the next challenge within one critical section | high (not executed) | `LockDiscipline.AcceptPathAsWrittenBlocks`, `MinerLedger.RecordWithoutRolloverStrandsCurrent` | `LockDiscipline.AcceptPathAtomicCompletes` |

When the handler blocks, lines 157-158 have already stored the solution and the winner.
For a client id other than -1, readers that take no lock then see the current id as
solved while no new challenge has been opened. With client id -1 the stuck id still reads
as pending, as in the edge case above. `GetTransactionID` and every later `SubmitChallenge` wait on the lock forever.
The rest of the model uses the corrected behaviour. `MinerServer.MinerServicer.SubmitChallenge`
and `MinerLedger.Submit` perform recording and roll-over as one atomic step.

## Left out

- `MineradorRPC/miner_client.py` is not part of this model. It is an interactive menu
  over gRPC stubs, and its mining threads are about concurrency and randomness. Its
  digest test is the server's `MeetsChallenge`.
- `CalculadoraRPC/grpcCalc_client.py` is not part of this model: menu, input parsing and
  remote calls only.
- `serve()` in both servers: gRPC setup, ports, thread pools and sleeping. Only its first
  step, the bootstrap challenge, appears, in `BootstrapScenario`.
- The lock itself and concurrent interleaving. Every handler is one atomic step. In the
  source, the read handlers at miner_server.py:73-117 take no lock. The model gives each
  of them a consistent snapshot of the table.
- SHA-1 internals and the UTF-8 encoding of the candidate: the digest is an arbitrary
  function into 40-character lowercase hex strings.
- `random.randint`: only its range 1..5 is modelled, not its distribution.
- Logging with `print`, including line 43, which prints the id where the difficulty is
  meant.
- Protobuf integer widths: every integer is unbounded, as in Python.
- The table rows are mutable Python lists. The model stores them as values and updates
  the map entry. This loses nothing: line 35 builds a fresh list for every id and no
  handler hands a row's list out, so no list is ever shared.
- The gRPC call context: `Div`'s error is a `Failed` reply carrying the status code and
  details. The empty `Result` message sent alongside it is not modelled.
