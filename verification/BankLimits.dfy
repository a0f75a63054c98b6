/** A run on which a deposit releases all that is left although most of the epoch's chunks are still to be found. */
module BankLimits {
  import opened Common
  import opened BankSpec

  function Vested(p: Name, amount: nat): Row {
    Row(amount, 0, 0, 1)
  }

  lemma FirstEpochEnds(p: Name, amount: nat)
    requires 0 < amount
    ensures Step(Bank(1, map[p := Vested(p, amount)], [], [Deposit(p, 1, amount)]), EpochEnded)
         == Bank(2, map[p := Row(0, amount, 0, 2)], [], [Deposit(p, 1, amount)])
  {
    var rows := map[p := Vested(p, amount)];
    assert rows.Keys == {p} && Least({p}) == p;
    assert {p} - {p} == {};
    assert EpochPayouts(rows, 2, {p}) == [];
    assert RolledRows(rows, 2) == map[p := Row(0, amount, 0, 2)];
  }

  /** Whatever was deposited in the first epoch, one more unit with some chunks of the second found and some not makes
      the bank pay all of it, which is more than the linear amount. */
  lemma ReleaseRunsAhead(p: Name, amount: nat, c: nat) returns (states: seq<Bank>, events: seq<Event>)
    requires 0 < amount && 0 < c < LUCKY_CHUNKS
    ensures Run(states, events) && |events| == 3 && events[2] == Deposited(p, 1, c)
    ensures p in states[2].rows && states[2].rows[p] == Row(0, amount, 0, 2)
    ensures states[2].payouts == [] && states[3].payouts == [Payout(p, amount)]
    ensures LinearRelease(states[2].rows[p], c) < amount
  {
    FirstEpochEnds(p, amount);
    var vested := Bank(1, map[p := Vested(p, amount)], [], [Deposit(p, 1, amount)]);
    var rolled := Bank(2, map[p := Row(0, amount, 0, 2)], [], [Deposit(p, 1, amount)]);
    states := [FRESH, vested, rolled, Step(rolled, Deposited(p, 1, c))];
    events := [Deposited(p, amount, LUCKY_CHUNKS), EpochEnded, Deposited(p, 1, c)];
    ReleaseIsAllOrNothing(rolled.rows[p], c);
    ReleaseIsLinearIff(rolled.rows[p], c);
  }
}
