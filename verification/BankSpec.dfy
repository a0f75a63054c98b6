/** The vesting bank on values: deposits collect during an epoch, are released during the next one,
    and whatever is left is paid at its end. */
module BankSpec {
  import opened Common

  datatype Row = Row(vested: int, unvestingTotal: int, unvested: int, epoch: nat)

  /** An inline transfer that the bank sends from its own account. */
  datatype Payout = Payout(to: Name, amount: int)

  /** A deposit that was booked: for whom, in which epoch, how much. */
  datatype Deposit = Deposit(producer: Name, epoch: nat, amount: int)

  /** The vesting table, every payout sent and every deposit booked so far, in the current epoch. */
  datatype Bank = Bank(epoch: nat, rows: map<Name, Row>, payouts: seq<Payout>, deposits: seq<Deposit>)

  const FRESH := Bank(1, map[], [], [])

  // ---- One deposit ----

  /** The release formula as it is written: both ratios are integer divisions. */
  function ReleaseNow(row: Row, chunksRemaining: nat): int {
    if row.unvestingTotal > 0 then
      var chunksRatio := chunksRemaining / LUCKY_CHUNKS;
      var inversePaidoutRatio := ((row.unvested / row.unvestingTotal) - 1) * -1;
      var currentPayoutRatio := inversePaidoutRatio - chunksRatio;
      if currentPayoutRatio > 0
      then Min(currentPayoutRatio * row.unvestingTotal, row.unvestingTotal - row.unvested)
      else 0
    else 0
  }

  /** What the formula comes to: nothing before the first chunk of the epoch, and then everything at once. */
  lemma ReleaseIsAllOrNothing(row: Row, chunksRemaining: nat)
    requires 0 <= row.unvested <= row.unvestingTotal && chunksRemaining <= LUCKY_CHUNKS
    ensures ReleaseNow(row, chunksRemaining)
         == if chunksRemaining < LUCKY_CHUNKS then row.unvestingTotal - row.unvested else 0
  {
    if row.unvestingTotal > 0 {
      var q := row.unvested / row.unvestingTotal;
      assert q == if row.unvested == row.unvestingTotal then 1 else 0;
      assert chunksRemaining / LUCKY_CHUNKS == if chunksRemaining < LUCKY_CHUNKS then 0 else 1;
    }
  }

  function CeilDiv(x: nat, d: nat): nat
    requires 0 < d
  {
    (x + d - 1) / d
  }

  /** The release that the names of the formula suggest: the same expression with ratios that are not cut off, in which
      the part of a row that is released falls in step with the chunks that remain. */
  function LinearRelease(row: Row, chunksRemaining: nat): int
    requires 0 <= row.unvestingTotal
  {
    var rest := row.unvestingTotal - row.unvested - CeilDiv(row.unvestingTotal * chunksRemaining, LUCKY_CHUNKS);
    if 0 < rest then rest else 0
  }

  /** What is released is the linear amount if and only if no chunk of the epoch has been found, or all have,
      or nothing is left. */
  lemma ReleaseIsLinearIff(row: Row, chunksRemaining: nat)
    requires 0 <= row.unvested <= row.unvestingTotal && chunksRemaining <= LUCKY_CHUNKS
    ensures ReleaseNow(row, chunksRemaining) == LinearRelease(row, chunksRemaining)
       <==> chunksRemaining == 0 || chunksRemaining == LUCKY_CHUNKS || row.unvested == row.unvestingTotal
  {
    ReleaseIsAllOrNothing(row, chunksRemaining);
  }

  lemma ReleaseInRange(row: Row, chunksRemaining: nat)
    requires 0 <= row.unvested <= row.unvestingTotal
    ensures 0 <= ReleaseNow(row, chunksRemaining) <= row.unvestingTotal - row.unvested
  {
    if row.unvestingTotal > 0 {
      assert 0 <= row.unvested / row.unvestingTotal;
      var ratio := ((row.unvested / row.unvestingTotal) - 1) * -1 - chunksRemaining / LUCKY_CHUNKS;
      if ratio > 0 {
        assert ratio == 1;
      }
    }
  }

  function RowAfterDeposit(row: Row, amount: int, chunksRemaining: nat): Row {
    row.(vested := row.vested + amount, unvested := row.unvested + ReleaseNow(row, chunksRemaining))
  }

  function NewRow(amount: int, epoch: nat): Row {
    Row(amount, 0, 0, epoch)
  }

  function OnePayout(to: Name, amount: int): seq<Payout> {
    if amount > 0 then [Payout(to, amount)] else []
  }

  ghost function AfterDeposit(b: Bank, producer: Name, amount: int, chunksRemaining: nat): Bank {
    var row := if producer in b.rows then RowAfterDeposit(b.rows[producer], amount, chunksRemaining)
               else NewRow(amount, b.epoch);
    var release := if producer in b.rows then ReleaseNow(b.rows[producer], chunksRemaining) else 0;
    b.(rows := b.rows[producer := row],
       payouts := b.payouts + OnePayout(producer, release),
       deposits := b.deposits + [Deposit(producer, b.epoch, amount)])
  }

  // ---- The end of an epoch ----

  function Rolled(row: Row, epoch: nat): Row {
    if row.epoch + 1 == epoch then Row(0, row.vested, 0, epoch) else row
  }

  function RolledRows(rows: map<Name, Row>, epoch: nat): map<Name, Row> {
    map p | p in rows :: Rolled(rows[p], epoch)
  }

  function Due(row: Row, epoch: nat): int {
    if row.epoch + 1 == epoch then row.unvestingTotal - row.unvested else 0
  }

  /** The payouts of a walk over the table, in the order of the names. */
  ghost function EpochPayouts(rows: map<Name, Row>, epoch: nat, todo: set<Name>): seq<Payout>
    requires todo <= rows.Keys
    decreases todo
  {
    if todo == {} then []
    else
      var p := Least(todo);
      OnePayout(p, Due(rows[p], epoch)) + EpochPayouts(rows, epoch, todo - {p})
  }

  ghost function AfterOnEpoch(b: Bank, epoch: nat): Bank {
    b.(epoch := epoch,
       rows := RolledRows(b.rows, epoch),
       payouts := b.payouts + EpochPayouts(b.rows, epoch, b.rows.Keys))
  }

  // ---- Sums over the histories ----

  function PaidTo(payouts: seq<Payout>, p: Name): int {
    if payouts == [] then 0
    else
      var last := payouts[|payouts| - 1];
      PaidTo(payouts[..|payouts| - 1], p) + if last.to == p then last.amount else 0
  }

  function DepositedIn(deposits: seq<Deposit>, p: Name, epoch: int): int {
    if deposits == [] then 0
    else
      var last := deposits[|deposits| - 1];
      DepositedIn(deposits[..|deposits| - 1], p, epoch) + if last.producer == p && last.epoch == epoch then last.amount else 0
  }

  function DepositedBefore(deposits: seq<Deposit>, p: Name, epoch: int): int {
    if deposits == [] then 0
    else
      var last := deposits[|deposits| - 1];
      DepositedBefore(deposits[..|deposits| - 1], p, epoch) + if last.producer == p && last.epoch < epoch then last.amount else 0
  }

  lemma {:induction false} PaidAppend(a: seq<Payout>, b: seq<Payout>, p: Name)
    ensures PaidTo(a + b, p) == PaidTo(a, p) + PaidTo(b, p)
  {
    if b == [] {
      assert a + b == a;
    } else {
      assert (a + b)[..|a + b| - 1] == a + b[..|b| - 1];
      PaidAppend(a, b[..|b| - 1], p);
    }
  }

  lemma {:induction false} EpochPaid(rows: map<Name, Row>, epoch: nat, todo: set<Name>, p: Name)
    requires todo <= rows.Keys
    requires forall n :: n in rows ==> 0 <= Due(rows[n], epoch)
    ensures PaidTo(EpochPayouts(rows, epoch, todo), p) == if p in todo then Due(rows[p], epoch) else 0
    decreases todo
  {
    if todo != {} {
      var q := Least(todo);
      EpochPaid(rows, epoch, todo - {q}, p);
      PaidAppend(OnePayout(q, Due(rows[q], epoch)), EpochPayouts(rows, epoch, todo - {q}), p);
    }
  }

  lemma {:induction false} BeforeNext(deposits: seq<Deposit>, p: Name, epoch: int)
    ensures DepositedBefore(deposits, p, epoch + 1) == DepositedBefore(deposits, p, epoch) + DepositedIn(deposits, p, epoch)
  {
    if deposits != [] { BeforeNext(deposits[..|deposits| - 1], p, epoch); }
  }

  lemma DepositTwo(deposits: seq<Deposit>, d: Deposit, d': Deposit, p: Name, epoch: int)
    ensures DepositedIn(deposits + [d, d'], p, epoch)
         == DepositedIn(deposits, p, epoch) + (if d.producer == p && d.epoch == epoch then d.amount else 0)
            + (if d'.producer == p && d'.epoch == epoch then d'.amount else 0)
  {
    assert deposits + [d, d'] == deposits + [d] + [d'];
  }

  lemma {:induction false} FutureIsEmpty(deposits: seq<Deposit>, p: Name, epoch: int)
    requires forall d :: d in deposits ==> d.epoch < epoch
    ensures DepositedIn(deposits, p, epoch) == 0
  {
    if deposits != [] {
      assert deposits[|deposits| - 1] in deposits;
      FutureIsEmpty(deposits[..|deposits| - 1], p, epoch);
    }
  }

  lemma {:induction false} BeforeIsMonotone(a: seq<Deposit>, b: seq<Deposit>, p: Name, e: int, f: int)
    requires a <= b && e <= f && forall d :: d in b ==> 0 < d.amount
    ensures DepositedBefore(a, p, e) <= DepositedBefore(b, p, f)
    decreases |b|
  {
    if b != [] {
      var last := b[|b| - 1];
      var rest := b[..|b| - 1];
      assert last in b && forall d :: d in rest ==> d in b;
      if |a| == |b| {
        assert a == b;
        BeforeIsMonotone(rest, rest, p, e, f);
      } else {
        BeforeIsMonotone(a, rest, p, e, f);
      }
    }
  }

  // ---- The invariant ----

  /** A row accounts for every deposit of its producer: this epoch's are vested, last epoch's are being released,
      and everything older has been paid, together with the part released so far. */
  ghost predicate RowAccounts(b: Bank, p: Name) {
    if p in b.rows then
      var row := b.rows[p];
      && row.epoch == b.epoch
      && row.vested == DepositedIn(b.deposits, p, b.epoch)
      && row.unvestingTotal == DepositedIn(b.deposits, p, b.epoch - 1)
      && PaidTo(b.payouts, p) == DepositedBefore(b.deposits, p, b.epoch - 1) + row.unvested
      && 0 <= row.unvested <= row.unvestingTotal
      && 0 <= row.vested
    else
      && PaidTo(b.payouts, p) == 0
      && DepositedIn(b.deposits, p, b.epoch - 1) == 0
      && DepositedBefore(b.deposits, p, b.epoch - 1) == 0
      && DepositedIn(b.deposits, p, b.epoch) == 0
  }

  ghost predicate Inv(b: Bank) {
    && (forall p :: RowAccounts(b, p))
    && (forall d :: d in b.deposits ==> 0 < d.amount && d.epoch <= b.epoch)
    && (forall o :: o in b.payouts ==> 0 < o.amount)
  }

  /** A deposit is booked for one producer in the current epoch, and touches no other row and no other payouts. */
  lemma DepositIsExact(b: Bank, producer: Name, amount: int, chunksRemaining: nat, p: Name, epoch: int)
    requires Inv(b)
    ensures var b' := AfterDeposit(b, producer, amount, chunksRemaining);
      && b'.epoch == b.epoch
      && DepositedIn(b'.deposits, p, epoch)
           == DepositedIn(b.deposits, p, epoch) + (if p == producer && epoch == b.epoch then amount else 0)
      && (p != producer ==>
           && (p in b'.rows <==> p in b.rows) && (p in b.rows ==> b'.rows[p] == b.rows[p])
           && PaidTo(b'.payouts, p) == PaidTo(b.payouts, p))
      && (p == producer ==>
           && p in b'.rows
           && b'.rows[p].vested == (if p in b.rows then b.rows[p].vested else 0) + amount)
  {
    DepositPays(b, producer, amount, chunksRemaining, p);
  }

  ghost function ReleaseTo(b: Bank, producer: Name, chunksRemaining: nat): int {
    if producer in b.rows then ReleaseNow(b.rows[producer], chunksRemaining) else 0
  }

  lemma DepositPays(b: Bank, producer: Name, amount: int, chunksRemaining: nat, p: Name)
    requires Inv(b)
    ensures var release := ReleaseTo(b, producer, chunksRemaining);
      && 0 <= release && (producer in b.rows ==> release <= b.rows[producer].unvestingTotal - b.rows[producer].unvested)
      && PaidTo(AfterDeposit(b, producer, amount, chunksRemaining).payouts, p)
           == PaidTo(b.payouts, p) + if p == producer then release else 0
  {
    assert RowAccounts(b, producer);
    if producer in b.rows { ReleaseInRange(b.rows[producer], chunksRemaining); }
    var release := ReleaseTo(b, producer, chunksRemaining);
    PaidAppend(b.payouts, OnePayout(producer, release), p);
  }

  lemma DepositBooks(b: Bank, producer: Name, amount: int, chunksRemaining: nat, p: Name)
    requires Inv(b) && 0 < amount
    ensures RowAccounts(AfterDeposit(b, producer, amount, chunksRemaining), p)
  {
    assert RowAccounts(b, p);
    var d := Deposit(producer, b.epoch, amount);
    DepositPays(b, producer, amount, chunksRemaining, p);
  }

  lemma DepositKeepsInv(b: Bank, producer: Name, amount: int, chunksRemaining: nat)
    requires Inv(b) && 0 < amount
    ensures Inv(AfterDeposit(b, producer, amount, chunksRemaining))
  {
    var b' := AfterDeposit(b, producer, amount, chunksRemaining);
    forall p ensures RowAccounts(b', p) {
      DepositBooks(b, producer, amount, chunksRemaining, p);
    }
  }

  lemma EpochBooks(b: Bank, p: Name)
    requires Inv(b)
    ensures RowAccounts(AfterOnEpoch(b, b.epoch + 1), p)
  {
    var e := b.epoch + 1;
    assert RowAccounts(b, p);
    forall n | n in b.rows ensures 0 <= Due(b.rows[n], e) {
      assert RowAccounts(b, n);
    }
    PaidAppend(b.payouts, EpochPayouts(b.rows, e, b.rows.Keys), p);
    EpochPaid(b.rows, e, b.rows.Keys, p);
    BeforeNext(b.deposits, p, b.epoch - 1);
    FutureIsEmpty(b.deposits, p, e);
  }

  lemma EpochKeepsInv(b: Bank)
    requires Inv(b)
    ensures Inv(AfterOnEpoch(b, b.epoch + 1))
  {
    var e := b.epoch + 1;
    forall p ensures RowAccounts(AfterOnEpoch(b, e), p) {
      EpochBooks(b, p);
    }
    EpochPayoutsPositive(b.rows, e, b.rows.Keys);
  }

  lemma {:induction false} EpochPayoutsPositive(rows: map<Name, Row>, epoch: nat, todo: set<Name>)
    requires todo <= rows.Keys
    ensures forall o :: o in EpochPayouts(rows, epoch, todo) ==> 0 < o.amount
    decreases todo
  {
    if todo != {} { EpochPayoutsPositive(rows, epoch, todo - {Least(todo)}); }
  }

  lemma {:induction false} PayoutsFollowNames(rows: map<Name, Row>, epoch: nat, todo: set<Name>)
    requires todo <= rows.Keys
    ensures forall o :: o in EpochPayouts(rows, epoch, todo) ==> o.to in todo
    ensures forall i, j :: 0 <= i < j < |EpochPayouts(rows, epoch, todo)| ==>
      EpochPayouts(rows, epoch, todo)[i].to < EpochPayouts(rows, epoch, todo)[j].to
    decreases todo
  {
    if todo != {} {
      var p := Least(todo);
      PayoutsFollowNames(rows, epoch, todo - {p});
      var rest := EpochPayouts(rows, epoch, todo - {p});
      forall j | 0 <= j < |rest| ensures p < rest[j].to {
        assert rest[j] in rest && rest[j].to in todo && rest[j].to != p;
      }
    }
  }

  lemma {:induction false} NothingDue(rows: map<Name, Row>, epoch: nat, todo: set<Name>)
    requires todo <= rows.Keys && forall n :: n in todo ==> rows[n].epoch + 1 != epoch
    ensures EpochPayouts(rows, epoch, todo) == []
    decreases todo
  {
    if todo != {} { NothingDue(rows, epoch, todo - {Least(todo)}); }
  }

  /** Running the end of the epoch again in the same epoch changes nothing and pays nothing. */
  lemma OnEpochIsIdempotent(b: Bank)
    requires Inv(b)
    ensures AfterOnEpoch(b, b.epoch) == b
  {
    forall p | p in b.rows ensures b.rows[p].epoch == b.epoch {
      assert RowAccounts(b, p);
    }
    NothingDue(b.rows, b.epoch, b.rows.Keys);
    assert RolledRows(b.rows, b.epoch) == b.rows;
  }

  /** The release window, at any moment: nothing is paid in the epoch of its deposit, and everything
      deposited before the last epoch has been paid. */
  lemma ReleaseWindow(b: Bank, p: Name)
    requires Inv(b)
    ensures DepositedBefore(b.deposits, p, b.epoch - 1) <= PaidTo(b.payouts, p) <= DepositedBefore(b.deposits, p, b.epoch)
  {
    assert RowAccounts(b, p);
    BeforeNext(b.deposits, p, b.epoch - 1);
  }

  // ---- Runs ----

  datatype Event =
    | Deposited(producer: Name, amount: int, chunksRemaining: nat)
    | EpochEnded
    | OnEpochRepeated

  ghost function Step(b: Bank, e: Event): Bank {
    match e
    case Deposited(producer, amount, chunksRemaining) =>
      if 0 < amount then AfterDeposit(b, producer, amount, chunksRemaining) else b
    case EpochEnded => AfterOnEpoch(b, b.epoch + 1)
    case OnEpochRepeated => AfterOnEpoch(b, b.epoch)
  }

  ghost predicate Run(states: seq<Bank>, events: seq<Event>) {
    && |states| == |events| + 1
    && states[0] == FRESH
    && forall i :: 0 <= i < |events| ==> states[i + 1] == Step(states[i], events[i])
  }

  lemma {:induction false} RunKeepsInv(states: seq<Bank>, events: seq<Event>, i: nat)
    requires Run(states, events) && i < |states|
    ensures Inv(states[i])
  {
    if i > 0 {
      RunKeepsInv(states, events, i - 1);
      match events[i - 1]
      case Deposited(producer, amount, chunksRemaining) =>
        if 0 < amount { DepositKeepsInv(states[i - 1], producer, amount, chunksRemaining); }
      case EpochEnded => EpochKeepsInv(states[i - 1]);
      case OnEpochRepeated => OnEpochIsIdempotent(states[i - 1]);
    }
  }

  lemma {:induction false} HistoryGrows(states: seq<Bank>, events: seq<Event>, i: nat, j: nat)
    requires Run(states, events) && i <= j < |states|
    ensures states[i].deposits <= states[j].deposits && states[i].payouts <= states[j].payouts
    ensures states[i].epoch <= states[j].epoch
  {
    if i < j { HistoryGrows(states, events, i, j - 1); }
  }

  /** Everything booked for a producer by some moment has been paid to it once the epoch has changed twice,
      and in its own epoch none of it has. */
  lemma PaidByTheSecondEpochChange(states: seq<Bank>, events: seq<Event>, i: nat, j: nat, p: Name)
    requires Run(states, events) && i <= j < |states| && states[i].epoch + 2 <= states[j].epoch
    ensures DepositedBefore(states[i].deposits, p, states[i].epoch + 1) <= PaidTo(states[j].payouts, p)
    ensures PaidTo(states[i].payouts, p) <= DepositedBefore(states[i].deposits, p, states[i].epoch)
  {
    RunKeepsInv(states, events, i);
    RunKeepsInv(states, events, j);
    HistoryGrows(states, events, i, j);
    ReleaseWindow(states[i], p);
    ReleaseWindow(states[j], p);
    BeforeIsMonotone(states[i].deposits, states[j].deposits, p, states[i].epoch + 1, states[j].epoch - 1);
  }
}
