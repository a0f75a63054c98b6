/** Token ledger and vesting bank together: the bank can always pay what it owes. */
module Solvency {
  import opened Common
  import opened Sums
  import L = LedgerSpec
  import B = BankSpec
  import C = BankContract

  /** The two contracts, the system counters that the bank reads, and how many of the
      bank's payouts have been carried out. */
  datatype World = World(ledger: L.Ledger, bank: B.Bank, chunksRemaining: nat, producer: Name, done: nat)

  const START := World(L.GENESIS, B.FRESH, LUCKY_CHUNKS, SYSTEM_ACCOUNT, 0)

  // ---- What the bank owes ----

  function Owed(row: B.Row): int {
    row.vested + row.unvestingTotal - row.unvested
  }

  ghost function Owing(rows: map<Name, B.Row>): map<Name, int> {
    map p | p in rows :: Owed(rows[p])
  }

  function Amount(payouts: seq<B.Payout>): int {
    if payouts == [] then 0
    else Amount(payouts[..|payouts| - 1]) + payouts[|payouts| - 1].amount
  }

  /** What the rows owe and what is queued from a position of the payouts on. */
  ghost function Claims(b: B.Bank, done: nat): int
    requires done <= |b.payouts|
  {
    Sum(Owing(b.rows)) + Amount(b.payouts[done..])
  }

  ghost predicate Solvent(w: World) {
    w.done <= |w.bank.payouts| && Claims(w.bank, w.done) <= L.Held(w.ledger, BANK_ACCOUNT, TWIG)
  }

  /** What the bank holds beyond every claim. */
  ghost function Surplus(w: World): int
    requires w.done <= |w.bank.payouts|
  {
    L.Held(w.ledger, BANK_ACCOUNT, TWIG) - Claims(w.bank, w.done)
  }

  ghost predicate Inv(w: World) {
    && L.Inv(w.ledger) && B.Inv(w.bank) && Solvent(w)
    && w.producer != BANK_ACCOUNT
    && (forall o :: o in w.bank.payouts ==> o.to != BANK_ACCOUNT)
    && BANK_ACCOUNT !in w.bank.rows
  }

  lemma {:induction false} AmountAppend(a: seq<B.Payout>, b: seq<B.Payout>)
    ensures Amount(a + b) == Amount(a) + Amount(b)
  {
    if b == [] {
      assert a + b == a;
    } else {
      assert (a + b)[..|a + b| - 1] == a + b[..|b| - 1];
      AmountAppend(a, b[..|b| - 1]);
    }
  }

  lemma {:induction false} AmountNonNegative(payouts: seq<B.Payout>)
    requires forall o :: o in payouts ==> 0 < o.amount
    ensures 0 <= Amount(payouts)
  {
    if payouts != [] { AmountNonNegative(payouts[..|payouts| - 1]); }
  }

  /** Queued payouts after more are sent. */
  lemma QueueAppend(payouts: seq<B.Payout>, more: seq<B.Payout>, done: nat)
    requires done <= |payouts|
    ensures Amount((payouts + more)[done..]) == Amount(payouts[done..]) + Amount(more)
  {
    assert (payouts + more)[done..] == payouts[done..] + more;
    AmountAppend(payouts[done..], more);
  }

  /** A deposit raises what the bank owes and has queued by exactly its amount. */
  lemma DepositBooksItsAmount(b: B.Bank, producer: Name, amount: int, chunksRemaining: nat, done: nat)
    requires B.Inv(b) && done <= |b.payouts|
    ensures Claims(B.AfterDeposit(b, producer, amount, chunksRemaining), done) == Claims(b, done) + amount
  {
    var b' := B.AfterDeposit(b, producer, amount, chunksRemaining);
    assert B.RowAccounts(b, producer);
    var release := if producer in b.rows then B.ReleaseNow(b.rows[producer], chunksRemaining) else 0;
    if producer in b.rows { B.ReleaseInRange(b.rows[producer], chunksRemaining); }
    QueueAppend(b.payouts, B.OnePayout(producer, release), done);
    assert Owing(b'.rows) == Owing(b.rows)[producer := Owed(b'.rows[producer])];
    SumUpdate(Owing(b.rows), producer, Owed(b'.rows[producer]));
  }

  ghost function Dues(rows: map<Name, B.Row>, epoch: nat, todo: set<Name>): map<Name, int>
    requires todo <= rows.Keys
  {
    map p | p in todo :: B.Due(rows[p], epoch)
  }

  lemma {:induction false} EpochPayoutsAmount(rows: map<Name, B.Row>, epoch: nat, todo: set<Name>)
    requires todo <= rows.Keys && forall p :: p in rows ==> 0 <= B.Due(rows[p], epoch)
    ensures Amount(B.EpochPayouts(rows, epoch, todo)) == Sum(Dues(rows, epoch, todo))
    decreases todo
  {
    if todo == {} {
      assert Dues(rows, epoch, todo) == map[];
    } else {
      var p := Least(todo);
      EpochPayoutsAmount(rows, epoch, todo - {p});
      AmountAppend(B.OnePayout(p, B.Due(rows[p], epoch)), B.EpochPayouts(rows, epoch, todo - {p}));
      SumWithout(Dues(rows, epoch, todo), p);
      assert Dues(rows, epoch, todo) - {p} == Dues(rows, epoch, todo - {p});
    }
  }

  /** The end of an epoch turns debts into queued payouts one for one. */
  lemma EpochMovesDebts(b: B.Bank, done: nat)
    requires B.Inv(b) && done <= |b.payouts|
    ensures Claims(B.AfterOnEpoch(b, b.epoch + 1), done) == Claims(b, done)
  {
    var e := b.epoch + 1;
    var b' := B.AfterOnEpoch(b, e);
    assert forall p :: p in b.rows ==> B.RowAccounts(b, p);
    QueueAppend(b.payouts, B.EpochPayouts(b.rows, e, b.rows.Keys), done);
    EpochPayoutsAmount(b.rows, e, b.rows.Keys);
    SumAdd(Owing(b.rows), Owing(b'.rows), Dues(b.rows, e, b.rows.Keys));
  }

  lemma {:induction false} EpochPaysOwners(rows: map<Name, B.Row>, epoch: nat, todo: set<Name>)
    requires todo <= rows.Keys
    ensures forall o :: o in B.EpochPayouts(rows, epoch, todo) ==> o.to in rows
    decreases todo
  {
    if todo != {} { EpochPaysOwners(rows, epoch, todo - {Least(todo)}); }
  }

  // ---- Steps of the two contracts ----

  datatype Action =
    | Transfer(from: Name, to: Name, toExists: bool, list: seq<Asset>, memo: string)
    | PayOut(toExists: bool)
    | Other(action: L.Action)
    | EpochEnds
    | OnEpochAgain
    | Counters(chunksRemaining: nat, producer: Name)

  function LuckyOf(w: World): C.Lucky {
    C.Lucky(w.bank.epoch, w.chunksRemaining, w.producer)
  }

  function PayoutList(o: B.Payout): seq<Asset>
    requires 0 <= o.amount <= MAX_AMOUNT
  {
    [Asset(TWIG, o.amount)]
  }

  /** A transfer with the notification that the bank receives; a failing notification undoes the transfer. */
  ghost function AfterTransfer(w: World, from: Name, to: Name, toExists: bool, list: seq<Asset>, memo: string): Option<World> {
    match L.Transfer(w.ledger, from, to, toExists, list)
    case None => None
    case Some(l) =>
      if !C.IsDeposit(from, to, list, memo) then Some(w.(ledger := l))
      else
        var producer := C.Beneficiary(memo, LuckyOf(w));
        if producer == 0 then None
        else Some(w.(ledger := l, bank := B.AfterDeposit(w.bank, producer, list[0].amount, w.chunksRemaining)))
  }

  /** The next queued payout, as a transfer out of the bank's account. */
  ghost function AfterPayOut(w: World, toExists: bool): Option<World> {
    if w.done < |w.bank.payouts| && 0 <= w.bank.payouts[w.done].amount <= MAX_AMOUNT then
      var o := w.bank.payouts[w.done];
      match L.Transfer(w.ledger, BANK_ACCOUNT, o.to, toExists, PayoutList(o))
      case None => None
      case Some(l) => Some(w.(ledger := l, done := w.done + 1))
    else None
  }

  /** What a transfer does beside its part on the ledger: one asset of TWIG from the chunks account to the bank is a deposit,
      unless its memo says to ignore it. It is booked for the team account or the lucky producer, as the memo says, and
      any other memo, or a producer that is not set, undoes it; other transfers leave the bank alone. */
  lemma NotificationIsExact(w: World, from: Name, to: Name, toExists: bool, list: seq<Asset>, memo: string)
    requires L.Transfer(w.ledger, from, to, toExists, list).Some?
    ensures var deposit := to == BANK_ACCOUNT && from == CHUNKS_ACCOUNT && memo != "ignore_memo"
                           && |list| == 1 && list[0].symbol == TWIG;
      var r, l := AfterTransfer(w, from, to, toExists, list, memo), L.Transfer(w.ledger, from, to, toExists, list).value;
      && (!deposit ==> r == Some(w.(ledger := l)))
      && (deposit && memo == "team_share" ==>
           r == Some(w.(ledger := l, bank := B.AfterDeposit(w.bank, TEAM_ACCOUNT, list[0].amount, w.chunksRemaining))))
      && (deposit && memo == "producer_share" && w.producer != 0 ==>
           r == Some(w.(ledger := l, bank := B.AfterDeposit(w.bank, w.producer, list[0].amount, w.chunksRemaining))))
      && (deposit && memo != "team_share" && !(memo == "producer_share" && w.producer != 0) ==> r == None)
  {
    assert "team_share"[0] == 't' && "producer_share"[0] == 'p';
  }

  ghost function Attempt(w: World, a: Action): Option<World> {
    match a
    case Transfer(from, to, toExists, list, memo) => AfterTransfer(w, from, to, toExists, list, memo)
    case PayOut(toExists) => AfterPayOut(w, toExists)
    case Other(action) =>
      (match L.Attempt(w.ledger, action)
       case None => None
       case Some(l) => Some(w.(ledger := l)))
    case EpochEnds => Some(w.(bank := B.AfterOnEpoch(w.bank, w.bank.epoch + 1), chunksRemaining := LUCKY_CHUNKS))
    case OnEpochAgain => Some(w.(bank := B.AfterOnEpoch(w.bank, w.bank.epoch)))
    case Counters(chunksRemaining, producer) => Some(w.(chunksRemaining := chunksRemaining, producer := producer))
  }

  ghost function Step(w: World, a: Action): World {
    match Attempt(w, a)
    case Some(w') => w'
    case None => w
  }

  /** The assumptions on the surroundings: what else leaves the bank's account is covered by its surplus, issues stay
      within 64 bits, and the bank itself produces no blocks. */
  ghost predicate Allowed(w: World, a: Action) {
    && w.done <= |w.bank.payouts|
    && match a
       case Transfer(from, _, _, list, _) => from == BANK_ACCOUNT ==> L.Total(list, TWIG) <= Surplus(w)
       case Other(action) =>
         && !action.DoTransfer?
         && (action.DoRetire? && action.owner == BANK_ACCOUNT ==> L.Amount(action.tokens, TWIG) <= Surplus(w))
         && L.SafeStep(w.ledger, action)
       case Counters(_, producer) => producer != BANK_ACCOUNT
       case _ => true
  }

  // ---- Every step keeps the bank solvent ----

  lemma DepositStep(w: World, producer: Name, amount: int)
    requires Inv(w) && 0 < amount && producer != BANK_ACCOUNT
    ensures var b := B.AfterDeposit(w.bank, producer, amount, w.chunksRemaining);
      && B.Inv(b) && w.done <= |b.payouts|
      && Claims(b, w.done) == Claims(w.bank, w.done) + amount
      && BANK_ACCOUNT !in b.rows && (forall o :: o in b.payouts ==> o.to != BANK_ACCOUNT)
  {
    B.DepositKeepsInv(w.bank, producer, amount, w.chunksRemaining);
    DepositBooksItsAmount(w.bank, producer, amount, w.chunksRemaining, w.done);
  }

  lemma TransferStep(w: World, from: Name, to: Name, toExists: bool, list: seq<Asset>, memo: string)
    requires Inv(w) && AfterTransfer(w, from, to, toExists, list, memo).Some?
    requires from == BANK_ACCOUNT ==> L.Total(list, TWIG) <= Surplus(w)
    ensures Inv(AfterTransfer(w, from, to, toExists, list, memo).value)
  {
    L.TransferKeepsInv(w.ledger, from, to, toExists, list);
    L.TransferMoves(w.ledger, from, to, toExists, list, TWIG);
    L.TotalNonNegative(list, TWIG);
    if C.IsDeposit(from, to, list, memo) {
      assert list[0] in list;
      assert list[..0] == [] && L.Total(list, TWIG) == list[0].amount;
      DepositStep(w, C.Beneficiary(memo, LuckyOf(w)), list[0].amount);
    }
  }

  /** A transfer out of the bank's account that is not one of its payouts leaves the bank solvent if and only if the
      surplus covers it. */
  lemma SpendingIsSolventIff(w: World, to: Name, toExists: bool, list: seq<Asset>, memo: string)
    requires Inv(w) && AfterTransfer(w, BANK_ACCOUNT, to, toExists, list, memo).Some?
    ensures Solvent(AfterTransfer(w, BANK_ACCOUNT, to, toExists, list, memo).value) <==> L.Total(list, TWIG) <= Surplus(w)
  {
    L.TransferMoves(w.ledger, BANK_ACCOUNT, to, toExists, list, TWIG);
  }

  lemma IssueLeaves(l: L.Ledger, owner: Name, tokens: L.Amounts)
    requires L.Inv(l) && L.IssueOk(l, tokens) && L.NoOverflow(l, tokens)
    ensures L.Held(l, BANK_ACCOUNT, TWIG) <= L.Held(L.Issue(l, owner, tokens).value, BANK_ACCOUNT, TWIG)
  {
    L.IssueAt(l, owner, tokens, TWIG);
  }

  lemma RetireLeaves(l: L.Ledger, owner: Name, tokens: L.Amounts)
    requires L.Inv(l) && L.RetireOk(l, owner, tokens)
    ensures L.Held(L.Retire(l, owner, tokens).value, BANK_ACCOUNT, TWIG)
         == L.Held(l, BANK_ACCOUNT, TWIG) - if owner == BANK_ACCOUNT then L.Amount(tokens, TWIG) else 0
  {
    L.RetireAt(l, owner, tokens, TWIG);
  }

  lemma OtherStep(w: World, action: L.Action)
    requires Inv(w) && Allowed(w, Other(action)) && L.Attempt(w.ledger, action).Some?
    ensures var l := L.Attempt(w.ledger, action).value;
      L.Inv(l) && Claims(w.bank, w.done) <= L.Held(l, BANK_ACCOUNT, TWIG)
  {
    L.StepKeepsInvIff(w.ledger, action);
    match action
    case DoIssue(owner, tokens) => IssueLeaves(w.ledger, owner, tokens);
    case DoRetire(owner, tokens) => RetireLeaves(w.ledger, owner, tokens);
    case DoOpen(owner) => L.OpenKeepsInv(w.ledger, owner);
    case DoClose(owner) => L.CloseDestroysNothing(w.ledger, owner);
    case DoSetSupplies(_) =>
    case DoRmvSupply(_) =>
  }

  /** The next queued payout passes every check of the ledger, as long as its receiver exists:
      in particular the bank's balance covers it. */
  lemma PayoutGoesThrough(w: World)
    requires Inv(w) && w.done < |w.bank.payouts|
    ensures AfterPayOut(w, true).Some?
  {
    var o := w.bank.payouts[w.done];
    assert o in w.bank.payouts;
    QueueHead(w);
    OwingNonNegative(w.bank);
    L.TwoHolders(w.ledger, BANK_ACCOUNT, o.to, TWIG);
    var list := PayoutList(o);
    assert list[..0] == [];
    assert L.Total(list, TWIG) == o.amount;
    assert L.TransferOk(w.ledger, BANK_ACCOUNT, o.to, true, list) by {
      TwigIsValid();
      assert forall y :: y in L.Symbols(list) ==> y == TWIG;
      assert 0 < L.Held(w.ledger, BANK_ACCOUNT, TWIG);
    }
  }

  /** A payout that is carried out moves its amount of the core token from the bank to the account it names. */
  lemma PayOutIsExact(w: World, toExists: bool)
    requires Inv(w) && AfterPayOut(w, toExists).Some?
    ensures var w' := AfterPayOut(w, toExists).value;
      var o := w.bank.payouts[w.done];
      && w' == w.(ledger := w'.ledger, done := w.done + 1)
      && L.Held(w'.ledger, BANK_ACCOUNT, TWIG) == L.Held(w.ledger, BANK_ACCOUNT, TWIG) - o.amount
      && (forall n :: n != BANK_ACCOUNT ==>
           L.Held(w'.ledger, n, TWIG) == L.Held(w.ledger, n, TWIG) + if n == o.to then o.amount else 0)
  {
    var o := w.bank.payouts[w.done];
    var list := PayoutList(o);
    assert o in w.bank.payouts && list[..0] == [] && L.Total(list, TWIG) == o.amount;
    L.TransferMoves(w.ledger, BANK_ACCOUNT, o.to, toExists, list, TWIG);
  }

  lemma QueueHead(w: World)
    requires w.done < |w.bank.payouts| && forall o :: o in w.bank.payouts ==> 0 < o.amount
    ensures Amount(w.bank.payouts[w.done..]) == w.bank.payouts[w.done].amount + Amount(w.bank.payouts[w.done + 1..])
    ensures 0 <= Amount(w.bank.payouts[w.done + 1..])
  {
    var o := w.bank.payouts[w.done];
    assert w.bank.payouts[w.done..] == [o] + w.bank.payouts[w.done + 1..];
    AmountAppend([o], w.bank.payouts[w.done + 1..]);
    AmountNonNegative(w.bank.payouts[w.done + 1..]);
    assert [o][..0] == [];
  }

  lemma OwingNonNegative(b: B.Bank)
    requires B.Inv(b)
    ensures 0 <= Sum(Owing(b.rows))
  {
    assert forall p :: p in b.rows ==> B.RowAccounts(b, p);
    SumNonNegative(Owing(b.rows));
  }

  lemma PayOutStep(w: World, toExists: bool)
    requires Inv(w) && AfterPayOut(w, toExists).Some?
    ensures Inv(AfterPayOut(w, toExists).value)
  {
    var o := w.bank.payouts[w.done];
    var list := PayoutList(o);
    assert o in w.bank.payouts && list[..0] == [];
    L.TransferKeepsInv(w.ledger, BANK_ACCOUNT, o.to, toExists, list);
    L.TransferMoves(w.ledger, BANK_ACCOUNT, o.to, toExists, list, TWIG);
    QueueHead(w);
  }

  lemma EpochStep(w: World)
    requires Inv(w)
    ensures Inv(Step(w, EpochEnds)) && Inv(Step(w, OnEpochAgain))
  {
    B.EpochKeepsInv(w.bank);
    EpochMovesDebts(w.bank, w.done);
    EpochPaysOwners(w.bank.rows, w.bank.epoch + 1, w.bank.rows.Keys);
    B.OnEpochIsIdempotent(w.bank);
  }

  lemma StepKeepsInv(w: World, a: Action)
    requires Inv(w) && Allowed(w, a)
    ensures Inv(Step(w, a))
  {
    if Attempt(w, a).Some? {
      match a
      case Transfer(from, to, toExists, list, memo) => TransferStep(w, from, to, toExists, list, memo);
      case PayOut(toExists) => PayOutStep(w, toExists);
      case Other(action) => OtherStep(w, action);
      case EpochEnds => EpochStep(w);
      case OnEpochAgain => EpochStep(w);
      case Counters(_, _) =>
    }
  }

  ghost predicate Run(states: seq<World>, actions: seq<Action>) {
    && |states| == |actions| + 1
    && states[0] == START
    && forall i :: 0 <= i < |actions| ==>
         Allowed(states[i], actions[i]) && states[i + 1] == Step(states[i], actions[i])
  }

  /** Over every run of both contracts the bank's balance covers every vesting row and every queued payout,
      and the next payout always goes through. */
  lemma {:induction false} BankStaysSolvent(states: seq<World>, actions: seq<Action>, i: nat)
    requires Run(states, actions) && i < |states|
    ensures Inv(states[i])
    ensures states[i].done < |states[i].bank.payouts| ==> AfterPayOut(states[i], true).Some?
  {
    if i == 0 {
      L.RunConserves([]);
      B.RunKeepsInv([B.FRESH], [], 0);
      assert Owing(START.bank.rows) == map[];
    } else {
      BankStaysSolvent(states, actions, i - 1);
      StepKeepsInv(states[i - 1], actions[i - 1]);
    }
    if states[i].done < |states[i].bank.payouts| { PayoutGoesThrough(states[i]); }
  }
}
