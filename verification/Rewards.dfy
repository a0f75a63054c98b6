/** A found chunk across the contracts: the issue and the four transfers on the ledger, the bank's notification on two
    of them, and the payouts that the bank sends in between. */
module Rewards {
  import opened Common
  import L = LedgerSpec
  import B = BankSpec
  import C = BankContract
  import S = Solvency
  import T = Tokenomics

  // ---- Carrying out what the bank has queued ----

  /** Every queued payout, one after the other, to accounts that exist; one that fails undoes everything. */
  ghost function Settle(w: S.World): Option<S.World>
    decreases |w.bank.payouts| - w.done
  {
    if w.done >= |w.bank.payouts| then Some(w)
    else
      match S.AfterPayOut(w, true)
      case None => None
      case Some(w') => Settle(w')
  }

  /** What payouts have brought to an account between two positions. */
  ghost function PaidIn(b: B.Bank, lo: nat, hi: nat, n: Name): int
    requires lo <= hi <= |b.payouts|
  {
    B.PaidTo(b.payouts[lo..hi], n)
  }

  lemma PaidInNext(b: B.Bank, lo: nat, hi: nat, n: Name)
    requires lo <= hi < |b.payouts|
    ensures PaidIn(b, lo, hi + 1, n) == PaidIn(b, lo, hi, n) + if b.payouts[hi].to == n then b.payouts[hi].amount else 0
  {
    assert b.payouts[lo..hi + 1][..hi - lo] == b.payouts[lo..hi];
  }

  lemma PayOutPays(w: S.World)
    requires S.Inv(w) && CHUNKS_ACCOUNT in w.ledger.accounts && w.done < |w.bank.payouts|
    ensures S.AfterPayOut(w, true).Some?
    ensures var w' := S.AfterPayOut(w, true).value;
      S.Inv(w') && CHUNKS_ACCOUNT in w'.ledger.accounts && w' == w.(ledger := w'.ledger, done := w.done + 1)
  {
    S.PayoutGoesThrough(w);
    S.PayOutStep(w, true);
  }

  /** A solvent bank carries out its whole queue. */
  lemma {:induction false} SettleWorks(w: S.World)
    requires S.Inv(w) && CHUNKS_ACCOUNT in w.ledger.accounts
    ensures Settle(w).Some?
    ensures var w' := Settle(w).value;
      && S.Inv(w') && CHUNKS_ACCOUNT in w'.ledger.accounts
      && w' == w.(ledger := w'.ledger, done := |w.bank.payouts|)
    decreases |w.bank.payouts| - w.done
  {
    if w.done < |w.bank.payouts| {
      PayOutPays(w);
      SettleWorks(S.AfterPayOut(w, true).value);
    }
  }

  /** What an account holds beside what payouts from some position on have brought it. */
  ghost function Beside(w: S.World, from: nat, n: Name): int
    requires from <= w.done <= |w.bank.payouts|
  {
    L.Held(w.ledger, n, TWIG) - PaidIn(w.bank, from, w.done, n)
  }

  lemma PayOutLeavesBeside(w: S.World, from: nat, n: Name)
    requires S.Inv(w) && from <= w.done < |w.bank.payouts| && n != BANK_ACCOUNT
    ensures S.AfterPayOut(w, true).Some?
    ensures var w' := S.AfterPayOut(w, true).value;
      w'.bank == w.bank && w'.done == w.done + 1 && Beside(w', from, n) == Beside(w, from, n)
  {
    S.PayoutGoesThrough(w);
    S.PayOutIsExact(w, true);
    PaidInNext(w.bank, from, w.done, n);
  }

  /** Doing so, it brings each other account exactly what the queue holds for it. */
  lemma {:induction false} SettlePays(w: S.World, from: nat, n: Name)
    requires S.Inv(w) && CHUNKS_ACCOUNT in w.ledger.accounts && from <= w.done && n != BANK_ACCOUNT
    ensures Settle(w).Some?
    ensures var w' := Settle(w).value;
      && w'.bank == w.bank && w.done <= w'.done <= |w.bank.payouts|
      && Beside(w', from, n) == Beside(w, from, n)
    decreases |w.bank.payouts| - w.done
  {
    if w.done < |w.bank.payouts| {
      PayOutPays(w);
      PayOutLeavesBeside(w, from, n);
      SettlePays(S.AfterPayOut(w, true).value, from, n);
    }
  }

  // ---- One share ----

  /** A share of a chunk, with the bank's notification and whatever it makes the bank pay. */
  ghost function SendShare(o: Option<S.World>, to: Name, amount: int64, memo: string): Option<S.World> {
    match o
    case None => None
    case Some(w) =>
      match S.AfterTransfer(w, CHUNKS_ACCOUNT, to, true, [Asset(TWIG, amount)], memo)
      case None => None
      case Some(w') => Settle(w')
  }

  /** Only the bank books shares, and only for a beneficiary. */
  predicate Booked(w: S.World, to: Name, memo: string) {
    to == BANK_ACCOUNT ==> memo != "ignore_memo" && C.Beneficiary(memo, S.LuckyOf(w)) != 0
  }

  lemma LedgerPart(l: L.Ledger, to: Name, amount: int64)
    ensures L.Attempt(l, T.Send(to, amount)) == L.Transfer(l, CHUNKS_ACCOUNT, to, true, [Asset(TWIG, amount)])
  {
  }

  lemma ShareMoves(w: S.World, to: Name, amount: int64, memo: string)
    requires S.Inv(w) && CHUNKS_ACCOUNT in w.ledger.accounts && to != CHUNKS_ACCOUNT && memo != "ignore_memo"
    ensures var r := S.AfterTransfer(w, CHUNKS_ACCOUNT, to, true, [Asset(TWIG, amount)], memo);
      && (r.Some? <==> 0 < amount <= L.Held(w.ledger, CHUNKS_ACCOUNT, TWIG) && Booked(w, to, memo))
      && (r.Some? ==>
           && S.Inv(r.value) && CHUNKS_ACCOUNT in r.value.ledger.accounts
           && r.value == w.(ledger := r.value.ledger, bank := r.value.bank) && r.value.bank.epoch == w.bank.epoch
           && L.Held(r.value.ledger, CHUNKS_ACCOUNT, TWIG) == L.Held(w.ledger, CHUNKS_ACCOUNT, TWIG) - amount
           && (forall n :: n != CHUNKS_ACCOUNT ==>
                L.Held(r.value.ledger, n, TWIG) == L.Held(w.ledger, n, TWIG) + if n == to then amount else 0)
           && w.bank.payouts <= r.value.bank.payouts)
  {
    var list := [Asset(TWIG, amount)];
    T.SendOne(w.ledger, to, amount);
    LedgerPart(w.ledger, to, amount);
    var r := S.AfterTransfer(w, CHUNKS_ACCOUNT, to, true, list, memo);
    if r.Some? { S.TransferStep(w, CHUNKS_ACCOUNT, to, true, list, memo); }
  }

  /** What the bank books for a share that it receives: the team's or the lucky producer's, as the memo says. */
  function Booking(w: S.World, to: Name, amount: int, memo: string): seq<B.Deposit> {
    if to != BANK_ACCOUNT then []
    else [B.Deposit(if memo == "team_share" then TEAM_ACCOUNT else w.producer, w.bank.epoch, amount)]
  }

  /** A share to the bank raises its claims by its amount and is booked; any other leaves them. */
  lemma ShareClaims(w: S.World, to: Name, amount: int64, memo: string, from: nat)
    requires S.Inv(w) && from <= w.done && memo != "ignore_memo"
    requires S.AfterTransfer(w, CHUNKS_ACCOUNT, to, true, [Asset(TWIG, amount)], memo).Some?
    ensures var w' := S.AfterTransfer(w, CHUNKS_ACCOUNT, to, true, [Asset(TWIG, amount)], memo).value;
      && from <= |w'.bank.payouts|
      && w'.bank.deposits == w.bank.deposits + Booking(w, to, amount, memo)
      && S.Claims(w'.bank, from) == S.Claims(w.bank, from) + if to == BANK_ACCOUNT then amount else 0
  {
    if to == BANK_ACCOUNT {
      S.DepositBooksItsAmount(w.bank, C.Beneficiary(memo, S.LuckyOf(w)), amount, w.chunksRemaining, from);
    }
  }

  // ---- The whole chunk ----

  /** How far a chunk has come: what is left of its total in the chunks account, what has been added to the bank's claims,
      paid or not, what board and world have received, and what the bank has booked. */
  datatype Tally = Tally(left: int, banked: int, board: int, world: int, booked: seq<B.Deposit>)

  function Sent(w: S.World, t: Tally, to: Name, amount: int, memo: string): Tally {
    Tally(t.left - amount,
          if to == BANK_ACCOUNT then t.banked + amount else t.banked,
          if to == BOARD_ACCOUNT then t.board + amount else t.board,
          if to == WORLD_ACCOUNT then t.world + amount else t.world,
          t.booked + Booking(w, to, amount, memo))
  }

  /** What an account has gained beside what payouts have brought it. */
  ghost predicate Gained(w0: S.World, w: S.World, n: Name, amount: int)
    requires w0.done <= w.done <= |w.bank.payouts|
  {
    L.Held(w.ledger, n, TWIG) == L.Held(w0.ledger, n, TWIG) + amount + PaidIn(w.bank, w0.done, w.done, n)
  }

  ghost predicate Reached(w0: S.World, w: S.World, t: Tally)
    requires w0.done <= |w0.bank.payouts|
  {
    && S.Inv(w) && CHUNKS_ACCOUNT in w.ledger.accounts
    && w0.done <= w.done && w.producer == w0.producer && w.bank.epoch == w0.bank.epoch
    && L.Held(w.ledger, CHUNKS_ACCOUNT, TWIG) == t.left + PaidIn(w.bank, w0.done, w.done, CHUNKS_ACCOUNT)
    && Gained(w0, w, BOARD_ACCOUNT, t.board) && Gained(w0, w, WORLD_ACCOUNT, t.world)
    && S.Claims(w.bank, w0.done) == S.Claims(w0.bank, w0.done) + t.banked
    && w.bank.deposits == w0.bank.deposits + t.booked
  }

  ghost predicate Progress(w0: S.World, o: Option<S.World>, ok: bool, t: Tally)
    requires w0.done <= |w0.bank.payouts|
  {
    o.Some? == ok && (ok ==> Reached(w0, o.value, t))
  }

  lemma PaidInNonNegative(b: B.Bank, lo: nat, hi: nat, n: Name)
    requires lo <= hi <= |b.payouts| && forall o :: o in b.payouts ==> 0 < o.amount
    ensures 0 <= PaidIn(b, lo, hi, n)
    decreases hi
  {
    if lo < hi {
      PaidInNonNegative(b, lo, hi - 1, n);
      assert b.payouts[hi - 1] in b.payouts;
      PaidInNext(b, lo, hi - 1, n);
    }
  }

  lemma SamePaidIn(a: B.Bank, b: B.Bank, lo: nat, hi: nat)
    requires lo <= hi <= |a.payouts| && a.payouts <= b.payouts
    ensures forall n :: PaidIn(a, lo, hi, n) == PaidIn(b, lo, hi, n)
  {
    assert a.payouts[lo..hi] == b.payouts[lo..hi];
  }

  /** A share leaves the chunks account and reaches its receiver, whatever payouts have brought either of them. */
  lemma ShareGains(w0: S.World, w: S.World, t: Tally, to: Name, amount: int64, memo: string)
    requires w0.done <= |w0.bank.payouts| && Reached(w0, w, t) && to != CHUNKS_ACCOUNT && memo != "ignore_memo"
    requires S.AfterTransfer(w, CHUNKS_ACCOUNT, to, true, [Asset(TWIG, amount)], memo).Some?
    ensures var w', t' := S.AfterTransfer(w, CHUNKS_ACCOUNT, to, true, [Asset(TWIG, amount)], memo).value,
                          Sent(w0, t, to, amount, memo);
      && w0.done <= w'.done <= |w'.bank.payouts|
      && L.Held(w'.ledger, CHUNKS_ACCOUNT, TWIG) == t'.left + PaidIn(w'.bank, w0.done, w'.done, CHUNKS_ACCOUNT)
      && Gained(w0, w', BOARD_ACCOUNT, t'.board) && Gained(w0, w', WORLD_ACCOUNT, t'.world)
  {
    ShareMoves(w, to, amount, memo);
    SamePaidIn(w.bank, S.AfterTransfer(w, CHUNKS_ACCOUNT, to, true, [Asset(TWIG, amount)], memo).value.bank, w0.done, w.done);
  }

  lemma ShareBooks(w0: S.World, w: S.World, t: Tally, to: Name, amount: int64, memo: string)
    requires w0.done <= |w0.bank.payouts| && Reached(w0, w, t) && memo != "ignore_memo"
    requires S.AfterTransfer(w, CHUNKS_ACCOUNT, to, true, [Asset(TWIG, amount)], memo).Some?
    ensures var w', t' := S.AfterTransfer(w, CHUNKS_ACCOUNT, to, true, [Asset(TWIG, amount)], memo).value,
                          Sent(w0, t, to, amount, memo);
      && w0.done <= |w'.bank.payouts|
      && S.Claims(w'.bank, w0.done) == S.Claims(w0.bank, w0.done) + t'.banked
      && w'.bank.deposits == w0.bank.deposits + t'.booked
  {
    ShareClaims(w, to, amount, memo, w0.done);
    assert w0.bank.deposits + t.booked + Booking(w0, to, amount, memo)
        == w0.bank.deposits + (t.booked + Booking(w0, to, amount, memo));
  }

  lemma ShareAccepted(w0: S.World, w: S.World, t: Tally, to: Name, amount: int64, memo: string)
    requires w0.done <= |w0.bank.payouts| && Reached(w0, w, t)
    requires amount <= t.left && to != CHUNKS_ACCOUNT && memo != "ignore_memo"
    ensures var r := S.AfterTransfer(w, CHUNKS_ACCOUNT, to, true, [Asset(TWIG, amount)], memo);
      && (r.Some? <==> 0 < amount && Booked(w0, to, memo))
      && (r.Some? ==> Reached(w0, r.value, Sent(w0, t, to, amount, memo)))
  {
    PaidInNonNegative(w.bank, w0.done, w.done, CHUNKS_ACCOUNT);
    ShareMoves(w, to, amount, memo);
    if S.AfterTransfer(w, CHUNKS_ACCOUNT, to, true, [Asset(TWIG, amount)], memo).Some? {
      ShareGains(w0, w, t, to, amount, memo);
      ShareBooks(w0, w, t, to, amount, memo);
    }
  }

  lemma SettleReaches(w0: S.World, w: S.World, t: Tally)
    requires w0.done <= |w0.bank.payouts| && Reached(w0, w, t)
    ensures Settle(w).Some? && Reached(w0, Settle(w).value, t)
  {
    SettleWorks(w);
    SettlePays(w, w0.done, CHUNKS_ACCOUNT);
    SettlePays(w, w0.done, BOARD_ACCOUNT);
    SettlePays(w, w0.done, WORLD_ACCOUNT);
  }

  lemma ShareStep(w0: S.World, o: Option<S.World>, ok: bool, t: Tally, to: Name, amount: int64, memo: string)
    requires w0.done <= |w0.bank.payouts| && Progress(w0, o, ok, t)
    requires amount <= t.left && to != CHUNKS_ACCOUNT && memo != "ignore_memo"
    ensures Progress(w0, SendShare(o, to, amount, memo), ok && 0 < amount && Booked(w0, to, memo),
                     Sent(w0, t, to, amount, memo))
  {
    if ok {
      ShareAccepted(w0, o.value, t, to, amount, memo);
      var r := S.AfterTransfer(o.value, CHUNKS_ACCOUNT, to, true, [Asset(TWIG, amount)], memo);
      if r.Some? { SettleReaches(w0, r.value, Sent(w0, t, to, amount, memo)); }
    }
  }

  ghost function Issued(w: S.World, issue: Option<int64>): Option<S.World> {
    match T.AfterIssue(w.ledger, issue)
    case None => None
    case Some(l) => Some(w.(ledger := l))
  }

  /** The inline actions of a chunk in their order, each carried out to its end before the next. */
  ghost function Reward(w: S.World, issue: Option<int64>, total: nat): Option<S.World>
    requires total <= MAX_INT64
  {
    var s := T.SplitOf(total);
    T.SplitIsTight(total);
    ProducerAndWorld(TeamAndBoard(w, issue, s), s)
  }

  ghost function ProducerAndWorld(o: Option<S.World>, s: T.Shares): Option<S.World>
    requires s.producer <= MAX_INT64 && s.world <= MAX_INT64
  {
    var producer := SendShare(o, BANK_ACCOUNT, s.producer, "producer_share");
    SendShare(producer, WORLD_ACCOUNT, s.world, "Refilling World...")
  }

  ghost function TeamAndBoard(w: S.World, issue: Option<int64>, s: T.Shares): Option<S.World>
    requires s.team <= MAX_INT64 && s.board <= MAX_INT64
  {
    var team := SendShare(Issued(w, issue), BANK_ACCOUNT, s.team, "team_share");
    SendShare(team, BOARD_ACCOUNT, s.board, "board_share")
  }

  lemma IssueKeepsWorld(w: S.World, issue: Option<int64>)
    requires S.Inv(w) && CHUNKS_ACCOUNT in w.ledger.accounts && 0 <= T.IssueAmount(issue) <= MAX_AMOUNT
    requires Issued(w, issue).Some?
    ensures S.Inv(Issued(w, issue).value)
  {
    if issue.Some? {
      L.ValidAmountsNeverOverflow(w.ledger, map[TWIG := issue.value]);
      S.OtherStep(w, T.IssueAction(issue.value));
    }
  }

  lemma IssueGains(w: S.World, issue: Option<int64>, n: Name)
    requires S.Inv(w) && 0 <= T.IssueAmount(issue) <= MAX_AMOUNT && Issued(w, issue).Some? && n != CHUNKS_ACCOUNT
    ensures L.Held(Issued(w, issue).value.ledger, n, TWIG) == L.Held(w.ledger, n, TWIG)
  {
  }

  lemma IssueStep(w: S.World, issue: Option<int64>)
    requires S.Inv(w) && CHUNKS_ACCOUNT in w.ledger.accounts && 0 <= T.IssueAmount(issue) <= MAX_AMOUNT
    ensures Progress(w, Issued(w, issue), issue.Some? ==> T.IssueAccepted(w.ledger, issue.value),
                     Tally(L.Held(w.ledger, CHUNKS_ACCOUNT, TWIG) + T.IssueAmount(issue), 0, 0, 0, []))
  {
    T.AfterIssueIff(w.ledger, issue);
    if Issued(w, issue).Some? {
      IssueKeepsWorld(w, issue);
      IssueGains(w, issue, BOARD_ACCOUNT);
      IssueGains(w, issue, WORLD_ACCOUNT);
    }
    assert w.bank.payouts[w.done..w.done] == [];
  }

  /** Two shares, one after the other. */
  lemma TwoShares(w0: S.World, o: Option<S.World>, ok: bool, t: Tally,
                  to: Name, amount: int64, memo: string, next: Name, rest: int64, note: string)
    requires w0.done <= |w0.bank.payouts| && Progress(w0, o, ok, t)
    requires amount + rest <= t.left && 0 <= rest
    requires to != CHUNKS_ACCOUNT && memo != "ignore_memo" && next != CHUNKS_ACCOUNT && note != "ignore_memo"
    ensures Progress(w0, SendShare(SendShare(o, to, amount, memo), next, rest, note),
                     (ok && 0 < amount && Booked(w0, to, memo)) && 0 < rest && Booked(w0, next, note),
                     Sent(w0, Sent(w0, t, to, amount, memo), next, rest, note))
  {
    ShareStep(w0, o, ok, t, to, amount, memo);
    ShareStep(w0, SendShare(o, to, amount, memo), ok && 0 < amount && Booked(w0, to, memo),
              Sent(w0, t, to, amount, memo), next, rest, note);
  }

  function TeamAndBoardTally(w: S.World, s: T.Shares, total: nat): Tally {
    Tally(total - s.team - s.board, s.team, s.board, 0, [B.Deposit(TEAM_ACCOUNT, w.bank.epoch, s.team)])
  }

  function AllSent(w: S.World, s: T.Shares, total: nat): Tally {
    Tally(total - s.Sum(), s.team + s.producer, s.board, s.world,
          [B.Deposit(TEAM_ACCOUNT, w.bank.epoch, s.team), B.Deposit(w.producer, w.bank.epoch, s.producer)])
  }

  lemma TeamAndBoardSent(w: S.World, s: T.Shares, total: nat)
    ensures Sent(w, Sent(w, Tally(total, 0, 0, 0, []), BANK_ACCOUNT, s.team, "team_share"), BOARD_ACCOUNT, s.board, "board_share")
         == TeamAndBoardTally(w, s, total)
  {
  }

  lemma ProducerAndWorldSent(w: S.World, s: T.Shares, total: nat)
    ensures Sent(w, Sent(w, TeamAndBoardTally(w, s, total), BANK_ACCOUNT, s.producer, "producer_share"),
                 WORLD_ACCOUNT, s.world, "Refilling World...")
         == AllSent(w, s, total)
  {
    assert "team_share"[0] == 't' && "producer_share"[0] == 'p';
  }

  lemma TeamAndBoardProgress(w: S.World, issue: Option<int64>, s: T.Shares, total: nat)
    requires S.Inv(w) && CHUNKS_ACCOUNT in w.ledger.accounts && 0 <= T.IssueAmount(issue) <= MAX_AMOUNT
    requires total == L.Held(w.ledger, CHUNKS_ACCOUNT, TWIG) + T.IssueAmount(issue) <= MAX_INT64
    requires s.team + s.board <= total
    ensures Progress(w, TeamAndBoard(w, issue, s),
                     (issue.Some? ==> T.IssueAccepted(w.ledger, issue.value)) && 0 < s.team && 0 < s.board,
                     TeamAndBoardTally(w, s, total))
  {
    IssueStep(w, issue);
    TwoShares(w, Issued(w, issue), issue.Some? ==> T.IssueAccepted(w.ledger, issue.value), Tally(total, 0, 0, 0, []),
              BANK_ACCOUNT, s.team, "team_share", BOARD_ACCOUNT, s.board, "board_share");
    TeamAndBoardSent(w, s, total);
  }

  lemma ProducerAndWorldProgress(w: S.World, o: Option<S.World>, ok: bool, s: T.Shares, total: nat)
    requires w.done <= |w.bank.payouts| && Progress(w, o, ok, TeamAndBoardTally(w, s, total))
    requires s.Sum() <= total && s.producer <= MAX_INT64 && s.world <= MAX_INT64
    ensures Progress(w, ProducerAndWorld(o, s), ok && 0 < s.producer && 0 < s.world && w.producer != 0, AllSent(w, s, total))
  {
    TwoShares(w, o, ok, TeamAndBoardTally(w, s, total),
              BANK_ACCOUNT, s.producer, "producer_share", WORLD_ACCOUNT, s.world, "Refilling World...");
    ProducerAndWorldSent(w, s, total);
  }

  lemma RewardProgress(w: S.World, issue: Option<int64>, total: nat)
    requires S.Inv(w) && CHUNKS_ACCOUNT in w.ledger.accounts && 0 <= T.IssueAmount(issue) <= MAX_AMOUNT
    requires total == L.Held(w.ledger, CHUNKS_ACCOUNT, TWIG) + T.IssueAmount(issue) <= MAX_INT64
    ensures Progress(w, Reward(w, issue, total),
                     (issue.Some? ==> T.IssueAccepted(w.ledger, issue.value)) && 400 <= total && w.producer != 0,
                     AllSent(w, T.SplitOf(total), total))
  {
    T.SplitIsTight(total);
    var s := T.SplitOf(total);
    var issued := issue.Some? ==> T.IssueAccepted(w.ledger, issue.value);
    TeamAndBoardProgress(w, issue, s, total);
    ProducerAndWorldProgress(w, TeamAndBoard(w, issue, s), issued && 0 < s.team && 0 < s.board, s, total);
  }

  /** A chunk completes across the contracts if and only if its issue is accepted, at least 400 units are there to
      split and there is a lucky producer. It leaves the bank solvent and its queue empty; the bank's debts and the
      payouts since have grown by exactly the shares of team and producer; and beside what payouts have brought back,
      the chunks account keeps at most three units. */
  lemma RewardCompletesIff(w: S.World, issue: Option<int64>, total: int)
    requires S.Inv(w) && CHUNKS_ACCOUNT in w.ledger.accounts
    requires T.StillIssues(w.bank.epoch) ==> TWIG in w.ledger.maxSupply
    requires issue == T.IssueOf(w.ledger, w.bank.epoch)
    requires total == L.Held(w.ledger, CHUNKS_ACCOUNT, TWIG) + T.IssueAmount(issue)
    ensures 0 <= total <= MAX_INT64
    ensures var r, s := Reward(w, issue, total), T.SplitOf(total);
      && (r.Some? <==> (issue.Some? ==> T.IssueAccepted(w.ledger, issue.value)) && 400 <= total && w.producer != 0)
      && (r.Some? ==>
           && S.Inv(r.value) && CHUNKS_ACCOUNT in r.value.ledger.accounts
           && w.done <= r.value.done == |r.value.bank.payouts|
           && S.Claims(r.value.bank, w.done) == S.Claims(w.bank, w.done) + s.team + s.producer
           && 0 <= L.Held(r.value.ledger, CHUNKS_ACCOUNT, TWIG)
                   - PaidIn(r.value.bank, w.done, r.value.done, CHUNKS_ACCOUNT) <= 3)
  {
    T.ChunkTotalInRange(w.ledger, w.bank.epoch);
    T.SplitIsTight(total);
    RewardProgress(w, issue, total);
    RewardSettles(w, issue, total);
  }

  lemma RewardBooks(w: S.World, issue: Option<int64>, total: nat)
    requires S.Inv(w) && CHUNKS_ACCOUNT in w.ledger.accounts && 0 <= T.IssueAmount(issue) <= MAX_AMOUNT
    requires total == L.Held(w.ledger, CHUNKS_ACCOUNT, TWIG) + T.IssueAmount(issue) <= MAX_INT64
    ensures Reward(w, issue, total).Some? ==>
      var w', s := Reward(w, issue, total).value, T.SplitOf(total);
      && w'.bank.epoch == w.bank.epoch && w.done <= w'.done <= |w'.bank.payouts|
      && w'.bank.deposits == w.bank.deposits
           + [B.Deposit(TEAM_ACCOUNT, w.bank.epoch, s.team), B.Deposit(w.producer, w.bank.epoch, s.producer)]
      && Gained(w, w', BOARD_ACCOUNT, s.board) && Gained(w, w', WORLD_ACCOUNT, s.world)
  {
    RewardProgress(w, issue, total);
  }

  /** Who gets what of a completed chunk: the bank books the team's share for the team account and the producer's for the
      lucky producer, in the current epoch; board and world receive theirs, beside what payouts bring them. */
  lemma RewardGoesToItsOwners(w: S.World, issue: Option<int64>, total: nat, p: Name, e: int)
    requires S.Inv(w) && CHUNKS_ACCOUNT in w.ledger.accounts && 0 <= T.IssueAmount(issue) <= MAX_AMOUNT
    requires total == L.Held(w.ledger, CHUNKS_ACCOUNT, TWIG) + T.IssueAmount(issue) <= MAX_INT64
    ensures Reward(w, issue, total).Some? ==>
      var w', s := Reward(w, issue, total).value, T.SplitOf(total);
      && w'.bank.epoch == w.bank.epoch && w.done <= w'.done <= |w'.bank.payouts|
      && B.DepositedIn(w'.bank.deposits, p, e)
           == B.DepositedIn(w.bank.deposits, p, e)
              + (if p == TEAM_ACCOUNT && e == w.bank.epoch then s.team else 0)
              + (if p == w.producer && e == w.bank.epoch then s.producer else 0)
      && Gained(w, w', BOARD_ACCOUNT, s.board) && Gained(w, w', WORLD_ACCOUNT, s.world)
  {
    RewardBooks(w, issue, total);
    var s := T.SplitOf(total);
    B.DepositTwo(w.bank.deposits, B.Deposit(TEAM_ACCOUNT, w.bank.epoch, s.team),
                 B.Deposit(w.producer, w.bank.epoch, s.producer), p, e);
  }

  lemma {:induction false} SettleEmpties(w: S.World)
    requires w.done <= |w.bank.payouts| && Settle(w).Some?
    ensures Settle(w).value.done == |Settle(w).value.bank.payouts|
    decreases |w.bank.payouts| - w.done
  {
    if w.done < |w.bank.payouts| { SettleEmpties(S.AfterPayOut(w, true).value); }
  }

  lemma ShareSettles(o: Option<S.World>, to: Name, amount: int64, memo: string)
    requires o.Some? ==> o.value.done <= |o.value.bank.payouts|
    ensures var r := SendShare(o, to, amount, memo); r.Some? ==> r.value.done == |r.value.bank.payouts|
  {
    if SendShare(o, to, amount, memo).Some? {
      SettleEmpties(S.AfterTransfer(o.value, CHUNKS_ACCOUNT, to, true, [Asset(TWIG, amount)], memo).value);
    }
  }

  lemma RewardSettles(w: S.World, issue: Option<int64>, total: nat)
    requires total <= MAX_INT64 && w.done <= |w.bank.payouts|
    ensures var r := Reward(w, issue, total); r.Some? ==> r.value.done == |r.value.bank.payouts|
  {
    T.SplitIsTight(total);
    var s := T.SplitOf(total);
    var team := SendShare(Issued(w, issue), BANK_ACCOUNT, s.team, "team_share");
    ShareSettles(Issued(w, issue), BANK_ACCOUNT, s.team, "team_share");
    ShareSettles(team, BOARD_ACCOUNT, s.board, "board_share");
    var o := TeamAndBoard(w, issue, s);
    ShareSettles(o, BANK_ACCOUNT, s.producer, "producer_share");
    o := SendShare(o, BANK_ACCOUNT, s.producer, "producer_share");
    ShareSettles(o, WORLD_ACCOUNT, s.world, "Refilling World...");
  }
}
