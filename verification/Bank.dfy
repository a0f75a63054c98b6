/** The bank contract: its vesting table, changed in place by deposit notifications and at the end of an epoch. */
module BankContract {
  import opened Common
  import opened BankSpec

  /** The counters of the system contract that the bank reads. */
  datatype Lucky = Lucky(epoch: nat, chunksRemaining: nat, producer: Name)

  /** Which vesting row a deposit memo names; the empty name is none. */
  function Beneficiary(memo: string, lucky: Lucky): Name {
    if memo == "team_share" then TEAM_ACCOUNT
    else if memo == "producer_share" then lucky.producer
    else 0
  }

  /** The transfers that count as deposits. */
  predicate IsDeposit(from: Name, to: Name, tokens: seq<Asset>, memo: string) {
    && to == BANK_ACCOUNT && from != BANK_ACCOUNT && from == CHUNKS_ACCOUNT
    && memo != "ignore_memo" && |tokens| == 1 && tokens[0].symbol == TWIG
  }

  class VestingBank {
    var vesting: map<Name, Row>
    var sent: seq<Payout>             // inline transfers from the bank's account
    ghost var booked: seq<Deposit>    // every deposit so far

    ghost function View(epoch: nat): Bank
      reads this
    {
      Bank(epoch, vesting, sent, booked)
    }

    ghost predicate Valid(epoch: nat)
      reads this
    {
      Inv(View(epoch))
    }

    constructor ()
      ensures Valid(1) && View(1) == FRESH
    {
      vesting, sent, booked := map[], [], [];
      new;
      RunKeepsInv([FRESH], [], 0);
    }

    /** The notification of a token transfer, whose amounts the token contract has checked to be positive. */
    method TokenDeposit(from: Name, to: Name, tokens: seq<Asset>, memo: string, lucky: Lucky) returns (ok: bool)
      requires Valid(lucky.epoch)
      requires forall t :: t in tokens ==> 0 < t.amount
      modifies this
      ensures Valid(lucky.epoch)
      ensures var deposit := to == BANK_ACCOUNT && from == CHUNKS_ACCOUNT && memo != "ignore_memo"
                             && |tokens| == 1 && tokens[0].symbol == TWIG;
        var was, now := old(View(lucky.epoch)), View(lucky.epoch);
        && (!deposit ==> ok && now == was)
        && (deposit && memo == "team_share" ==>
             ok && now == AfterDeposit(was, TEAM_ACCOUNT, tokens[0].amount, lucky.chunksRemaining))
        && (deposit && memo == "producer_share" && lucky.producer != 0 ==>
             ok && now == AfterDeposit(was, lucky.producer, tokens[0].amount, lucky.chunksRemaining))
        && (deposit && memo == "producer_share" && lucky.producer == 0 ==> !ok && now == was)
        && (deposit && memo != "team_share" && memo != "producer_share" ==> !ok && now == was)
    {
      if to != BANK_ACCOUNT || from == BANK_ACCOUNT || from != CHUNKS_ACCOUNT || memo == "ignore_memo"
         || |tokens| != 1 || tokens[0].symbol != TWIG {
        return true;
      }
      var quantity := tokens[0].amount;
      var producer := Beneficiary(memo, lucky);
      if producer == 0 { return false; }
      ghost var b := View(lucky.epoch);
      assert tokens[0] in tokens;
      DepositKeepsInv(b, producer, quantity, lucky.chunksRemaining);
      if producer !in vesting {
        vesting := vesting[producer := Row(quantity, 0, 0, lucky.epoch)];
        assert sent == sent + OnePayout(producer, 0);
      } else {
        var release := Book(producer, quantity, lucky.chunksRemaining);
        assert RowAccounts(b, producer);
        ReleaseInRange(b.rows[producer], lucky.chunksRemaining);
        if release > 0 {
          sent := sent + [Payout(producer, release)];
        }
        assert sent == b.payouts + OnePayout(producer, release);
      }
      booked := booked + [Deposit(producer, lucky.epoch, quantity)];
      return true;
    }

    /** Changes an existing row: books the deposit and releases what the formula allows. */
    method Book(producer: Name, quantity: int, chunksRemaining: nat) returns (release: int)
      requires producer in vesting
      modifies this`vesting
      ensures release == ReleaseNow(old(vesting)[producer], chunksRemaining)
      ensures vesting == old(vesting)[producer := RowAfterDeposit(old(vesting)[producer], quantity, chunksRemaining)]
    {
      var row := vesting[producer];
      row := row.(vested := row.vested + quantity);
      release := 0;
      if row.unvestingTotal > 0 {
        var chunksRatio := chunksRemaining / LUCKY_CHUNKS;
        var inversePaidoutRatio := ((row.unvested / row.unvestingTotal) - 1) * -1;
        var currentPayoutRatio := inversePaidoutRatio - chunksRatio;
        if currentPayoutRatio > 0 {
          release := currentPayoutRatio * row.unvestingTotal;
          if release + row.unvested > row.unvestingTotal {
            release := row.unvestingTotal - row.unvested;
          }
          row := row.(unvested := row.unvested + release);
        }
      }
      vesting := vesting[producer := row];
    }

    /** The end of an epoch. It may run when the system's epoch has just advanced past the one that the table was
        last updated for, and again at any time. */
    method OnEpoch(epoch: nat, lucky: Lucky, ghost was: nat) returns (ok: bool)
      requires Valid(was) && (was == lucky.epoch || was + 1 == lucky.epoch)
      modifies this
      ensures ok == (epoch == lucky.epoch)
      ensures if ok then Valid(epoch) && View(epoch) == AfterOnEpoch(old(View(was)), epoch)
              else View(was) == old(View(was))
    {
      ok := lucky.epoch == epoch;
      if ok {
        if was == epoch {
          OnEpochIsIdempotent(View(was));
        } else {
          EpochKeepsInv(View(was));
        }
        Walk(epoch);
      }
    }

    /** The walk over the table, in the order of its primary keys. */
    method Walk(epoch: nat)
      modifies this`vesting, this`sent
      ensures vesting == RolledRows(old(vesting), epoch)
      ensures sent == old(sent) + EpochPayouts(old(vesting), epoch, old(vesting).Keys)
    {
      ghost var rows, payouts := vesting, sent;
      var todo := vesting.Keys;
      while todo != {}
        invariant todo <= rows.Keys == vesting.Keys
        invariant forall p :: p in rows ==> vesting[p] == if p in todo then rows[p] else Rolled(rows[p], epoch)
        invariant sent + EpochPayouts(rows, epoch, todo) == payouts + EpochPayouts(rows, epoch, rows.Keys)
        decreases todo
      {
        LeastExists(todo);
        var p :| p in todo && forall q :: q in todo ==> p <= q;
        EpochPayoutsStep(rows, epoch, todo, p, sent);
        WalkRow(p, epoch);
        todo := todo - {p};
      }
    }

    /** One row of the walk: a row of the last epoch is paid out and rolled. */
    method WalkRow(p: Name, epoch: nat)
      requires p in vesting
      modifies this`vesting, this`sent
      ensures vesting == old(vesting)[p := Rolled(old(vesting)[p], epoch)]
      ensures sent == old(sent) + OnePayout(p, Due(old(vesting)[p], epoch))
    {
      var row := vesting[p];
      if row.epoch + 1 == epoch {
        var finished := row.unvestingTotal - row.unvested;
        if finished > 0 {
          sent := sent + [Payout(p, finished)];
        }
        vesting := vesting[p := Row(0, row.vested, 0, epoch)];
      }
    }
  }

  /** One step of the walk: what it pays comes first among the payouts of the names still to do. */
  lemma EpochPayoutsStep(rows: map<Name, Row>, epoch: nat, todo: set<Name>, p: Name, sent: seq<Payout>)
    requires todo <= rows.Keys && p in todo && forall q :: q in todo ==> p <= q
    ensures sent + EpochPayouts(rows, epoch, todo)
         == (sent + OnePayout(p, Due(rows[p], epoch))) + EpochPayouts(rows, epoch, todo - {p})
  {
    assert p == Least(todo);
  }
}
