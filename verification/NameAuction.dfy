/** The name auction: bids that must rise by a tenth, and refunds for those who were outbid. */
module NameAuction {
  import opened Arithmetic
  import opened Common
  import opened Sums

  datatype Bid = Bid(highBidder: Name, highBid: int, lastBidTime: nat)

  /** The refund table is scoped by name and keyed by bidder. */
  datatype RefundKey = RefundKey(newname: Name, bidder: Name)

  /** What happened to one name so far: bids taken in, refunds paid out, the first bid and the number of overbids. */
  datatype Tally = Tally(taken: int, paid: int, first: int, overbids: nat)

  /** The two tables, and what has happened: per name, and per name and bidder the amounts given and returned. */
  datatype Auction = Auction(
    bids: map<Name, Bid>,
    refunds: map<RefundKey, int>,
    tallies: map<Name, Tally>,
    given: map<RefundKey, int>,
    returned: map<RefundKey, int>)

  const NO_BIDS := Auction(map[], map[], map[], map[], map[])

  function Get(m: map<RefundKey, int>, key: RefundKey): int {
    if key in m then m[key] else 0
  }

  function TallyOf(a: Auction, n: Name): Tally {
    if n in a.tallies then a.tallies[n] else Tally(0, 0, 0, 0)
  }

  // ---- The actions ----

  /** The checks on the name itself; whether it is its own suffix and whether the account exists is the host's answer. */
  predicate Biddable(newname: Name, isSuffix: bool, accountExists: bool) {
    isSuffix && newname != 0 && newname % 16 == 0 && newname / 16 % 32 == 0 && !accountExists
  }

  /** An overbid must exceed the high bid by more than a tenth of it, in integers. */
  predicate Outbids(high: int, bid: int) {
    bid - high > high / 10
  }

  predicate ValidAmount(x: int) {
    -MAX_AMOUNT <= x <= MAX_AMOUNT
  }

  function FirstBid(a: Auction, bidder: Name, newname: Name, bid: int, now: nat): Auction {
    Auction(
      a.bids[newname := Bid(bidder, bid, now)],
      a.refunds,
      a.tallies[newname := TallyOf(a, newname).(taken := TallyOf(a, newname).taken + bid, first := bid, overbids := 0)],
      a.given[RefundKey(newname, bidder) := Get(a.given, RefundKey(newname, bidder)) + bid],
      a.returned)
  }

  function Overbid(a: Auction, bidder: Name, newname: Name, bid: int, now: nat): Auction
    requires newname in a.bids
  {
    var key := RefundKey(newname, a.bids[newname].highBidder);
    var t := TallyOf(a, newname);
    Auction(
      a.bids[newname := Bid(bidder, bid, now)],
      a.refunds[key := Wrap64(Get(a.refunds, key) + a.bids[newname].highBid)],
      a.tallies[newname := t.(taken := t.taken + bid, overbids := t.overbids + 1)],
      a.given[RefundKey(newname, bidder) := Get(a.given, RefundKey(newname, bidder)) + bid],
      a.returned)
  }

  /** The addition to the old bidder's refund, which the asset type refuses when the sum is out of range. */
  predicate RefundFits(a: Auction, newname: Name)
    requires newname in a.bids
  {
    var key := RefundKey(newname, a.bids[newname].highBidder);
    ValidAmount(Wrap64(Get(a.refunds, key) + a.bids[newname].highBid))
  }

  /** A bid; the payment that it sends refuses an amount that is not a valid asset, which undoes the bid. */
  function BidName(a: Auction, bidder: Name, newname: Name, bid: Asset, core: Symbol, isSuffix: bool, accountExists: bool, now: nat): Option<Auction> {
    if !Biddable(newname, isSuffix, accountExists) || bid.symbol != core || bid.amount <= 0 || !ValidAmount(bid.amount) then None
    else if newname !in a.bids then Some(FirstBid(a, bidder, newname, bid.amount, now))
    else if a.bids[newname].highBid <= 0 || !Outbids(a.bids[newname].highBid, bid.amount)
            || a.bids[newname].highBidder == bidder || !RefundFits(a, newname) then None
    else Some(Overbid(a, bidder, newname, bid.amount, now))
  }

  function BidRefund(a: Auction, bidder: Name, newname: Name): Option<Auction> {
    var key := RefundKey(newname, bidder);
    if key !in a.refunds then None
    else
      var t := TallyOf(a, newname);
      Some(Auction(a.bids, a.refunds - {key}, a.tallies[newname := t.(paid := t.paid + a.refunds[key])],
                   a.given, a.returned[key := Get(a.returned, key) + a.refunds[key]]))
  }

  // ---- What each action accepts and leaves ----

  /** The name's last nine bits are clear: those of a thirteenth and of a twelfth character. */
  lemma BiddableIff(newname: Name, isSuffix: bool, accountExists: bool)
    ensures Biddable(newname, isSuffix, accountExists) <==> isSuffix && 0 < newname && newname % 512 == 0 && !accountExists
  {
  }

  /** The integer rule asks for more than the high bid and its truncated tenth. That is a rise by more than a tenth, and
      every rise by more than a tenth and nine tenths of a unit will do. */
  lemma OutbidsIff(high: int, bid: int)
    requires 0 <= high
    ensures Outbids(high, bid) <==> high + high / 10 < bid
    ensures Outbids(high, bid) ==> 11 * high < 10 * bid
    ensures 11 * high + 9 < 10 * bid ==> Outbids(high, bid)
  {
  }

  /** A bid is accepted exactly on a name that can be bid on, in the core symbol, with a positive valid amount; and on top
      of a bid by somebody else that it exceeds by more than a tenth, with a refund that stays a valid amount. */
  lemma BidIsAcceptedIff(a: Auction, bidder: Name, newname: Name, bid: Asset, core: Symbol, isSuffix: bool, accountExists: bool,
      now: nat)
    requires AmountsValid(a)
    ensures BidName(a, bidder, newname, bid, core, isSuffix, accountExists, now).Some? <==>
      && isSuffix && 0 < newname && newname % 512 == 0 && !accountExists
      && bid.symbol == core && 0 < bid.amount <= MAX_AMOUNT
      && (newname in a.bids ==>
           var row := a.bids[newname];
           && row.highBidder != bidder && row.highBid + row.highBid / 10 < bid.amount
           && Get(a.refunds, RefundKey(newname, row.highBidder)) + row.highBid <= MAX_AMOUNT)
  {
    BiddableIff(newname, isSuffix, accountExists);
    if newname in a.bids {
      OutbidsIff(a.bids[newname].highBid, bid.amount);
      RefundSum(a, newname);
    }
  }

  /** It becomes the high bid of its name; the bidder it replaces is owed the old one on top of what it was owed; and
      every other bid and refund is as it was. */
  lemma BidIsExact(a: Auction, bidder: Name, newname: Name, bid: Asset, core: Symbol, isSuffix: bool, accountExists: bool,
      now: nat)
    requires AmountsValid(a) && BidName(a, bidder, newname, bid, core, isSuffix, accountExists, now).Some?
    ensures var a' := BidName(a, bidder, newname, bid, core, isSuffix, accountExists, now).value;
      && a'.bids.Keys == a.bids.Keys + {newname} && a'.bids[newname] == Bid(bidder, bid.amount, now)
      && (forall n :: n in a.bids && n != newname ==> a'.bids[n] == a.bids[n])
      && (newname !in a.bids ==> a'.refunds == a.refunds)
      && (newname in a.bids ==>
           var key := RefundKey(newname, a.bids[newname].highBidder);
           && a'.refunds.Keys == a.refunds.Keys + {key}
           && a'.refunds[key] == (if key in a.refunds then a.refunds[key] else 0) + a.bids[newname].highBid
           && (forall k :: k in a.refunds && k != key ==> a'.refunds[k] == a.refunds[k]))
  {
    if newname in a.bids { RefundSum(a, newname); }
  }

  /** A refund is accepted exactly when one is owed; it takes that row away and nothing else. */
  lemma RefundIsExact(a: Auction, bidder: Name, newname: Name)
    ensures BidRefund(a, bidder, newname).Some? <==> RefundKey(newname, bidder) in a.refunds
    ensures BidRefund(a, bidder, newname).Some? ==>
      var a' := BidRefund(a, bidder, newname).value;
      && a'.bids == a.bids && a'.refunds.Keys == a.refunds.Keys - {RefundKey(newname, bidder)}
      && (forall key :: key in a'.refunds ==> a'.refunds[key] == a.refunds[key])
  {
  }

  // ---- Conservation and growth ----

  ghost function RefundsOn(refunds: map<RefundKey, int>, n: Name): map<RefundKey, int> {
    map k | k in refunds && k.newname == n :: refunds[k]
  }

  function HighBid(a: Auction, n: Name): int {
    if n in a.bids then a.bids[n].highBid else 0
  }

  /** Every token taken for a name is in the high bid, owed as a refund, or paid back. */
  ghost predicate Conserved(a: Auction, n: Name) {
    TallyOf(a, n).taken == HighBid(a, n) + Sum(RefundsOn(a.refunds, n)) + TallyOf(a, n).paid
  }

  /** After k overbids the high bid is at least 1.1 to the k times the first, and strictly more when k is positive. */
  ghost predicate Grown(a: Auction, n: Name) {
    n in a.bids ==>
      var t := TallyOf(a, n);
      var high := a.bids[n].highBid;
      && 0 < t.first && 0 < high
      && Pow(11, t.overbids) * t.first <= Pow(10, t.overbids) * high
      && (0 < t.overbids ==> Pow(11, t.overbids) * t.first < Pow(10, t.overbids) * high)
  }

  /** What a bidder gave for a name is its standing high bid, owed to it, or returned to it. */
  ghost predicate FairTo(a: Auction, key: RefundKey) {
    Get(a.given, key) ==
      (if key.newname in a.bids && a.bids[key.newname].highBidder == key.bidder then a.bids[key.newname].highBid else 0)
      + Get(a.refunds, key) + Get(a.returned, key)
  }

  /** Every stored amount is a valid asset. */
  ghost predicate AmountsValid(a: Auction) {
    && (forall n :: n in a.bids ==> 0 < a.bids[n].highBid <= MAX_AMOUNT)
    && (forall key :: key in a.refunds ==> 0 < a.refunds[key] <= MAX_AMOUNT)
  }

  ghost predicate Inv(a: Auction) {
    && AmountsValid(a)
    && (forall n :: Conserved(a, n) && Grown(a, n))
    && (forall key :: FairTo(a, key))
  }

  lemma RefundsUpdate(refunds: map<RefundKey, int>, key: RefundKey, amount: int, n: Name)
    ensures Sum(RefundsOn(refunds[key := amount], n)) == Sum(RefundsOn(refunds, n))
      + if key.newname == n then amount - (if key in refunds then refunds[key] else 0) else 0
  {
    if key.newname == n {
      assert RefundsOn(refunds[key := amount], n) == RefundsOn(refunds, n)[key := amount];
      SumUpdate(RefundsOn(refunds, n), key, amount);
    } else {
      assert RefundsOn(refunds[key := amount], n) == RefundsOn(refunds, n);
    }
  }

  lemma RefundsRemove(refunds: map<RefundKey, int>, key: RefundKey, n: Name)
    requires key in refunds
    ensures Sum(RefundsOn(refunds - {key}, n)) == Sum(RefundsOn(refunds, n)) - if key.newname == n then refunds[key] else 0
  {
    if key.newname == n {
      assert RefundsOn(refunds - {key}, n) == RefundsOn(refunds, n) - {key};
      SumWithout(RefundsOn(refunds, n), key);
    } else {
      assert RefundsOn(refunds - {key}, n) == RefundsOn(refunds, n);
    }
  }

  /** The integer rule is strictly stronger than a rise by a tenth. */
  lemma OutbidsByATenth(high: int, bid: int)
    requires Outbids(high, bid)
    ensures 11 * high < 10 * bid
  {
  }

  lemma GrowthStep(k: nat, first: int, high: int, bid: int)
    requires Pow(11, k) * first <= Pow(10, k) * high && 11 * high < 10 * bid
    ensures Pow(11, k + 1) * first < Pow(10, k + 1) * bid
  {
    PowPositive(10, k);
    ScaledGrowth(Pow(10, k), Pow(11, k), first, high, bid);
  }

  lemma ScaledGrowth(p: int, q: int, first: int, high: int, bid: int)
    requires 0 < p && q * first <= p * high && 11 * high < 10 * bid
    ensures 11 * q * first < 10 * p * bid
  {
    Assoc(11, q, first);
    Swap(p, 11, high);
    MulStrict(11 * high, 10 * bid, p);
    Swap(p, 10, bid);
    Assoc(10, p, bid);
  }

  lemma FirstBidKeepsInv(a: Auction, bidder: Name, newname: Name, bid: int, now: nat)
    requires Inv(a) && newname !in a.bids && 0 < bid <= MAX_AMOUNT
    ensures Inv(FirstBid(a, bidder, newname, bid, now))
  {
    forall n ensures Conserved(FirstBid(a, bidder, newname, bid, now), n) && Grown(FirstBid(a, bidder, newname, bid, now), n) {
      assert Conserved(a, n) && Grown(a, n);
      assert Pow(11, 0) == 1 && Pow(10, 0) == 1;
    }
    forall key ensures FairTo(FirstBid(a, bidder, newname, bid, now), key) {
      assert FairTo(a, key);
    }
  }

  /** The checked addition is the true one: neither summand exceeds a valid amount. */
  lemma RefundSum(a: Auction, newname: Name)
    requires AmountsValid(a) && newname in a.bids
    ensures var key := RefundKey(newname, a.bids[newname].highBidder);
      && 0 < Get(a.refunds, key) + a.bids[newname].highBid
      && Wrap64(Get(a.refunds, key) + a.bids[newname].highBid) == Get(a.refunds, key) + a.bids[newname].highBid
  {
  }

  /** While what was taken for a name and not paid back is a valid amount, an overbid never fails for its refund. */
  lemma RefundFitsWithinTaken(a: Auction, n: Name)
    requires Inv(a) && n in a.bids && TallyOf(a, n).taken - TallyOf(a, n).paid <= MAX_AMOUNT
    ensures RefundFits(a, n)
  {
    var key := RefundKey(n, a.bids[n].highBidder);
    assert Conserved(a, n);
    RefundSum(a, n);
    OneRefund(RefundsOn(a.refunds, n), key);
  }

  lemma OneRefund(refunds: map<RefundKey, int>, key: RefundKey)
    requires forall k :: k in refunds ==> 0 <= refunds[k]
    ensures Get(refunds, key) <= Sum(refunds)
  {
    if key in refunds {
      SumWithout(refunds, key);
      SumNonNegative(refunds - {key});
    } else {
      SumNonNegative(refunds);
    }
  }

  lemma OverbidConserves(a: Auction, bidder: Name, newname: Name, bid: int, now: nat, n: Name)
    requires AmountsValid(a) && newname in a.bids && Conserved(a, n)
    ensures Conserved(Overbid(a, bidder, newname, bid, now), n)
  {
    var key := RefundKey(newname, a.bids[newname].highBidder);
    RefundSum(a, newname);
    RefundsUpdate(a.refunds, key, Get(a.refunds, key) + a.bids[newname].highBid, n);
  }

  lemma OverbidGrows(a: Auction, bidder: Name, newname: Name, bid: int, now: nat, n: Name)
    requires newname in a.bids && Outbids(a.bids[newname].highBid, bid) && Grown(a, newname) && Grown(a, n)
    ensures Grown(Overbid(a, bidder, newname, bid, now), n)
  {
    if n == newname {
      OutbidsByATenth(a.bids[newname].highBid, bid);
      GrowthStep(TallyOf(a, newname).overbids, TallyOf(a, newname).first, a.bids[newname].highBid, bid);
    }
  }

  lemma OverbidIsFair(a: Auction, bidder: Name, newname: Name, bid: int, now: nat, key: RefundKey)
    requires AmountsValid(a) && newname in a.bids && a.bids[newname].highBidder != bidder && FairTo(a, key)
    ensures FairTo(Overbid(a, bidder, newname, bid, now), key)
  {
    RefundSum(a, newname);
  }

  lemma OverbidKeepsInv(a: Auction, bidder: Name, newname: Name, bid: int, now: nat)
    requires Inv(a) && newname in a.bids && Outbids(a.bids[newname].highBid, bid)
    requires a.bids[newname].highBidder != bidder && bid <= MAX_AMOUNT && RefundFits(a, newname)
    ensures Inv(Overbid(a, bidder, newname, bid, now))
  {
    var a' := Overbid(a, bidder, newname, bid, now);
    assert Grown(a, newname);
    forall n ensures Conserved(a', n) && Grown(a', n) {
      assert Conserved(a, n) && Grown(a, n);
      OverbidConserves(a, bidder, newname, bid, now, n);
      OverbidGrows(a, bidder, newname, bid, now, n);
    }
    forall k ensures FairTo(a', k) {
      assert FairTo(a, k);
      OverbidIsFair(a, bidder, newname, bid, now, k);
    }
    RefundSum(a, newname);
  }

  lemma RefundKeepsInv(a: Auction, bidder: Name, newname: Name)
    requires Inv(a) && BidRefund(a, bidder, newname).Some?
    ensures Inv(BidRefund(a, bidder, newname).value)
  {
    var a' := BidRefund(a, bidder, newname).value;
    forall n ensures Conserved(a', n) && Grown(a', n) {
      assert Conserved(a, n) && Grown(a, n);
      RefundsRemove(a.refunds, RefundKey(newname, bidder), n);
    }
    forall k ensures FairTo(a', k) {
      assert FairTo(a, k);
    }
  }

  // ---- The contract ----

  class Names {
    const core: Symbol
    var bids: map<Name, Bid>
    var refunds: map<RefundKey, int>
    ghost var tallies: map<Name, Tally>
    ghost var given: map<RefundKey, int>
    ghost var returned: map<RefundKey, int>

    ghost function View(): Auction
      reads this
    {
      Auction(bids, refunds, tallies, given, returned)
    }

    ghost predicate Valid()
      reads this
    {
      Inv(View())
    }

    constructor (core: Symbol)
      ensures Valid() && View() == NO_BIDS && this.core == core
    {
      this.core := core;
      bids, refunds, tallies, given, returned := map[], map[], map[], map[], map[];
      new;
      RunKeepsInv([]);
    }

    twostate predicate Outcome(ok: bool, result: Option<Auction>)
      reads this
    {
      && ok == result.Some?
      && View() == if result.Some? then result.value else old(View())
    }

    method PlaceBid(bidder: Name, newname: Name, bid: Asset, isSuffix: bool, accountExists: bool, now: nat) returns (ok: bool)
      requires Valid()
      modifies this
      ensures Valid()
      ensures Outcome(ok, BidName(old(View()), bidder, newname, bid, core, isSuffix, accountExists, now))
    {
      if !Biddable(newname, isSuffix, accountExists) || bid.symbol != core || bid.amount <= 0 { return false; }
      if !(-MAX_AMOUNT <= bid.amount <= MAX_AMOUNT) { return false; }
      if newname !in bids {
        FirstBidKeepsInv(View(), bidder, newname, bid.amount, now);
        PlaceFirst(bidder, newname, bid.amount, now);
        ok := true;
      } else {
        var row := bids[newname];
        if row.highBid <= 0 || bid.amount - row.highBid <= row.highBid / 10 || row.highBidder == bidder { return false; }
        if RefundFits(View(), newname) { OverbidKeepsInv(View(), bidder, newname, bid.amount, now); }
        ok := ReplaceHighBid(bidder, newname, bid.amount, now);
      }
    }

    method PlaceFirst(bidder: Name, newname: Name, amount: int, now: nat)
      modifies this
      ensures View() == FirstBid(old(View()), bidder, newname, amount, now)
    {
      bids := bids[newname := Bid(bidder, amount, now)];
      ghost var t := TallyOf(View(), newname);
      tallies := tallies[newname := t.(taken := t.taken + amount, first := amount, overbids := 0)];
      given := given[RefundKey(newname, bidder) := Get(given, RefundKey(newname, bidder)) + amount];
    }

    /** The refund for the bidder who was outbid, and the new high bid; a refund out of range undoes the bid. */
    method ReplaceHighBid(bidder: Name, newname: Name, amount: int, now: nat) returns (ok: bool)
      requires newname in bids && ValidAmount(bids[newname].highBid)
      modifies this
      ensures ok == old(RefundFits(View(), newname))
      ensures View() == if ok then Overbid(old(View()), bidder, newname, amount, now) else old(View())
    {
      var row := bids[newname];
      ok := AddRefund(RefundKey(newname, row.highBidder), row.highBid);
      if !ok { return; }
      bids := bids[newname := Bid(bidder, amount, now)];
      ghost var t := TallyOf(View(), newname);
      tallies := tallies[newname := t.(taken := t.taken + amount, overbids := t.overbids + 1)];
      given := given[RefundKey(newname, bidder) := Get(given, RefundKey(newname, bidder)) + amount];
    }

    method AddRefund(key: RefundKey, amount: int) returns (ok: bool)
      requires ValidAmount(amount)
      modifies this`refunds
      ensures ok == ValidAmount(Wrap64(Get(old(refunds), key) + amount))
      ensures refunds == if ok then old(refunds)[key := Wrap64(Get(old(refunds), key) + amount)] else old(refunds)
    {
      if key in refunds {
        var sum := Wrap64(refunds[key] + amount);
        if sum < -MAX_AMOUNT || MAX_AMOUNT < sum { return false; }
        refunds := refunds[key := sum];
      } else {
        refunds := refunds[key := amount];
      }
      ok := true;
    }

    method Refund(bidder: Name, newname: Name) returns (ok: bool, amount: int)
      requires Valid()
      modifies this
      ensures Valid()
      ensures Outcome(ok, BidRefund(old(View()), bidder, newname))
      ensures ok ==> amount == old(refunds)[RefundKey(newname, bidder)]
    {
      var key := RefundKey(newname, bidder);
      if key !in refunds { return false, 0; }
      RefundKeepsInv(View(), bidder, newname);
      amount := PayRefund(key);
      ok := true;
    }

    method PayRefund(key: RefundKey) returns (amount: int)
      requires key in refunds
      modifies this`refunds, this`tallies, this`returned
      ensures amount == old(refunds)[key]
      ensures Some(View()) == BidRefund(old(View()), key.bidder, key.newname)
    {
      amount := refunds[key];
      ghost var t := TallyOf(View(), key.newname);
      tallies := tallies[key.newname := t.(paid := t.paid + amount)];
      returned := returned[key := Get(returned, key) + amount];
      refunds := refunds - {key};
    }
  }

  // ---- Runs ----

  datatype Action =
    | DoBid(bidder: Name, newname: Name, bid: Asset, core: Symbol, isSuffix: bool, accountExists: bool, now: nat)
    | DoRefund(bidder: Name, newname: Name)

  function Step(a: Auction, action: Action): Auction {
    var r := match action
      case DoBid(bidder, newname, bid, core, isSuffix, accountExists, now) =>
        BidName(a, bidder, newname, bid, core, isSuffix, accountExists, now)
      case DoRefund(bidder, newname) => BidRefund(a, bidder, newname);
    if r.Some? then r.value else a
  }

  function Run(actions: seq<Action>): Auction {
    if actions == [] then NO_BIDS else Step(Run(actions[..|actions| - 1]), actions[|actions| - 1])
  }

  /** Over every run of bids and refunds: for each name the bids taken in equal the high bid plus the refunds owed
      plus the refunds paid, for each bidder likewise, and the high bid has grown by more than a tenth with every
      overbid. */
  lemma {:induction false} RunKeepsInv(actions: seq<Action>)
    ensures Inv(Run(actions))
  {
    if actions == [] {
      assert forall n :: RefundsOn(NO_BIDS.refunds, n) == map[];
    } else {
      var a := Run(actions[..|actions| - 1]);
      RunKeepsInv(actions[..|actions| - 1]);
      match actions[|actions| - 1]
      case DoBid(bidder, newname, bid, core, isSuffix, accountExists, now) =>
        if BidName(a, bidder, newname, bid, core, isSuffix, accountExists, now).Some? {
          if newname in a.bids {
            OverbidKeepsInv(a, bidder, newname, bid.amount, now);
          } else {
            FirstBidKeepsInv(a, bidder, newname, bid.amount, now);
          }
        }
      case DoRefund(bidder, newname) =>
        if BidRefund(a, bidder, newname).Some? { RefundKeepsInv(a, bidder, newname); }
    }
  }

  /** Eight rises by a tenth more than double. */
  lemma {:induction false} EightOverbidsDouble(j: nat)
    ensures Pow(2, j) * Pow(10, 8 * j) <= Pow(11, 8 * j)
  {
    if j > 0 {
      EightOverbidsDouble(j - 1);
      var p, q := Pow(10, 8 * (j - 1)), Pow(11, 8 * (j - 1));
      PowAdd(10, 8, 8 * (j - 1));
      PowAdd(11, 8, 8 * (j - 1));
      Eighths();
      PowPositive(11, 8 * (j - 1));
      assert Pow(2, j) * Pow(10, 8 * j) == 2 * Pow(2, j - 1) * (100000000 * p);
      assert 2 * Pow(2, j - 1) * (100000000 * p) == 200000000 * (Pow(2, j - 1) * p);
      assert 200000000 * (Pow(2, j - 1) * p) <= 200000000 * q;
    }
  }

  lemma Eighths()
    ensures Pow(10, 8) == 100000000 && Pow(11, 8) == 214358881
  {
    assert Pow(10, 4) == 10000 && Pow(11, 4) == 14641;
    PowAdd(10, 4, 4);
    PowAdd(11, 4, 4);
  }

  lemma {:induction false} PowOrder(n: nat)
    ensures Pow(10, n) <= Pow(11, n)
  {
    if n > 0 { PowOrder(n - 1); }
  }

  lemma TwoToThe62()
    ensures Pow(2, 62) == MAX_AMOUNT + 1
  {
    assert Pow(2, 7) == 128;
    assert Pow(2, 8) == 256;
    PowAdd(2, 8, 8);
    PowAdd(2, 16, 16);
    PowAdd(2, 7, 7);
    PowAdd(2, 14, 16);
    PowAdd(2, 30, 32);
  }

  lemma ScaledProducts(two: nat, p: nat, q: nat, r: nat, s: nat)
    requires two * p <= q && r <= s
    ensures two * (p * r) <= q * s
  {
    assert two * p * r == two * (p * r);
  }

  /** From eight times j overbids on the growth exceeds two to the j. */
  lemma GrowthExceeds(j: nat, n: nat)
    requires 8 * j <= n
    ensures Pow(2, j) * Pow(10, n) <= Pow(11, n)
  {
    var d := n - 8 * j;
    EightOverbidsDouble(j);
    PowOrder(d);
    ScaledProducts(Pow(2, j), Pow(10, 8 * j), Pow(11, 8 * j), Pow(10, d), Pow(11, d));
    PowAdd(10, 8 * j, d);
    PowAdd(11, 8 * j, d);
  }

  lemma BelowGrowth(m: nat, p: nat, q: nat, first: nat, high: nat)
    requires 0 < p && 0 < first && high <= m && (m + 1) * p <= q
    ensures p * high < q * first
  {
    MulMono(1, first, q);
    MulMono(high, m, p);
    assert (m + 1) * p == m * p + p;
    assert p * high == high * p && q * first == first * q;
  }

  /** The number of overbids is at most logarithmic in the high bid, whoever bids and however high. */
  lemma OverbidsAreLogarithmic(actions: seq<Action>, n: Name, j: nat)
    requires n in Run(actions).bids && Run(actions).bids[n].highBid < Pow(2, j)
    ensures TallyOf(Run(actions), n).overbids < 8 * j
  {
    RunKeepsInv(actions);
    var a := Run(actions);
    var t := TallyOf(a, n);
    assert Grown(a, n);
    if t.overbids >= 8 * j {
      var p, q := Pow(10, t.overbids), Pow(11, t.overbids);
      GrowthExceeds(j, t.overbids);
      PowPositive(10, t.overbids);
      BelowGrowth(Pow(2, j) - 1, p, q, t.first, a.bids[n].highBid);
    }
  }

  /** Amounts are valid assets, so no name is ever overbid 496 times. */
  lemma OverbidsAreBounded(actions: seq<Action>, n: Name)
    requires n in Run(actions).bids
    ensures TallyOf(Run(actions), n).overbids < 496
  {
    RunKeepsInv(actions);
    TwoToThe62();
    OverbidsAreLogarithmic(actions, n, 62);
  }
}
