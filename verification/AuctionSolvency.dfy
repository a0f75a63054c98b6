/** Token ledger and name auction together: the auction can always pay every refund, and no bid fails for one. */
module AuctionSolvency {
  import opened Common
  import opened Sums
  import L = LedgerSpec
  import A = NameAuction

  /** The two contracts; bids are paid in the core symbol that the auction is configured with. */
  datatype World = World(ledger: L.Ledger, auction: A.Auction, core: Symbol)

  // ---- What the auction owes ----

  function HighBids(a: A.Auction): map<Name, int> {
    map n | n in a.bids :: a.bids[n].highBid
  }

  /** Every high bid that stands and every refund that is owed. */
  ghost function Claims(a: A.Auction): int {
    Sum(HighBids(a)) + Sum(a.refunds)
  }

  ghost function Surplus(w: World): int {
    L.Held(w.ledger, NAMES_ACCOUNT, w.core) - Claims(w.auction)
  }

  ghost predicate Inv(w: World) {
    && L.Inv(w.ledger) && A.Inv(w.auction) && 0 <= Surplus(w)
    && OthersBid(w.auction)
  }

  /** The auction's own account neither bids nor is owed anything. */
  ghost predicate OthersBid(a: A.Auction) {
    && (forall n :: n in a.bids ==> a.bids[n].highBidder != NAMES_ACCOUNT)
    && (forall key :: key in a.refunds ==> key.bidder != NAMES_ACCOUNT)
  }

  lemma FirstBidClaims(a: A.Auction, bidder: Name, newname: Name, bid: int, now: nat)
    requires newname !in a.bids
    ensures Claims(A.FirstBid(a, bidder, newname, bid, now)) == Claims(a) + bid
  {
    assert HighBids(A.FirstBid(a, bidder, newname, bid, now)) == HighBids(a)[newname := bid];
    SumUpdate(HighBids(a), newname, bid);
  }

  /** An overbid turns the old high bid into a refund and adds the new one. */
  lemma OverbidClaims(a: A.Auction, bidder: Name, newname: Name, bid: int, now: nat)
    requires A.AmountsValid(a) && newname in a.bids
    ensures Claims(A.Overbid(a, bidder, newname, bid, now)) == Claims(a) + bid
  {
    var a' := A.Overbid(a, bidder, newname, bid, now);
    var key := A.RefundKey(newname, a.bids[newname].highBidder);
    assert HighBids(a') == HighBids(a)[newname := bid];
    SumUpdate(HighBids(a), newname, bid);
    A.RefundSum(a, newname);
    SumUpdate(a.refunds, key, A.Get(a.refunds, key) + a.bids[newname].highBid);
  }

  lemma RefundClaims(a: A.Auction, bidder: Name, newname: Name)
    requires A.BidRefund(a, bidder, newname).Some?
    ensures var key := A.RefundKey(newname, bidder);
      key in a.refunds && Claims(A.BidRefund(a, bidder, newname).value) == Claims(a) - a.refunds[key]
  {
    var key := A.RefundKey(newname, bidder);
    assert HighBids(A.BidRefund(a, bidder, newname).value) == HighBids(a);
    SumWithout(a.refunds, key);
  }

  lemma BidsAndRefundsNonNegative(a: A.Auction)
    requires A.AmountsValid(a)
    ensures 0 <= Sum(HighBids(a)) && 0 <= Sum(a.refunds)
  {
    SumNonNegative(HighBids(a));
    SumNonNegative(a.refunds);
  }

  /** The old bid and what its bidder is owed already are claims together. */
  lemma BidAndRefundClaimed(a: A.Auction, n: Name)
    requires A.AmountsValid(a) && n in a.bids
    ensures a.bids[n].highBid + A.Get(a.refunds, A.RefundKey(n, a.bids[n].highBidder)) <= Claims(a)
  {
    SumWithout(HighBids(a), n);
    SumNonNegative(HighBids(a) - {n});
    A.OneRefund(a.refunds, A.RefundKey(n, a.bids[n].highBidder));
  }

  /** The claims are covered by tokens that exist, so the refund of an old bidder is always a valid amount. */
  lemma RefundAlwaysFits(w: World, n: Name)
    requires Inv(w) && n in w.auction.bids
    ensures A.RefundFits(w.auction, n)
  {
    BidAndRefundClaimed(w.auction, n);
    L.TwoHolders(w.ledger, NAMES_ACCOUNT, NAMES_ACCOUNT + 1, w.core);
    A.RefundSum(w.auction, n);
  }

  // ---- Steps of the two contracts ----

  function One(core: Symbol, amount: int64): seq<Asset> {
    [Asset(core, amount)]
  }

  /** A bid with the payment that it sends; a payment that fails undoes it. */
  ghost function AfterBid(w: World, bidder: Name, newname: Name, bid: Asset, isSuffix: bool, accountExists: bool, now: nat): Option<World> {
    match A.BidName(w.auction, bidder, newname, bid, w.core, isSuffix, accountExists, now)
    case None => None
    case Some(a) =>
      match L.Transfer(w.ledger, bidder, NAMES_ACCOUNT, true, [bid])
      case None => None
      case Some(l) => Some(w.(ledger := l, auction := a))
  }

  /** A refund with its payment. */
  ghost function AfterRefund(w: World, bidder: Name, newname: Name, bidderExists: bool): Option<World> {
    var key := A.RefundKey(newname, bidder);
    if key !in w.auction.refunds || !(-MAX_AMOUNT <= w.auction.refunds[key] <= MAX_AMOUNT) then None
    else
      match L.Transfer(w.ledger, NAMES_ACCOUNT, bidder, bidderExists, One(w.core, w.auction.refunds[key]))
      case None => None
      case Some(l) => Some(w.(ledger := l, auction := A.BidRefund(w.auction, bidder, newname).value))
  }

  datatype Action =
    | Bid(bidder: Name, newname: Name, bid: Asset, isSuffix: bool, accountExists: bool, now: nat)
    | Refund(bidder: Name, newname: Name, bidderExists: bool)
    | Other(action: L.Action)

  ghost function Attempt(w: World, a: Action): Option<World> {
    match a
    case Bid(bidder, newname, bid, isSuffix, accountExists, now) =>
      AfterBid(w, bidder, newname, bid, isSuffix, accountExists, now)
    case Refund(bidder, newname, bidderExists) => AfterRefund(w, bidder, newname, bidderExists)
    case Other(action) =>
      match L.Attempt(w.ledger, action)
      case None => None
      case Some(l) => Some(w.(ledger := l))
  }

  ghost function Step(w: World, a: Action): World {
    match Attempt(w, a)
    case Some(w') => w'
    case None => w
  }

  /** What else happens on the ledger: accepted issues stay within 64 bits, and what leaves the auction's account is
      covered by its surplus. */
  ghost predicate Allowed(w: World, a: Action) {
    a.Other? ==>
      && L.SafeStep(w.ledger, a.action)
      && (a.action.DoTransfer? && a.action.from == NAMES_ACCOUNT ==> L.Total(a.action.list, w.core) <= Surplus(w))
      && (a.action.DoRetire? && a.action.owner == NAMES_ACCOUNT ==> L.Amount(a.action.tokens, w.core) <= Surplus(w))
  }

  // ---- One asset moved ----

  /** A payment of one asset goes through exactly when it is positive, covered and not to its sender. */
  lemma PaymentGoesThroughIff(l: L.Ledger, from: Name, to: Name, toExists: bool, core: Symbol, amount: int64)
    requires L.Inv(l) && amount <= MAX_AMOUNT
    ensures L.Transfer(l, from, to, toExists, One(core, amount)).Some?
       <==> from != to && toExists && 0 < amount <= L.Held(l, from, core)
  {
    var list := One(core, amount);
    assert list[..0] == [] && L.Total(list, core) == amount;
    assert list[0] in list && L.Symbols(list) == {core} by { assert core in L.Symbols(list); }
    if from in l.accounts && core in l.accounts[from] { L.OnlyExistingFungiblesAreHeld(l, from, core); }
  }

  lemma PaymentMoves(l: L.Ledger, from: Name, to: Name, toExists: bool, core: Symbol, amount: int64)
    requires L.Inv(l) && L.Transfer(l, from, to, toExists, One(core, amount)).Some?
    ensures var l' := L.Transfer(l, from, to, toExists, One(core, amount)).value;
      && L.Inv(l') && from != to
      && L.Held(l', from, core) == L.Held(l, from, core) - amount
      && L.Held(l', to, core) == L.Held(l, to, core) + amount
      && (forall n :: n != from && n != to ==> L.Held(l', n, core) == L.Held(l, n, core))
  {
    var list := One(core, amount);
    assert list[..0] == [] && L.Total(list, core) == amount;
    L.TransferKeepsInv(l, from, to, toExists, list);
    L.TransferMoves(l, from, to, toExists, list, core);
  }

  // ---- Every step keeps the auction solvent ----

  lemma BidKeepsAuction(w: World, bidder: Name, newname: Name, bid: Asset, isSuffix: bool, accountExists: bool, now: nat)
    requires Inv(w) && A.BidName(w.auction, bidder, newname, bid, w.core, isSuffix, accountExists, now).Some?
    ensures var a := A.BidName(w.auction, bidder, newname, bid, w.core, isSuffix, accountExists, now).value;
      && A.Inv(a) && Claims(a) == Claims(w.auction) + bid.amount
      && (bidder != NAMES_ACCOUNT ==> OthersBid(a))
  {
    if newname in w.auction.bids {
      A.OverbidKeepsInv(w.auction, bidder, newname, bid.amount, now);
      OverbidClaims(w.auction, bidder, newname, bid.amount, now);
    } else {
      A.FirstBidKeepsInv(w.auction, bidder, newname, bid.amount, now);
      FirstBidClaims(w.auction, bidder, newname, bid.amount, now);
    }
  }

  lemma BidStep(w: World, bidder: Name, newname: Name, bid: Asset, isSuffix: bool, accountExists: bool, now: nat)
    requires Inv(w) && AfterBid(w, bidder, newname, bid, isSuffix, accountExists, now).Some?
    ensures Inv(AfterBid(w, bidder, newname, bid, isSuffix, accountExists, now).value)
  {
    BidKeepsAuction(w, bidder, newname, bid, isSuffix, accountExists, now);
    PaymentMoves(w.ledger, bidder, NAMES_ACCOUNT, true, w.core, bid.amount);
  }

  /** A bid is accepted if and only if it passes the checks on name, symbol and height, and its bidder can pay it:
      the refund that it makes due never stands in its way. */
  lemma BidAcceptedIff(w: World, bidder: Name, newname: Name, bid: Asset, isSuffix: bool, accountExists: bool, now: nat)
    requires Inv(w)
    ensures AfterBid(w, bidder, newname, bid, isSuffix, accountExists, now).Some? <==>
      && isSuffix && 0 < newname && newname % 512 == 0 && !accountExists
      && bid.symbol == w.core && bidder != NAMES_ACCOUNT
      && 0 < bid.amount <= L.Held(w.ledger, bidder, w.core)
      && (newname in w.auction.bids ==>
           var row := w.auction.bids[newname];
           row.highBidder != bidder && row.highBid + row.highBid / 10 < bid.amount)
  {
    if newname in w.auction.bids {
      RefundAlwaysFits(w, newname);
      A.RefundSum(w.auction, newname);
    }
    A.BidIsAcceptedIff(w.auction, bidder, newname, bid, w.core, isSuffix, accountExists, now);
    L.TwoHolders(w.ledger, bidder, bidder + 1, w.core);
    if bid.symbol == w.core && bid.amount <= MAX_AMOUNT {
      assert One(w.core, bid.amount) == [bid];
      PaymentGoesThroughIff(w.ledger, bidder, NAMES_ACCOUNT, true, w.core, bid.amount);
    }
  }

  /** An accepted bid takes its amount from its bidder to the auction, and changes no other balance of the core symbol. */
  lemma BidPays(w: World, bidder: Name, newname: Name, bid: Asset, isSuffix: bool, accountExists: bool, now: nat, n: Name)
    requires Inv(w) && AfterBid(w, bidder, newname, bid, isSuffix, accountExists, now).Some?
    ensures var w' := AfterBid(w, bidder, newname, bid, isSuffix, accountExists, now).value;
      && w'.core == w.core
      && L.Held(w'.ledger, n, w.core) == L.Held(w.ledger, n, w.core)
           + if n == bidder then -bid.amount else if n == NAMES_ACCOUNT then bid.amount else 0
  {
    PaymentMoves(w.ledger, bidder, NAMES_ACCOUNT, true, w.core, bid.amount);
  }

  /** A refund goes through if and only if it is owed, and to an account that exists. */
  lemma RefundGoesThrough(w: World, bidder: Name, newname: Name, bidderExists: bool)
    requires Inv(w)
    ensures AfterRefund(w, bidder, newname, bidderExists).Some?
       <==> A.RefundKey(newname, bidder) in w.auction.refunds && bidderExists
  {
    if A.RefundKey(newname, bidder) in w.auction.refunds {
      var amount := w.auction.refunds[A.RefundKey(newname, bidder)];
      A.OneRefund(w.auction.refunds, A.RefundKey(newname, bidder));
      BidsAndRefundsNonNegative(w.auction);
      PaymentGoesThroughIff(w.ledger, NAMES_ACCOUNT, bidder, bidderExists, w.core, amount);
    }
  }

  /** It brings the bidder exactly what it was owed. */
  lemma RefundPays(w: World, bidder: Name, newname: Name, bidderExists: bool, n: Name)
    requires Inv(w) && AfterRefund(w, bidder, newname, bidderExists).Some?
    ensures var w', key := AfterRefund(w, bidder, newname, bidderExists).value, A.RefundKey(newname, bidder);
      && w'.core == w.core && key in w.auction.refunds && key !in w'.auction.refunds
      && L.Held(w'.ledger, n, w.core) == L.Held(w.ledger, n, w.core)
           + if n == bidder then w.auction.refunds[key] else if n == NAMES_ACCOUNT then -w.auction.refunds[key] else 0
  {
    A.RefundIsExact(w.auction, bidder, newname);
    PaymentMoves(w.ledger, NAMES_ACCOUNT, bidder, bidderExists, w.core, w.auction.refunds[A.RefundKey(newname, bidder)]);
  }

  lemma RefundStep(w: World, bidder: Name, newname: Name, bidderExists: bool)
    requires Inv(w) && AfterRefund(w, bidder, newname, bidderExists).Some?
    ensures Inv(AfterRefund(w, bidder, newname, bidderExists).value)
  {
    A.RefundKeepsInv(w.auction, bidder, newname);
    RefundClaims(w.auction, bidder, newname);
    PaymentMoves(w.ledger, NAMES_ACCOUNT, bidder, bidderExists, w.core, w.auction.refunds[A.RefundKey(newname, bidder)]);
  }

  lemma OtherHeld(w: World, action: L.Action)
    requires Inv(w) && Allowed(w, Other(action)) && L.Attempt(w.ledger, action).Some?
    ensures Claims(w.auction) <= L.Held(L.Attempt(w.ledger, action).value, NAMES_ACCOUNT, w.core)
  {
    match action
    case DoIssue(owner, tokens) => L.IssueAt(w.ledger, owner, tokens, w.core);
    case DoRetire(owner, tokens) => L.RetireAt(w.ledger, owner, tokens, w.core);
    case DoOpen(owner) => L.OpenKeepsInv(w.ledger, owner);
    case DoClose(owner) => L.CloseDestroysNothing(w.ledger, owner);
    case DoTransfer(from, to, toExists, list) =>
      L.TransferMoves(w.ledger, from, to, toExists, list, w.core);
      L.TotalNonNegative(list, w.core);
    case DoSetSupplies(_) =>
    case DoRmvSupply(_) =>
  }

  lemma StepKeepsInv(w: World, a: Action)
    requires Inv(w) && Allowed(w, a)
    ensures Inv(Step(w, a))
  {
    if Attempt(w, a).Some? {
      match a
      case Bid(bidder, newname, bid, isSuffix, accountExists, now) =>
        BidStep(w, bidder, newname, bid, isSuffix, accountExists, now);
      case Refund(bidder, newname, bidderExists) => RefundStep(w, bidder, newname, bidderExists);
      case Other(action) =>
        L.StepKeepsInvIff(w.ledger, action);
        OtherHeld(w, action);
    }
  }

  ghost predicate Run(states: seq<World>, actions: seq<Action>, core: Symbol) {
    && |states| == |actions| + 1
    && states[0] == World(L.GENESIS, A.NO_BIDS, core)
    && forall i :: 0 <= i < |actions| ==> Allowed(states[i], actions[i]) && states[i + 1] == Step(states[i], actions[i])
  }

  /** Over every run of both contracts the auction's balance covers every high bid and every refund; so each refund
      goes through, and no bid fails for the refund that it makes due. */
  lemma {:induction false} AuctionStaysSolvent(states: seq<World>, actions: seq<Action>, core: Symbol, i: nat)
    requires Run(states, actions, core) && i < |states|
    ensures Inv(states[i])
    ensures forall key :: key in states[i].auction.refunds ==> AfterRefund(states[i], key.bidder, key.newname, true).Some?
    ensures forall n :: n in states[i].auction.bids ==> A.RefundFits(states[i].auction, n)
  {
    if i == 0 {
    } else {
      AuctionStaysSolvent(states, actions, core, i - 1);
      StepKeepsInv(states[i - 1], actions[i - 1]);
    }
    forall key | key in states[i].auction.refunds ensures AfterRefund(states[i], key.bidder, key.newname, true).Some? {
      RefundGoesThrough(states[i], key.bidder, key.newname, true);
    }
    forall n | n in states[i].auction.bids ensures A.RefundFits(states[i].auction, n) {
      RefundAlwaysFits(states[i], n);
    }
  }
}
