/** The token contract: its tables as fields, its actions as methods that update them in place.
    Each action is proved to do what LedgerSpec says; a failed check leaves every table as it was. */
module Token {
  import opened Common
  import opened LedgerSpec

  class TokenContract {
    var accounts: map<Name, Balances>
    var supply: Balances
    var maxSupply: Balances

    ghost function View(): Ledger
      reads this
    {
      Ledger(accounts, supply, maxSupply)
    }

    ghost predicate Valid()
      reads this
    {
      Inv(View())
    }

    constructor ()
      ensures Valid() && View() == GENESIS
    {
      accounts, supply, maxSupply := map[], map[], map[];
      new;
      RunConserves([]);
    }

    /** The table after an action: the new value when it is accepted, the old one when a check fails. */
    twostate predicate Outcome(ok: bool, result: Option<Ledger>)
      reads this
    {
      && ok == result.Some?
      && View() == if result.Some? then result.value else old(View())
    }

    method Issue(owner: Name, tokens: Amounts) returns (ok: bool)
      requires Valid()
      modifies this
      ensures Outcome(ok, LedgerSpec.Issue(old(View()), owner, tokens))
      ensures !ok || NoOverflow(old(View()), tokens) <==> Valid()
    {
      var newBalance := if owner in accounts then accounts[owner] else map[];
      var newSupply;
      ok, newSupply, newBalance := IssueAll(supply, maxSupply, newBalance, tokens);
      if ok {
        IssueKeepsInvIff(View(), owner, tokens);
        accounts := accounts[owner := newBalance];
        supply := newSupply;
      }
    }

    method Retire(owner: Name, tokens: Amounts) returns (ok: bool)
      requires Valid()
      modifies this
      ensures Valid()
      ensures Outcome(ok, LedgerSpec.Retire(old(View()), owner, tokens))
    {
      if owner !in accounts { return false; }
      forall y | y in accounts[owner] ensures 0 < accounts[owner][y] < MAX_AMOUNT {
        OnlyExistingFungiblesAreHeld(View(), owner, y);
      }
      var newSupply, newBalance;
      ok, newSupply, newBalance := RetireAll(supply, accounts[owner], tokens);
      if ok {
        RetireKeepsInv(View(), owner, tokens);
        accounts := accounts[owner := newBalance];
        supply := newSupply;
      }
    }

    method Open(owner: Name)
      requires Valid()
      modifies this
      ensures Valid() && View() == LedgerSpec.Open(old(View()), owner)
    {
      OpenKeepsInv(View(), owner);
      if owner !in accounts {
        accounts := accounts[owner := map[]];
      }
    }

    method Close(owner: Name) returns (ok: bool)
      requires Valid()
      modifies this
      ensures Valid()
      ensures Outcome(ok, LedgerSpec.Close(old(View()), owner))
    {
      CloseDestroysNothing(View(), owner);
      if owner !in accounts { return false; }
      ok := AllZero(accounts[owner]);
      if ok {
        accounts := accounts - {owner};
      }
    }

    method SetSupplies(tokens: Amounts) returns (ok: bool)
      requires Valid()
      modifies this
      ensures Valid()
      ensures Outcome(ok, LedgerSpec.SetSupplies(old(View()), tokens))
    {
      var newSupply, newMax;
      ok, newSupply, newMax := ListAll(supply, maxSupply, tokens);
      if ok {
        SetSuppliesKeepsInv(View(), tokens);
        supply, maxSupply := newSupply, newMax;
      }
    }

    method RmvSupply(tokens: Amounts) returns (ok: bool)
      requires Valid()
      modifies this
      ensures Valid()
      ensures Outcome(ok, LedgerSpec.RmvSupply(old(View()), tokens))
    {
      var newSupply, newMax;
      ok, newSupply, newMax := UnlistAll(supply, maxSupply, tokens.Keys);
      if ok {
        RmvSupplyOrphansNobody(View(), tokens);
        supply, maxSupply := newSupply, newMax;
      }
    }

    method Transfer(from: Name, to: Name, toExists: bool, tokens: seq<Asset>) returns (ok: bool)
      requires Valid()
      modifies this
      ensures Valid()
      ensures Outcome(ok, LedgerSpec.Transfer(old(View()), from, to, toExists, tokens))
    {
      if from == to || !toExists || !(0 < |tokens| < 100) || from !in accounts { return false; }
      var toBalance := if to in accounts then accounts[to] else map[];
      forall y ensures Bal(accounts[from], y) + Bal(toBalance, y) < MAX_AMOUNT && 0 <= Bal(toBalance, y) {
        TwoHolders(View(), from, to, y);
      }
      var fromBalance;
      ok, fromBalance, toBalance := MoveAll(accounts[from], toBalance, tokens);
      if ok {
        TransferKeepsInv(View(), from, to, toExists, tokens);
        accounts := accounts[from := fromBalance][to := toBalance];
      }
    }
  }

  // ---- The loops of the actions, over the rows that they read and write back ----

  /** What a row holds once a loop has added every entry of the list but the rest. */
  ghost predicate AddedSoFar(b: Balances, now: Balances, tokens: Amounts, rest: set<Symbol>) {
    && (forall y :: y in now <==> y in b || (y in tokens && y !in rest))
    && (forall y :: y in now ==>
         now[y] == if y in tokens && y !in rest then Wrap64(Bal(b, y) + tokens[y]) else b[y])
  }

  lemma AddedOne(b: Balances, now: Balances, tokens: Amounts, rest: set<Symbol>, y: Symbol)
    requires AddedSoFar(b, now, tokens, rest) && y in rest && y in tokens
    ensures AddedSoFar(b, now[y := Wrap64(Bal(now, y) + tokens[y])], tokens, rest - {y})
    ensures Bal(now, y) == Bal(b, y) && (y in now <==> y in b)
  {
  }

  lemma AddedAll(b: Balances, now: Balances, tokens: Amounts)
    requires AddedSoFar(b, now, tokens, {})
    ensures now == Added(b, tokens)
  {
  }

  /** What holds once the loop of an issue has taken every entry but the rest. */
  ghost predicate IssuedSoFar(supply: Balances, maxSupply: Balances, balance: Balances,
                              newSupply: Balances, newBalance: Balances, tokens: Amounts, rest: set<Symbol>) {
    && (forall y :: y in tokens && y !in rest ==> Issuable(supply, maxSupply, y, tokens[y]))
    && AddedSoFar(supply, newSupply, tokens, rest) && AddedSoFar(balance, newBalance, tokens, rest)
  }

  lemma IssuedStep(supply: Balances, maxSupply: Balances, balance: Balances,
                   newSupply: Balances, newBalance: Balances, tokens: Amounts, rest: set<Symbol>,
                   y: Symbol, issued: int64, held: int64)
    requires IssuedSoFar(supply, maxSupply, balance, newSupply, newBalance, tokens, rest) && y in rest && y in tokens
    requires Issuable(supply, maxSupply, y, tokens[y])
    requires issued == Wrap64(Bal(newSupply, y) + tokens[y]) && held == Wrap64(Bal(newBalance, y) + tokens[y])
    ensures IssuedSoFar(supply, maxSupply, balance, newSupply[y := issued], newBalance[y := held], tokens, rest - {y})
  {
    AddedOne(supply, newSupply, tokens, rest, y);
    AddedOne(balance, newBalance, tokens, rest, y);
  }

  lemma IssuedAll(supply: Balances, maxSupply: Balances, balance: Balances,
                  newSupply: Balances, newBalance: Balances, tokens: Amounts)
    requires IssuedSoFar(supply, maxSupply, balance, newSupply, newBalance, tokens, {})
    ensures forall y :: y in tokens ==> Issuable(supply, maxSupply, y, tokens[y])
    ensures newSupply == Added(supply, tokens) && newBalance == Added(balance, tokens)
  {
    AddedAll(supply, newSupply, tokens);
    AddedAll(balance, newBalance, tokens);
  }

  /** One entry of an issue: checked against the maximum, with the new supply and the owner's new balance. */
  method IssueEntry(supply: Balances, maxSupply: Balances, balance: Balances, y: Symbol, amount: int64)
    returns (ok: bool, issued: int64, held: int64)
    requires y in supply ==> y in maxSupply
    ensures ok == Issuable(supply, maxSupply, y, amount)
    ensures ok ==> issued == Wrap64(Bal(supply, y) + amount) && held == Wrap64(Bal(balance, y) + amount)
  {
    issued, held := 0, 0;
    if y !in supply { return false, issued, held; }
    issued := Wrap64(supply[y] + amount);
    if issued >= maxSupply[y] { return false, issued, held; }
    if amount <= 0 { return false, issued, held; }
    if y !in balance {
      held := amount;
    } else {
      held := Wrap64(balance[y] + amount);
    }
    ok := true;
  }

  method IssueAll(supply: Balances, maxSupply: Balances, balance: Balances, tokens: Amounts)
    returns (ok: bool, newSupply: Balances, newBalance: Balances)
    requires supply.Keys == maxSupply.Keys
    ensures ok <==> forall y :: y in tokens ==> Issuable(supply, maxSupply, y, tokens[y])
    ensures ok ==> newSupply == Added(supply, tokens) && newBalance == Added(balance, tokens)
  {
    newSupply, newBalance := supply, balance;
    var rest := tokens.Keys;
    while rest != {}
      invariant rest <= tokens.Keys
      invariant IssuedSoFar(supply, maxSupply, balance, newSupply, newBalance, tokens, rest)
      decreases rest
    {
      var y :| y in rest;
      var issued, held;
      ok, issued, held := IssueEntry(newSupply, maxSupply, newBalance, y, tokens[y]);
      if !ok { return; }
      IssuedStep(supply, maxSupply, balance, newSupply, newBalance, tokens, rest, y, issued, held);
      newSupply, newBalance := newSupply[y := issued], newBalance[y := held];
      rest := rest - {y};
    }
    IssuedAll(supply, maxSupply, balance, newSupply, newBalance, tokens);
    ok := true;
  }

  ghost predicate SubtractedSoFar(b: Balances, now: Balances, tokens: Amounts, rest: set<Symbol>) {
    && now.Keys == b.Keys
    && (forall y :: y in now ==> now[y] == if y in tokens && y !in rest then b[y] - tokens[y] else b[y])
  }

  /** As above, for a row whose entries are erased when they reach zero. */
  ghost predicate ErasedSoFar(b: Balances, now: Balances, tokens: Amounts, rest: set<Symbol>) {
    && (forall y :: y in now <==> y in b && !(y in tokens && y !in rest && b[y] == tokens[y]))
    && (forall y :: y in now ==> now[y] == if y in tokens && y !in rest then b[y] - tokens[y] else b[y])
  }

  lemma SubtractedAll(b: Balances, now: Balances, tokens: Amounts)
    ensures SubtractedSoFar(b, now, tokens, {}) ==> now == Subtracted(b, tokens)
    ensures Positive(b) && ErasedSoFar(b, now, tokens, {}) ==> now == NonZero(Subtracted(b, tokens))
  {
  }

  lemma SubtractedOne(b: Balances, now: Balances, tokens: Amounts, rest: set<Symbol>, y: Symbol)
    requires SubtractedSoFar(b, now, tokens, rest) && y in rest && y in tokens && y in now
    ensures SubtractedSoFar(b, now[y := now[y] - tokens[y]], tokens, rest - {y})
    ensures now[y] == b[y]
  {
  }

  lemma ErasedOne(b: Balances, now: Balances, tokens: Amounts, rest: set<Symbol>, y: Symbol)
    requires ErasedSoFar(b, now, tokens, rest) && y in rest && y in tokens && y in now
    ensures var next := now[y := now[y] - tokens[y]];
      ErasedSoFar(b, if next[y] == 0 then next - {y} else next, tokens, rest - {y})
    ensures now[y] == b[y]
  {
  }

  /** The 64-bit difference that a check looks at is the true one when the amount is positive;
      when it is not, the next check refuses it. */
  lemma DifferenceInRange(have: int, amount: int64)
    requires 0 <= have < MAX_AMOUNT && 0 < amount
    ensures Wrap64(have - amount) == have - amount
  {
  }

  method RetireAll(supply: Balances, balance: Balances, tokens: Amounts)
    returns (ok: bool, newSupply: Balances, newBalance: Balances)
    requires forall y :: y in supply ==> 0 <= supply[y] < MAX_AMOUNT
    requires forall y :: y in balance ==> 0 < balance[y] < MAX_AMOUNT
    ensures ok <==> forall y :: y in tokens ==> Retirable(supply, balance, y, tokens[y])
    ensures ok ==> newSupply == Subtracted(supply, tokens) && newBalance == NonZero(Subtracted(balance, tokens))
  {
    newSupply, newBalance := supply, balance;
    var rest := tokens.Keys;
    while rest != {}
      invariant rest <= tokens.Keys
      invariant forall y :: y in tokens && y !in rest ==> Retirable(supply, balance, y, tokens[y])
      invariant SubtractedSoFar(supply, newSupply, tokens, rest)
      invariant ErasedSoFar(balance, newBalance, tokens, rest)
      decreases rest
    {
      var y :| y in rest;
      if y !in newSupply { return false, newSupply, newBalance; }
      SubtractedOne(supply, newSupply, tokens, rest, y);
      if tokens[y] > 0 { DifferenceInRange(newSupply[y], tokens[y]); }
      if Wrap64(newSupply[y] - tokens[y]) < 0 { return false, newSupply, newBalance; }
      if tokens[y] <= 0 { return false, newSupply, newBalance; }
      newSupply := newSupply[y := Wrap64(newSupply[y] - tokens[y])];
      if y !in newBalance { return false, newSupply, newBalance; }
      ErasedOne(balance, newBalance, tokens, rest, y);
      DifferenceInRange(newBalance[y], tokens[y]);
      if Wrap64(newBalance[y] - tokens[y]) < 0 { return false, newSupply, newBalance; }
      newBalance := newBalance[y := Wrap64(newBalance[y] - tokens[y])];
      if newBalance[y] == 0 {
        newBalance := newBalance - {y};
      }
      rest := rest - {y};
    }
    SubtractedAll(supply, newSupply, tokens);
    SubtractedAll(balance, newBalance, tokens);
    ok := true;
  }

  method AllZero(balance: Balances) returns (ok: bool)
    ensures ok <==> forall y :: y in balance ==> balance[y] == 0
  {
    var rest := balance.Keys;
    while rest != {}
      invariant rest <= balance.Keys
      invariant forall y :: y in balance && y !in rest ==> balance[y] == 0
      decreases rest
    {
      var y :| y in rest;
      if balance[y] != 0 { return false; }
      rest := rest - {y};
    }
    ok := true;
  }

  ghost predicate ListedSoFar(b: Balances, now: Balances, entries: Balances, rest: set<Symbol>) {
    && (forall y :: y in now <==> y in b || (y in entries && y !in rest))
    && (forall y :: y in now ==> now[y] == if y in b then b[y] else entries[y])
  }

  lemma ListedAll(b: Balances, now: Balances, entries: Balances)
    requires ListedSoFar(b, now, entries, {})
    ensures now == entries + b
  {
  }

  lemma ListedOne(b: Balances, now: Balances, entries: Balances, rest: set<Symbol>, y: Symbol)
    requires ListedSoFar(b, now, entries, rest) && y in rest && y in entries && y !in b
    ensures y !in now && ListedSoFar(b, now[y := entries[y]], entries, rest - {y})
  {
  }

  method ListAll(supply: Balances, maxSupply: Balances, tokens: Amounts)
    returns (ok: bool, newSupply: Balances, newMax: Balances)
    requires supply.Keys == maxSupply.Keys
    ensures ok <==> forall y :: y in tokens ==> Listable(maxSupply, y, tokens[y])
    ensures ok ==> newMax == tokens + maxSupply && newSupply == Zeros(tokens.Keys) + supply
  {
    newSupply, newMax := supply, maxSupply;
    var rest := tokens.Keys;
    ghost var zeros := Zeros(tokens.Keys);
    while rest != {}
      invariant rest <= tokens.Keys
      invariant forall y :: y in tokens && y !in rest ==> Listable(maxSupply, y, tokens[y])
      invariant ListedSoFar(maxSupply, newMax, tokens, rest)
      invariant ListedSoFar(supply, newSupply, zeros, rest)
      decreases rest
    {
      var y :| y in rest;
      if y in newMax { return false, newSupply, newMax; }
      if !(-MAX_AMOUNT <= tokens[y] <= MAX_AMOUNT) || !ValidSymbol(y) { return false, newSupply, newMax; }
      if tokens[y] <= 0 { return false, newSupply, newMax; }
      ListedOne(maxSupply, newMax, tokens, rest, y);
      ListedOne(supply, newSupply, zeros, rest, y);
      newMax := newMax[y := tokens[y]];
      newSupply := newSupply[y := 0];
      rest := rest - {y};
    }
    ListedAll(maxSupply, newMax, tokens);
    ListedAll(supply, newSupply, zeros);
    ok := true;
  }

  method UnlistAll(supply: Balances, maxSupply: Balances, symbols: set<Symbol>)
    returns (ok: bool, newSupply: Balances, newMax: Balances)
    requires supply.Keys == maxSupply.Keys
    ensures ok <==> forall y :: y in symbols ==> y in maxSupply && supply[y] == 0
    ensures ok ==> newMax == maxSupply - symbols && newSupply == supply - symbols
  {
    newSupply, newMax := supply, maxSupply;
    var rest := symbols;
    while rest != {}
      invariant rest <= symbols
      invariant forall y :: y in symbols && y !in rest ==> y in maxSupply && supply[y] == 0
      invariant newMax == maxSupply - (symbols - rest)
      invariant newSupply == supply - (symbols - rest)
      decreases rest
    {
      var y :| y in rest;
      if y !in newMax { return false, newSupply, newMax; }
      if newSupply[y] != 0 { return false, newSupply, newMax; }
      newMax, newSupply := newMax - {y}, newSupply - {y};
      rest := rest - {y};
    }
    ok := true;
  }

  ghost predicate Covers(b: Balances, tokens: seq<Asset>) {
    && AllPositive(tokens)
    && forall y :: y in Symbols(tokens) ==> Total(tokens, y) <= Bal(b, y)
  }

  ghost predicate DebitedSoFar(b: Balances, now: Balances, pre: seq<Asset>) {
    && (forall y :: y in now <==> y in b && b[y] != Total(pre, y))
    && (forall y :: y in now ==> now[y] == b[y] - Total(pre, y))
  }

  ghost predicate CreditedSoFar(b: Balances, now: Balances, pre: seq<Asset>) {
    && (forall y :: y in now <==> y in b || y in Symbols(pre))
    && (forall y :: y in now ==> now[y] == Bal(b, y) + Total(pre, y))
  }

  /** What holds once the loop has moved a part of the list. */
  ghost predicate MovedSoFar(from: Balances, to: Balances, fromNow: Balances, toNow: Balances, pre: seq<Asset>) {
    Covers(from, pre) && DebitedSoFar(from, fromNow, pre) && CreditedSoFar(to, toNow, pre)
  }

  lemma DebitedAll(b: Balances, now: Balances, tokens: seq<Asset>)
    requires DebitedSoFar(b, now, tokens)
    ensures now == Debited(b, tokens)
  {
  }

  lemma CreditedAll(b: Balances, now: Balances, tokens: seq<Asset>)
    requires CreditedSoFar(b, now, tokens)
    ensures now == Credited(b, tokens)
  {
  }

  /** A row after an amount is taken from it: the entry is erased when nothing is left. */
  function Taken(b: Balances, y: Symbol, amount: int): Balances
    requires y in b
  {
    if b[y] == amount then b[y := 0] - {y} else b[y := b[y] - amount]
  }

  function Given(b: Balances, y: Symbol, amount: int): Balances {
    b[y := Bal(b, y) + amount]
  }

  predicate EntryOk(fromNow: Balances, a: Asset) {
    0 < a.amount <= MAX_AMOUNT && ValidSymbol(a.symbol) && a.symbol in fromNow && a.amount <= fromNow[a.symbol]
  }

  /** No 64-bit operation on this symbol can wrap. */
  ghost predicate Roomy(fromNow: Balances, toNow: Balances, y: Symbol) {
    y in fromNow ==> 0 < fromNow[y] && 0 <= Bal(toNow, y) && fromNow[y] + Bal(toNow, y) < MAX_AMOUNT
  }

  /** One entry of the list: checked, taken from the sender, given to the receiver. */
  method MoveEntry(fromNow: Balances, toNow: Balances, a: Asset) returns (ok: bool, fromNext: Balances, toNext: Balances)
    requires Roomy(fromNow, toNow, a.symbol)
    ensures ok == EntryOk(fromNow, a)
    ensures ok ==> fromNext == Taken(fromNow, a.symbol, a.amount) && toNext == Given(toNow, a.symbol, a.amount)
  {
    var y := a.symbol;
    fromNext, toNext := fromNow, toNow;
    if !(-MAX_AMOUNT <= a.amount <= MAX_AMOUNT) || !ValidSymbol(y) { return false, fromNext, toNext; }
    if a.amount <= 0 { return false, fromNext, toNext; }
    if y !in fromNow { return false, fromNext, toNext; }
    if Wrap64(fromNow[y] - a.amount) < 0 { return false, fromNext, toNext; }
    fromNext := fromNow[y := Wrap64(fromNow[y] - a.amount)];
    if fromNext[y] == 0 {
      fromNext := fromNext - {y};
    }
    if y !in toNow {
      toNext := toNow[y := a.amount];
    } else {
      toNext := toNow[y := Wrap64(toNow[y] + a.amount)];
    }
    ok := true;
  }

  /** The transfer loop: it checks entry by entry, with the sender's balance shrinking and rows that reach
      zero erased, yet it accepts exactly the lists whose totals the sender covers. */
  method MoveAll(from: Balances, to: Balances, tokens: seq<Asset>)
    returns (ok: bool, fromBalance: Balances, toBalance: Balances)
    requires Positive(from)
    requires forall y :: 0 <= Bal(to, y) && Bal(from, y) + Bal(to, y) < MAX_AMOUNT
    ensures ok <==> Covers(from, tokens)
    ensures ok ==> fromBalance == Debited(from, tokens) && toBalance == Credited(to, tokens)
  {
    fromBalance, toBalance := from, to;
    assert tokens[..0] == [];
    for k := 0 to |tokens|
      invariant MovedSoFar(from, to, fromBalance, toBalance, tokens[..k])
    {
      MovedStep(from, to, fromBalance, toBalance, tokens, k);
      ok, fromBalance, toBalance := MoveEntry(fromBalance, toBalance, tokens[k]);
      if !ok { return; }
    }
    assert tokens[..|tokens|] == tokens;
    DebitedAll(from, fromBalance, tokens);
    CreditedAll(to, toBalance, tokens);
    ok := true;
  }

  lemma TotalsOneMore(tokens: seq<Asset>, k: nat)
    requires k < |tokens|
    ensures forall y :: Total(tokens[..k + 1], y)
                     == Total(tokens[..k], y) + (if tokens[k].symbol == y then tokens[k].amount else 0)
    ensures Symbols(tokens[..k + 1]) == Symbols(tokens[..k]) + {tokens[k].symbol}
  {
    assert tokens[..k + 1] == tokens[..k] + [tokens[k]];
    assert tokens[..k + 1][..k] == tokens[..k];
  }

  /** The check on one entry decides whether the totals up to that entry are covered,
      and a prefix that overdraws the sender makes the whole list overdraw it. */
  lemma CoversOneMore(b: Balances, now: Balances, tokens: seq<Asset>, k: nat)
    requires Positive(b) && k < |tokens| && Covers(b, tokens[..k]) && DebitedSoFar(b, now, tokens[..k])
    requires 0 < tokens[k].amount <= MAX_AMOUNT && ValidSymbol(tokens[k].symbol)
    ensures (tokens[k].symbol in now && tokens[k].amount <= now[tokens[k].symbol]) <==> Covers(b, tokens[..k + 1])
    ensures Covers(b, tokens) ==> Covers(b, tokens[..k + 1])
  {
    TotalsOneMore(tokens, k);
    TotalNonNegative(tokens[..k], tokens[k].symbol);
    assert tokens[..k + 1] == tokens[..k] + [tokens[k]];
    if Covers(b, tokens) {
      forall y | y in Symbols(tokens[..k + 1]) ensures Total(tokens[..k + 1], y) <= Bal(b, y) {
        TotalPrefix(tokens, k + 1, y);
        var t :| t in tokens[..k + 1] && t.symbol == y;
        assert t in tokens;
      }
    }
  }

  lemma MovedStep(from: Balances, to: Balances, fromNow: Balances, toNow: Balances, tokens: seq<Asset>, k: nat)
    requires Positive(from) && k < |tokens| && MovedSoFar(from, to, fromNow, toNow, tokens[..k])
    requires var y := tokens[k].symbol; 0 <= Bal(to, y) && Bal(from, y) + Bal(to, y) < MAX_AMOUNT
    ensures var a := tokens[k];
      && Roomy(fromNow, toNow, a.symbol)
      && (EntryOk(fromNow, a) ==>
           MovedSoFar(from, to, Taken(fromNow, a.symbol, a.amount), Given(toNow, a.symbol, a.amount), tokens[..k + 1]))
      && (!EntryOk(fromNow, a) ==> !Covers(from, tokens))
  {
    var a := tokens[k];
    assert a in tokens;
    RoomForEntry(from, to, fromNow, toNow, tokens[..k], a.symbol);
    if 0 < a.amount <= MAX_AMOUNT && ValidSymbol(a.symbol) {
      CoversOneMore(from, fromNow, tokens, k);
      if EntryOk(fromNow, a) {
        DebitOne(from, fromNow, tokens, k);
        CreditOne(to, toNow, tokens, k);
      }
    }
  }

  lemma RoomForEntry(from: Balances, to: Balances, fromNow: Balances, toNow: Balances, pre: seq<Asset>, y: Symbol)
    requires Positive(from) && MovedSoFar(from, to, fromNow, toNow, pre)
    requires 0 <= Bal(to, y) && Bal(from, y) + Bal(to, y) < MAX_AMOUNT
    ensures Roomy(fromNow, toNow, y)
  {
    TotalNonNegative(pre, y);
  }

  lemma DebitOne(b: Balances, now: Balances, tokens: seq<Asset>, k: nat)
    requires k < |tokens| && DebitedSoFar(b, now, tokens[..k]) && tokens[k].symbol in now
    requires 0 < tokens[k].amount
    ensures DebitedSoFar(b, Taken(now, tokens[k].symbol, tokens[k].amount), tokens[..k + 1])
  {
    TotalsOneMore(tokens, k);
  }

  lemma CreditOne(b: Balances, now: Balances, tokens: seq<Asset>, k: nat)
    requires k < |tokens| && AllPositive(tokens[..k]) && CreditedSoFar(b, now, tokens[..k])
    ensures CreditedSoFar(b, Given(now, tokens[k].symbol, tokens[k].amount), tokens[..k + 1])
  {
    TotalsOneMore(tokens, k);
    TotalNonNegative(tokens[..k], tokens[k].symbol);
  }
}
