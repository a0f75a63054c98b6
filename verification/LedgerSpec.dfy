/** The multi-asset token ledger on values: what each action accepts, what it leaves,
    and the conservation law that every run keeps. */
module LedgerSpec {
  import opened Common
  import opened Sums

  type Balances = map<Symbol, int>

  datatype Ledger = Ledger(accounts: map<Name, Balances>, supply: Balances, maxSupply: Balances)

  const GENESIS := Ledger(map[], map[], map[])

  function Bal(b: Balances, y: Symbol): int {
    if y in b then b[y] else 0
  }

  function Held(l: Ledger, n: Name, y: Symbol): int {
    if n in l.accounts then Bal(l.accounts[n], y) else 0
  }

  // ---- The conservation invariant ----

  ghost function Holdings(accounts: map<Name, Balances>, y: Symbol): map<Name, int> {
    map n | n in accounts :: Bal(accounts[n], y)
  }

  ghost predicate Positive(b: Balances) {
    forall y :: y in b ==> 0 < b[y]
  }

  ghost predicate SupplyInRange(l: Ledger) {
    && l.supply.Keys == l.maxSupply.Keys
    && forall y :: y in l.supply ==> 0 <= l.supply[y] < l.maxSupply[y] <= MAX_AMOUNT && ValidSymbol(y)
  }

  ghost predicate Conserved(l: Ledger) {
    forall y :: Sum(Holdings(l.accounts, y)) == Bal(l.supply, y)
  }

  ghost predicate Inv(l: Ledger) {
    && SupplyInRange(l)
    && (forall n :: n in l.accounts ==> Positive(l.accounts[n]))
    && Conserved(l)
  }

  /** Replacing one account's row moves the total by exactly the change of that row. */
  lemma HoldingsUpdate(accounts: map<Name, Balances>, n: Name, b: Balances, y: Symbol)
    ensures Sum(Holdings(accounts[n := b], y))
         == Sum(Holdings(accounts, y)) - (if n in accounts then Bal(accounts[n], y) else 0) + Bal(b, y)
  {
    assert Holdings(accounts[n := b], y) == Holdings(accounts, y)[n := Bal(b, y)];
    SumUpdate(Holdings(accounts, y), n, Bal(b, y));
  }

  /** Conservation bounds what any two accounts hold together, so no 64-bit addition of balances wraps. */
  lemma TwoHolders(l: Ledger, m: Name, n: Name, y: Symbol)
    requires Inv(l) && m != n
    ensures 0 <= Held(l, m, y) && 0 <= Held(l, n, y)
    ensures Held(l, m, y) + Held(l, n, y) <= Bal(l.supply, y) < MAX_AMOUNT
  {
    SumCoversTwo(Holdings(l.accounts, y), m, n);
  }

  /** Whoever holds a fungible holds one that exists, and no more of it than was issued. */
  lemma OnlyExistingFungiblesAreHeld(l: Ledger, n: Name, y: Symbol)
    requires Inv(l) && n in l.accounts && y in l.accounts[n]
    ensures y in l.supply && 0 < l.accounts[n][y] <= l.supply[y] && ValidSymbol(y)
  {
    TwoHolders(l, n, n + 1, y);
  }

  // ---- Transfer ----

  /** How much of a fungible an asset list moves in all; a list may name a symbol repeatedly. */
  function Total(tokens: seq<Asset>, y: Symbol): int {
    if tokens == [] then 0
    else
      var last := tokens[|tokens| - 1];
      Total(tokens[..|tokens| - 1], y) + (if last.symbol == y then last.amount else 0)
  }

  function Symbols(tokens: seq<Asset>): set<Symbol> {
    set t | t in tokens :: t.symbol
  }

  predicate AllPositive(tokens: seq<Asset>) {
    forall t :: t in tokens ==> 0 < t.amount <= MAX_AMOUNT && ValidSymbol(t.symbol)
  }

  /** When a transfer is accepted: the sender covers the total it sends of every symbol. */
  ghost predicate TransferOk(l: Ledger, from: Name, to: Name, toExists: bool, tokens: seq<Asset>) {
    && from != to && toExists
    && 0 < |tokens| < 100
    && from in l.accounts
    && AllPositive(tokens)
    && forall y :: y in Symbols(tokens) ==> Total(tokens, y) <= Bal(l.accounts[from], y)
  }

  ghost function Debited(b: Balances, tokens: seq<Asset>): Balances {
    map y | y in b && b[y] != Total(tokens, y) :: b[y] - Total(tokens, y)
  }

  ghost function Credited(b: Balances, tokens: seq<Asset>): Balances {
    map y | y in b.Keys + Symbols(tokens) :: Bal(b, y) + Total(tokens, y)
  }

  function Row(l: Ledger, n: Name): Balances {
    if n in l.accounts then l.accounts[n] else map[]
  }

  ghost function Transfer(l: Ledger, from: Name, to: Name, toExists: bool, tokens: seq<Asset>): Option<Ledger> {
    if TransferOk(l, from, to, toExists, tokens) then
      Some(l.(accounts := l.accounts[from := Debited(l.accounts[from], tokens)]
                                    [to := Credited(Row(l, to), tokens)]))
    else None
  }

  lemma {:induction false} TotalAppend(a: seq<Asset>, b: seq<Asset>, y: Symbol)
    ensures Total(a + b, y) == Total(a, y) + Total(b, y)
  {
    if b == [] {
      assert a + b == a;
    } else {
      assert (a + b)[..|a + b| - 1] == a + b[..|b| - 1];
      TotalAppend(a, b[..|b| - 1], y);
    }
  }

  lemma {:induction false} TotalNonNegative(tokens: seq<Asset>, y: Symbol)
    requires AllPositive(tokens)
    ensures 0 <= Total(tokens, y)
    ensures y in Symbols(tokens) <==> 0 < Total(tokens, y)
  {
    if tokens != [] {
      var rest := tokens[..|tokens| - 1];
      assert tokens == rest + [tokens[|tokens| - 1]];
      assert AllPositive(rest);
      TotalNonNegative(rest, y);
      if y in Symbols(tokens) && y != tokens[|tokens| - 1].symbol {
        var t :| t in tokens && t.symbol == y;
        assert t in rest;
      }
    }
  }

  /** A prefix never moves more than the whole list. */
  lemma TotalPrefix(tokens: seq<Asset>, k: nat, y: Symbol)
    requires AllPositive(tokens) && k <= |tokens|
    ensures 0 <= Total(tokens[..k], y) <= Total(tokens, y)
  {
    assert tokens == tokens[..k] + tokens[k..];
    assert AllPositive(tokens[..k]) && AllPositive(tokens[k..]);
    TotalAppend(tokens[..k], tokens[k..], y);
    TotalNonNegative(tokens[..k], y);
    TotalNonNegative(tokens[k..], y);
  }

  /** What a transfer does to every holding: the sender loses each total, the receiver gains it,
      and nobody else is touched. */
  lemma TransferMoves(l: Ledger, from: Name, to: Name, toExists: bool, tokens: seq<Asset>, y: Symbol)
    requires Inv(l) && TransferOk(l, from, to, toExists, tokens)
    ensures var l' := Transfer(l, from, to, toExists, tokens).value;
      && Held(l', from, y) == Held(l, from, y) - Total(tokens, y)
      && Held(l', to, y) == Held(l, to, y) + Total(tokens, y)
      && (forall n :: n != from && n != to ==> Held(l', n, y) == Held(l, n, y))
  {
    TotalNonNegative(tokens, y);
  }

  lemma TransferRowsAt(l: Ledger, from: Name, to: Name, toExists: bool, tokens: seq<Asset>, y: Symbol)
    requires Inv(l) && TransferOk(l, from, to, toExists, tokens)
    ensures var debited := Debited(l.accounts[from], tokens);
      && Bal(debited, y) == Held(l, from, y) - Total(tokens, y)
      && (y in debited ==> 0 < debited[y])
    ensures var credited := Credited(Row(l, to), tokens);
      && Bal(credited, y) == Held(l, to, y) + Total(tokens, y)
      && (y in credited ==> 0 < credited[y])
  {
    TotalNonNegative(tokens, y);
  }

  lemma TransferRowsPositive(l: Ledger, from: Name, to: Name, toExists: bool, tokens: seq<Asset>)
    requires Inv(l) && TransferOk(l, from, to, toExists, tokens)
    ensures Positive(Debited(l.accounts[from], tokens)) && Positive(Credited(Row(l, to), tokens))
  {
    var debited, credited := Debited(l.accounts[from], tokens), Credited(Row(l, to), tokens);
    forall y ensures (y in debited ==> 0 < debited[y]) && (y in credited ==> 0 < credited[y]) {
      TransferRowsAt(l, from, to, toExists, tokens, y);
    }
  }

  lemma TransferConserves(l: Ledger, from: Name, to: Name, toExists: bool, tokens: seq<Asset>, y: Symbol)
    requires Inv(l) && TransferOk(l, from, to, toExists, tokens)
    ensures Sum(Holdings(Transfer(l, from, to, toExists, tokens).value.accounts, y)) == Bal(l.supply, y)
  {
    var debited, credited := Debited(l.accounts[from], tokens), Credited(Row(l, to), tokens);
    TransferRowsAt(l, from, to, toExists, tokens, y);
    HoldingsUpdate(l.accounts, from, debited, y);
    HoldingsUpdate(l.accounts[from := debited], to, credited, y);
  }

  lemma TransferKeepsInv(l: Ledger, from: Name, to: Name, toExists: bool, tokens: seq<Asset>)
    requires Inv(l) && TransferOk(l, from, to, toExists, tokens)
    ensures Inv(Transfer(l, from, to, toExists, tokens).value)
  {
    var l' := Transfer(l, from, to, toExists, tokens).value;
    TransferRowsPositive(l, from, to, toExists, tokens);
    forall y ensures Sum(Holdings(l'.accounts, y)) == Bal(l'.supply, y) {
      TransferConserves(l, from, to, toExists, tokens, y);
    }
  }

  /** Only the totals matter: two lists that move the same totals are accepted together and leave the
      same ledger, however they are ordered and split, although the loop erases entries on the way. */
  lemma TransferDependsOnTotals(l: Ledger, from: Name, to: Name, toExists: bool, a: seq<Asset>, b: seq<Asset>)
    requires AllPositive(a) && AllPositive(b) && 0 < |a| < 100 && 0 < |b| < 100
    requires forall y :: Total(a, y) == Total(b, y)
    ensures Transfer(l, from, to, toExists, a) == Transfer(l, from, to, toExists, b)
  {
    forall y ensures y in Symbols(a) <==> y in Symbols(b) {
      TotalNonNegative(a, y);
      TotalNonNegative(b, y);
    }
    assert Symbols(a) == Symbols(b);
    if from in l.accounts {
      assert Debited(l.accounts[from], a) == Debited(l.accounts[from], b);
      assert Credited(Row(l, to), a) == Credited(Row(l, to), b);
    }
  }

  /** Reordering a list leaves every total as it was. */
  lemma {:induction false} PermutationKeepsTotals(a: seq<Asset>, b: seq<Asset>, y: Symbol)
    requires multiset(a) == multiset(b)
    ensures Total(a, y) == Total(b, y)
    decreases |a|
  {
    if a == [] {
      assert |multiset(b)| == |b| && |multiset(a)| == 0;
    } else {
      var last := a[|a| - 1];
      var rest := a[..|a| - 1];
      assert a == rest + [last];
      assert last in multiset(b);
      var i :| 0 <= i < |b| && b[i] == last;
      assert b == b[..i] + [last] + b[i + 1..];
      assert multiset(b) == multiset(b[..i]) + multiset{last} + multiset(b[i + 1..]);
      assert multiset(a) == multiset(rest) + multiset{last};
      assert multiset(b[..i] + b[i + 1..]) == multiset(b) - multiset{last};
      PermutationKeepsTotals(rest, b[..i] + b[i + 1..], y);
      TotalAppend(b[..i] + [last], b[i + 1..], y);
      TotalAppend(b[..i], [last], y);
      TotalAppend(b[..i], b[i + 1..], y);
    }
  }

  /** So a transfer does not depend on the order of its list. */
  lemma TransferIgnoresOrder(l: Ledger, from: Name, to: Name, toExists: bool, a: seq<Asset>, b: seq<Asset>)
    requires multiset(a) == multiset(b)
    ensures Transfer(l, from, to, toExists, a) == Transfer(l, from, to, toExists, b)
  {
    assert |a| == |multiset(a)| == |multiset(b)| == |b|;
    assert forall t :: t in a <==> t in multiset(a);
    assert forall t :: t in b <==> t in multiset(b);
    if AllPositive(a) && 0 < |a| < 100 {
      forall y ensures Total(a, y) == Total(b, y) {
        PermutationKeepsTotals(a, b, y);
      }
      TransferDependsOnTotals(l, from, to, toExists, a, b);
    }
  }

  lemma DebitThenCreditAt(b: Balances, tokens: seq<Asset>, y: Symbol)
    requires Positive(b) && AllPositive(tokens)
    requires y in Symbols(tokens) ==> Total(tokens, y) <= Bal(b, y)
    ensures var forth := Credited(Debited(b, tokens), tokens);
      (y in forth <==> y in b) && (y in b ==> forth[y] == b[y])
  {
    TotalNonNegative(tokens, y);
  }

  /** Crediting and then debiting the same list gives the row back. */
  lemma CreditThenDebit(b: Balances, tokens: seq<Asset>)
    requires Positive(b) && AllPositive(tokens)
    ensures Debited(Credited(b, tokens), tokens) == b
  {
    forall y ensures y in Symbols(tokens) <==> 0 < Total(tokens, y) {
      TotalNonNegative(tokens, y);
    }
  }

  /** And so does debiting and then crediting what the row covers. */
  lemma DebitThenCredit(b: Balances, tokens: seq<Asset>)
    requires Positive(b) && AllPositive(tokens)
    requires forall y :: y in Symbols(tokens) ==> Total(tokens, y) <= Bal(b, y)
    ensures Credited(Debited(b, tokens), tokens) == b
  {
    var forth := Credited(Debited(b, tokens), tokens);
    forall y ensures (y in forth <==> y in b) && (y in b ==> forth[y] == b[y]) {
      DebitThenCreditAt(b, tokens, y);
    }
  }

  /** Two rows set and then set back leave the table as it was. */
  lemma SetBack(accounts: map<Name, Balances>, a: Name, b: Name, x: Balances, y: Balances)
    requires a in accounts && b in accounts && a != b
    ensures accounts[a := x][b := y][b := accounts[b]][a := accounts[a]] == accounts
  {
  }

  /** A transfer is undone by sending the same list back. */
  lemma TransferBack(l: Ledger, from: Name, to: Name, tokens: seq<Asset>)
    requires Inv(l) && TransferOk(l, from, to, true, tokens) && to in l.accounts
    ensures var l' := Transfer(l, from, to, true, tokens).value;
      Transfer(l', to, from, true, tokens) == Some(l)
  {
    var debited, credited := Debited(l.accounts[from], tokens), Credited(l.accounts[to], tokens);
    var l' := Transfer(l, from, to, true, tokens).value;
    assert l'.accounts[from] == debited && l'.accounts[to] == credited;
    assert TransferOk(l', to, from, true, tokens);
    DebitThenCredit(l.accounts[from], tokens);
    CreditThenDebit(l.accounts[to], tokens);
    SetBack(l.accounts, from, to, debited, credited);
  }

  // ---- Issue and retire ----

  type Amounts = map<Symbol, int64>

  predicate Issuable(supply: Balances, maxSupply: Balances, y: Symbol, amount: int64) {
    && y in supply && y in maxSupply
    && Wrap64(supply[y] + amount) < maxSupply[y]
    && 0 < amount
  }

  ghost predicate IssueOk(l: Ledger, tokens: Amounts) {
    forall y :: y in tokens ==> Issuable(l.supply, l.maxSupply, y, tokens[y])
  }

  ghost function Added(b: Balances, tokens: Amounts): Balances {
    map y | y in b.Keys + tokens.Keys :: if y in tokens then Wrap64(Bal(b, y) + tokens[y]) else b[y]
  }

  ghost function Issue(l: Ledger, owner: Name, tokens: Amounts): Option<Ledger> {
    if IssueOk(l, tokens) then
      Some(Ledger(l.accounts[owner := Added(Row(l, owner), tokens)], Added(l.supply, tokens), l.maxSupply))
    else None
  }

  predicate Retirable(supply: Balances, balance: Balances, y: Symbol, amount: int64) {
    && y in supply && y in balance
    && 0 < amount <= supply[y]
    && amount <= balance[y]
  }

  ghost predicate RetireOk(l: Ledger, owner: Name, tokens: Amounts) {
    && owner in l.accounts
    && forall y :: y in tokens ==> Retirable(l.supply, l.accounts[owner], y, tokens[y])
  }

  ghost function Subtracted(b: Balances, tokens: Amounts): Balances {
    map y | y in b :: b[y] - Amount(tokens, y)
  }

  ghost function NonZero(b: Balances): Balances {
    map y | y in b && b[y] != 0 :: b[y]
  }

  ghost function Retire(l: Ledger, owner: Name, tokens: Amounts): Option<Ledger> {
    if RetireOk(l, owner, tokens) then
      Some(Ledger(l.accounts[owner := NonZero(Subtracted(l.accounts[owner], tokens))],
                  Subtracted(l.supply, tokens), l.maxSupply))
    else None
  }

  /** The guard that the issue action lacks: no supply leaves the 64-bit range. */
  ghost predicate NoOverflow(l: Ledger, tokens: Amounts) {
    forall y :: y in tokens ==> Bal(l.supply, y) + tokens[y] <= MAX_INT64
  }

  function Amount(tokens: Amounts, y: Symbol): int {
    if y in tokens then tokens[y] else 0
  }

  lemma AddedAt(b: Balances, tokens: Amounts, y: Symbol)
    requires 0 <= Bal(b, y) + Amount(tokens, y) <= MAX_INT64
    ensures Bal(Added(b, tokens), y) == Bal(b, y) + Amount(tokens, y)
  {
  }

  /** What an accepted issue within range does to the supply and to the owner's row. */
  lemma IssueAt(l: Ledger, owner: Name, tokens: Amounts, y: Symbol)
    requires Inv(l) && IssueOk(l, tokens) && NoOverflow(l, tokens)
    ensures var row := Added(Row(l, owner), tokens);
      && Bal(row, y) == Held(l, owner, y) + Amount(tokens, y)
      && (y in row ==> 0 < row[y])
    ensures var supply := Added(l.supply, tokens);
      && Bal(supply, y) == Bal(l.supply, y) + Amount(tokens, y)
      && (y in supply <==> y in l.supply)
      && (y in supply ==> 0 <= supply[y] < l.maxSupply[y] <= MAX_AMOUNT)
  {
    assert 0 <= Held(l, owner, y) <= Bal(l.supply, y) < MAX_AMOUNT by { TwoHolders(l, owner, owner + 1, y); }
    assert 0 <= Amount(tokens, y) && Bal(l.supply, y) + Amount(tokens, y) <= MAX_INT64;
    AddedAt(Row(l, owner), tokens, y);
    AddedAt(l.supply, tokens, y);
  }

  lemma IssuedSupply(l: Ledger, owner: Name, tokens: Amounts)
    requires Inv(l) && IssueOk(l, tokens) && NoOverflow(l, tokens)
    ensures SupplyInRange(Ledger(map[], Added(l.supply, tokens), l.maxSupply))
  {
    var supply := Added(l.supply, tokens);
    forall y
      ensures y in supply <==> y in l.maxSupply
      ensures y in supply ==> 0 <= supply[y] < l.maxSupply[y] <= MAX_AMOUNT
    {
      IssueAt(l, owner, tokens, y);
    }
  }

  lemma IssueWithinRange(l: Ledger, owner: Name, tokens: Amounts)
    requires Inv(l) && IssueOk(l, tokens) && NoOverflow(l, tokens)
    ensures Inv(Issue(l, owner, tokens).value)
  {
    var row := Added(Row(l, owner), tokens);
    var l' := Ledger(l.accounts[owner := row], Added(l.supply, tokens), l.maxSupply);
    IssuedSupply(l, owner, tokens);
    forall y | y in row ensures 0 < row[y] { IssueAt(l, owner, tokens, y); }
    forall y ensures Sum(Holdings(l'.accounts, y)) == Bal(l'.supply, y) {
      IssueAt(l, owner, tokens, y);
      HoldingsUpdate(l.accounts, owner, row, y);
    }
    assert Inv(l');
  }

  lemma OverflowGoesNegative(l: Ledger, owner: Name, tokens: Amounts, y: Symbol)
    requires SupplyInRange(l) && y in tokens && y in l.supply && MAX_INT64 < l.supply[y] + tokens[y]
    ensures Bal(Added(l.supply, tokens), y) < 0
  {
    assert Added(l.supply, tokens)[y] == Wrap64(l.supply[y] + tokens[y]);
  }

  /** An accepted issue keeps the ledger sound exactly when no supply overflows. */
  lemma IssueKeepsInvIff(l: Ledger, owner: Name, tokens: Amounts)
    requires Inv(l) && IssueOk(l, tokens)
    ensures Inv(Issue(l, owner, tokens).value) <==> NoOverflow(l, tokens)
  {
    if NoOverflow(l, tokens) {
      IssueWithinRange(l, owner, tokens);
    } else {
      var y :| y in tokens && Bal(l.supply, y) + tokens[y] > MAX_INT64;
      OverflowGoesNegative(l, owner, tokens, y);
      var l' := Issue(l, owner, tokens).value;
      assert !SupplyInRange(l') by { assert Bal(l'.supply, y) < 0; }
    }
  }

  /** Amounts that are valid assets never overflow. */
  lemma ValidAmountsNeverOverflow(l: Ledger, tokens: Amounts)
    requires SupplyInRange(l)
    requires forall y :: y in tokens ==> tokens[y] <= MAX_AMOUNT
    ensures NoOverflow(l, tokens)
  {
  }

  lemma RetireAt(l: Ledger, owner: Name, tokens: Amounts, y: Symbol)
    requires Inv(l) && RetireOk(l, owner, tokens)
    ensures var l' := Retire(l, owner, tokens).value;
      && Held(l', owner, y) == Held(l, owner, y) - Amount(tokens, y)
      && Bal(l'.supply, y) == Bal(l.supply, y) - Amount(tokens, y)
      && (forall n :: n != owner ==> Held(l', n, y) == Held(l, n, y))
  {
  }

  lemma RetiredRow(b: Balances, tokens: Amounts)
    requires forall y :: y in tokens && y in b ==> tokens[y] <= b[y]
    requires Positive(b)
    ensures Positive(NonZero(Subtracted(b, tokens)))
  {
  }

  lemma RetireKeepsInv(l: Ledger, owner: Name, tokens: Amounts)
    requires Inv(l) && RetireOk(l, owner, tokens)
    ensures var l' := Retire(l, owner, tokens).value;
      && Inv(l')
      && (forall n, y :: n != owner ==> Held(l', n, y) == Held(l, n, y))
  {
    var row := NonZero(Subtracted(l.accounts[owner], tokens));
    var l' := Ledger(l.accounts[owner := row], Subtracted(l.supply, tokens), l.maxSupply);
    RetiredRow(l.accounts[owner], tokens);
    forall y ensures Sum(Holdings(l'.accounts, y)) == Bal(l'.supply, y) {
      RetireAt(l, owner, tokens, y);
      HoldingsUpdate(l.accounts, owner, row, y);
    }
    assert SupplyInRange(l');
  }

  /** A row with positive entries is determined by what it holds of each fungible. */
  lemma SameRow(a: Balances, b: Balances)
    requires Positive(a) && Positive(b)
    requires forall y :: Bal(a, y) == Bal(b, y)
    ensures a == b
  {
    forall y ensures y in a <==> y in b {
      assert Bal(a, y) == Bal(b, y);
    }
    forall y | y in a ensures a[y] == b[y] {
      assert Bal(a, y) == Bal(b, y);
    }
  }

  lemma AddedThenSubtracted(b: Balances, tokens: Amounts)
    requires forall y :: y in b || y in tokens ==> 0 <= Bal(b, y) + Amount(tokens, y) <= MAX_INT64
    ensures tokens.Keys <= b.Keys ==> Subtracted(Added(b, tokens), tokens) == b
    ensures Positive(b) ==> NonZero(Subtracted(Added(b, tokens), tokens)) == b
  {
    var back := Subtracted(Added(b, tokens), tokens);
    assert forall y :: Bal(back, y) == Bal(b, y) && (y in back <==> y in b || y in tokens);
    if tokens.Keys <= b.Keys {
      assert back.Keys == b.Keys;
      assert forall y :: y in b ==> back[y] == Bal(b, y);
    }
    if Positive(b) {
      SameRow(NonZero(back), b);
    }
  }

  lemma IssuedCanBeRetired(l: Ledger, owner: Name, tokens: Amounts)
    requires Inv(l) && IssueOk(l, tokens) && NoOverflow(l, tokens)
    ensures RetireOk(Issue(l, owner, tokens).value, owner, tokens)
    ensures forall y :: y in Row(l, owner) || y in tokens ==> 0 <= Held(l, owner, y) + Amount(tokens, y) <= MAX_INT64
    ensures forall y :: y in l.supply || y in tokens ==> 0 <= Bal(l.supply, y) + Amount(tokens, y) <= MAX_INT64
  {
    forall y
      ensures y in Row(l, owner) || y in tokens ==> 0 <= Held(l, owner, y) + Amount(tokens, y) <= MAX_INT64
      ensures y in l.supply || y in tokens ==> 0 <= Bal(l.supply, y) + Amount(tokens, y) <= MAX_INT64
      ensures y in tokens ==> tokens[y] <= Bal(Added(Row(l, owner), tokens), y)
      ensures y in tokens ==> tokens[y] <= Bal(Added(l.supply, tokens), y)
    {
      IssueAt(l, owner, tokens, y);
      TwoHolders(l, owner, owner + 1, y);
    }
  }

  /** Retiring what was just issued restores every supply and every holding. */
  lemma RetireUndoesIssue(l: Ledger, owner: Name, tokens: Amounts)
    requires Inv(l) && IssueOk(l, tokens) && NoOverflow(l, tokens) && owner in l.accounts
    ensures Retire(Issue(l, owner, tokens).value, owner, tokens) == Some(l)
  {
    IssuedCanBeRetired(l, owner, tokens);
    AddedThenSubtracted(l.accounts[owner], tokens);
    AddedThenSubtracted(l.supply, tokens);
    assert l.accounts[owner := Added(l.accounts[owner], tokens)][owner := l.accounts[owner]] == l.accounts;
  }

  // ---- Opening accounts and listing fungibles ----

  ghost function Open(l: Ledger, owner: Name): Ledger {
    if owner in l.accounts then l else l.(accounts := l.accounts[owner := map[]])
  }

  ghost function Close(l: Ledger, owner: Name): Option<Ledger> {
    if owner in l.accounts && forall y :: y in l.accounts[owner] ==> l.accounts[owner][y] == 0 then
      Some(l.(accounts := l.accounts - {owner}))
    else None
  }

  ghost function Zeros(ys: set<Symbol>): Balances {
    map y | y in ys :: 0
  }

  /** A new symbol with a valid, positive maximum. */
  predicate Listable(maxSupply: Balances, y: Symbol, amount: int64) {
    y !in maxSupply && ValidSymbol(y) && 0 < amount <= MAX_AMOUNT
  }

  ghost function SetSupplies(l: Ledger, tokens: Amounts): Option<Ledger> {
    if forall y :: y in tokens ==> Listable(l.maxSupply, y, tokens[y]) then
      Some(l.(maxSupply := tokens + l.maxSupply,
              supply := Zeros(tokens.Keys) + l.supply))
    else None
  }

  ghost function RmvSupply(l: Ledger, tokens: Amounts): Option<Ledger> {
    if forall y :: y in tokens ==> y in l.maxSupply && y in l.supply && l.supply[y] == 0 then
      Some(l.(maxSupply := l.maxSupply - tokens.Keys, supply := l.supply - tokens.Keys))
    else None
  }

  lemma OpenKeepsInv(l: Ledger, owner: Name)
    requires Inv(l)
    ensures Inv(Open(l, owner))
    ensures forall n, y :: Held(Open(l, owner), n, y) == Held(l, n, y)
  {
    if owner !in l.accounts {
      forall y ensures Sum(Holdings(Open(l, owner).accounts, y)) == Bal(l.supply, y) {
        HoldingsUpdate(l.accounts, owner, map[], y);
      }
    }
  }

  /** Closing succeeds exactly on an account that holds nothing, so it destroys no tokens. */
  lemma CloseDestroysNothing(l: Ledger, owner: Name)
    requires Inv(l)
    ensures Close(l, owner).Some? <==> owner in l.accounts && l.accounts[owner] == map[]
    ensures Close(l, owner).Some? ==>
      && Inv(Close(l, owner).value)
      && forall n, y :: Held(Close(l, owner).value, n, y) == Held(l, n, y)
  {
    if Close(l, owner).Some? {
      assert l.accounts[owner].Keys == {};
      assert l.accounts[owner] == map[];
      var l' := Close(l, owner).value;
      forall y ensures Sum(Holdings(l'.accounts, y)) == Bal(l'.supply, y) {
        SumWithout(Holdings(l.accounts, y), owner);
        assert Holdings(l'.accounts, y) == Holdings(l.accounts, y) - {owner};
      }
    }
  }

  lemma SetSuppliesKeepsInv(l: Ledger, tokens: Amounts)
    requires Inv(l) && SetSupplies(l, tokens).Some?
    ensures Inv(SetSupplies(l, tokens).value)
  {
    var l' := SetSupplies(l, tokens).value;
    assert forall y :: Bal(l'.supply, y) == Bal(l.supply, y);
    assert forall y :: Holdings(l'.accounts, y) == Holdings(l.accounts, y);
  }

  /** A fungible that can be removed has no holder, so nobody is left with a token that does not exist. */
  lemma RmvSupplyOrphansNobody(l: Ledger, tokens: Amounts)
    requires Inv(l) && RmvSupply(l, tokens).Some?
    ensures Inv(RmvSupply(l, tokens).value)
    ensures forall n, y :: n in l.accounts && y in tokens ==> y !in l.accounts[n]
  {
    forall n, y | n in l.accounts && y in tokens
      ensures y !in l.accounts[n]
    {
      if y in l.accounts[n] { OnlyExistingFungiblesAreHeld(l, n, y); }
    }
    var l' := RmvSupply(l, tokens).value;
    assert forall y :: Bal(l'.supply, y) == Bal(l.supply, y);
    assert forall y :: Holdings(l'.accounts, y) == Holdings(l.accounts, y);
  }

  // ---- What each action accepts and leaves ----

  /** The accounts but some, and the supplies, are as they were. */
  ghost predicate RowsKept(l: Ledger, l': Ledger, touched: set<Name>) {
    forall n :: n !in touched ==>
      && (n in l'.accounts <==> n in l.accounts)
      && (n in l.accounts ==> l'.accounts[n] == l.accounts[n])
  }

  ghost predicate SuppliesKept(l: Ledger, l': Ledger) {
    l'.supply == l.supply && l'.maxSupply == l.maxSupply
  }

  /** A transfer is accepted exactly between two different accounts, of which the sender has a row and the receiver exists,
      for one to 99 assets of valid, positive amounts whose totals the sender holds. */
  lemma TransferAcceptedIff(l: Ledger, from: Name, to: Name, toExists: bool, tokens: seq<Asset>)
    requires Inv(l)
    ensures Transfer(l, from, to, toExists, tokens).Some? <==>
      && from != to && toExists && from in l.accounts && 0 < |tokens| < 100
      && (forall i :: 0 <= i < |tokens| ==> 0 < tokens[i].amount < 0x4000_0000_0000_0000)
      && (forall i :: 0 <= i < |tokens| ==> Total(tokens, tokens[i].symbol) <= Held(l, from, tokens[i].symbol))
  {
    if && from in l.accounts && (forall i :: 0 <= i < |tokens| ==> 0 < tokens[i].amount < 0x4000_0000_0000_0000)
       && (forall i :: 0 <= i < |tokens| ==> Total(tokens, tokens[i].symbol) <= Held(l, from, tokens[i].symbol)) {
      CoveredIsValid(l, from, tokens);
    }
    if Transfer(l, from, to, toExists, tokens).Some? {
      forall i | 0 <= i < |tokens|
        ensures 0 < tokens[i].amount < 0x4000_0000_0000_0000
        ensures Total(tokens, tokens[i].symbol) <= Held(l, from, tokens[i].symbol)
      {
        assert tokens[i] in tokens && tokens[i].symbol in Symbols(tokens);
      }
    }
  }

  /** An entry moves at least its own amount of its symbol, when no amount is negative. */
  lemma {:induction false} EntryWithinTotal(tokens: seq<Asset>, i: nat)
    requires i < |tokens| && forall k :: 0 <= k < |tokens| ==> 0 < tokens[k].amount
    ensures tokens[i].amount <= Total(tokens, tokens[i].symbol)
  {
    var rest := tokens[..|tokens| - 1];
    if i < |rest| {
      EntryWithinTotal(rest, i);
    } else {
      TotalAtLeastZero(rest, tokens[i].symbol);
    }
  }

  lemma {:induction false} TotalAtLeastZero(tokens: seq<Asset>, y: Symbol)
    requires forall k :: 0 <= k < |tokens| ==> 0 < tokens[k].amount
    ensures 0 <= Total(tokens, y)
  {
    if tokens != [] { TotalAtLeastZero(tokens[..|tokens| - 1], y); }
  }

  /** What is held is a valid symbol, so a list that is covered names no other. */
  lemma CoveredIsValid(l: Ledger, from: Name, tokens: seq<Asset>)
    requires Inv(l) && from in l.accounts
    requires forall i :: 0 <= i < |tokens| ==> 0 < tokens[i].amount < 0x4000_0000_0000_0000
    requires forall i :: 0 <= i < |tokens| ==> Total(tokens, tokens[i].symbol) <= Held(l, from, tokens[i].symbol)
    ensures AllPositive(tokens)
    ensures forall y :: y in Symbols(tokens) ==> Total(tokens, y) <= Bal(l.accounts[from], y)
  {
    forall t | t in tokens ensures 0 < t.amount <= MAX_AMOUNT && ValidSymbol(t.symbol) {
      var i :| 0 <= i < |tokens| && tokens[i] == t;
      EntryWithinTotal(tokens, i);
      OnlyExistingFungiblesAreHeld(l, from, t.symbol);
    }
  }

  /** What an accepted transfer leaves beside the moved totals: rows for both, every other row and the supplies as before. */
  lemma TransferKeepsRest(l: Ledger, from: Name, to: Name, toExists: bool, tokens: seq<Asset>)
    requires Inv(l) && Transfer(l, from, to, toExists, tokens).Some?
    ensures var l' := Transfer(l, from, to, toExists, tokens).value;
      RowsKept(l, l', {from, to}) && SuppliesKept(l, l') && from in l'.accounts && to in l'.accounts
  {
  }

  /** A transfer of one asset moves exactly its amount of its symbol, and no other holding. */
  lemma OneAssetMoves(l: Ledger, from: Name, to: Name, a: Asset)
    requires Inv(l) && Transfer(l, from, to, true, [a]).Some?
    ensures var l' := Transfer(l, from, to, true, [a]).value;
      && Held(l', from, a.symbol) == Held(l, from, a.symbol) - a.amount
      && Held(l', to, a.symbol) == Held(l, to, a.symbol) + a.amount
      && (forall y :: y != a.symbol ==> Held(l', from, y) == Held(l, from, y) && Held(l', to, y) == Held(l, to, y))
  {
    assert [a][..0] == [];
    TransferMoves(l, from, to, true, [a], a.symbol);
    forall y | y != a.symbol
      ensures var l' := Transfer(l, from, to, true, [a]).value;
        Held(l', from, y) == Held(l, from, y) && Held(l', to, y) == Held(l, to, y)
    {
      TransferMoves(l, from, to, true, [a], y);
    }
  }

  /** An issue is accepted exactly when each symbol is listed, each amount positive, and each sum, as a signed 64-bit number,
      below the maximum. */
  lemma IssueAcceptedIff(l: Ledger, owner: Name, tokens: Amounts)
    requires SupplyInRange(l)
    ensures Issue(l, owner, tokens).Some? <==>
      forall y :: y in tokens ==>
        && y in l.supply && 0 < tokens[y]
        && (l.supply[y] + tokens[y] < l.maxSupply[y] || 0x8000_0000_0000_0000 <= l.supply[y] + tokens[y])
  {
  }

  /** What an accepted issue within range leaves: the amounts added to the owner's holdings and to the supplies. */
  lemma IssueIsExact(l: Ledger, owner: Name, tokens: Amounts, y: Symbol)
    requires Inv(l) && Issue(l, owner, tokens).Some? && NoOverflow(l, tokens)
    ensures var l' := Issue(l, owner, tokens).value;
      && Held(l', owner, y) == Held(l, owner, y) + Amount(tokens, y)
      && Bal(l'.supply, y) == Bal(l.supply, y) + Amount(tokens, y)
      && l'.maxSupply == l.maxSupply && owner in l'.accounts && RowsKept(l, l', {owner})
  {
    IssueAt(l, owner, tokens, y);
  }

  /** Retiring is accepted exactly when the owner has a row, and holds each amount, which is positive: the supply, which is
      checked as well, covers whatever is held. */
  lemma RetireAcceptedIff(l: Ledger, owner: Name, tokens: Amounts)
    requires Inv(l)
    ensures Retire(l, owner, tokens).Some? <==>
      owner in l.accounts && forall y :: y in tokens ==> 0 < tokens[y] <= Held(l, owner, y)
  {
    forall y | y in tokens && 0 < tokens[y] <= Held(l, owner, y) ensures y in l.supply && tokens[y] <= l.supply[y] {
      OnlyExistingFungiblesAreHeld(l, owner, y);
    }
  }

  lemma RetireKeepsRest(l: Ledger, owner: Name, tokens: Amounts)
    requires Retire(l, owner, tokens).Some?
    ensures var l' := Retire(l, owner, tokens).value;
      l'.maxSupply == l.maxSupply && l'.supply.Keys == l.supply.Keys && owner in l'.accounts && RowsKept(l, l', {owner})
  {
  }

  /** Opening leaves a row, an empty one if there was none. */
  lemma OpenIsExact(l: Ledger, owner: Name)
    ensures var l' := Open(l, owner);
      && owner in l'.accounts && l'.accounts[owner] == (if owner in l.accounts then l.accounts[owner] else map[])
      && RowsKept(l, l', {owner}) && SuppliesKept(l, l')
  {
  }

  /** Closing leaves no row. */
  lemma CloseIsExact(l: Ledger, owner: Name)
    requires Close(l, owner).Some?
    ensures var l' := Close(l, owner).value;
      owner !in l'.accounts && RowsKept(l, l', {owner}) && SuppliesKept(l, l')
  {
  }

  /** Listing is accepted exactly for symbols that are valid and not listed, with valid positive maxima; each is listed
      with its maximum and supply zero. */
  lemma SetSuppliesIsExact(l: Ledger, tokens: Amounts)
    requires SupplyInRange(l)
    ensures SetSupplies(l, tokens).Some? <==>
      forall y :: y in tokens ==> y !in l.supply && ValidSymbol(y) && 0 < tokens[y] < 0x4000_0000_0000_0000
    ensures SetSupplies(l, tokens).Some? ==>
      var l' := SetSupplies(l, tokens).value;
      && l'.accounts == l.accounts
      && (forall y :: y in tokens ==>
           y in l'.supply && l'.supply[y] == 0 && y in l'.maxSupply && l'.maxSupply[y] == tokens[y])
      && (forall y :: y !in tokens ==>
           && (y in l'.supply <==> y in l.supply) && (y in l.supply ==> l'.supply[y] == l.supply[y])
           && (y in l'.maxSupply <==> y in l.maxSupply) && (y in l.maxSupply ==> l'.maxSupply[y] == l.maxSupply[y]))
  {
  }

  /** Removal is accepted exactly for listed symbols of supply zero, and takes these from both maps, whatever amounts
      are named. */
  lemma RmvSupplyIsExact(l: Ledger, tokens: Amounts)
    requires SupplyInRange(l)
    ensures RmvSupply(l, tokens).Some? <==> forall y :: y in tokens ==> y in l.supply && l.supply[y] == 0
    ensures RmvSupply(l, tokens).Some? ==>
      var l' := RmvSupply(l, tokens).value;
      && l'.accounts == l.accounts
      && (forall y :: y in tokens ==> y !in l'.supply && y !in l'.maxSupply)
      && (forall y :: y !in tokens ==>
           && (y in l'.supply <==> y in l.supply) && (y in l.supply ==> l'.supply[y] == l.supply[y])
           && (y in l'.maxSupply <==> y in l.maxSupply) && (y in l.maxSupply ==> l'.maxSupply[y] == l.maxSupply[y]))
  {
  }

  // ---- Runs ----

  datatype Action =
    | DoIssue(owner: Name, tokens: Amounts)
    | DoRetire(owner: Name, tokens: Amounts)
    | DoOpen(owner: Name)
    | DoClose(owner: Name)
    | DoTransfer(from: Name, to: Name, toExists: bool, list: seq<Asset>)
    | DoSetSupplies(tokens: Amounts)
    | DoRmvSupply(tokens: Amounts)

  ghost function Attempt(l: Ledger, a: Action): Option<Ledger> {
    match a
    case DoIssue(owner, tokens) => Issue(l, owner, tokens)
    case DoRetire(owner, tokens) => Retire(l, owner, tokens)
    case DoOpen(owner) => Some(Open(l, owner))
    case DoClose(owner) => Close(l, owner)
    case DoTransfer(from, to, toExists, list) => Transfer(l, from, to, toExists, list)
    case DoSetSupplies(tokens) => SetSupplies(l, tokens)
    case DoRmvSupply(tokens) => RmvSupply(l, tokens)
  }

  /** A failed check undoes the whole action. */
  ghost function Step(l: Ledger, a: Action): Ledger {
    match Attempt(l, a)
    case Some(l') => l'
    case None => l
  }

  ghost function Run(actions: seq<Action>): Ledger {
    if actions == [] then GENESIS
    else Step(Run(actions[..|actions| - 1]), actions[|actions| - 1])
  }

  /** A step other than an issue is safe, and so is an issue that is refused or overflows no supply. */
  ghost predicate SafeStep(l: Ledger, a: Action) {
    a.DoIssue? && IssueOk(l, a.tokens) ==> NoOverflow(l, a.tokens)
  }

  /** Every accepted issue of the run overflows no supply. */
  ghost predicate InRange(actions: seq<Action>) {
    forall i :: 0 <= i < |actions| ==> SafeStep(Run(actions[..i]), actions[i])
  }

  lemma StepKeepsInvIff(l: Ledger, a: Action)
    requires Inv(l)
    ensures Inv(Step(l, a)) <==> SafeStep(l, a)
  {
    match a
    case DoIssue(owner, tokens) =>
      if IssueOk(l, tokens) { IssueKeepsInvIff(l, owner, tokens); }
    case DoRetire(owner, tokens) =>
      if RetireOk(l, owner, tokens) { RetireKeepsInv(l, owner, tokens); }
    case DoOpen(owner) => OpenKeepsInv(l, owner);
    case DoClose(owner) => CloseDestroysNothing(l, owner);
    case DoTransfer(from, to, toExists, list) =>
      if TransferOk(l, from, to, toExists, list) { TransferKeepsInv(l, from, to, toExists, list); }
    case DoSetSupplies(tokens) =>
      if SetSupplies(l, tokens).Some? { SetSuppliesKeepsInv(l, tokens); }
    case DoRmvSupply(tokens) =>
      if RmvSupply(l, tokens).Some? { RmvSupplyOrphansNobody(l, tokens); }
  }

  lemma RunNext(actions: seq<Action>, i: nat)
    requires i < |actions|
    ensures Run(actions[..i + 1]) == Step(Run(actions[..i]), actions[i])
  {
    assert actions[..i + 1][..i] == actions[..i];
  }

  lemma {:induction false} SafePrefix(actions: seq<Action>, i: nat)
    requires InRange(actions) && i <= |actions|
    ensures Inv(Run(actions[..i]))
  {
    if i == 0 {
    } else {
      SafePrefix(actions, i - 1);
      RunNext(actions, i - 1);
      StepKeepsInvIff(Run(actions[..i - 1]), actions[i - 1]);
    }
  }

  /** Over every run the balances of each fungible add up to its recorded supply, every stored balance is
      positive, supply stays below its maximum, and both supply maps list the same fungibles. */
  lemma RunConserves(actions: seq<Action>)
    requires InRange(actions)
    ensures Inv(Run(actions))
  {
    SafePrefix(actions, |actions|);
    assert actions[..|actions|] == actions;
  }

  /** Over any run whatever, this holds in every state if and only if every accepted issue overflows no supply. */
  lemma RunSoundIff(actions: seq<Action>)
    ensures (forall i :: 0 <= i <= |actions| ==> Inv(Run(actions[..i]))) <==> InRange(actions)
  {
    if InRange(actions) {
      forall i | 0 <= i <= |actions| ensures Inv(Run(actions[..i])) {
        SafePrefix(actions, i);
      }
    }
    if forall i :: 0 <= i <= |actions| ==> Inv(Run(actions[..i])) {
      forall i | 0 <= i < |actions| ensures SafeStep(Run(actions[..i]), actions[i]) {
        assert Inv(Run(actions[..i])) && Inv(Run(actions[..i + 1]));
        RunNext(actions, i);
        StepKeepsInvIff(Run(actions[..i]), actions[i]);
      }
    }
  }

  /** Issues of valid asset amounts never overflow, whatever the run: the maximum bounds every supply. */
  lemma {:induction false} ValidAmountsStayInRange(actions: seq<Action>)
    requires forall i :: 0 <= i < |actions| && actions[i].DoIssue? ==>
      forall y :: y in actions[i].tokens ==> actions[i].tokens[y] <= MAX_AMOUNT
    ensures InRange(actions) && Inv(Run(actions))
  {
    forall i | 0 <= i < |actions| ensures SafeStep(Run(actions[..i]), actions[i]) {
      ValidAmountsStayInRange(actions[..i]);
      if actions[i].DoIssue? { ValidAmountsNeverOverflow(Run(actions[..i]), actions[i].tokens); }
    }
    RunConserves(actions);
  }

  // ---- The overflow that the issue action admits ----

  const HUNDRED: Amounts := map[TWIG := 100]
  const TEN: Amounts := map[TWIG := 10]
  const LISTED_AND_ISSUED: seq<Action> := [DoSetSupplies(HUNDRED), DoIssue(TEAM_ACCOUNT, TEN)]

  lemma HundredListed()
    ensures Run([DoSetSupplies(HUNDRED)]) == Ledger(map[], map[TWIG := 0], map[TWIG := 100])
  {
    var list := DoSetSupplies(HUNDRED);
    assert [list][..0] == [];
    TwigIsValid();
    assert Run([list]) == Step(GENESIS, list);
    assert HUNDRED.Keys == {TWIG};
    assert Zeros({TWIG}) + GENESIS.supply == map[TWIG := 0];
    assert HUNDRED + GENESIS.maxSupply == map[TWIG := 100];
  }

  lemma TenIssued()
    ensures Run(LISTED_AND_ISSUED) == Ledger(map[TEAM_ACCOUNT := map[TWIG := 10]], map[TWIG := 10], map[TWIG := 100])
  {
    HundredListed();
    assert LISTED_AND_ISSUED[..1] == [DoSetSupplies(HUNDRED)];
    var l := Ledger(map[], map[TWIG := 0], map[TWIG := 100]);
    assert Run(LISTED_AND_ISSUED) == Step(l, DoIssue(TEAM_ACCOUNT, TEN));
    assert IssueOk(l, TEN);
    assert Added(map[TWIG := 0], TEN) == map[TWIG := 10];
    assert Added(map[], TEN) == map[TWIG := 10];
  }

  const TOO_MUCH: Amounts := map[TWIG := MAX_INT64]

  lemma TooMuchIsAccepted(l: Ledger)
    requires l.supply == map[TWIG := 10] && l.maxSupply == map[TWIG := 100]
    ensures IssueOk(l, TOO_MUCH) && !NoOverflow(l, TOO_MUCH)
  {
    assert Wrap64(10 + MAX_INT64) < 0;
    assert TWIG in TOO_MUCH;
  }

  /** An amount that is a legal 64-bit integer but not a valid asset slips past the maximum: in a sound state
      that a run reaches an issue is accepted that leaves a negative supply. */
  lemma IssueCanWrap()
    ensures var l := Run(LISTED_AND_ISSUED);
      && Inv(l) && IssueOk(l, TOO_MUCH) && !NoOverflow(l, TOO_MUCH)
      && Bal(Issue(l, TEAM_ACCOUNT, TOO_MUCH).value.supply, TWIG) < 0
  {
    TenIssued();
    ValidAmountsStayInRange(LISTED_AND_ISSUED);
    var l := Run(LISTED_AND_ISSUED);
    TooMuchIsAccepted(l);
    OverflowGoesNegative(l, TEAM_ACCOUNT, TOO_MUCH, TWIG);
  }
}
