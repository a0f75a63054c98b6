/** Emission: the counters that lucky blocks drive, and the issue and four-way split of a found chunk. */
module Tokenomics {
  import opened Arithmetic
  import opened Common
  import L = LedgerSpec

  const EPOCHS_WITH_ISSUE := 20
  const HITS_PER_EPOCH := LUCKY_CHUNKS + 1

  /** Chunks issue tokens during the first epochs only. */
  predicate StillIssues(epoch: nat) {
    epoch <= EPOCHS_WITH_ISSUE
  }

  // ---- The counter machine ----

  datatype Counters = Counters(epoch: nat, chunksRemaining: nat)

  /** What a hit sends: the reward of a chunk, or the start of the given epoch. */
  datatype Sent = Nothing | OnChunk | OnEpoch(epoch: nat)

  function AfterHit(c: Counters): Counters {
    if c.chunksRemaining > 0 then c.(chunksRemaining := c.chunksRemaining - 1)
    else Counters((c.epoch + 1) % TWO_32, LUCKY_CHUNKS)
  }

  function After(hits: nat): Counters {
    if hits == 0 then Counters(1, LUCKY_CHUNKS) else AfterHit(After(hits - 1))
  }

  /** The counters are a closed form of the number of hits; the 32-bit epoch wraps around. */
  lemma {:induction false} CountersClosedForm(hits: nat)
    ensures After(hits) == Counters((hits / 60751 + 1) % 0x1_0000_0000, 60750 - hits % 60751)
  {
    if hits > 0 {
      CountersClosedForm(hits - 1);
      DivisionStep(hits - 1, HITS_PER_EPOCH);
      EpochWraps((hits - 1) / HITS_PER_EPOCH + 1);
    }
  }

  lemma EpochWraps(e: nat)
    ensures (e % TWO_32 + 1) % TWO_32 == (e + 1) % TWO_32
  {
  }

  /** The record of the lucky number, updated in place by every block. */
  class LuckyNumber {
    const odds: nat := 256
    var epoch: nat
    var chunksRemaining: nat
    var blocksSince: nat
    var totalBlocks: nat
    var producer: Name
    ghost var hits: nat

    ghost predicate Valid()
      reads this
    {
      Counters(epoch, chunksRemaining) == After(hits)
    }

    constructor ()
      ensures Valid() && hits == 0 && totalBlocks == 0 && blocksSince == 0 && odds == 256
    {
      epoch, chunksRemaining, blocksSince, totalBlocks := 1, LUCKY_CHUNKS, 0, 0;
      producer := SYSTEM_ACCOUNT;
      hits := 0;
    }

    /** One block: the roll is any number below sixteen times the odds, and one below sixteen is a hit. */
    method OnALuckyBlock(blockProducer: Name, roll: nat) returns (sent: Sent)
      requires Valid() && roll < odds * 16
      modifies this
      ensures Valid()
      ensures hits == old(hits) + if roll < 16 then 1 else 0
      ensures totalBlocks == (old(totalBlocks) + 1) % TWO_64
      ensures roll >= 16 ==> sent == Nothing && producer == old(producer) && blocksSince == (old(blocksSince) + 1) % TWO_32
      ensures roll < 16 ==>
        && producer == blockProducer && blocksSince == 0
        && sent == if hits % 60751 == 0 then OnEpoch((hits / 60751 + 1) % 0x1_0000_0000) else OnChunk
    {
      totalBlocks := (totalBlocks + 1) % TWO_64;
      sent := Nothing;
      if roll >= 16 {
        blocksSince := (blocksSince + 1) % TWO_32;
      } else {
        CountersClosedForm(hits);
        CountersClosedForm(hits + 1);
        DivisionStep(hits, HITS_PER_EPOCH);
        hits := hits + 1;
        blocksSince := 0;
        producer := blockProducer;
        if chunksRemaining > 0 {
          chunksRemaining := chunksRemaining - 1;
          sent := OnChunk;
        } else {
          chunksRemaining := LUCKY_CHUNKS;
          epoch := (epoch + 1) % TWO_32;
          sent := OnEpoch(epoch);
        }
      }
    }
  }

  // ---- The cap on emission ----

  /** How many of the first hits find a chunk that issues tokens. */
  function IssuingChunks(hits: nat): nat {
    if hits == 0 then 0
    else
      var c := After(hits - 1);
      IssuingChunks(hits - 1) + if c.chunksRemaining > 0 && StillIssues(c.epoch) then 1 else 0
  }

  /** The hits before the 32-bit epoch counter wraps to zero. */
  const HITS_BEFORE_WRAP := (TWO_32 - 1) * HITS_PER_EPOCH

  function IssuingTotal(hits: nat): int {
    if hits / HITS_PER_EPOCH < EPOCHS_WITH_ISSUE then hits - hits / HITS_PER_EPOCH else EPOCHS_WITH_ISSUE * LUCKY_CHUNKS
  }

  /** Whether a hit finds an issuing chunk, told from the hits before it. */
  predicate IssuesAt(hits: nat) {
    hits % HITS_PER_EPOCH < LUCKY_CHUNKS && hits / HITS_PER_EPOCH < EPOCHS_WITH_ISSUE
  }

  lemma NotWrapped(e: nat)
    requires e < TWO_32
    ensures e % TWO_32 == e
  {
  }

  lemma HitIssues(hits: nat)
    requires hits < HITS_BEFORE_WRAP
    ensures var c := After(hits); (c.chunksRemaining > 0 && StillIssues(c.epoch)) <==> IssuesAt(hits)
  {
    CountersClosedForm(hits);
    NotWrapped(hits / HITS_PER_EPOCH + 1);
  }

  lemma {:induction false} IssuingChunksClosedForm(hits: nat)
    requires hits <= HITS_BEFORE_WRAP
    ensures IssuingChunks(hits) == IssuingTotal(hits) == if hits < 20 * 60751 then hits - hits / 60751 else 20 * 60750
  {
    if hits > 0 {
      IssuingChunksClosedForm(hits - 1);
      HitIssues(hits - 1);
    }
  }

  lemma {:induction false} IssuingChunksGrow(a: nat, b: nat)
    requires a <= b
    ensures IssuingChunks(a) <= IssuingChunks(b)
    decreases b
  {
    if a < b { IssuingChunksGrow(a, b - 1); }
  }

  lemma ChunksUpTo(epochs: nat, hits: nat)
    requires epochs < EPOCHS_WITH_ISSUE && hits <= LUCKY_CHUNKS
    ensures epochs * HITS_PER_EPOCH + hits - epochs <= EPOCHS_WITH_ISSUE * LUCKY_CHUNKS
  {
  }

  lemma CappedBeforeWrap(hits: nat)
    requires hits <= HITS_BEFORE_WRAP
    ensures IssuingChunks(hits) <= EPOCHS_WITH_ISSUE * LUCKY_CHUNKS
  {
    IssuingChunksClosedForm(hits);
    var q, r := hits / HITS_PER_EPOCH, hits % HITS_PER_EPOCH;
    if q < EPOCHS_WITH_ISSUE { ChunksUpTo(q, r); }
  }

  lemma AtTheWrap()
    ensures After(HITS_BEFORE_WRAP) == Counters(0, LUCKY_CHUNKS)
    ensures IssuingChunks(HITS_BEFORE_WRAP) == EPOCHS_WITH_ISSUE * LUCKY_CHUNKS
  {
    IssuingChunksClosedForm(HITS_BEFORE_WRAP);
    CountersClosedForm(HITS_BEFORE_WRAP);
    QuotientUnique(HITS_BEFORE_WRAP, HITS_PER_EPOCH, TWO_32 - 1, 0);
  }

  lemma CappedIff(hits: nat)
    ensures IssuingChunks(hits) <= EPOCHS_WITH_ISSUE * LUCKY_CHUNKS <==> hits <= HITS_BEFORE_WRAP
  {
    if hits <= HITS_BEFORE_WRAP {
      CappedBeforeWrap(hits);
    } else {
      AtTheWrap();
      IssuingChunksGrow(HITS_BEFORE_WRAP + 1, hits);
    }
  }

  /** At most twenty epochs' worth of chunks ever issue tokens, exactly until the epoch counter wraps around. */
  lemma IssuingChunksCappedIff(hits: nat)
    ensures IssuingChunks(hits) <= 20 * 60750 <==> hits <= 0xFFFF_FFFF * 60751
  {
    CappedIff(hits);
  }

  /** The amount one chunk issues: the weight is one over all chunks of all issuing epochs. */
  function IssuePerChunk(maxSupply: nat): nat {
    maxSupply / (EPOCHS_WITH_ISSUE * LUCKY_CHUNKS)
  }

  lemma ShareTimesCount(maxSupply: nat, d: nat, k: nat)
    requires 0 < d && k <= d
    ensures k * (maxSupply / d) <= maxSupply
  {
    var q := maxSupply / d;
    assert maxSupply == q * d + maxSupply % d;
    assert k * q <= d * q;
  }

  /** It is the largest amount that all those chunks could issue alike. */
  lemma IssueIsTheLargest(maxSupply: nat, amount: nat)
    ensures amount <= IssuePerChunk(maxSupply) <==> amount * (20 * 60750) <= maxSupply
  {
  }

  /** However the rolls fall, all chunks together never ask for more than the maximum supply. */
  lemma EmissionIsCapped(hits: nat, maxSupply: nat)
    requires hits <= HITS_BEFORE_WRAP
    ensures IssuingChunks(hits) * IssuePerChunk(maxSupply) <= maxSupply
  {
    IssuingChunksCappedIff(hits);
    ShareTimesCount(maxSupply, EPOCHS_WITH_ISSUE * LUCKY_CHUNKS, IssuingChunks(hits));
  }

  // ---- Sequences of rolls ----

  function Hits(rolls: seq<nat>): nat {
    if rolls == [] then 0 else Hits(rolls[..|rolls| - 1]) + if rolls[|rolls| - 1] < 16 then 1 else 0
  }

  function AfterRolls(rolls: seq<nat>): Counters {
    if rolls == [] then Counters(1, LUCKY_CHUNKS)
    else
      var c := AfterRolls(rolls[..|rolls| - 1]);
      if rolls[|rolls| - 1] >= 16 then c else AfterHit(c)
  }

  /** What the chunks found by these rolls ask to issue, at a fixed amount each. */
  function Asked(rolls: seq<nat>, amount: nat): nat {
    if rolls == [] then 0
    else
      var c := AfterRolls(rolls[..|rolls| - 1]);
      Asked(rolls[..|rolls| - 1], amount)
        + if rolls[|rolls| - 1] < 16 && c.chunksRemaining > 0 && StillIssues(c.epoch) then amount else 0
  }

  lemma {:induction false} OnlyHitsMatter(rolls: seq<nat>)
    ensures AfterRolls(rolls) == After(Hits(rolls))
  {
    if rolls != [] { OnlyHitsMatter(rolls[..|rolls| - 1]); }
  }

  lemma {:induction false} AskedPerChunk(rolls: seq<nat>, amount: nat)
    ensures Asked(rolls, amount) == IssuingChunks(Hits(rolls)) * amount
  {
    if rolls != [] {
      var before := rolls[..|rolls| - 1];
      AskedPerChunk(before, amount);
      OnlyHitsMatter(before);
      OneMore(IssuingChunks(Hits(before)), amount);
    }
  }

  lemma OneMore(k: nat, amount: nat)
    ensures (k + 1) * amount == k * amount + amount
  {
  }

  /** However the blocks roll, the amounts that their chunks ask to issue add up to no more than the maximum supply. */
  lemma RollsNeverOverissue(rolls: seq<nat>, maxSupply: nat)
    requires Hits(rolls) <= HITS_BEFORE_WRAP
    ensures Asked(rolls, IssuePerChunk(maxSupply)) <= maxSupply
  {
    AskedPerChunk(rolls, IssuePerChunk(maxSupply));
    EmissionIsCapped(Hits(rolls), maxSupply);
  }

  // ---- The split of a chunk ----

  datatype Shares = Shares(team: nat, board: nat, producer: nat, world: nat) {
    function Sum(): nat { team + board + producer + world }
  }

  /** Each weight is the exact rational that its floating-point constant stands for; amounts are truncated. */
  function SplitOf(total: nat): Shares {
    Shares(total * 9 / 800, total * 9 / 800, total / 400, total * 39 / 40)
  }

  /** The four shares never exceed the total and leave at most three units,
      and each is positive exactly from 400 units on. */
  lemma SplitIsTight(total: nat)
    ensures var s := SplitOf(total);
      && s.Sum() <= total <= s.Sum() + 3
      && ((0 < s.team && 0 < s.board && 0 < s.producer && 0 < s.world) <==> 400 <= total)
  {
  }

  /** Each share is the largest whole amount within its weight: 97.5 percent for the world, and of the other
      2.5 percent 45 each for team and leaderboard and 10 for the producer. */
  lemma SharesMatchWeights(total: nat)
    ensures var s := SplitOf(total);
      && s.world * 1000 <= total * 975 < (s.world + 1) * 1000
      && s.team * 100_000 <= total * 25 * 45 < (s.team + 1) * 100_000
      && s.board * 100_000 <= total * 25 * 45 < (s.board + 1) * 100_000
      && s.producer * 100_000 <= total * 25 * 10 < (s.producer + 1) * 100_000
  {
  }

  function Send(to: Name, amount: int64): L.Action {
    L.DoTransfer(CHUNKS_ACCOUNT, to, true, [Asset(TWIG, amount)])
  }

  /** The four transfers of a total, in the order in which they are carried out. */
  function SplitActions(total: nat): (actions: seq<L.Action>)
    requires total <= MAX_INT64
  {
    var s := SplitOf(total);
    SplitIsTight(total);
    [Send(BANK_ACCOUNT, s.team), Send(BOARD_ACCOUNT, s.board), Send(BANK_ACCOUNT, s.producer), Send(WORLD_ACCOUNT, s.world)]
  }

  function IssueAction(amount: int64): L.Action {
    L.DoIssue(CHUNKS_ACCOUNT, map[TWIG := amount])
  }

  /** All inline actions of a chunk: the issue first, if there is one. */
  function ChunkActions(issue: Option<int64>, total: nat): seq<L.Action>
    requires total <= MAX_INT64
  {
    (if issue.Some? then [IssueAction(issue.value)] else []) + SplitActions(total)
  }

  /** The amount that a chunk issues, if its epoch still issues any. */
  function IssueOf(l: L.Ledger, epoch: nat): Option<int64>
    requires StillIssues(epoch) ==> TWIG in l.maxSupply && 0 <= l.maxSupply[TWIG] <= MAX_AMOUNT
  {
    if StillIssues(epoch) then Some(IssuePerChunk(l.maxSupply[TWIG])) else None
  }

  function IssueAmount(issue: Option<int64>): int {
    if issue.Some? then issue.value else 0
  }

  lemma ChunkTotalInRange(l: L.Ledger, epoch: nat)
    requires L.Inv(l) && (StillIssues(epoch) ==> TWIG in l.maxSupply)
    ensures 0 <= IssueAmount(IssueOf(l, epoch)) <= MAX_AMOUNT
    ensures 0 <= L.Held(l, CHUNKS_ACCOUNT, TWIG) + IssueAmount(IssueOf(l, epoch)) <= MAX_INT64
  {
    L.TwoHolders(l, CHUNKS_ACCOUNT, BANK_ACCOUNT, TWIG);
  }

  /** The action that rewards a chunk: it reads the token tables and queues inline actions. */
  method QueueChunk(l: L.Ledger, epoch: nat) returns (ok: bool, queue: seq<L.Action>)
    requires L.Inv(l) && (StillIssues(epoch) ==> TWIG in l.maxSupply)
    ensures ok == (CHUNKS_ACCOUNT in l.accounts)
    ensures 0 <= L.Held(l, CHUNKS_ACCOUNT, TWIG) + IssueAmount(IssueOf(l, epoch)) <= MAX_INT64
    ensures ok ==>
      queue == ChunkActions(IssueOf(l, epoch), L.Held(l, CHUNKS_ACCOUNT, TWIG) + IssueAmount(IssueOf(l, epoch)))
  {
    ChunkTotalInRange(l, epoch);
    queue := [];
    ok := CHUNKS_ACCOUNT in l.accounts;
    if !ok { return; }
    var chunksTokens: int := 0;
    if TWIG in l.accounts[CHUNKS_ACCOUNT] {
      chunksTokens := l.accounts[CHUNKS_ACCOUNT][TWIG];
    }
    L.TwoHolders(l, CHUNKS_ACCOUNT, BANK_ACCOUNT, TWIG);
    if StillIssues(epoch) {
      var tokensToIssue := l.maxSupply[TWIG] / (EPOCHS_WITH_ISSUE * LUCKY_CHUNKS);
      chunksTokens := chunksTokens + tokensToIssue;
      queue := queue + [IssueAction(tokensToIssue)];
    }
    var shares := QueueShares(chunksTokens);
    queue := queue + shares;
  }

  /** The four shares of a total, each computed from it and queued in turn. */
  method QueueShares(total: nat) returns (queue: seq<L.Action>)
    requires total <= MAX_INT64
    ensures queue == SplitActions(total)
  {
    var chunksTokens: int := total;
    var teamTokens := chunksTokens * 9 / 800;
    queue := [Send(BANK_ACCOUNT, teamTokens)];
    var boardTokens := chunksTokens * 9 / 800;
    queue := queue + [Send(BOARD_ACCOUNT, boardTokens)];
    var producerTokens := chunksTokens / 400;
    queue := queue + [Send(BANK_ACCOUNT, producerTokens)];
    chunksTokens := chunksTokens * 39 / 40;
    queue := queue + [Send(WORLD_ACCOUNT, chunksTokens)];
  }

  /** Carrying out inline actions one after the other; one that fails undoes them all. */
  ghost function CarryOut(l: L.Ledger, actions: seq<L.Action>): Option<L.Ledger>
    decreases |actions|
  {
    if actions == [] then Some(l)
    else
      match L.Attempt(l, actions[0])
      case None => None
      case Some(l') => CarryOut(l', actions[1..])
  }

  /** One share goes through exactly when it is positive and the chunks account covers it. */
  lemma SendOne(l: L.Ledger, to: Name, amount: int64)
    requires L.Inv(l) && CHUNKS_ACCOUNT in l.accounts && to != CHUNKS_ACCOUNT
    ensures L.Attempt(l, Send(to, amount)).Some? <==> 0 < amount <= L.Held(l, CHUNKS_ACCOUNT, TWIG)
    ensures L.Attempt(l, Send(to, amount)).Some? ==>
      var l' := L.Attempt(l, Send(to, amount)).value;
      && L.Inv(l') && CHUNKS_ACCOUNT in l'.accounts
      && L.Held(l', CHUNKS_ACCOUNT, TWIG) == L.Held(l, CHUNKS_ACCOUNT, TWIG) - amount
      && (forall n :: n != CHUNKS_ACCOUNT ==>
           L.Held(l', n, TWIG) == L.Held(l, n, TWIG) + if n == to then amount else 0)
  {
    var list := [Asset(TWIG, amount)];
    assert list[..0] == [] && L.Total(list, TWIG) == amount;
    assert list[0] in list;
    assert L.Symbols(list) == {TWIG} by {
      assert TWIG in L.Symbols(list);
    }
    L.TwoHolders(l, CHUNKS_ACCOUNT, to, TWIG);
    TwigIsValid();
    assert L.TransferOk(l, CHUNKS_ACCOUNT, to, true, list) <==> 0 < amount <= L.Held(l, CHUNKS_ACCOUNT, TWIG);
    if L.TransferOk(l, CHUNKS_ACCOUNT, to, true, list) {
      L.TransferKeepsInv(l, CHUNKS_ACCOUNT, to, true, list);
      L.TransferMoves(l, CHUNKS_ACCOUNT, to, true, list, TWIG);
    }
  }

  /** A sound ledger in which the chunks account keeps at most three units. */
  ghost predicate Swept(l: L.Ledger) {
    L.Inv(l) && 0 <= L.Held(l, CHUNKS_ACCOUNT, TWIG) <= 3
  }

  ghost predicate SharesReceived(l: L.Ledger, l': L.Ledger, s: Shares) {
    && L.Held(l', BANK_ACCOUNT, TWIG) == L.Held(l, BANK_ACCOUNT, TWIG) + s.team + s.producer
    && L.Held(l', BOARD_ACCOUNT, TWIG) == L.Held(l, BOARD_ACCOUNT, TWIG) + s.board
    && L.Held(l', WORLD_ACCOUNT, TWIG) == L.Held(l, WORLD_ACCOUNT, TWIG) + s.world
  }

  /** What has been sent so far, and what is left. */
  ghost predicate Sending(l0: L.Ledger, r: Option<L.Ledger>, ok: bool, bank: nat, board: nat, world: nat) {
    && r.Some? == ok
    && (ok ==>
         var l := r.value;
         && L.Inv(l) && CHUNKS_ACCOUNT in l.accounts
         && L.Held(l, BANK_ACCOUNT, TWIG) == L.Held(l0, BANK_ACCOUNT, TWIG) + bank
         && L.Held(l, BOARD_ACCOUNT, TWIG) == L.Held(l0, BOARD_ACCOUNT, TWIG) + board
         && L.Held(l, WORLD_ACCOUNT, TWIG) == L.Held(l0, WORLD_ACCOUNT, TWIG) + world
         && L.Held(l, CHUNKS_ACCOUNT, TWIG) == L.Held(l0, CHUNKS_ACCOUNT, TWIG) - bank - board - world)
  }

  ghost function Then(r: Option<L.Ledger>, a: L.Action): Option<L.Ledger> {
    match r
    case None => None
    case Some(l) => L.Attempt(l, a)
  }

  lemma SendNext(l0: L.Ledger, r: Option<L.Ledger>, ok: bool, bank: nat, board: nat, world: nat, to: Name, amount: int64)
    requires Sending(l0, r, ok, bank, board, world) && to in {BANK_ACCOUNT, BOARD_ACCOUNT, WORLD_ACCOUNT}
    requires 0 <= amount <= L.Held(l0, CHUNKS_ACCOUNT, TWIG) - bank - board - world
    ensures Sending(l0, Then(r, Send(to, amount)), ok && 0 < amount,
                    if to == BANK_ACCOUNT then bank + amount else bank,
                    if to == BOARD_ACCOUNT then board + amount else board,
                    if to == WORLD_ACCOUNT then world + amount else world)
  {
    if ok { SendOne(r.value, to, amount); }
  }

  lemma CarryOutFour(l: L.Ledger, a: L.Action, b: L.Action, c: L.Action, d: L.Action)
    ensures CarryOut(l, [a, b, c, d]) == Then(Then(Then(L.Attempt(l, a), b), c), d)
  {
    assert [a, b, c, d] == [a] + ([b] + ([c] + ([d] + [])));
    CarryOutHead(l, a, [b] + ([c] + ([d] + [])));
    var r := L.Attempt(l, a);
    if r.Some? {
      CarryOutHead(r.value, b, [c] + ([d] + []));
      var r2 := L.Attempt(r.value, b);
      if r2.Some? {
        CarryOutHead(r2.value, c, [d] + []);
        var r3 := L.Attempt(r2.value, c);
        if r3.Some? { CarryOutHead(r3.value, d, []); }
      }
    }
  }

  /** The split of all that the chunks account holds goes through exactly from 400 units on. */
  lemma SplitGoesThroughIff(l: L.Ledger, total: nat)
    requires L.Inv(l) && CHUNKS_ACCOUNT in l.accounts
    requires total == L.Held(l, CHUNKS_ACCOUNT, TWIG) <= MAX_INT64
    ensures var r := CarryOut(l, SplitActions(total));
      && (r.Some? <==> 400 <= total)
      && (r.Some? ==> Swept(r.value) && SharesReceived(l, r.value, SplitOf(total)))
  {
    var s := SplitOf(total);
    SplitIsTight(total);
    CarryOutFour(l, Send(BANK_ACCOUNT, s.team), Send(BOARD_ACCOUNT, s.board), Send(BANK_ACCOUNT, s.producer),
                 Send(WORLD_ACCOUNT, s.world));
    var r, ok := Some(l), true;
    SendNext(l, r, ok, 0, 0, 0, BANK_ACCOUNT, s.team);
    r, ok := Then(r, Send(BANK_ACCOUNT, s.team)), 0 < s.team;
    SendNext(l, r, ok, s.team, 0, 0, BOARD_ACCOUNT, s.board);
    r, ok := Then(r, Send(BOARD_ACCOUNT, s.board)), ok && 0 < s.board;
    SendNext(l, r, ok, s.team, s.board, 0, BANK_ACCOUNT, s.producer);
    r, ok := Then(r, Send(BANK_ACCOUNT, s.producer)), ok && 0 < s.producer;
    SendNext(l, r, ok, s.team + s.producer, s.board, 0, WORLD_ACCOUNT, s.world);
  }

  lemma CarryOutHead(l: L.Ledger, a: L.Action, rest: seq<L.Action>)
    ensures CarryOut(l, [a] + rest) ==
      match L.Attempt(l, a)
      case None => None
      case Some(l') => CarryOut(l', rest)
  {
    assert ([a] + rest)[1..] == rest;
  }

  predicate IssueAccepted(l: L.Ledger, amount: int64) {
    && TWIG in l.supply && TWIG in l.maxSupply
    && 0 < amount && l.supply[TWIG] + amount < l.maxSupply[TWIG]
  }

  lemma IssueOne(l: L.Ledger, amount: int64)
    requires L.Inv(l) && 0 <= amount <= MAX_AMOUNT
    ensures var r := L.Attempt(l, IssueAction(amount));
      && (r.Some? <==> IssueAccepted(l, amount))
      && (r.Some? ==>
           && L.Inv(r.value) && CHUNKS_ACCOUNT in r.value.accounts
           && L.Held(r.value, CHUNKS_ACCOUNT, TWIG) == L.Held(l, CHUNKS_ACCOUNT, TWIG) + amount)
  {
    var tokens: L.Amounts := map[TWIG := amount];
    assert L.Issuable(l.supply, l.maxSupply, TWIG, amount) <==> IssueAccepted(l, amount);
    assert L.IssueOk(l, tokens) <==> IssueAccepted(l, amount) by {
      assert TWIG in tokens;
    }
    if L.IssueOk(l, tokens) {
      L.ValidAmountsNeverOverflow(l, tokens);
      L.IssueWithinRange(l, CHUNKS_ACCOUNT, tokens);
      L.IssueAt(l, CHUNKS_ACCOUNT, tokens, TWIG);
    }
  }

  ghost function SplitIn(r: Option<L.Ledger>, total: nat): Option<L.Ledger>
    requires total <= MAX_INT64
  {
    match r
    case None => None
    case Some(l) => CarryOut(l, SplitActions(total))
  }

  lemma SplitInIff(r: Option<L.Ledger>, total: nat)
    requires total <= MAX_INT64
    requires r.Some? ==>
      L.Inv(r.value) && CHUNKS_ACCOUNT in r.value.accounts && total == L.Held(r.value, CHUNKS_ACCOUNT, TWIG)
    ensures SplitIn(r, total).Some? <==> r.Some? && 400 <= total
    ensures SplitIn(r, total).Some? ==> Swept(SplitIn(r, total).value)
  {
    if r.Some? { SplitGoesThroughIff(r.value, total); }
  }

  /** The ledger from which a chunk's total is split: after its issue, if it has one. */
  ghost function AfterIssue(l: L.Ledger, issue: Option<int64>): Option<L.Ledger> {
    if issue.Some? then L.Attempt(l, IssueAction(issue.value)) else Some(l)
  }

  lemma ChunkIsIssueThenSplit(l: L.Ledger, issue: Option<int64>, total: nat)
    requires total <= MAX_INT64
    ensures CarryOut(l, ChunkActions(issue, total)) == SplitIn(AfterIssue(l, issue), total)
  {
    if issue.Some? {
      CarryOutHead(l, IssueAction(issue.value), SplitActions(total));
    } else {
      assert ChunkActions(issue, total) == SplitActions(total);
    }
  }

  lemma AfterIssueIff(l: L.Ledger, issue: Option<int64>)
    requires L.Inv(l) && CHUNKS_ACCOUNT in l.accounts && 0 <= IssueAmount(issue) <= MAX_AMOUNT
    ensures AfterIssue(l, issue).Some? <==> (issue.Some? ==> IssueAccepted(l, issue.value))
    ensures AfterIssue(l, issue).Some? ==>
      var l' := AfterIssue(l, issue).value;
      && L.Inv(l') && CHUNKS_ACCOUNT in l'.accounts
      && L.Held(l', CHUNKS_ACCOUNT, TWIG) == L.Held(l, CHUNKS_ACCOUNT, TWIG) + IssueAmount(issue)
  {
    if issue.Some? { IssueOne(l, issue.value); }
  }

  /** When a chunk of this issue and total completes, and what it leaves. */
  ghost predicate ChunkOutcome(l: L.Ledger, issue: Option<int64>, total: int) {
    && 0 <= total <= MAX_INT64
    && var r := CarryOut(l, ChunkActions(issue, total));
    && (r.Some? <==> (issue.Some? ==> IssueAccepted(l, issue.value)) && 400 <= total)
    && (r.Some? ==> Swept(r.value))
  }

  lemma ChunkWithIssueIff(l: L.Ledger, issue: Option<int64>, total: nat)
    requires L.Inv(l) && CHUNKS_ACCOUNT in l.accounts && 0 <= IssueAmount(issue) <= MAX_AMOUNT
    requires total == L.Held(l, CHUNKS_ACCOUNT, TWIG) + IssueAmount(issue) <= MAX_INT64
    ensures ChunkOutcome(l, issue, total)
  {
    ChunkIsIssueThenSplit(l, issue, total);
    AfterIssueIff(l, issue);
    SplitInIff(AfterIssue(l, issue), total);
  }

  /** A chunk completes exactly when its issue is accepted and at least 400 units are there to split; and then
      the chunks account keeps at most three units. */
  lemma ChunkCompletesIff(l: L.Ledger, epoch: nat, issue: Option<int64>, total: int)
    requires L.Inv(l) && CHUNKS_ACCOUNT in l.accounts && (StillIssues(epoch) ==> TWIG in l.maxSupply)
    requires issue == IssueOf(l, epoch) && total == L.Held(l, CHUNKS_ACCOUNT, TWIG) + IssueAmount(issue)
    ensures ChunkOutcome(l, issue, total)
  {
    ChunkTotalInRange(l, epoch);
    ChunkWithIssueIff(l, issue, total);
  }
}
