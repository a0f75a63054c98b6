/** Blocks, counters and contracts together: a block whose chunk is refused is undone as a whole, so the chunk stays to
    be found, and emission stops for good at the first chunk that the maximum supply does not admit. */
module Emission {
  import opened Common
  import L = LedgerSpec
  import B = BankSpec
  import S = Solvency
  import T = Tokenomics
  import R = Rewards

  // ---- One block ----

  /** The contracts in working order: a sound world in which the core token is listed and the chunks account is open. */
  ghost predicate Ready(w: S.World) {
    S.Inv(w) && TWIG in w.ledger.supply && CHUNKS_ACCOUNT in w.ledger.accounts
  }

  function Supply(w: S.World): int {
    L.Bal(w.ledger.supply, TWIG)
  }

  function MaxSupply(w: S.World): int {
    L.Bal(w.ledger.maxSupply, TWIG)
  }

  function IssueNow(w: S.World): Option<int64>
    requires TWIG in w.ledger.maxSupply && 0 <= w.ledger.maxSupply[TWIG] <= MAX_AMOUNT
  {
    T.IssueOf(w.ledger, w.bank.epoch)
  }

  /** What the chunks account will hold for a chunk to split. */
  ghost function TotalNow(w: S.World): (total: nat)
    requires Ready(w)
    ensures total <= MAX_INT64
  {
    T.ChunkTotalInRange(w.ledger, w.bank.epoch);
    L.Held(w.ledger, CHUNKS_ACCOUNT, TWIG) + T.IssueAmount(IssueNow(w))
  }

  /** The reward of the chunk that a block finds. */
  ghost function Chunk(w: S.World): Option<S.World>
    requires Ready(w)
  {
    R.Reward(w, IssueNow(w), TotalNow(w))
  }

  /** The bank's end of an epoch, with everything that it pays. */
  ghost function EpochEnd(w: S.World): Option<S.World> {
    R.Settle(w.(bank := B.AfterOnEpoch(w.bank, w.bank.epoch + 1), chunksRemaining := LUCKY_CHUNKS))
  }

  function Decremented(w: S.World): S.World
    requires 0 < w.chunksRemaining
  {
    w.(chunksRemaining := w.chunksRemaining - 1)
  }

  /** A block with a hit: the counters move and the inline action is carried out, both or neither. */
  ghost function Hit(w: S.World, producer: Name): Option<S.World>
    requires Ready(w) && producer != BANK_ACCOUNT
  {
    var w' := w.(producer := producer);
    if w.chunksRemaining > 0 then Chunk(Decremented(w')) else EpochEnd(w')
  }

  datatype Event =
    | Block(producer: Name, roll: nat)
    | Act(action: S.Action)

  /** What happens beside the blocks: actions of the two contracts that do not issue, retire or delist the core token,
      and do not close the chunks account. */
  ghost predicate Quiet(w: S.World, a: S.Action) {
    && S.Allowed(w, a) && !a.EpochEnds? && !a.Counters?
    && (a.Other? ==>
         match a.action
         case DoIssue(_, tokens) => TWIG !in tokens
         case DoRetire(_, tokens) => TWIG !in tokens
         case DoRmvSupply(tokens) => TWIG !in tokens
         case DoClose(owner) => owner != CHUNKS_ACCOUNT
         case _ => true)
  }

  ghost predicate Fine(w: S.World, e: Event) {
    match e
    case Block(producer, _) => producer != 0 && producer != BANK_ACCOUNT
    case Act(a) => Quiet(w, a)
  }

  predicate IsHit(e: Event) {
    e.Block? && e.roll < 16
  }

  /** A block that fails leaves every table as it was. */
  ghost function Step(w: S.World, e: Event): S.World
    requires Ready(w) && Fine(w, e)
  {
    match e
    case Block(producer, roll) =>
      if roll >= 16 then w else (match Hit(w, producer) case None => w case Some(w') => w')
    case Act(a) => S.Step(w, a)
  }

  // ---- What leaves the supply alone ----

  /** The parts of a world that transfers do not touch. */
  predicate SameSupply(w: S.World, w': S.World) {
    && w'.ledger.supply == w.ledger.supply && w'.ledger.maxSupply == w.ledger.maxSupply
    && w'.chunksRemaining == w.chunksRemaining && w'.bank.epoch == w.bank.epoch
  }

  lemma {:induction false} SettleSupply(w: S.World)
    requires R.Settle(w).Some?
    ensures SameSupply(w, R.Settle(w).value)
    decreases |w.bank.payouts| - w.done
  {
    if w.done < |w.bank.payouts| { SettleSupply(S.AfterPayOut(w, true).value); }
  }

  lemma ShareSupply(o: Option<S.World>, to: Name, amount: int64, memo: string)
    ensures var r := R.SendShare(o, to, amount, memo); r.Some? ==> o.Some? && SameSupply(o.value, r.value)
  {
    if R.SendShare(o, to, amount, memo).Some? {
      SettleSupply(S.AfterTransfer(o.value, CHUNKS_ACCOUNT, to, true, [Asset(TWIG, amount)], memo).value);
    }
  }

  lemma RewardSupply(w: S.World, issue: Option<int64>, total: nat)
    requires total <= MAX_INT64
    ensures var r, issued := R.Reward(w, issue, total), R.Issued(w, issue);
      r.Some? ==> issued.Some? && SameSupply(issued.value, r.value)
  {
    T.SplitIsTight(total);
    var s := T.SplitOf(total);
    var both := R.TeamAndBoard(w, issue, s);
    ShareSupply(R.SendShare(both, BANK_ACCOUNT, s.producer, "producer_share"), WORLD_ACCOUNT, s.world, "Refilling World...");
    ShareSupply(both, BANK_ACCOUNT, s.producer, "producer_share");
    ShareSupply(R.SendShare(R.Issued(w, issue), BANK_ACCOUNT, s.team, "team_share"), BOARD_ACCOUNT, s.board, "board_share");
    ShareSupply(R.Issued(w, issue), BANK_ACCOUNT, s.team, "team_share");
  }

  lemma IssuedSupply(w: S.World, issue: Option<int64>)
    requires Ready(w) && (issue.Some? ==> T.IssueAccepted(w.ledger, issue.value)) && R.Issued(w, issue).Some?
    ensures var w' := R.Issued(w, issue).value;
      && w'.ledger.maxSupply == w.ledger.maxSupply && TWIG in w'.ledger.supply
      && Supply(w') == Supply(w) + T.IssueAmount(issue)
      && w'.chunksRemaining == w.chunksRemaining && w'.bank == w.bank
  {
    if issue.Some? {
      var tokens: L.Amounts := map[TWIG := issue.value];
      assert 0 <= w.ledger.supply[TWIG] + issue.value <= MAX_INT64;
      assert L.Issue(w.ledger, CHUNKS_ACCOUNT, tokens) == L.Attempt(w.ledger, T.IssueAction(issue.value));
      L.AddedAt(w.ledger.supply, tokens, TWIG);
    }
  }

  // ---- One hit ----

  /** The amount that every issuing chunk asks for. */
  ghost predicate Rate(w: S.World, q: nat) {
    TWIG in w.ledger.maxSupply && 0 <= w.ledger.maxSupply[TWIG] && q == T.IssuePerChunk(w.ledger.maxSupply[TWIG])
  }

  /** What a completed reward adds to the supply, and what it leaves. */
  ghost predicate Rewarded(w: S.World, w': S.World, amount: int) {
    && Ready(w') && Supply(w') == Supply(w) + amount && w'.ledger.maxSupply == w.ledger.maxSupply
    && w'.chunksRemaining == w.chunksRemaining && w'.bank.epoch == w.bank.epoch
  }

  lemma ChunkStep(w: S.World)
    requires Ready(w) && w.producer != 0
    ensures var issue := IssueNow(w);
      && (Chunk(w).Some? <==> (issue.Some? ==> T.IssueAccepted(w.ledger, issue.value)) && 400 <= TotalNow(w))
      && (Chunk(w).Some? ==> Rewarded(w, Chunk(w).value, T.IssueAmount(issue)))
  {
    R.RewardCompletesIff(w, IssueNow(w), TotalNow(w));
    if Chunk(w).Some? {
      RewardSupply(w, IssueNow(w), TotalNow(w));
      IssuedSupply(w, IssueNow(w));
    }
  }

  /** A chunk of an issuing epoch is accepted if and only if its amount is positive and leaves the supply below the maximum
      and at least 400 units are there to split; then the supply grows by exactly that amount. */
  lemma ChunkAcceptedIff(w: S.World, q: nat)
    requires Ready(w) && w.producer != 0 && T.StillIssues(w.bank.epoch) && Rate(w, q)
    ensures Chunk(w).Some? <==>
      0 < q && Supply(w) + q < MaxSupply(w) && 400 <= L.Held(w.ledger, CHUNKS_ACCOUNT, TWIG) + q
    ensures Chunk(w).Some? ==> Rewarded(w, Chunk(w).value, q)
  {
    ChunkStep(w);
  }

  /** A chunk of a later epoch issues nothing. */
  lemma LateChunk(w: S.World)
    requires Ready(w) && w.producer != 0 && !T.StillIssues(w.bank.epoch)
    ensures Chunk(w).Some? <==> 400 <= L.Held(w.ledger, CHUNKS_ACCOUNT, TWIG)
    ensures Chunk(w).Some? ==> Rewarded(w, Chunk(w).value, 0)
  {
    ChunkStep(w);
  }

  /** An epoch always ends: the bank can pay all that falls due. */
  lemma EpochEndWorks(w: S.World)
    requires Ready(w)
    ensures EpochEnd(w).Some? && Ready(EpochEnd(w).value)
    ensures var w' := EpochEnd(w).value;
      && w'.ledger.supply == w.ledger.supply && w'.ledger.maxSupply == w.ledger.maxSupply
      && w'.chunksRemaining == LUCKY_CHUNKS && w'.bank.epoch == w.bank.epoch + 1
  {
    var rolled := w.(bank := B.AfterOnEpoch(w.bank, w.bank.epoch + 1), chunksRemaining := LUCKY_CHUNKS);
    S.EpochStep(w);
    assert rolled == S.Step(w, S.EpochEnds);
    R.SettleWorks(rolled);
    SettleSupply(rolled);
  }

  /** The next hit finds a chunk that issues tokens. */
  predicate Issuing(w: S.World) {
    0 < w.chunksRemaining && T.StillIssues(w.bank.epoch)
  }

  /** What an accepted hit does to supply and counters. */
  ghost predicate Moved(w: S.World, w': S.World, q: nat) {
    && Ready(w') && w'.ledger.maxSupply == w.ledger.maxSupply
    && (if w.chunksRemaining > 0
        then w'.chunksRemaining == w.chunksRemaining - 1 && w'.bank.epoch == w.bank.epoch
        else w'.chunksRemaining == LUCKY_CHUNKS && w'.bank.epoch == w.bank.epoch + 1)
    && Supply(w') == Supply(w) + if Issuing(w) then q else 0
  }

  lemma HitStep(w: S.World, producer: Name, q: nat)
    requires Ready(w) && producer != 0 && producer != BANK_ACCOUNT && Rate(w, q)
    ensures w.chunksRemaining == 0 ==> Hit(w, producer).Some?
    ensures Hit(w, producer).Some? ==> Moved(w, Hit(w, producer).value, q)
  {
    var w1 := w.(producer := producer);
    if w.chunksRemaining > 0 {
      if T.StillIssues(w.bank.epoch) { ChunkAcceptedIff(Decremented(w1), q); } else { LateChunk(Decremented(w1)); }
    } else {
      EpochEndWorks(w1);
    }
  }

  lemma IssuingHitAcceptedIff(w: S.World, producer: Name, q: nat)
    requires Ready(w) && producer != 0 && producer != BANK_ACCOUNT && Issuing(w) && Rate(w, q) && 400 <= q
    ensures Hit(w, producer).Some? <==> Supply(w) + q < MaxSupply(w)
  {
    ChunkAcceptedIff(Decremented(w.(producer := producer)), q);
    L.TwoHolders(w.ledger, CHUNKS_ACCOUNT, BANK_ACCOUNT, TWIG);
  }

  // ---- The environment ----

  /** What a quiet action leaves as it was. */
  ghost predicate Still(w: S.World, w': S.World) {
    && Ready(w') && Supply(w') == Supply(w) && MaxSupply(w') == MaxSupply(w)
    && w'.chunksRemaining == w.chunksRemaining && w'.bank.epoch == w.bank.epoch
  }

  lemma OtherIsQuiet(w: S.World, action: L.Action)
    requires Ready(w) && Quiet(w, S.Other(action)) && L.Attempt(w.ledger, action).Some?
    ensures var l := L.Attempt(w.ledger, action).value;
      && L.Bal(l.supply, TWIG) == Supply(w) && L.Bal(l.maxSupply, TWIG) == MaxSupply(w)
      && TWIG in l.supply && CHUNKS_ACCOUNT in l.accounts
  {
  }

  lemma TransferIsQuiet(w: S.World, a: S.Action)
    requires Ready(w) && a.Transfer? && S.Attempt(w, a).Some?
    ensures var w' := S.Step(w, a); SameSupply(w, w') && CHUNKS_ACCOUNT in w'.ledger.accounts
  {
  }

  lemma PayOutIsQuiet(w: S.World, a: S.Action)
    requires Ready(w) && a.PayOut? && S.Attempt(w, a).Some?
    ensures var w' := S.Step(w, a); SameSupply(w, w') && CHUNKS_ACCOUNT in w'.ledger.accounts
  {
  }

  lemma QuietStep(w: S.World, a: S.Action)
    requires Ready(w) && Quiet(w, a)
    ensures Still(w, S.Step(w, a))
  {
    S.StepKeepsInv(w, a);
    if S.Attempt(w, a).Some? {
      if a.Other? { OtherIsQuiet(w, a.action); }
      if a.Transfer? { TransferIsQuiet(w, a); }
      if a.PayOut? { PayOutIsQuiet(w, a); }
    }
  }

  // ---- Steps ----

  /** Whether an event is a hit that goes through. */
  ghost predicate Accepted(w: S.World, e: Event)
    requires Ready(w) && Fine(w, e)
  {
    IsHit(e) && Hit(w, e.producer).Some?
  }

  /** Every step keeps the contracts ready, and adds the amount of a chunk to the supply exactly when one issues tokens. */
  lemma StepSupply(w: S.World, e: Event, q: nat)
    requires Ready(w) && Fine(w, e) && Rate(w, q)
    ensures var w' := Step(w, e);
      && Ready(w') && MaxSupply(w') == MaxSupply(w) && Rate(w', q)
      && Supply(w') == Supply(w) + if Issuing(w) && Accepted(w, e) then q else 0
  {
    match e
    case Block(producer, roll) => HitStep(w, producer, q);
    case Act(a) => QuietStep(w, a);
  }

  /** A state at which emission is stuck: the next chunk issues, and its amount does not fit below the maximum. */
  ghost predicate Stuck(w: S.World, q: nat) {
    Rate(w, q) && Issuing(w) && MaxSupply(w) <= Supply(w) + q
  }

  lemma StuckStep(w: S.World, e: Event, q: nat)
    requires Ready(w) && Fine(w, e) && Stuck(w, q) && 400 <= q
    ensures Stuck(Step(w, e), q) && Still(w, Step(w, e))
    ensures !Accepted(w, e) && (IsHit(e) ==> Step(w, e) == w)
  {
    match e
    case Block(producer, roll) => IssuingHitAcceptedIff(w, producer, q);
    case Act(a) => QuietStep(w, a);
  }

  lemma RefusedIsStuck(w: S.World, e: Event, q: nat)
    requires Ready(w) && Fine(w, e) && IsHit(e) && Issuing(w) && Rate(w, q) && 400 <= q
    ensures Accepted(w, e) <==> Supply(w) + q < MaxSupply(w)
    ensures Accepted(w, e) <==> !Stuck(w, q)
  {
    IssuingHitAcceptedIff(w, e.producer, q);
  }

  const ALL_CHUNKS := T.EPOCHS_WITH_ISSUE * LUCKY_CHUNKS

  /** The issuing chunks found so far, told from the counters. */
  function Found(w: S.World): int {
    if T.StillIssues(w.bank.epoch) then w.bank.epoch * LUCKY_CHUNKS - w.chunksRemaining else ALL_CHUNKS
  }

  lemma StepFound(w: S.World, e: Event, q: nat)
    requires Ready(w) && Fine(w, e) && Rate(w, q) && w.chunksRemaining <= LUCKY_CHUNKS
    ensures Found(Step(w, e)) == Found(w) + if Issuing(w) && Accepted(w, e) then 1 else 0
    ensures Step(w, e).chunksRemaining <= LUCKY_CHUNKS
  {
    match e
    case Block(producer, roll) => HitStep(w, producer, q);
    case Act(a) => QuietStep(w, a);
  }

  // ---- Runs ----

  /** Blocks with any rolls and quiet actions in between, the states they lead to, and which of them were accepted hits. */
  datatype History = History(states: seq<S.World>, events: seq<Event>, taken: seq<bool>)

  ghost predicate Shaped(h: History) {
    |h.states| == |h.events| + 1 && |h.taken| == |h.events|
  }

  ghost predicate Follows(h: History, i: nat)
    requires Shaped(h) && i < |h.events|
  {
    && Ready(h.states[i]) && Fine(h.states[i], h.events[i])
    && h.taken[i] == Accepted(h.states[i], h.events[i])
    && h.states[i + 1] == Step(h.states[i], h.events[i])
  }

  ghost predicate Run(h: History, q: nat) {
    && Shaped(h) && Ready(h.states[0]) && Rate(h.states[0], q)
    && forall i: nat :: i < |h.events| ==> Follows(h, i)
  }

  /** How many chunks have issued tokens before a state of a run. */
  function Chunks(h: History, i: nat): nat
    requires i < |h.states| && i <= |h.taken|
  {
    if i == 0 then 0 else Chunks(h, i - 1) + if Issuing(h.states[i - 1]) && h.taken[i - 1] then 1 else 0
  }

  lemma RunStep(h: History, i: nat, q: nat)
    requires Run(h, q) && i < |h.events| && Rate(h.states[i], q)
    ensures Ready(h.states[i + 1]) && Rate(h.states[i + 1], q) && MaxSupply(h.states[i + 1]) == MaxSupply(h.states[i])
    ensures Supply(h.states[i + 1]) == Supply(h.states[i]) + if Issuing(h.states[i]) && h.taken[i] then q else 0
  {
    assert Follows(h, i);
    StepSupply(h.states[i], h.events[i], q);
  }

  lemma OneMore(k: nat, q: nat)
    ensures (k + 1) * q == k * q + q
  {
  }

  lemma AddChunk(start: int, k: nat, k': nat, q: nat, before: int, after: int, more: bool)
    requires before == start + k * q && after == (before + if more then q else 0) && k' == (k + if more then 1 else 0)
    ensures after == start + k' * q
  {
    OneMore(k, q);
  }

  lemma {:induction false} StaysReady(h: History, i: nat, q: nat)
    requires Run(h, q) && i < |h.states|
    ensures Ready(h.states[i]) && Rate(h.states[i], q) && MaxSupply(h.states[i]) == MaxSupply(h.states[0])
  {
    if i > 0 {
      StaysReady(h, i - 1, q);
      RunStep(h, i - 1, q);
    }
  }

  lemma RunSupply(h: History, i: nat, q: nat)
    requires Run(h, q) && i < |h.events|
    ensures Supply(h.states[i + 1]) == Supply(h.states[i]) + if Issuing(h.states[i]) && h.taken[i] then q else 0
  {
    StaysReady(h, i, q);
    RunStep(h, i, q);
  }

  /** The supply is that of the beginning plus one amount for every chunk accepted so far. */
  lemma {:induction false} SupplyFollowsChunks(h: History, i: nat, q: nat)
    requires Run(h, q) && i < |h.states|
    ensures Supply(h.states[i]) == Supply(h.states[0]) + Chunks(h, i) * q
  {
    if i > 0 {
      SupplyFollowsChunks(h, i - 1, q);
      RunSupply(h, i - 1, q);
      AddChunk(Supply(h.states[0]), Chunks(h, i - 1), Chunks(h, i), q, Supply(h.states[i - 1]), Supply(h.states[i]),
               Issuing(h.states[i - 1]) && h.taken[i - 1]);
    }
  }

  lemma TakenIff(h: History, i: nat, q: nat)
    requires Run(h, q) && i < |h.events| && IsHit(h.events[i]) && Issuing(h.states[i]) && Rate(h.states[i], q) && 400 <= q
    ensures h.taken[i] <==> Supply(h.states[i]) + q < MaxSupply(h.states[i])
    ensures h.taken[i] <==> !Stuck(h.states[i], q)
  {
    assert Follows(h, i);
    RefusedIsStuck(h.states[i], h.events[i], q);
  }

  /** The k-th issuing chunk is accepted if and only if the supply of the beginning and k amounts stay below the maximum. */
  lemma NextChunkAcceptedIff(h: History, i: nat, k: nat, q: nat)
    requires Run(h, q) && i < |h.events| && IsHit(h.events[i]) && Issuing(h.states[i]) && 400 <= q
    requires k == Chunks(h, i) + 1
    ensures h.taken[i] <==> Supply(h.states[0]) + k * q < MaxSupply(h.states[0])
  {
    SupplyFollowsChunks(h, i, q);
    StaysReady(h, i, q);
    TakenIff(h, i, q);
    AddChunk(Supply(h.states[0]), Chunks(h, i), k, q, Supply(h.states[i]), Supply(h.states[i]) + q, true);
  }

  lemma StuckNext(h: History, i: nat, q: nat)
    requires Run(h, q) && i < |h.events| && Stuck(h.states[i], q) && 400 <= q
    ensures !h.taken[i] && Stuck(h.states[i + 1], q) && Still(h.states[i], h.states[i + 1])
    ensures IsHit(h.events[i]) ==> h.states[i + 1] == h.states[i]
  {
    assert Follows(h, i);
    StuckStep(h.states[i], h.events[i], q);
  }

  lemma {:induction false} StuckStays(h: History, i: nat, j: nat, q: nat)
    requires Run(h, q) && i <= j < |h.states| && Stuck(h.states[i], q) && 400 <= q
    ensures Stuck(h.states[j], q) && Supply(h.states[j]) == Supply(h.states[i])
    ensures h.states[j].chunksRemaining == h.states[i].chunksRemaining && h.states[j].bank.epoch == h.states[i].bank.epoch
  {
    if i < j {
      StuckStays(h, i, j - 1, q);
      StuckNext(h, j - 1, q);
    }
  }

  /** Once a chunk is refused, every later hit is refused too and changes nothing: counters, epoch and supply never
      change again. */
  lemma RefusedForever(h: History, i: nat, j: nat, q: nat)
    requires Run(h, q) && i < |h.events| && IsHit(h.events[i]) && Issuing(h.states[i]) && i <= j < |h.states| && 400 <= q
    requires !h.taken[i]
    ensures Supply(h.states[j]) == Supply(h.states[i])
    ensures h.states[j].chunksRemaining == h.states[i].chunksRemaining && h.states[j].bank.epoch == h.states[i].bank.epoch
    ensures j < |h.events| ==> !h.taken[j] && (IsHit(h.events[j]) ==> h.states[j + 1] == h.states[j])
  {
    StaysReady(h, i, q);
    TakenIff(h, i, q);
    StuckStays(h, i, j, q);
    if j < |h.events| { StuckNext(h, j, q); }
  }

  // ---- Whether emission ever completes ----

  /** The beginning: the first epoch, with all its chunks to be found. */
  predicate AtStart(w: S.World) {
    w.bank.epoch == 1 && w.chunksRemaining == LUCKY_CHUNKS
  }

  lemma FoundNext(h: History, i: nat, q: nat)
    requires Run(h, q) && i < |h.events| && Rate(h.states[i], q) && h.states[i].chunksRemaining <= LUCKY_CHUNKS
    ensures Found(h.states[i + 1]) == Found(h.states[i]) + if Issuing(h.states[i]) && h.taken[i] then 1 else 0
    ensures h.states[i + 1].chunksRemaining <= LUCKY_CHUNKS
  {
    assert Follows(h, i);
    StepFound(h.states[i], h.events[i], q);
  }

  /** The counters tell how many chunks have issued tokens, refused ones left out. */
  lemma {:induction false} ChunksAreFound(h: History, i: nat, q: nat)
    requires Run(h, q) && i < |h.states| && AtStart(h.states[0])
    ensures Chunks(h, i) == Found(h.states[i]) && h.states[i].chunksRemaining <= LUCKY_CHUNKS
  {
    if i > 0 {
      ChunksAreFound(h, i - 1, q);
      StaysReady(h, i - 1, q);
      FoundNext(h, i - 1, q);
    }
  }

  /** What can be read at the beginning: the supply that is there already fits beside the amounts of all chunks. */
  predicate RoomForAll(w: S.World, q: nat) {
    Supply(w) + ALL_CHUNKS * q < MaxSupply(w)
  }

  /** That is so if and only if it is less than what is left of the maximum after division by the number of chunks. */
  lemma RoomForAllIff(w: S.World, q: nat)
    requires Rate(w, q)
    ensures RoomForAll(w, q) <==> Supply(w) < MaxSupply(w) % ALL_CHUNKS
  {
  }

  lemma FitsToo(supply: int, max: int, k: nat, q: nat)
    requires k <= ALL_CHUNKS && supply + ALL_CHUNKS * q < max
    ensures supply + k * q < max
  {
    assert k * q <= ALL_CHUNKS * q;
  }

  /** With room for all chunks none is ever refused. */
  lemma RoomMeansNoRefusal(h: History, i: nat, q: nat)
    requires Run(h, q) && AtStart(h.states[0]) && RoomForAll(h.states[0], q) && 400 <= q
    requires i < |h.events| && IsHit(h.events[i]) && Issuing(h.states[i])
    ensures h.taken[i]
  {
    ChunksAreFound(h, i, q);
    var k := Chunks(h, i) + 1;
    FitsToo(Supply(h.states[0]), MaxSupply(h.states[0]), k, q);
    NextChunkAcceptedIff(h, i, k, q);
  }

  /** Without it no run ever gets past the issuing epochs. */
  lemma NoRoomMeansNoEnd(h: History, i: nat, q: nat)
    requires Run(h, q) && AtStart(h.states[0]) && !RoomForAll(h.states[0], q) && i < |h.states|
    ensures T.StillIssues(h.states[i].bank.epoch)
  {
    ChunksAreFound(h, i, q);
    SupplyFollowsChunks(h, i, q);
    StaysReady(h, i, q);
  }

  // ---- A beginning without room ----

  const LISTED: L.Amounts := map[TWIG := ALL_CHUNKS * 400]

  function Listed(): L.Ledger {
    L.Ledger(map[], map[TWIG := 0], map[TWIG := ALL_CHUNKS * 400])
  }

  function Opened(): L.Ledger {
    L.Ledger(map[CHUNKS_ACCOUNT := map[]], map[TWIG := 0], map[TWIG := ALL_CHUNKS * 400])
  }

  lemma ListAndOpen()
    ensures L.Attempt(L.GENESIS, L.DoSetSupplies(LISTED)) == Some(Listed())
    ensures L.Attempt(Listed(), L.DoOpen(CHUNKS_ACCOUNT)) == Some(Opened())
  {
    TwigIsValid();
    assert LISTED.Keys == {TWIG};
    assert L.Zeros({TWIG}) + L.GENESIS.supply == map[TWIG := 0];
    assert LISTED + L.GENESIS.maxSupply == map[TWIG := ALL_CHUNKS * 400];
  }

  lemma ListStep()
    ensures S.Step(S.START, S.Other(L.DoSetSupplies(LISTED))) == S.START.(ledger := Listed())
    ensures S.Allowed(S.START, S.Other(L.DoSetSupplies(LISTED)))
  {
    ListAndOpen();
  }

  lemma OpenedFacts(w: S.World)
    requires w == S.START.(ledger := Opened()) && S.Inv(w)
    ensures Ready(w) && AtStart(w) && Supply(w) == 0 && Rate(w, 400) && !RoomForAll(w, 400)
  {
  }

  /** A maximum supply that all chunks would use up exactly leaves no room, although nothing has been issued yet: two
      actions reach such a beginning. */
  lemma EvenNoSupplyLeavesNoRoom() returns (states: seq<S.World>, actions: seq<S.Action>)
    ensures S.Run(states, actions) && |actions| == 2
    ensures var w := states[2];
      Ready(w) && AtStart(w) && Supply(w) == 0 && Rate(w, 400) && !RoomForAll(w, 400)
  {
    ListStep();
    states := [S.START, S.START.(ledger := Listed()), S.START.(ledger := Opened())];
    actions := [S.Other(L.DoSetSupplies(LISTED)), S.Other(L.DoOpen(CHUNKS_ACCOUNT))];
    S.BankStaysSolvent(states, actions, 2);
    OpenedFacts(states[2]);
  }
}
