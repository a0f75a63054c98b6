/** The multisig contract on values: proposals that collect approvals, wait out a delay and are executed,
    under an abstract authorization check of the host. */
module MsigSpec {
  import opened Common

  /** Microseconds since the epoch. */
  type Time = nat

  const SECOND := 1_000_000

  datatype Level = Level(actor: Name, permission: Name)

  /** A proposed transaction: its header fields that the contract reads, and everything else as one value. */
  datatype Trx = Trx(body: nat, expiration: nat, delaySec: nat, contextFree: bool)

  /** The host's check whether a set of permission levels authorizes a transaction. */
  type Authorizer = (Trx, set<Level>) -> bool

  datatype Key = Key(proposer: Name, proposal: Name)

  /** The earliest execution time: an old row has no such field, a new one has it empty or set. */
  datatype Earliest = Absent | Unset | At(time: Time)

  datatype Proposal = Proposal(trx: Trx, earliest: Earliest)

  datatype Approval = Approval(level: Level, time: Time)

  datatype Approvals = Approvals(requested: seq<Approval>, provided: seq<Approval>)

  datatype Msig = Msig(
    proposals: map<Key, Proposal>,
    approvals: map<Key, Approvals>,
    invalids: map<Name, Time>)

  const NO_PROPOSALS := Msig(map[], map[], map[])

  // ---- The helpers ----

  /** An approval counts unless its actor invalidated its approvals at that time or later. */
  predicate Counts(a: Approval, invalids: map<Name, Time>) {
    a.level.actor !in invalids || invalids[a.level.actor] < a.time
  }

  function ValidLevels(provided: seq<Approval>, invalids: map<Name, Time>): set<Level> {
    set a | a in provided && Counts(a, invalids) :: a.level
  }

  function Levels(list: seq<Approval>): seq<Level> {
    seq(|list|, i requires 0 <= i < |list| => list[i].level)
  }

  /** Where a level stands first in a list, or the length of the list. */
  function Find(list: seq<Approval>, level: Level): (at: nat)
    ensures at <= |list|
    ensures at < |list| ==> list[at].level == level
    ensures forall i :: 0 <= i < at ==> list[i].level != level
  {
    if list == [] || list[0].level == level then 0 else 1 + Find(list[1..], level)
  }

  function Without(list: seq<Approval>, at: nat): seq<Approval>
    requires at < |list|
  {
    list[..at] + list[at + 1..]
  }

  /** Whether the host authorizes the proposal with the approvals that count now. */
  ghost predicate Authorized(s: Msig, key: Key, auth: Authorizer) {
    && key in s.proposals && key in s.approvals
    && auth(s.proposals[key].trx, ValidLevels(s.approvals[key].provided, s.invalids))
  }

  // ---- The actions ----

  ghost function Propose(s: Msig, key: Key, requested: seq<Level>, trx: Trx, auth: Authorizer, now: Time): Option<Msig> {
    if trx.expiration < now / SECOND || trx.contextFree || key in s.proposals
       || !auth(trx, set l | l in requested) || key in s.approvals then None
    else Some(s.(
      proposals := s.proposals[key := Proposal(trx, Unset)],
      approvals := s.approvals[key := Approvals(seq(|requested|, i requires 0 <= i < |requested| => Approval(requested[i], 0)), [])]))
  }

  function Move(rows: Approvals, level: Level, now: Time): Approvals
    requires Find(rows.requested, level) < |rows.requested|
  {
    Approvals(Without(rows.requested, Find(rows.requested, level)), rows.provided + [Approval(level, now)])
  }

  function MoveBack(rows: Approvals, level: Level, now: Time): Approvals
    requires Find(rows.provided, level) < |rows.provided|
  {
    Approvals(rows.requested + [Approval(level, now)], Without(rows.provided, Find(rows.provided, level)))
  }

  predicate OldAndDelayed(p: Proposal) {
    p.earliest.Absent? && p.trx.delaySec != 0
  }

  ghost function Approve(s: Msig, key: Key, level: Level, hashOk: bool, auth: Authorizer, now: Time): Option<Msig> {
    if key !in s.proposals || !hashOk || key !in s.approvals
       || Find(s.approvals[key].requested, level) == |s.approvals[key].requested|
       || OldAndDelayed(s.proposals[key]) then None
    else
      var rows := Move(s.approvals[key], level, now);
      var p := s.proposals[key];
      var p' := if p.earliest.Unset? && auth(p.trx, ValidLevels(rows.provided, s.invalids))
                then p.(earliest := At(now + p.trx.delaySec * SECOND)) else p;
      Some(s.(proposals := s.proposals[key := p'], approvals := s.approvals[key := rows]))
  }

  ghost function Unapprove(s: Msig, key: Key, level: Level, auth: Authorizer, now: Time): Option<Msig> {
    if key !in s.approvals
       || Find(s.approvals[key].provided, level) == |s.approvals[key].provided|
       || key !in s.proposals || OldAndDelayed(s.proposals[key]) then None
    else
      var rows := MoveBack(s.approvals[key], level, now);
      var p := s.proposals[key];
      var p' := if p.earliest.At? && !auth(p.trx, ValidLevels(rows.provided, s.invalids))
                then p.(earliest := Unset) else p;
      Some(s.(proposals := s.proposals[key := p'], approvals := s.approvals[key := rows]))
  }

  ghost function Cancel(s: Msig, key: Key, canceler: Name, now: Time): Option<Msig> {
    if key !in s.proposals || (canceler != key.proposer && s.proposals[key].trx.expiration >= now / SECOND)
       || key !in s.approvals then None
    else Some(s.(proposals := s.proposals - {key}, approvals := s.approvals - {key}))
  }

  ghost predicate ExecOk(s: Msig, key: Key, auth: Authorizer, now: Time) {
    && key in s.proposals
    && var p := s.proposals[key];
    && p.trx.expiration >= now / SECOND && !p.trx.contextFree
    && auth(p.trx, if key in s.approvals then ValidLevels(s.approvals[key].provided, s.invalids) else {})
    && (if p.earliest.At? then p.earliest.time <= now else p.trx.delaySec == 0)
  }

  ghost function Exec(s: Msig, key: Key, auth: Authorizer, now: Time): Option<Msig> {
    if ExecOk(s, key, auth, now) then Some(s.(proposals := s.proposals - {key}, approvals := s.approvals - {key}))
    else None
  }

  ghost function Invalidate(s: Msig, account: Name, now: Time): Msig {
    s.(invalids := s.invalids[account := now])
  }

  // ---- What each action accepts and leaves ----

  /** A transaction has not expired up to the end of its last second. */
  predicate Alive(trx: Trx, now: Time) {
    now < (trx.expiration + 1) * 1000000
  }

  lemma ExpiryInSeconds(trx: Trx, now: Time)
    ensures trx.expiration >= now / SECOND <==> Alive(trx, now)
  {
  }

  /** A level counts exactly when some approval of it was provided later than the last invalidation of its actor. */
  lemma LevelCountsIff(provided: seq<Approval>, invalids: map<Name, Time>, level: Level)
    ensures level in ValidLevels(provided, invalids) <==>
      exists a :: a in provided && a.level == level && (level.actor in invalids ==> invalids[level.actor] < a.time)
  {
    if level in ValidLevels(provided, invalids) {
      var a :| a in provided && Counts(a, invalids) && a.level == level;
    }
  }

  /** Every proposal but one, and every invalidation, is as it was. */
  ghost predicate OthersKept(s: Msig, s': Msig, key: Key) {
    && s'.invalids == s.invalids
    && (forall k :: k != key ==> (k in s'.proposals <==> k in s.proposals) && (k in s'.approvals <==> k in s.approvals))
    && (forall k :: k != key && k in s.proposals ==> s'.proposals[k] == s.proposals[k])
    && (forall k :: k != key && k in s.approvals ==> s'.approvals[k] == s.approvals[k])
  }

  /** A proposal is accepted exactly when it is new, alive, without context-free actions, and authorized by the levels
      it requests; it is stored with these levels as requested, none of them provided, and no execution time. */
  lemma ProposeIsExact(s: Msig, key: Key, requested: seq<Level>, trx: Trx, auth: Authorizer, now: Time)
    ensures Propose(s, key, requested, trx, auth, now).Some? <==>
      && key !in s.proposals && key !in s.approvals && Alive(trx, now) && !trx.contextFree
      && auth(trx, set l | l in requested)
    ensures Propose(s, key, requested, trx, auth, now).Some? ==>
      var s' := Propose(s, key, requested, trx, auth, now).value;
      && OthersKept(s, s', key)
      && key in s'.proposals && s'.proposals[key].trx == trx && s'.proposals[key].earliest == Unset
      && key in s'.approvals && Levels(s'.approvals[key].requested) == requested && s'.approvals[key].provided == []
  {
    ExpiryInSeconds(trx, now);
    if Propose(s, key, requested, trx, auth, now).Some? {
      assert Levels(Propose(s, key, requested, trx, auth, now).value.approvals[key].requested) == requested;
    }
  }

  lemma FoundIff(list: seq<Approval>, level: Level)
    ensures Find(list, level) < |list| <==> exists a :: a in list && a.level == level
  {
    if Find(list, level) < |list| { assert list[Find(list, level)] in list; }
  }

  /** An approval is accepted exactly for a level that is still requested, with the right hash, and not on an old
      proposal with a delay. The level is provided from now on; and if the execution time was not set and the levels that
      count now authorize the transaction, it is set to the delay from now. */
  lemma ApproveIsExact(s: Msig, key: Key, level: Level, hashOk: bool, auth: Authorizer, now: Time)
    ensures Approve(s, key, level, hashOk, auth, now).Some? <==>
      && key in s.proposals && key in s.approvals && hashOk
      && (exists a :: a in s.approvals[key].requested && a.level == level)
      && (s.proposals[key].earliest == Absent ==> s.proposals[key].trx.delaySec == 0)
    ensures Approve(s, key, level, hashOk, auth, now).Some? ==>
      var s' := Approve(s, key, level, hashOk, auth, now).value;
      && OthersKept(s, s', key) && key in s'.proposals && key in s'.approvals
      && s'.approvals[key].provided == s.approvals[key].provided + [Approval(level, now)]
      && multiset(Levels(s.approvals[key].requested)) == multiset(Levels(s'.approvals[key].requested)) + multiset{level}
      && s'.proposals[key].trx == s.proposals[key].trx
      && s'.proposals[key].earliest ==
           if s.proposals[key].earliest == Unset && Authorized(s', key, auth)
           then At(now + s.proposals[key].trx.delaySec * 1000000) else s.proposals[key].earliest
  {
    if key in s.approvals {
      FoundIff(s.approvals[key].requested, level);
      if Find(s.approvals[key].requested, level) < |s.approvals[key].requested| {
        LevelsWithout(s.approvals[key].requested, Find(s.approvals[key].requested, level));
      }
    }
  }

  /** A withdrawal is accepted exactly for a level that is provided, and not on an old proposal with a delay. */
  lemma UnapproveAcceptedIff(s: Msig, key: Key, level: Level, auth: Authorizer, now: Time)
    ensures Unapprove(s, key, level, auth, now).Some? <==>
      && key in s.proposals && key in s.approvals
      && (exists a :: a in s.approvals[key].provided && a.level == level)
      && (s.proposals[key].earliest == Absent ==> s.proposals[key].trx.delaySec == 0)
  {
    if key in s.approvals { FoundIff(s.approvals[key].provided, level); }
  }

  /** A withdrawn level is requested again; and if the levels that count now do not authorize the transaction, a set time
      is taken back. */
  lemma UnapproveIsExact(s: Msig, key: Key, level: Level, auth: Authorizer, now: Time)
    requires Unapprove(s, key, level, auth, now).Some?
    ensures var s' := Unapprove(s, key, level, auth, now).value;
      && OthersKept(s, s', key) && key in s'.proposals && key in s'.approvals
      && s'.approvals[key].requested == s.approvals[key].requested + [Approval(level, now)]
      && multiset(Levels(s.approvals[key].provided)) == multiset(Levels(s'.approvals[key].provided)) + multiset{level}
      && s'.proposals[key].trx == s.proposals[key].trx
      && s'.proposals[key].earliest ==
           if s.proposals[key].earliest.At? && !Authorized(s', key, auth) then Unset else s.proposals[key].earliest
  {
    LevelsWithout(s.approvals[key].provided, Find(s.approvals[key].provided, level));
  }

  /** The proposer may cancel at any time, anybody else only once the transaction has expired. */
  lemma CancelIsExact(s: Msig, key: Key, canceler: Name, now: Time)
    ensures Cancel(s, key, canceler, now).Some? <==>
      && key in s.proposals && key in s.approvals
      && (canceler == key.proposer || !Alive(s.proposals[key].trx, now))
    ensures Cancel(s, key, canceler, now).Some? ==>
      var s' := Cancel(s, key, canceler, now).value;
      OthersKept(s, s', key) && key !in s'.proposals && key !in s'.approvals
  {
    if key in s.proposals { ExpiryInSeconds(s.proposals[key].trx, now); }
  }

  /** An execution is accepted exactly when the levels that count authorize a transaction that is alive and without
      context-free actions, and its execution time has come or, with none set, it has no delay. */
  lemma ExecIsExact(s: Msig, key: Key, auth: Authorizer, now: Time)
    requires key in s.proposals ==> key in s.approvals
    ensures Exec(s, key, auth, now).Some? <==>
      && Authorized(s, key, auth)
      && Alive(s.proposals[key].trx, now) && !s.proposals[key].trx.contextFree
      && match s.proposals[key].earliest
         case At(time) => time <= now
         case _ => s.proposals[key].trx.delaySec == 0
    ensures Exec(s, key, auth, now).Some? ==>
      var s' := Exec(s, key, auth, now).value;
      OthersKept(s, s', key) && key !in s'.proposals && key !in s'.approvals
  {
    if key in s.proposals { ExpiryInSeconds(s.proposals[key].trx, now); }
  }

  /** Without a row of approvals nobody has approved: such a proposal is executed only if no levels authorize it. */
  lemma ExecWithoutApprovals(s: Msig, key: Key, auth: Authorizer, now: Time)
    requires key !in s.approvals && Exec(s, key, auth, now).Some?
    ensures auth(s.proposals[key].trx, {})
  {
  }

  lemma InvalidateIsExact(s: Msig, account: Name, now: Time)
    ensures var s' := Invalidate(s, account, now);
      && s'.proposals == s.proposals && s'.approvals == s.approvals
      && account in s'.invalids && s'.invalids[account] == now
      && (forall n :: n != account ==> (n in s'.invalids <==> n in s.invalids))
      && (forall n :: n != account && n in s.invalids ==> s'.invalids[n] == s.invalids[n])
  {
  }

  // ---- The invariant ----

  /** What is assumed of the host's check: more levels authorize no less, and no levels authorize nothing. */
  ghost predicate Sane(auth: Authorizer) {
    && (forall t, a, b :: a <= b && auth(t, a) ==> auth(t, b))
    && (forall t :: !auth(t, {}))
  }

  ghost predicate PastTimes(s: Msig, now: Time) {
    && (forall key, a :: key in s.approvals && a in s.approvals[key].provided ==> a.time <= now)
    && (forall n :: n in s.invalids ==> s.invalids[n] <= now)
  }

  /** Whenever the approvals that count authorize a proposal, its waiting time is running. */
  ghost predicate WaitingIsSet(s: Msig, auth: Authorizer) {
    forall key :: Authorized(s, key, auth) ==> s.proposals[key].earliest.At?
  }

  ghost predicate Inv(s: Msig, auth: Authorizer, now: Time) {
    && s.proposals.Keys == s.approvals.Keys
    && (forall key :: key in s.proposals ==> !s.proposals[key].earliest.Absent?)
    && PastTimes(s, now)
    && WaitingIsSet(s, auth)
  }

  lemma ProposeKeepsInv(s: Msig, key: Key, requested: seq<Level>, trx: Trx, auth: Authorizer, before: Time, now: Time)
    requires Sane(auth) && Inv(s, auth, before) && before <= now && Propose(s, key, requested, trx, auth, now).Some?
    ensures Inv(Propose(s, key, requested, trx, auth, now).value, auth, now)
  {
    var s' := Propose(s, key, requested, trx, auth, now).value;
    assert ValidLevels([], s.invalids) == {};
    forall k | Authorized(s', k, auth) ensures s'.proposals[k].earliest.At? {
      assert k != key;
      assert Authorized(s, k, auth);
    }
  }

  lemma ApproveKeepsInv(s: Msig, key: Key, level: Level, auth: Authorizer, before: Time, now: Time)
    requires Inv(s, auth, before) && before <= now && Approve(s, key, level, true, auth, now).Some?
    ensures Inv(Approve(s, key, level, true, auth, now).value, auth, now)
  {
    var s' := Approve(s, key, level, true, auth, now).value;
    forall k | Authorized(s', k, auth) ensures s'.proposals[k].earliest.At? {
      if k != key { assert Authorized(s, k, auth); }
    }
  }

  lemma UnapproveKeepsInv(s: Msig, key: Key, level: Level, auth: Authorizer, before: Time, now: Time)
    requires Sane(auth) && Inv(s, auth, before) && before <= now && Unapprove(s, key, level, auth, now).Some?
    ensures Inv(Unapprove(s, key, level, auth, now).value, auth, now)
  {
    var s' := Unapprove(s, key, level, auth, now).value;
    forall k | Authorized(s', k, auth) ensures s'.proposals[k].earliest.At? {
      if k == key {
        assert ValidLevels(s'.approvals[k].provided, s.invalids) <= ValidLevels(s.approvals[k].provided, s.invalids);
      }
      assert Authorized(s, k, auth);
    }
  }

  lemma RemoveKeepsInv(s: Msig, key: Key, auth: Authorizer, before: Time, now: Time)
    requires Inv(s, auth, before) && before <= now
    ensures Inv(s.(proposals := s.proposals - {key}, approvals := s.approvals - {key}), auth, now)
  {
    var s' := s.(proposals := s.proposals - {key}, approvals := s.approvals - {key});
    forall k | Authorized(s', k, auth) ensures s'.proposals[k].earliest.At? {
      assert Authorized(s, k, auth);
    }
  }

  /** Invalidation can only take levels away: every approval so far is not later than now. */
  lemma InvalidateKeepsInv(s: Msig, account: Name, auth: Authorizer, before: Time, now: Time)
    requires Sane(auth) && Inv(s, auth, before) && before <= now
    ensures Inv(Invalidate(s, account, now), auth, now)
    ensures forall key, l ::
      key in s.approvals && l in ValidLevels(s.approvals[key].provided, s.invalids[account := now]) ==> l.actor != account
  {
    var s' := Invalidate(s, account, now);
    forall k | Authorized(s', k, auth) ensures s'.proposals[k].earliest.At? {
      assert ValidLevels(s.approvals[k].provided, s'.invalids) <= ValidLevels(s.approvals[k].provided, s.invalids);
      assert Authorized(s, k, auth);
    }
  }

  /** Approving and withdrawing only move a level between the two lists: together they always hold the levels
      that were requested, each as often as it was. */
  lemma LevelsAreConserved(rows: Approvals, level: Level, now: Time)
    ensures Find(rows.requested, level) < |rows.requested| ==>
      multiset(Levels(Move(rows, level, now).requested)) + multiset(Levels(Move(rows, level, now).provided))
        == multiset(Levels(rows.requested)) + multiset(Levels(rows.provided))
    ensures Find(rows.provided, level) < |rows.provided| ==>
      multiset(Levels(MoveBack(rows, level, now).requested)) + multiset(Levels(MoveBack(rows, level, now).provided))
        == multiset(Levels(rows.requested)) + multiset(Levels(rows.provided))
  {
    var i, j := Find(rows.requested, level), Find(rows.provided, level);
    if i < |rows.requested| {
      LevelsWithout(rows.requested, i);
      LevelsAppend(rows.provided, Approval(level, now));
    }
    if j < |rows.provided| {
      LevelsWithout(rows.provided, j);
      LevelsAppend(rows.requested, Approval(level, now));
    }
  }

  lemma LevelsWithout(list: seq<Approval>, at: nat)
    requires at < |list|
    ensures multiset(Levels(Without(list, at))) + multiset{list[at].level} == multiset(Levels(list))
  {
    var ls := Levels(list);
    assert ls == ls[..at] + [ls[at]] + ls[at + 1..];
    assert Levels(Without(list, at)) == ls[..at] + ls[at + 1..];
  }

  lemma LevelsAppend(list: seq<Approval>, a: Approval)
    ensures multiset(Levels(list + [a])) == multiset(Levels(list)) + multiset{a.level}
  {
    assert Levels(list + [a]) == Levels(list) + [a.level];
  }

  // ---- Runs ----

  datatype Action =
    | DoPropose(key: Key, requested: seq<Level>, trx: Trx)
    | DoApprove(key: Key, level: Level, hashOk: bool)
    | DoUnapprove(key: Key, level: Level)
    | DoCancel(key: Key, canceler: Name)
    | DoExec(key: Key)
    | DoInvalidate(account: Name)

  ghost function Attempt(s: Msig, a: Action, auth: Authorizer, now: Time): Option<Msig> {
    match a
    case DoPropose(key, requested, trx) => Propose(s, key, requested, trx, auth, now)
    case DoApprove(key, level, hashOk) => Approve(s, key, level, hashOk, auth, now)
    case DoUnapprove(key, level) => Unapprove(s, key, level, auth, now)
    case DoCancel(key, canceler) => Cancel(s, key, canceler, now)
    case DoExec(key) => Exec(s, key, auth, now)
    case DoInvalidate(account) => Some(Invalidate(s, account, now))
  }

  ghost function Step(s: Msig, a: Action, auth: Authorizer, now: Time): Msig {
    match Attempt(s, a, auth, now)
    case Some(s') => s'
    case None => s
  }

  datatype History = History(states: seq<Msig>, actions: seq<Action>, times: seq<Time>)

  ghost predicate Run(h: History, auth: Authorizer) {
    && |h.states| == |h.actions| + 1 && |h.times| == |h.actions|
    && h.states[0] == NO_PROPOSALS
    && (forall i, j :: 0 <= i < j < |h.times| ==> h.times[i] <= h.times[j])
    && (forall i :: 0 <= i < |h.actions| ==> h.states[i + 1] == Step(h.states[i], h.actions[i], auth, h.times[i]))
  }

  lemma StepKeepsInv(s: Msig, a: Action, auth: Authorizer, before: Time, now: Time)
    requires Sane(auth) && Inv(s, auth, before) && before <= now
    ensures Inv(Step(s, a, auth, now), auth, now)
  {
    if Attempt(s, a, auth, now).Some? {
      match a
      case DoPropose(key, requested, trx) => ProposeKeepsInv(s, key, requested, trx, auth, before, now);
      case DoApprove(key, level, hashOk) => ApproveKeepsInv(s, key, level, auth, before, now);
      case DoUnapprove(key, level) => UnapproveKeepsInv(s, key, level, auth, before, now);
      case DoCancel(key, canceler) => RemoveKeepsInv(s, key, auth, before, now);
      case DoExec(key) => RemoveKeepsInv(s, key, auth, before, now);
      case DoInvalidate(account) => InvalidateKeepsInv(s, account, auth, before, now);
    }
  }

  /** The time of the last action before a state. */
  function Clock(h: History, i: nat): Time
    requires i <= |h.times|
  {
    if i == 0 then 0 else h.times[i - 1]
  }

  lemma RunStep(h: History, auth: Authorizer, i: nat)
    requires Run(h, auth) && i < |h.actions|
    ensures Clock(h, i) <= h.times[i]
    ensures h.states[i + 1] == Step(h.states[i], h.actions[i], auth, h.times[i])
  {
  }

  /** Through every mix of actions, whenever the approvals that still count authorize a proposal,
      its earliest execution time is set. */
  lemma {:induction false} RunKeepsInv(h: History, auth: Authorizer, i: nat)
    requires Sane(auth) && Run(h, auth) && i < |h.states|
    ensures Inv(h.states[i], auth, Clock(h, i))
  {
    if i > 0 {
      RunKeepsInv(h, auth, i - 1);
      RunStep(h, auth, i - 1);
      StepKeepsInv(h.states[i - 1], h.actions[i - 1], auth, Clock(h, i - 1), h.times[i - 1]);
    }
  }

  /** The step that started the waiting time of a proposal. */
  ghost predicate Started(h: History, auth: Authorizer, j: nat, i: nat, key: Key, time: Time)
    requires Run(h, auth) && i < |h.states| && key in h.states[i].proposals
  {
    var trx := h.states[i].proposals[key].trx;
    && j < i
    && h.actions[j].DoApprove? && h.actions[j].key == key
    && time == h.times[j] + trx.delaySec * SECOND
    && (forall m :: j < m <= i ==> key in h.states[m].proposals && h.states[m].proposals[key] == Proposal(trx, At(time)))
    && Authorized(h.states[j + 1], key, auth)
  }

  /** How a waiting time can be there after a step: it was there already, or this step approved and set it. */
  lemma WaitingComesFrom(s: Msig, a: Action, auth: Authorizer, now: Time, key: Key)
    requires var s' := Step(s, a, auth, now); key in s'.proposals && s'.proposals[key].earliest.At?
    ensures var s' := Step(s, a, auth, now);
      || (key in s.proposals && s.proposals[key] == s'.proposals[key])
      || (&& a.DoApprove? && a.key == key
          && s'.proposals[key].earliest.time == now + s'.proposals[key].trx.delaySec * SECOND
          && Authorized(s', key, auth))
  {
  }

  /** A waiting time that a step sets is started by it. */
  lemma StartedNow(h: History, auth: Authorizer, i: nat, key: Key)
    requires Run(h, auth) && 0 < i < |h.states| && key in h.states[i].proposals
    requires var p := h.states[i].proposals[key];
      && h.actions[i - 1].DoApprove? && h.actions[i - 1].key == key && p.earliest.At?
      && p.earliest.time == h.times[i - 1] + p.trx.delaySec * SECOND && Authorized(h.states[i], key, auth)
    ensures Started(h, auth, i - 1, i, key, h.states[i].proposals[key].earliest.time)
  {
  }

  lemma {:induction false} WaitingWasStarted(h: History, auth: Authorizer, i: nat, key: Key) returns (j: nat)
    requires Run(h, auth) && i < |h.states|
    requires key in h.states[i].proposals && h.states[i].proposals[key].earliest.At?
    ensures Started(h, auth, j, i, key, h.states[i].proposals[key].earliest.time)
  {
    assert i > 0;
    var s, s' := h.states[i - 1], h.states[i];
    RunStep(h, auth, i - 1);
    WaitingComesFrom(s, h.actions[i - 1], auth, h.times[i - 1], key);
    if key in s.proposals && s.proposals[key] == s'.proposals[key] {
      j := WaitingWasStarted(h, auth, i - 1, key);
    } else {
      j := i - 1;
      StartedNow(h, auth, i, key);
    }
  }

  /** A delayed transaction that is executed was authorized in the same life of its proposal at least its delay
      before: some approval found the counting approvals authorizing, and the waiting time ran ever since. */
  lemma DelayIsWaitedOut(h: History, auth: Authorizer, i: nat, key: Key) returns (j: nat)
    requires Run(h, auth) && i < |h.actions| && h.actions[i] == DoExec(key)
    requires Attempt(h.states[i], h.actions[i], auth, h.times[i]).Some?
    requires h.states[i].proposals[key].trx.delaySec > 0
    ensures j < i && h.actions[j].DoApprove? && h.actions[j].key == key
    ensures h.times[j] + h.states[i].proposals[key].trx.delaySec * SECOND <= h.times[i]
    ensures Authorized(h.states[j + 1], key, auth)
    ensures forall m :: j < m <= i ==>
      key in h.states[m].proposals && h.states[m].proposals[key] == h.states[i].proposals[key]
  {
    j := WaitingWasStarted(h, auth, i, key);
  }

  /** Where a granted approval comes from: the step that granted it, in the same life of the proposal. */
  ghost predicate GrantedAt(h: History, auth: Authorizer, j: nat, i: nat, key: Key, a: Approval)
    requires Run(h, auth) && i < |h.states|
  {
    && j < i && h.times[j] == a.time
    && h.actions[j].DoApprove? && h.actions[j].key == key && h.actions[j].level == a.level
    && forall m :: j < m <= i ==> key in h.states[m].approvals && a in h.states[m].approvals[key].provided
  }

  lemma ApprovalComesFrom(s: Msig, act: Action, auth: Authorizer, now: Time, key: Key, a: Approval)
    requires var s' := Step(s, act, auth, now); key in s'.approvals && a in s'.approvals[key].provided
    ensures (key in s.approvals && a in s.approvals[key].provided)
         || (act.DoApprove? && act.key == key && act.level == a.level && a.time == now)
  {
  }

  lemma {:induction false} ApprovalWasGranted(h: History, auth: Authorizer, i: nat, key: Key, a: Approval) returns (j: nat)
    requires Run(h, auth) && i < |h.states| && key in h.states[i].approvals && a in h.states[i].approvals[key].provided
    ensures GrantedAt(h, auth, j, i, key, a)
  {
    assert i > 0;
    var s := h.states[i - 1];
    ApprovalComesFrom(s, h.actions[i - 1], auth, h.times[i - 1], key, a);
    if key in s.approvals && a in s.approvals[key].provided {
      j := ApprovalWasGranted(h, auth, i - 1, key, a);
    } else {
      j := i - 1;
    }
  }

  /** The stored invalidation time of an account is not earlier than any of its invalidations. */
  lemma {:induction false} InvalidationsAreKept(h: History, auth: Authorizer, m: nat, i: nat)
    requires Run(h, auth) && m < i < |h.states| && h.actions[m].DoInvalidate?
    ensures h.actions[m].account in h.states[i].invalids
    ensures h.times[m] <= h.states[i].invalids[h.actions[m].account]
  {
    if m < i - 1 { InvalidationsAreKept(h, auth, m, i - 1); }
  }

  /** Every approval that an execution counts was granted in the same life of the proposal, strictly after
      every invalidation by its actor. */
  lemma CountedApprovalsAreFresh(h: History, auth: Authorizer, i: nat, key: Key, level: Level) returns (a: Approval, j: nat)
    requires Run(h, auth) && i < |h.actions| && h.actions[i] == DoExec(key)
    requires key in h.states[i].approvals
    requires level in ValidLevels(h.states[i].approvals[key].provided, h.states[i].invalids)
    ensures a.level == level && GrantedAt(h, auth, j, i, key, a)
    ensures forall m :: 0 <= m < i && h.actions[m] == DoInvalidate(level.actor) ==> h.times[m] < a.time
  {
    a :| a in h.states[i].approvals[key].provided && Counts(a, h.states[i].invalids) && a.level == level;
    j := ApprovalWasGranted(h, auth, i, key, a);
    forall m | 0 <= m < i && h.actions[m] == DoInvalidate(level.actor) ensures h.times[m] < a.time {
      InvalidationsAreKept(h, auth, m, i);
    }
  }

  /** Whatever the run, an execution is accepted exactly when the approvals that count at that moment authorize the
      transaction, it is alive and without context-free actions, and its execution time has come or, with none set, it
      has no delay. */
  lemma ExecutionAcceptedIff(h: History, auth: Authorizer, i: nat, key: Key)
    requires Run(h, auth) && i < |h.actions| && h.actions[i] == DoExec(key)
    ensures Attempt(h.states[i], h.actions[i], auth, h.times[i]).Some? <==>
      && Authorized(h.states[i], key, auth)
      && Alive(h.states[i].proposals[key].trx, h.times[i]) && !h.states[i].proposals[key].trx.contextFree
      && match h.states[i].proposals[key].earliest
         case At(time) => time <= h.times[i]
         case _ => h.states[i].proposals[key].trx.delaySec == 0
  {
    if key in h.states[i].proposals { RowsTogether(h, auth, i, key); }
    ExecIsExact(h.states[i], key, auth, h.times[i]);
  }

  /** An executed proposal is gone: it runs again only after it has been proposed again. */
  lemma {:induction false} ExecutedOnce(h: History, auth: Authorizer, i: nat, j: nat, key: Key)
    requires Run(h, auth) && i < j < |h.actions|
    requires h.actions[i] == DoExec(key) && Attempt(h.states[i], h.actions[i], auth, h.times[i]).Some?
    requires key in h.states[j].proposals
    ensures exists m :: i < m < j && h.actions[m].DoPropose? && h.actions[m].key == key
  {
    assert key !in h.states[i + 1].proposals;
    if j > i + 1 {
      if key in h.states[j - 1].proposals {
        ExecutedOnce(h, auth, i, j - 1, key);
      } else {
        assert h.actions[j - 1].DoPropose? && h.actions[j - 1].key == key;
      }
    }
  }

  /** All levels of a proposal: those still requested and those provided. */
  function AllLevels(rows: Approvals): multiset<Level> {
    multiset(Levels(rows.requested)) + multiset(Levels(rows.provided))
  }

  /** One step keeps the transaction and the levels of a proposal, unless it proposes it. */
  lemma ProposalComesFrom(s: Msig, a: Action, auth: Authorizer, now: Time, key: Key)
    requires key in s.proposals ==> key in s.approvals
    requires key in Step(s, a, auth, now).proposals
    ensures var s' := Step(s, a, auth, now);
      && key in s'.approvals
      && if key in s.proposals then
           s'.proposals[key].trx == s.proposals[key].trx && AllLevels(s'.approvals[key]) == AllLevels(s.approvals[key])
         else
           && a.DoPropose? && a.key == key && s'.proposals[key].trx == a.trx
           && AllLevels(s'.approvals[key]) == multiset(a.requested)
           && auth(a.trx, set l | l in a.requested)
  {
    if Attempt(s, a, auth, now).Some? {
      if a.DoPropose? && a.key == key {
        var rows := Step(s, a, auth, now).approvals[key];
        assert Levels(rows.requested) == a.requested && Levels(rows.provided) == [];
      } else if a.DoApprove? && a.key == key {
        LevelsAreConserved(s.approvals[key], a.level, now);
      } else if a.DoUnapprove? && a.key == key {
        LevelsAreConserved(s.approvals[key], a.level, now);
      }
    }
  }

  /** The step that proposed what a proposal still is: the same transaction, and the same levels, each either
      requested or provided. */
  ghost predicate ProposedAt(h: History, auth: Authorizer, j: nat, i: nat, key: Key)
    requires Run(h, auth) && i < |h.states|
  {
    && j < i && h.actions[j].DoPropose? && h.actions[j].key == key
    && (forall m :: j < m <= i ==> key in h.states[m].proposals)
    && key in h.states[i].approvals
    && h.states[i].proposals[key].trx == h.actions[j].trx
    && AllLevels(h.states[i].approvals[key]) == multiset(h.actions[j].requested)
    && auth(h.actions[j].trx, set l | l in h.actions[j].requested)
  }

  lemma {:induction false} ProposalWasProposed(h: History, auth: Authorizer, i: nat, key: Key) returns (j: nat)
    requires Run(h, auth) && i < |h.states| && key in h.states[i].proposals
    ensures ProposedAt(h, auth, j, i, key)
  {
    assert i > 0;
    var s := h.states[i - 1];
    if key in s.proposals {
      j := ProposalWasProposed(h, auth, i - 1, key);
      ProposalComesFrom(s, h.actions[i - 1], auth, h.times[i - 1], key);
    } else {
      ProposalComesFrom(s, h.actions[i - 1], auth, h.times[i - 1], key);
      j := i - 1;
    }
  }

  /** What is executed is what was proposed, and every level that counts for it was requested by that proposal. */
  lemma ExecutedAsProposed(h: History, auth: Authorizer, i: nat, key: Key) returns (j: nat)
    requires Run(h, auth) && i < |h.actions| && h.actions[i] == DoExec(key)
    requires Attempt(h.states[i], h.actions[i], auth, h.times[i]).Some?
    ensures j < i && h.actions[j].DoPropose? && h.actions[j].key == key
    ensures h.states[i].proposals[key].trx == h.actions[j].trx
    ensures auth(h.actions[j].trx, set l | l in h.actions[j].requested)
    ensures key in h.states[i].approvals
    ensures forall l :: l in ValidLevels(h.states[i].approvals[key].provided, h.states[i].invalids) ==>
      l in h.actions[j].requested
    ensures forall m :: j < m <= i ==> key in h.states[m].proposals
  {
    j := ProposalWasProposed(h, auth, i, key);
    var provided := h.states[i].approvals[key].provided;
    forall l | l in ValidLevels(provided, h.states[i].invalids) ensures l in h.actions[j].requested {
      var k :| 0 <= k < |provided| && provided[k].level == l;
      assert Levels(provided)[k] == l;
      assert l in AllLevels(h.states[i].approvals[key]);
    }
  }

  // ---- Authorization during the waiting time ----

  /** The levels that count for a proposal and do not belong to an account. */
  function Remaining(s: Msig, key: Key, account: Name): set<Level>
    requires key in s.approvals
  {
    set l | l in ValidLevels(s.approvals[key].provided, s.invalids) && l.actor != account
  }

  /** What can be read before a step: if it invalidates, the approvals that remain authorize the proposal. */
  ghost predicate Harmless(s: Msig, a: Action, auth: Authorizer, key: Key)
    requires key in s.proposals && key in s.approvals
  {
    a.DoInvalidate? ==> auth(s.proposals[key].trx, Remaining(s, key, a.account))
  }

  /** An invalidation takes exactly the levels of its account out of the count. */
  lemma InvalidationLeaves(s: Msig, key: Key, account: Name, before: Time, now: Time)
    requires PastTimes(s, before) && before <= now && key in s.approvals
    ensures ValidLevels(s.approvals[key].provided, s.invalids[account := now]) == Remaining(s, key, account)
  {
    var provided := s.approvals[key].provided;
    forall x | x in provided
      ensures Counts(x, s.invalids[account := now]) <==> Counts(x, s.invalids) && x.level.actor != account
    {
      assert x.time <= before;
    }
  }

  lemma ApprovalAddsLevels(s: Msig, a: Action, auth: Authorizer, now: Time, key: Key)
    requires a.DoApprove? && a.key == key && key in s.approvals && Attempt(s, a, auth, now).Some?
    ensures ValidLevels(s.approvals[key].provided, s.invalids)
         <= ValidLevels(Step(s, a, auth, now).approvals[key].provided, s.invalids)
  {
    var was, now' := s.approvals[key].provided, Step(s, a, auth, now).approvals[key].provided;
    assert forall x :: x in was ==> x in now';
  }

  /** While its waiting time runs on, a proposal that is authorized stays so after a step if and only if the step
      is harmless: only an invalidation can end it, and it does when the rest does not authorize. */
  lemma StaysAuthorizedIff(s: Msig, a: Action, auth: Authorizer, before: Time, now: Time, key: Key)
    requires Sane(auth) && Inv(s, auth, before) && before <= now && Authorized(s, key, auth)
    requires var s' := Step(s, a, auth, now);
      key in s'.proposals && key in s'.approvals && s'.proposals[key] == s.proposals[key]
    requires s.proposals[key].earliest.At?
    ensures Authorized(Step(s, a, auth, now), key, auth) <==> Harmless(s, a, auth, key)
  {
    if Attempt(s, a, auth, now).Some? {
      match a
      case DoApprove(k, level, _) => if k == key { ApprovalAddsLevels(s, a, auth, now, key); }
      case DoInvalidate(account) => InvalidationLeaves(s, key, account, before, now);
      case _ =>
    }
  }

  /** A proposal whose waiting time runs on through a stretch of a run. */
  ghost predicate Waits(h: History, auth: Authorizer, j: nat, i: nat, key: Key, p: Proposal)
    requires Run(h, auth) && j < i < |h.states|
  {
    && p.earliest.At?
    && forall m :: j < m <= i ==>
         key in h.states[m].proposals && key in h.states[m].approvals && h.states[m].proposals[key] == p
  }

  lemma WaitStep(h: History, auth: Authorizer, j: nat, i: nat, key: Key, p: Proposal, m: nat)
    requires Sane(auth) && Run(h, auth) && j < i < |h.states| && Waits(h, auth, j, i, key, p)
    requires j < m < i && Authorized(h.states[m], key, auth)
    ensures Authorized(h.states[m + 1], key, auth) <==> Harmless(h.states[m], h.actions[m], auth, key)
  {
    RunKeepsInv(h, auth, m);
    RunStep(h, auth, m);
    StaysAuthorizedIff(h.states[m], h.actions[m], auth, Clock(h, m), h.times[m], key);
  }

  lemma {:induction false} AuthorizedThroughout(h: History, auth: Authorizer, j: nat, i: nat, key: Key, p: Proposal, m: nat)
    requires Sane(auth) && Run(h, auth) && j < i < |h.states| && Waits(h, auth, j, i, key, p)
    requires j < m <= i && Authorized(h.states[j + 1], key, auth)
    requires forall n :: j < n < i ==> Harmless(h.states[n], h.actions[n], auth, key)
    ensures Authorized(h.states[m], key, auth)
  {
    if j + 1 < m {
      AuthorizedThroughout(h, auth, j, i, key, p, m - 1);
      WaitStep(h, auth, j, i, key, p, m - 1);
    }
  }

  /** From a state that authorizes it on, a waiting proposal is authorized in every state if and only if every
      invalidation left approvals that authorize it. */
  lemma AuthorizedThroughoutIff(h: History, auth: Authorizer, j: nat, i: nat, key: Key, p: Proposal)
    requires Sane(auth) && Run(h, auth) && j < i < |h.states| && Waits(h, auth, j, i, key, p)
    requires Authorized(h.states[j + 1], key, auth)
    ensures (forall m :: j < m <= i ==> Authorized(h.states[m], key, auth))
       <==> (forall n :: j < n < i ==> Harmless(h.states[n], h.actions[n], auth, key))
  {
    if forall n :: j < n < i ==> Harmless(h.states[n], h.actions[n], auth, key) {
      forall m | j < m <= i ensures Authorized(h.states[m], key, auth) {
        AuthorizedThroughout(h, auth, j, i, key, p, m);
      }
    }
    if forall m :: j < m <= i ==> Authorized(h.states[m], key, auth) {
      forall n | j < n < i ensures Harmless(h.states[n], h.actions[n], auth, key) {
        assert Authorized(h.states[n], key, auth) && Authorized(h.states[n + 1], key, auth);
        WaitStep(h, auth, j, i, key, p, n);
      }
    }
  }

  lemma RowsTogether(h: History, auth: Authorizer, i: nat, key: Key)
    requires Run(h, auth) && i < |h.states| && key in h.states[i].proposals
    ensures key in h.states[i].approvals
  {
    var j := ProposalWasProposed(h, auth, i, key);
  }

  /** A delayed transaction that is executed was authorized in every state of its waiting time if and only if every
      invalidation meanwhile left approvals that authorize it. */
  lemma AuthorizedWhileWaiting(h: History, auth: Authorizer, i: nat, key: Key) returns (j: nat)
    requires Sane(auth) && Run(h, auth) && i < |h.actions| && h.actions[i] == DoExec(key)
    requires Attempt(h.states[i], h.actions[i], auth, h.times[i]).Some?
    requires h.states[i].proposals[key].trx.delaySec > 0
    ensures j < i && h.actions[j].DoApprove? && h.actions[j].key == key
    ensures h.times[j] + h.states[i].proposals[key].trx.delaySec * SECOND <= h.times[i]
    ensures forall m :: j < m <= i ==> key in h.states[m].proposals && key in h.states[m].approvals
    ensures (forall m :: j < m <= i ==> Authorized(h.states[m], key, auth))
       <==> (forall n :: j < n < i ==> Harmless(h.states[n], h.actions[n], auth, key))
  {
    j := DelayIsWaitedOut(h, auth, i, key);
    forall m | j < m <= i ensures key in h.states[m].approvals {
      RowsTogether(h, auth, m, key);
    }
    AuthorizedThroughoutIff(h, auth, j, i, key, h.states[i].proposals[key]);
  }
}
