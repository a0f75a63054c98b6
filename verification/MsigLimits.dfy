/** A run on which a delay passes although nothing authorizes the transaction meanwhile. */
module MsigLimits {
  import opened Common
  import opened MsigSpec

  /** A host check that any one level satisfies. */
  const ANY_LEVEL: Authorizer := (t: Trx, s: set<Level>) => s != {}

  function Delayed(delaySec: nat): Trx {
    Trx(0, delaySec, delaySec, false)
  }

  function Table(key: Key, trx: Trx, earliest: Earliest, rows: Approvals, invalids: map<Name, Time>): Msig {
    Msig(map[key := Proposal(trx, earliest)], map[key := rows], invalids)
  }

  /** The states: proposed, approved by the first, invalidated by the first, approved by the second, executed. */
  function States(key: Key, a: Level, b: Level, d: nat): seq<Msig> {
    var due := d * SECOND;
    var asked := [Approval(a, 0), Approval(b, 0)];
    [ NO_PROPOSALS,
      Table(key, Delayed(d), Unset, Approvals(asked, []), map[]),
      Table(key, Delayed(d), At(due), Approvals([Approval(b, 0)], [Approval(a, 0)]), map[]),
      Table(key, Delayed(d), At(due), Approvals([Approval(b, 0)], [Approval(a, 0)]), map[a.actor := 0]),
      Table(key, Delayed(d), At(due), Approvals([], [Approval(a, 0), Approval(b, due)]), map[a.actor := 0]),
      Msig(map[], map[], map[a.actor := 0]) ]
  }

  function Actions(key: Key, a: Level, b: Level, d: nat): seq<Action> {
    [ DoPropose(key, [a, b], Delayed(d)), DoApprove(key, a, true), DoInvalidate(a.actor), DoApprove(key, b, true),
      DoExec(key) ]
  }

  lemma ProposedFirst(key: Key, a: Level, b: Level, d: nat)
    ensures Step(NO_PROPOSALS, DoPropose(key, [a, b], Delayed(d)), ANY_LEVEL, 0) == States(key, a, b, d)[1]
  {
    var levels := [a, b];
    var asked := set l | l in levels;
    assert levels[0] in levels && a in asked;
    assert ANY_LEVEL(Delayed(d), asked) by { assert asked != {}; }
    var proposed := Propose(NO_PROPOSALS, key, levels, Delayed(d), ANY_LEVEL, 0);
    assert proposed.Some?;
    assert proposed.value.approvals[key].requested == [Approval(a, 0), Approval(b, 0)];
    assert proposed.value.approvals == States(key, a, b, d)[1].approvals;
  }

  lemma ApprovedNext(key: Key, a: Level, b: Level, d: nat)
    ensures Step(States(key, a, b, d)[1], DoApprove(key, a, true), ANY_LEVEL, 0) == States(key, a, b, d)[2]
  {
    var s := States(key, a, b, d);
    assert Find(s[1].approvals[key].requested, a) == 0;
    assert Move(s[1].approvals[key], a, 0) == s[2].approvals[key];
    var provided := [Approval(a, 0)];
    assert provided[0] in provided && Counts(provided[0], s[1].invalids);
    assert a in ValidLevels(provided, s[1].invalids);
  }

  lemma InvalidatedAndExecuted(key: Key, a: Level, b: Level, d: nat)
    requires a.actor != b.actor && 0 < d
    ensures var s := States(key, a, b, d);
      && Step(s[2], DoInvalidate(a.actor), ANY_LEVEL, 0) == s[3]
      && !Authorized(s[3], key, ANY_LEVEL)
      && Step(s[3], DoApprove(key, b, true), ANY_LEVEL, d * SECOND) == s[4]
      && Attempt(s[4], DoExec(key), ANY_LEVEL, d * SECOND) == Some(s[5])
  {
    var s := States(key, a, b, d);
    assert ValidLevels([Approval(a, 0)], map[a.actor := 0]) == {};
    assert Find(s[3].approvals[key].requested, b) == 0;
    assert Move(s[3].approvals[key], b, d * SECOND) == s[4].approvals[key];
    var provided := s[4].approvals[key].provided;
    assert provided[1] in provided && Counts(provided[1], s[4].invalids);
    assert b in ValidLevels(provided, s[4].invalids);
    assert s[4].proposals - {key} == map[] && s[4].approvals - {key} == map[];
  }

  lemma FiveSteps(h: History, auth: Authorizer)
    requires |h.states| == 6 && |h.actions| == 5 && |h.times| == 5 && h.states[0] == NO_PROPOSALS
    requires h.times[0] <= h.times[1] <= h.times[2] <= h.times[3] <= h.times[4]
    requires h.states[1] == Step(h.states[0], h.actions[0], auth, h.times[0])
    requires h.states[2] == Step(h.states[1], h.actions[1], auth, h.times[1])
    requires h.states[3] == Step(h.states[2], h.actions[2], auth, h.times[2])
    requires h.states[4] == Step(h.states[3], h.actions[3], auth, h.times[3])
    requires h.states[5] == Step(h.states[4], h.actions[4], auth, h.times[4])
    ensures Run(h, auth)
  {
  }

  /** Whatever the delay: an approval that authorizes is invalidated at once, another is given when the delay is over,
      and the transaction is executed at that moment; while it waited, nothing authorized it. */
  lemma InvalidationDoesNotStopTheDelay(key: Key, a: Level, b: Level, d: nat) returns (h: History)
    requires a.actor != b.actor && 0 < d
    ensures Sane(ANY_LEVEL) && Run(h, ANY_LEVEL) && |h.actions| == 5
    ensures h.actions[1] == DoApprove(key, a, true) && h.actions[2] == DoInvalidate(a.actor) && h.actions[4] == DoExec(key)
    ensures Attempt(h.states[4], h.actions[4], ANY_LEVEL, h.times[4]).Some? && key in h.states[3].proposals
    ensures h.times[1] == h.times[2] == 0 && h.times[3] == h.times[4] == d * SECOND
    ensures !Authorized(h.states[3], key, ANY_LEVEL)
  {
    ProposedFirst(key, a, b, d);
    ApprovedNext(key, a, b, d);
    InvalidatedAndExecuted(key, a, b, d);
    h := History(States(key, a, b, d), Actions(key, a, b, d), [0, 0, 0, d * SECOND, d * SECOND]);
    FiveSteps(h, ANY_LEVEL);
  }
}
