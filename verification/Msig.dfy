/** The multisig contract: its three tables as fields, its actions as methods that update them in place. */
module MultisigContract {
  import opened Common
  import opened MsigSpec

  class Multisig {
    const auth: Authorizer
    var proposals: map<Key, Proposal>
    var approvals: map<Key, Approvals>
    var invalids: map<Name, Time>

    ghost function View(): Msig
      reads this
    {
      Msig(proposals, approvals, invalids)
    }

    constructor (auth: Authorizer)
      ensures View() == NO_PROPOSALS && this.auth == auth
    {
      this.auth := auth;
      proposals, approvals, invalids := map[], map[], map[];
    }

    /** What an action leaves: the new tables when it is accepted, the old ones when a check fails. */
    twostate predicate Outcome(ok: bool, result: Option<Msig>)
      reads this
    {
      && ok == result.Some?
      && View() == if result.Some? then result.value else old(View())
    }

    /** The approvals that count now, collected in order. */
    method CountingLevels(provided: seq<Approval>) returns (levels: seq<Level>)
      ensures (set l | l in levels) == ValidLevels(provided, invalids)
    {
      levels := [];
      for i := 0 to |provided|
        invariant forall l :: l in levels <==> exists k :: 0 <= k < i && provided[k].level == l && Counts(provided[k], invalids)
      {
        var a := provided[i];
        if a.level.actor !in invalids || invalids[a.level.actor] < a.time {
          levels := levels + [a.level];
        }
      }
    }

    /** The host's check on the approvals that count. */
    method IsAuthorized(trx: Trx, provided: seq<Approval>) returns (ok: bool)
      ensures ok == auth(trx, ValidLevels(provided, invalids))
    {
      var levels := CountingLevels(provided);
      ok := auth(trx, set l | l in levels);
    }

    method Propose(key: Key, requested: seq<Level>, trx: Trx, now: Time) returns (ok: bool)
      modifies this`proposals, this`approvals
      ensures Outcome(ok, MsigSpec.Propose(old(View()), key, requested, trx, auth, now))
    {
      if trx.expiration < now / SECOND || trx.contextFree || key in proposals
         || !auth(trx, set l | l in requested) || key in approvals { return false; }
      var list: seq<Approval> := [];
      for i := 0 to |requested|
        invariant |list| == i && forall k :: 0 <= k < i ==> list[k] == Approval(requested[k], 0)
      {
        list := list + [Approval(requested[i], 0)];
      }
      assert list == seq(|requested|, i requires 0 <= i < |requested| => Approval(requested[i], 0));
      proposals := proposals[key := Proposal(trx, Unset)];
      approvals := approvals[key := Approvals(list, [])];
      return true;
    }

    method Approve(key: Key, level: Level, hashOk: bool, now: Time) returns (ok: bool)
      modifies this`proposals, this`approvals
      ensures Outcome(ok, MsigSpec.Approve(old(View()), key, level, hashOk, auth, now))
    {
      if key !in proposals || !hashOk || key !in approvals { return false; }
      var rows := approvals[key];
      var at := FindLevel(rows.requested, level);
      if at == |rows.requested| { return false; }
      var p := proposals[key];
      // The check on old proposals comes after the change of the approvals, which it then undoes.
      if p.earliest.Absent? && p.trx.delaySec != 0 { return false; }
      rows := Approvals(rows.requested[..at] + rows.requested[at + 1..], rows.provided + [Approval(level, now)]);
      if p.earliest.Unset? {
        var authorized := IsAuthorized(p.trx, rows.provided);
        if authorized {
          p := p.(earliest := At(now + p.trx.delaySec * SECOND));
        }
      }
      approvals := approvals[key := rows];
      proposals := proposals[key := p];
      return true;
    }

    method Unapprove(key: Key, level: Level, now: Time) returns (ok: bool)
      modifies this`proposals, this`approvals
      ensures Outcome(ok, MsigSpec.Unapprove(old(View()), key, level, auth, now))
    {
      if key !in approvals { return false; }
      var rows := approvals[key];
      var at := FindLevel(rows.provided, level);
      if at == |rows.provided| || key !in proposals { return false; }
      var p := proposals[key];
      if p.earliest.Absent? && p.trx.delaySec != 0 { return false; }
      rows := Approvals(rows.requested + [Approval(level, now)], rows.provided[..at] + rows.provided[at + 1..]);
      if p.earliest.At? {
        var authorized := IsAuthorized(p.trx, rows.provided);
        if !authorized {
          p := p.(earliest := Unset);
        }
      }
      approvals := approvals[key := rows];
      proposals := proposals[key := p];
      return true;
    }

    method Cancel(key: Key, canceler: Name, now: Time) returns (ok: bool)
      modifies this`proposals, this`approvals
      ensures Outcome(ok, MsigSpec.Cancel(old(View()), key, canceler, now))
    {
      if key !in proposals { return false; }
      if canceler != key.proposer && proposals[key].trx.expiration >= now / SECOND { return false; }
      if key !in approvals { return false; }
      proposals := proposals - {key};
      approvals := approvals - {key};
      return true;
    }

    /** Execution; the transaction that it sends is the stored one. */
    method Exec(key: Key, now: Time) returns (ok: bool, sent: Option<Trx>)
      modifies this`proposals, this`approvals
      ensures Outcome(ok, MsigSpec.Exec(old(View()), key, auth, now))
      ensures sent == if ok then Some(old(proposals)[key].trx) else None
    {
      if key !in proposals { return false, None; }
      var p := proposals[key];
      if p.trx.expiration < now / SECOND || p.trx.contextFree { return false, None; }
      var provided := if key in approvals then approvals[key].provided else [];
      assert ValidLevels([], invalids) == {};
      var authorized := IsAuthorized(p.trx, provided);
      if !authorized { return false, None; }
      if p.earliest.At? {
        if p.earliest.time > now { return false, None; }
      } else if p.trx.delaySec != 0 {
        return false, None;
      }
      approvals := approvals - {key};
      proposals := proposals - {key};
      return true, Some(p.trx);
    }

    method Invalidate(account: Name, now: Time)
      modifies this`invalids
      ensures View() == MsigSpec.Invalidate(old(View()), account, now)
    {
      invalids := invalids[account := now];
    }
  }

  /** The search for a level, as std::find_if does it. */
  method FindLevel(list: seq<Approval>, level: Level) returns (at: nat)
    ensures at == Find(list, level)
  {
    at := 0;
    while at < |list| && list[at].level != level
      invariant at <= |list| && forall i :: 0 <= i < at ==> list[i].level != level
    {
      at := at + 1;
    }
  }
}
