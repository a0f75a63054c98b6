/** The producer part of the system contract: the finalizer tables, the stored list of proposed finalizers
    with its cache, and the producer schedule, updated in place by the actions. */
module ProducerRegistry {
  import opened Common
  import opened Sorting
  import opened Election
  import opened RegistrySpec

  const MAX_PRODUCERS := 21

  /** One entry of the stored list. */
  datatype AuthInfo = AuthInfo(keyId: KeyId, authority: Authority)

  function IdOfEntry(a: AuthInfo): int { a.keyId }

  /** One producer of a schedule. */
  datatype Scheduled = Scheduled(owner: Name, authority: SigningAuthority)

  function NameOf(s: Scheduled): int { s.owner }

  /** The list read as a table from key id to authority. */
  ghost function Listed(list: seq<AuthInfo>): map<KeyId, Authority>
    requires DistinctBy(list, IdOfEntry)
  {
    map a | a in list :: a.keyId := a.authority
  }

  /** Equality of lists as the contract compares them: by key id and public key only. */
  predicate SameKeys(a: seq<AuthInfo>, b: seq<AuthInfo>) {
    && |a| == |b|
    && forall i :: 0 <= i < |a| ==>
         a[i].keyId == b[i].keyId && a[i].authority.publicKey == b[i].authority.publicKey
  }

  function Authorities(list: seq<AuthInfo>): seq<Authority> {
    seq(|list|, i requires 0 <= i < |list| => list[i].authority)
  }

  function PolicyFor(list: seq<AuthInfo>): Policy {
    Policy(Threshold(|list|), Authorities(list))
  }

  /** No public key stands twice in a policy. */
  ghost predicate PolicyKeysDistinct(p: Policy) {
    forall i, j :: 0 <= i < j < |p.finalizers| ==> p.finalizers[i].publicKey != p.finalizers[j].publicKey
  }

  ghost predicate UnitWeights(list: seq<AuthInfo>) {
    forall a :: a in list ==> a.authority.weight == 1
  }

  function EntryOf(n: Name, f: Finalizer): AuthInfo {
    AuthInfo(f.activeId, Authority(n, 1, f.activeBinary))
  }

  ghost function OwnerSet(w: seq<Producer>): set<Name> {
    set p | p in w :: p.owner
  }

  /** The finalizers that the election scan accepts. */
  function Ready(finalizers: map<Name, Finalizer>): set<Name> {
    set n | n in finalizers && finalizers[n].activeBinary != []
  }

  class FinalizerRegistry {
    var finkeys: map<KeyId, FinKey>
    var finalizers: map<Name, Finalizer>
    var lastId: Option<KeyId>
    var lastProposed: seq<AuthInfo>
    var cache: Option<seq<AuthInfo>>
    var scheduleSize: nat
    var scheduleTime: nat
    var schedules: seq<seq<Scheduled>>   // handed to the host by set_proposed_producers
    var policies: seq<Policy>            // handed to the host by set_finalizers

    ghost function View(): Registry
      requires DistinctBy(lastProposed, IdOfEntry)
      reads this
    {
      Registry(finkeys, finalizers, lastId, Listed(lastProposed))
    }

    /** The stored list is sorted, agrees with its cache and is the policy that the host was given last. */
    ghost predicate ListValid()
      reads this
    {
      && StrictlySortedBy(lastProposed, IdOfEntry)
      && (cache.Some? ==> cache.value == lastProposed)
      && (forall i :: 0 <= i < |policies| ==> Sound(policies[i]))
      && (policies == [] <==> lastProposed == [])
      && (policies != [] ==> policies[|policies| - 1] == PolicyFor(lastProposed))
    }

    ghost predicate Valid()
      reads this
    {
      ListValid() && Inv(View())
    }

    constructor ()
      ensures Valid() && View() == NO_KEYS && schedules == [] && policies == []
    {
      finkeys, finalizers, lastId := map[], map[], None;
      lastProposed, cache := [], None;
      scheduleSize, scheduleTime, schedules, policies := 0, 0, [], [];
      new;
      RunKeepsInv([NO_KEYS], [], 0);
    }

    /** What an action leaves: the new tables when it is accepted, the old ones when a check fails. */
    twostate predicate Outcome(ok: bool, result: Option<Registry>)
      requires DistinctBy(lastProposed, IdOfEntry) && old(DistinctBy(lastProposed, IdOfEntry))
      reads this
    {
      && ok == result.Some?
      && View() == (if result.Some? then result.value else old(View()))
    }

    /** A policy is handed to the host exactly when the stored list changes, and it is the policy of the new list. */
    twostate predicate PolicyFollowsList()
      reads this
    {
      policies == if lastProposed == old(lastProposed) then old(policies)
                  else old(policies) + [PolicyFor(lastProposed)]
    }

    method GetLastProposedFinalizers() returns (list: seq<AuthInfo>)
      requires ListValid()
      modifies this`cache
      ensures ListValid() && list == lastProposed
    {
      if cache.None? {
        cache := Some(lastProposed);
      }
      list := cache.value;
    }

    method GetNextFinalizerKeyId() returns (id: KeyId)
      modifies this`lastId
      ensures id == NextId(old(lastId)) && lastId == Some(id)
    {
      id := 0;
      if lastId.Some? {
        id := (lastId.value + 1) % TWO_64;
      }
      lastId := Some(id);
    }

    /** Sorts the proposal and, unless it has the same keys as the last one, hands a policy to the host
        and stores it in table and cache. */
    method SetProposedFinalizers(proposed: seq<AuthInfo>)
      requires ListValid()
      requires DistinctBy(proposed, IdOfEntry) && UnitWeights(proposed)
      requires proposed == [] ==> lastProposed == []
      modifies this`lastProposed, this`cache, this`policies
      ensures ListValid()
      ensures var sorted := Sort(proposed, IdOfEntry);
        if && |sorted| == |old(lastProposed)|
           && (forall i :: 0 <= i < |sorted| ==>
                && sorted[i].keyId == old(lastProposed)[i].keyId
                && sorted[i].authority.publicKey == old(lastProposed)[i].authority.publicKey) then
          lastProposed == old(lastProposed) && policies == old(policies)
        else
          lastProposed == sorted && policies == old(policies) + [PolicyFor(sorted)]
      ensures PolicyFollowsList()
    {
      var sorted := Sort(proposed, IdOfEntry);
      SortIsStrict(proposed, IdOfEntry);
      var last := GetLastProposedFinalizers();
      if SameKeys(sorted, last) { return; }
      assert UnitWeights(sorted);
      var policy := BuildPolicy(sorted);
      policies := policies + [policy];
      lastProposed := sorted;
      cache := Some(sorted);
    }

    /** The policy of a list, built authority by authority. */
    method BuildPolicy(list: seq<AuthInfo>) returns (policy: Policy)
      requires list != [] && UnitWeights(list)
      ensures policy == PolicyFor(list) && Sound(policy)
    {
      var authorities: seq<Authority> := [];
      for i := 0 to |list|
        invariant |authorities| == i
        invariant forall k :: 0 <= k < i ==> authorities[k] == list[k].authority
      {
        authorities := authorities + [list[i].authority];
      }
      assert authorities == Authorities(list);
      policy := Policy(|authorities| * 2 / 3 + 1, authorities);
      forall i | 0 <= i < |authorities| ensures authorities[i].weight == 1 {
        assert list[i] in list;
      }
    }

    /** The lookup by key hash. */
    method FindKey(key: G1) returns (id: Option<KeyId>)
      requires Valid()
      ensures id == IdOf(View(), key)
    {
      id := None;
      if i :| i in finkeys && finkeys[i].binary == key {
        IdOfUnique(View(), i);
        id := Some(i);
      } else {
        assert forall i :: !Registered(View(), key, i);
      }
    }

    /** The checks that activation and deletion share: the row exists, the key is registered, and by this owner. */
    method FindOwnedKey(owner: Name, key: G1) returns (id: Option<KeyId>)
      requires Valid()
      ensures id == OwnedKey(View(), owner, key)
    {
      id := None;
      if owner !in finalizers || finalizers[owner].keyCount == 0 { return; }
      var found := FindKey(key);
      if found.None? || finkeys[found.value].owner != owner { return; }
      id := found;
    }

    /** Registration keeps the tables in agreement exactly when it fails or is safe. */
    method RegFinKey(owner: Name, key: G1, isProducer: bool, popOk: bool) returns (ok: bool)
      requires Valid()
      modifies this`finkeys, this`finalizers, this`lastId
      ensures ListValid() && (Valid() <==> !ok || old(RegistrationSafe(View(), owner, key)))
      ensures Outcome(ok, RegistrySpec.RegFinKey(old(View()), owner, key, isProducer, popOk))
    {
      ghost var r := View();
      if !isProducer { return false; }
      var found := FindKey(key);
      if found.Some? || !popOk { return false; }
      // A primary key that exists already makes the insertion fail and undoes the generator's step.
      if NextId(lastId) in finkeys { return false; }
      RegFinKeyKeepsInvIff(r, owner, key);
      InsertKey(owner, key);
      return true;
    }

    /** The insertion part of registration. */
    method InsertKey(owner: Name, key: G1)
      requires DistinctBy(lastProposed, IdOfEntry)
      modifies this`finkeys, this`finalizers, this`lastId
      ensures View() == AddKey(old(View()), owner, key, NextId(old(lastId)))
    {
      var id := GetNextFinalizerKeyId();
      finkeys := finkeys[id := FinKey(owner, key)];
      if owner !in finalizers {
        finalizers := finalizers[owner := Finalizer(id, key, 1)];
      } else {
        finalizers := finalizers[owner := finalizers[owner].(keyCount := (finalizers[owner].keyCount + 1) % TWO_32)];
      }
    }

    /** Activation edits the stored list in place: it looks for the old active key by binary search, and by the
        invariant it finds it exactly when it is listed. */
    method ActFinKey(owner: Name, key: G1) returns (ok: bool)
      requires Valid()
      modifies this`finalizers, this`lastProposed, this`cache, this`policies
      ensures Valid()
      ensures Outcome(ok, RegistrySpec.ActFinKey(old(View()), owner, key))
      ensures PolicyFollowsList()
      ensures ok && old(ListedKeysDistinct(View())) ==>
        (PolicyKeysDistinct(PolicyFor(lastProposed)) <==> old(NotListedForDeleted(View(), owner, key)))
    {
      ghost var r := View();
      var found := FindOwnedKey(owner, key);
      if found.None? { return false; }
      var id := found.value;
      var active := finalizers[owner].activeId;
      if id == active { return false; }
      ActFinKeyKeepsInv(r, owner, key);
      ActivatedIdIsNotListed(r, owner, key);
      ListedWeights(lastProposed, r.proposed);
      SetActive(owner, id);
      if ListedKeysDistinct(r) { ActivationKeysDistinctIff(r, owner, key); }
      PolicyNamesListedKeys(lastProposed);
      return true;
    }

    /** The change that activation makes when its checks have passed. */
    method SetActive(owner: Name, id: KeyId)
      requires ListValid() && UnitWeights(lastProposed) && id !in Listed(lastProposed)
      requires owner in finalizers && id in finkeys
      modifies this`finalizers, this`lastProposed, this`cache, this`policies
      ensures ListValid() && View() == ActivateKey(old(View()), owner, id)
      ensures PolicyFollowsList()
    {
      var active := finalizers[owner].activeId;
      finalizers := finalizers[owner := finalizers[owner].(activeId := id, activeBinary := finkeys[id].binary)];
      ReplaceProposed(active, id, finkeys[id].binary);
    }

    /** The list part of activation. */
    method ReplaceProposed(active: KeyId, id: KeyId, binary: KeyBytes)
      requires ListValid() && UnitWeights(lastProposed) && id !in Listed(lastProposed)
      modifies this`lastProposed, this`cache, this`policies
      ensures ListValid()
      ensures var table := old(Listed(lastProposed));
        Listed(lastProposed) ==
          if active in table then (table - {active})[id := table[active].(publicKey := binary)] else table
      ensures PolicyFollowsList()
    {
      var last := GetLastProposedFinalizers();
      if last == [] {
        assert Listed(last) == map[];
        return;
      }
      var at := LowerBound(last, IdOfEntry, active);
      SearchHitsIffListed(last, active, at);
      if at < |last| && last[at].keyId == active {
        ReplaceEntry(at, AuthInfo(id, last[at].authority.(publicKey := binary)));
      }
    }

    /** Another entry in the place of one: a proposal that always differs from the last one. */
    method ReplaceEntry(at: nat, entry: AuthInfo)
      requires ListValid() && UnitWeights(lastProposed) && at < |lastProposed|
      requires entry.keyId !in Listed(lastProposed) && entry.authority.weight == 1
      modifies this`lastProposed, this`cache, this`policies
      ensures ListValid() && PolicyFollowsList()
      ensures Listed(lastProposed)
           == (old(Listed(lastProposed)) - {old(lastProposed[at].keyId)})[entry.keyId := entry.authority]
    {
      var list := lastProposed[at := entry];
      ReplaceInList(lastProposed, at, entry);
      SortKeepsListed(list);
      assert list[at] == entry;
      NewIdDiffers(list, lastProposed, entry);
      SetProposedFinalizers(list);
    }

    method DelFinKey(owner: Name, key: G1) returns (ok: bool)
      requires Valid()
      modifies this`finkeys, this`finalizers
      ensures Valid()
      ensures Outcome(ok, RegistrySpec.DelFinKey(old(View()), owner, key))
    {
      ghost var r := View();
      var found := FindOwnedKey(owner, key);
      ok := found.Some? && (found.value == finalizers[owner].activeId ==> finalizers[owner].keyCount == 1);
      if ok {
        DelFinKeyKeepsInv(r, owner, key);
        EraseKey(owner, found.value);
      }
    }

    /** The change that deletion makes when its checks have passed. */
    method EraseKey(owner: Name, id: KeyId)
      requires DistinctBy(lastProposed, IdOfEntry) && owner in finalizers && finalizers[owner].keyCount > 0
      modifies this`finkeys, this`finalizers
      ensures View() == RemoveKey(old(View()), owner, id)
    {
      var row := finalizers[owner];
      if row.keyCount == 1 {
        finalizers := finalizers - {owner};
      } else {
        finalizers := finalizers[owner := row.(keyCount := row.keyCount - 1)];
      }
      finkeys := finkeys - {id};
    }

    /** The entries for a list of winners, built one by one. */
    method EntriesOf(winners: seq<Producer>) returns (list: seq<AuthInfo>)
      requires forall p :: p in winners ==> p.owner in finalizers
      ensures |list| == |winners|
      ensures forall i :: 0 <= i < |list| ==> list[i] == EntryOf(winners[i].owner, finalizers[winners[i].owner])
    {
      list := [];
      for i := 0 to |winners|
        invariant |list| == i
        invariant forall k :: 0 <= k < i ==> list[k] == EntryOf(winners[k].owner, finalizers[winners[k].owner])
      {
        assert winners[i] in winners;
        list := list + [EntryOf(winners[i].owner, finalizers[winners[i].owner])];
      }
    }

    /** The proposal part that election and switch share. */
    method ProposeWinners(winners: seq<Producer>)
      requires Valid() && winners != []
      requires forall p :: p in winners ==> p.owner in finalizers
      requires forall i, j :: 0 <= i < j < |winners| ==> winners[i].owner != winners[j].owner
      modifies this`lastProposed, this`cache, this`policies
      ensures Valid() && lastProposed != []
      ensures View() == Propose(old(View()), OwnerSet(winners))
      ensures PolicyFollowsList() && PolicyKeysDistinct(PolicyFor(lastProposed))
    {
      ghost var r := View();
      var entries := EntriesOf(winners);
      ghost var last := lastProposed;
      EntriesAreDistinct(r, winners, entries);
      SetProposedFinalizers(entries);
      assert lastProposed == if SameKeys(Sort(entries, IdOfEntry), last) then last else Sort(entries, IdOfEntry);
      ProposalResult(r, winners, entries, last, lastProposed);
    }

    /** The election: an arbitrary index of producers, the time of the block, and whether the host accepts
        the schedule that it is given. */
    method UpdateElectedProducers(idx: seq<Producer>, blockTime: nat, accepted: bool)
      requires Valid() && VoteIndex(idx)
      modifies this
      ensures Valid()
      ensures finkeys == old(finkeys) && finalizers == old(finalizers) && lastId == old(lastId)
      ensures var w := Winners(idx, Ready(old(finalizers)), 21);
        if |w| == 0 || |w| < old(scheduleSize) then
          && View() == old(View()) && policies == old(policies) && schedules == old(schedules)
          && scheduleSize == old(scheduleSize) && scheduleTime == old(scheduleTime)
        else
          && View() == Propose(old(View()), OwnerSet(w))
          && schedules == old(schedules) + [Schedule(w)] && SchedulesWinners(Schedule(w), w)
          && scheduleSize == (if accepted then |w| else old(scheduleSize))
          && scheduleTime == blockTime
          && PolicyKeysDistinct(PolicyFor(lastProposed))
      ensures PolicyFollowsList()
    {
      var winners := Scan(idx, Ready(finalizers), MAX_PRODUCERS);
      WinnersCompete(idx, Ready(finalizers), MAX_PRODUCERS);
      if |winners| == 0 || |winners| < scheduleSize { return; }
      HandOver(winners, blockTime, accepted);
      ProposeWinners(winners);
    }

    /** The schedule part of the election: the winners sorted by name. */
    method HandOver(winners: seq<Producer>, blockTime: nat, accepted: bool)
      requires forall i, j :: 0 <= i < j < |winners| ==> winners[i].owner != winners[j].owner
      modifies this`schedules, this`scheduleSize, this`scheduleTime
      ensures schedules == old(schedules) + [Schedule(winners)] && SchedulesWinners(Schedule(winners), winners)
      ensures scheduleSize == if accepted then |winners| else old(scheduleSize)
      ensures scheduleTime == blockTime
    {
      var schedule := Schedule(winners);
      ScheduleIsSorted(winners);
      ScheduleSigns(winners);
      schedules := schedules + [schedule];
      if accepted {
        scheduleSize := |schedule|;
      }
      scheduleTime := blockTime;
    }

    method SwitchToSavanna(idx: seq<Producer>) returns (ok: bool)
      requires Valid() && VoteIndex(idx)
      modifies this`lastProposed, this`cache, this`policies
      ensures Valid()
      ensures var w := Winners(idx, Ready(finalizers), scheduleSize);
        && |OwnerSet(w)| == |w| && Outcome(ok, Switch(old(View()), OwnerSet(w), scheduleSize))
        && (ok <==> old(lastProposed) == [] && |w| == scheduleSize && 0 < scheduleSize)
      ensures ok ==> lastProposed != [] && PolicyKeysDistinct(PolicyFor(lastProposed))
      ensures PolicyFollowsList()
    {
      var last := GetLastProposedFinalizers();
      var winners := Scan(idx, Ready(finalizers), scheduleSize);
      WinnersCompete(idx, Ready(finalizers), scheduleSize);
      SwitchIff(View(), last, winners, scheduleSize);
      if last != [] || |winners| != scheduleSize { return false; }
      ok := ProposeFirst(winners);
    }

    /** The first proposal, which fails when it is empty. */
    method ProposeFirst(winners: seq<Producer>) returns (ok: bool)
      requires Valid() && lastProposed == []
      requires forall p :: p in winners ==> p.owner in finalizers
      requires forall i, j :: 0 <= i < j < |winners| ==> winners[i].owner != winners[j].owner
      modifies this`lastProposed, this`cache, this`policies
      ensures Valid() && ok == (winners != []) && PolicyFollowsList()
      ensures View() == if ok then Propose(old(View()), OwnerSet(winners)) else old(View())
      ensures ok ==> lastProposed != [] && PolicyKeysDistinct(PolicyFor(lastProposed))
    {
      if winners == [] {
        assert Sort<AuthInfo>([], IdOfEntry) == [];
        SetProposedFinalizers([]);
      } else {
        ProposeWinners(winners);
      }
      var last := GetLastProposedFinalizers();
      ok := last != [];
    }
  }

  // ---- What the list operations do to the table they stand for ----

  /** Binary search on the sorted list finds an id exactly when it is listed. */
  lemma SearchHitsIffListed(list: seq<AuthInfo>, id: KeyId, at: nat)
    requires StrictlySortedBy(list, IdOfEntry) && at <= |list|
    requires forall i :: 0 <= i < at ==> IdOfEntry(list[i]) < id
    requires forall i :: at <= i < |list| ==> id <= IdOfEntry(list[i])
    ensures (at < |list| && list[at].keyId == id) <==> id in Listed(list)
    ensures at < |list| && list[at].keyId == id ==> Listed(list)[id] == list[at].authority
  {
    if at < |list| {
      assert list[at] in list;
      assert forall k :: at < k < |list| ==> id < IdOfEntry(list[k]);
    }
  }

  lemma ListedInBoth(a: seq<AuthInfo>, b: seq<AuthInfo>, x: AuthInfo)
    requires DistinctBy(a, IdOfEntry) && DistinctBy(b, IdOfEntry) && Listed(a) == Listed(b) && x in a
    ensures x in b
  {
    assert x.keyId in Listed(a) && Listed(a)[x.keyId] == x.authority;
    var y :| y in b && y.keyId == x.keyId;
    assert Listed(b)[y.keyId] == y.authority;
  }

  /** The table determines the stored list: sorted lists that stand for the same table are the same. */
  lemma TableDeterminesList(a: seq<AuthInfo>, b: seq<AuthInfo>)
    requires StrictlySortedBy(a, IdOfEntry) && StrictlySortedBy(b, IdOfEntry)
    requires Listed(a) == Listed(b)
    ensures a == b
  {
    forall x ensures x in a <==> x in b {
      if x in a { ListedInBoth(a, b, x); }
      if x in b { ListedInBoth(b, a, x); }
    }
    StrictlySortedUnique(a, b, IdOfEntry);
  }

  /** The list is empty, which is how the contract tells that Savanna is off, exactly when nothing is proposed. */
  lemma EmptyListIffNothingListed(list: seq<AuthInfo>)
    requires DistinctBy(list, IdOfEntry)
    ensures list == [] <==> Listed(list) == map[]
  {
    if list != [] {
      assert list[0] in list;
      assert list[0].keyId in Listed(list);
    }
  }

  lemma EntryListed(list: seq<AuthInfo>, i: nat)
    requires DistinctBy(list, IdOfEntry) && i < |list|
    ensures list[i].keyId in Listed(list)
    ensures Listed(list)[list[i].keyId] == list[i].authority == PolicyFor(list).finalizers[i]
  {
    assert list[i] in list;
  }

  lemma DistinctPolicy(list: seq<AuthInfo>)
    requires DistinctBy(list, IdOfEntry) && PublicKeysDistinct(Listed(list))
    ensures PolicyKeysDistinct(PolicyFor(list))
  {
    var p := PolicyFor(list).finalizers;
    forall i, j | 0 <= i < j < |p| ensures p[i].publicKey != p[j].publicKey {
      EntryListed(list, i);
      EntryListed(list, j);
      assert IdOfEntry(list[i]) != IdOfEntry(list[j]);
    }
  }

  lemma DistinctTable(list: seq<AuthInfo>)
    requires DistinctBy(list, IdOfEntry) && PolicyKeysDistinct(PolicyFor(list))
    ensures PublicKeysDistinct(Listed(list))
  {
    var table, p := Listed(list), PolicyFor(list).finalizers;
    forall x, y | x in table && y in table && table[x].publicKey == table[y].publicKey ensures x == y {
      var i :| 0 <= i < |list| && list[i].keyId == x;
      var j :| 0 <= j < |list| && list[j].keyId == y;
      EntryListed(list, i);
      EntryListed(list, j);
      assert p[i].publicKey == p[j].publicKey;
    }
  }

  /** The policy of a list has distinct public keys exactly when the table that the list stands for has. */
  lemma PolicyNamesListedKeys(list: seq<AuthInfo>)
    requires DistinctBy(list, IdOfEntry)
    ensures PolicyKeysDistinct(PolicyFor(list)) <==> PublicKeysDistinct(Listed(list))
  {
    if PublicKeysDistinct(Listed(list)) { DistinctPolicy(list); }
    if PolicyKeysDistinct(PolicyFor(list)) { DistinctTable(list); }
  }

  /** The policy of a fresh proposal never names a public key twice. */
  lemma FreshPolicyKeysDistinct(r: Registry, list: seq<AuthInfo>, names: set<Name>)
    requires Inv(r) && names <= r.finalizers.Keys
    requires DistinctBy(list, IdOfEntry) && Listed(list) == ActiveKeys(r, names)
    ensures PolicyKeysDistinct(PolicyFor(list))
  {
    ProposalIsExact(r, names);
    DistinctPolicy(list);
  }

  /** Where an id is listed, so is exactly what stands at its position. */
  lemma ListedAt(list: seq<AuthInfo>, id: KeyId) returns (i: nat)
    requires DistinctBy(list, IdOfEntry) && id in Listed(list)
    ensures i < |list| && list[i] == AuthInfo(id, Listed(list)[id])
  {
    var a :| a in list && a.keyId == id && Listed(list)[id] == a.authority;
    i :| 0 <= i < |list| && list[i] == a;
  }

  lemma ReplacedEntry(list: seq<AuthInfo>, at: nat, entry: AuthInfo, id: KeyId)
    requires DistinctBy(list, IdOfEntry) && at < |list| && DistinctBy(list[at := entry], IdOfEntry)
    requires id != entry.keyId
    ensures id in Listed(list[at := entry]) <==> id in Listed(list) && id != list[at].keyId
    ensures id in Listed(list[at := entry]) ==> Listed(list[at := entry])[id] == Listed(list)[id]
  {
    var now := list[at := entry];
    if id in Listed(now) {
      var i := ListedAt(now, id);
      EntryListed(list, i);
      assert IdOfEntry(list[i]) != IdOfEntry(list[at]);
    }
    if id in Listed(list) && id != list[at].keyId {
      var i := ListedAt(list, id);
      EntryListed(now, i);
    }
  }

  lemma ReplaceInList(list: seq<AuthInfo>, at: nat, entry: AuthInfo)
    requires DistinctBy(list, IdOfEntry) && at < |list| && entry.keyId !in Listed(list)
    ensures DistinctBy(list[at := entry], IdOfEntry)
    ensures Listed(list[at := entry]) == (Listed(list) - {list[at].keyId})[entry.keyId := entry.authority]
  {
    var now := list[at := entry];
    EntryListed(now, at);
    var was, next := Listed(list), Listed(now);
    forall id | id != entry.keyId
      ensures id in next <==> id in was && id != list[at].keyId
      ensures id in next ==> next[id] == was[id]
    {
      ReplacedEntry(list, at, entry, id);
    }
  }

  lemma ListedWeights(list: seq<AuthInfo>, proposed: map<KeyId, Authority>)
    requires DistinctBy(list, IdOfEntry) && proposed == Listed(list)
    requires forall id :: id in proposed ==> proposed[id].weight == 1
    ensures UnitWeights(list)
  {
    forall a | a in list ensures a.authority.weight == 1 {
      assert a.keyId in proposed;
    }
  }

  lemma SortKeepsListed(list: seq<AuthInfo>)
    requires DistinctBy(list, IdOfEntry)
    ensures StrictlySortedBy(Sort(list, IdOfEntry), IdOfEntry)
    ensures Listed(Sort(list, IdOfEntry)) == Listed(list)
  {
    SortIsStrict(list, IdOfEntry);
  }

  lemma NewIdDiffers(list: seq<AuthInfo>, last: seq<AuthInfo>, entry: AuthInfo)
    requires DistinctBy(list, IdOfEntry) && DistinctBy(last, IdOfEntry)
    requires entry in list && entry.keyId !in Listed(last)
    ensures !SameKeys(Sort(list, IdOfEntry), last)
  {
    SortIsStrict(list, IdOfEntry);
    var sorted := Sort(list, IdOfEntry);
    var i :| 0 <= i < |sorted| && sorted[i] == entry;
    if i < |last| { assert last[i] in last; }
  }

  ghost predicate EntriesFor(r: Registry, winners: seq<Producer>, entries: seq<AuthInfo>) {
    && |entries| == |winners|
    && (forall p :: p in winners ==> p.owner in r.finalizers)
    && forall i :: 0 <= i < |entries| ==>
         winners[i].owner in r.finalizers && entries[i] == EntryOf(winners[i].owner, r.finalizers[winners[i].owner])
  }

  lemma EntryIsCurrent(r: Registry, n: Name)
    requires Inv(r) && n in r.finalizers
    ensures var e := EntryOf(n, r.finalizers[n]);
      IsCurrent(r, e.keyId) && r.finkeys[e.keyId].owner == n && e.authority == AuthorityOf(r.finkeys[e.keyId])
  {
    assert RowAgrees(r, n);
  }

  lemma EntriesAreDistinct(r: Registry, winners: seq<Producer>, entries: seq<AuthInfo>)
    requires Inv(r) && EntriesFor(r, winners, entries)
    requires forall i, j :: 0 <= i < j < |winners| ==> winners[i].owner != winners[j].owner
    ensures DistinctBy(entries, IdOfEntry) && UnitWeights(entries)
  {
    forall i, j | 0 <= i < j < |entries| ensures IdOfEntry(entries[i]) != IdOfEntry(entries[j]) {
      EntryIsCurrent(r, winners[i].owner);
      EntryIsCurrent(r, winners[j].owner);
    }
  }

  lemma EntryIsActive(r: Registry, winners: seq<Producer>, entries: seq<AuthInfo>, i: nat)
    requires Inv(r) && EntriesFor(r, winners, entries) && i < |entries|
    ensures var keys := ActiveKeys(r, OwnerSet(winners));
      entries[i].keyId in keys && keys[entries[i].keyId] == entries[i].authority
  {
    EntryIsCurrent(r, winners[i].owner);
    assert winners[i] in winners;
    assert winners[i].owner in OwnerSet(winners);
  }

  lemma ListedIs(list: seq<AuthInfo>, keys: map<KeyId, Authority>)
    requires DistinctBy(list, IdOfEntry)
    requires forall a :: a in list ==> a.keyId in keys && keys[a.keyId] == a.authority
    requires forall id :: id in keys ==> exists a :: a in list && a.keyId == id
    ensures Listed(list) == keys
  {
  }

  /** The entries built for the winners list exactly their active keys. */
  lemma EntriesAreCurrent(r: Registry, winners: seq<Producer>, entries: seq<AuthInfo>)
    requires Inv(r) && EntriesFor(r, winners, entries)
    requires forall i, j :: 0 <= i < j < |winners| ==> winners[i].owner != winners[j].owner
    ensures DistinctBy(entries, IdOfEntry) && UnitWeights(entries)
    ensures Listed(entries) == ActiveKeys(r, OwnerSet(winners))
  {
    EntriesAreDistinct(r, winners, entries);
    var keys := ActiveKeys(r, OwnerSet(winners));
    forall a | a in entries ensures a.keyId in keys && keys[a.keyId] == a.authority {
      var i :| 0 <= i < |entries| && entries[i] == a;
      EntryIsActive(r, winners, entries, i);
    }
    forall id | id in keys ensures exists a :: a in entries && a.keyId == id {
      var p :| p in winners && p.owner == r.finkeys[id].owner;
      var i :| 0 <= i < |winners| && winners[i] == p;
      EntryIsCurrent(r, p.owner);
      assert entries[i] in entries && entries[i].keyId == id;
    }
    ListedIs(entries, keys);
  }

  /** What the stored list stands for after a proposal of the winners' entries, changed or not. */
  lemma ProposalResult(r: Registry, winners: seq<Producer>, entries: seq<AuthInfo>, last: seq<AuthInfo>, now: seq<AuthInfo>)
    requires Inv(r) && EntriesFor(r, winners, entries) && winners != []
    requires StrictlySortedBy(last, IdOfEntry) && r.proposed == Listed(last)
    requires forall i, j :: 0 <= i < j < |winners| ==> winners[i].owner != winners[j].owner
    requires now == if SameKeys(Sort(entries, IdOfEntry), last) then last else Sort(entries, IdOfEntry)
    ensures now != [] && DistinctBy(now, IdOfEntry) && Listed(now) == ActiveKeys(r, OwnerSet(winners))
    ensures PolicyKeysDistinct(PolicyFor(now)) && Inv(Propose(r, OwnerSet(winners)))
  {
    ProposalIsReady(r, winners, entries, last);
    FreshPolicyKeysDistinct(r, now, OwnerSet(winners));
  }

  /** What handing over the entries of the winners needs, and what it leaves in the list. */
  lemma ProposalIsReady(r: Registry, winners: seq<Producer>, entries: seq<AuthInfo>, last: seq<AuthInfo>)
    requires Inv(r) && EntriesFor(r, winners, entries) && DistinctBy(last, IdOfEntry) && r.proposed == Listed(last)
    requires forall i, j :: 0 <= i < j < |winners| ==> winners[i].owner != winners[j].owner
    ensures DistinctBy(entries, IdOfEntry) && UnitWeights(entries) && Inv(Propose(r, OwnerSet(winners)))
    ensures OwnerSet(winners) <= r.finalizers.Keys
    ensures var sorted := Sort(entries, IdOfEntry);
      && |sorted| == |entries| && DistinctBy(sorted, IdOfEntry)
      && Listed(sorted) == ActiveKeys(r, OwnerSet(winners))
      && (SameKeys(sorted, last) ==> Listed(last) == ActiveKeys(r, OwnerSet(winners)))
  {
    EntriesAreCurrent(r, winners, entries);
    SortKeepsListed(entries);
    SortIsStrict(entries, IdOfEntry);
    ProposeKeepsInv(r, OwnerSet(winners));
    var sorted := Sort(entries, IdOfEntry);
    if SameKeys(sorted, last) { SameKeysSameList(r, last, sorted, OwnerSet(winners)); }
  }

  /** An id that is registered stands in both tables for the same authority: that of its key. */
  lemma SameAuthority(r: Registry, names: set<Name>, id: KeyId)
    requires ProposedAgrees(r) && id in r.proposed && id in ActiveKeys(r, names)
    ensures r.proposed[id] == ActiveKeys(r, names)[id]
  {
  }

  /** A fresh proposal with the same keys as the stored list is the same table: ids are never reused,
      so the names cannot differ. */
  lemma SameKeysSameList(r: Registry, last: seq<AuthInfo>, sorted: seq<AuthInfo>, names: set<Name>)
    requires Inv(r) && DistinctBy(last, IdOfEntry) && DistinctBy(sorted, IdOfEntry) && r.proposed == Listed(last)
    requires Listed(sorted) == ActiveKeys(r, names) && SameKeys(sorted, last)
    ensures Listed(last) == ActiveKeys(r, names)
  {
    forall i | 0 <= i < |last| ensures last[i] == sorted[i] {
      EntryListed(last, i);
      EntryListed(sorted, i);
      SameAuthority(r, names, last[i].keyId);
    }
    assert last == sorted;
  }

  lemma {:induction false} CountOwners(w: seq<Producer>)
    requires forall i, j :: 0 <= i < j < |w| ==> w[i].owner != w[j].owner
    ensures |OwnerSet(w)| == |w|
  {
    if w != [] {
      var rest := w[..|w| - 1];
      CountOwners(rest);
      assert forall p :: p in w <==> p in rest || p == w[|w| - 1];
      assert OwnerSet(w) == OwnerSet(rest) + {w[|w| - 1].owner};
    }
  }

  lemma SwitchIff(r: Registry, list: seq<AuthInfo>, w: seq<Producer>, seats: nat)
    requires DistinctBy(list, IdOfEntry) && r.proposed == Listed(list)
    requires forall i, j :: 0 <= i < j < |w| ==> w[i].owner != w[j].owner
    ensures |OwnerSet(w)| == |w|
    ensures Switch(r, OwnerSet(w), seats) ==
      if list == [] && |w| == seats && w != [] then Some(Propose(r, OwnerSet(w))) else None
  {
    EmptyListIffNothingListed(list);
    CountOwners(w);
  }

  // ---- The schedule ----

  function ScheduledFor(p: Producer): Scheduled {
    Scheduled(p.owner, ProducerAuthority(p))
  }

  function Entries(w: seq<Producer>): seq<Scheduled> {
    seq(|w|, i requires 0 <= i < |w| => ScheduledFor(w[i]))
  }

  /** The winners with their signing authorities, in the order of their names, as the schedule lists them. */
  function Schedule(w: seq<Producer>): seq<Scheduled> {
    Sort(Entries(w), NameOf)
  }

  lemma EntriesMatch(w: seq<Producer>)
    ensures forall s :: s in Entries(w) <==> exists p :: p in w && s == ScheduledFor(p)
  {
    forall p | p in w ensures ScheduledFor(p) in Entries(w) {
      var i :| 0 <= i < |w| && w[i] == p;
      assert Entries(w)[i] == ScheduledFor(p);
    }
  }

  /** The schedule is strictly sorted by name and holds each winner once, with an authority that can sign. */
  lemma ScheduleIsSorted(w: seq<Producer>)
    requires forall i, j :: 0 <= i < j < |w| ==> w[i].owner != w[j].owner
    ensures forall i, j :: 0 <= i < j < |Schedule(w)| ==> Schedule(w)[i].owner < Schedule(w)[j].owner
    ensures forall s :: s in Schedule(w) <==> exists p :: p in w && s == ScheduledFor(p)
    ensures forall s :: s in Schedule(w) ==> s.authority.threshold != 0
    ensures |Schedule(w)| == |w|
  {
    SortIsStrict(Entries(w), NameOf);
    EntriesMatch(w);
    var s := Schedule(w);
    forall i, j | 0 <= i < j < |s| ensures s[i].owner < s[j].owner {
      assert NameOf(s[i]) < NameOf(s[j]);
    }
  }

  /** A schedule entry names its producer and who signs for it: the authority that the producer has registered, if it has
      one that can sign, and otherwise its single key. */
  ghost predicate SignsFor(s: Scheduled, p: Producer) {
    && s.owner == p.owner
    && (p.authority.Some? && 0 < p.authority.value.threshold ==> s.authority == p.authority.value)
    && (p.authority.None? || p.authority.value.threshold == 0 ==>
         s.authority.threshold == 1 && s.authority.keys == [KeyWeight(p.key, 1)])
  }

  /** A list of schedule entries is the schedule of some winners: strictly sorted by name, one entry for each winner's
      name and no other, and each signs for its winner. */
  ghost predicate SchedulesWinners(schedule: seq<Scheduled>, w: seq<Producer>) {
    && |schedule| == |w|
    && (forall i, j :: 0 <= i < j < |schedule| ==> schedule[i].owner < schedule[j].owner)
    && (set s | s in schedule :: s.owner) == OwnerSet(w)
    && (forall s, p :: s in schedule && p in w && s.owner == p.owner ==> SignsFor(s, p))
  }

  lemma EntrySigns(w: seq<Producer>, s: Scheduled, p: Producer)
    requires forall i, j :: 0 <= i < j < |w| ==> w[i].owner != w[j].owner
    requires s in Schedule(w) && p in w && s.owner == p.owner
    ensures SignsFor(s, p)
  {
    ScheduleIsSorted(w);
    var q :| q in w && s == ScheduledFor(q);
    var i :| 0 <= i < |w| && w[i] == p;
    var j :| 0 <= j < |w| && w[j] == q;
    assert i == j;
  }

  lemma ScheduleSigns(w: seq<Producer>)
    requires forall i, j :: 0 <= i < j < |w| ==> w[i].owner != w[j].owner
    ensures SchedulesWinners(Schedule(w), w)
  {
    ScheduleIsSorted(w);
    ScheduledOwners(w);
    forall s, p | s in Schedule(w) && p in w && s.owner == p.owner ensures SignsFor(s, p) {
      EntrySigns(w, s, p);
    }
  }

  /** Schedule and finalizer list cover the same owners: each scheduled producer is the description of exactly
      one listed authority and the other way round, and there are as many of both, at least one and at most 21. */
  lemma ScheduleMatchesFinalizers(r: Registry, idx: seq<Producer>)
    requires Inv(r) && VoteIndex(idx)
    ensures var w := Winners(idx, Ready(r.finalizers), 21);
      var p := ActiveKeys(r, OwnerSet(w));
      && |Schedule(w)| == |w| <= 21
      && (set s | s in Schedule(w) :: s.owner) == (set id | id in p :: p[id].description)
      && (forall i, j :: i in p && j in p && p[i].description == p[j].description ==> i == j)
  {
    var ready := Ready(r.finalizers);
    var w := Winners(idx, ready, MAX_PRODUCERS);
    WinnersCompete(idx, ready, MAX_PRODUCERS);
    ScheduleIsSorted(w);
    ScheduledOwners(w);
    ProposeKeepsInv(r, OwnerSet(w));
    ProposedOwners(r, OwnerSet(w));
  }

  lemma ProposedOwners(r: Registry, names: set<Name>)
    requires Inv(r) && names <= r.finalizers.Keys
    ensures (set id | id in ActiveKeys(r, names) :: ActiveKeys(r, names)[id].description) == names
  {
    ProposalIsExact(r, names);
    var p := ActiveKeys(r, names);
    forall n | n in names ensures n in set id | id in p :: p[id].description {
      assert r.finalizers[n].activeId in p;
    }
  }

  lemma ScheduledOwners(w: seq<Producer>)
    requires forall i, j :: 0 <= i < j < |w| ==> w[i].owner != w[j].owner
    ensures (set s | s in Schedule(w) :: s.owner) == OwnerSet(w)
  {
    ScheduleIsSorted(w);
    forall n | n in OwnerSet(w) ensures n in set s | s in Schedule(w) :: s.owner {
      var p :| p in w && p.owner == n;
      assert ScheduledFor(p) in Schedule(w);
    }
  }

  /** The check for an empty active key, made "just in case", never skips anybody. */
  lemma EveryFinalizerIsReady(r: Registry)
    requires Inv(r)
    ensures Ready(r.finalizers) == r.finalizers.Keys
  {
    forall n | n in r.finalizers ensures r.finalizers[n].activeBinary != [] {
      assert RowAgrees(r, n);
    }
  }
}
