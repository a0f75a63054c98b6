/** The finalizer-key registry on values: four tables that must agree, the actions that change them,
    and what every run of those actions keeps. */
module RegistrySpec {
  import opened Common
  import opened Election

  type KeyId = nat
  type KeyBytes = seq<bv8>

  /** A decoded BLS public key in its 96-byte form. */
  type G1 = k: KeyBytes | |k| == 96 witness seq(96, _ => 0 as bv8)

  datatype FinKey = FinKey(owner: Name, binary: KeyBytes)

  datatype Finalizer = Finalizer(activeId: KeyId, activeBinary: KeyBytes, keyCount: nat)

  /** The tables finkeys, finalizers, finkeyidgen and lastpropfins; the last one as the authority
      that is listed under each key id. */
  datatype Registry = Registry(
    finkeys: map<KeyId, FinKey>,
    finalizers: map<Name, Finalizer>,
    lastId: Option<KeyId>,
    proposed: map<KeyId, Authority>)

  const NO_KEYS := Registry(map[], map[], None, map[])

  // ---- The invariant ----

  ghost function OwnedIds(finkeys: map<KeyId, FinKey>, n: Name): set<KeyId> {
    set id | id in finkeys && finkeys[id].owner == n
  }

  predicate Used(r: Registry, id: KeyId) {
    r.lastId.Some? && id <= r.lastId.value
  }

  ghost predicate IdsUsed(r: Registry) {
    && (forall id :: id in r.finkeys ==> Used(r, id))
    && (forall id :: id in r.proposed ==> Used(r, id))
    && (r.lastId.Some? ==> r.lastId.value < TWO_64)
  }

  ghost predicate KeysDistinct(r: Registry) {
    && (forall id :: id in r.finkeys ==> |r.finkeys[id].binary| == 96)
    && (forall i, j :: i in r.finkeys && j in r.finkeys && r.finkeys[i].binary == r.finkeys[j].binary ==> i == j)
  }

  ghost predicate RowAgrees(r: Registry, n: Name) {
    && (n in r.finalizers <==> OwnedIds(r.finkeys, n) != {})
    && (n in r.finalizers ==>
         && r.finalizers[n].keyCount == |OwnedIds(r.finkeys, n)| < TWO_32
         && r.finalizers[n].activeId in OwnedIds(r.finkeys, n)
         && r.finalizers[n].activeBinary == r.finkeys[r.finalizers[n].activeId].binary)
  }

  ghost predicate RowsAgree(r: Registry) {
    forall n :: RowAgrees(r, n)
  }

  ghost predicate IsCurrent(r: Registry, id: KeyId) {
    && id in r.finkeys
    && r.finkeys[id].owner in r.finalizers
    && r.finalizers[r.finkeys[id].owner].activeId == id
  }

  function AuthorityOf(k: FinKey): Authority {
    Authority(k.owner, 1, k.binary)
  }

  ghost predicate ProposedAgrees(r: Registry) {
    && (forall id :: id in r.proposed && id in r.finkeys ==>
         IsCurrent(r, id) && r.proposed[id] == AuthorityOf(r.finkeys[id]))
    && (forall id :: id in r.proposed ==> r.proposed[id].weight == 1)
    && (forall i, j :: i in r.proposed && j in r.proposed && r.proposed[i].description == r.proposed[j].description
         ==> i == j)
  }

  ghost predicate Inv(r: Registry) {
    IdsUsed(r) && KeysDistinct(r) && RowsAgree(r) && ProposedAgrees(r)
  }

  // ---- The actions ----

  /** The key id generator; the stored counter is an unsigned 64-bit number. */
  function NextId(lastId: Option<KeyId>): KeyId {
    if lastId.None? then 0 else (lastId.value + 1) % TWO_64
  }

  ghost predicate Registered(r: Registry, key: KeyBytes, id: KeyId) {
    id in r.finkeys && r.finkeys[id].binary == key
  }

  /** The lookup in the index of keys by hash, with hashing taken as injective. */
  ghost function IdOf(r: Registry, key: KeyBytes): Option<KeyId> {
    if id :| Registered(r, key, id) then Some(id) else None
  }

  function AddKey(r: Registry, owner: Name, key: KeyBytes, id: KeyId): Registry {
    r.(finkeys := r.finkeys[id := FinKey(owner, key)],
       lastId := Some(id),
       finalizers := r.finalizers[owner :=
         if owner in r.finalizers
         then r.finalizers[owner].(keyCount := (r.finalizers[owner].keyCount + 1) % TWO_32)
         else Finalizer(id, key, 1)])
  }

  ghost function RegFinKey(r: Registry, owner: Name, key: G1, isProducer: bool, popOk: bool): Option<Registry> {
    if !isProducer || IdOf(r, key).Some? || !popOk || NextId(r.lastId) in r.finkeys then None
    else Some(AddKey(r, owner, key, NextId(r.lastId)))
  }

  /** Both counters have room for one more key of this owner: neither the 64-bit id generator
      nor the 32-bit key count is at its maximum. */
  predicate HasRoom(r: Registry, owner: Name) {
    && r.lastId != Some(TWO_64 - 1)
    && (owner in r.finalizers ==> r.finalizers[owner].keyCount < TWO_32 - 1)
  }

  /** The key that an action names, when the finalizer has a row and owns that key. */
  ghost function OwnedKey(r: Registry, owner: Name, key: KeyBytes): Option<KeyId> {
    if owner in r.finalizers && r.finalizers[owner].keyCount > 0
       && IdOf(r, key).Some? && r.finkeys[IdOf(r, key).value].owner == owner
    then IdOf(r, key) else None
  }

  function ActivateKey(r: Registry, owner: Name, id: KeyId): Registry
    requires owner in r.finalizers && id in r.finkeys
  {
    var active := r.finalizers[owner].activeId;
    r.(finalizers := r.finalizers[owner := r.finalizers[owner].(activeId := id, activeBinary := r.finkeys[id].binary)],
       proposed :=
         if active in r.proposed
         then (r.proposed - {active})[id := r.proposed[active].(publicKey := r.finkeys[id].binary)]
         else r.proposed)
  }

  ghost function ActFinKey(r: Registry, owner: Name, key: G1): Option<Registry> {
    match OwnedKey(r, owner, key)
    case None => None
    case Some(id) =>
      if id == r.finalizers[owner].activeId then None else Some(ActivateKey(r, owner, id))
  }

  function RemoveKey(r: Registry, owner: Name, id: KeyId): Registry
    requires owner in r.finalizers && r.finalizers[owner].keyCount > 0
  {
    var row := r.finalizers[owner];
    r.(finkeys := r.finkeys - {id},
       finalizers := if row.keyCount == 1 then r.finalizers - {owner}
                     else r.finalizers[owner := row.(keyCount := row.keyCount - 1)])
  }

  ghost function DelFinKey(r: Registry, owner: Name, key: G1): Option<Registry> {
    match OwnedKey(r, owner, key)
    case None => None
    case Some(id) =>
      if id == r.finalizers[owner].activeId && r.finalizers[owner].keyCount != 1 then None
      else Some(RemoveKey(r, owner, id))
  }

  /** The authorities of the active keys of the named finalizers. */
  ghost function ActiveKeys(r: Registry, names: set<Name>): map<KeyId, Authority> {
    map id | id in r.finkeys && IsCurrent(r, id) && r.finkeys[id].owner in names :: AuthorityOf(r.finkeys[id])
  }

  ghost function Propose(r: Registry, names: set<Name>): Registry {
    r.(proposed := ActiveKeys(r, names))
  }

  /** The switch to Savanna: once, and with a finalizer for every seat of the last schedule. */
  ghost function Switch(r: Registry, names: set<Name>, seats: nat): Option<Registry> {
    if r.proposed != map[] || |names| != seats || names == {} then None else Some(Propose(r, names))
  }

  // ---- Each action keeps the invariant ----

  lemma IdOfUnique(r: Registry, id: KeyId)
    requires KeysDistinct(r) && id in r.finkeys
    ensures IdOf(r, r.finkeys[id].binary) == Some(id)
  {
    assert Registered(r, r.finkeys[id].binary, id);
  }

  /** A key id that the generator hands out while it has room was never used before. */
  lemma NextIdIsFresh(r: Registry)
    requires IdsUsed(r)
    ensures r.lastId != Some(TWO_64 - 1) <==> !Used(r, NextId(r.lastId))
    ensures r.lastId != Some(TWO_64 - 1) ==>
      forall id: KeyId :: Used(r, id) <==> r.lastId.Some? && id < NextId(r.lastId)
  {
  }

  /** A registration is accepted if and only if the finalizer is a producer, the proof of possession holds, no registered
      key has these bytes and the next id is free. */
  lemma RegistrationAcceptedIff(r: Registry, owner: Name, key: G1, isProducer: bool, popOk: bool)
    ensures RegFinKey(r, owner, key, isProducer, popOk).Some? <==>
      && isProducer && popOk
      && (forall id :: id in r.finkeys ==> r.finkeys[id].binary != key)
      && NextId(r.lastId) !in r.finkeys
  {
    if id :| id in r.finkeys && r.finkeys[id].binary == key { assert Registered(r, key, id); }
  }

  /** What an accepted registration leaves: the key under the next id, and a first row with it as the active key or one more
      key in the count; nothing else changes. */
  lemma RegistrationIsExact(r: Registry, owner: Name, key: G1)
    requires IdsUsed(r) && RegFinKey(r, owner, key, true, true).Some?
    ensures var r' := RegFinKey(r, owner, key, true, true).value;
      var id := if r.lastId.None? || r.lastId.value == TWO_64 - 1 then 0 else r.lastId.value + 1;
      && (forall i :: i in r'.finkeys <==> i in r.finkeys || i == id)
      && (forall i :: i in r.finkeys ==> r'.finkeys[i] == r.finkeys[i])
      && r'.finkeys[id] == FinKey(owner, key) && r'.lastId == Some(id)
      && r'.proposed == r.proposed && owner in r'.finalizers
      && (owner in r.finalizers ==>
           var was, now := r.finalizers[owner], r'.finalizers[owner];
           && now.activeId == was.activeId && now.activeBinary == was.activeBinary
           && (was.keyCount < TWO_32 - 1 ==> now.keyCount == was.keyCount + 1))
      && (owner !in r.finalizers ==> r'.finalizers[owner] == Finalizer(id, key, 1))
      && (forall n :: n != owner ==>
           && (n in r'.finalizers <==> n in r.finalizers)
           && (n in r.finalizers ==> r'.finalizers[n] == r.finalizers[n]))
  {
    GeneratorRestarts();
  }

  lemma OwnedKeyIff(r: Registry, owner: Name, key: G1, id: KeyId)
    requires Inv(r)
    ensures OwnedKey(r, owner, key) == Some(id) <==> id in r.finkeys && r.finkeys[id] == FinKey(owner, key)
  {
    assert RowAgrees(r, owner);
    if id in r.finkeys && r.finkeys[id] == FinKey(owner, key) {
      IdOfUnique(r, id);
      assert id in OwnedIds(r.finkeys, owner);
    }
  }

  /** An activation is accepted if and only if the finalizer has registered that key and it is not its active one. */
  lemma ActivationAcceptedIff(r: Registry, owner: Name, key: G1)
    requires Inv(r)
    ensures ActFinKey(r, owner, key).Some? <==>
      exists id :: id in r.finkeys && r.finkeys[id] == FinKey(owner, key) && !IsCurrent(r, id)
  {
    assert RowAgrees(r, owner);
    if ActFinKey(r, owner, key).Some? {
      var id := OwnedKey(r, owner, key).value;
      OwnedKeyIff(r, owner, key, id);
      assert !IsCurrent(r, id);
    }
    if id :| id in r.finkeys && r.finkeys[id] == FinKey(owner, key) && !IsCurrent(r, id) {
      OwnedKeyIff(r, owner, key, id);
    }
  }

  /** A deletion is accepted if and only if the finalizer has registered that key, and it is not its active one or it is
      its only one. */
  lemma DeletionAcceptedIff(r: Registry, owner: Name, key: G1)
    requires Inv(r)
    ensures DelFinKey(r, owner, key).Some? <==>
      exists id :: id in r.finkeys && r.finkeys[id] == FinKey(owner, key)
                   && (IsCurrent(r, id) ==> OwnedIds(r.finkeys, owner) == {id})
  {
    assert RowAgrees(r, owner);
    if DelFinKey(r, owner, key).Some? {
      var id := OwnedKey(r, owner, key).value;
      OwnedKeyIff(r, owner, key, id);
      if IsCurrent(r, id) { OneElement(OwnedIds(r.finkeys, owner), id); }
      assert r.finkeys[id] == FinKey(owner, key);
    }
    if id :| id in r.finkeys && r.finkeys[id] == FinKey(owner, key)
             && (IsCurrent(r, id) ==> OwnedIds(r.finkeys, owner) == {id}) {
      OwnedKeyIff(r, owner, key, id);
    }
  }

  lemma OneElement(s: set<KeyId>, id: KeyId)
    requires id in s && |s| == 1
    ensures s == {id}
  {
    assert |s - {id}| == 0;
  }

  /** What an accepted deletion leaves: the key is gone, the row too if it was the only one, and otherwise the row counts
      one less; nothing else changes, the proposed list included. */
  lemma DeletionIsExact(r: Registry, owner: Name, key: G1)
    requires Inv(r) && DelFinKey(r, owner, key).Some?
    ensures var r' := DelFinKey(r, owner, key).value;
      && (forall i :: i in r'.finkeys <==> i in r.finkeys && r.finkeys[i] != FinKey(owner, key))
      && (forall i :: i in r'.finkeys ==> r'.finkeys[i] == r.finkeys[i])
      && r'.lastId == r.lastId && r'.proposed == r.proposed
      && owner in r.finalizers
      && (owner in r'.finalizers <==> r.finalizers[owner].keyCount != 1)
      && (owner in r'.finalizers ==>
           r'.finalizers[owner] == r.finalizers[owner].(keyCount := r.finalizers[owner].keyCount - 1))
      && (forall n :: n != owner ==>
           && (n in r'.finalizers <==> n in r.finalizers)
           && (n in r.finalizers ==> r'.finalizers[n] == r.finalizers[n]))
  {
    var id := OwnedKey(r, owner, key).value;
    OwnedKeyIff(r, owner, key, id);
    forall i | i in r.finkeys && r.finkeys[i] == FinKey(owner, key) ensures i == id {
      assert r.finkeys[i].binary == r.finkeys[id].binary;
    }
  }

  /** Activation makes the named key the active one and puts it in the place of the old one in the proposal,
      if that was listed; every other finalizer and entry stays. */
  lemma ActivationIsExact(r: Registry, owner: Name, key: G1)
    requires Inv(r) && ActFinKey(r, owner, key).Some?
    ensures var r' := ActFinKey(r, owner, key).value;
      var was, now := r.finalizers[owner].activeId, r'.finalizers[owner].activeId;
      && r'.finkeys == r.finkeys && r'.finkeys[now] == FinKey(owner, key)
      && was != now && r'.finalizers[owner].activeBinary == key
      && (now in r'.proposed <==> was in r.proposed) && was !in r'.proposed
      && (now in r'.proposed ==> r'.proposed[now] == Authority(owner, 1, key))
      && (forall id :: id != was && id != now ==>
           && (id in r'.proposed <==> id in r.proposed)
           && (id in r.proposed ==> r'.proposed[id] == r.proposed[id]))
      && (forall n :: n != owner ==>
           && (n in r'.finalizers <==> n in r.finalizers)
           && (n in r.finalizers ==> r'.finalizers[n] == r.finalizers[n]))
  {
    ActivatedIdIsNotListed(r, owner, key);
  }

  lemma ActivateBack(r: Registry, owner: Name, id: KeyId)
    requires owner in r.finalizers && id in r.finkeys && id !in r.proposed
    requires var row := r.finalizers[owner];
      && row.activeId in r.finkeys && r.finkeys[row.activeId].binary == row.activeBinary
      && (row.activeId in r.proposed ==> r.proposed[row.activeId].publicKey == row.activeBinary)
    ensures ActivateKey(ActivateKey(r, owner, id), owner, r.finalizers[owner].activeId) == r
  {
    var r' := ActivateKey(ActivateKey(r, owner, id), owner, r.finalizers[owner].activeId);
    assert r'.finalizers == r.finalizers;
    assert r'.proposed == r.proposed;
  }

  /** Activating the old key again restores everything. */
  lemma ActivationIsReversible(r: Registry, owner: Name, key: G1)
    requires Inv(r) && ActFinKey(r, owner, key).Some?
    ensures |r.finalizers[owner].activeBinary| == 96
    ensures ActFinKey(ActFinKey(r, owner, key).value, owner, r.finalizers[owner].activeBinary) == Some(r)
  {
    assert RowAgrees(r, owner);
    ActivatedIdIsNotListed(r, owner, key);
    var r' := ActFinKey(r, owner, key).value;
    assert KeysDistinct(r');
    IdOfUnique(r', r.finalizers[owner].activeId);
    ActivateBack(r, owner, IdOf(r, key).value);
  }

  lemma OwnedInsert(finkeys: map<KeyId, FinKey>, id: KeyId, k: FinKey, n: Name)
    requires id !in finkeys
    ensures var was, now := OwnedIds(finkeys, n), OwnedIds(finkeys[id := k], n);
      if n == k.owner then now == was + {id} && |now| == |was| + 1 else now == was
  {
    var was, now := OwnedIds(finkeys, n), OwnedIds(finkeys[id := k], n);
    if n == k.owner { assert now == was + {id}; } else { assert now == was; }
  }

  lemma OwnedRemove(finkeys: map<KeyId, FinKey>, id: KeyId, n: Name)
    requires id in finkeys
    ensures var was, now := OwnedIds(finkeys, n), OwnedIds(finkeys - {id}, n);
      if n == finkeys[id].owner then now == was - {id} && |now| == |was| - 1 else now == was
  {
    var was, now := OwnedIds(finkeys, n), OwnedIds(finkeys - {id}, n);
    if n == finkeys[id].owner { assert now == was - {id}; } else { assert now == was; }
  }

  lemma AddKeyRow(r: Registry, owner: Name, key: KeyBytes, id: KeyId, n: Name)
    requires RowAgrees(r, n) && id !in r.finkeys
    ensures RowAgrees(AddKey(r, owner, key, id), n)
       <==> !(n == owner && n in r.finalizers && r.finalizers[n].keyCount == TWO_32 - 1)
  {
    OwnedInsert(r.finkeys, id, FinKey(owner, key), n);
  }

  lemma RegFinKeyKeepsInv(r: Registry, owner: Name, key: G1, isProducer: bool, popOk: bool)
    requires Inv(r) && RegFinKey(r, owner, key, isProducer, popOk).Some? && HasRoom(r, owner)
    ensures Inv(RegFinKey(r, owner, key, isProducer, popOk).value)
  {
    var r' := AddKey(r, owner, key, NextId(r.lastId));
    NextIdIsFresh(r);
    forall n ensures RowAgrees(r', n) {
      assert RowAgrees(r, n);
      AddKeyRow(r, owner, key, NextId(r.lastId), n);
    }
    assert KeysDistinct(r') by {
      forall i | i in r.finkeys ensures r.finkeys[i].binary != key {
        if r.finkeys[i].binary == key { assert Registered(r, key, i); }
      }
    }
  }

  /** The key count of a finalizer stays true to the number of keys it owns exactly while the 32-bit
      counter has room. */
  lemma KeyCountTrueIff(r: Registry, owner: Name, key: G1)
    requires Inv(r) && RegFinKey(r, owner, key, true, true).Some?
    ensures RowAgrees(RegFinKey(r, owner, key, true, true).value, owner)
       <==> (owner in r.finalizers ==> r.finalizers[owner].keyCount < TWO_32 - 1)
  {
    assert RowAgrees(r, owner);
    AddKeyRow(r, owner, key, NextId(r.lastId), owner);
  }

  /** What registration needs in full: room in the key count, and room in the id generator unless no key is
      registered and no other entry proposed when the generator starts again from zero. */
  ghost predicate RegistrationSafe(r: Registry, owner: Name, key: KeyBytes) {
    && (owner in r.finalizers ==> r.finalizers[owner].keyCount < TWO_32 - 1)
    && (r.lastId == Some(TWO_64 - 1) ==>
         r.finkeys == map[] && forall id :: id in r.proposed ==> id == 0 && r.proposed[id] == Authority(owner, 1, key))
  }

  lemma RestartedIds(r: Registry, owner: Name, key: G1)
    requires Inv(r) && r.lastId == Some(TWO_64 - 1) && RegistrationSafe(r, owner, key)
    ensures Inv(AddKey(r, owner, key, 0))
  {
    var r' := AddKey(r, owner, key, 0);
    forall n ensures RowAgrees(r', n) {
      assert RowAgrees(r, n);
      AddKeyRow(r, owner, key, 0, n);
    }
    assert RowAgrees(r, owner) && OwnedIds(r.finkeys, owner) == {};
    assert IsCurrent(r', 0);
  }

  /** An accepted registration keeps the tables in agreement if and only if it is safe. */
  lemma RegFinKeyKeepsInvIff(r: Registry, owner: Name, key: G1)
    requires Inv(r) && RegFinKey(r, owner, key, true, true).Some?
    ensures Inv(RegFinKey(r, owner, key, true, true).value) <==> RegistrationSafe(r, owner, key)
  {
    var r' := AddKey(r, owner, key, NextId(r.lastId));
    if RegistrationSafe(r, owner, key) {
      if HasRoom(r, owner) { RegFinKeyKeepsInv(r, owner, key, true, true); } else { RestartedIds(r, owner, key); }
    }
    if Inv(r') { SoundMeansSafe(r, owner, key, NextId(r.lastId)); }
  }

  lemma RestartedAlone(r: Registry, owner: Name, key: G1)
    requires Inv(r) && 0 !in r.finkeys && Inv(AddKey(r, owner, key, 0))
    ensures r.finkeys == map[]
    ensures forall id :: id in r.proposed ==> id == 0 && r.proposed[id] == Authority(owner, 1, key)
  {
    var r' := AddKey(r, owner, key, 0);
    forall id ensures id !in r.finkeys {
      assert id in r.finkeys ==> Used(r', id);
    }
    assert forall id :: id in r.proposed ==> Used(r', id);
    assert r'.finkeys[0] == FinKey(owner, key);
  }

  lemma CountHadRoom(r: Registry, owner: Name, key: KeyBytes, id: KeyId)
    requires RowAgrees(r, owner) && id !in r.finkeys && RowAgrees(AddKey(r, owner, key, id), owner)
    ensures owner in r.finalizers ==> r.finalizers[owner].keyCount < TWO_32 - 1
  {
    AddKeyRow(r, owner, key, id, owner);
  }

  lemma GeneratorRestarts()
    ensures NextId(Some(TWO_64 - 1)) == 0
  {
  }

  lemma SoundMeansSafe(r: Registry, owner: Name, key: G1, id: KeyId)
    requires Inv(r) && id == NextId(r.lastId) && id !in r.finkeys && Inv(AddKey(r, owner, key, id))
    ensures RegistrationSafe(r, owner, key)
  {
    assert RowAgrees(r, owner) && RowAgrees(AddKey(r, owner, key, id), owner);
    CountHadRoom(r, owner, key, id);
    GeneratorRestarts();
    if id == 0 { RestartedAlone(r, owner, key); }
  }

  lemma ActivationKeepsList(r: Registry, owner: Name, id: KeyId)
    requires Inv(r) && owner in r.finalizers && id in r.finkeys && id !in r.proposed && r.finkeys[id].owner == owner
    requires r.finalizers[owner].activeId in r.finkeys && r.finkeys[r.finalizers[owner].activeId].owner == owner
    ensures ProposedAgrees(ActivateKey(r, owner, id))
  {
    var r' := ActivateKey(r, owner, id);
    forall i | i in r'.proposed && i in r'.finkeys
      ensures IsCurrent(r', i) && r'.proposed[i] == AuthorityOf(r'.finkeys[i])
    {
      if i != id { assert i in r.proposed && IsCurrent(r, i); }
    }
  }

  lemma ActFinKeyKeepsInv(r: Registry, owner: Name, key: G1)
    requires Inv(r) && ActFinKey(r, owner, key).Some?
    ensures Inv(ActFinKey(r, owner, key).value)
  {
    var r' := ActFinKey(r, owner, key).value;
    assert RowAgrees(r, owner);
    ActivatedIdIsNotListed(r, owner, key);
    forall n ensures RowAgrees(r', n) {
      assert RowAgrees(r, n);
    }
    ActivationKeepsList(r, owner, IdOf(r, key).value);
  }

  /** The id that activation writes into the proposed list is never already there. */
  lemma ActivatedIdIsNotListed(r: Registry, owner: Name, key: G1)
    requires Inv(r) && ActFinKey(r, owner, key).Some?
    ensures IdOf(r, key).value !in r.proposed
    ensures r.finalizers[owner].activeId in r.proposed ==>
      r.proposed[r.finalizers[owner].activeId] == Authority(owner, 1, r.finalizers[owner].activeBinary)
  {
    var id := IdOf(r, key).value;
    assert RowAgrees(r, owner);
    assert r.finkeys[id].owner == owner && !IsCurrent(r, id);
  }

  lemma RemoveKeyRow(r: Registry, owner: Name, id: KeyId, n: Name)
    requires RowAgrees(r, n) && RowAgrees(r, owner)
    requires owner in r.finalizers && id in r.finkeys && r.finkeys[id].owner == owner
    requires 0 < r.finalizers[owner].keyCount
    requires id == r.finalizers[owner].activeId ==> r.finalizers[owner].keyCount == 1
    ensures RowAgrees(RemoveKey(r, owner, id), n)
  {
    OwnedRemove(r.finkeys, id, n);
  }

  lemma DelFinKeyKeepsInv(r: Registry, owner: Name, key: G1)
    requires Inv(r) && DelFinKey(r, owner, key).Some?
    ensures Inv(DelFinKey(r, owner, key).value)
  {
    var r' := DelFinKey(r, owner, key).value;
    var id := IdOf(r, key).value;
    assert RowAgrees(r, owner);
    forall n ensures RowAgrees(r', n) {
      assert RowAgrees(r, n);
      RemoveKeyRow(r, owner, id, n);
    }
    forall i | i in r'.proposed && i in r'.finkeys
      ensures IsCurrent(r', i) && r'.proposed[i] == AuthorityOf(r'.finkeys[i])
    {
      assert IsCurrent(r, i);
      if r.finkeys[i].owner == owner {
        OnlyKey(r, owner, id, i);
      }
    }
  }

  /** A finalizer whose count is one owns a single key. */
  lemma OnlyKey(r: Registry, owner: Name, i: KeyId, j: KeyId)
    requires RowAgrees(r, owner) && i in OwnedIds(r.finkeys, owner) && j in OwnedIds(r.finkeys, owner) && i != j
    ensures r.finalizers[owner].keyCount >= 2
  {
    assert {i, j} <= OwnedIds(r.finkeys, owner);
    var rest := OwnedIds(r.finkeys, owner) - {i, j};
    assert OwnedIds(r.finkeys, owner) == rest + {i, j};
  }

  lemma ProposeKeepsInv(r: Registry, names: set<Name>)
    requires Inv(r)
    ensures Inv(Propose(r, names))
  {
    var r' := Propose(r, names);
    forall n ensures RowAgrees(r', n) {
      assert RowAgrees(r, n);
    }
  }

  /** A fresh proposal lists every named finalizer exactly once, with the key that is active for it, and no public key
      twice; no other table changes. */
  lemma ProposalIsExact(r: Registry, names: set<Name>)
    requires Inv(r) && names <= r.finalizers.Keys
    ensures var r' := Propose(r, names);
      && r'.proposed == ActiveKeys(r, names)
      && r'.finkeys == r.finkeys && r'.finalizers == r.finalizers && r'.lastId == r.lastId
    ensures var p := Propose(r, names).proposed;
      && (forall n :: n in names ==>
           && r.finalizers[n].activeId in p
           && p[r.finalizers[n].activeId] == Authority(n, 1, r.finalizers[n].activeBinary))
      && (forall id :: id in p ==> p[id].description in names && r.finalizers[p[id].description].activeId == id)
      && (forall i, j :: i in p && j in p && p[i].publicKey == p[j].publicKey ==> i == j)
  {
    forall n | n in names ensures IsCurrent(r, r.finalizers[n].activeId) && r.finkeys[r.finalizers[n].activeId].owner == n
      && r.finkeys[r.finalizers[n].activeId].binary == r.finalizers[n].activeBinary
    {
      assert RowAgrees(r, n);
    }
  }

  lemma RemoveUndoesAdd(r: Registry, owner: Name, key: KeyBytes, id: KeyId)
    requires id !in r.finkeys && HasRoom(r, owner)
    requires owner in r.finalizers ==> 0 < r.finalizers[owner].keyCount
    ensures RemoveKey(AddKey(r, owner, key, id), owner, id) == r.(lastId := Some(id))
  {
    assert r.finkeys[id := FinKey(owner, key)] - {id} == r.finkeys;
    var row := AddKey(r, owner, key, id).finalizers[owner];
    if owner in r.finalizers {
      assert r.finalizers[owner := row][owner := r.finalizers[owner]] == r.finalizers;
    } else {
      assert r.finalizers[owner := row] - {owner} == r.finalizers;
    }
  }

  /** Deleting a key that was just registered leaves the keys and the finalizer rows as they were;
      only the id stays used up. */
  lemma DeleteUndoesRegister(r: Registry, owner: Name, key: G1)
    requires Inv(r) && RegFinKey(r, owner, key, true, true).Some? && HasRoom(r, owner)
    ensures var r' := RegFinKey(r, owner, key, true, true).value;
      DelFinKey(r', owner, key) == Some(r.(lastId := Some(NextId(r.lastId))))
  {
    var id := NextId(r.lastId);
    var r' := AddKey(r, owner, key, id);
    RegFinKeyKeepsInv(r, owner, key, true, true);
    assert RowAgrees(r, owner) && r'.finkeys[id] == FinKey(owner, key);
    IdOfUnique(r', id);
    RemoveUndoesAdd(r, owner, key, id);
  }

  // ---- Public keys in the proposed list ----

  ghost predicate PublicKeysDistinct(list: map<KeyId, Authority>) {
    forall i, j :: i in list && j in list && list[i].publicKey == list[j].publicKey ==> i == j
  }

  ghost predicate ListedKeysDistinct(r: Registry) {
    PublicKeysDistinct(r.proposed)
  }

  /** What can be read before an activation: its key is not still listed for a registration that was deleted. */
  ghost predicate NotListedForDeleted(r: Registry, owner: Name, key: KeyBytes)
    requires owner in r.finalizers
  {
    r.finalizers[owner].activeId in r.proposed ==>
      forall id :: id in r.proposed && id !in r.finkeys ==> r.proposed[id].publicKey != key
  }

  /** An entry of the list other than the activated one carries the activated key only for a deleted registration. */
  lemma OnlyDeletedClash(r: Registry, owner: Name, key: G1, id: KeyId)
    requires Inv(r) && ActFinKey(r, owner, key).Some? && id in r.proposed && r.proposed[id].publicKey == key
    ensures id !in r.finkeys
  {
    ActivatedIdIsNotListed(r, owner, key);
    if id in r.finkeys { IdOfUnique(r, id); }
  }

  /** Activation leaves distinct public keys in the list if and only if its key is not listed for a deleted registration. */
  lemma ActivationKeysDistinctIff(r: Registry, owner: Name, key: G1)
    requires Inv(r) && ListedKeysDistinct(r) && ActFinKey(r, owner, key).Some?
    ensures ListedKeysDistinct(ActFinKey(r, owner, key).value) <==> NotListedForDeleted(r, owner, key)
  {
    var r' := ActFinKey(r, owner, key).value;
    ActivationIsExact(r, owner, key);
    var was, now := r.finalizers[owner].activeId, r'.finalizers[owner].activeId;
    if was in r.proposed {
      assert was in r.finkeys by { assert RowAgrees(r, owner); }
      if id :| id in r.proposed && id !in r.finkeys && r.proposed[id].publicKey == key {
        assert id in r'.proposed && now in r'.proposed && id != now;
      } else {
        forall id | id in r.proposed ensures r.proposed[id].publicKey != key {
          if r.proposed[id].publicKey == key { OnlyDeletedClash(r, owner, key, id); }
        }
      }
    }
  }

  // ---- Runs ----

  datatype Action =
    | Register(owner: Name, key: G1, isProducer: bool, popOk: bool)
    | Activate(owner: Name, key: G1)
    | Delete(owner: Name, key: G1)
    | Elect(names: set<Name>)
    | SwitchOn(names: set<Name>, seats: nat)

  ghost function Attempt(r: Registry, a: Action): Option<Registry> {
    match a
    case Register(owner, key, isProducer, popOk) => RegFinKey(r, owner, key, isProducer, popOk)
    case Activate(owner, key) => ActFinKey(r, owner, key)
    case Delete(owner, key) => DelFinKey(r, owner, key)
    case Elect(names) => if names != {} && names <= r.finalizers.Keys then Some(Propose(r, names)) else None
    case SwitchOn(names, seats) => if names <= r.finalizers.Keys then Switch(r, names, seats) else None
  }

  ghost function Step(r: Registry, a: Action): Registry {
    match Attempt(r, a)
    case Some(r') => r'
    case None => r
  }

  /** A run from the empty tables. */
  ghost predicate Run(states: seq<Registry>, actions: seq<Action>) {
    && |states| == |actions| + 1
    && states[0] == NO_KEYS
    && (forall i :: 0 <= i < |actions| ==> states[i + 1] == Step(states[i], actions[i]))
  }

  /** Every registration finds room in both counters. */
  ghost predicate Roomy(states: seq<Registry>, actions: seq<Action>)
    requires Run(states, actions)
  {
    forall i :: 0 <= i < |actions| && actions[i].Register? ==> HasRoom(states[i], actions[i].owner)
  }

  /** A step other than a registration is safe, and so is one that fails. */
  ghost predicate SafeStep(r: Registry, a: Action) {
    a.Register? && Attempt(r, a).Some? ==> RegistrationSafe(r, a.owner, a.key)
  }

  lemma StepKeepsInvIff(r: Registry, a: Action)
    requires Inv(r)
    ensures Inv(Step(r, a)) <==> SafeStep(r, a)
  {
    if Attempt(r, a).Some? {
      match a
      case Register(owner, key, isProducer, popOk) => RegFinKeyKeepsInvIff(r, owner, key);
      case Activate(owner, key) => ActFinKeyKeepsInv(r, owner, key);
      case Delete(owner, key) => DelFinKeyKeepsInv(r, owner, key);
      case Elect(names) => ProposeKeepsInv(r, names);
      case SwitchOn(names, seats) => ProposeKeepsInv(r, names);
    }
  }

  lemma {:induction false} SafeRunKeepsInv(states: seq<Registry>, actions: seq<Action>, i: nat)
    requires Run(states, actions) && i < |states|
    requires forall k :: 0 <= k < i ==> SafeStep(states[k], actions[k])
    ensures Inv(states[i])
  {
    if i == 0 {
    } else {
      SafeRunKeepsInv(states, actions, i - 1);
      StepKeepsInvIff(states[i - 1], actions[i - 1]);
    }
  }

  /** Over any run whatever, all states are sound if and only if every accepted registration was safe. */
  lemma RunSoundIff(states: seq<Registry>, actions: seq<Action>)
    requires Run(states, actions)
    ensures (forall i :: 0 <= i < |states| ==> Inv(states[i]))
       <==> (forall i :: 0 <= i < |actions| ==> SafeStep(states[i], actions[i]))
  {
    if forall i :: 0 <= i < |actions| ==> SafeStep(states[i], actions[i]) {
      forall i | 0 <= i < |states| ensures Inv(states[i]) {
        SafeRunKeepsInv(states, actions, i);
      }
    }
    if forall i :: 0 <= i < |states| ==> Inv(states[i]) {
      forall i | 0 <= i < |actions| ensures SafeStep(states[i], actions[i]) {
        assert Inv(states[i]) && Inv(states[i + 1]);
        StepKeepsInvIff(states[i], actions[i]);
      }
    }
  }

  /** In every state that a run with room in both counters reaches, a finalizer row exists exactly for the owners of
      keys, with the true count and an owned active key; keys are distinct; and a listed id that is still registered
      is its owner's active key. */
  lemma RunKeepsInv(states: seq<Registry>, actions: seq<Action>, i: nat)
    requires Run(states, actions) && Roomy(states, actions) && i < |states|
    ensures Inv(states[i])
  {
    assert forall k :: 0 <= k < i ==> SafeStep(states[k], actions[k]);
    SafeRunKeepsInv(states, actions, i);
  }

  function Registrations(actions: seq<Action>): nat {
    if actions == [] then 0
    else Registrations(actions[..|actions| - 1]) + if actions[|actions| - 1].Register? then 1 else 0
  }

  lemma {:induction false} RegistrationsGrow(actions: seq<Action>, i: nat)
    requires i <= |actions|
    ensures Registrations(actions[..i]) <= Registrations(actions)
    decreases |actions|
  {
    if i < |actions| {
      assert actions[..|actions| - 1][..i] == actions[..i];
      RegistrationsGrow(actions[..|actions| - 1], i);
    } else {
      assert actions[..i] == actions;
    }
  }

  /** Neither counter runs ahead of the number of registrations. */
  ghost predicate CountersWithin(r: Registry, n: nat) {
    && (r.lastId.Some? ==> r.lastId.value < n)
    && (forall m :: m in r.finalizers ==> r.finalizers[m].keyCount <= n)
  }

  lemma StepCounts(r: Registry, a: Action, n: nat)
    requires CountersWithin(r, n)
    ensures CountersWithin(Step(r, a), if a.Register? then n + 1 else n)
  {
  }

  lemma {:induction false} CountersBounded(states: seq<Registry>, actions: seq<Action>, i: nat)
    requires Run(states, actions) && i < |states|
    ensures CountersWithin(states[i], Registrations(actions[..i]))
  {
    if i > 0 {
      CountersBounded(states, actions, i - 1);
      assert actions[..i][..i - 1] == actions[..i - 1];
      StepCounts(states[i - 1], actions[i - 1], Registrations(actions[..i - 1]));
    }
  }

  lemma RoomAt(states: seq<Registry>, actions: seq<Action>, i: nat)
    requires Run(states, actions) && i < |actions| && actions[i].Register? && Registrations(actions) < TWO_32
    ensures HasRoom(states[i], actions[i].owner)
  {
    CountersBounded(states, actions, i);
    assert actions[..i + 1][..i] == actions[..i];
    RegistrationsGrow(actions, i + 1);
  }

  /** A run with fewer than 2^32 registrations always has room, so all its states are sound. */
  lemma ShortRunsAreSound(states: seq<Registry>, actions: seq<Action>)
    requires Run(states, actions) && Registrations(actions) < TWO_32
    ensures Roomy(states, actions) && forall i :: 0 <= i < |states| ==> Inv(states[i])
  {
    forall i | 0 <= i < |actions| && actions[i].Register? ensures HasRoom(states[i], actions[i].owner) {
      RoomAt(states, actions, i);
    }
    forall i | 0 <= i < |states| ensures Inv(states[i]) {
      RunKeepsInv(states, actions, i);
    }
  }

  /** One step: used ids stay used, and a used id that is not in the key table does not come back. */
  lemma StepRetires(r: Registry, a: Action, id: KeyId)
    requires Inv(r) && (a.Register? ==> HasRoom(r, a.owner)) && Used(r, id)
    ensures Used(Step(r, a), id)
    ensures id in Step(r, a).finkeys ==> id in r.finkeys && Step(r, a).finkeys[id] == r.finkeys[id]
  {
    NextIdIsFresh(r);
  }

  /** A key id names one key of one finalizer forever: once its key is deleted the id never appears again,
      and while it is there its row never changes. */
  lemma {:induction false} IdsAreNeverReused(states: seq<Registry>, actions: seq<Action>, i: nat, j: nat, id: KeyId)
    requires Run(states, actions) && Roomy(states, actions) && i <= j < |states| && Used(states[i], id)
    ensures Used(states[j], id)
    ensures id in states[j].finkeys ==> id in states[i].finkeys && states[j].finkeys[id] == states[i].finkeys[id]
  {
    if i < j {
      IdsAreNeverReused(states, actions, i, j - 1, id);
      RunKeepsInv(states, actions, j - 1);
      StepRetires(states[j - 1], actions[j - 1], id);
    }
  }

  /** Every registered key was registered by its owner, a producer, with a valid proof of possession, in an accepted step
      that handed out its id; and it has been there ever since. */
  lemma {:induction false} KeyWasRegistered(states: seq<Registry>, actions: seq<Action>, i: nat, id: KeyId) returns (j: nat)
    requires Run(states, actions) && i < |states| && id in states[i].finkeys
    ensures j < i && Attempt(states[j], actions[j]).Some?
    ensures var k := states[i].finkeys[id];
      && actions[j].Register? && actions[j].owner == k.owner && actions[j].key == k.binary
      && actions[j].isProducer && actions[j].popOk
      && id !in states[j].finkeys
      && (forall m :: j < m <= i ==> id in states[m].finkeys && states[m].finkeys[id] == k)
  {
    assert i > 0;
    RunStep(states, actions, i - 1);
    if id in states[i - 1].finkeys && states[i - 1].finkeys[id] == states[i].finkeys[id] {
      j := KeyWasRegistered(states, actions, i - 1, id);
    } else {
      j := i - 1;
    }
  }

  /** Ids are handed out in strictly increasing order over the whole run. */
  lemma IdsIncrease(states: seq<Registry>, actions: seq<Action>, i: nat, j: nat)
    requires Run(states, actions) && Roomy(states, actions) && i < j < |actions|
    requires actions[i].Register? && Attempt(states[i], actions[i]).Some?
    requires actions[j].Register? && Attempt(states[j], actions[j]).Some?
    ensures NextId(states[i].lastId) < NextId(states[j].lastId)
    ensures Used(states[j + 1], NextId(states[j].lastId)) && !Used(states[j], NextId(states[j].lastId))
  {
    var id := NextId(states[i].lastId);
    IdsAreNeverReused(states, actions, i + 1, j, id);
    RunKeepsInv(states, actions, j);
    NextIdIsFresh(states[j]);
  }

  lemma ProposalIsNotEmpty(r: Registry, names: set<Name>)
    requires RowsAgree(r) && names != {} && names <= r.finalizers.Keys
    ensures Propose(r, names).proposed != map[]
  {
    var n :| n in names;
    assert RowAgrees(r, n);
    assert r.finalizers[n].activeId in ActiveKeys(r, names);
  }

  lemma StepStaysOnSavanna(r: Registry, a: Action)
    requires RowsAgree(r) && r.proposed != map[]
    ensures Step(r, a).proposed != map[]
  {
    if Attempt(r, a).Some? {
      if a.Elect? {
        ProposalIsNotEmpty(r, a.names);
      } else if a.Activate? {
        var active := r.finalizers[a.owner].activeId;
        var id :| id in r.proposed;
        if active in r.proposed { assert IdOf(r, a.key).value in Step(r, a).proposed; } else { assert id in Step(r, a).proposed; }
      }
    }
  }

  /** Once finalizers have been proposed there always are some. */
  lemma {:induction false} SavannaIsFinal(states: seq<Registry>, actions: seq<Action>, i: nat, j: nat)
    requires Run(states, actions) && i <= j < |states| && states[i].proposed != map[]
    requires forall k :: 0 <= k < j ==> SafeStep(states[k], actions[k])
    ensures states[j].proposed != map[]
  {
    if i < j {
      SavannaIsFinal(states, actions, i, j - 1);
      SafeRunKeepsInv(states, actions, j - 1);
      StepStaysOnSavanna(states[j - 1], actions[j - 1]);
    }
  }

  lemma AcceptedProposes(r: Registry, a: Action)
    requires RowsAgree(r) && (a.Elect? || a.SwitchOn?) && Attempt(r, a).Some?
    ensures Step(r, a).proposed != map[]
  {
    ProposalIsNotEmpty(r, a.names);
  }

  lemma SwitchRefused(r: Registry, a: Action)
    requires a.SwitchOn? && r.proposed != map[]
    ensures Attempt(r, a).None?
  {
  }

  lemma RunStep(states: seq<Registry>, actions: seq<Action>, i: nat)
    requires Run(states, actions) && i < |actions|
    ensures states[i + 1] == Step(states[i], actions[i])
  {
  }

  /** The switch succeeds at most once, and never after an election that proposed finalizers. */
  lemma SwitchSucceedsOnce(states: seq<Registry>, actions: seq<Action>, i: nat, j: nat)
    requires Run(states, actions) && i < j < |actions|
    requires forall k :: 0 <= k < j ==> SafeStep(states[k], actions[k])
    requires (actions[i].Elect? || actions[i].SwitchOn?) && Attempt(states[i], actions[i]).Some? && actions[j].SwitchOn?
    ensures Attempt(states[j], actions[j]).None?
  {
    var r, r' := states[i], states[j];
    SafeRunKeepsInv(states, actions, i);
    AcceptedProposes(r, actions[i]);
    RunStep(states, actions, i);
    SavannaIsFinal(states, actions, i + 1, j);
    SwitchRefused(r', actions[j]);
  }

  // ---- Public keys over a run ----

  /** Whether a step keeps the public keys of the list distinct. */
  ghost predicate CleanStep(r: Registry, a: Action) {
    a.Activate? && Attempt(r, a).Some? ==> NotListedForDeleted(r, a.owner, a.key)
  }

  lemma StepKeysDistinctIff(r: Registry, a: Action)
    requires Inv(r) && ListedKeysDistinct(r)
    ensures ListedKeysDistinct(Step(r, a)) <==> CleanStep(r, a)
  {
    if Attempt(r, a).Some? {
      match a
      case Register(_, _, _, _) =>
      case Activate(owner, key) => ActivationKeysDistinctIff(r, owner, key);
      case Delete(_, _) =>
      case Elect(names) => ProposalIsExact(r, names);
      case SwitchOn(names, _) => ProposalIsExact(r, names);
    }
  }

  lemma {:induction false} CleanRunKeysDistinct(states: seq<Registry>, actions: seq<Action>, i: nat)
    requires Run(states, actions) && i < |states|
    requires forall k :: 0 <= k < i ==> SafeStep(states[k], actions[k]) && CleanStep(states[k], actions[k])
    ensures ListedKeysDistinct(states[i])
  {
    if i > 0 {
      CleanRunKeysDistinct(states, actions, i - 1);
      SafeRunKeepsInv(states, actions, i - 1);
      StepKeysDistinctIff(states[i - 1], actions[i - 1]);
    }
  }

  /** Over a run the list always has distinct public keys if and only if no accepted activation used a key that was
      still listed for a deleted registration. */
  lemma RunKeysDistinctIff(states: seq<Registry>, actions: seq<Action>)
    requires Run(states, actions)
    requires forall i :: 0 <= i < |actions| ==> SafeStep(states[i], actions[i])
    ensures (forall i :: 0 <= i < |states| ==> ListedKeysDistinct(states[i]))
       <==> (forall i :: 0 <= i < |actions| ==> CleanStep(states[i], actions[i]))
  {
    if forall i :: 0 <= i < |actions| ==> CleanStep(states[i], actions[i]) {
      forall i | 0 <= i < |states| ensures ListedKeysDistinct(states[i]) {
        CleanRunKeysDistinct(states, actions, i);
      }
    }
    if forall i :: 0 <= i < |states| ==> ListedKeysDistinct(states[i]) {
      forall i | 0 <= i < |actions| ensures CleanStep(states[i], actions[i]) {
        assert ListedKeysDistinct(states[i]) && ListedKeysDistinct(states[i + 1]);
        SafeRunKeepsInv(states, actions, i);
        StepKeysDistinctIff(states[i], actions[i]);
      }
    }
  }
}
