/** Runs and states at which the agreement of the finalizer tables, or the distinctness of listed keys, ends. */
module RegistryLimits {
  import opened Common
  import opened Election
  import opened RegistrySpec

  // ---- A list that names one public key twice ----

  function Two(a: Name, k: G1, b: Name, l: G1): Registry {
    Registry(map[0 := FinKey(a, k), 1 := FinKey(b, l)], map[a := Finalizer(0, k, 1), b := Finalizer(1, l, 1)],
             Some(1), map[])
  }

  function BothListed(a: Name, k: G1, b: Name, l: G1): Registry {
    Two(a, k, b, l).(proposed := map[0 := Authority(a, 1, k), 1 := Authority(b, 1, l)])
  }

  /** The first finalizer has deleted its key and the second has registered it. */
  function Taken(a: Name, k: G1, b: Name, l: G1): Registry {
    Registry(map[1 := FinKey(b, l), 2 := FinKey(b, k)], map[b := Finalizer(1, l, 2)],
             Some(2), BothListed(a, k, b, l).proposed)
  }

  function ListedTwice(a: Name, k: G1, b: Name, l: G1): Registry {
    Registry(Taken(a, k, b, l).finkeys, map[b := Finalizer(2, k, 2)],
             Some(2), map[0 := Authority(a, 1, k), 2 := Authority(b, 1, k)])
  }

  lemma RegisterTwo(a: Name, k: G1, b: Name, l: G1)
    requires a != b && k != l
    ensures Step(NO_KEYS, Register(a, k, true, true)) == AddKey(NO_KEYS, a, k, 0)
    ensures Step(AddKey(NO_KEYS, a, k, 0), Register(b, l, true, true)) == Two(a, k, b, l)
  {
    assert IdOf(NO_KEYS, k).None?;
    assert IdOf(AddKey(NO_KEYS, a, k, 0), l).None?;
  }

  lemma ListBoth(a: Name, k: G1, b: Name, l: G1)
    requires a != b && k != l
    ensures Step(Two(a, k, b, l), Elect({a, b})) == BothListed(a, k, b, l)
  {
    var r := Two(a, k, b, l);
    assert IsCurrent(r, 0) && IsCurrent(r, 1);
    assert {a, b} == r.finalizers.Keys && a in {a, b};
    assert Propose(r, {a, b}).proposed == BothListed(a, k, b, l).proposed;
  }

  /** The state between: the first finalizer is gone, its entry is not. */
  function FirstGone(a: Name, k: G1, b: Name, l: G1): Registry {
    Registry(map[1 := FinKey(b, l)], map[b := Finalizer(1, l, 1)], Some(1), BothListed(a, k, b, l).proposed)
  }

  lemma DeleteFirst(a: Name, k: G1, b: Name, l: G1)
    requires a != b && k != l
    ensures Step(BothListed(a, k, b, l), Delete(a, k)) == FirstGone(a, k, b, l)
  {
    var r := BothListed(a, k, b, l);
    assert Registered(r, k, 0) && IdOf(r, k) == Some(0);
    assert RemoveKey(r, a, 0) == FirstGone(a, k, b, l);
  }

  lemma RegisterAgain(a: Name, k: G1, b: Name, l: G1)
    requires a != b && k != l
    ensures Step(FirstGone(a, k, b, l), Register(b, k, true, true)) == Taken(a, k, b, l)
  {
    var r := FirstGone(a, k, b, l);
    assert IdOf(r, k).None?;
    assert AddKey(r, b, k, 2) == Taken(a, k, b, l);
  }

  lemma ActivateTaken(a: Name, k: G1, b: Name, l: G1)
    requires a != b && k != l
    ensures Step(Taken(a, k, b, l), Activate(b, k)) == ListedTwice(a, k, b, l)
  {
    var r := Taken(a, k, b, l);
    assert Registered(r, k, 2) && IdOf(r, k) == Some(2);
    assert OwnedKey(r, b, k) == Some(2);
    assert ActFinKey(r, b, k) == Some(ActivateKey(r, b, 2));
    assert (r.proposed - {1})[2 := Authority(b, 1, k)] == ListedTwice(a, k, b, l).proposed;
    assert r.finalizers[b := Finalizer(2, k, 2)] == ListedTwice(a, k, b, l).finalizers;
  }

  function TwiceStates(a: Name, k: G1, b: Name, l: G1): seq<Registry> {
    [NO_KEYS, AddKey(NO_KEYS, a, k, 0), Two(a, k, b, l), BothListed(a, k, b, l), FirstGone(a, k, b, l),
     Taken(a, k, b, l), ListedTwice(a, k, b, l)]
  }

  function TwiceActions(a: Name, k: G1, b: Name, l: G1): seq<Action> {
    [Register(a, k, true, true), Register(b, l, true, true), Elect({a, b}), Delete(a, k), Register(b, k, true, true),
     Activate(b, k)]
  }

  lemma SixSteps(s: seq<Registry>, a: seq<Action>)
    requires |s| == 7 && |a| == 6 && s[0] == NO_KEYS
    requires s[1] == Step(s[0], a[0]) && s[2] == Step(s[1], a[1]) && s[3] == Step(s[2], a[2])
    requires s[4] == Step(s[3], a[3]) && s[5] == Step(s[4], a[4]) && s[6] == Step(s[5], a[5])
    ensures Run(s, a)
  {
  }

  lemma TwiceRuns(a: Name, k: G1, b: Name, l: G1)
    requires a != b && k != l
    ensures Run(TwiceStates(a, k, b, l), TwiceActions(a, k, b, l))
  {
    RegisterTwo(a, k, b, l);
    ListBoth(a, k, b, l);
    DeleteFirst(a, k, b, l);
    RegisterAgain(a, k, b, l);
    ActivateTaken(a, k, b, l);
    SixSteps(TwiceStates(a, k, b, l), TwiceActions(a, k, b, l));
  }

  lemma FewRegistrations(a: Name, k: G1, b: Name, l: G1)
    ensures Registrations(TwiceActions(a, k, b, l)) <= 6
  {
    RegistrationsAreActions(TwiceActions(a, k, b, l));
  }

  lemma {:induction false} RegistrationsAreActions(actions: seq<Action>)
    ensures Registrations(actions) <= |actions|
  {
    if actions != [] { RegistrationsAreActions(actions[..|actions| - 1]); }
  }

  lemma TwiceFacts(a: Name, k: G1, b: Name, l: G1)
    requires a != b && k != l
    ensures ListedKeysDistinct(Taken(a, k, b, l)) && !NotListedForDeleted(Taken(a, k, b, l), b, k)
    ensures !ListedKeysDistinct(ListedTwice(a, k, b, l))
  {
    var r, r' := Taken(a, k, b, l), ListedTwice(a, k, b, l);
    assert 0 in r.proposed && 0 !in r.finkeys;
    assert 0 in r'.proposed && 2 in r'.proposed;
  }

  /** Any two finalizers and keys: the first deletes its listed key, the second registers and activates it,
      and the list names the key for both. Before that activation the state is sound and the listed keys distinct. */
  lemma KeyCanBeListedTwice(a: Name, k: G1, b: Name, l: G1) returns (states: seq<Registry>, actions: seq<Action>)
    requires a != b && k != l
    ensures Run(states, actions) && Roomy(states, actions) && |actions| == 6 && actions[5] == Activate(b, k)
    ensures Inv(states[5]) && states[5] == Taken(a, k, b, l) && states[6] == ListedTwice(a, k, b, l)
    ensures ListedKeysDistinct(states[5]) && !NotListedForDeleted(states[5], b, k) && !ListedKeysDistinct(states[6])
  {
    TwiceRuns(a, k, b, l);
    FewRegistrations(a, k, b, l);
    states, actions := TwiceStates(a, k, b, l), TwiceActions(a, k, b, l);
    ShortRunsAreSound(states, actions);
    TwiceFacts(a, k, b, l);
  }

  // ---- The id generator at its maximum ----

  /** The tables after a finalizer has registered its one key under an id, and after it has deleted it. */
  function Single(a: Name, k: G1, id: KeyId): Registry {
    Registry(map[id := FinKey(a, k)], map[a := Finalizer(id, k, 1)], Some(id), map[])
  }

  function Gone(id: KeyId): Registry {
    Registry(map[], map[], Some(id), map[])
  }

  /** A finalizer that registers and deletes its key in turn. */
  function TurnState(a: Name, k: G1, i: nat): Registry {
    if i == 0 then NO_KEYS else if i % 2 == 1 then Single(a, k, i / 2) else Gone(i / 2 - 1)
  }

  function Turn(a: Name, k: G1, i: nat): Action {
    if i % 2 == 0 then Register(a, k, true, true) else Delete(a, k)
  }

  lemma TurnRegisters(a: Name, k: G1, id: KeyId)
    requires id < TWO_64
    ensures Step(if id == 0 then NO_KEYS else Gone(id - 1), Register(a, k, true, true)) == Single(a, k, id)
  {
    var r := if id == 0 then NO_KEYS else Gone(id - 1);
    assert IdOf(r, k).None?;
    assert NextId(r.lastId) == id;
    assert AddKey(r, a, k, id) == Single(a, k, id);
  }

  lemma TurnDeletes(a: Name, k: G1, id: KeyId)
    ensures Step(Single(a, k, id), Delete(a, k)) == Gone(id)
  {
    var r := Single(a, k, id);
    assert Registered(r, k, id) && IdOf(r, k) == Some(id);
    assert RemoveKey(r, a, id) == Gone(id);
  }

  lemma TurnStep(a: Name, k: G1, i: nat)
    requires i / 2 < TWO_64
    ensures TurnState(a, k, i + 1) == Step(TurnState(a, k, i), Turn(a, k, i))
    ensures i % 2 == 0 ==> HasRoom(TurnState(a, k, i), a)
  {
    if i % 2 == 0 {
      TurnRegisters(a, k, i / 2);
      assert (i + 1) / 2 == i / 2;
    } else {
      TurnDeletes(a, k, i / 2);
      assert (i + 1) / 2 - 1 == i / 2;
    }
  }

  lemma TurnsAreReached(a: Name, k: G1, n: nat) returns (states: seq<Registry>, actions: seq<Action>)
    requires n <= 2 * TWO_64
    ensures Run(states, actions) && Roomy(states, actions) && |actions| == n
    ensures forall i :: 0 <= i <= n ==> states[i] == TurnState(a, k, i)
  {
    states := seq(n + 1, i requires 0 <= i => TurnState(a, k, i));
    actions := seq(n, i requires 0 <= i => Turn(a, k, i));
    forall i | 0 <= i < n
      ensures states[i + 1] == Step(states[i], actions[i])
      ensures actions[i].Register? ==> HasRoom(states[i], actions[i].owner)
    {
      TurnStep(a, k, i);
    }
  }

  lemma RestartBreaks(a: Name, k: G1, b: Name, l: G1)
    requires a != b && k != l && Inv(Single(a, k, TWO_64 - 1))
    ensures var r := Single(a, k, TWO_64 - 1);
      && RegFinKey(r, b, l, true, true).Some? && !RegistrationSafe(r, b, l)
      && var r' := RegFinKey(r, b, l, true, true).value;
      0 in r'.finkeys && r'.finkeys[0] == FinKey(b, l) && !Inv(r')
  {
    var r := Single(a, k, TWO_64 - 1);
    assert IdOf(r, l).None?;
    assert TWO_64 - 1 in r.finkeys;
    GeneratorRestarts();
    RegFinKeyKeepsInvIff(r, b, l);
  }

  /** The run on which a finalizer registers its key 2^64 times and deletes it in between has room throughout. Its last
      state is sound; the next registration is accepted, reuses the first id, deleted long ago, and breaks the agreement. */
  lemma GeneratorCanRestart(a: Name, k: G1, b: Name, l: G1) returns (states: seq<Registry>, actions: seq<Action>)
    requires a != b && k != l
    ensures Run(states, actions) && Roomy(states, actions) && |actions| == 2 * TWO_64 - 1
    ensures 0 in states[1].finkeys && 0 !in states[2].finkeys
    ensures var r := states[|actions|];
      && Inv(r) && r.lastId == Some(TWO_64 - 1)
      && RegFinKey(r, b, l, true, true).Some? && !RegistrationSafe(r, b, l)
      && var r' := RegFinKey(r, b, l, true, true).value;
      0 in r'.finkeys && r'.finkeys[0] == FinKey(b, l) && !Inv(r')
  {
    var n: nat := 2 * TWO_64 - 1;
    states, actions := TurnsAreReached(a, k, n);
    RunKeepsInv(states, actions, n);
    assert n % 2 == 1 && n / 2 == TWO_64 - 1;
    RestartBreaks(a, k, b, l);
  }

  // ---- The key count at its maximum ----

  function Bits(n: nat, width: nat): (s: KeyBytes)
    ensures |s| == width
  {
    if width == 0 then [] else [if n % 2 == 0 then 0 else 1] + Bits(n / 2, width - 1)
  }

  function Capacity(width: nat): nat {
    if width == 0 then 1 else 2 * Capacity(width - 1)
  }

  lemma {:induction false} BitsInjective(m: nat, n: nat, width: nat)
    requires m < Capacity(width) && n < Capacity(width) && Bits(m, width) == Bits(n, width)
    ensures m == n
    decreases width
  {
    if width > 0 {
      assert Bits(m, width)[1..] == Bits(m / 2, width - 1) && Bits(n, width)[1..] == Bits(n / 2, width - 1);
      assert Bits(m, width)[0] == Bits(n, width)[0];
      BitsInjective(m / 2, n / 2, width - 1);
    }
  }

  lemma {:induction false} CapacityGrows(v: nat, width: nat)
    requires v <= width
    ensures Capacity(v) <= Capacity(width)
    decreases width
  {
    if v < width { CapacityGrows(v, width - 1); }
  }

  /** The n-th of 2^32 distinct keys. */
  function NthKey(n: nat): G1 {
    Bits(n, 96)
  }

  lemma KeysDiffer(m: nat, n: nat)
    requires m != n && m < TWO_32 && n < TWO_32
    ensures NthKey(m) != NthKey(n)
  {
    if NthKey(m) == NthKey(n) {
      assert Capacity(8) == 256;
      assert Capacity(16) == 65536;
      assert Capacity(24) == 0x100_0000;
      assert Capacity(32) == TWO_32;
      CapacityGrows(32, 96);
      BitsInjective(m, n, 96);
    }
  }

  function FirstKeys(a: Name, n: nat): map<KeyId, FinKey> {
    map id: nat | id < n :: FinKey(a, NthKey(id))
  }

  /** The tables after one finalizer has registered that many keys. */
  function Many(a: Name, n: nat): Registry {
    if n == 0 then NO_KEYS
    else Registry(FirstKeys(a, n), map[a := Finalizer(0, NthKey(0), n)], Some(n - 1), map[])
  }

  lemma OneMoreRow(a: Name, n: nat)
    ensures FirstKeys(a, n)[n := FinKey(a, NthKey(n))] == FirstKeys(a, n + 1)
  {
  }

  lemma AddsUp(a: Name, n: nat)
    requires n + 1 < TWO_32
    ensures AddKey(Many(a, n), a, NthKey(n), n) == Many(a, n + 1)
  {
    OneMoreRow(a, n);
    if n == 0 {
      assert FirstKeys(a, 0) == map[];
    } else {
      var row := Finalizer(0, NthKey(0), n);
      assert map[a := row][a := row.(keyCount := n + 1)] == map[a := row.(keyCount := n + 1)];
    }
  }

  lemma KeyIsNew(a: Name, n: nat)
    requires n < TWO_32
    ensures IdOf(Many(a, n), NthKey(n)).None?
  {
    forall id | id in Many(a, n).finkeys ensures !Registered(Many(a, n), NthKey(n), id) {
      KeysDiffer(id, n);
    }
  }

  lemma OneMoreKey(a: Name, n: nat)
    requires n + 1 < TWO_32
    ensures Step(Many(a, n), Register(a, NthKey(n), true, true)) == Many(a, n + 1)
    ensures HasRoom(Many(a, n), a)
  {
    KeyIsNew(a, n);
    AddsUp(a, n);
    assert NextId(Many(a, n).lastId) == n;
  }

  lemma ManyAreReached(a: Name, n: nat) returns (states: seq<Registry>, actions: seq<Action>)
    requires n < TWO_32
    ensures Run(states, actions) && Roomy(states, actions) && |actions| == n && states[n] == Many(a, n)
  {
    states := seq(n + 1, i requires 0 <= i => Many(a, i));
    actions := seq(n, i requires 0 <= i => Register(a, NthKey(i), true, true));
    forall i | 0 <= i < n ensures states[i + 1] == Step(states[i], actions[i]) && HasRoom(states[i], actions[i].owner) {
      OneMoreKey(a, i);
    }
  }

  /** A registration beyond the last count is accepted, sets the count to zero and breaks the agreement. */
  lemma OneTooMany(r: Registry, a: Name, key: G1)
    requires Inv(r) && a in r.finalizers && r.finalizers[a].keyCount == TWO_32 - 1
    requires RegFinKey(r, a, key, true, true).Some?
    ensures var r' := RegFinKey(r, a, key, true, true).value;
      a in r'.finalizers && r'.finalizers[a].keyCount == 0 && !Inv(r')
  {
    RegFinKeyKeepsInvIff(r, a, key);
  }

  /** Such a state is reached: by the run on which one finalizer registers 2^32 - 1 keys. */
  lemma KeyCountCanWrap(a: Name) returns (states: seq<Registry>, actions: seq<Action>)
    ensures Run(states, actions) && Roomy(states, actions) && |actions| == TWO_32 - 1
    ensures var r := states[|actions|];
      && Inv(r) && a in r.finalizers && r.finalizers[a].keyCount == TWO_32 - 1
      && RegFinKey(r, a, NthKey(TWO_32 - 1), true, true).Some?
  {
    var n: nat := TWO_32 - 1;
    states, actions := ManyAreReached(a, n);
    RunKeepsInv(states, actions, n);
    KeyIsNew(a, n);
    assert NextId(Some(n - 1)) == n;
  }
}
