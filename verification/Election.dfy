/** The scan of the producer vote index, and the size of the quorum of a finalizer policy. */
module Election {
  import opened Common

  datatype KeyWeight = KeyWeight(key: nat, weight: nat)

  /** Who signs the blocks of a producer. */
  datatype SigningAuthority = SigningAuthority(threshold: nat, keys: seq<KeyWeight>)

  /** A producer row; votes are any order-preserving image of the stored floating-point total. */
  datatype Producer = Producer(
    owner: Name, votes: int, isActive: bool, key: nat, authority: Option<SigningAuthority>)

  /** The registered authority, or the single producer key for a row without one or with threshold zero. */
  function ProducerAuthority(p: Producer): SigningAuthority {
    if p.authority.Some? && p.authority.value.threshold != 0 then p.authority.value
    else SigningAuthority(1, [KeyWeight(p.key, 1)])
  }

  /** The key of the vote index: active producers by falling votes, inactive ones after them. */
  function ByVotes(p: Producer): int {
    if p.isActive then -p.votes else p.votes
  }

  ghost predicate Before(p: Producer, q: Producer) {
    ByVotes(p) < ByVotes(q) || (ByVotes(p) == ByVotes(q) && p.owner < q.owner)
  }

  /** What walking the index from its beginning yields: every producer once, in index order. */
  ghost predicate VoteIndex(idx: seq<Producer>) {
    && (forall i, j :: 0 <= i < j < |idx| ==> Before(idx[i], idx[j]))
    && (forall i, j :: 0 <= i < j < |idx| ==> idx[i].owner != idx[j].owner)
    && (forall i :: 0 <= i < |idx| ==> 0 <= idx[i].votes)
  }

  predicate Electable(p: Producer, ready: set<Name>) {
    0 < p.votes && p.isActive && p.owner in ready
  }

  /** Every electable producer, in index order: the scan without its early stop. */
  function Electables(idx: seq<Producer>, ready: set<Name>): seq<Producer> {
    if idx == [] then []
    else
      var last := idx[|idx| - 1];
      Electables(idx[..|idx| - 1], ready) + if Electable(last, ready) then [last] else []
  }

  function Winners(idx: seq<Producer>, ready: set<Name>, seats: nat): seq<Producer> {
    var all := Electables(idx, ready);
    all[..Min(seats, |all|)]
  }

  lemma {:induction false} ElectablesAppend(a: seq<Producer>, b: seq<Producer>, ready: set<Name>)
    ensures Electables(a + b, ready) == Electables(a, ready) + Electables(b, ready)
  {
    if b == [] {
      assert a + b == a;
    } else {
      assert (a + b)[..|a + b| - 1] == a + b[..|b| - 1];
      ElectablesAppend(a, b[..|b| - 1], ready);
    }
  }

  lemma {:induction false} NoneElectable(s: seq<Producer>, ready: set<Name>)
    requires forall i :: 0 <= i < |s| ==> !Electable(s[i], ready)
    ensures Electables(s, ready) == []
  {
    if s != [] { NoneElectable(s[..|s| - 1], ready); }
  }

  /** Once the index shows an inactive producer or one without votes, nobody electable follows. */
  lemma StopIsFinal(idx: seq<Producer>, i: nat, ready: set<Name>)
    requires VoteIndex(idx) && i < |idx| && !(0 < idx[i].votes && idx[i].isActive)
    ensures Electables(idx[i..], ready) == []
  {
    forall j | 0 <= j < |idx[i..]| ensures !Electable(idx[i..][j], ready) {
      if j > 0 { assert Before(idx[i], idx[i + j]); }
    }
    NoneElectable(idx[i..], ready);
  }

  lemma {:induction false} ElectablesMember(idx: seq<Producer>, ready: set<Name>)
    ensures forall p :: p in Electables(idx, ready) <==> p in idx && Electable(p, ready)
  {
    if idx != [] {
      ElectablesMember(idx[..|idx| - 1], ready);
      assert idx == idx[..|idx| - 1] + [idx[|idx| - 1]];
    }
  }

  lemma {:induction false} ElectablesOrdered(idx: seq<Producer>, ready: set<Name>)
    requires VoteIndex(idx)
    ensures VoteIndex(Electables(idx, ready))
  {
    if idx != [] {
      var rest := idx[..|idx| - 1];
      ElectablesOrdered(rest, ready);
      ElectablesMember(rest, ready);
      var e := Electables(rest, ready);
      forall i | 0 <= i < |e|
        ensures Before(e[i], idx[|idx| - 1]) && e[i].owner != idx[|idx| - 1].owner
      {
        assert e[i] in rest;
      }
    }
  }

  lemma ElectablesStep(idx: seq<Producer>, i: nat, ready: set<Name>)
    requires i < |idx|
    ensures Electables(idx[..i + 1], ready)
         == Electables(idx[..i], ready) + if Electable(idx[i], ready) then [idx[i]] else []
  {
    assert idx[..i + 1][..i] == idx[..i];
  }

  /** Where the scan may stop: the winners are complete. */
  lemma ScanDone(idx: seq<Producer>, i: nat, ready: set<Name>, seats: nat)
    requires VoteIndex(idx) && i <= |idx| && |Electables(idx[..i], ready)| <= seats
    requires i == |idx| || |Electables(idx[..i], ready)| == seats || !(0 < idx[i].votes && idx[i].isActive)
    ensures Electables(idx[..i], ready) == Winners(idx, ready, seats)
  {
    assert idx == idx[..i] + idx[i..];
    ElectablesAppend(idx[..i], idx[i..], ready);
    if i < |idx| && !(0 < idx[i].votes && idx[i].isActive) {
      StopIsFinal(idx, i, ready);
    }
  }

  /** The scan that stops early: it leaves the index as soon as the seats are filled or a producer is
      inactive or has no votes, and still returns the first electable producers of the whole index. */
  method Scan(idx: seq<Producer>, ready: set<Name>, seats: nat) returns (elected: seq<Producer>)
    requires VoteIndex(idx)
    ensures elected == Winners(idx, ready, seats)
  {
    elected := [];
    var i := 0;
    while i < |idx| && |elected| < seats && 0 < idx[i].votes && idx[i].isActive
      invariant 0 <= i <= |idx| && |elected| <= seats
      invariant elected == Electables(idx[..i], ready)
    {
      ElectablesStep(idx, i, ready);
      if idx[i].owner in ready {
        elected := elected + [idx[i]];
      }
      i := i + 1;
    }
    ScanDone(idx, i, ready, seats);
  }

  lemma WinnersCompete(idx: seq<Producer>, ready: set<Name>, seats: nat)
    requires VoteIndex(idx)
    ensures forall p :: p in Winners(idx, ready, seats) ==> p in idx && Electable(p, ready)
    ensures VoteIndex(Winners(idx, ready, seats))
  {
    ElectablesMember(idx, ready);
    ElectablesOrdered(idx, ready);
  }

  lemma SeatsFilled(idx: seq<Producer>, ready: set<Name>, seats: nat)
    requires VoteIndex(idx)
    ensures |Winners(idx, ready, seats)| == Min(seats, |set p | p in idx && Electable(p, ready)|)
  {
    var all := Electables(idx, ready);
    ElectablesMember(idx, ready);
    ElectablesOrdered(idx, ready);
    CountDistinct(all);
    assert (set p | p in idx && Electable(p, ready)) == set p | p in all;
  }

  lemma LosersRankBelow(idx: seq<Producer>, ready: set<Name>, seats: nat, p: Producer)
    requires VoteIndex(idx) && p in idx && Electable(p, ready) && p !in Winners(idx, ready, seats)
    ensures var w := Winners(idx, ready, seats);
      |w| == seats && forall i :: 0 <= i < |w| ==> Before(w[i], p) && w[i].votes >= p.votes
  {
    var all := Electables(idx, ready);
    var w := Winners(idx, ready, seats);
    ElectablesMember(idx, ready);
    ElectablesOrdered(idx, ready);
    var k :| 0 <= k < |all| && all[k] == p;
    assert |w| <= k by { assert forall m :: 0 <= m < |w| ==> w[m] in w && w[m] == all[m]; }
    forall i | 0 <= i < |w| ensures Before(w[i], p) && w[i].votes >= p.votes {
      assert Before(all[i], all[k]) && all[i] in all;
    }
  }

  /** The producers that may be elected: active ones with votes that are ready as finalizers. */
  ghost function Candidates(idx: seq<Producer>, ready: set<Name>): set<Producer> {
    set p | p in idx && p.isActive && 0 < p.votes && p.owner in ready
  }

  /** The election is right: only candidates win, the seats are filled as far as there are candidates, winners come in
      non-increasing vote order, and nobody left out beats a winner. */
  lemma ElectionIsExact(idx: seq<Producer>, ready: set<Name>, seats: nat)
    requires VoteIndex(idx)
    ensures var w, all := Winners(idx, ready, seats), Candidates(idx, ready);
      && (forall p :: p in w ==> p in all)
      && |w| == (if |all| < seats then |all| else seats)
      && (forall i, j :: 0 <= i < j < |w| ==> w[i].votes >= w[j].votes && w[i].owner != w[j].owner)
      && (forall p :: p in all && p !in w ==>
           |w| == seats && forall i :: 0 <= i < |w| ==> w[i].votes >= p.votes)
  {
    var w := Winners(idx, ready, seats);
    assert Candidates(idx, ready) == set p | p in idx && Electable(p, ready);
    WinnersCompete(idx, ready, seats);
    SeatsFilled(idx, ready, seats);
    forall i, j | 0 <= i < j < |w| ensures w[i].votes >= w[j].votes && w[i].owner != w[j].owner {
      assert Before(w[i], w[j]) && w[i] in w && w[j] in w;
    }
    forall p | p in Candidates(idx, ready) && p !in w
      ensures |w| == seats && forall i :: 0 <= i < |w| ==> w[i].votes >= p.votes
    {
      LosersRankBelow(idx, ready, seats, p);
    }
  }

  lemma {:induction false} CountDistinct(s: seq<Producer>)
    requires forall i, j :: 0 <= i < j < |s| ==> s[i].owner != s[j].owner
    ensures |set p | p in s| == |s|
  {
    if s != [] {
      var rest := s[..|s| - 1];
      CountDistinct(rest);
      assert (set p | p in s) == (set p | p in rest) + {s[|s| - 1]};
      assert s[|s| - 1] !in rest;
    }
  }

  // ---- Finalizer policies ----

  datatype Authority = Authority(description: Name, weight: nat, publicKey: seq<bv8>)

  datatype Policy = Policy(threshold: nat, finalizers: seq<Authority>)

  function Threshold(n: nat): nat {
    n * 2 / 3 + 1
  }

  ghost predicate Sound(p: Policy) {
    && 0 < |p.finalizers|
    && (forall i :: 0 <= i < |p.finalizers| ==> p.finalizers[i].weight == 1)
    && p.threshold == Threshold(|p.finalizers|)
  }

  /** The vote that a set of positions of a policy carries. */
  ghost function Weight(p: Policy, voters: set<nat>): nat
    requires forall i :: i in voters ==> i < |p.finalizers|
  {
    if voters == {} then 0
    else
      var i :| i in voters;
      p.finalizers[i].weight + Weight(p, voters - {i})
  }

  lemma {:induction false} UnitWeight(p: Policy, voters: set<nat>)
    requires forall i :: i in voters ==> i < |p.finalizers|
    requires forall i :: 0 <= i < |p.finalizers| ==> p.finalizers[i].weight == 1
    ensures Weight(p, voters) == |voters|
  {
    if voters != {} {
      var i :| i in voters && Weight(p, voters) == p.finalizers[i].weight + Weight(p, voters - {i});
      UnitWeight(p, voters - {i});
    }
  }

  lemma {:induction false} BoundedSet(s: set<nat>, n: nat)
    requires forall i :: i in s ==> i < n
    ensures |s| <= n
  {
    if n > 0 {
      BoundedSet(s - {n - 1}, n - 1);
      if n - 1 in s { assert s == (s - {n - 1}) + {n - 1}; } else { assert s - {n - 1} == s; }
    } else {
      assert s == {};
    }
  }

  /** A quorum is reachable, and any two quorums share more than a third of the finalizers. */
  lemma QuorumsOverlap(p: Policy, a: set<nat>, b: set<nat>)
    requires Sound(p)
    requires (forall i :: i in a ==> i < |p.finalizers|) && (forall i :: i in b ==> i < |p.finalizers|)
    requires p.threshold <= Weight(p, a) && p.threshold <= Weight(p, b)
    ensures p.threshold <= |p.finalizers|
    ensures |p.finalizers| < 3 * Weight(p, a * b)
  {
    UnitWeight(p, a);
    UnitWeight(p, b);
    UnitWeight(p, a * b);
    BoundedSet(a + b, |p.finalizers|);
  }

  /** A set of finalizers reaches the threshold if and only if those that are missing are fewer than a third. */
  lemma QuorumIffFewMissing(p: Policy, a: set<nat>)
    requires Sound(p) && forall i :: i in a ==> i < |p.finalizers|
    ensures p.threshold <= Weight(p, a) <==> 3 * (|p.finalizers| - |a|) < |p.finalizers|
  {
    UnitWeight(p, a);
    BoundedSet(a, |p.finalizers|);
  }
}
