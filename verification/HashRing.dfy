/**
  The consistent-hash ring as a value: a map from virtual-node hashes to servers.
  A server brings a sequence of replica hashes; hashes may collide.
 */
module HashRing {

  type Ring<S> = map<int, S>

  // ----- lookup -----

  /** `k` is the first key from `h` on, going around the ring. */
  ghost predicate IsNext(keys: set<int>, h: int, k: int) {
    && k in keys
    && if h <= k then (forall j :: j in keys && h <= j ==> k <= j)
       else (forall j :: j in keys ==> j < h && k <= j)
  }

  lemma {:induction false} Least(keys: set<int>) returns (k: int)
    requires keys != {}
    ensures k in keys && forall j :: j in keys ==> k <= j
  {
    assert (forall j :: j !in keys) ==> keys == {};
    k :| k in keys;
    var rest := keys - {k};
    assert forall j :: j in keys ==> j == k || j in rest;
    if rest != {} {
      var k' := Least(rest);
      k := if k' < k then k' else k;
    }
  }

  lemma NextExists(keys: set<int>, h: int)
    requires keys != {}
    ensures exists k :: IsNext(keys, h, k)
  {
    var from := set j | j in keys && h <= j;
    var k := Least(if from != {} then from else keys);
    assert forall j :: j in keys && h <= j ==> j in from;
    if from == {} {
      forall j | j in keys ensures j < h {
        assert j !in from;
      }
    }
    assert IsNext(keys, h, k);
  }

  ghost function NextOf(keys: set<int>, h: int): (k: int)
    requires keys != {}
    ensures IsNext(keys, h, k)
  {
    NextExists(keys, h);
    var k :| IsNext(keys, h, k);
    k
  }

  /** The server that answers for hash `h`. */
  ghost function OwnerOf<S>(ring: Ring<S>, h: int): S
    requires ring != map[]
  {
    ring[NextOf(ring.Keys, h)]
  }

  lemma OwnerIs<S>(ring: Ring<S>, h: int, k: int)
    requires IsNext(ring.Keys, h, k)
    ensures OwnerOf(ring, h) == ring[k]
  {
    assert NextOf(ring.Keys, h) == k;
  }

  lemma SameRing<S>(a: Ring<S>, b: Ring<S>)
    requires forall k :: k in a <==> k in b
    requires forall k :: k in a ==> a[k] == b[k]
    ensures a == b
  {
    assert forall k :: k in a ==> k in b && a[k] == b[k];
    assert forall k :: k in b ==> k in a && a[k] == b[k];
  }

  // ----- adding and removing the replicas of a server -----

  /** One virtual node for each hash that is still free, in turn. */
  ghost function AddAll<S>(ring: Ring<S>, s: S, hashes: seq<int>): Ring<S>
    decreases hashes
  {
    if hashes == [] then ring
    else AddAll(if hashes[0] in ring then ring else ring[hashes[0] := s], s, hashes[1..])
  }

  /** The virtual nodes at these hashes that belong to the server go, in turn. */
  ghost function RemoveAll<S>(ring: Ring<S>, s: S, hashes: seq<int>): Ring<S>
    decreases hashes
  {
    if hashes == [] then ring
    else RemoveAll(if hashes[0] in ring && ring[hashes[0]] == s then ring - {hashes[0]} else ring, s, hashes[1..])
  }

  lemma AddAllStep<S>(ring: Ring<S>, s: S, hashes: seq<int>, i: nat)
    requires i < |hashes|
    ensures
      var ring' := if hashes[i] in ring then ring else ring[hashes[i] := s];
      AddAll(ring, s, hashes[i..]) == AddAll(ring', s, hashes[i + 1..])
  {
  }

  lemma RemoveAllStep<S>(ring: Ring<S>, s: S, hashes: seq<int>, i: nat)
    requires i < |hashes|
    ensures
      var ring' := if hashes[i] in ring && ring[hashes[i]] == s then ring - {hashes[i]} else ring;
      RemoveAll(ring, s, hashes[i..]) == RemoveAll(ring', s, hashes[i + 1..])
  {
  }

  lemma EndOf<S>(ring: Ring<S>, s: S, hashes: seq<int>)
    ensures AddAll(ring, s, hashes[|hashes|..]) == ring
    ensures RemoveAll(ring, s, hashes[|hashes|..]) == ring
    ensures hashes[0..] == hashes
  {
  }

  lemma {:induction false} AddAllIs<S>(ring: Ring<S>, s: S, hashes: seq<int>)
    ensures forall k :: k in AddAll(ring, s, hashes) <==> k in ring || k in hashes
    ensures forall k :: k in AddAll(ring, s, hashes) ==>
      AddAll(ring, s, hashes)[k] == if k in ring then ring[k] else s
    decreases hashes
  {
    if hashes != [] {
      var h := hashes[0];
      AddAllIs(if h in ring then ring else ring[h := s], s, hashes[1..]);
      assert forall k :: k in hashes <==> k == h || k in hashes[1..];
    }
  }

  lemma {:induction false} RemoveAllIs<S>(ring: Ring<S>, s: S, hashes: seq<int>)
    ensures forall k :: k in RemoveAll(ring, s, hashes) <==> k in ring && !(ring[k] == s && k in hashes)
    ensures forall k :: k in RemoveAll(ring, s, hashes) ==> RemoveAll(ring, s, hashes)[k] == ring[k]
    decreases hashes
  {
    if hashes != [] {
      var h := hashes[0];
      RemoveAllIs(if h in ring && ring[h] == s then ring - {h} else ring, s, hashes[1..]);
      assert forall k :: k in hashes <==> k == h || k in hashes[1..];
    }
  }

  /** Adding a server and removing it again restores the ring, collisions or not. */
  lemma AddThenRemove<S>(ring: Ring<S>, s: S, hashes: seq<int>)
    requires forall k :: k in ring ==> ring[k] != s
    ensures RemoveAll(AddAll(ring, s, hashes), s, hashes) == ring
  {
    AddAllIs(ring, s, hashes);
    RemoveAllIs(AddAll(ring, s, hashes), s, hashes);
    var back := RemoveAll(AddAll(ring, s, hashes), s, hashes);
    assert forall k :: k in back <==> k in ring;
    assert forall k :: k in back ==> back[k] == ring[k];
  }

  /** Minimal movement: a new server takes over some hashes, and no other hash moves. */
  lemma AddMovesOnlyToNew<S>(ring: Ring<S>, s: S, hashes: seq<int>, h: int)
    requires ring != map[]
    ensures AddAll(ring, s, hashes) != map[]
    ensures
      var now := OwnerOf(AddAll(ring, s, hashes), h);
      now == OwnerOf(ring, h) || now == s
  {
    AddAllIs(ring, s, hashes);
    var k := NextOf(ring.Keys, h);
    assert k in AddAll(ring, s, hashes);
    var k' := NextOf(AddAll(ring, s, hashes).Keys, h);
    if k' in ring {
      assert IsNext(ring.Keys, h, k');
      OwnerIs(ring, h, k');
    }
  }

  /** Minimal movement: exactly the hashes of the removed server move. */
  lemma RemoveMovesOnlyItsOwn<S>(ring: Ring<S>, s: S, hashes: seq<int>, h: int)
    requires ring != map[] && RemoveAll(ring, s, hashes) != map[]
    requires forall k :: k in ring && ring[k] == s ==> k in hashes
    ensures OwnerOf(RemoveAll(ring, s, hashes), h) == OwnerOf(ring, h) <==> OwnerOf(ring, h) != s
  {
    RemoveAllIs(ring, s, hashes);
    var k := NextOf(ring.Keys, h);
    var ring' := RemoveAll(ring, s, hashes);
    if ring[k] != s {
      assert IsNext(ring'.Keys, h, k);
      OwnerIs(ring', h, k);
    } else {
      assert NextOf(ring'.Keys, h) in ring';
    }
  }

  /** Every hash keeps its owner unless it moves to `s`. */
  ghost predicate OnlyGains<S>(ring: Ring<S>, ring': Ring<S>, s: S) {
    ring != map[] ==> ring' != map[] && forall h :: OwnerOf(ring', h) == OwnerOf(ring, h) || OwnerOf(ring', h) == s
  }

  /** The hashes of `s`, and no others, change their owner. */
  ghost predicate OnlyLoses<S>(ring: Ring<S>, ring': Ring<S>, s: S) {
    ring != map[] && ring' != map[] ==> forall h :: OwnerOf(ring', h) == OwnerOf(ring, h) <==> OwnerOf(ring, h) != s
  }

  lemma GainsMeans<S>(ring: Ring<S>, ring': Ring<S>, s: S)
    requires OnlyGains(ring, ring', s) && ring != map[]
    ensures ring' != map[] && forall h :: OwnerOf(ring', h) == OwnerOf(ring, h) || OwnerOf(ring', h) == s
  {
  }

  lemma LosesMeans<S>(ring: Ring<S>, ring': Ring<S>, s: S)
    requires OnlyLoses(ring, ring', s) && ring != map[] && ring' != map[]
    ensures forall h :: OwnerOf(ring', h) == OwnerOf(ring, h) <==> OwnerOf(ring, h) != s
  {
  }

  lemma AddGains<S>(ring: Ring<S>, s: S, hashes: seq<int>)
    ensures OnlyGains(ring, AddAll(ring, s, hashes), s)
  {
    if ring != map[] {
      AddMovesOnlyToNew(ring, s, hashes, 0);
      forall h {
        AddMovesOnlyToNew(ring, s, hashes, h);
      }
    }
  }

  lemma RunRemoveLoses<S>(ops: seq<Operation<S>>, s: S, replicas: Replicas<S>)
    ensures OnlyLoses(Run(ops, replicas).ring, RemoveAll(Run(ops, replicas).ring, s, replicas(s)), s)
  {
    RunConsistent(ops, replicas);
    var ring := Run(ops, replicas).ring;
    if ring != map[] && RemoveAll(ring, s, replicas(s)) != map[] {
      forall h {
        RemoveMovesOnlyItsOwn(ring, s, replicas(s), h);
      }
    }
  }

  // ----- runs -----

  datatype Operation<S> = Add(server: S) | Remove(server: S)

  /** A ring and the servers that have been added and not removed. */
  datatype State<S> = State(ring: Ring<S>, members: set<S>)

  /** The replica hashes of each server, fixed for a run. */
  type Replicas<!S> = S -> seq<int>

  /** One call; a call that the flags reject changes nothing. */
  ghost function Step<S>(st: State<S>, op: Operation<S>, replicas: Replicas<S>): State<S> {
    match op
    case Add(s) =>
      if s in st.members then st else State(AddAll(st.ring, s, replicas(s)), st.members + {s})
    case Remove(s) =>
      if s !in st.members then st else State(RemoveAll(st.ring, s, replicas(s)), st.members - {s})
  }

  ghost function Run<S>(ops: seq<Operation<S>>, replicas: Replicas<S>): State<S> {
    if ops == [] then State(map[], {})
    else Step(Run(ops[..|ops| - 1], replicas), ops[|ops| - 1], replicas)
  }

  /** Every virtual node is a replica of a member. */
  ghost predicate Consistent<S>(st: State<S>, replicas: Replicas<S>) {
    forall k :: k in st.ring ==> st.ring[k] in st.members && k in replicas(st.ring[k])
  }

  lemma StepConsistent<S>(st: State<S>, op: Operation<S>, replicas: Replicas<S>)
    requires Consistent(st, replicas)
    ensures Consistent(Step(st, op, replicas), replicas)
    ensures op.Remove? ==> forall k :: k in Step(st, op, replicas).ring ==> Step(st, op, replicas).ring[k] != op.server
  {
    AddAllIs(st.ring, op.server, replicas(op.server));
    RemoveAllIs(st.ring, op.server, replicas(op.server));
  }

  lemma {:induction false} RunConsistent<S>(ops: seq<Operation<S>>, replicas: Replicas<S>)
    ensures Consistent(Run(ops, replicas), replicas)
  {
    if ops != [] {
      RunConsistent(ops[..|ops| - 1], replicas);
      StepConsistent(Run(ops[..|ops| - 1], replicas), ops[|ops| - 1], replicas);
    }
  }

  /** No removal in the run has left exactly one virtual node. */
  ghost predicate NeverSingle<S>(ops: seq<Operation<S>>, replicas: Replicas<S>) {
    ops != [] ==>
      var front := ops[..|ops| - 1];
      && NeverSingle(front, replicas)
      && (ops[|ops| - 1].Remove? && Run(ops, replicas).ring != Run(front, replicas).ring ==> |Run(ops, replicas).ring| != 1)
  }

  lemma NeverSingleNext<S>(ops: seq<Operation<S>>, op: Operation<S>, replicas: Replicas<S>)
    ensures NeverSingle<S>([], replicas)
    ensures NeverSingle(ops + [op], replicas) <==>
      && NeverSingle(ops, replicas)
      && (op.Remove? && Run(ops + [op], replicas).ring != Run(ops, replicas).ring ==> |Run(ops + [op], replicas).ring| != 1)
  {
    assert (ops + [op])[..|ops|] == ops;
  }

  lemma RunAdd<S>(ops: seq<Operation<S>>, s: S, replicas: Replicas<S>)
    requires s !in Run(ops, replicas).members
    ensures
      var st := Run(ops, replicas);
      Run(ops + [Add(s)], replicas) == State(AddAll(st.ring, s, replicas(s)), st.members + {s})
  {
    assert (ops + [Add(s)])[..|ops|] == ops;
  }

  /** A call that the flags reject. */
  lemma RunRejects<S>(ops: seq<Operation<S>>, s: S, replicas: Replicas<S>)
    ensures s in Run(ops, replicas).members ==> Run(ops + [Add(s)], replicas) == Run(ops, replicas)
    ensures s !in Run(ops, replicas).members ==> Run(ops + [Remove(s)], replicas) == Run(ops, replicas)
  {
    assert (ops + [Add(s)])[..|ops|] == ops && (ops + [Remove(s)])[..|ops|] == ops;
  }

  /** It does not matter here whether the server is a member: another has no virtual nodes. */
  lemma RunRemove<S>(ops: seq<Operation<S>>, s: S, replicas: Replicas<S>)
    ensures
      var st, st' := Run(ops, replicas), Run(ops + [Remove(s)], replicas);
      && st' == State(RemoveAll(st.ring, s, replicas(s)), st.members - {s})
      && forall k :: k in st'.ring ==> st'.ring[k] != s
  {
    var st := Run(ops, replicas);
    assert (ops + [Remove(s)])[..|ops|] == ops;
    RunConsistent(ops, replicas);
    RemoveAllIs(st.ring, s, replicas(s));
    if s !in st.members {
      var ring' := RemoveAll(st.ring, s, replicas(s));
      assert forall k :: k in ring' <==> k in st.ring;
      SameRing(ring', st.ring);
      assert st.members - {s} == st.members;
    }
  }

  /** The servers that own a virtual node. */
  ghost function Owners<S>(ring: Ring<S>): set<S> {
    set k | k in ring :: ring[k]
  }

  /** Removing the owner of some hash takes exactly this server off the ring. */
  lemma RunRemoveOwner<S>(ops: seq<Operation<S>>, k: int, replicas: Replicas<S>)
    requires k in Run(ops, replicas).ring
    ensures
      var ring, s := Run(ops, replicas).ring, Run(ops, replicas).ring[k];
      var ring' := RemoveAll(ring, s, replicas(s));
      && s in Run(ops, replicas).members && s in Owners(ring)
      && |ring'| < |ring| && Owners(ring') == Owners(ring) - {s}
  {
    var ring, s := Run(ops, replicas).ring, Run(ops, replicas).ring[k];
    var ring' := RemoveAll(ring, s, replicas(s));
    RunConsistent(ops, replicas);
    RemoveAllIs(ring, s, replicas(s));
    SmallerRing(ring', ring, k);
    OwnersLeft(ring, ring', s);
  }

  lemma OwnersLeft<S>(ring: Ring<S>, ring': Ring<S>, s: S)
    requires forall k :: k in ring' <==> k in ring && ring[k] != s
    requires forall k :: k in ring' ==> ring'[k] == ring[k]
    ensures Owners(ring') == Owners(ring) - {s}
  {
    forall t ensures t in Owners(ring') <==> t in Owners(ring) && t != s {
      if t in Owners(ring) && t != s {
        var k :| k in ring && ring[k] == t;
        assert k in ring';
      }
    }
  }

  lemma SmallerRing<S>(small: Ring<S>, ring: Ring<S>, k: int)
    requires k in ring && k !in small
    requires forall j :: j in small ==> j in ring
    ensures |small| < |ring|
  {
    assert forall j :: j in small.Keys ==> j in ring.Keys;
    SubsetCardinality(small.Keys, ring.Keys - {k});
  }

  lemma {:induction false} SubsetCardinality(a: set<int>, b: set<int>)
    requires forall j :: j in a ==> j in b
    ensures |a| <= |b|
  {
    if a != {} {
      var k := Least(a);
      SubsetCardinality(a - {k}, b - {k});
    }
  }

  /** After any run: one call moves no hash between two servers it does not name. */
  lemma RunMinimalMovement<S>(ops: seq<Operation<S>>, op: Operation<S>, replicas: Replicas<S>, h: int)
    requires Run(ops, replicas).ring != map[] && Run(ops + [op], replicas).ring != map[]
    ensures
      var before, now := OwnerOf(Run(ops, replicas).ring, h), OwnerOf(Run(ops + [op], replicas).ring, h);
      before == now || (if op.Add? then now else before) == op.server
  {
    var st := Run(ops, replicas);
    assert (ops + [op])[..|ops|] == ops;
    assert Run(ops + [op], replicas) == Step(st, op, replicas);
    RunConsistent(ops, replicas);
    match op
    case Add(s) => AddMovesOnlyToNew(st.ring, s, replicas(s), h);
    case Remove(s) => if s in st.members { RemoveMovesOnlyItsOwn(st.ring, s, replicas(s), h); }
  }

  /** After any run: adding a server that is not a member and removing it restores the ring. */
  lemma RunAddThenRemove<S>(ops: seq<Operation<S>>, s: S, replicas: Replicas<S>)
    requires s !in Run(ops, replicas).members
    ensures Run(ops + [Add(s), Remove(s)], replicas) == Run(ops, replicas)
  {
    hide Run, AddAll, RemoveAll;
    var st := Run(ops, replicas);
    assert ops + [Add(s), Remove(s)] == ops + [Add(s)] + [Remove(s)];
    RunAdd(ops, s, replicas);
    RunRemove(ops + [Add(s)], s, replicas);
    RunConsistent(ops, replicas);
    AddThenRemove(st.ring, s, replicas(s));
    assert st.members + {s} - {s} == st.members;
  }

  // ----- when the ring depends on the members only -----

  ghost predicate NoCollisions<S>(members: set<S>, replicas: Replicas<S>) {
    forall s, t, k :: s in members && t in members && k in replicas(s) && k in replicas(t) ==> s == t
  }

  /** Every replica of every member is its own virtual node. */
  ghost predicate Complete<S>(st: State<S>, replicas: Replicas<S>) {
    forall s, k :: s in st.members && k in replicas(s) ==> k in st.ring && st.ring[k] == s
  }

  ghost function Everyone<S>(ops: seq<Operation<S>>): set<S> {
    set op | op in ops :: op.server
  }

  lemma {:induction false} RunComplete<S>(ops: seq<Operation<S>>, replicas: Replicas<S>)
    requires NoCollisions(Everyone(ops), replicas)
    ensures Run(ops, replicas).members <= Everyone(ops)
    ensures Complete(Run(ops, replicas), replicas)
  {
    if ops != [] {
      var front, op := ops[..|ops| - 1], ops[|ops| - 1];
      assert Everyone(front) <= Everyone(ops);
      assert op.server in Everyone(ops);
      RunComplete(front, replicas);
      RunConsistent(front, replicas);
      AddAllIs(Run(front, replicas).ring, op.server, replicas(op.server));
      RemoveAllIs(Run(front, replicas).ring, op.server, replicas(op.server));
    }
  }

  lemma CompleteWithin<S>(st: State<S>, st': State<S>, replicas: Replicas<S>)
    requires Consistent(st, replicas) && Complete(st', replicas) && st.members == st'.members
    ensures forall k :: k in st.ring ==> k in st'.ring && st'.ring[k] == st.ring[k]
  {
  }

  /** Without collisions two runs that end with the same members end with the same ring. */
  lemma RingDependsOnMembers<S>(ops: seq<Operation<S>>, ops': seq<Operation<S>>, replicas: Replicas<S>)
    requires NoCollisions(Everyone(ops), replicas) && NoCollisions(Everyone(ops'), replicas)
    requires Run(ops, replicas).members == Run(ops', replicas).members
    ensures Run(ops, replicas) == Run(ops', replicas)
  {
    RunComplete(ops, replicas);
    RunComplete(ops', replicas);
    RunConsistent(ops, replicas);
    RunConsistent(ops', replicas);
    var r, r' := Run(ops, replicas).ring, Run(ops', replicas).ring;
    CompleteWithin(Run(ops, replicas), Run(ops', replicas), replicas);
    CompleteWithin(Run(ops', replicas), Run(ops, replicas), replicas);
    SameRing(r, r');
  }

  /** With a collision they need not: the later server never gets the hash it lost. */
  lemma CollisionLosesReplica<S>(s: S, t: S, k: int, replicas: Replicas<S>)
    requires s != t && k in replicas(s) && k in replicas(t)
    ensures Run([Add(s), Add(t), Remove(s)], replicas).members == Run([Add(t)], replicas).members == {t}
    ensures k !in Run([Add(s), Add(t), Remove(s)], replicas).ring
    ensures k in Run([Add(t)], replicas).ring
  {
    var none: State<S> := State(map[], {});
    var a, b := Step(none, Add(s), replicas), Step(none, Add(t), replicas);
    var c := Step(a, Add(t), replicas);
    assert [Add(s), Add(t), Remove(s)][..2] == [Add(s), Add(t)] && [Add(s), Add(t)][..1] == [Add(s)];
    assert [Add(s)][..0] == [] && [Add(t)][..0] == [];
    assert Run([], replicas) == none;
    assert Run([Add(t)], replicas) == b;
    assert Run([Add(s)], replicas) == a;
    assert Run([Add(s), Add(t)], replicas) == c;
    AddAllIs(map[], s, replicas(s));
    AddAllIs(map[], t, replicas(t));
    AddAllIs(a.ring, t, replicas(t));
    RemoveAllIs(c.ring, s, replicas(s));
  }

  /** The ring depends on its members alone, for all runs over some servers, if and only if no
      two of these servers have a hash in common. */
  lemma MembersDecide<S>(servers: set<S>, replicas: Replicas<S>)
    ensures NoCollisions(servers, replicas) <==>
      forall ops: seq<Operation<S>>, ops': seq<Operation<S>> ::
        Everyone(ops) <= servers && Everyone(ops') <= servers && Run(ops, replicas).members == Run(ops', replicas).members
        ==> Run(ops, replicas) == Run(ops', replicas)
  {
    if NoCollisions(servers, replicas) {
      forall ops: seq<Operation<S>>, ops': seq<Operation<S>> |
        Everyone(ops) <= servers && Everyone(ops') <= servers && Run(ops, replicas).members == Run(ops', replicas).members
        ensures Run(ops, replicas) == Run(ops', replicas)
      {
        RingDependsOnMembers(ops, ops', replicas);
      }
    } else {
      var s, t, k :| s in servers && t in servers && k in replicas(s) && k in replicas(t) && s != t;
      CollisionLosesReplica(s, t, k, replicas);
      var ops, ops' := [Add(s), Add(t), Remove(s)], [Add(t)];
      assert Everyone(ops) <= servers && Everyone(ops') <= servers;
      assert Run(ops, replicas) != Run(ops', replicas);
    }
  }
}
