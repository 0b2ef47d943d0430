/**
  The consistent hash over the pointer tree: servers with flags, virtual nodes,
  and the calls that add, remove and find servers.  `history` is the sequence
  of accepted calls; the heap always holds the ring that this run describes.
 */
module Conhash {
  import opened UtilRbtree
  import opened HashRing

  const FLAG_INIT: bv32 := 1
  const FLAG_IN: bv32 := 2
  const MAX_IDEN := 63

  class Server {
    const iden: string
    const replicas: nat
    const index: int
    var flag: bv32

    /** `conhash_set_node` on new memory: a longer name is cut. */
    constructor (index: int, iden: string, replicas: nat)
      ensures this.index == index && this.replicas == replicas && flag == 1
      ensures this.iden == if |iden| <= 63 then iden else iden[..63]
    {
      this.iden := if |iden| <= MAX_IDEN then iden else iden[..MAX_IDEN];
      this.index := index;
      this.replicas := replicas;
      flag := FLAG_INIT;
    }
  }

  // ----- the names of replicas -----

  function Digit(d: nat): char
    requires d < 10
  {
    ('0' as int + d) as char
  }

  function Decimal(n: nat): string {
    if n < 10 then [Digit(n)] else Decimal(n / 10) + [Digit(n % 10)]
  }

  /** A number with at least three digits. */
  function Number(i: nat): string {
    if i < 10 then "00" + Decimal(i) else if i < 100 then "0" + Decimal(i) else Decimal(i)
  }

  /** `__conhash_node2string`: with names of up to 63 characters nothing is cut off. */
  function ReplicaName(iden: string, i: nat): string {
    iden + "-" + Number(i)
  }

  /** The value of some digits. */
  ghost function ValueOf(s: string): int {
    if s == "" then 0 else 10 * ValueOf(s[..|s| - 1]) + (s[|s| - 1] as int - '0' as int)
  }

  ghost predicate Digits(s: string) {
    forall c :: c in s ==> '0' <= c <= '9'
  }

  lemma {:induction false} DecimalIs(n: nat)
    ensures Digits(Decimal(n)) && ValueOf(Decimal(n)) == n
    ensures |Decimal(n)| > 0 && (n > 0 ==> Decimal(n)[0] != '0') && (|Decimal(n)| >= 2 <==> n >= 10) && (|Decimal(n)| >= 3 <==> n >= 100)
  {
    if n < 10 {
      assert Decimal(n)[..0] == "";
    } else {
      DecimalIs(n / 10);
      assert Decimal(n)[..|Decimal(n)| - 1] == Decimal(n / 10);
      if n / 10 < 10 {
        assert |Decimal(n / 10)| == 1;
      } else if n / 10 < 100 {
        DecimalIs(n / 100);
        assert n / 10 / 10 == n / 100;
      }
    }
  }

  lemma {:induction false} LeadingZero(s: string)
    ensures ValueOf("0" + s) == ValueOf(s) && (Digits(s) ==> Digits("0" + s))
  {
    if s == "" {
      assert ("0" + s)[..0] == "";
    } else {
      LeadingZero(s[..|s| - 1]);
      assert ("0" + s)[..|s|] == "0" + s[..|s| - 1];
    }
  }

  /** Three digits or more, of the right value, and more than three only when they are needed. */
  lemma NumberIs(i: nat)
    ensures |Number(i)| >= 3 && Digits(Number(i)) && ValueOf(Number(i)) == i
    ensures |Number(i)| > 3 ==> Number(i)[0] != '0'
  {
    hide ValueOf, Decimal, Digits;
    DecimalIs(i);
    if i < 100 {
      LeadingZero(Decimal(i));
      LeadingZero("0" + Decimal(i));
      assert "00" + Decimal(i) == "0" + ("0" + Decimal(i));
    }
  }

  /** Different replicas have different names: only the hash function can make them collide. */
  lemma NamesDiffer(iden: string, i: nat, iden': string, i': nat)
    requires ReplicaName(iden, i) == ReplicaName(iden', i')
    ensures iden == iden' && i == i'
  {
    hide Number, ValueOf;
    NumberIs(i);
    NumberIs(i');
    var s, s' := Number(i), Number(i');
    LastDash(iden, s, iden', s');
    assert ReplicaName(iden, i)[|iden| + 1..] == s && ReplicaName(iden', i')[|iden'| + 1..] == s';
    assert ReplicaName(iden, i)[..|iden|] == iden && ReplicaName(iden', i')[..|iden'|] == iden';
  }

  lemma LastDash(a: string, s: string, b: string, t: string)
    requires a + "-" + s == b + "-" + t && Digits(s) && Digits(t)
    ensures |a| == |b|
  {
    DashIs(a + "-" + s, a, s);
    DashIs(b + "-" + t, b, t);
  }

  lemma DashIs(u: string, a: string, s: string)
    requires u == a + "-" + s && Digits(s)
    ensures u[|a|] == '-' && forall k :: |a| < k < |u| ==> u[k] != '-'
  {
    forall k | |a| < k < |u| ensures u[k] != '-' {
      assert u[k] == s[k - |a| - 1] && u[k] in s;
    }
  }

  class VirtualNode {
    const hash: int
    const server: Server

    constructor (hash: int, server: Server)
      ensures this.hash == hash && this.server == server
    {
      this.hash := hash;
      this.server := server;
    }
  }

  /** Tree node `n` is the virtual node of `s` for the hash `n.key`. */
  ghost predicate Serves(n: Node, s: Server) {
    n.data is VirtualNode && (n.data as VirtualNode).hash == n.key && (n.data as VirtualNode).server == s
  }

  /** The nodes are the virtual nodes of the ring, one for each hash. */
  ghost predicate Represents(ring: Ring<Server>, nodes: set<Node>) {
    && (forall n :: n in nodes ==> n.key in ring && Serves(n, ring[n.key]))
    && (forall m, n :: m in nodes && n in nodes && m.key == n.key ==> m == n)
    && (forall k :: k in ring ==> exists n :: n in nodes && n.key == k)
  }

  lemma RepresentsMore(ring: Ring<Server>, nodes: set<Node>, n: Node, s: Server)
    requires Represents(ring, nodes) && Serves(n, s) && n.key !in ring
    ensures Represents(ring[n.key := s], nodes + {n}) && n !in nodes
    ensures |ring[n.key := s]| == |ring| + 1
  {
    hide Serves;
    var ring' := ring[n.key := s];
    forall k | k in ring' ensures exists m :: m in nodes + {n} && m.key == k {
      if k != n.key {
        var m :| m in nodes && m.key == k;
        assert m in nodes + {n};
      } else {
        assert n in nodes + {n};
      }
    }
    RingMore(ring, n.key, s);
  }

  lemma RingMore(ring: Ring<Server>, k: int, s: Server)
    requires k !in ring
    ensures |ring[k := s]| == |ring| + 1
  {
    assert ring[k := s].Keys == ring.Keys + {k};
  }

  lemma EmptyRing(ring: Ring<Server>)
    requires Represents(ring, {})
    ensures ring == map[] && Owners(ring) == {}
  {
    assert forall k :: k !in ring;
    SameRing(ring, map[]);
  }

  lemma RepresentsLess(ring: Ring<Server>, nodes: set<Node>, n: Node)
    requires Represents(ring, nodes) && n in nodes
    ensures Represents(ring - {n.key}, nodes - {n})
    ensures |ring - {n.key}| == |ring| - 1
  {
    hide Serves;
    var ring' := ring - {n.key};
    forall k | k in ring' ensures exists m :: m in nodes - {n} && m.key == k {
      var m :| m in nodes && m.key == k;
      assert m in nodes - {n};
    }
    assert ring'.Keys == ring.Keys - {n.key};
  }

  /** What a search for `hash` has found out about the ring. */
  lemma SearchMeans(ring: Ring<Server>, nodes: set<Node>, hash: int, r: Node?)
    requires Represents(ring, nodes)
    requires if r == null then forall n :: n in nodes ==> n.key != hash else r in nodes && r.key == hash
    ensures hash in ring <==> r != null
    ensures r != null ==> Serves(r, ring[hash])
  {
  }

  /** The scan of the sorted nodes finds the owner on the ring. */
  lemma ScanFindsOwner(t: RedBlack.Tree<Node>, ring: Ring<Server>, h: int, n: Node)
    requires Represents(ring, RedBlack.Nodes(t)) && Sorted(RedBlack.Inorder(t))
    requires n == Owner(RedBlack.Inorder(t), h)
    ensures n.key in ring && Serves(n, ring[n.key]) && OwnerOf(ring, h) == ring[n.key]
    ensures n in RedBlack.Nodes(t)
    ensures n.key >= h ==> forall m :: m in RedBlack.Nodes(t) && m.key >= h ==> n.key <= m.key
    ensures n.key < h ==> forall m :: m in RedBlack.Nodes(t) ==> n.key <= m.key < h
  {
    var s := RedBlack.Inorder(t);
    FirstFromIs(s, h);
    forall m ensures m in RedBlack.Nodes(t) <==> m in s {
      RedBlack.NodeIsInorder(t, m);
    }
    assert n in s;
    forall k | k in ring ensures exists m :: m in s && m.key == k {
      var m :| m in RedBlack.Nodes(t) && m.key == k;
    }
    assert IsNext(ring.Keys, h, n.key);
    OwnerIs(ring, h, n.key);
  }

  lemma {:induction false} FirstFromIs(s: seq<Node>, key: int)
    requires Sorted(s)
    ensures var r := FirstFrom(s, key);
      if r == null then forall m :: m in s ==> m.key < key
      else r in s && r.key >= key && forall m :: m in s && m.key >= key ==> r.key <= m.key
  {
    if s != [] {
      FirstFromIs(s[1..], key);
      assert forall m :: m in s <==> m == s[0] || m in s[1..];
    }
  }

  class ConHash {
    const tree: RbTree
    /** `cb_hashfunc`, for names of replicas and of objects. */
    const hash: string -> int
    var ivnodes: int

    ghost var history: seq<Operation<Server>>
    ghost var members: set<Server>
    /** Servers whose memory has been released. */
    ghost var freed: set<Server>
    /** Tree nodes whose memory has been released. */
    ghost var retired: set<Node>

    /** `conhash_init` */
    constructor (hash: string -> int)
      ensures Valid() && history == [] && freed == {} && retired == {}
      ensures this.hash == hash && ivnodes == 0 && tree.nodes == {}
      ensures fresh(tree) && fresh(tree.nil)
    {
      tree := new RbTree();
      this.hash := hash;
      ivnodes := 0;
      history, members, freed, retired := [], {}, {}, {};
    }

    /** The hashes of a server's replicas. */
    ghost function Hashes(): Replicas<Server> {
      (s: Server) => seq(s.replicas, i requires 0 <= i => hash(ReplicaName(s.iden, i)))
    }

    /** They are the hashes of its identifier with the numbers below the replica count, and no others. */
    lemma HashesAre(s: Server)
      ensures |Hashes()(s)| == s.replicas && forall i :: 0 <= i < s.replicas ==> Hashes()(s)[i] == hash(ReplicaName(s.iden, i))
      ensures forall k :: k in Hashes()(s) <==> exists i: nat :: i < s.replicas && k == hash(ReplicaName(s.iden, i))
    {
      var hashes := Hashes()(s);
      forall k ensures k in hashes <==> exists i: nat :: i < s.replicas && k == hash(ReplicaName(s.iden, i)) {
        if i: nat :| i < s.replicas && k == hash(ReplicaName(s.iden, i)) {
          assert hashes[i] == k;
        }
        if k in hashes {
          var j :| 0 <= j < |hashes| && hashes[j] == k;
          assert k == hash(ReplicaName(s.iden, j));
        }
      }
    }

    /** What the replicas of a server add to a ring. */
    lemma RingAdds(ring: HashRing.Ring<Server>, s: Server)
      ensures var ring' := AddAll<Server>(ring, s, Hashes()(s));
        && (forall k :: k in ring' <==> k in ring || exists i: nat :: i < s.replicas && k == hash(ReplicaName(s.iden, i)))
        && (forall k :: k in ring' ==> ring'[k] == if k in ring then ring[k] else s)
    {
      hide Hashes, AddAll;
      HashesAre(s);
      AddAllIs<Server>(ring, s, Hashes()(s));
    }

    /** What goes with the replicas of a server. */
    lemma RingRemoves(ring: HashRing.Ring<Server>, s: Server)
      ensures var ring' := RemoveAll<Server>(ring, s, Hashes()(s));
        && (forall k :: k in ring' <==>
              k in ring && !(ring[k] == s && exists i: nat :: i < s.replicas && k == hash(ReplicaName(s.iden, i))))
        && (forall k :: k in ring' ==> ring'[k] == ring[k])
    {
      hide Hashes, RemoveAll;
      HashesAre(s);
      RemoveAllIs<Server>(ring, s, Hashes()(s));
    }

    ghost function Ring(): HashRing.Ring<Server>
      reads this`history
    {
      Run(history, Hashes()).ring
    }

    /** The heap holds the ring `ring`. */
    ghost predicate Stores(ring: HashRing.Ring<Server>)
      reads this`ivnodes, this`retired, tree, tree.nodes, tree.nil, tree.rim.outer
    {
      && tree.Valid()
      && Represents(ring, tree.nodes)
      && |ring| == |RedBlack.Inorder(tree.shape)|
      && ivnodes == tree.size
      && retired !! tree.nodes && tree.nil !in retired
      && tree.rim.outer in retired + {tree.nil} && tree.Quiet()
    }

    ghost predicate Valid()
      reads this, tree, tree.nodes, tree.nil, tree.rim.outer, members`flag
    {
      && Stores(Ring())
      && members == Run(history, Hashes()).members
      && members !! freed
      // The root's parent link refers to a released node only after a removal that left one node.
      && (NeverSingle(history, Hashes()) ==> tree.Settled())
      && forall s :: s in members ==> s.flag & FLAG_INIT != 0 && s.flag & FLAG_IN != 0
    }

    /** `__conhash_get_rbnode`; `reuse` says that `malloc` hands back the memory of the removed
        node that the root's parent link refers to, if there is one. */
    method NewNode(node: Server, hash: int, reuse: bool) returns (rbnode: Node)
      requires tree.Valid() && tree.Quiet()
      modifies tree`rim, tree.nodes
      ensures tree.Valid()
      ensures fresh(rbnode) && rbnode.key == hash && Serves(rbnode, node)
      ensures tree.rim == if reuse && !old(tree.Settled()) then RedBlack.Rim(tree.nil, rbnode) else old(tree.rim)
    {
      hide Represents, RedBlack.Nodes, RedBlack.Inorder, RedBlack.Without, RedBlack.BlackHeight,
        RedBlack.Power2, Inserted, RbTree.Valid, RbTree.Shaped, RbTree.Insertable, RbTree.Undisturbed,
        RbTree.TipsAt, PlaceOf, RedBlack.InsertFixed, RedBlack.RedBlackTree, RedBlack.Plug, Run, AddAll,
        RemoveAll;
      tree.ValidOutside();
      var vnode := new VirtualNode(hash, node);
      rbnode := new Node(hash, vnode);
      if reuse && tree.root != tree.nil && tree.root.parent != tree.nil {
        tree.Reuse(rbnode);
      }
    }

    /** One turn of the loop of `__conhash_add_replicas`. */
    method AddReplica(node: Server, hash: int, reuse: bool, ghost ring: HashRing.Ring<Server>)
      requires Stores(ring) && (tree.Settled() || !reuse)
      modifies this`ivnodes, tree, tree.nodes
      ensures Stores(if hash in ring then ring else ring[hash := node])
      ensures fresh(tree.nodes - old(tree.nodes)) && (old(tree.Settled()) ==> tree.Settled())
    {
      hide Represents, RedBlack.Nodes, RedBlack.Inorder, RedBlack.Without, RedBlack.BlackHeight,
        RedBlack.Power2, Inserted, RbTree.Valid, RbTree.Shaped, RbTree.Insertable, RbTree.Undisturbed,
        RbTree.TipsAt, PlaceOf, RedBlack.InsertFixed, RedBlack.RedBlackTree, RedBlack.Plug, Run, AddAll,
        RemoveAll;
      var found, _ := tree.Search(hash);
      SearchMeans(ring, tree.nodes, hash, found);
      if found == null {
        AddNew(node, hash, reuse, ring);
      }
    }

    method AddNew(node: Server, hash: int, reuse: bool, ghost ring: HashRing.Ring<Server>)
      requires Stores(ring) && hash !in ring && (tree.Settled() || !reuse)
      modifies this`ivnodes, tree, tree.nodes
      ensures Stores(ring[hash := node])
      ensures fresh(tree.nodes - old(tree.nodes)) && (old(tree.Settled()) ==> tree.Settled())
    {
      hide Represents, RedBlack.Nodes, RedBlack.Inorder, RedBlack.Without, RedBlack.BlackHeight,
        RedBlack.Power2, Inserted, RbTree.Valid, RbTree.Shaped, RbTree.Insertable, RbTree.Undisturbed,
        RbTree.TipsAt, PlaceOf, RedBlack.InsertFixed, RedBlack.RedBlackTree, RedBlack.Plug, Run, AddAll,
        RemoveAll;
      var rbnode := NewNode(node, hash, reuse);
      RepresentsMore(ring, tree.nodes, rbnode, node);
      InsertedLength(RedBlack.Inorder(tree.shape), rbnode);
      tree.QuietInserts(rbnode);
      tree.Insert(rbnode);
      ivnodes := (ivnodes + 1) % UINT_RANGE;
    }

    /** Takes a virtual node out of the tree and releases it, with `__conhash_del_rbnode`. */
    method Retire(rbnode: Node, ghost ring: HashRing.Ring<Server>)
      requires Stores(ring) && rbnode in tree.nodes
      modifies this`ivnodes, this`retired, tree, tree.nodes, tree.nil
      ensures Stores(ring - {rbnode.key})
      ensures tree.nodes == old(tree.nodes) - {rbnode} && retired == old(retired) + {rbnode}
      ensures |ring - {rbnode.key}| == |ring| - 1
      ensures |ring| == 1 || (|ring| != 2 && old(tree.Settled())) ==> tree.Settled()
    {
      hide Represents, RedBlack.Nodes, RedBlack.Inorder, RedBlack.Without, RedBlack.BlackHeight,
        RedBlack.Power2, Inserted, RbTree.Valid, RbTree.Shaped, RbTree.Insertable, RbTree.Undisturbed,
        RbTree.TipsAt, PlaceOf, RedBlack.InsertFixed, RedBlack.RedBlackTree, RedBlack.Plug, Run, AddAll,
        RemoveAll;
      RepresentsLess(ring, tree.nodes, rbnode);
      tree.ValidWithout(rbnode);
      ivnodes := (ivnodes + UINT_RANGE - 1) % UINT_RANGE;
      tree.Delete(rbnode);
      tree.ValidOutside();
      retired := retired + {rbnode};
    }

    /** One turn of the loop of `__conhash_del_replicas`. */
    method DelReplica(node: Server, hash: int, ghost ring: HashRing.Ring<Server>)
      requires Stores(ring)
      modifies this`ivnodes, this`retired, tree, tree.nodes, tree.nil
      ensures var ring' := if hash in ring && ring[hash] == node then ring - {hash} else ring;
        && Stores(ring')
        && if ring' == ring then old(tree.Settled()) ==> tree.Settled()
           else |ring'| == |ring| - 1 && (|ring| == 1 || (|ring| != 2 && old(tree.Settled())) ==> tree.Settled())
      ensures tree.nodes <= old(tree.nodes)
      // Every virtual node that leaves the tree is released, and no other.
      ensures retired == old(retired) + (old(tree.nodes) - tree.nodes)
    {
      hide Represents, RedBlack.Nodes, RedBlack.Inorder, RedBlack.Without, RedBlack.BlackHeight,
        RedBlack.Power2, Inserted, RbTree.Valid, RbTree.Shaped, RbTree.Insertable, RbTree.Undisturbed,
        RbTree.TipsAt, PlaceOf, RedBlack.InsertFixed, RedBlack.RedBlackTree, RedBlack.Plug, Run, AddAll,
        RemoveAll;
      var rbnode, _ := tree.Search(hash);
      SearchMeans(ring, tree.nodes, hash, rbnode);
      if rbnode != null {
        var vnode := rbnode.data as VirtualNode;
        if vnode.hash == hash && vnode.server == node {
          Retire(rbnode, ring);
        }
      }
    }

    /** `__conhash_add_replicas` */
    method AddReplicas(node: Server, reuse: nat -> bool, ghost ring: HashRing.Ring<Server>)
      requires Stores(ring) && (tree.Settled() || forall i :: !reuse(i))
      modifies this`ivnodes, tree, tree.nodes
      ensures Stores(AddAll(ring, node, Hashes()(node)))
      ensures var ring' := AddAll<Server>(ring, node, Hashes()(node));
        && (forall k :: k in ring' <==> k in ring || exists i: nat :: i < node.replicas && k == hash(ReplicaName(node.iden, i)))
        && (forall k :: k in ring' ==> ring'[k] == if k in ring then ring[k] else node)
      ensures fresh(tree.nodes - old(tree.nodes)) && (old(tree.Settled()) ==> tree.Settled())
    {
      hide AddAll, Represents, RbTree.Valid, Hashes, Stores, RbTree.Settled;
      ghost var hashes, now: HashRing.Ring<Server> := Hashes()(node), ring;
      HashesAre(node);
      RingAdds(ring, node);
      EndOf(ring, node, hashes);
      var i := 0;
      while i < node.replicas
        invariant 0 <= i <= node.replicas
        invariant Stores(now) && fresh(tree.nodes - old(tree.nodes)) && (old(tree.Settled()) ==> tree.Settled())
        invariant AddAll(now, node, hashes[i..]) == AddAll(ring, node, hashes)
      {
        var h := hash(ReplicaName(node.iden, i));
        AddAllStep(now, node, hashes, i);
        AddReplica(node, h, reuse(i), now);
        now := if h in now then now else now[h := node];
        i := i + 1;
      }
      EndOf(now, node, hashes);
    }

    /** `__conhash_del_replicas` */
    method DelReplicas(node: Server, ghost ring: HashRing.Ring<Server>)
      requires Stores(ring)
      modifies this`ivnodes, this`retired, tree, tree.nodes, tree.nil
      ensures Stores(RemoveAll(ring, node, Hashes()(node)))
      ensures var ring' := RemoveAll<Server>(ring, node, Hashes()(node));
        && (forall k :: k in ring' <==>
              k in ring && !(ring[k] == node && exists i: nat :: i < node.replicas && k == hash(ReplicaName(node.iden, i))))
        && (forall k :: k in ring' ==> ring'[k] == ring[k])
      ensures tree.nodes <= old(tree.nodes) && retired == old(retired) + (old(tree.nodes) - tree.nodes)
      ensures
        var ring' := RemoveAll(ring, node, Hashes()(node));
        old(tree.Settled()) ==> tree.Settled() || (ring' != ring && |ring'| == 1)
    {
      hide RemoveAll, Represents, RbTree.Valid, Stores, RbTree.Settled, Run, Hashes;
      ghost var hashes, now: HashRing.Ring<Server> := Hashes()(node), ring;
      HashesAre(node);
      RingRemoves(ring, node);
      EndOf(ring, node, hashes);
      var i := 0;
      while i < node.replicas
        invariant 0 <= i <= node.replicas
        invariant Stores(now) && tree.nodes <= old(tree.nodes)
        invariant retired == old(retired) + (old(tree.nodes) - tree.nodes)
        invariant old(tree.Settled()) ==> tree.Settled() || (now != ring && |now| == 1)
        invariant |now| <= |ring| && (now != ring ==> |now| < |ring|)
        invariant RemoveAll(now, node, hashes[i..]) == RemoveAll(ring, node, hashes)
      {
        var h := hash(ReplicaName(node.iden, i));
        RemoveAllStep(now, node, hashes, i);
        DelReplica(node, h, now);
        now := if h in now && now[h] == node then now - {h} else now;
        i := i + 1;
      }
      EndOf(now, node, hashes);
    }

    /** The flags of a server are no part of the ring. */
    method SetFlag(node: Server, flag: bv32, ghost ring: HashRing.Ring<Server>)
      requires Stores(ring)
      modifies node`flag
      ensures node.flag == flag && Stores(ring) && tree.Settled() == old(tree.Settled())
    {
      hide Represents, RbTree.Valid;
      node.flag := flag;
    }

    /** The account of the calls is no part of the heap. */
    ghost method Record(op: Operation<Server>, members': set<Server>, ring: HashRing.Ring<Server>)
      requires Stores(ring)
      modifies this`history, this`members
      ensures history == old(history) + [op] && members == members'
      ensures Stores(ring) && tree.Settled() == old(tree.Settled())
    {
      hide Represents, RbTree.Valid;
      history, members := history + [op], members';
    }

    ghost method Release(node: Server, ring: HashRing.Ring<Server>)
      requires Stores(ring)
      modifies this`freed
      ensures freed == old(freed) + {node}
      ensures Stores(ring) && tree.Settled() == old(tree.Settled())
    {
      hide Represents, RbTree.Valid;
      freed := freed + {node};
    }

    /** `conhash_add_node`; `reuse` tells for which of the replicas `malloc` hands back the
        memory of a removed node that the root's parent link refers to.  Only after a removal
        that left exactly one virtual node does it matter that this does not happen. */
    method AddNode(node: Server?, reuse: nat -> bool) returns (rc: int)
      requires Valid() && node !in freed
      requires tree.Settled() || forall i :: !reuse(i)
      modifies this`ivnodes, this`history, this`members, tree, tree.nodes, (if node == null then {} else {node})`flag
      ensures Valid() && fresh(tree.nodes - old(tree.nodes)) && (old(tree.Settled()) ==> tree.Settled())
      ensures rc == if node == null || old(node.flag) & 1 == 0 || old(node.flag) & 2 != 0 then -1 else 0
      ensures rc == 0 ==> node.flag == old(node.flag) | FLAG_IN
      ensures rc == -1 ==> history == old(history) && members == old(members) && (node != null ==> node.flag == old(node.flag))
      ensures rc == 0 ==> history == old(history) + [Add(node)] && node !in old(members)
      ensures rc == 0 ==> Ring() == AddAll<Server>(old(Ring()), node, Hashes()(node)) && members == old(members) + {node}
      // The ring gains every hash of the server's replicas that was free, and nothing else changes hands.
      ensures rc == 0 ==> forall k ::
        k in Ring() <==> k in old(Ring()) || exists i: nat :: i < node.replicas && k == hash(ReplicaName(node.iden, i))
      ensures rc == 0 ==> forall k :: k in Ring() ==> Ring()[k] == if k in old(Ring()) then old(Ring())[k] else node
      ensures rc == 0 ==> OnlyGains<Server>(old(Ring()), Ring(), node)
    {
      hide Run, AddAll, RemoveAll, Represents, OnlyGains, OnlyLoses, RbTree.Valid, Hashes, NeverSingle, Stores,
        RbTree.Settled, ReplicaName;
      if node == null {
        return -1;
      }
      if node.flag & FLAG_INIT == 0 || node.flag & FLAG_IN != 0 {
        return -1;
      }
      SetFlag(node, node.flag | FLAG_IN, Ring());
      RunAdd<Server>(history, node, Hashes());
      AddGains<Server>(Ring(), node, Hashes()(node));
      NeverSingleNext<Server>(history, Add(node), Hashes());
      ghost var ring := Ring();
      AddReplicas(node, reuse, ring);
      Record(Add(node), members + {node}, AddAll<Server>(ring, node, Hashes()(node)));
      RingAdds(ring, node);
      return 0;
    }

    /** `conhash_del_node`; the server is released. */
    method DelNode(node: Server?) returns (rc: int)
      requires Valid() && node !in freed
      modifies this`ivnodes, this`history, this`members, this`retired, this`freed, tree, tree.nodes, tree.nil
      modifies (if node == null then {} else {node})`flag
      ensures Valid() && tree.nodes <= old(tree.nodes)
      ensures rc == if node == null || old(node.flag) & 1 == 0 || old(node.flag) & 2 == 0 then -1 else 0
      ensures rc == 0 ==> node.flag == old(node.flag) & !FLAG_IN
      ensures rc == -1 ==> history == old(history) && members == old(members) && freed == old(freed) && (node != null ==> node.flag == old(node.flag))
      ensures rc == 0 ==> history == old(history) + [Remove(node)] && freed == old(freed) + {node}
      ensures rc == 0 ==> Ring() == RemoveAll<Server>(old(Ring()), node, Hashes()(node)) && members == old(members) - {node}
      // The ring loses exactly the server's virtual nodes, which are among the hashes of its replicas.
      ensures rc == 0 ==> forall k ::
        k in Ring() <==> k in old(Ring()) && !(old(Ring())[k] == node && exists i: nat :: i < node.replicas && k == hash(ReplicaName(node.iden, i)))
      ensures rc == 0 ==> forall k :: k in Ring() <==> k in old(Ring()) && old(Ring())[k] != node
      ensures rc == 0 ==> forall k :: k in Ring() ==> Ring()[k] == old(Ring())[k]
      ensures rc == 0 ==> OnlyLoses<Server>(old(Ring()), Ring(), node)
      ensures retired == old(retired) + (old(tree.nodes) - tree.nodes)
    {
      hide Run, AddAll, RemoveAll, Represents, OnlyGains, OnlyLoses, RbTree.Valid, Hashes, NeverSingle, Stores,
        RbTree.Settled, ReplicaName;
      if node == null {
        return -1;
      }
      if node.flag & FLAG_INIT == 0 || node.flag & FLAG_IN == 0 {
        return -1;
      }
      SetFlag(node, node.flag & !FLAG_IN, Ring());
      RunRemove<Server>(history, node, Hashes());
      RunRemoveLoses<Server>(history, node, Hashes());
      RingRemoves(Ring(), node);
      NeverSingleNext<Server>(history, Remove(node), Hashes());
      ghost var ring := Ring();
      DelReplicas(node, ring);
      Record(Remove(node), members - {node}, RemoveAll<Server>(ring, node, Hashes()(node)));
      Release(node, RemoveAll<Server>(ring, node, Hashes()(node)));
      return 0;
    }

    /** `conhash_lookup`: the count of virtual nodes is kept in 32 bits. */
    method Lookup(name: string) returns (r: Server?)
      requires Valid()
      ensures r == null <==> |Ring()| % 0x1_0000_0000 == 0
      ensures 1 <= |Ring()| <= 0xffff_ffff ==> r != null
      // The server of the first virtual node at or after the hash, or else of the first of all.
      ensures r != null ==> exists n ::
        && n in tree.nodes && n.data is VirtualNode && (n.data as VirtualNode).server == r
        && (n.key >= hash(name) ==> forall m :: m in tree.nodes && m.key >= hash(name) ==> n.key <= m.key)
        && (n.key < hash(name) ==> forall m :: m in tree.nodes ==> n.key <= m.key < hash(name))
      ensures r != null ==> Ring() != map[] && r == OwnerOf(Ring(), hash(name)) && r in members
    {
      hide Run, Represents, OwnerOf, RedBlack.Inorder, RedBlack.Nodes, RbTree.Shaped, RedBlack.RedBlackTree;
      if ivnodes == 0 {
        return null;
      }
      var h := hash(name);
      var rbnode, _ := tree.Lookup(h);
      RunConsistent(history, Hashes());
      tree.Outside();
      if rbnode != null {
        ScanFindsOwner(tree.shape, Ring(), h, rbnode);
        var vnode := rbnode.data as VirtualNode;
        return vnode.server;
      }
      assert false;
    }

    /** One turn of the loop of `conhash_fini`: a server goes, with at least the virtual node at the root. */
    method FiniStep() returns (ghost node: Server)
      requires Valid() && tree.root != tree.nil
      modifies this`ivnodes, this`history, this`members, this`retired, this`freed, tree, tree.nodes, tree.nil, members`flag
      ensures Valid() && tree.nodes <= old(tree.nodes) && |Ring()| < |old(Ring())|
      ensures node in old(members) && node in Owners(old(Ring())) && node in freed
      ensures freed == old(freed) + {node} && members == old(members) - {node}
      ensures Owners(Ring()) == Owners(old(Ring())) - {node}
      ensures retired == old(retired) + (old(tree.nodes) - tree.nodes)
    {
      hide Run, RemoveAll, OnlyLoses, Represents, RbTree.Valid, Hashes, Owners, RbTree.Shaped;
      RootOwner();
      var rbnode := tree.root;
      var vnode := rbnode.data as VirtualNode;
      var server := vnode.server;
      RunRemoveOwner(history, rbnode.key, Hashes());
      var _ := DelNode(server);
      node := server;
    }

    /** `conhash_fini`: the servers that own a virtual node are released, each once. */
    method Fini()
      requires Valid()
      modifies this`ivnodes, this`history, this`members, this`retired, this`freed, tree, tree.nodes, tree.nil, members`flag
      ensures Valid() && Ring() == map[] && tree.nodes == {}
      ensures freed == old(freed) + Owners(old(Ring()))
      ensures members == old(members) - Owners(old(Ring()))
      ensures retired == old(retired) + old(tree.nodes)
    {
      hide Run, Represents, RbTree.Valid, Hashes, Owners, RbTree.Shaped, Stores, Valid, NeverSingle;
      ghost var owners := Owners(Ring());
      while tree.root != tree.nil
        invariant Valid() && tree.nodes <= old(tree.nodes) && members <= old(members)
        invariant retired == old(retired) + (old(tree.nodes) - tree.nodes)
        invariant Owners(Ring()) <= owners
        invariant members == old(members) - (owners - Owners(Ring()))
        invariant freed == old(freed) + (owners - Owners(Ring()))
        decreases |Ring()|
      {
        var _ := FiniStep();
      }
      RootOwner();
    }

    /** The invariant on the nodes alone: the tree holds one node for each key of the ring; its key
        is a hash of a replica of the server it belongs to, and that server is a member. */
    lemma NodesAreReplicas()
      requires Valid()
      ensures forall n :: n in tree.nodes ==> n.data is VirtualNode
      ensures forall n :: n in tree.nodes ==>
        var s := (n.data as VirtualNode).server;
        s in members && exists i: nat :: i < s.replicas && n.key == hash(ReplicaName(s.iden, i))
      ensures forall k :: k in Ring() <==> exists n :: n in tree.nodes && n.key == k
      ensures forall n :: n in tree.nodes ==> n.key in Ring() && (n.data as VirtualNode).server == Ring()[n.key]
    {
      hide Run, Hashes, RbTree.Valid;
      RunConsistent<Server>(history, Hashes());
      forall n | n in tree.nodes
        ensures n.data is VirtualNode &&
          var s := (n.data as VirtualNode).server;
          s in members && exists i: nat :: i < s.replicas && n.key == hash(ReplicaName(s.iden, i))
      {
        HashesAre(Ring()[n.key]);
      }
    }

    /** The owners on the ring are the servers of the tree's nodes. */
    lemma OwnersServe()
      requires Valid()
      ensures Owners(Ring()) == set n | n in tree.nodes && n.data is VirtualNode :: (n.data as VirtualNode).server
    {
      hide Run, Hashes, RbTree.Valid, ReplicaName;
      NodesAreReplicas();
      var ring, servers := Ring(), set n | n in tree.nodes && n.data is VirtualNode :: (n.data as VirtualNode).server;
      forall s: Server | s in Owners(ring) ensures s in servers {
        var k :| k in ring && ring[k] == s;
        var n :| n in tree.nodes && n.key == k;
      }
      forall s: Server | s in servers ensures s in Owners(ring) {
        var n :| n in tree.nodes && n.data is VirtualNode && (n.data as VirtualNode).server == s;
        assert n.key in ring;
      }
    }

    lemma RootOwner()
      requires Valid()
      ensures tree.root != tree.nil ==> tree.root.key in Ring() && Serves(tree.root, Ring()[tree.root.key])
      ensures tree.root == tree.nil ==> Ring() == map[] && Owners(Ring()) == {} && tree.nodes == {}
    {
      tree.Outside();
      if tree.root == tree.nil {
        EmptyRing(Ring());
      }
    }
  }

  lemma {:induction false} InsertedLength(s: seq<Node>, n: Node)
    ensures |Inserted(s, n)| == |s| + 1
  {
    if s != [] && n.key >= s[0].key {
      InsertedLength(s[1..], n);
    }
  }
}
