/**
  The index of IP zones: half-open address ranges in the intrusive tree,
  ordered by their first address and then by their end.
 */
module IpZone {
  import opened RedBlack
  import opened LinuxRbtree

  const ADDRESSES := 0x1_0000_0000
  const LAST_ADDRESS := 0xffff_ffff

  type Address = a: int | 0 <= a < ADDRESSES

  class Zone {
    const name: string
    const netmask: int
    const start: Address
    const end: Address

    /** The range in `ip_zones_add`, in 32 bits. */
    constructor (name: string, ip: int, netmask: int)
      requires 0 <= ip < ADDRESSES && 0 <= netmask <= 32
      ensures this.name == name && this.netmask == netmask
      ensures start == StartOf(ip, netmask) && end == EndOf(ip, netmask)
    {
      this.name := name;
      this.netmask := netmask;
      if netmask == 0 {
        start := 0;
        end := LAST_ADDRESS;
      } else {
        start := ip;
        end := (ip + Power2(32 - netmask)) % ADDRESSES;
      }
    }
  }

  function StartOf(ip: int, netmask: int): int {
    if netmask == 0 then 0 else ip
  }

  function EndOf(ip: int, netmask: int): int
    requires netmask <= 32
  {
    if netmask == 0 then LAST_ADDRESS else (ip + Power2(32 - netmask)) % ADDRESSES
  }

  ghost predicate Contains(z: Zone, ip: int) {
    z.start <= ip < z.end
  }

  /** Address `a` is in the range computed for `ip/netmask`. */
  ghost predicate InRange(a: int, ip: int, netmask: int)
    requires netmask <= 32
  {
    StartOf(ip, netmask) <= a < EndOf(ip, netmask)
  }

  /** Address `a` is one of the `2^(32 - netmask)` addresses from `ip` on. */
  ghost predicate Wanted(a: int, ip: int, netmask: int)
    requires netmask <= 32
  {
    (if netmask == 0 then 0 else ip) <= a < ip + Power2(32 - netmask) && a < ADDRESSES
  }

  /** The addresses that share a prefix of `netmask` bits: section 3.1 of RFC 4632. */
  ghost predicate Shares(ip: int, netmask: int, other: int)
    requires netmask <= 32
  {
    ip / Power2(32 - netmask) == other / Power2(32 - netmask)
  }

  lemma {:induction false} Power2Grows(m: nat, n: nat)
    requires m <= n
    ensures 1 <= Power2(m) <= Power2(n)
    decreases n
  {
    if m < n {
      Power2Grows(m, n - 1);
    } else if n > 0 {
      Power2Grows(n - 1, n - 1);
    }
  }

  /** Twice as many addresses for each bit. */
  lemma Power2Is(n: nat)
    ensures Power2(0) == 1 && Power2(n + 1) == Power2(n) + Power2(n)
  {
  }

  lemma Power2Values()
    ensures Power2(31) == 0x8000_0000 && Power2(32) == ADDRESSES
  {
    assert Power2(8) == 0x100;
    assert Power2(16) == 0x1_0000;
    assert Power2(24) == 0x100_0000;
    assert Power2(31) == 0x8000_0000;
  }

  /** The addresses of a range as the code computes it, and the addresses that it is meant to have. */
  lemma RangeMeans(a: int, ip: int, netmask: int)
    requires 0 <= ip < 0x1_0000_0000 && 0 <= netmask <= 32
    ensures InRange(a, ip, netmask) <==>
      if netmask == 0 then 0 <= a < 0xffff_ffff else ip <= a < (ip + Power2(32 - netmask)) % 0x1_0000_0000
    ensures Wanted(a, ip, netmask) <==>
      if netmask == 0 then 0 <= a < 0x1_0000_0000 else ip <= a < 0x1_0000_0000 && a - ip < Power2(32 - netmask)
  {
    hide Power2;
    Power2Values();
  }

  /** The range is the whole of the wanted addresses exactly when its end does not wrap;
      otherwise it is empty, except that `/0` only misses the last address. */
  lemma RangeComplete(ip: int, netmask: int)
    requires 0 <= ip < ADDRESSES && 0 <= netmask <= 32
    ensures (forall a :: InRange(a, ip, netmask) <==> Wanted(a, ip, netmask)) <==>
      netmask > 0 && ip + Power2(32 - netmask) < ADDRESSES
    ensures netmask > 0 && ip + Power2(32 - netmask) >= ADDRESSES ==> EndOf(ip, netmask) <= StartOf(ip, netmask)
    ensures netmask == 0 ==> forall a :: InRange(a, ip, netmask) <==> Wanted(a, ip, netmask) && a != LAST_ADDRESS
  {
    hide Power2;
    Power2Values();
    if netmask > 0 {
      Power2Grows(32 - netmask, 31);
      assert Wanted(ip, ip, netmask);
      if ip + Power2(32 - netmask) < ADDRESSES {
        assert EndOf(ip, netmask) == ip + Power2(32 - netmask);
      } else {
        assert EndOf(ip, netmask) == ip + Power2(32 - netmask) - ADDRESSES;
        assert !InRange(ip, ip, netmask);
      }
    } else {
      assert Wanted(LAST_ADDRESS, ip, netmask) && !InRange(LAST_ADDRESS, ip, netmask);
    }
  }

  /** A range that starts at a prefix holds exactly the addresses with that prefix. */
  lemma RangeIsPrefix(ip: int, netmask: int, a: int)
    requires 0 <= ip && 0 < netmask <= 32 && ip + Power2(32 - netmask) < ADDRESSES
    requires ip % Power2(32 - netmask) == 0
    ensures InRange(a, ip, netmask) <==> Shares(ip, netmask, a)
    ensures ip <= a < ip + Power2(32 - netmask) <==> ip / Power2(32 - netmask) == a / Power2(32 - netmask)
  {
    hide Power2;
    RangeFits(ip, netmask);
    DivideOnce(ip, Power2(32 - netmask), a);
  }

  lemma RangeFits(ip: int, netmask: int)
    requires 0 <= ip && 0 < netmask <= 32 && ip + Power2(32 - netmask) < ADDRESSES
    ensures StartOf(ip, netmask) == ip && EndOf(ip, netmask) == ip + Power2(32 - netmask) > ip
  {
    hide Power2;
    Power2Grows(32 - netmask, 32 - netmask);
  }

  lemma DivideOnce(ip: int, size: int, a: int)
    requires size > 0 && ip % size == 0
    ensures ip <= a < ip + size <==> ip / size == a / size
  {
    Quotient(ip, size);
    Quotient(a, size);
    var i, q := ip / size, a / size;
    if i < q {
      Times(i + 1, q, size);
    } else if q < i {
      Times(q + 1, i, size);
    }
  }

  lemma Quotient(a: int, d: int)
    requires d > 0
    ensures a / d * d <= a < (a / d + 1) * d
    ensures a % d == 0 ==> a == a / d * d
  {
  }

  lemma Times(i: int, j: int, d: int)
    requires i <= j && d > 0
    ensures i * d <= j * d
  {
  }

  // ----- zones in the tree -----

  /** `container_of` */
  function ZoneOf(n: Node): Zone
    requires n.entry is Zone
  {
    n.entry as Zone
  }

  ghost predicate AllZones(nodes: set<Node?>) {
    forall n :: n in nodes ==> n != null && n.entry is Zone
  }

  /** First by the first address, then by the end. */
  function Rank(start: int, end: int): int {
    start * ADDRESSES + end
  }

  ghost function Key(n: Node?): int {
    if n != null && n.entry is Zone then Rank(ZoneOf(n).start, ZoneOf(n).end) else 0
  }

  ghost predicate Sorted(s: seq<Node?>) {
    forall i, j :: 0 <= i < j < |s| ==> Key(s[i]) <= Key(s[j])
  }

  ghost predicate AllFrom(s: seq<Node?>, low: int) {
    forall n :: n in s ==> Key(n) >= low
  }

  ghost predicate AllUpTo(s: seq<Node?>, high: int) {
    forall n :: n in s ==> Key(n) <= high
  }

  /** A new range is refused when it meets, on its way down, one that ends after it. */
  ghost predicate Refused(t: Tree<Node?>, start: int, end: int)
    requires AllZones(Nodes(t))
  {
    t.Branch? &&
    if start < ZoneOf(t.node).start then Refused(t.left, start, end)
    else if end >= ZoneOf(t.node).end then Refused(t.right, start, end)
    else true
  }

  /** Only a range within another one is refused. */
  lemma {:induction false} RefusedIsNested(t: Tree<Node?>, start: int, end: int) returns (n: Node)
    requires AllZones(Nodes(t)) && Refused(t, start, end)
    ensures n in Nodes(t) && ZoneOf(n).start <= start && end < ZoneOf(n).end
  {
    n := t.node;
    if start < ZoneOf(n).start {
      n := RefusedIsNested(t.left, start, end);
    } else if end >= ZoneOf(n).end {
      n := RefusedIsNested(t.right, start, end);
    }
  }

  ghost predicate Apart(z: Zone, w: Zone) {
    z.end <= w.start || w.end <= z.start
  }

  /** No range wraps, and no two have an address in common. */
  ghost predicate Disjoint(zones: seq<Zone>) {
    && (forall i :: 0 <= i < |zones| ==> zones[i].start < zones[i].end)
    && (forall i, j :: 0 <= i < j < |zones| ==> Apart(zones[i], zones[j]))
  }

  /** `w` lies in `z` and ends before it: where the search for a place meets `z`, it refuses `w`. */
  ghost predicate Nested(z: Zone, w: Zone) {
    z.start <= w.start && w.end < z.end
  }

  ghost predicate NonNested(zones: seq<Zone>) {
    forall i, j :: 0 <= i < |zones| && 0 <= j < |zones| && i != j ==> !Nested(zones[i], zones[j])
  }

  /** `w` starts strictly inside `z` and ends before it: where the search for an address of `z`
      behind `w` meets `w` first, it turns away from `z`. */
  ghost predicate Hides(w: Zone, z: Zone) {
    z.start < w.start < z.end && w.end < z.end
  }

  ghost predicate NoneHidden(zones: seq<Zone>) {
    forall w, z :: w in zones && z in zones ==> !Hides(w, z)
  }

  /** From the narrowest condition to the widest: disjoint, not nested, none hidden. */
  lemma Conditions(zones: seq<Zone>)
    ensures Disjoint(zones) ==> NonNested(zones)
    ensures NonNested(zones) ==> NoneHidden(zones)
  {
    if Disjoint(zones) {
      forall i, j | 0 <= i < |zones| && 0 <= j < |zones| && i != j ensures !Nested(zones[i], zones[j]) {
        assert i < j ==> Apart(zones[i], zones[j]);
        assert j < i ==> Apart(zones[j], zones[i]);
      }
    }
    if NonNested(zones) {
      forall w, z | w in zones && z in zones ensures !Hides(w, z) {
        var i :| 0 <= i < |zones| && zones[i] == z;
        var j :| 0 <= j < |zones| && zones[j] == w;
        assert i != j ==> !Nested(zones[i], zones[j]);
      }
    }
  }

  lemma NonNestedFront(zones: seq<Zone>, z: Zone)
    requires NonNested(zones + [z])
    ensures NonNested(zones) && forall w :: w in zones ==> !Nested(w, z)
  {
    var all := zones + [z];
    assert forall i :: 0 <= i < |zones| ==> all[i] == zones[i];
    assert all[|zones|] == z;
    forall w | w in zones ensures !Nested(w, z) {
      var i :| 0 <= i < |zones| && zones[i] == w;
      assert !Nested(all[i], all[|zones|]);
    }
  }

  /** The linear scan. */
  ghost function Scan(zones: seq<Zone>, ip: int): Zone? {
    if zones == [] then null else if Contains(zones[0], ip) then zones[0] else Scan(zones[1..], ip)
  }

  lemma {:induction false} ScanIs(zones: seq<Zone>, ip: int)
    ensures Scan(zones, ip) == null ==> forall z :: z in zones ==> !Contains(z, ip)
    ensures Scan(zones, ip) != null ==> Scan(zones, ip) in zones && Contains(Scan(zones, ip), ip)
  {
    if zones != [] {
      ScanIs(zones[1..], ip);
      assert forall z :: z in zones ==> z == zones[0] || z in zones[1..];
    }
  }

  /** In a disjoint list at most one range contains an address. */
  lemma ContainedOnce(zones: seq<Zone>, z: Zone, ip: int)
    requires Disjoint(zones) && z in zones && Contains(z, ip)
    ensures Scan(zones, ip) == z
  {
    ScanIs(zones, ip);
    var i :| 0 <= i < |zones| && zones[i] == z;
    var j :| 0 <= j < |zones| && zones[j] == Scan(zones, ip);
    assert i == j;
  }

  /** The order in which disjoint zones were added does not matter. */
  lemma ScanIgnoresOrder(zones: seq<Zone>, zones': seq<Zone>, ip: int)
    requires Disjoint(zones) && Disjoint(zones') && forall z :: z in zones <==> z in zones'
    ensures Scan(zones, ip) == Scan(zones', ip)
  {
    hide Disjoint;
    ScanIs(zones, ip);
    ScanIs(zones', ip);
    if Scan(zones, ip) != null {
      ContainedOnce(zones', Scan(zones, ip), ip);
    }
  }

  // ----- steps of a search -----

  /** A step down the tree keeps what is known about the keys on both sides. */
  lemma Step(p: Path<Node?>, t: Tree<Node?>, at: int)
    requires Sorted(Inorder(Plug(p, t))) && t.Branch?
    requires AllUpTo(Before(p), at) && AllFrom(After(p), at + 1)
    ensures at < Key(t.node) ==>
      var q := InLeft(p, t.node, t.red, t.right); AllUpTo(Before(q), at) && AllFrom(After(q), at + 1)
    ensures at >= Key(t.node) ==>
      var q := InRight(p, t.left, t.node, t.red); AllUpTo(Before(q), at) && AllFrom(After(q), at + 1)
  {
    PlugInorder(p, t);
    SortedParts(Before(p), Inorder(t.left), t.node, Inorder(t.right), After(p));
  }

  lemma SortedParts(a: seq<Node?>, l: seq<Node?>, n: Node?, r: seq<Node?>, b: seq<Node?>)
    requires Sorted(a + (l + [n] + r) + b)
    ensures AllUpTo(l, Key(n)) && AllFrom(r, Key(n))
  {
    var s := a + (l + [n] + r) + b;
    assert s[|a| + |l|] == n;
    assert forall i :: 0 <= i < |l| ==> s[|a| + i] == l[i];
    assert forall i :: 0 <= i < |r| ==> s[|a| + |l| + 1 + i] == r[i];
  }

  /** Linking a node where its start belongs. */
  lemma Linked(p: Path<Node?>, n: Node)
    requires Sorted(Inorder(Plug(p, Leaf))) && n !in Nodes(Plug(p, Leaf))
    requires AllUpTo(Before(p), Key(n)) && AllFrom(After(p), Key(n) + 1)
    ensures var t: Tree<Node?> := Branch(Leaf, n, true, Leaf);
      Sorted(Inorder(Plug(p, t))) && Without(Inorder(Plug(p, t)), n) == Inorder(Plug(p, Leaf))
  {
    var t: Tree<Node?> := Branch(Leaf, n, true, Leaf);
    NodeIsInorder(Plug(p, Leaf), n);
    PlugInorder(p, Leaf);
    PlugInorder(p, t);
    assert Inorder(Plug(p, Leaf)) == Before(p) + After(p);
    assert Inorder(t) == [n];
    WithoutMiddle(Before(p), n, After(p));
    SortedBetween(Before(p), n, After(p));
  }

  lemma SortedBetween(a: seq<Node?>, n: Node?, b: seq<Node?>)
    requires Sorted(a + b) && AllUpTo(a, Key(n)) && AllFrom(b, Key(n))
    ensures Sorted(a + [n] + b)
  {
    var s, s' := a + b, a + [n] + b;
    forall i, j | 0 <= i < j < |s'| ensures Key(s'[i]) <= Key(s'[j]) {
      assert i < |a| ==> s'[i] == s[i] && s'[i] in a;
      assert i > |a| ==> s'[i] == s[i - 1];
      assert j < |a| ==> s'[j] == s[j];
      assert j > |a| ==> s'[j] == s[j - 1] && s'[j] in b;
    }
  }

  /** A range of the nodes contains this one, or is it. */
  ghost predicate Covered(nodes: set<Node?>, z: Zone)
    requires AllZones(nodes)
  {
    exists n :: n in nodes && ZoneOf(n).start <= z.start && z.end <= ZoneOf(n).end
  }

  ghost predicate InTree(nodes: set<Node?>, z: Zone)
    requires AllZones(nodes)
  {
    exists n :: n in nodes && ZoneOf(n) == z
  }

  /** The nodes hold zones that were added, each once; when none is nested in another they hold
      all; in any case they cover all. */
  ghost predicate Holding(added: seq<Zone>, nodes: set<Node?>)
    requires AllZones(nodes)
  {
    && (forall n :: n in nodes ==> ZoneOf(n) in added)
    && (forall m, n :: m in nodes && n in nodes && ZoneOf(m) == ZoneOf(n) ==> m == n)
    && (NonNested(added) ==> forall z :: z in added ==> InTree(nodes, z))
    && (forall z :: z in added ==> Covered(nodes, z))
  }

  lemma HoldingMore(added: seq<Zone>, nodes: set<Node?>, z: Zone, n: Node)
    requires AllZones(nodes) && Holding(added, nodes) && z !in added && n.entry == z
    ensures AllZones(nodes + {n}) && Holding(added + [z], nodes + {n})
  {
    hide NonNested, Covered, InTree;
    var all, more := nodes + {n}, added + [z];
    assert ZoneOf(n) == z && AllZones(all);
    NonNestedShorter(added, z);
    InTreeMore(nodes, n);
    assert forall w :: w in more <==> w in added || w == z;
  }

  lemma InTreeMore(nodes: set<Node?>, n: Node)
    requires AllZones(nodes) && n.entry is Zone
    ensures AllZones(nodes + {n}) && InTree(nodes + {n}, ZoneOf(n)) && Covered(nodes + {n}, ZoneOf(n))
    ensures forall w :: InTree(nodes, w) ==> InTree(nodes + {n}, w)
    ensures forall w :: Covered(nodes, w) ==> Covered(nodes + {n}, w)
  {
    var all := nodes + {n};
    assert n in all;
    forall w | InTree(nodes, w) ensures InTree(all, w) {
      var m :| m in nodes && ZoneOf(m) == w;
      assert m in all;
    }
    forall w | Covered(nodes, w) ensures Covered(all, w) {
      var m :| m in nodes && ZoneOf(m).start <= w.start && w.end <= ZoneOf(m).end;
      assert m in all;
    }
  }

  lemma NonNestedShorter(was: seq<Zone>, z: Zone)
    ensures NonNested(was + [z]) ==> NonNested(was)
  {
    if NonNested(was + [z]) {
      NonNestedFront(was, z);
    }
  }

  lemma HoldingRefused(added: seq<Zone>, t: Tree<Node?>, z: Zone)
    requires AllZones(Nodes(t)) && Holding(added, Nodes(t)) && Refused(t, z.start, z.end)
    ensures Holding(added + [z], Nodes(t)) && !NonNested(added + [z])
  {
    hide NonNested, InTree, Covered, Refused, Nodes;
    RefusedMeans(added, t, z);
    assert forall w :: w in added + [z] <==> w in added || w == z;
  }

  lemma RefusedMeans(added: seq<Zone>, t: Tree<Node?>, z: Zone)
    requires AllZones(Nodes(t)) && Refused(t, z.start, z.end)
    requires forall n :: n in Nodes(t) ==> ZoneOf(n) in added
    ensures Covered(Nodes(t), z) && !NonNested(added + [z])
  {
    hide NonNested, Nodes, Refused;
    var n := RefusedIsNested(t, z.start, z.end);
    NestedBreaks(added, ZoneOf(n), z);
  }

  lemma NestedBreaks(added: seq<Zone>, w: Zone, z: Zone)
    requires w in added && Nested(w, z)
    ensures !NonNested(added + [z])
  {
    if NonNested(added + [z]) {
      NonNestedFront(added, z);
    }
  }

  class IpZones {
    const tree: RbRoot
    var count: int
    /** The zones of all calls to `Add`, and the nodes made for them. */
    ghost var added: seq<Zone>

    constructor ()
      ensures Valid() && added == [] && fresh(tree)
    {
      tree := new RbRoot();
      count := 0;
      added := [];
    }

    ghost predicate Valid()
      reads this, tree, tree.nodes
    {
      && tree.Shaped() && RedBlackTree(tree.shape)
      && AllZones(tree.nodes) && Sorted(Inorder(tree.shape))
      && count == |added|
      && Holding(added, tree.nodes)
      && (NonNested(added) ==> |Inorder(tree.shape)| == |added|)
    }

    /** The loop of `rbtree_insert`: the empty link where a range belongs, unless it is refused. */
    method FindLink(data: Zone) returns (ok: bool, link: Link, parent: Node?, ghost p: Path<Node?>)
      requires tree.Shaped() && AllZones(tree.nodes) && Sorted(Inorder(tree.shape))
      ensures ok <==> !Refused(tree.shape, data.start, data.end)
      ensures ok ==> tree.shape == Plug(p, Leaf) && (p != Top ==> p.node != null)
      ensures ok ==> link == LinkOf(p) && parent == Parent(p, NONE)
      ensures ok ==> AllUpTo(Before(p), Rank(data.start, data.end)) && AllFrom(After(p), Rank(data.start, data.end) + 1)
      ensures ok ==> p == PlaceOf(Top, tree.shape, data.start, data.end)
    {
      hide Nodes, PathNodes, Plug, Distinct, PathDistinct, Inorder, Before, After, Sorted;
      link, parent := AtRoot, null;
      ghost var t, rank := tree.shape, Rank(data.start, data.end);
      p := Top;
      PlugTop(t);
      BesideTop(rank);
      tree.LinkAt(p, t);
      BranchWithin(t);
      while tree.At(link) != null
        invariant tree.shape == Plug(p, t) && (p != Top ==> p.node != null && p.node in tree.nodes)
        invariant link == LinkOf(p) && parent == Parent(p, NONE) && tree.At(link) == Ptr(t, NONE)
        invariant AllUpTo(Before(p), rank) && AllFrom(After(p), rank + 1)
        invariant Nodes(t) <= tree.nodes && (Refused(tree.shape, data.start, data.end) <==> Refused(t, data.start, data.end))
        invariant t.Branch? ==> t.node in tree.nodes
        invariant PlaceOf(p, t, data.start, data.end) == PlaceOf(Top, tree.shape, data.start, data.end)
        decreases t
      {
        parent := tree.At(link);
        BranchWithin(t);
        BranchWithin(t.left);
        BranchWithin(t.right);
        Step(p, t, rank);
        var this_ := ZoneOf(parent);
        if data.start < this_.start {
          link := LeftOf(parent);
          PlugStep(InLeft(p, t.node, t.red, t.right), t.left);
          p, t := InLeft(p, t.node, t.red, t.right), t.left;
        } else if data.end >= this_.end {
          link := RightOf(parent);
          PlugStep(InRight(p, t.left, t.node, t.red), t.right);
          p, t := InRight(p, t.left, t.node, t.red), t.right;
        } else {
          ok := false;
          return;
        }
        tree.LinkAt(p, t);
      }
      ok := true;
    }

    lemma WayRefuses(z: Zone)
      requires tree.Shaped() && AllZones(tree.nodes)
      ensures AllZones(Nodes(tree.shape))
      ensures !Refused(tree.shape, z.start, z.end) <==>
        forall n: Node :: n in Passed(PlaceOf(Top, tree.shape, z.start, z.end)) && n.entry is Zone ==>
          !(ZoneOf(n).start <= z.start && z.end < ZoneOf(n).end)
    {
      hide Refused, Passed, PlaceOf, RbRoot.Shaped, Nodes;
      tree.Within();
      RefusedOnTheWay(tree.shape, z.start, z.end);
    }

    /** `rbtree_insert` */
    method Insert(node: Node) returns (ok: bool)
      requires tree.Shaped() && RedBlackTree(tree.shape) && AllZones(tree.nodes) && Sorted(Inorder(tree.shape))
      requires node !in tree.nodes && node.entry is Zone
      modifies tree, tree.nodes, node
      ensures tree.Shaped() && RedBlackTree(tree.shape) && Sorted(Inorder(tree.shape))
      ensures ok <==> !Refused(old(tree.shape), ZoneOf(node).start, ZoneOf(node).end)
      ensures var z := ZoneOf(node);
        ok <==> forall n: Node :: n in Passed(PlaceOf(Top, old(tree.shape), z.start, z.end)) && n.entry is Zone ==>
          !(ZoneOf(n).start <= z.start && z.end < ZoneOf(n).end)
      ensures ok ==>
        var z := ZoneOf(node);
        tree.shape == InsertFixed(PlaceOf(Top, old(tree.shape), z.start, z.end), Branch(Leaf, node, true, Leaf))
      ensures ok ==> Without(Inorder(tree.shape), node) == old(Inorder(tree.shape))
      ensures ok ==> tree.nodes == old(tree.nodes) + {node}
      ensures !ok ==> tree.shape == old(tree.shape) && tree.nodes == old(tree.nodes)
    {
      hide Nodes, PathNodes, Plug, Distinct, PathDistinct, Inorder, Before, After, RedBlackTree, InsertPending,
        InsertFixed, Without, Sorted, Passed, PlaceOf, Refused;
      WayRefuses(ZoneOf(node));
      var link, parent;
      ghost var p;
      ok, link, parent, p := FindLink(ZoneOf(node));
      if ok {
        Linked(p, node);
        Pending(p, node);
        tree.LinkNode(node, parent, link, p);
        tree.InsertColor(node, p, Branch(Leaf, node, true, Leaf));
      }
    }

    /** The end of `ip_zones_add`: a refused range is counted all the same. */
    method Add(name: string, ip: int, netmask: int)
      requires Valid() && 0 <= ip < ADDRESSES && 0 <= netmask <= 32
      modifies this, tree, tree.nodes
      ensures Valid() && fresh(tree.nodes - old(tree.nodes))
      ensures count == old(count) + 1
      ensures |added| == |old(added)| + 1 && added[..|old(added)|] == old(added)
      ensures var z := added[|old(added)|];
        && fresh(z) && z.name == name && z.netmask == netmask && z.start == StartOf(ip, netmask) && z.end == EndOf(ip, netmask)
        && if netmask == 0 then z.start == 0 && z.end == 0xffff_ffff
           else z.start == ip && z.end == (ip + Power2(32 - netmask)) % 0x1_0000_0000
      ensures old(tree.nodes) <= tree.nodes
      ensures tree.nodes == old(tree.nodes) <==> Refused(old(tree.shape), StartOf(ip, netmask), EndOf(ip, netmask))
      ensures tree.nodes == old(tree.nodes) ==> tree.shape == old(tree.shape)
      ensures tree.nodes != old(tree.nodes) ==> exists n: Node ::
        && n in tree.nodes && ZoneOf(n) == added[|old(added)|]
        && tree.shape == InsertFixed(PlaceOf(Top, old(tree.shape), StartOf(ip, netmask), EndOf(ip, netmask)), Branch(Leaf, n, true, Leaf))
      ensures |Inorder(tree.shape)| == |old(Inorder(tree.shape))| + if tree.nodes == old(tree.nodes) then 0 else 1
    {
      hide Nodes, Inorder, RedBlackTree, Without, Sorted, RbRoot.Shaped, NonNested, Refused, InsertFixed,
        PlaceOf, Holding;
      ghost var was := added;
      var z := new Zone(name, ip, netmask);
      var node := new Node(z);
      tree.Within();
      KnownZones(was, z);
      EndsFit(ip, netmask);
      if Refused(tree.shape, z.start, z.end) {
        HoldingRefused(was, tree.shape, z);
      } else {
        HoldingMore(was, tree.nodes, z, node);
        NonNestedShorter(was, z);
      }
      count := count + 1;
      added := was + [z];
      var ok := Insert(node);
      if ok {
        tree.Within();
        NodeIsInorder(tree.shape, node);
        var j := WithoutAt(Inorder(tree.shape), node);
      }
    }

    lemma KnownZones(was: seq<Zone>, z: Zone)
      requires was == added && z !in added && Valid()
      ensures forall n :: n in tree.nodes ==> ZoneOf(n) != z
    {
    }

    /** `rbtree_search`: what is found is right; when no range hides another, something is found
        exactly when a linear scan finds something; when the ranges are disjoint, it is the same. */
    method Find(ip: int) returns (r: Zone?)
      requires Valid()
      ensures r == Found(tree.shape, ip)
      ensures r != null ==> r in added && r.start <= ip < r.end
      ensures (forall w, z :: w in added && z in added ==> !(z.start < w.start < z.end && w.end < z.end)) ==>
        (r == null <==> forall z :: z in added ==> !(z.start <= ip < z.end))
      ensures NoneHidden(added) ==> (r == null <==> Scan(added, ip) == null)
      ensures Disjoint(added) ==> r == Scan(added, ip)
      ensures ((forall z :: z in added ==> z.start < z.end) &&
        (forall i, j :: 0 <= i < j < |added| ==> added[i].end <= added[j].start || added[j].end <= added[i].start)) ==>
        forall z :: z in added && z.start <= ip < z.end ==> r == z
    {
      hide PathNodes, Plug, Distinct, PathDistinct, Inorder, Nodes, RedBlackTree, Disjoint, NoneHidden, Sorted,
        Valid, RbRoot.Shaped;
      FindMeans(ip);
      FindMisses(ip);
      FindExact(ip);
      ValidTree();
      var node := tree.root;
      ghost var p, t := Top, tree.shape;
      PlugTop(t);
      tree.Look(p, t);
      tree.Within();
      while node != null
        invariant tree.shape == Plug(p, t) && node == Ptr(t, NONE)
        invariant Nodes(t) <= tree.nodes && Found(t, ip) == Found(tree.shape, ip)
        decreases t
      {
        BranchWithin(t);
        tree.Look(p, t);
        var ip_zone := ZoneOf(node);
        if ip < ip_zone.start {
          node := node.left;
          PlugStep(InLeft(p, t.node, t.red, t.right), t.left);
          p, t := InLeft(p, t.node, t.red, t.right), t.left;
        } else if ip >= ip_zone.end {
          node := node.right;
          PlugStep(InRight(p, t.left, t.node, t.red), t.right);
          p, t := InRight(p, t.left, t.node, t.red), t.right;
        } else {
          return ip_zone;
        }
        BranchWithin(t);
      }
      r := null;
      BranchWithin(t);
    }

    lemma NoZones()
      requires Valid() && added == []
      ensures tree.shape == Leaf && tree.nodes == {}
    {
      tree.Within();
      assert forall n :: n !in tree.nodes;
      tree.EmptyInorder();
    }

    lemma ValidTree()
      requires Valid()
      ensures tree.Shaped() && RedBlackTree(tree.shape) && AllZones(tree.nodes) && AllZones(Nodes(tree.shape))
    {
      tree.Within();
    }

    /** What the search finds, against a linear scan over all that was added. */
    lemma FindMeans(ip: int)
      requires Valid()
      ensures Found(tree.shape, ip) != null ==> Found(tree.shape, ip) in added && Contains(Found(tree.shape, ip), ip)
      ensures NoneHidden(added) ==> (Found(tree.shape, ip) == null <==> Scan(added, ip) == null)
      ensures Disjoint(added) ==> Found(tree.shape, ip) == Scan(added, ip)
    {
      hide RedBlackTree, Disjoint, Sorted, Inorder, Found, Nodes, RbRoot.Shaped, NonNested, NoneHidden, Scan, Holding;
      tree.Within();
      Conditions(added);
      ScanIs(added, ip);
      var r := Found(tree.shape, ip);
      if r != null {
        var n := FoundIs(tree.shape, ip);
        HeldIsAdded(n);
        if Disjoint(added) {
          ContainedOnce(added, r, ip);
        }
      }
      if NoneHidden(added) && Scan(added, ip) != null {
        var n := HeldCovers(Scan(added, ip));
        NothingHides(n);
        FoundComplete(tree.shape, ip, n);
      }
    }

    lemma FindMisses(ip: int)
      requires Valid()
      ensures (forall w, z :: w in added && z in added ==> !(z.start < w.start < z.end && w.end < z.end)) ==>
        (Found(tree.shape, ip) == null <==> forall z :: z in added ==> !(z.start <= ip < z.end))
    {
      hide Valid, Found, Scan;
      FindMeans(ip);
      ScanIs(added, ip);
    }

    lemma FindExact(ip: int)
      requires Valid()
      ensures ((forall z :: z in added ==> z.start < z.end) &&
        (forall i, j :: 0 <= i < j < |added| ==> added[i].end <= added[j].start || added[j].end <= added[i].start)) ==>
        forall z :: z in added && z.start <= ip < z.end ==> Found(tree.shape, ip) == z
    {
      hide Valid, Found, Scan;
      FindMeans(ip);
      ValidTree();
      if (forall z :: z in added ==> z.start < z.end) &&
        forall i, j :: 0 <= i < j < |added| ==> added[i].end <= added[j].start || added[j].end <= added[i].start
      {
        assert Disjoint(added) by {
          assert forall i :: 0 <= i < |added| ==> added[i] in added;
        }
        forall z | z in added && z.start <= ip < z.end ensures Found(tree.shape, ip) == z {
          ContainedOnce(added, z, ip);
        }
      }
    }

    /** While no range added lies in another and ends before it, every one is in the tree. */
    lemma AllHeld(z: Zone)
      requires Valid() && z in added
      ensures
        (forall i, j :: 0 <= i < |added| && 0 <= j < |added| && i != j ==>
          !(added[i].start <= added[j].start && added[j].end < added[i].end)) ==>
        |Inorder(tree.shape)| == |added| && exists n :: n in tree.nodes && ZoneOf(n) == z
    {
      hide RedBlackTree, Sorted, Inorder, Found, RbRoot.Shaped;
      if forall i, j :: 0 <= i < |added| && 0 <= j < |added| && i != j ==>
        !(added[i].start <= added[j].start && added[j].end < added[i].end)
      {
        assert NonNested(added);
      }
    }

    lemma HeldIsAdded(n: Node)
      requires Valid() && n in tree.nodes
      ensures ZoneOf(n) in added
    {
    }

    lemma HeldCovers(z: Zone) returns (n: Node)
      requires Valid() && z in added
      ensures n in tree.nodes && ZoneOf(n).start <= z.start && z.end <= ZoneOf(n).end
    {
      assert Covered(tree.nodes, z);
      n :| n in tree.nodes && ZoneOf(n).start <= z.start && z.end <= ZoneOf(n).end;
    }

    lemma NothingHides(n: Node)
      requires Valid() && n in tree.nodes && NoneHidden(added)
      ensures forall m: Node :: m in tree.nodes ==> !Hides(ZoneOf(m), ZoneOf(n))
    {
    }

    lemma DumpOrder()
      requires Valid()
      ensures forall n: Node :: n in Inorder(tree.shape) <==> n in tree.nodes
      ensures var s := Inorder(tree.shape);
        forall i, j :: 0 <= i < j < |s| ==>
          s[i] != null && s[i].entry is Zone && s[j] != null && s[j].entry is Zone &&
          (s[i].entry as Zone).start <= (s[j].entry as Zone).start
    {
      hide Inorder, Nodes, RedBlackTree, RbRoot.Shaped;
      tree.Within();
      var s := Inorder(tree.shape);
      forall n: Node? ensures n in s <==> n in Nodes(tree.shape) {
        NodeIsInorder(tree.shape, n);
      }
      forall i, j | 0 <= i < j < |s|
        ensures s[i] != null && s[i].entry is Zone && s[j] != null && s[j].entry is Zone &&
          (s[i].entry as Zone).start <= (s[j].entry as Zone).start
      {
        assert s[i] in s && s[j] in s;
        RankOrder(ZoneOf(s[i]), ZoneOf(s[j]));
      }
    }

    /** The loop of `ip_zones_dump`. */
    method Dump() returns (visited: seq<Node?>)
      requires Valid()
      ensures visited == Inorder(tree.shape) && NoDuplicates(visited)
      // Every node is visited, in the order of the first addresses.
      ensures forall n: Node :: n in visited <==> n in tree.nodes
      ensures forall i, j :: 0 <= i < j < |visited| ==>
        var m, n := visited[i], visited[j];
        m != null && m.entry is Zone && n != null && n.entry is Zone && (m.entry as Zone).start <= (n.entry as Zone).start
    {
      hide Inorder, Nodes, RedBlackTree, RbRoot.Shaped, NoDuplicates, Sorted, Follows, Valid;
      ValidTree();
      tree.InorderDistinct();
      tree.InorderWithin();
      visited := [];
      var node := tree.First();
      while node != null
        invariant |visited| <= |Inorder(tree.shape)| && visited == Inorder(tree.shape)[..|visited|]
        invariant node == if |visited| < |Inorder(tree.shape)| then Inorder(tree.shape)[|visited|] else null
        invariant node != null ==> node in tree.nodes
        decreases |Inorder(tree.shape)| - |visited|
      {
        ghost var s, i := Inorder(tree.shape), |visited|;
        var next := tree.Next(node);
        FollowsAt(s, i, next);
        visited := visited + [node];
        node := next;
      }
      DumpOrder();
    }

    /** `ip_zones_destroy`: the next node is taken before a node is erased, and every node is erased once. */
    method Destroy() returns (ghost freed: seq<Node?>)
      requires Valid()
      modifies tree, tree.nodes
      ensures freed == old(Inorder(tree.shape)) && NoDuplicates(freed)
      ensures tree.Shaped() && tree.shape == Leaf && tree.root == null
    {
      hide Inorder, Nodes, RedBlackTree, RbRoot.Shaped, NoDuplicates, Sorted, Without, Follows, Valid;
      ValidTree();
      ghost var all := Inorder(tree.shape);
      tree.InorderDistinct();
      freed := [];
      var node := tree.First();
      while node != null
        invariant tree.Shaped() && RedBlackTree(tree.shape) && tree.nodes <= old(tree.nodes)
        invariant freed + Inorder(tree.shape) == all
        invariant node == if Inorder(tree.shape) == [] then null else Inorder(tree.shape)[0]
        invariant (node == null <==> Inorder(tree.shape) == []) && (node != null ==> node in tree.nodes)
        decreases |Inorder(tree.shape)|
      {
        WithoutFirst(Inorder(tree.shape), node);
        ghost var s := Inorder(tree.shape);
        var next := tree.Next(node);
        FollowsAt(s, 0, next);
        tree.Erase(node);
        freed := freed + [node];
        assert s == [s[0]] + s[1..];
        tree.InorderWithin();
        node := next;
      }
      tree.EmptyInorder();
    }
  }

  /** A range that lies in no other and ends before it is not refused. */
  lemma NotRefused(was: seq<Zone>, z: Zone, tree: RbRoot)
    requires NonNested(was + [z]) && tree.Shaped() && AllZones(tree.nodes)
    requires forall n :: n in tree.nodes ==> ZoneOf(n) in was
    ensures NonNested(was) && !Refused(tree.shape, z.start, z.end)
  {
    NonNestedFront(was, z);
    if Refused(tree.shape, z.start, z.end) {
      var n := RefusedIsNested(tree.shape, z.start, z.end);
      assert false;
    }
  }

  lemma EndsFit(ip: int, netmask: int)
    requires 0 <= ip < ADDRESSES && 0 <= netmask <= 32
    ensures 0 <= StartOf(ip, netmask) < ADDRESSES && 0 <= EndOf(ip, netmask) < ADDRESSES
  {
  }

  /** Where a range belongs that is not refused. */
  ghost function PlaceOf(p: Path<Node?>, t: Tree<Node?>, start: int, end: int): Path<Node?>
    requires AllZones(Nodes(t))
    decreases t
  {
    if t.Leaf? then p
    else if start < ZoneOf(t.node).start then PlaceOf(InLeft(p, t.node, t.red, t.right), t.left, start, end)
    else PlaceOf(InRight(p, t.left, t.node, t.red), t.right, start, end)
  }

  /** The nodes that the way to the end of a path passes. */
  ghost function Passed(p: Path<Node?>): set<Node?> {
    if p.Top? then {} else Passed(p.up) + {p.node}
  }

  /** A range is refused exactly when the way to its place passes one that contains it and ends after it. */
  lemma RefusedOnTheWay(t: Tree<Node?>, start: int, end: int)
    requires AllZones(Nodes(t))
    ensures Passed(PlaceOf(Top, t, start, end)) <= Nodes(t)
    ensures Refused(t, start, end) <==>
      exists n: Node :: n in Passed(PlaceOf(Top, t, start, end)) && ZoneOf(n).start <= start && end < ZoneOf(n).end
  {
    PassedWithin(Top, t, start, end);
    RefusedFrom(Top, t, start, end);
  }

  lemma {:induction false} PassedWithin(p: Path<Node?>, t: Tree<Node?>, start: int, end: int)
    requires AllZones(Nodes(t))
    ensures Passed(PlaceOf(p, t, start, end)) <= Passed(p) + Nodes(t)
    ensures Passed(p) <= Passed(PlaceOf(p, t, start, end))
    decreases t
  {
    if t.Branch? {
      if start < ZoneOf(t.node).start {
        PassedWithin(InLeft(p, t.node, t.red, t.right), t.left, start, end);
      } else {
        PassedWithin(InRight(p, t.left, t.node, t.red), t.right, start, end);
      }
    }
  }

  lemma {:induction false} RefusedFrom(p: Path<Node?>, t: Tree<Node?>, start: int, end: int)
    requires AllZones(Nodes(t)) && AllZones(Passed(p))
    ensures AllZones(Passed(PlaceOf(p, t, start, end)))
    ensures
      (exists n: Node :: n in Passed(PlaceOf(p, t, start, end)) && ZoneOf(n).start <= start && end < ZoneOf(n).end) <==>
      Refused(t, start, end) || exists n: Node :: n in Passed(p) && ZoneOf(n).start <= start && end < ZoneOf(n).end
    decreases t
  {
    PassedWithin(p, t, start, end);
    if t.Branch? {
      if start < ZoneOf(t.node).start {
        RefusedFrom(InLeft(p, t.node, t.red, t.right), t.left, start, end);
      } else {
        PassedWithin(InRight(p, t.left, t.node, t.red), t.right, start, end);
        RefusedFrom(InRight(p, t.left, t.node, t.red), t.right, start, end);
      }
    }
  }

  /** What the search finds. */
  ghost function Found(t: Tree<Node?>, ip: int): Zone?
    requires AllZones(Nodes(t))
  {
    if t.Leaf? then null
    else if ip < ZoneOf(t.node).start then Found(t.left, ip)
    else if ip >= ZoneOf(t.node).end then Found(t.right, ip)
    else ZoneOf(t.node)
  }

  lemma {:induction false} FoundIs(t: Tree<Node?>, ip: int) returns (n: Node)
    requires AllZones(Nodes(t)) && Found(t, ip) != null
    ensures n in Nodes(t) && ZoneOf(n) == Found(t, ip) && Contains(ZoneOf(n), ip)
  {
    n := t.node;
    if ip < ZoneOf(n).start {
      n := FoundIs(t.left, ip);
    } else if ip >= ZoneOf(n).end {
      n := FoundIs(t.right, ip);
    }
  }

  /** The search does not miss an address of a range that no other range hides. */
  lemma {:induction false} FoundComplete(t: Tree<Node?>, ip: int, n: Node)
    requires AllZones(Nodes(t)) && Sorted(Inorder(t)) && n in Nodes(t) && Contains(ZoneOf(n), ip)
    requires forall m :: m in Nodes(t) ==> !Hides(ZoneOf(m), ZoneOf(n))
    ensures Found(t, ip) != null
  {
    hide Inorder, Sorted;
    BranchWithin(t);
    SortedBelow(t);
    var z := ZoneOf(t.node);
    if ip < z.start || ip >= z.end {
      Narrow(t, ip, n);
      FoundComplete(if ip < z.start then t.left else t.right, ip, n);
    }
  }

  lemma SortedBelow(t: Tree<Node?>)
    requires Sorted(Inorder(t)) && t.Branch?
    ensures Sorted(Inorder(t.left)) && Sorted(Inorder(t.right))
    ensures AllUpTo(Inorder(t.left), Key(t.node)) && AllFrom(Inorder(t.right), Key(t.node))
  {
    var l, r := Inorder(t.left), Inorder(t.right);
    assert Inorder(t) == l + [t.node] + r;
    SortedHalves(l, t.node, r);
  }

  lemma SortedHalves(l: seq<Node?>, n: Node?, r: seq<Node?>)
    requires Sorted(l + [n] + r)
    ensures Sorted(l) && Sorted(r) && AllUpTo(l, Key(n)) && AllFrom(r, Key(n))
  {
    var s := l + [n] + r;
    assert l == s[..|l|] && r == s[|l| + 1..] && s[|l|] == n;
    SortedSlice(s, 0, |l|, |l|);
    SortedSlice(s, |l| + 1, |s|, |l|);
  }

  lemma SortedSlice(s: seq<Node?>, i: nat, j: nat, k: nat)
    requires Sorted(s) && i <= j <= |s| && k < |s|
    ensures Sorted(s[i..j])
    ensures j <= k ==> AllUpTo(s[i..j], Key(s[k]))
    ensures k < i ==> AllFrom(s[i..j], Key(s[k]))
  {
  }

  /** An address that is not in the root's range can only be in one on its side of the root,
      unless the root hides that one. */
  lemma Narrow(t: Tree<Node?>, ip: int, n: Node)
    requires t.Branch? && Sorted(Inorder(t)) && AllZones(Nodes(t)) && t.node in Nodes(t)
    requires n in Nodes(t) && Contains(ZoneOf(n), ip) && !Contains(ZoneOf(t.node), ip)
    requires !Hides(ZoneOf(t.node), ZoneOf(n))
    ensures n in Nodes(if ip < ZoneOf(t.node).start then t.left else t.right)
  {
    SortedBelow(t);
    NodeIsInorder(t.left, n);
    NodeIsInorder(t.right, n);
    RankOrder(ZoneOf(n), ZoneOf(t.node));
    RankOrder(ZoneOf(t.node), ZoneOf(n));
    hide Inorder, Sorted, Rank;
    assert n in Nodes(t.left) || n in Nodes(t.right);
  }

  lemma RankOrder(z: Zone, w: Zone)
    ensures Rank(z.start, z.end) <= Rank(w.start, w.end) <==> z.start < w.start || (z.start == w.start && z.end <= w.end)
  {
  }

  lemma BesideTop(at: int)
    ensures AllUpTo(Before<Node?>(Top), at) && AllFrom(After<Node?>(Top), at + 1)
  {
  }

  lemma BranchWithin(t: Tree<Node?>)
    ensures t.Branch? ==> t.node in Nodes(t) && Nodes(t.left) <= Nodes(t) && Nodes(t.right) <= Nodes(t)
    ensures t.Leaf? ==> Nodes(t) == {}
  {
  }

  /** A new red node leaves the tree ready for `rb_insert_color`. */
  lemma Pending(p: Path<Node?>, n: Node)
    requires RedBlackTree(Plug(p, Leaf))
    ensures InsertPending(p, Branch(Leaf, n, true, Leaf))
  {
    PlugRedBlack(p, Leaf);
  }

  // ----- the conditions are exact: two ranges in an empty index -----

  ghost function One(n: Node, red: bool): Tree<Node?> {
    Branch(Leaf, n, red, Leaf)
  }

  /** The tree that two ranges leave. */
  ghost predicate IsOne(t: Tree<Node?>, z: Zone) {
    t.Branch? && t.left.Leaf? && t.right.Leaf? && t.node != null && t.node.entry == z
  }

  ghost predicate HoldsTwo(t: Tree<Node?>, z: Zone, w: Zone) {
    && t.Branch? && t.node != null && t.node.entry == z
    && if w.start < z.start then IsOne(t.left, w) && t.right.Leaf?
       else if w.end >= z.end then t.left.Leaf? && IsOne(t.right, w)
       else t.left.Leaf? && t.right.Leaf?
  }

  lemma OneNode(n: Node, red: bool)
    requires n.entry is Zone
    ensures Nodes(One(n, red)) == {n} && Inorder(One(n, red)) == [n] && AllZones(Nodes(One(n, red)))
  {
  }

  lemma FirstPlace(start: int, end: int)
    ensures AllZones(Nodes<Node?>(Leaf)) && !Refused(Leaf, start, end) && PlaceOf(Top, Leaf, start, end) == Top
  {
  }

  lemma First(m: Node)
    ensures InsertFixed(Top, One(m, true)) == One(m, false)
  {
  }

  lemma OnlyFirst(m: Node, z: Zone, w: Zone)
    requires m.entry == z && Nested(z, w)
    ensures HoldsTwo(One(m, false), z, w)
  {
  }

  /** Over one range, refusing is being nested. */
  lemma Second(m: Node, start: int, end: int)
    requires m.entry is Zone
    ensures AllZones(Nodes(One(m, false)))
    ensures Refused(One(m, false), start, end) <==> ZoneOf(m).start <= start && end < ZoneOf(m).end
  {
    OneNode(m, false);
  }

  lemma SecondShape(m: Node, n: Node)
    requires m.entry is Zone && n.entry is Zone && !Nested(ZoneOf(m), ZoneOf(n))
    ensures AllZones(Nodes(One(m, false)))
    ensures HoldsTwo(InsertFixed(PlaceOf(Top, One(m, false), ZoneOf(n).start, ZoneOf(n).end), One(n, true)), ZoneOf(m), ZoneOf(n))
  {
    OneNode(m, false);
    if ZoneOf(n).start < ZoneOf(m).start {
      assert Plug(InLeft(Top, m, false, Leaf), One(n, true)) == Branch(One(n, true), m, false, Leaf);
    } else {
      assert Plug(InRight(Top, Leaf, m, false), One(n, true)) == Branch(Leaf, m, false, One(n, true));
    }
  }

  /** The second of two ranges is missing if and only if it is nested in the first. */
  lemma NestedIsRefused(t: Tree<Node?>, z: Zone, w: Zone)
    requires HoldsTwo(t, z, w)
    ensures |Inorder(t)| == if Nested(z, w) then 1 else 2
  {
    assert w.start < z.start ==> Inorder(t.left) == [t.left.node];
    assert t.right.Branch? ==> Inorder(t.right) == [t.right.node];
  }

  /** The tree finds a zone for the same addresses as a linear scan. */
  ghost predicate FindsSame(t: Tree<Node?>, zones: seq<Zone>)
    requires AllZones(Nodes(t))
  {
    forall a :: Found(t, a) == null <==> Scan(zones, a) == null
  }

  lemma NotSame(t: Tree<Node?>, zones: seq<Zone>, a: int)
    requires AllZones(Nodes(t)) && Found(t, a) == null && Scan(zones, a) != null
    ensures !FindsSame(t, zones)
  {
  }

  /** The index of two ranges finds one for the same addresses as a linear scan if and only if
      the first range does not hide the second. */
  lemma HidingIsMissing(t: Tree<Node?>, z: Zone, w: Zone)
    requires HoldsTwo(t, z, w)
    ensures AllZones(Nodes(t))
    ensures FindsSame(t, [z, w]) <==> !Hides(z, w)
  {
    hide Found, Scan, HoldsTwo;
    TwoZones(t, z, w);
    forall a ensures Scan([z, w], a) == null <==> !Contains(z, a) && !Contains(w, a) {
      ScanTwo(z, w, a);
    }
    forall a ensures Found(t, a) == FoundOfTwo(z, w, a) {
      FindsOfTwo(t, z, w, a);
    }
    if Hides(z, w) {
      var a := if z.start < z.end then z.end else z.start;
      assert FoundOfTwo(z, w, a) == null && Contains(w, a) && !Contains(z, a);
      NotSame(t, [z, w], a);
    } else {
      forall a ensures Found(t, a) == null <==> Scan([z, w], a) == null {
        BothOrNone(z, w, a);
      }
    }
  }

  lemma BothOrNone(z: Zone, w: Zone, a: int)
    requires !Hides(z, w)
    ensures FoundOfTwo(z, w, a) == null <==> !Contains(z, a) && !Contains(w, a)
  {
  }

  function FoundOfTwo(z: Zone, w: Zone, a: int): Zone? {
    if a < z.start then (if w.start < z.start && w.start <= a < w.end then w else null)
    else if a >= z.end then (if w.start >= z.start && w.end >= z.end && w.start <= a < w.end then w else null)
    else z
  }

  lemma TwoZones(t: Tree<Node?>, z: Zone, w: Zone)
    requires HoldsTwo(t, z, w)
    ensures AllZones(Nodes(t))
  {
    assert t.left.Branch? ==> Nodes(t.left) == {t.left.node};
    assert t.right.Branch? ==> Nodes(t.right) == {t.right.node};
  }

  lemma ScanTwo(z: Zone, w: Zone, a: int)
    ensures Scan([z, w], a) == null <==> !Contains(z, a) && !Contains(w, a)
  {
    assert [z, w][1..] == [w] && [w][1..] == [];
    assert Scan([w], a) == if Contains(w, a) then w else null;
  }

  lemma FindsOfTwo(t: Tree<Node?>, z: Zone, w: Zone, a: int)
    requires HoldsTwo(t, z, w) && AllZones(Nodes(t))
    ensures Found(t, a) == FoundOfTwo(z, w, a)
  {
    if IsOne(t.left, w) {
      FoundOne(t.left, w, a);
    }
    if IsOne(t.right, w) {
      FoundOne(t.right, w, a);
    }
  }

  lemma FoundOne(t: Tree<Node?>, w: Zone, a: int)
    requires IsOne(t, w)
    ensures AllZones(Nodes(t)) && Found(t, a) == if w.start <= a < w.end then w else null
  {
    assert Nodes(t) == {t.node};
  }

  /** Two calls on an empty index. */
  method AddTwo(ip: int, netmask: int, ip': int, netmask': int) returns (zones: IpZones)
    requires 0 <= ip < ADDRESSES && 0 <= netmask <= 32 && 0 <= ip' < ADDRESSES && 0 <= netmask' <= 32
    ensures zones.Valid() && |zones.added| == 2 == zones.count
    ensures zones.added[0].start == StartOf(ip, netmask) && zones.added[0].end == EndOf(ip, netmask)
    ensures zones.added[1].start == StartOf(ip', netmask') && zones.added[1].end == EndOf(ip', netmask')
    ensures HoldsTwo(zones.tree.shape, zones.added[0], zones.added[1])
  {
    hide IpZones.Valid, RedBlackTree, Nodes, Inorder, InsertFixed, PlaceOf, Refused, HoldsTwo;
    zones := new IpZones();
    zones.NoZones();
    EndsFit(ip, netmask);
    EndsFit(ip', netmask');
    FirstPlace(StartOf(ip, netmask), EndOf(ip, netmask));
    zones.Add("", ip, netmask);
    ghost var z := zones.added[0];
    ghost var m: Node :| m.entry == z && zones.tree.shape == InsertFixed(Top, One(m, true));
    First(m);
    Second(m, StartOf(ip', netmask'), EndOf(ip', netmask'));
    zones.Add("", ip', netmask');
    ghost var w := zones.added[1];
    assert zones.added[0] == zones.added[..1][0] == z;
    if Nested(z, w) {
      OnlyFirst(m, z, w);
    } else {
      ghost var n: Node :| n.entry == w &&
        zones.tree.shape == InsertFixed(PlaceOf(Top, One(m, false), w.start, w.end), One(n, true));
      SecondShape(m, n);
    }
  }

  /** 10.0.0.0/8 and then 10.0.0.0/16: the second is counted and refused. */
  method RefusedExample() returns (zones: IpZones)
    ensures zones.Valid() && zones.count == 2 && |Inorder(zones.tree.shape)| == 1
  {
    Ranges();
    zones := AddTwo(0x0A00_0000, 8, 0x0A00_0000, 16);
    NestedIsRefused(zones.tree.shape, zones.added[0], zones.added[1]);
  }

  /** 10.1.0.0/16 and then 10.0.0.0/8: both are accepted, and 10.2.0.0, which is in the second, is not found. */
  method HiddenExample() returns (zones: IpZones, r: Zone?)
    ensures zones.Valid() && zones.count == |Inorder(zones.tree.shape)| == 2
    ensures r == null && Contains(zones.added[1], 0x0A02_0000)
  {
    Ranges();
    zones := AddTwo(0x0A01_0000, 16, 0x0A00_0000, 8);
    NestedIsRefused(zones.tree.shape, zones.added[0], zones.added[1]);
    zones.ValidTree();
    FindsOfTwo(zones.tree.shape, zones.added[0], zones.added[1], 0x0A02_0000);
    r := zones.Find(0x0A02_0000);
  }

  lemma Ranges()
    ensures StartOf(0x0A00_0000, 8) == 0x0A00_0000 && EndOf(0x0A00_0000, 8) == 0x0B00_0000
    ensures StartOf(0x0A00_0000, 16) == 0x0A00_0000 && EndOf(0x0A00_0000, 16) == 0x0A01_0000
    ensures StartOf(0x0A01_0000, 16) == 0x0A01_0000 && EndOf(0x0A01_0000, 16) == 0x0A02_0000
  {
    assert Power2(8) == 0x100;
    assert Power2(16) == 0x1_0000;
    assert Power2(24) == 0x100_0000;
  }
}
