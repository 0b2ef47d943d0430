/**
  The chained hash table: rows of doubly linked nodes, unique keys, and a
  cursor that is already past the node it returns.
 */
module HashMap {

  /** The bytes of a key: a fixed number of them, or a string. */
  type Key = seq<bv8>

  const ERR := -1
  const OK := 0
  const INTABLE := 1
  const UINT_RANGE := 0x1_0000_0000

  class Node {
    const key: Key
    const data: object?
    var next: Node?
    var prev: Node?

    constructor (key: Key, data: object?)
      ensures this.key == key && this.data == data
    {
      this.key, this.data := key, data;
    }
  }

  /** Memory that the table gives back: its copy of a key, or the user's data through the user's function. */
  datatype Release = KeyCopy(key: Key) | UserData(data: object)

  function At(row: seq<Node>, i: int): Node? {
    if 0 <= i < |row| then row[i] else null
  }

  /** The links of one node: `prev` and `next` are inverse, and null at the ends. */
  ghost predicate Linked(row: seq<Node>, i: nat)
    requires i < |row|
    reads row[i]
  {
    row[i].next == At(row, i + 1) && row[i].prev == At(row, i - 1)
  }

  /** `row` is the list that starts at `head`. */
  ghost predicate Chain(row: seq<Node>, head: Node?)
    reads set n | n in row
  {
    head == At(row, 0) && forall i :: 0 <= i < |row| ==> Linked(row, i)
  }

  ghost predicate UniqueKeys(row: seq<Node>) {
    forall i, j :: 0 <= i < j < |row| ==> row[i].key != row[j].key
  }

  /** All nodes, row after row. */
  ghost function Flatten(rows: seq<seq<Node>>): seq<Node> {
    if rows == [] then [] else rows[0] + Flatten(rows[1..])
  }

  ghost function RemoveAt(row: seq<Node>, i: nat): seq<Node>
    requires i < |row|
  {
    row[..i] + row[i + 1..]
  }

  lemma {:induction false} FlattenSplit(rows: seq<seq<Node>>, k: nat)
    requires k <= |rows|
    ensures Flatten(rows) == Flatten(rows[..k]) + Flatten(rows[k..])
  {
    if k == 0 {
      assert rows[..0] == [] && rows[0..] == rows;
    } else {
      FlattenSplit(rows[1..], k - 1);
      assert rows[..k][1..] == rows[1..][..k - 1] && rows[1..][k - 1..] == rows[k..];
    }
  }

  lemma FlattenAt(rows: seq<seq<Node>>, k: nat)
    requires k < |rows|
    ensures Flatten(rows) == Flatten(rows[..k]) + rows[k] + Flatten(rows[k + 1..])
    ensures Flatten(rows[k..]) == rows[k] + Flatten(rows[k + 1..])
  {
    hide Flatten;
    FlattenSplit(rows, k);
    FlattenHead(rows[k..]);
    assert rows[k..][1..] == rows[k + 1..];
  }

  lemma FlattenHead(rows: seq<seq<Node>>)
    requires rows != []
    ensures Flatten(rows) == rows[0] + Flatten(rows[1..])
  {
  }

  /** The nodes of the table are those of its rows. */
  lemma {:induction false} FlattenHas(rows: seq<seq<Node>>, n: Node)
    ensures n in Flatten(rows) <==> exists k :: 0 <= k < |rows| && n in rows[k]
  {
    if rows != [] {
      FlattenHas(rows[1..], n);
      if n in Flatten(rows[1..]) {
        var k :| 0 <= k < |rows[1..]| && n in rows[1..][k];
        assert n in rows[k + 1];
      }
      if k :| 0 <= k < |rows| && n in rows[k] {
        assert k > 0 ==> n in rows[1..][k - 1];
      }
    }
  }

  /** Replacing one row. */
  lemma FlattenUpdate(rows: seq<seq<Node>>, k: nat, row: seq<Node>)
    requires k < |rows|
    ensures Flatten(rows[k := row]) == Flatten(rows[..k]) + row + Flatten(rows[k + 1..])
    ensures Flatten(rows) == Flatten(rows[..k]) + rows[k] + Flatten(rows[k + 1..])
  {
    FlattenAt(rows, k);
    FlattenAt(rows[k := row], k);
    assert rows[k := row][..k] == rows[..k] && rows[k := row][k + 1..] == rows[k + 1..];
  }

  /** The rows hold these entries. */
  ghost predicate Represents(entries: map<Key, object?>, rows: seq<seq<Node>>) {
    && (forall r, n :: 0 <= r < |rows| && n in rows[r] ==> n.key in entries && entries[n.key] == n.data)
    && (forall k :: k in entries ==> exists r, n :: 0 <= r < |rows| && n in rows[r] && n.key == k)
  }

  /** A cursor at `cnode` in row `crow` has yet to return the nodes `rest`. */
  ghost predicate Cursor(rows: seq<seq<Node>>, crow: int, cnode: Node?, rest: seq<Node>) {
    if cnode == null then rest == []
    else 0 <= crow < |rows| && exists i :: 0 <= i < |rows[crow]| && rows[crow][i] == cnode && rest == Onwards(rows, crow, i)
  }

  /** The nodes from position `i` of row `r` on. */
  ghost function Onwards(rows: seq<seq<Node>>, r: nat, i: nat): seq<Node>
    requires r < |rows| && i <= |rows[r]|
  {
    rows[r][i..] + Flatten(rows[r + 1..])
  }

  class HashMap {
    const nrows: nat
    const table: array<Node?>
    /** The hash function, seeded and set by the caller. */
    const hash: Key -> nat
    /** The user owns the keys; the user has given a function to release data. */
    const userkey: bool
    const userfree: bool
    var count: int
    var crow: int
    var cnode: Node?

    ghost var rows: seq<seq<Node>>
    ghost var repr: set<Node>
    /** What the table maps keys to. */
    ghost var entries: map<Key, object?>
    /** The nodes that the cursor has yet to return. */
    ghost var rest: seq<Node>
    ghost var released: seq<Release>

    /** `hashmap_new`, after the number of rows is settled. */
    constructor (nrows: nat, hash: Key -> nat, userkey: bool, userfree: bool)
      requires nrows >= 1
      ensures Valid() && CursorValid() && entries == map[] && repr == {} && fresh(table)
      ensures this.nrows == nrows && this.hash == hash && this.userkey == userkey && this.userfree == userfree
      ensures released == []
    {
      this.userkey, this.userfree := userkey, userfree;
      released := [];
      this.nrows := nrows;
      this.hash := hash;
      table := new Node?[nrows](i => null);
      count, crow, cnode := 0, 0, null;
      rows, repr, entries, rest := seq(nrows, i => []), {}, map[], [];
      new;
      NoNodes(rows);
    }

    function Index(key: Key): nat
      requires nrows >= 1
    {
      hash(key) % nrows
    }

    /** Row `r` is a list of nodes that belong there, with different keys. */
    ghost predicate Row(r: nat)
      requires r < |rows| && r < table.Length && nrows >= 1
      reads this`rows, this`repr, table, repr
    {
      && (forall n :: n in rows[r] ==> n in repr && Index(n.key) == r)
      && UniqueKeys(rows[r])
      && Chain(rows[r], table[r])
    }

    ghost predicate Valid()
      reads this`count, this`rows, this`repr, this`entries, table, repr
    {
      && nrows >= 1 && table.Length == nrows == |rows|
      && (forall r :: 0 <= r < nrows ==> Row(r))
      && count == |Flatten(rows)| % UINT_RANGE
      && Represents(entries, rows)
    }

    ghost predicate CursorValid()
      reads this`rows, this`crow, this`cnode, this`rest
    {
      Cursor(rows, crow, cnode, rest)
    }

    /** The loop shared by adding, finding and removing: the node of a key in its row. */
    method Locate(key: Key, index: nat) returns (hnode: Node?, ghost i: nat)
      requires Valid() && index == Index(key)
      ensures hnode == At(rows[index], i) && i <= |rows[index]|
      ensures hnode != null ==> hnode.key == key && hnode in repr
      ensures hnode == null ==> forall n :: n in rows[index] ==> n.key != key
    {
      hnode, i := table[index], 0;
      ghost var row := rows[index];
      assert Row(index);
      while hnode != null
        invariant 0 <= i <= |row| && hnode == At(row, i)
        invariant forall j :: 0 <= j < i ==> row[j].key != key
        decreases |row| - i
      {
        assert Linked(row, i);
        if hnode.key == key {
          return;
        }
        hnode, i := hnode.next, i + 1;
      }
    }

    /** `hashmap_add` */
    method Add(key: Key, data: object?) returns (rc: int)
      requires Valid()
      modifies this`count, this`cnode, this`rows, this`repr, this`entries, this`rest, table, repr
      ensures Valid() && fresh(repr - old(repr))
      ensures rc == if key in old(entries) then 1 else 0
      ensures rc == OK ==> entries == old(entries)[key := data] && cnode == old(cnode)
      // The new node is the head of the row that the hash gives; the other rows are as they were.
      ensures rc == OK ==> hash(key) % nrows < |rows| == |old(rows)| == table.Length
      ensures rc == OK ==>
        var index := hash(key) % nrows;
        && rows[index] != [] && rows[index][0].key == key && rows[index][0].data == data && table[index] == rows[index][0]
        && rows == old(rows)[index := [rows[index][0]] + old(rows)[index]]
      // An enumeration goes on; it will return the new node if its row comes after the cursor's.
      ensures rc == OK && old(CursorValid()) ==>
        CursorValid() && Less(rest, key) == old(rest) && (HasKey(rest, key) <==> cnode != null && crow < Index(key))
      // A present key keeps its data; the cursor moves to its node, and is good if that is in its row.
      ensures rc == INTABLE ==> entries == old(entries) && rows == old(rows) && repr == old(repr)
      ensures rc == INTABLE ==> cnode in repr && cnode.key == key && cnode.data == entries[key]
      ensures rc == INTABLE && crow == Index(key) ==> CursorValid() && rest != [] && rest[0] == cnode
    {
      hide Cursor, Less, HasKey, Flatten;
      var index := Index(key);
      var found, i := Locate(key, index);
      KeyInRow(entries, key);
      if found != null {
        cnode := found;
        rest := Onwards(rows, index, i);
        CursorHere(rows, index, i);
        return INTABLE;
      }
      var hnode := new Node(key, data);
      Link(hnode, index);
      HeadOfRow(index);
      rc := OK;
    }

    /** The array holds the heads of the rows. */
    lemma HeadOfRow(r: nat)
      requires Valid() && r < nrows
      ensures |rows| == table.Length == nrows && table[r] == At(rows[r], 0)
    {
      assert Row(r);
    }

    /** A new node becomes the head of its row. */
    method Link(hnode: Node, index: nat)
      requires Valid() && index == Index(hnode.key) && hnode !in repr
      requires hnode.key !in entries && forall n :: n in rows[index] ==> n.key != hnode.key
      modifies this`count, this`rows, this`repr, this`entries, this`rest, table, repr, hnode
      ensures Valid() && repr == old(repr) + {hnode} && entries == old(entries)[hnode.key := hnode.data]
      ensures rows == old(rows)[index := [hnode] + old(rows)[index]]
      ensures old(CursorValid()) ==>
        CursorValid() && Less(rest, hnode.key) == old(rest) && (HasKey(rest, hnode.key) <==> cnode != null && crow < index)
    {
      hide Row, Flatten, Represents, Cursor, Less, HasKey;
      ghost var row := rows[index];
      FlattenUpdate(rows, index, [hnode] + row);
      RepresentsMore(entries, rows, index, hnode);
      CountMore(count, |Flatten(rows)|);
      if CursorValid() {
        NewKey(hnode.key);
        rest := CursorMore(rows, crow, cnode, rest, index, hnode);
      }
      LinkRow(hnode, index);
      entries := entries[hnode.key := hnode.data];
      count := (count + 1) % UINT_RANGE;
    }

    method LinkRow(hnode: Node, index: nat)
      requires Valid() && index == Index(hnode.key) && hnode !in repr
      requires forall n :: n in rows[index] ==> n.key != hnode.key
      modifies this`rows, this`repr, table, repr, hnode
      ensures rows == old(rows)[index := [hnode] + old(rows)[index]] && repr == old(repr) + {hnode}
      ensures forall r :: 0 <= r < nrows ==> Row(r)
    {
      hide Chain, UniqueKeys, Flatten, Represents;
      ghost var row := rows[index];
      assert Row(index);
      Apart(index);
      UniqueMore(row, hnode);
      Push(hnode, index, row);
      rows := rows[index := [hnode] + row];
      repr := repr + {hnode};
      forall r | 0 <= r < nrows ensures Row(r) {
        assert old(Row(r));
      }
    }

    /** The pointers that change when a node becomes the head of a row. */
    method Push(hnode: Node, index: nat, ghost row: seq<Node>)
      requires index < table.Length && Chain(row, table[index]) && hnode !in row
      modifies table, hnode, set n | n in row
      ensures Chain([hnode] + row, table[index])
      ensures forall r :: 0 <= r < table.Length && r != index ==> table[r] == old(table[r])
    {
      if row != [] {
        assert Linked(row, 0);
      }
      Separate(row);
      if table[index] != null {
        hnode.prev := null;
        hnode.next := table[index];
        table[index].prev := hnode;
        table[index] := hnode;
      } else {
        hnode.prev := null;
        hnode.next := null;
        table[index] := hnode;
      }
      ghost var row' := [hnode] + row;
      forall i | 0 <= i < |row'| ensures Linked(row', i) {
        if i > 0 {
          assert old(Linked(row, i - 1));
          assert row'[i] == row[i - 1];
        }
      }
    }

    /** Different rows share no node. */
    lemma Apart(index: nat)
      requires Valid() && index < nrows
      ensures forall r, n :: 0 <= r < nrows && r != index && n in rows[r] ==> n !in rows[index]
      ensures forall n :: n in rows[index] ==> n in repr
    {
      forall r, n | 0 <= r < nrows && r != index && n in rows[r] ensures n !in rows[index] {
        assert Row(r) && Row(index);
      }
      assert Row(index);
    }

    /** `hashmap_find_node`, with the splay mode off. */
    method FindNode(key: Key) returns (hnode: Node?)
      requires Valid()
      ensures hnode != null <==> key in entries
      ensures hnode != null ==> hnode in repr && hnode.key == key && hnode.data == entries[key]
    {
      var index := Index(key);
      ghost var i;
      hnode, i := Locate(key, index);
      KeyInRow(entries, key);
    }

    /** `hashmap_find`: null is also what a key with null data gives. */
    method Find(key: Key) returns (data: object?)
      requires Valid()
      ensures data == if key in entries then entries[key] else null
    {
      var hnode := FindNode(key);
      if hnode != null {
        return hnode.data;
      }
      return null;
    }

    /** `hashmap_find2` tells the two apart, and leaves `*data` alone for an absent key. */
    method Find2(key: Key, was: object?) returns (found: bool, data: object?)
      requires Valid()
      ensures found <==> key in entries
      ensures data == if found then entries[key] else was
    {
      var hnode := FindNode(key);
      if hnode != null {
        return true, hnode.data;
      }
      return false, was;
    }

    /** `hashmap_remove` */
    method Remove(key: Key) returns (rc: int)
      requires Valid()
      modifies this`count, this`rows, this`repr, this`entries, this`rest, this`released, table, repr
      ensures Valid() && repr <= old(repr)
      ensures rc == if key in old(entries) then 0 else -1
      ensures entries == old(entries) - {key}
      ensures key !in old(entries) ==> released == old(released)
      // The copy of the key goes, if the table made one, and then the data, if there is a function for it.
      ensures key in old(entries) ==>
        var data := old(entries)[key];
        released == old(released) +
          (if userkey then [] else [KeyCopy(key)]) + (if userfree && data != null then [UserData(data)] else [])
      // Only the node that the cursor is at must not go; any other just leaves what is to come.
      ensures old(CursorValid()) && (cnode == null || cnode.key != key) ==> CursorValid() && rest == Less(old(rest), key)
    {
      hide Cursor, Less, Flatten;
      var index := Index(key);
      var hnode, i := Locate(key, index);
      KeyInRow(entries, key);
      if hnode != null {
        FreeNode(index, hnode, i);
        rc := OK;
      } else {
        AbsentKey(entries, key);
        if CursorValid() {
          NewKey(key);
          NotToCome(rows, crow, cnode, rest, key);
        }
        rc := ERR;
      }
    }

    /** What releasing a node releases besides. */
    ghost function Releases(n: Node): seq<Release> {
      (if userkey then [] else [KeyCopy(n.key)]) + if userfree && n.data != null then [UserData(n.data)] else []
    }

    /** What freeing and deleting share: the key of a node if it is a copy, its data if there is any. */
    method FreeParts(node: Node)
      modifies this`released
      ensures released == old(released) + Releases(node)
      ensures released == old(released) +
        (if userkey then [] else [KeyCopy(node.key)]) + (if userfree && node.data != null then [UserData(node.data)] else [])
    {
      if !userkey {
        released := released + [KeyCopy(node.key)];
      }
      if userfree && node.data != null {
        released := released + [UserData(node.data)];
      }
    }

    /** `hashmap_free_node` */
    method FreeNode(index: nat, hnode: Node, ghost i: nat)
      requires Valid() && index == Index(hnode.key) && i < |rows[index]| && rows[index][i] == hnode
      modifies this`count, this`rows, this`repr, this`entries, this`rest, this`released, table, repr
      ensures Valid() && repr == old(repr) - {hnode} && entries == old(entries) - {hnode.key}
      ensures released == old(released) +
        (if userkey then [] else [KeyCopy(hnode.key)]) + (if userfree && hnode.data != null then [UserData(hnode.data)] else [])
      ensures old(CursorValid()) && cnode != hnode ==> CursorValid() && rest == Less(old(rest), hnode.key)
    {
      hide Row, Flatten, Represents, Cursor, Less, RemoveAt, UniqueKeys, UniqueInRows;
      ghost var row := rows[index];
      FreeParts(hnode);
      FlattenUpdate(rows, index, RemoveAt(row, i));
      RemoveAtEnds(row, i);
      RowUnique(index);
      RepresentsLess(entries, rows, index, i);
      CountLess(count, |Flatten(rows)|);
      if CursorValid() && cnode != hnode {
        AllRowsUnique();
        CursorLess(rows, crow, cnode, rest, index, i);
      }
      rest := Less(rest, hnode.key);
      UnlinkRow(index, hnode, i);
      entries := entries - {hnode.key};
      count := (count + UINT_RANGE - 1) % UINT_RANGE;
    }

    method UnlinkRow(index: nat, hnode: Node, ghost i: nat)
      requires Valid() && index == Index(hnode.key) && i < |rows[index]| && rows[index][i] == hnode
      modifies this`rows, this`repr, table, repr
      ensures rows == old(rows)[index := RemoveAt(old(rows)[index], i)] && repr == old(repr) - {hnode}
      ensures forall r :: 0 <= r < nrows ==> Row(r)
    {
      hide Chain, UniqueKeys, Flatten, Represents;
      ghost var row := rows[index];
      assert Row(index);
      Apart(index);
      UniqueLess(row, i);
      Unlink(index, hnode, row, i);
      rows := rows[index := RemoveAt(row, i)];
      repr := repr - {hnode};
      forall r | 0 <= r < nrows ensures Row(r) {
        assert old(Row(r));
      }
    }

    /** The pointers that change when a node leaves its row. */
    method Unlink(index: nat, hnode: Node, ghost row: seq<Node>, ghost i: nat)
      requires index < table.Length && Chain(row, table[index]) && i < |row| && row[i] == hnode && UniqueKeys(row)
      modifies table, set n | n in row
      ensures Chain(RemoveAt(row, i), table[index])
      ensures forall r :: 0 <= r < table.Length && r != index ==> table[r] == old(table[r])
    {
      hide UniqueKeys, RemoveAt;
      RemoveAtEnds(row, i);
      Alone(row, i);
      if i > 0 {
        Alone(row, i - 1);
      }
      if i + 1 < |row| {
        Alone(row, i + 1);
      }
      if hnode.prev != null {
        hnode.prev.next := hnode.next;
        if hnode.next != null {
          hnode.next.prev := hnode.prev;
        }
      } else if table[index] != null {
        table[index] := table[index].next;
        if table[index] != null {
          table[index].prev := null;
        }
      }
      ghost var row' := RemoveAt(row, i);
      forall j | 0 <= j < |row'| ensures Linked(row', j) {
        ghost var k := if j < i then j else j + 1;
        RemovedAt(row, i, j);
        assert row'[j] == row[k] && old(Linked(row, k));
      }
    }

    /** `hashmap_next` */
    method Advance()
      requires Valid() && CursorValid()
      modifies this`crow, this`cnode, this`rest
      ensures CursorValid() && rest == if old(rest) == [] then [] else old(rest)[1..]
    {
      hide Represents, UniqueKeys, Onwards, Flatten;
      if cnode == null {
        return;
      }
      ghost var i :| 0 <= i < |rows[crow]| && rows[crow][i] == cnode && rest == Onwards(rows, crow, i);
      assert Row(crow) && Linked(rows[crow], i);
      OnwardsStep(rows, crow, i);
      rest := rest[1..];
      cnode := cnode.next;
      if cnode != null {
        return;
      }
      crow := crow + 1;
      NextRow();
    }

    /** The first node from row `crow` on. */
    method NextRow()
      requires Valid() && 0 <= crow <= nrows && cnode == null && rest == Flatten(rows[crow..])
      modifies this`crow, this`cnode
      ensures CursorValid()
    {
      hide Represents;
      while crow < nrows
        invariant 0 <= crow <= nrows && cnode == null && rest == Flatten(rows[crow..])
      {
        FlattenAt(rows, crow);
        assert Row(crow);
        cnode := table[crow];
        if cnode != null {
          assert rest == Onwards(rows, crow, 0);
          return;
        }
        crow := crow + 1;
      }
    }

    lemma RowHead(row: seq<Node>, head: Node?)
      requires Chain(row, head)
      ensures head == At(row, 0)
    {
    }

    /** `hashmap_findfirst` */
    method FindFirst() returns (n: Node?)
      requires Valid()
      modifies this`crow, this`cnode, this`rest
      ensures CursorValid()
      ensures n == At(Flatten(rows), 0)
      ensures rest == if n == null then [] else Flatten(rows)[1..]
    {
      hide Represents, UniqueKeys, Onwards, Flatten, Chain;
      crow := 0;
      FlattenNone(rows);
      rest := Flatten(rows);
      while crow < nrows
        invariant 0 <= crow <= nrows && rest == Flatten(rows) == Flatten(rows[crow..])
        invariant crow > 0 ==> cnode == null
      {
        FlattenAt(rows, crow);
        assert Row(crow);
        RowHead(rows[crow], table[crow]);
        cnode := table[crow];
        if cnode != null {
          n := cnode;
          OnwardsAll(rows, crow);
          Advance();
          return;
        }
        crow := crow + 1;
      }
      return null;
    }

    /** `hashmap_findnext` */
    method FindNext() returns (n: Node?)
      requires Valid() && CursorValid()
      modifies this`crow, this`cnode, this`rest
      ensures CursorValid() && n == At(old(rest), 0)
      ensures rest == if n == null then [] else old(rest)[1..]
    {
      n := cnode;
      if n == null {
        return null;
      }
      ghost var i :| 0 <= i < |rows[crow]| && rows[crow][i] == cnode && rest == Onwards(rows, crow, i);
      OnwardsStep(rows, crow, i);
      Advance();
    }

    /** `hashmap_delete`: every node is released, once, with its key and data. */
    method Delete() returns (freed: seq<Node>)
      requires Valid()
      modifies this`released
      ensures freed == Flatten(rows) && UniqueKeys(freed)
      ensures released == old(released) + AllReleases(freed)
      // Each copied key is released once, and each datum once for every entry that has it.
      ensures forall k ::
        multiset(released)[KeyCopy(k)] - multiset(old(released))[KeyCopy(k)] == if !userkey && k in entries then 1 else 0
      ensures forall d: object ::
        var times := if userfree then |set k | k in entries && entries[k] == d| else 0;
        multiset(released)[UserData(d)] - multiset(old(released))[UserData(d)] == times
    {
      hide Represents, UniqueKeys, Flatten, AllReleases, Chain;
      FlattenUnique();
      FlattenNone(rows);
      NoReleases();
      freed := [];
      var i := 0;
      while i < nrows
        invariant 0 <= i <= nrows && freed + Flatten(rows[i..]) == Flatten(rows)
        invariant released == old(released) + AllReleases(freed)
      {
        FlattenAt(rows, i);
        assert Row(i);
        freed := DeleteRow(table[i], rows[i], freed, old(released));
        i := i + 1;
      }
      FlattenNone(rows);
      ReleasesCounted();
    }

    /** The inner loop: one row. */
    method DeleteRow(head: Node?, ghost row: seq<Node>, before: seq<Node>, ghost was: seq<Release>) returns (freed: seq<Node>)
      requires Chain(row, head) && released == was + AllReleases(before)
      modifies this`released
      ensures freed == before + row && released == was + AllReleases(freed)
    {
      hide AllReleases, Releases;
      ghost var j := 0;
      var node := head;
      freed := before;
      while node != null
        invariant 0 <= j <= |row| && node == At(row, j) && freed == before + row[..j]
        invariant released == was + AllReleases(freed)
        decreases |row| - j
      {
        assert Linked(row, j);
        ReleaseNext(freed, node);
        FreeParts(node);
        freed := freed + [node];
        node := node.next;
        j := j + 1;
      }
    }

    ghost function AllReleases(nodes: seq<Node>): seq<Release> {
      if nodes == [] then [] else AllReleases(nodes[..|nodes| - 1]) + Releases(nodes[|nodes| - 1])
    }

    /** What releasing all nodes releases, counted over the entries. */
    lemma ReleasesCounted()
      requires Valid()
      ensures var all := AllReleases(Flatten(rows));
        && (forall k :: multiset(all)[KeyCopy(k)] == if !userkey && k in entries then 1 else 0)
        && (forall d: object :: multiset(all)[UserData(d)] == if userfree then |set k | k in entries && entries[k] == d| else 0)
    {
      hide Row, Flatten, UniqueKeys, AllReleases, Represents;
      var nodes := Flatten(rows);
      FlattenUnique();
      EntriesAreNodes();
      forall k ensures multiset(AllReleases(nodes))[KeyCopy(k)] == if !userkey && k in entries then 1 else 0 {
        KeysReleased(nodes, k);
      }
      forall d: object
        ensures multiset(AllReleases(nodes))[UserData(d)] == if userfree then |set k | k in entries && entries[k] == d| else 0
      {
        DataReleased(nodes, d);
        assert KeysWith(nodes, d) == set k | k in entries && entries[k] == d;
      }
    }

    /** Key for key, the entries are the nodes of the rows. */
    lemma EntriesAreNodes()
      requires Valid()
      ensures forall n :: n in Flatten(rows) ==> n.key in entries && entries[n.key] == n.data
      ensures forall k :: k in entries <==> HasKey(Flatten(rows), k)
      ensures forall d :: KeysWith(Flatten(rows), d) == set k | k in entries && entries[k] == d
    {
      var all := Flatten(rows);
      forall n | n in all ensures n.key in entries && entries[n.key] == n.data {
        FlattenHas(rows, n);
      }
      forall k | k in entries ensures exists n :: n in all && n.key == k {
        var r, n :| 0 <= r < |rows| && n in rows[r] && n.key == k;
        FlattenHas(rows, n);
      }
      forall d ensures KeysWith(all, d) == set k | k in entries && entries[k] == d {
        forall k | k in entries && entries[k] == d ensures k in KeysWith(all, d) {
          var n :| n in all && n.key == k;
        }
      }
    }

    ghost function KeysWith(nodes: seq<Node>, d: object?): set<Key> {
      set n | n in nodes && n.data == d :: n.key
    }

    lemma {:induction false} KeysReleased(nodes: seq<Node>, k: Key)
      requires UniqueKeys(nodes)
      ensures multiset(AllReleases(nodes))[KeyCopy(k)] == if !userkey && HasKey(nodes, k) then 1 else 0
    {
      if nodes != [] {
        var front, last := nodes[..|nodes| - 1], nodes[|nodes| - 1];
        assert nodes == front + [last];
        KeysReleased(front, k);
        assert HasKey(nodes, k) <==> HasKey(front, k) || last.key == k by {
          assert last in nodes && forall n :: n in nodes <==> n in front || n == last;
        }
      }
    }

    lemma {:induction false} DataReleased(nodes: seq<Node>, d: object)
      requires UniqueKeys(nodes)
      ensures multiset(AllReleases(nodes))[UserData(d)] == if userfree then |KeysWith(nodes, d)| else 0
    {
      if nodes != [] {
        var front, last := nodes[..|nodes| - 1], nodes[|nodes| - 1];
        assert nodes == front + [last];
        DataReleased(front, d);
        KeysWithLast(front, last, d);
      }
    }

    lemma KeysWithLast(front: seq<Node>, last: Node, d: object?)
      requires UniqueKeys(front + [last])
      ensures |KeysWith(front + [last], d)| == |KeysWith(front, d)| + if last.data == d then 1 else 0
    {
      var nodes := front + [last];
      assert forall n :: n in nodes <==> n in front || n == last;
      if last.data == d {
        assert KeysWith(nodes, d) == KeysWith(front, d) + {last.key};
        forall n | n in front ensures n.key != last.key {
          var i :| 0 <= i < |front| && front[i] == n;
          assert nodes[i] == n && nodes[|front|] == last;
        }
      } else {
        assert KeysWith(nodes, d) == KeysWith(front, d);
      }
    }

    /** `hashmap_count`: the unsigned count read as an int. */
    method Count() returns (n: int)
      requires Valid()
      ensures var m := |entries| % 0x1_0000_0000; n == if m < 0x8000_0000 then m else m - 0x1_0000_0000
    {
      hide Row, Flatten, UniqueKeys, Represents;
      FlattenUnique();
      EntriesAreNodes();
      KeysCounted(Flatten(rows));
      assert (set m | m in Flatten(rows) :: m.key) == entries.Keys by {
        assert forall k :: k in entries ==> HasKey(Flatten(rows), k);
      }
      n := if count < 0x8000_0000 then count else count - UINT_RANGE;
    }

    lemma {:induction false} KeysCounted(nodes: seq<Node>)
      requires UniqueKeys(nodes)
      ensures |set m | m in nodes :: m.key| == |nodes|
    {
      var keys := set m | m in nodes :: m.key;
      if nodes != [] {
        var front, last := nodes[..|nodes| - 1], nodes[|nodes| - 1];
        assert nodes == front + [last];
        KeysCounted(front);
        assert forall n :: n in nodes <==> n in front || n == last;
        assert keys == (set m | m in front :: m.key) + {last.key};
      } else {
        assert keys == {};
      }
    }

    lemma NoReleases()
      ensures AllReleases([]) == [] && released == released + AllReleases([])
    {
    }

    lemma ReleaseNext(nodes: seq<Node>, n: Node)
      ensures AllReleases(nodes + [n]) == AllReleases(nodes) + Releases(n)
    {
      assert (nodes + [n])[..|nodes|] == nodes;
    }

    /** The loop of a caller that visits all entries, and removes those that it has
        just been given and does not want to keep. */
    method Sweep(unwanted: Key -> bool) returns (visited: seq<Node>)
      requires Valid()
      modifies this`count, this`crow, this`cnode, this`rest, this`rows, this`repr, this`entries, this`released, table, repr
      ensures Valid() && CursorValid() && rest == []
      ensures visited == old(Flatten(rows)) && UniqueKeys(visited)
      ensures entries == Kept(old(entries), unwanted)
      ensures forall k :: k in entries <==> k in old(entries) && !unwanted(k)
      ensures forall k :: k in entries ==> entries[k] == old(entries)[k]
    {
      hide Valid, CursorValid, Flatten, UniqueKeys, Visited, Kept, Sweeping, At;
      ghost var all, was := Flatten(rows), entries;
      FlattenUnique();
      AllEntries();
      visited := [];
      var n := FindFirst();
      SweepStart(all, n, unwanted);
      while n != null
        invariant Valid() && CursorValid() && repr <= old(repr)
        invariant Sweeping(all, visited, n, was, unwanted)
        decreases |all| - |visited|
      {
        ghost var given := visited;
        visited := visited + [n];
        n := SweepTurn(n, unwanted, all, given, was);
      }
      SweepEnd(all, visited, was, unwanted);
      KeptMeans(was, unwanted);
    }

    /** Where the loop of the caller is: it has been given `visited`, and `n` just now. */
    ghost predicate Sweeping(all: seq<Node>, visited: seq<Node>, n: Node?, was: map<Key, object?>, unwanted: Key -> bool)
      reads this`rest, this`entries
    {
      && |visited| <= |all| && visited == all[..|visited|]
      && n == At(all, |visited|)
      && rest == (if n == null then [] else all[|visited| + 1..])
      && entries == Swept(was, all, |visited|, unwanted)
    }

    lemma SweepStart(all: seq<Node>, n: Node?, unwanted: Key -> bool)
      requires n == At(all, 0) && rest == if n == null then [] else all[1..]
      ensures Sweeping(all, [], n, entries, unwanted)
    {
      SweptNone(entries, all, unwanted);
    }

    lemma SweepEnd(all: seq<Node>, visited: seq<Node>, was: map<Key, object?>, unwanted: Key -> bool)
      requires Sweeping(all, visited, null, was, unwanted) && forall k :: k in was <==> Visited(all, |all|, k)
      ensures visited == all && rest == [] && entries == Kept(was, unwanted)
    {
      hide Visited, Swept, Kept;
      assert all[..|all|] == all;
      SweptAll(was, all, unwanted);
    }

    method SweepTurn(n: Node, unwanted: Key -> bool, ghost all: seq<Node>, ghost visited: seq<Node>, ghost was: map<Key, object?>)
      returns (next: Node?)
      requires Valid() && CursorValid() && UniqueKeys(all) && Sweeping(all, visited, n, was, unwanted)
      modifies this`count, this`crow, this`cnode, this`rest, this`rows, this`repr, this`entries, this`released, table, repr
      ensures Valid() && CursorValid() && repr <= old(repr)
      ensures |visited| < |all| && Sweeping(all, visited + [n], next, was, unwanted)
    {
      hide Valid, CursorValid, Flatten, UniqueKeys, Visited, Swept, Less;
      ghost var k := |visited|;
      SweptStep(was, all, k, unwanted);
      RestStep(all, k);
      CursorAhead(all, k);
      if unwanted(n.key) {
        var _ := Remove(n.key);
      }
      next := FindNext();
    }

    /** The cursor is at the first node to come, and what is to come does not hold a node already given. */
    lemma CursorAhead(all: seq<Node>, k: nat)
      requires CursorValid() && k < |all| && rest == all[k + 1..] && UniqueKeys(all)
      ensures cnode == null || cnode.key != all[k].key
      ensures Less(rest, all[k].key) == rest
    {
      VisitedStep(all, k);
      LessAbsent(rest, all[k].key);
      if cnode != null {
        var i :| 0 <= i < |rows[crow]| && rows[crow][i] == cnode && rest == Onwards(rows, crow, i);
        OnwardsStep(rows, crow, i);
        assert cnode in rest;
      }
    }

    /** The entries when the first `n` nodes have been visited. */
    ghost function Swept(was: map<Key, object?>, all: seq<Node>, n: nat, unwanted: Key -> bool): map<Key, object?>
      requires n <= |all|
    {
      map k | k in was && !(unwanted(k) && Visited(all, n, k)) :: was[k]
    }

    /** The entries that a caller does not remove. */
    ghost function Kept(was: map<Key, object?>, unwanted: Key -> bool): map<Key, object?> {
      map k | k in was && !unwanted(k) :: was[k]
    }

    lemma KeptMeans(was: map<Key, object?>, unwanted: Key -> bool)
      ensures forall k :: k in Kept(was, unwanted) <==> k in was && !unwanted(k)
      ensures forall k :: k in Kept(was, unwanted) ==> Kept(was, unwanted)[k] == was[k]
    {
    }

    lemma SweptNone(was: map<Key, object?>, all: seq<Node>, unwanted: Key -> bool)
      ensures Swept(was, all, 0, unwanted) == was
    {
      var now := Swept(was, all, 0, unwanted);
      assert forall k :: k in was ==> k in now && now[k] == was[k];
    }

    lemma SweptStep(was: map<Key, object?>, all: seq<Node>, n: nat, unwanted: Key -> bool)
      requires n < |all| && UniqueKeys(all)
      ensures Swept(was, all, n + 1, unwanted) ==
        Swept(was, all, n, unwanted) - if unwanted(all[n].key) then {all[n].key} else {}
    {
      VisitedStep(all, n);
      hide Visited;
      var now, then_ := Swept(was, all, n, unwanted), Swept(was, all, n + 1, unwanted);
      var less := now - if unwanted(all[n].key) then {all[n].key} else {};
      assert forall k :: k in then_ ==> k in less && then_[k] == less[k];
      assert forall k :: k in less ==> k in then_;
    }

    lemma SweptAll(was: map<Key, object?>, all: seq<Node>, unwanted: Key -> bool)
      requires forall k :: k in was <==> Visited(all, |all|, k)
      ensures Swept(was, all, |all|, unwanted) == Kept(was, unwanted)
    {
      var now, kept := Swept(was, all, |all|, unwanted), Kept(was, unwanted);
      assert forall k :: k in now ==> k in kept && now[k] == kept[k];
      assert forall k :: k in kept ==> k in now;
    }

    lemma RestStep(all: seq<Node>, n: nat)
      requires n < |all|
      ensures At(all[n + 1..], 0) == At(all, n + 1)
      ensures n + 1 < |all| ==> all[n + 1..][1..] == all[n + 2..]
      ensures all[..n] + [all[n]] == all[..n + 1]
    {
    }

    /** The key is among the first `n` nodes. */
    ghost predicate Visited(all: seq<Node>, n: nat, key: Key)
      requires n <= |all|
    {
      exists i :: 0 <= i < n && all[i].key == key
    }

    lemma VisitedStep(all: seq<Node>, n: nat)
      requires n < |all| && UniqueKeys(all)
      ensures forall k :: Visited(all, n + 1, k) <==> Visited(all, n, k) || k == all[n].key
      ensures forall m :: m in all[n + 1..] ==> m.key != all[n].key
      ensures !Visited(all, n, all[n].key)
    {
      assert Visited(all, n + 1, all[n].key);
      forall k ensures Visited(all, n + 1, k) <==> Visited(all, n, k) || k == all[n].key {
        if Visited(all, n, k) {
          var i :| 0 <= i < n && all[i].key == k;
          assert i < n + 1;
        }
      }
    }

    /** Every key of the table is that of one node. */
    lemma AllEntries()
      requires Valid()
      ensures forall k :: k in entries <==> Visited(Flatten(rows), |Flatten(rows)|, k)
    {
      var all := Flatten(rows);
      forall k ensures k in entries <==> Visited(all, |all|, k) {
        if k in entries {
          var r, n :| 0 <= r < |rows| && n in rows[r] && n.key == k;
          FlattenHas(rows, n);
          var i :| 0 <= i < |all| && all[i] == n;
        }
        if Visited(all, |all|, k) {
          var i :| 0 <= i < |all| && all[i].key == k;
          FlattenHas(rows, all[i]);
        }
      }
    }

    lemma FlattenUnique()
      requires Valid()
      ensures UniqueKeys(Flatten(rows))
    {
      forall r | 0 <= r < nrows {
        RowUnique(r);
      }
      UniqueRows(rows);
    }

    lemma AllRowsUnique()
      requires Valid()
      ensures UniqueInRows(rows)
    {
      forall r | 0 <= r < nrows {
        RowUnique(r);
      }
    }

    /** A key that no node of its row has is the key of no node. */
    lemma NewKey(key: Key)
      requires Valid() && forall n :: n in rows[Index(key)] ==> n.key != key
      ensures forall r, n :: 0 <= r < |rows| && n in rows[r] ==> n.key != key
    {
      forall r, n | 0 <= r < |rows| && n in rows[r] ensures n.key != key {
        assert Row(r);
      }
    }

    lemma RowUnique(r: nat)
      requires Valid() && r < nrows
      ensures UniqueKeys(rows[r])
      ensures forall q, n, m :: 0 <= q < nrows && q != r && n in rows[q] && m in rows[r] ==> n.key != m.key
    {
      assert Row(r);
      forall q, n, m | 0 <= q < nrows && q != r && n in rows[q] && m in rows[r] ensures n.key != m.key {
        assert Row(q);
      }
    }

    lemma KeyInRow(entries: map<Key, object?>, key: Key)
      requires Valid() && Represents(entries, rows)
      ensures key in entries <==> exists n :: n in rows[Index(key)] && n.key == key
    {
      if key in entries {
        var r, n :| 0 <= r < |rows| && n in rows[r] && n.key == key;
        assert Row(r);
      }
    }
  }

  /** The links of a node in a list, and that it occurs once. */
  lemma Alone(row: seq<Node>, i: nat)
    requires UniqueKeys(row) && i < |row| && Chain(row, At(row, 0))
    ensures Linked(row, i) && forall j :: 0 <= j < |row| && j != i ==> row[j] != row[i]
  {
  }

  /** A place without node `i`, and its neighbours. */
  lemma RemovedAt(row: seq<Node>, i: nat, j: nat)
    requires i < |row| && j < |row| - 1
    ensures RemoveAt(row, i)[j] == row[if j < i then j else j + 1]
    ensures At(RemoveAt(row, i), j + 1) == At(row, if j + 1 < i then j + 1 else j + 2)
    ensures At(RemoveAt(row, i), j - 1) == At(row, if j <= i then j - 1 else j)
  {
  }

  lemma RemoveAtEnds(row: seq<Node>, i: nat)
    requires i < |row|
    ensures |RemoveAt(row, i)| == |row| - 1 && At(RemoveAt(row, i), 0) == At(row, if i == 0 then 1 else 0)
  {
  }

  lemma UniqueLess(row: seq<Node>, i: nat)
    requires UniqueKeys(row) && i < |row|
    ensures UniqueKeys(RemoveAt(row, i)) && forall n :: n in RemoveAt(row, i) ==> n in row && n != row[i]
  {
  }

  lemma {:induction false} UniqueRows(rows: seq<seq<Node>>)
    requires forall r :: 0 <= r < |rows| ==> UniqueKeys(rows[r])
    requires forall q, r, n, m :: 0 <= q < |rows| && 0 <= r < |rows| && q != r && n in rows[q] && m in rows[r] ==> n.key != m.key
    ensures UniqueKeys(Flatten(rows))
  {
    if rows != [] {
      var rest := rows[1..];
      assert forall r :: 0 <= r < |rest| ==> rest[r] == rows[r + 1];
      UniqueRows(rest);
      forall n, m | n in rows[0] && m in Flatten(rest) ensures n.key != m.key {
        FlattenHas(rest, m);
      }
      UniqueBoth(rows[0], Flatten(rest));
    }
  }

  lemma UniqueBoth(a: seq<Node>, b: seq<Node>)
    requires UniqueKeys(a) && UniqueKeys(b) && forall n, m :: n in a && m in b ==> n.key != m.key
    ensures UniqueKeys(a + b)
  {
    var s := a + b;
    forall i, j | 0 <= i < j < |s| ensures s[i].key != s[j].key {
      assert i < |a| ==> s[i] in a;
      assert j >= |a| ==> s[j] in b;
    }
  }

  lemma KeptBut(row: seq<Node>, i: nat)
    requires i < |row| && UniqueKeys(row)
    ensures forall n :: n in row && n != row[i] ==> n in RemoveAt(row, i)
    ensures forall n :: n in RemoveAt(row, i) ==> n.key != row[i].key
  {
    forall n | n in row && n != row[i] ensures n in RemoveAt(row, i) {
      var j :| 0 <= j < |row| && row[j] == n;
      assert RemoveAt(row, i)[if j < i then j else j - 1] == n;
    }
  }

  lemma RepresentsLess(entries: map<Key, object?>, rows: seq<seq<Node>>, k: nat, i: nat)
    requires Represents(entries, rows) && k < |rows| && i < |rows[k]| && UniqueKeys(rows[k])
    requires forall r, n, m :: 0 <= r < |rows| && r != k && n in rows[r] && m in rows[k] ==> n.key != m.key
    ensures Represents(entries - {rows[k][i].key}, rows[k := RemoveAt(rows[k], i)])
  {
    UniqueLess(rows[k], i);
    KeptBut(rows[k], i);
    hide UniqueKeys, RemoveAt;
    var key, row' := rows[k][i].key, RemoveAt(rows[k], i);
    var entries', rows' := entries - {key}, rows[k := row'];
    forall r: int, n: Node | 0 <= r < |rows'| && n in rows'[r] ensures n.key in entries' && entries'[n.key] == n.data {
      assert n in rows[r];
    }
    forall other | other in entries' ensures exists r: int, n: Node :: 0 <= r < |rows'| && n in rows'[r] && n.key == other {
      var r, n :| 0 <= r < |rows| && n in rows[r] && n.key == other;
      assert n in rows'[r];
    }
  }

  lemma OnwardsStep(rows: seq<seq<Node>>, r: nat, i: nat)
    requires r < |rows| && i < |rows[r]|
    ensures Onwards(rows, r, i) == [rows[r][i]] + Onwards(rows, r, i + 1)
    ensures i + 1 == |rows[r]| ==> Onwards(rows, r, i + 1) == Flatten(rows[r + 1..])
  {
    assert rows[r][i..] == [rows[r][i]] + rows[r][i + 1..];
  }

  lemma OnwardsAll(rows: seq<seq<Node>>, r: nat)
    requires r < |rows|
    ensures Onwards(rows, r, 0) == rows[r] + Flatten(rows[r + 1..])
  {
    assert rows[r][0..] == rows[r];
  }

  lemma AbsentKey(entries: map<Key, object?>, key: Key)
    requires key !in entries
    ensures entries - {key} == entries
  {
    assert forall k :: k in entries ==> k in entries - {key};
  }

  /** All keys of the table are different. */
  ghost predicate UniqueInRows(rows: seq<seq<Node>>) {
    && (forall r :: 0 <= r < |rows| ==> UniqueKeys(rows[r]))
    && (forall q, r, n, m :: 0 <= q < |rows| && 0 <= r < |rows| && q != r && n in rows[q] && m in rows[r] ==> n.key != m.key)
  }

  /** Nodes without the first one that has the key. */
  ghost function Less(s: seq<Node>, key: Key): seq<Node> {
    if s == [] then [] else if s[0].key == key then s[1..] else [s[0]] + Less(s[1..], key)
  }

  ghost predicate HasKey(s: seq<Node>, key: Key) {
    exists n :: n in s && n.key == key
  }

  lemma {:induction false} LessAbsent(s: seq<Node>, key: Key)
    requires forall n :: n in s ==> n.key != key
    ensures Less(s, key) == s
  {
    if s != [] {
      assert s[0] in s && forall n :: n in s[1..] ==> n in s;
      LessAbsent(s[1..], key);
    }
  }

  lemma {:induction false} LessMiddle(a: seq<Node>, n: Node, b: seq<Node>)
    requires forall m :: m in a ==> m.key != n.key
    ensures Less(a + [n] + b, n.key) == a + b
  {
    if a == [] {
      assert a + [n] + b == [n] + b;
      assert a + b == b;
    } else {
      assert a[0] in a && forall m :: m in a[1..] ==> m in a;
      assert a + [n] + b == [a[0]] + (a[1..] + [n] + b);
      LessMiddle(a[1..], n, b);
      assert a + b == [a[0]] + (a[1..] + b);
    }
  }

  /** What is to come of a row and of the rows after it holds none of the other nodes. */
  lemma OnwardsHas(rows: seq<seq<Node>>, r: nat, i: nat, n: Node)
    requires r < |rows| && i <= |rows[r]| && n in Onwards(rows, r, i)
    ensures n in rows[r][i..] || exists q :: r < q < |rows| && n in rows[q]
  {
    if n !in rows[r][i..] {
      FlattenHas(rows[r + 1..], n);
      var k :| 0 <= k < |rows[r + 1..]| && n in rows[r + 1..][k];
      assert n in rows[r + 1 + k];
    }
  }

  lemma CursorHere(rows: seq<seq<Node>>, r: nat, i: nat)
    requires r < |rows| && i < |rows[r]|
    ensures Cursor(rows, r, rows[r][i], Onwards(rows, r, i))
    ensures Onwards(rows, r, i) != [] && Onwards(rows, r, i)[0] == rows[r][i]
  {
    OnwardsStep(rows, r, i);
  }

  /** A key that no node has is not to come. */
  lemma NotToCome(rows: seq<seq<Node>>, crow: int, cnode: Node?, rest: seq<Node>, key: Key)
    requires Cursor(rows, crow, cnode, rest) && forall r, n :: 0 <= r < |rows| && n in rows[r] ==> n.key != key
    ensures Less(rest, key) == rest && !HasKey(rest, key)
  {
    if cnode != null {
      var j :| 0 <= j < |rows[crow]| && rows[crow][j] == cnode && rest == Onwards(rows, crow, j);
      forall n | n in rest ensures n.key != key {
        OnwardsHas(rows, crow, j, n);
        assert n in rows[crow][j..] ==> n in rows[crow];
      }
    }
    LessAbsent(rest, key);
  }

  /** Taking out a node that the cursor is not at: it leaves what is to come. */
  lemma CursorLess(rows: seq<seq<Node>>, crow: int, cnode: Node?, rest: seq<Node>, k: nat, i: nat)
    requires Cursor(rows, crow, cnode, rest) && UniqueInRows(rows) && k < |rows| && i < |rows[k]| && rows[k][i] != cnode
    ensures Cursor(rows[k := RemoveAt(rows[k], i)], crow, cnode, Less(rest, rows[k][i].key))
  {
    if cnode != null {
      var j :| 0 <= j < |rows[crow]| && rows[crow][j] == cnode && rest == Onwards(rows, crow, j);
      if crow == k && i < j {
        LessBefore(rows, k, j, i);
      } else if crow == k {
        LessBehind(rows, k, j, i);
      } else if crow < k {
        LessLater(rows, crow, j, k, i);
      } else {
        LessEarlier(rows, crow, j, k, i);
      }
    }
  }

  lemma LessBefore(rows: seq<seq<Node>>, k: nat, j: nat, i: nat)
    requires UniqueInRows(rows) && k < |rows| && i < j < |rows[k]|
    ensures Less(Onwards(rows, k, j), rows[k][i].key) == Onwards(rows[k := RemoveAt(rows[k], i)], k, j - 1)
    ensures rows[k := RemoveAt(rows[k], i)][k][j - 1] == rows[k][j]
  {
    var row, rows' := rows[k], rows[k := RemoveAt(rows[k], i)];
    forall n | n in Onwards(rows, k, j) ensures n.key != row[i].key {
      OnwardsHas(rows, k, j, n);
      if n in row[j..] {
        var l :| 0 <= l < |row[j..]| && row[j..][l] == n;
        assert row[j + l] == n;
      }
    }
    LessAbsent(Onwards(rows, k, j), row[i].key);
    assert rows'[k][j - 1..] == row[j..] && rows'[k + 1..] == rows[k + 1..];
  }

  lemma LessBehind(rows: seq<seq<Node>>, k: nat, j: nat, i: nat)
    requires UniqueInRows(rows) && k < |rows| && j < i < |rows[k]|
    ensures Less(Onwards(rows, k, j), rows[k][i].key) == Onwards(rows[k := RemoveAt(rows[k], i)], k, j)
    ensures rows[k := RemoveAt(rows[k], i)][k][j] == rows[k][j]
  {
    var row, rows', f := rows[k], rows[k := RemoveAt(rows[k], i)], Flatten(rows[k + 1..]);
    assert rows'[k + 1..] == rows[k + 1..];
    assert Onwards(rows, k, j) == row[j..i] + [row[i]] + (row[i + 1..] + f);
    assert Onwards(rows', k, j) == row[j..i] + (row[i + 1..] + f);
    forall m | m in row[j..i] ensures m.key != row[i].key {
      var l :| 0 <= l < |row[j..i]| && row[j..i][l] == m;
      assert row[j + l] == m;
    }
    LessMiddle(row[j..i], row[i], row[i + 1..] + f);
  }

  lemma LessEarlier(rows: seq<seq<Node>>, r: nat, j: nat, k: nat, i: nat)
    requires UniqueInRows(rows) && k < r < |rows| && j < |rows[r]| && i < |rows[k]|
    ensures Less(Onwards(rows, r, j), rows[k][i].key) == Onwards(rows[k := RemoveAt(rows[k], i)], r, j)
  {
    var key, rows' := rows[k][i].key, rows[k := RemoveAt(rows[k], i)];
    assert rows[k][i] in rows[k];
    forall n | n in Onwards(rows, r, j) ensures n.key != key {
      OnwardsHas(rows, r, j, n);
      assert n in rows[r][j..] ==> n in rows[r];
    }
    LessAbsent(Onwards(rows, r, j), key);
    assert rows'[r + 1..] == rows[r + 1..];
  }

  lemma LessLater(rows: seq<seq<Node>>, r: nat, j: nat, k: nat, i: nat)
    requires UniqueInRows(rows) && r < k < |rows| && j < |rows[r]| && i < |rows[k]|
    ensures Less(Onwards(rows, r, j), rows[k][i].key) == Onwards(rows[k := RemoveAt(rows[k], i)], r, j)
  {
    var row, after := rows[k], rows[r + 1..];
    var a, b := OnwardsSplit(rows, r, j, k, RemoveAt(row, i));
    forall m | m in a + row[..i] ensures m.key != row[i].key {
      assert row[i] in row;
      if m in row[..i] {
        var l :| 0 <= l < |row[..i]| && row[..i][l] == m;
        assert row[l] == m;
      }
    }
    assert a + row + b == (a + row[..i]) + [row[i]] + (row[i + 1..] + b);
    assert a + RemoveAt(row, i) + b == (a + row[..i]) + (row[i + 1..] + b);
    LessMiddle(a + row[..i], row[i], row[i + 1..] + b);
  }

  /** What is to come, around a later row, and with that row replaced. */
  lemma OnwardsSplit(rows: seq<seq<Node>>, r: nat, j: nat, k: nat, row': seq<Node>) returns (a: seq<Node>, b: seq<Node>)
    requires r < k < |rows| && j <= |rows[r]|
    ensures Onwards(rows, r, j) == a + rows[k] + b && Onwards(rows[k := row'], r, j) == a + row' + b
    ensures forall n :: n in a ==> exists q :: 0 <= q < |rows| && q != k && n in rows[q]
  {
    var after, l := rows[r + 1..], k - r - 1;
    FlattenUpdate(after, l, row');
    assert rows[k := row'][r + 1..] == after[l := row'];
    a, b := rows[r][j..] + Flatten(after[..l]), Flatten(after[l + 1..]);
    assert Onwards(rows, r, j) == a + rows[k] + b;
    assert Onwards(rows[k := row'], r, j) == a + row' + b;
    forall n | n in a ensures exists q :: 0 <= q < |rows| && q != k && n in rows[q] {
      if n in rows[r][j..] {
        assert n in rows[r];
      } else {
        FlattenHas(after[..l], n);
        var q :| 0 <= q < |after[..l]| && n in after[..l][q];
        assert n in rows[r + 1 + q];
      }
    }
  }

  /** A new head of row `k`, with a new key: it is to come if its row is. */
  lemma CursorMore(rows: seq<seq<Node>>, crow: int, cnode: Node?, rest: seq<Node>, k: nat, n: Node) returns (rest': seq<Node>)
    requires Cursor(rows, crow, cnode, rest) && k < |rows|
    requires forall r, m :: 0 <= r < |rows| && m in rows[r] ==> m.key != n.key
    ensures Cursor(rows[k := [n] + rows[k]], crow, cnode, rest')
    ensures Less(rest', n.key) == rest && (HasKey(rest', n.key) <==> cnode != null && crow < k)
  {
    hide Onwards, Less, HasKey;
    NotToCome(rows, crow, cnode, rest, n.key);
    rest' := rest;
    if cnode != null {
      var j :| 0 <= j < |rows[crow]| && rows[crow][j] == cnode && rest == Onwards(rows, crow, j);
      var rows' := rows[k := [n] + rows[k]];
      if crow < k {
        MoreLater(rows, crow, j, k, n);
        rest' := Onwards(rows', crow, j);
      } else {
        MoreEarlier(rows, crow, j, k, n);
        assert rows'[crow][if crow == k then j + 1 else j] == cnode;
      }
    }
  }

  lemma MoreEarlier(rows: seq<seq<Node>>, r: nat, j: nat, k: nat, n: Node)
    requires k <= r < |rows| && j < |rows[r]|
    ensures Onwards(rows[k := [n] + rows[k]], r, if r == k then j + 1 else j) == Onwards(rows, r, j)
  {
    var rows' := rows[k := [n] + rows[k]];
    assert rows'[r + 1..] == rows[r + 1..];
    assert r == k ==> rows'[k][j + 1..] == rows[k][j..];
  }

  lemma MoreLater(rows: seq<seq<Node>>, r: nat, j: nat, k: nat, n: Node)
    requires r < k < |rows| && j < |rows[r]|
    requires forall q, m :: 0 <= q < |rows| && m in rows[q] ==> m.key != n.key
    ensures var rest' := Onwards(rows[k := [n] + rows[k]], r, j);
      Less(rest', n.key) == Onwards(rows, r, j) && HasKey(rest', n.key)
  {
    hide Onwards, Less;
    var a, b := OnwardsSplit(rows, r, j, k, [n] + rows[k]);
    var rest' := Onwards(rows[k := [n] + rows[k]], r, j);
    assert rest' == a + [n] + (rows[k] + b) && Onwards(rows, r, j) == a + (rows[k] + b);
    LessMiddle(a, n, rows[k] + b);
    assert n in rest';
  }

  /** A list does not come back to its head. */
  lemma Separate(row: seq<Node>)
    requires row != [] ==> Chain(row, row[0])
    ensures forall i :: 0 < i < |row| ==> row[i] != row[0]
  {
    forall i | 0 < i < |row| ensures row[i] != row[0] {
      assert Linked(row, i) && Linked(row, 0);
    }
  }

  lemma UniqueMore(row: seq<Node>, n: Node)
    requires UniqueKeys(row) && forall m :: m in row ==> m.key != n.key
    ensures UniqueKeys([n] + row)
  {
  }

  lemma RepresentsMore(entries: map<Key, object?>, rows: seq<seq<Node>>, k: nat, n: Node)
    requires Represents(entries, rows) && k < |rows| && n.key !in entries
    ensures Represents(entries[n.key := n.data], rows[k := [n] + rows[k]])
  {
    var entries', rows' := entries[n.key := n.data], rows[k := [n] + rows[k]];
    forall key | key in entries' ensures exists r: int, m: Node :: 0 <= r < |rows'| && m in rows'[r] && m.key == key {
      if key == n.key {
        assert n in rows'[k];
      } else {
        var r, m :| 0 <= r < |rows| && m in rows[r] && m.key == key;
        assert m in rows'[r];
      }
    }
  }

  lemma CountMore(count: int, n: nat)
    requires count == n % UINT_RANGE
    ensures (count + 1) % UINT_RANGE == (n + 1) % UINT_RANGE
  {
  }

  lemma CountLess(count: int, n: nat)
    requires count == n % UINT_RANGE
    ensures n > 0 ==> (count + UINT_RANGE - 1) % UINT_RANGE == (n - 1) % UINT_RANGE
  {
  }

  lemma FlattenNone(rows: seq<seq<Node>>)
    ensures Flatten(rows[|rows|..]) == [] && rows[0..] == rows
  {
  }

  lemma {:induction false} NoNodes(rows: seq<seq<Node>>)
    requires forall k :: 0 <= k < |rows| ==> rows[k] == []
    ensures Flatten(rows) == []
  {
    if rows != [] {
      NoNodes(rows[1..]);
    }
  }
}
