/** The leaderboard structures of `calculateRankings.py`: a separate-chaining
    hash table of user entries keyed by username, and a points-keyed tree node
    whose lookups are written but whose insertion handles only the empty tree. */
module Rankings {
  import opened Wrappers

  /** `UserDoesNotExistError`, `EmptyUserDBError`, and the `AttributeError`
      Python raises when a method is called on `None`. */
  datatype RankingError = UserDoesNotExist | EmptyUserDB | AttributeError

  /** `ceil(numElems * 1.2)`, computed exactly. */
  function Capacity(numElems: int): (c: int)
    ensures 5 * c >= 6 * numElems && 5 * (c - 1) < 6 * numElems
  {
    (6 * numElems + 4) / 5
  }

  /** `x` reduced into `[0, m)` by repeated subtraction or addition of `m`. */
  function Reduce(x: int, m: int): (r: int)
    requires 0 < m
    ensures 0 <= r < m
    decreases if x < 0 then m - x else x
  {
    if x < 0 then Reduce(x + m, m)
    else if x < m then x
    else Reduce(x - m, m)
  }

  /** `Reduce` is Python's `%` for a positive modulus, which Dafny's `%` also is. */
  lemma {:induction false} ReduceIsMod(x: int, m: int)
    requires 0 < m
    ensures Reduce(x, m) == x % m
    decreases if x < 0 then m - x else x
  {
    if x < 0 {
      ReduceIsMod(x + m, m);
      ModUnique(x, m, (x + m) / m - 1, (x + m) % m);
    } else if m <= x {
      ReduceIsMod(x - m, m);
      ModUnique(x, m, (x - m) / m + 1, (x - m) % m);
    } else {
      ModUnique(x, m, 0, x);
    }
  }

  /** The remainder of a division by `m` is the only `r` in `[0, m)` with `x == k * m + r`. */
  lemma ModUnique(x: int, m: int, k: int, r: int)
    requires 0 < m && 0 <= r < m && x == k * m + r
    ensures x % m == r
  {
    var q, s := x / m, x % m;
    assert x == q * m + s;
    assert (q - k) * m == r - s;
    MulBound(q - k, m);
    assert q == k;
  }

  lemma MulBound(d: int, m: int)
    requires 0 < m
    ensures d >= 1 ==> d * m >= m
    ensures d <= -1 ==> d * m <= -m
  {
  }

  // ---------------------------------------------------------------------------
  // Helpers on the ghost view of the bucket chains

  /** The node a bucket slot holds for chain `c`. */
  function Head(c: seq<UserEntryNode>): UserEntryNode? {
    if c == [] then null else c[0]
  }

  /** The node that follows position `j` of chain `c`. */
  function Succ(c: seq<UserEntryNode>, j: int): UserEntryNode?
    requires 0 <= j < |c|
  {
    if j + 1 < |c| then c[j + 1] else null
  }

  /** Number of nodes over all chains. */
  function Count(chains: seq<seq<UserEntryNode>>): nat {
    if chains == [] then 0 else |chains[0]| + Count(chains[1..])
  }

  /** A table of empty buckets holds no node. */
  lemma {:induction false} CountEmpty(chains: seq<seq<UserEntryNode>>)
    requires forall i | 0 <= i < |chains| :: chains[i] == []
    ensures Count(chains) == 0
  {
    if chains != [] {
      CountEmpty(chains[1..]);
    }
  }

  /** The first node of chain `c` carrying `username`, as a walk along `next` finds it. */
  function FindIn(c: seq<UserEntryNode>, username: string): (r: Option<UserEntryNode>)
    ensures r.Some? ==> r.value in c && r.value.username == username
    ensures r.None? <==> forall k | 0 <= k < |c| :: c[k].username != username
  {
    if c == [] then None
    else if c[0].username == username then Some(c[0])
    else FindIn(c[1..], username)
  }

  /** A walk that passes no earlier node of `username` stops at position `j`. */
  lemma {:induction false} FindAt(c: seq<UserEntryNode>, username: string, j: int)
    requires 0 <= j < |c| && c[j].username == username
    requires forall k | 0 <= k < j :: c[k].username != username
    ensures FindIn(c, username) == Some(c[j])
  {
    if j > 0 {
      FindAt(c[1..], username, j - 1);
    }
  }

  /** Chain `c` without its node for `username`, the rest in their order. */
  function Unlink(c: seq<UserEntryNode>, username: string): seq<UserEntryNode> {
    if c == [] then []
    else if c[0].username == username then Unlink(c[1..], username)
    else [c[0]] + Unlink(c[1..], username)
  }

  /** Every node sits in the bucket its username hashes to. */
  ghost predicate Placed(chains: seq<seq<UserEntryNode>>, capacity: int, hash: string -> int)
    requires 0 < capacity
  {
    forall i, j | 0 <= i < |chains| && 0 <= j < |chains[i]| :: Reduce(hash(chains[i][j].username), capacity) == i
  }

  /** No username occurs twice in one chain (hence, by `Placed`, nowhere twice). */
  ghost predicate Distinct(chains: seq<seq<UserEntryNode>>) {
    forall i, j, k | 0 <= i < |chains| && 0 <= j < k < |chains[i]| ::
      chains[i][j].username != chains[i][k].username
  }

  /** Each chained node is in `repr` and its `next` is its successor in the chain. */
  ghost predicate Linked(chains: seq<seq<UserEntryNode>>, repr: set<UserEntryNode>)
    reads repr
  {
    && (forall i, j | 0 <= i < |chains| && 0 <= j < |chains[i]| :: chains[i][j] in repr)
    && (forall i, j {:trigger chains[i][j].next} | 0 <= i < |chains| && 0 <= j < |chains[i]| ::
          chains[i][j].next == Succ(chains[i], j))
  }

  /** The usernames of all chained nodes. */
  ghost function NamesIn(chains: seq<seq<UserEntryNode>>): set<string> {
    set i, j | 0 <= i < |chains| && 0 <= j < |chains[i]| :: chains[i][j].username
  }

  /** A username its own bucket lacks is nowhere in the table. */
  lemma Absent(chains: seq<seq<UserEntryNode>>, capacity: int, hash: string -> int, h: int, username: string)
    requires 0 < capacity && Placed(chains, capacity, hash)
    requires Reduce(hash(username), capacity) == h
    requires 0 <= h < |chains| && forall k | 0 <= k < |chains[h]| :: chains[h][k].username != username
    ensures username !in NamesIn(chains)
    ensures forall i, j | 0 <= i < |chains| && 0 <= j < |chains[i]| :: chains[i][j].username != username
  {
    forall i, j | 0 <= i < |chains| && 0 <= j < |chains[i]|
      ensures chains[i][j].username != username
    {
      if i != h {
        assert Reduce(hash(chains[i][j].username), capacity) == i;
      }
    }
  }

  /** Two positions holding the same node are the same position. */
  lemma Injective(chains: seq<seq<UserEntryNode>>, capacity: int, hash: string -> int, i: int, j: int, i2: int, j2: int)
    requires 0 < capacity && Placed(chains, capacity, hash) && Distinct(chains)
    requires 0 <= i < |chains| && 0 <= j < |chains[i]| && 0 <= i2 < |chains| && 0 <= j2 < |chains[i2]|
    requires chains[i][j] == chains[i2][j2]
    ensures i == i2 && j == j2
  {
    assert Reduce(hash(chains[i][j].username), capacity) == i;
    assert Reduce(hash(chains[i2][j2].username), capacity) == i2;
  }

  /** Prepending a node whose username is not in the table keeps placement and distinctness
      and adds exactly that username. */
  lemma Prepend(chains: seq<seq<UserEntryNode>>, capacity: int, hash: string -> int, h: int, e: UserEntryNode)
    requires 0 < capacity && |chains| == capacity && 0 <= h < capacity
    requires Placed(chains, capacity, hash) && Distinct(chains)
    requires Reduce(hash(e.username), capacity) == h
    requires e.username !in NamesIn(chains)
    ensures var chains' := chains[h := [e] + chains[h]];
      && Placed(chains', capacity, hash) && Distinct(chains')
      && NamesIn(chains') == NamesIn(chains) + {e.username}
  {
    var chains': seq<seq<UserEntryNode>> := chains[h := [e] + chains[h]];
    forall k | 0 <= k < |chains[h]| ensures chains[h][k].username != e.username {
      assert chains[h][k].username in NamesIn(chains);
    }
    forall i, j, k | 0 <= i < |chains'| && 0 <= j < k < |chains'[i]|
      ensures chains'[i][j].username != chains'[i][k].username
    {
      if i == h && j == 0 {
        assert chains'[i][k] == chains[h][k - 1];
      } else if i == h {
        assert chains'[i][j] == chains[h][j - 1] && chains'[i][k] == chains[h][k - 1];
      }
    }
    forall u ensures u in NamesIn(chains') <==> u in NamesIn(chains) || u == e.username {
      if u in NamesIn(chains') {
        var i, j :| 0 <= i < |chains'| && 0 <= j < |chains'[i]| && chains'[i][j].username == u;
        if i == h && j > 0 {
          assert chains[h][j - 1].username == u;
        } else if i != h {
          assert chains[i][j].username == u;
        }
      }
      if u in NamesIn(chains) {
        var i, j :| 0 <= i < |chains| && 0 <= j < |chains[i]| && chains[i][j].username == u;
        if i == h {
          assert chains'[h][j + 1].username == u;
        } else {
          assert chains'[i][j].username == u;
        }
      }
      if u == e.username {
        assert chains'[h][0].username == u;
      }
    }
  }

  /** In a distinct chain, the username at position `j` occurs nowhere else. */
  lemma Unique(chains: seq<seq<UserEntryNode>>, h: int, j: int)
    requires Distinct(chains) && 0 <= h < |chains| && 0 <= j < |chains[h]|
    ensures forall k | 0 <= k < |chains[h]| && k != j :: chains[h][k].username != chains[h][j].username
  {
    forall k | 0 <= k < |chains[h]| && k != j ensures chains[h][k].username != chains[h][j].username {
      if k < j {
        assert chains[h][k].username != chains[h][j].username;
      } else {
        assert chains[h][j].username != chains[h][k].username;
      }
    }
  }

  /** Removing the node at position `j` of chain `h` keeps placement and distinctness. */
  lemma RemoveShape(chains: seq<seq<UserEntryNode>>, capacity: int, hash: string -> int, h: int, j: int)
    requires 0 < capacity && 0 <= h < |chains| && 0 <= j < |chains[h]|
    requires Placed(chains, capacity, hash) && Distinct(chains)
    ensures var c := chains[h];
      var chains' := chains[h := c[..j] + c[j + 1..]];
      Placed(chains', capacity, hash) && Distinct(chains')
  {
    var c := chains[h];
    var c' := c[..j] + c[j + 1..];
    var chains': seq<seq<UserEntryNode>> := chains[h := c'];
    assert forall k | 0 <= k < |c'| :: c'[k] == c[if k < j then k else k + 1];
    forall i, k, l | 0 <= i < |chains'| && 0 <= k < l < |chains'[i]|
      ensures chains'[i][k].username != chains'[i][l].username
    {
      if i == h {
        var k0, l0 := if k < j then k else k + 1, if l < j then l else l + 1;
        assert chains'[i][k] == c[k0] && chains'[i][l] == c[l0] && k0 < l0;
      }
    }
  }

  /** Removing the node at position `j` of chain `h` removes exactly its username. */
  lemma RemoveNames(chains: seq<seq<UserEntryNode>>, capacity: int, hash: string -> int, h: int, j: int)
    requires 0 < capacity && 0 <= h < |chains| && 0 <= j < |chains[h]|
    requires Placed(chains, capacity, hash) && Distinct(chains)
    ensures var c := chains[h];
      NamesIn(chains[h := c[..j] + c[j + 1..]]) == NamesIn(chains) - {c[j].username}
  {
    var c := chains[h];
    var u := c[j].username;
    var c' := c[..j] + c[j + 1..];
    var chains': seq<seq<UserEntryNode>> := chains[h := c'];
    Unique(chains, h, j);
    forall v | v in NamesIn(chains') ensures v in NamesIn(chains) && v != u {
      var i, k :| 0 <= i < |chains'| && 0 <= k < |chains'[i]| && chains'[i][k].username == v;
      if i == h {
        var k0 := if k < j then k else k + 1;
        assert c'[k] == c[k0];
        assert chains[h][k0].username == v;
      } else {
        assert chains[i][k].username == v;
        assert Reduce(hash(chains[i][k].username), capacity) == i;
        assert Reduce(hash(c[j].username), capacity) == h;
      }
    }
    forall v | v in NamesIn(chains) && v != u ensures v in NamesIn(chains') {
      var i, k :| 0 <= i < |chains| && 0 <= k < |chains[i]| && chains[i][k].username == v;
      if i == h {
        var k1 := if k < j then k else k - 1;
        assert c'[k1] == c[k];
        assert chains'[h][k1].username == v;
      } else {
        assert chains'[i][k].username == v;
      }
    }
  }

  /** A node whose `next` is the head of chain `h`, put in front of it, keeps every chain linked. */
  lemma LinkedPrepend(chains: seq<seq<UserEntryNode>>, repr: set<UserEntryNode>, h: int, e: UserEntryNode)
    requires 0 <= h < |chains|
    requires Linked(chains, repr)
    requires e.next == Head(chains[h])
    ensures Linked(chains[h := [e] + chains[h]], repr + {e})
  {
    var chains' := chains[h := [e] + chains[h]];
    forall i, j | 0 <= i < |chains'| && 0 <= j < |chains'[i]|
      ensures chains'[i][j] in repr + {e} && chains'[i][j].next == Succ(chains'[i], j)
    {
      if i == h && j > 0 {
        assert chains'[i][j] == chains[h][j - 1];
      } else if i != h {
        assert chains'[i][j] == chains[i][j];
      }
    }
  }

  /** Successors in a chain with position `j` removed: position `k` of the
      shorter chain is position `k` or `k + 1` of the longer one. */
  lemma SuccShift(c: seq<UserEntryNode>, j: int, k: int)
    requires 0 <= j < |c| && 0 <= k < |c| - 1
    ensures var c' := c[..j] + c[j + 1..];
      && (k + 1 == j ==> Succ(c', k) == Succ(c, j))
      && (k + 1 != j ==> Succ(c', k) == Succ(c, if k >= j then k + 1 else k))
  {
  }

  /** Replacing one chain changes the node count by the difference in length. */
  lemma {:induction false} CountUpdate(chains: seq<seq<UserEntryNode>>, i: int, c: seq<UserEntryNode>)
    requires 0 <= i < |chains|
    ensures Count(chains[i := c]) == Count(chains) - |chains[i]| + |c|
  {
    if i == 0 {
      assert chains[i := c][1..] == chains[1..];
    } else {
      assert chains[i := c][1..] == chains[1..][i - 1 := c];
      CountUpdate(chains[1..], i - 1, c);
    }
  }

  /** In a chain whose usernames are distinct, removing the node at the first
      position holding `username` is `Unlink`. */
  lemma {:induction false} UnlinkAt(c: seq<UserEntryNode>, username: string, j: int)
    requires 0 <= j < |c| && c[j].username == username
    requires forall k | 0 <= k < j :: c[k].username != username
    requires forall k | j < k < |c| :: c[k].username != username
    ensures Unlink(c, username) == c[..j] + c[j + 1..]
  {
    if j == 0 {
      UnlinkNone(c[1..], username);
      assert c[1..] == c[..0] + c[1..];
    } else {
      UnlinkAt(c[1..], username, j - 1);
      assert c[1..][..j - 1] + c[1..][j..] == c[1..j] + c[j + 1..];
      assert [c[0]] + c[1..j] == c[..j];
    }
  }

  /** A chain without `username` is left as it is. */
  lemma {:induction false} UnlinkNone(c: seq<UserEntryNode>, username: string)
    requires forall k | 0 <= k < |c| :: c[k].username != username
    ensures Unlink(c, username) == c
  {
    if c != [] {
      UnlinkNone(c[1..], username);
      assert [c[0]] + c[1..] == c;
    }
  }

  // ---------------------------------------------------------------------------

  /** A user record and, at the same time, a link of a bucket chain. */
  class UserEntryNode {
    var name: string
    /** Never written after construction; the table hashes it. */
    const username: string
    var points: int
    var nodeRef: PointsTree?
    var next: UserEntryNode?

    constructor (name: string, username: string, points: int)
      ensures this.name == name && this.username == username && this.points == points
      ensures nodeRef == null && next == null
    {
      this.name := name;
      this.username := username;
      this.points := points;
      nodeRef := null;
      next := null;
    }

    method SetPointsTree(pointsTree: PointsTree)
      modifies this`nodeRef
      ensures nodeRef == pointsTree
    {
      nodeRef := pointsTree;
    }
  }

  /** Separate-chaining hash table from username to user entry. The bucket
      list never grows: resizing is not implemented. */
  class UserHashTable {
    var courseID: Option<int>
    var size: int
    var loadFactor: int
    var capacity: int
    var items: array<UserEntryNode?>
    /** The string hash the table reduces modulo `capacity`. */
    const hash: string -> int

    /** The nodes of each bucket, from the bucket slot along `next`. */
    ghost var chains: seq<seq<UserEntryNode>>
    /** Holds every chained node. */
    ghost var Repr: set<UserEntryNode>

    ghost predicate Valid()
      reads this, items, Repr
    {
      && 0 < capacity && items.Length == capacity && |chains| == capacity
      && (forall i | 0 <= i < capacity :: items[i] == Head(chains[i]))
      && Placed(chains, capacity, hash)
      && Distinct(chains)
      && Linked(chains, Repr)
      && size == Count(chains)
    }

    /** The usernames stored in the table. */
    ghost function Usernames(): set<string>
      reads this
    {
      NamesIn(chains)
    }

    /** The node the table holds for `username`, if any. */
    ghost function Lookup(username: string): Option<UserEntryNode>
      reads this
      requires 0 < capacity && |chains| == capacity
    {
      FindIn(chains[HashingFunc(username)], username)
    }

    /** A username has a node exactly when it is one of the stored usernames. */
    lemma LookupPresent(username: string)
      requires Valid()
      ensures Lookup(username).Some? <==> username in Usernames()
    {
      var h := HashingFunc(username);
      var c := chains[h];
      if Lookup(username).Some? {
        var k :| 0 <= k < |c| && c[k].username == username;
        assert chains[h][k].username in NamesIn(chains);
      } else {
        Absent(chains, capacity, hash, h, username);
      }
    }

    constructor (numElems: int, courseID: Option<int>, hash: string -> int)
      requires numElems >= 1
      ensures Valid() && fresh(items)
      ensures this.courseID == None && this.hash == hash
      ensures size == 0 && loadFactor == 3 && capacity == Capacity(numElems)
      ensures Repr == {} && Usernames() == {}
    {
      this.courseID := None;
      this.hash := hash;
      size := 0;
      loadFactor := 3;
      capacity := Capacity(numElems);
      items := new UserEntryNode?[Capacity(numElems)](_ => null);
      ghost var empty: seq<seq<UserEntryNode>> := seq(Capacity(numElems), _ => []);
      CountEmpty(empty);
      chains := empty;
      Repr := {};
    }

    /** `__hashingFunc`: the bucket of a username. */
    function HashingFunc(hashStrKey: string): (i: int)
      reads this
      requires 0 < capacity
      ensures 0 <= i < capacity
    {
      Reduce(hash(hashStrKey), capacity)
    }

    /** Searches the username's chain; raises when no node carries it. */
    method GetUser(username: string) returns (r: Result<UserEntryNode, RankingError>)
      requires Valid()
      ensures r.Success? <==> username in Usernames()
      ensures r == if Lookup(username).Some? then Success(Lookup(username).value) else Failure(UserDoesNotExist)
    {
      var hashIndex := HashingFunc(username);
      var currentNode := items[hashIndex];
      ghost var c := chains[hashIndex];
      ghost var j := 0;
      while currentNode != null
        invariant 0 <= j <= |c|
        invariant currentNode == if j < |c| then c[j] else null
        invariant forall k | 0 <= k < j :: c[k].username != username
        decreases |c| - j
      {
        if currentNode.username == username {
          assert chains[hashIndex][j].username in NamesIn(chains);
          FindAt(c, username, j);
          return Success(currentNode);
        }
        currentNode := currentNode.next;
        j := j + 1;
      }
      Absent(chains, capacity, hash, hashIndex, username);
      return Failure(UserDoesNotExist);
    }

    /** Adds a user whose username is new at the front of its bucket's chain,
        or copies name and points onto the node already holding that username
        (then `userEntry` itself is not linked in). */
    method InsertUser(userEntry: UserEntryNode)
      requires Valid()
      requires userEntry.username !in Usernames() && items[HashingFunc(userEntry.username)] == null ==>
        userEntry.next == null
      modifies this`size, this`chains, this`Repr, items, Repr`name, Repr`points, userEntry`next
      ensures Valid()
      ensures Usernames() == old(Usernames()) + {userEntry.username}
      ensures userEntry.username in old(Usernames()) ==>
        && size == old(size) && chains == old(chains) && Repr == old(Repr)
        && Lookup(userEntry.username).Some?
        && Lookup(userEntry.username).value.name == old(userEntry.name)
        && Lookup(userEntry.username).value.points == old(userEntry.points)
        && (forall n | n in Repr && n.username != userEntry.username ::
              n.name == old(n.name) && n.points == old(n.points))
        && (forall n | n in Repr :: n.next == old(n.next))
        && unchanged(userEntry)
      ensures userEntry.username !in old(Usernames()) ==>
        var h := HashingFunc(userEntry.username);
        && size == old(size) + 1
        && chains == old(chains)[h := [userEntry] + old(chains[h])]
        && Repr == old(Repr) + {userEntry}
        && Lookup(userEntry.username) == Some(userEntry)
        && userEntry.name == old(userEntry.name) && userEntry.points == old(userEntry.points)
        && (forall n | n in old(Repr) && n != userEntry :: unchanged(n))
    {
      var hashKey := userEntry.username;
      var hashIndex := HashingFunc(hashKey);
      if items[hashIndex] == null {
        Absent(chains, capacity, hash, hashIndex, hashKey);
        LinkFront(userEntry, hashIndex);
        CheckTableLoad();
      } else {
        // The search loop over the chain, shared with `DeleteUser`.
        var _, currentNode, j := Locate(hashKey);
        if currentNode != null {
          Overwrite(currentNode, userEntry, hashIndex, j);
          return;
        }
        Absent(chains, capacity, hash, hashIndex, hashKey);
        PushFront(userEntry, hashIndex);
        CheckTableLoad();
      }
    }

    /** Points `userEntry`, whose username the table lacks, at the head of
        chain `h`, then puts it into bucket slot `h`. */
    method PushFront(userEntry: UserEntryNode, h: int)
      requires Valid()
      requires h == HashingFunc(userEntry.username)
      requires userEntry.username !in Usernames()
      modifies this`size, this`chains, this`Repr, items, userEntry`next
      ensures Valid()
      ensures Usernames() == old(Usernames()) + {userEntry.username}
      ensures size == old(size) + 1
      ensures chains == old(chains)[h := [userEntry] + old(chains[h])]
      ensures Repr == old(Repr) + {userEntry}
      ensures Lookup(userEntry.username) == Some(userEntry)
      ensures forall n | n in old(Repr) && n != userEntry :: unchanged(n)
    {
      Absent(chains, capacity, hash, h, userEntry.username);
      userEntry.next := items[h];
      LinkFront(userEntry, h);
    }

    /** Puts `userEntry`, whose username the table lacks and whose `next` is
        already the head of chain `h`, into bucket slot `h`. */
    method LinkFront(userEntry: UserEntryNode, h: int)
      requires Valid()
      requires h == HashingFunc(userEntry.username)
      requires userEntry.username !in Usernames()
      requires userEntry.next == items[h]
      modifies this`size, this`chains, this`Repr, items
      ensures Valid()
      ensures Usernames() == old(Usernames()) + {userEntry.username}
      ensures size == old(size) + 1
      ensures chains == old(chains)[h := [userEntry] + old(chains[h])]
      ensures Repr == old(Repr) + {userEntry}
      ensures Lookup(userEntry.username) == Some(userEntry)
    {
      ghost var c := chains[h];
      Prepend(chains, capacity, hash, h, userEntry);
      LinkedPrepend(chains, Repr, h, userEntry);
      CountUpdate(chains, h, [userEntry] + c);
      items[h] := userEntry;
      size := size + 1;
      chains := chains[h := [userEntry] + c];
      Repr := Repr + {userEntry};
    }

    /** Copies name and points of `userEntry` onto `node`, the chained node at
        position `j` of bucket `h`, which carries the same username. */
    method Overwrite(node: UserEntryNode, userEntry: UserEntryNode, ghost h: int, ghost j: int)
      requires Valid()
      requires 0 <= h < |chains| && 0 <= j < |chains[h]| && node == chains[h][j]
      requires node.username == userEntry.username
      modifies node`name, node`points
      ensures Valid()
      ensures userEntry.username in Usernames()
      ensures Lookup(userEntry.username) == Some(node)
      ensures node.name == old(userEntry.name) && node.points == old(userEntry.points)
      ensures forall n | n in Repr && n.username != userEntry.username ::
        n.name == old(n.name) && n.points == old(n.points)
      ensures unchanged(userEntry)
    {
      assert chains[h][j].username in NamesIn(chains);
      assert Reduce(hash(chains[h][j].username), capacity) == h;
      Unique(chains, h, j);
      FindAt(chains[h], node.username, j);
      node.name := userEntry.name;
      node.points := userEntry.points;
    }

    /** Unlinks the node for `username` from its chain; raises when there is none. */
    method DeleteUser(username: string) returns (r: Outcome<RankingError>)
      requires Valid()
      modifies this`size, this`chains, this`Repr, items, Repr`next
      ensures Valid()
      ensures r.Fail? <==> username !in old(Usernames())
      ensures r.Fail? ==> r.error == UserDoesNotExist && unchanged(this, items) && unchanged(Repr)
      ensures r.Pass? ==>
        var h := HashingFunc(username);
        && size == old(size) - 1
        && chains == old(chains)[h := Unlink(old(chains[h]), username)]
        && Usernames() == old(Usernames()) - {username}
        && Lookup(username) == None
        && old(Lookup(username)).Some?
        && var node := old(Lookup(username)).value;
        && Repr == old(Repr) - {node}
        && node.next == old(node.next)
    {
      var hashIndex := HashingFunc(username);
      var prevNode, currentNode, j := Locate(username);
      if currentNode != null {
        FindAt(chains[hashIndex], username, j);
        Splice(prevNode, currentNode, hashIndex, j);
        return Pass;
      }
      return Fail(UserDoesNotExist);
    }

    /** Walks the username's chain from its bucket slot, keeping the previous
        node, until a node carries `username` or the chain ends. */
    method Locate(username: string) returns (prevNode: UserEntryNode?, currentNode: UserEntryNode?, ghost j: int)
      requires Valid()
      ensures var c := chains[HashingFunc(username)];
        && 0 <= j <= |c|
        && currentNode == (if j < |c| then c[j] else null)
        && prevNode == (if j == 0 then null else c[j - 1])
        && (forall k | 0 <= k < j :: c[k].username != username)
        && (currentNode != null ==> currentNode.username == username)
      ensures currentNode == null <==> username !in Usernames()
    {
      var hashIndex := HashingFunc(username);
      currentNode := items[hashIndex];
      prevNode := null;
      ghost var c := chains[hashIndex];
      j := 0;
      while currentNode != null
        invariant 0 <= j <= |c|
        invariant currentNode == if j < |c| then c[j] else null
        invariant prevNode == if j == 0 then null else c[j - 1]
        invariant forall k | 0 <= k < j :: c[k].username != username
        decreases |c| - j
      {
        if currentNode.username == username {
          assert chains[hashIndex][j].username in NamesIn(chains);
          return;
        }
        prevNode := currentNode;
        currentNode := currentNode.next;
        j := j + 1;
      }
      Absent(chains, capacity, hash, hashIndex, username);
    }

    /** Removes `node`, at position `j` of chain `h`, by pointing its predecessor
        `prev` (the bucket slot when there is none) at its successor. */
    method Splice(prev: UserEntryNode?, node: UserEntryNode, h: int, ghost j: int)
      requires Valid()
      requires 0 <= h < |chains| && 0 <= j < |chains[h]| && node == chains[h][j]
      requires prev == if j == 0 then null else chains[h][j - 1]
      modifies this`size, this`chains, this`Repr, items, (if prev == null then {} else {prev})`next
      ensures Valid()
      ensures size == old(size) - 1
      ensures chains == old(chains)[h := Unlink(old(chains[h]), node.username)]
      ensures Usernames() == old(Usernames()) - {node.username}
      ensures Repr == old(Repr) - {node}
      ensures node.next == old(node.next)
    {
      ghost var c := chains[h];
      RemoveShape(chains, capacity, hash, h, j);
      RemoveNames(chains, capacity, hash, h, j);
      Unique(chains, h, j);
      UnlinkAt(c, node.username, j);
      Bypass(prev, node, h, j);
      CountUpdate(chains, h, c[..j] + c[j + 1..]);
      size := size - 1;
      chains := chains[h := c[..j] + c[j + 1..]];
      Repr := Repr - {node};
    }

    /** The pointer update of `Splice`: afterwards the chains read from the
        bucket slots and `next` fields are the old ones without `node`. */
    method Bypass(prev: UserEntryNode?, node: UserEntryNode, h: int, ghost j: int)
      requires Valid()
      requires 0 <= h < |chains| && 0 <= j < |chains[h]| && node == chains[h][j]
      requires prev == if j == 0 then null else chains[h][j - 1]
      modifies items, (if prev == null then {} else {prev})`next
      ensures var c := chains[h];
        var chains' := chains[h := c[..j] + c[j + 1..]];
        && Linked(chains', Repr - {node})
        && forall i | 0 <= i < capacity :: items[i] == Head(chains'[i])
      ensures node.next == old(node.next)
    {
      ghost var c := chains[h];
      assert node.next == Succ(c, j);
      if prev != null {
        prev.next := node.next;
      } else {
        items[h] := node.next;
      }
      ghost var c' := c[..j] + c[j + 1..];
      ghost var chains' := chains[h := c'];
      forall i, k | 0 <= i < |chains'| && 0 <= k < |chains'[i]|
        ensures chains'[i][k] in Repr - {node} && chains'[i][k].next == Succ(chains'[i], k)
      {
        var k0 := if i == h && k >= j then k + 1 else k;
        var n := chains[i][k0];
        assert chains'[i][k] == n;
        if n == node {
          Injective(chains, capacity, hash, i, k0, h, j);
        }
        if i != h {
          assert chains'[i] == chains[i];
          if n == prev {
            Injective(chains, capacity, hash, i, k0, h, j - 1);
          }
          assert n.next == old(n.next);
        } else if k0 == j - 1 {
          SuccShift(c, j, k);
        } else {
          if n == prev {
            Injective(chains, capacity, hash, i, k0, h, j - 1);
          }
          assert n.next == old(n.next);
          SuccShift(c, j, k);
        }
      }
    }

    /** Resizing is not implemented: the check does nothing. */
    method CheckTableLoad()
      requires Valid()
      ensures Valid()
    {
    }

    /** Resizing is not implemented. */
    method ResizeTable()
      requires Valid()
      ensures Valid()
    {
    }
  }

  /** A node of the points-keyed search tree meant to order the leaderboard.
      Only the lookups and the first insertion into an empty tree are written;
      no node is ever linked below another, and colours and child counts are
      never updated. */
  class PointsTree {
    /** The key; `None` while the tree is empty. */
    var points: Option<int>
    /** The users holding exactly `points`. */
    var users: seq<UserEntryNode>
    var left: PointsTree?
    var right: PointsTree?
    var numChildren: int
    /** `true` is red, `false` black. */
    var colour: bool
    /** Back-reference to the hash-table entry inserted here. */
    var userEntryRef: UserEntryNode?

    /** The nodes of this subtree. */
    ghost var Repr: set<PointsTree>

    /** The subtree is a finite tree, and an empty node has no children. */
    ghost predicate Valid()
      reads this, Repr
      decreases Repr
    {
      && this in Repr
      && (points.None? ==> left == null && right == null)
      && (left != null ==>
            left in Repr && left.Repr <= Repr && this !in left.Repr && left.Valid())
      && (right != null ==>
            right in Repr && right.Repr <= Repr && this !in right.Repr && right.Valid())
    }

    /** The users of the subtree by points. */
    ghost function Entries(): (e: map<int, seq<UserEntryNode>>)
      reads this, Repr
      requires Valid()
      decreases Repr
      ensures points.None? ==> e == map[]
      ensures points.Some? ==> points.value in e && e[points.value] == users
    {
      if points.None? then map[]
      else
        (if left == null then map[] else left.Entries())
        + (if right == null then map[] else right.Entries())
        + map[points.value := users]
    }

    /** Search-tree order: smaller keys to the left, larger to the right, and
        every child holds a key. */
    ghost predicate Ordered()
      reads this, Repr
      requires Valid()
      decreases Repr
    {
      && (left != null ==>
            && left.points.Some? && left.Ordered()
            && forall k | k in left.Entries() :: k < points.value)
      && (right != null ==>
            && right.points.Some? && right.Ordered()
            && forall k | k in right.Entries() :: k > points.value)
    }

    /** An empty tree: no key, no users, no children, red. */
    constructor ()
      ensures Valid() && Ordered() && fresh(Repr)
      ensures points == None && users == [] && left == null && right == null
      ensures numChildren == 0 && colour && userEntryRef == null
      ensures Entries() == map[] && TreeSize() == 0 && !IsNodeRed()
    {
      points := None;
      users := [];
      left := null;
      right := null;
      numChildren := 0;
      colour := true;
      userEntryRef := null;
      Repr := {this};
    }

    /** `__treeSize`: an empty tree has size zero; otherwise the stored child count. */
    function TreeSize(): (n: int)
      reads this, Repr
      requires Valid()
      ensures Entries() == map[] ==> n == 0
      ensures points.Some? ==> n == numChildren
    {
      if points.None? then 0 else numChildren
    }

    /** `__isNodeRed`: an empty tree counts as black. */
    function IsNodeRed(): (red: bool)
      reads this, Repr
      requires Valid()
      ensures red <==> Entries() != map[] && colour
    {
      if points.None? then false else colour
    }

    /** `getUsersByPoints`, as written: the descent does not check for a
        missing child, so a search for absent points in a non-empty tree ends
        by calling a method on `None`. */
    function GetUsersByPoints(p: int): (r: Result<Option<seq<UserEntryNode>>, RankingError>)
      reads this, Repr
      requires Valid()
      decreases Repr
      ensures Ordered() && p in Entries() ==> r == Success(Some(Entries()[p]))
      ensures Ordered() && p !in Entries() ==>
        r == if points.None? then Success(None) else Failure(AttributeError)
    {
      if points.None? then Success(None)
      else if p > points.value then
        if right == null then Failure(AttributeError) else right.GetUsersByPoints(p)
      else if p < points.value then
        if left == null then Failure(AttributeError) else left.GetUsersByPoints(p)
      else Success(Some(users))
    }

    /** `getUsersByPoints` with the missing child read as "not found". */
    function FindUsersByPoints(p: int): (r: Option<seq<UserEntryNode>>)
      reads this, Repr
      requires Valid()
      decreases Repr
      ensures Ordered() ==> r == if p in Entries() then Some(Entries()[p]) else None
    {
      if points.None? then None
      else if p > points.value then
        if right == null then None else right.FindUsersByPoints(p)
      else if p < points.value then
        if left == null then None else left.FindUsersByPoints(p)
      else Some(users)
    }

    /** `getTopRankUsers`: the largest points and their users, following
        right children; raises on an empty tree. */
    function GetTopRankUsers(): (r: Result<(int, seq<UserEntryNode>), RankingError>)
      reads this, Repr
      requires Valid()
      decreases Repr
      ensures r.Failure? ==> r.error == EmptyUserDB
      ensures Ordered() ==> (r.Failure? <==> Entries() == map[])
      ensures Ordered() && r.Success? ==>
        && r.value.0 in Entries() && Entries()[r.value.0] == r.value.1
        && forall k | k in Entries() :: k <= r.value.0
    {
      if points.None? then Failure(EmptyUserDB)
      else if right == null then Success((points.value, users))
      else right.GetTopRankUsers()
    }

    /** `getRankByUsername` has an empty body: it answers nothing and changes nothing. */
    method GetRankByUsername(username: string) returns (r: Option<int>)
      requires Valid()
      ensures r == None
    {
      r := None;
    }

    /** `insertUser`: only an empty tree takes the user, becoming a one-key
        tree with the user's points, linked both ways with the entry. The
        entry is not added to `users`. A non-empty tree is left as it is. */
    method InsertUser(userEntry: UserEntryNode)
      requires Valid()
      modifies this`points, this`userEntryRef, userEntry`nodeRef
      ensures Valid() && Repr == old(Repr)
      ensures old(points).None? ==>
        && points == Some(userEntry.points) && userEntryRef == userEntry && userEntry.nodeRef == this
        && colour == old(colour) && numChildren == old(numChildren)
        && users == old(users) && left == null && right == null
        && Ordered() && Entries() == map[userEntry.points := users]
        && GetTopRankUsers() == Success((userEntry.points, users))
        && GetUsersByPoints(userEntry.points) == Success(Some(users))
      ensures old(points).Some? ==> unchanged(this) && unchanged(userEntry)
    {
      if points == None {
        userEntryRef := userEntry;
        userEntry.SetPointsTree(this);
        points := Some(userEntry.points);
      }
    }

    /** `deleteUser` has an empty body: the tree is left as it is. */
    method DeleteUser(username: string)
      requires Valid()
      ensures Valid() && Entries() == old(Entries())
    {
    }
  }
}
