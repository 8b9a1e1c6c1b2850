/** Model of the chained hash set (HashSet): an array of buckets, each a chain
    of nodes holding an element and the hash code computed when it was added;
    insertion at the tail of a chain; doubling of the array when the load
    factor exceeds 0.8, re-bucketing every node by its stored hash code. */
module ChainedHash {

  /** `DEFAULT_CAPACITY`: the number of buckets of a new set. */
  const DEFAULT_CAPACITY: nat := 10

  /** `hashNode`: an element and its stored hash code. The `next` pointer is
      modelled by the node's place in its chain. */
  datatype HashNode<T> = HashNode(key: nat, value: T)

  /** A bucket: its nodes from head to tail. */
  type Chain<T> = seq<HashNode<T>>

  // ---------------------------------------------------------------------------
  // The table as a value

  /** Every node of a table, bucket by bucket, each chain from head to tail:
      the order in which `resize` visits them. */
  function Flatten<T>(b: seq<Chain<T>>): Chain<T>
  {
    if b == [] then [] else Flatten(b[..|b| - 1]) + b[|b| - 1]
  }

  /** The elements held by a sequence of nodes. */
  function Values<T>(s: Chain<T>): set<T>
  {
    set e | e in s :: e.value
  }

  /** The elements stored in a table. */
  function Contents<T>(b: seq<Chain<T>>): set<T>
  {
    Values(Flatten(b))
  }

  /** Whether a chain holds an element equal to `x`. */
  predicate InChain<T(==)>(c: Chain<T>, x: T)
  {
    exists j :: 0 <= j < |c| && c[j].value == x
  }

  /** No element occurs twice in a sequence of nodes. */
  ghost predicate ValuesDistinct<T>(s: Chain<T>)
  {
    forall p, q :: 0 <= p < q < |s| ==> s[p].value != s[q].value
  }

  /** The placement invariant: every node stores the hash code of its element
      and sits in the bucket that code selects. */
  ghost predicate Placed<T>(b: seq<Chain<T>>, hash: T -> nat)
  {
    |b| > 0 &&
    forall i, j :: 0 <= i < |b| && 0 <= j < |b[i]| ==>
      b[i][j].key == hash(b[i][j].value) && b[i][j].key % |b| == i
  }

  ghost predicate ChainsDistinct<T>(b: seq<Chain<T>>)
  {
    forall i :: 0 <= i < |b| ==> ValuesDistinct(b[i])
  }

  /** The bucket a hash code selects among `capacity` buckets. */
  function BucketIndex(key: nat, capacity: nat): (i: nat)
    requires capacity > 0
    ensures i < capacity
  {
    key % capacity
  }

  /** The nodes of `s` whose stored code selects bucket `k` of `n`, in the
      order of `s`. */
  function Filter<T>(s: Chain<T>, k: int, n: nat): Chain<T>
    requires n > 0
  {
    if s == [] then []
    else Filter(s[..|s| - 1], k, n) + (if s[|s| - 1].key % n == k then [s[|s| - 1]] else [])
  }

  /** The nodes of `s` distributed over `n` buckets by their stored codes. */
  function Distribute<T>(s: Chain<T>, n: nat): (r: seq<Chain<T>>)
    requires n > 0
    ensures |r| == n
  {
    seq(n, k => Filter(s, k, n))
  }

  /** `resize`, as a value: bucket `k` of the new table holds the nodes whose
      stored code selects `k` among `n` buckets, in scan order. */
  function Rehash<T>(b: seq<Chain<T>>, n: nat): (r: seq<Chain<T>>)
    requires n > 0
    ensures |r| == n
  {
    Distribute(Flatten(b), n)
  }

  /** Appending a node at the tail of bucket `r`. */
  function Append<T>(b: seq<Chain<T>>, r: nat, e: HashNode<T>): (g: seq<Chain<T>>)
    requires r < |b|
    ensures |g| == |b| && g[r] == b[r] + [e]
    ensures forall i :: 0 <= i < |b| && i != r ==> g[i] == b[i]
  {
    b[r := b[r] + [e]]
  }

  // ---------------------------------------------------------------------------
  // Lemmas about the table as a value

  lemma {:induction false} InFlatten<T>(b: seq<Chain<T>>, e: HashNode<T>)
    ensures e in Flatten(b) <==> exists i :: 0 <= i < |b| && e in b[i]
  {
    if b != [] {
      var front := b[..|b| - 1];
      InFlatten(front, e);
      if e in Flatten(front) {
        var i :| 0 <= i < |front| && e in front[i];
        assert b[i] == front[i];
      }
      if i :| 0 <= i < |b| && e in b[i] {
        if i < |b| - 1 {
          assert front[i] == b[i];
        }
      }
    }
  }

  lemma {:induction false} FlattenEmpty<T>(b: seq<Chain<T>>)
    requires forall i :: 0 <= i < |b| ==> b[i] == []
    ensures Flatten(b) == []
  {
    if b != [] {
      FlattenEmpty(b[..|b| - 1]);
    }
  }

  /** Appending a node to one bucket adds exactly that node to the table. */
  lemma {:induction false} FlattenAppend<T>(b: seq<Chain<T>>, r: nat, e: HashNode<T>)
    requires r < |b|
    ensures multiset(Flatten(Append(b, r, e))) == multiset(Flatten(b)) + multiset{e}
  {
    var g := Append(b, r, e);
    var n := |b|;
    if r == n - 1 {
      assert g[..n - 1] == b[..n - 1];
      assert Flatten(g) == Flatten(b[..n - 1]) + (b[n - 1] + [e]);
    } else {
      assert g[..n - 1] == Append(b[..n - 1], r, e);
      FlattenAppend(b[..n - 1], r, e);
      assert g[n - 1] == b[n - 1];
    }
  }

  lemma FilterSnoc<T>(s: Chain<T>, e: HashNode<T>, k: int, n: nat)
    requires n > 0
    ensures Filter(s + [e], k, n) == Filter(s, k, n) + (if e.key % n == k then [e] else [])
  {
    assert (s + [e])[..|s|] == s;
  }

  lemma {:induction false} FilterMembers<T>(s: Chain<T>, k: int, n: nat)
    requires n > 0
    ensures forall e :: e in Filter(s, k, n) <==> e in s && e.key % n == k
  {
    if s != [] {
      FilterMembers(s[..|s| - 1], k, n);
      assert s == s[..|s| - 1] + [s[|s| - 1]];
    }
  }

  lemma FilterMember<T>(s: Chain<T>, k: int, n: nat, e: HashNode<T>)
    requires n > 0
    ensures e in Filter(s, k, n) <==> e in s && e.key % n == k
  {
    FilterMembers(s, k, n);
  }

  lemma {:induction false} FilterDistinct<T>(s: Chain<T>, k: int, n: nat)
    requires n > 0 && ValuesDistinct(s)
    ensures ValuesDistinct(Filter(s, k, n))
  {
    if s != [] {
      var front, last := s[..|s| - 1], s[|s| - 1];
      assert ValuesDistinct(front) by {
        forall p, q | 0 <= p < q < |front| ensures front[p].value != front[q].value {
          assert front[p] == s[p] && front[q] == s[q];
        }
      }
      FilterDistinct(front, k, n);
      FilterMembers(front, k, n);
      var f := Filter(front, k, n);
      if last.key % n == k {
        forall p | 0 <= p < |f| ensures f[p].value != last.value {
          assert f[p] in f;
          FilterMember(front, k, n, f[p]);
          var q :| 0 <= q < |front| && front[q] == f[p];
          assert s[q] == f[p];
        }
        var g := f + [last];
        forall p, q | 0 <= p < q < |g| ensures g[p].value != g[q].value {
          if q < |f| {
            assert g[p] == f[p] && g[q] == f[q];
          }
        }
      }
    }
  }

  /** A distinct sequence of nodes holds as many elements as nodes. */
  lemma {:induction false} DistinctCount<T>(s: Chain<T>)
    requires ValuesDistinct(s)
    ensures |Values(s)| == |s|
  {
    if s != [] {
      var front, last := s[..|s| - 1], s[|s| - 1];
      assert ValuesDistinct(front) by {
        forall p, q | 0 <= p < q < |front| ensures front[p].value != front[q].value {
          assert front[p] == s[p] && front[q] == s[q];
        }
      }
      DistinctCount(front);
      assert s == front + [last];
      ValuesAddOne(front, s, last);
      assert last.value !in Values(front) by {
        forall e | e in front ensures e.value != last.value {
          var p :| 0 <= p < |front| && front[p] == e;
          assert s[p] == e;
        }
      }
    }
  }

  /** Placement and distinct chains make the elements distinct table-wide:
      equal elements have equal codes and so share a bucket. */
  lemma {:induction false} FlattenPrefixDistinct<T>(b: seq<Chain<T>>, hash: T -> nat, k: nat)
    requires Placed(b, hash) && ChainsDistinct(b) && k <= |b|
    ensures ValuesDistinct(Flatten(b[..k]))
  {
    if k > 0 {
      FlattenPrefixDistinct(b, hash, k - 1);
      var front := b[..k - 1];
      assert b[..k][..k - 1] == front;
      var a, c := Flatten(front), b[k - 1];
      var s := a + c;
      assert Flatten(b[..k]) == s;
      forall p, q | 0 <= p < q < |s| ensures s[p].value != s[q].value {
        if q < |a| {
          assert s[p] == a[p] && s[q] == a[q];
        } else if p >= |a| {
          assert s[p] == c[p - |a|] && s[q] == c[q - |a|];
        } else {
          assert s[p] == a[p] && a[p] in a;
          InFlatten(front, a[p]);
          var i :| 0 <= i < |front| && a[p] in front[i];
          var j :| 0 <= j < |b[i]| && b[i][j] == a[p];
          assert s[q] == b[k - 1][q - |a|];
        }
      }
    }
  }

  lemma FlattenDistinct<T>(b: seq<Chain<T>>, hash: T -> nat)
    requires Placed(b, hash) && ChainsDistinct(b)
    ensures ValuesDistinct(Flatten(b))
  {
    FlattenPrefixDistinct(b, hash, |b|);
    assert b[..|b|] == b;
  }

  /** `tableSize` counts nodes; on a well-placed table that is the number of
      distinct elements, which `size()` promises. */
  lemma SizeIsElementCount<T>(b: seq<Chain<T>>, hash: T -> nat)
    requires Placed(b, hash) && ChainsDistinct(b)
    ensures |Flatten(b)| == |Contents(b)|
  {
    FlattenDistinct(b, hash);
    DistinctCount(Flatten(b));
  }

  /** Membership in one bucket: on a well-placed table, bucket `i` holds `x`
      iff `x` is stored and its code selects `i`. */
  lemma InChainIff<T>(b: seq<Chain<T>>, hash: T -> nat, x: T, i: nat)
    requires Placed(b, hash) && i < |b|
    ensures InChain(b[i], x) <==> x in Contents(b) && hash(x) % |b| == i
  {
    if InChain(b[i], x) {
      var j :| 0 <= j < |b[i]| && b[i][j].value == x;
      InFlatten(b, b[i][j]);
    }
    if x in Contents(b) && hash(x) % |b| == i {
      var e :| e in Flatten(b) && e.value == x;
      InFlatten(b, e);
      var i' :| 0 <= i' < |b| && e in b[i'];
      var j :| 0 <= j < |b[i']| && b[i'][j] == e;
      assert i' == i;
    }
  }

  /** A bucket is non-empty iff some stored element's code selects it. */
  lemma ChainNonEmptyIff<T>(b: seq<Chain<T>>, hash: T -> nat, i: nat)
    requires Placed(b, hash) && i < |b|
    ensures |b[i]| > 0 <==> exists x :: x in Contents(b) && hash(x) % |b| == i
  {
    if |b[i]| > 0 {
      InChainIff(b, hash, b[i][0].value, i);
    }
    if x :| x in Contents(b) && hash(x) % |b| == i {
      InChainIff(b, hash, x, i);
    }
  }

  lemma ValuesAddOne<T>(s: Chain<T>, t: Chain<T>, e: HashNode<T>)
    requires forall n :: n in t <==> n in s || n == e
    ensures Values(t) == Values(s) + {e.value}
  {
  }

  lemma ValuesSameMembers<T>(s: Chain<T>, t: Chain<T>)
    requires forall n :: n in t <==> n in s
    ensures Values(t) == Values(s)
  {
  }

  /** Appending a node adds one node, and its element, to the table. */
  lemma AppendAddsOne<T>(b: seq<Chain<T>>, r: nat, e: HashNode<T>)
    requires r < |b|
    ensures |Flatten(Append(b, r, e))| == |Flatten(b)| + 1
    ensures Contents(Append(b, r, e)) == Contents(b) + {e.value}
  {
    var g := Append(b, r, e);
    FlattenAppend(b, r, e);
    assert |multiset(Flatten(g))| == |multiset(Flatten(b))| + 1;
    forall n ensures n in Flatten(g) <==> n in Flatten(b) || n == e {
      assert n in multiset(Flatten(g)) <==> n in multiset(Flatten(b)) || n == e;
    }
    ValuesAddOne(Flatten(b), Flatten(g), e);
    assert Contents(g) == Contents(b) + {e.value};
  }

  /** The insertion of `add` on a miss keeps the table well placed and adds
      exactly one node and one element. */
  lemma AppendMiss<T>(b: seq<Chain<T>>, hash: T -> nat, x: T)
    requires Placed(b, hash) && ChainsDistinct(b)
    requires !InChain(b[BucketIndex(hash(x), |b|)], x)
    ensures var g := Append(b, BucketIndex(hash(x), |b|), HashNode(hash(x), x));
      Placed(g, hash) && ChainsDistinct(g) &&
      |Flatten(g)| == |Flatten(b)| + 1 && Contents(g) == Contents(b) + {x}
  {
    var r := BucketIndex(hash(x), |b|);
    var e: HashNode<T> := HashNode(hash(x), x);
    var g: seq<Chain<T>> := Append(b, r, e);
    AppendAddsOne(b, r, e);
    forall i, j | 0 <= i < |g| && 0 <= j < |g[i]|
      ensures g[i][j].key == hash(g[i][j].value) && g[i][j].key % |g| == i
    {
      if i != r || j < |b[r]| {
        assert g[i][j] == b[i][j];
      }
    }
    assert ValuesDistinct(g[r]) by {
      forall p, q | 0 <= p < q < |g[r]| ensures g[r][p].value != g[r][q].value {
        assert g[r][p] == b[r][p];
        if q < |b[r]| {
          assert g[r][q] == b[r][q];
        }
      }
    }
  }

  /** Scanning one more node appends it to the bucket its code selects. */
  lemma DistributeSnoc<T>(s: Chain<T>, e: HashNode<T>, n: nat)
    requires n > 0
    ensures Distribute(s + [e], n) == Append(Distribute(s, n), e.key % n, e)
  {
    forall k | 0 <= k < n ensures Distribute(s + [e], n)[k] == Append(Distribute(s, n), e.key % n, e)[k] {
      FilterSnoc(s, e, k, n);
    }
  }

  /** The nodes of a table, distributed over `n` buckets, are the same nodes. */
  lemma {:induction false} DistributePreservesNodes<T>(s: Chain<T>, n: nat)
    requires n > 0
    ensures multiset(Flatten(Distribute(s, n))) == multiset(s)
  {
    if s == [] {
      FlattenEmpty(Distribute(s, n));
    } else {
      var front, last := s[..|s| - 1], s[|s| - 1];
      assert s == front + [last];
      DistributePreservesNodes(front, n);
      DistributeSnoc(front, last, n);
      FlattenAppend(Distribute(front, n), last.key % n, last);
    }
  }

  /** `resize` keeps every (code, element) node exactly once, hence the same
      elements and the same count. */
  lemma RehashKeepsNodes<T>(b: seq<Chain<T>>, n: nat)
    requires n > 0
    ensures var r := Rehash(b, n);
      multiset(Flatten(r)) == multiset(Flatten(b)) &&
      |Flatten(r)| == |Flatten(b)| && Contents(r) == Contents(b)
  {
    var s := Flatten(b);
    var r := Rehash(b, n);
    DistributePreservesNodes(s, n);
    assert |multiset(Flatten(r))| == |multiset(s)|;
    forall e ensures e in Flatten(r) <==> e in s {
      assert e in multiset(Flatten(r)) <==> e in multiset(s);
    }
    ValuesSameMembers(s, Flatten(r));
    assert Contents(r) == Contents(b);
  }

  /** The table `resize` builds is well placed for its new number of buckets. */
  lemma RehashPlaced<T>(b: seq<Chain<T>>, hash: T -> nat, n: nat)
    requires Placed(b, hash) && ChainsDistinct(b) && n > 0
    ensures Placed(Rehash(b, n), hash) && ChainsDistinct(Rehash(b, n))
  {
    var s := Flatten(b);
    var r := Rehash(b, n);
    FlattenDistinct(b, hash);
    forall k | 0 <= k < n ensures ValuesDistinct(r[k]) {
      FilterDistinct(s, k, n);
    }
    forall k, j | 0 <= k < n && 0 <= j < |r[k]|
      ensures r[k][j].key == hash(r[k][j].value) && r[k][j].key % n == k
    {
      var e := r[k][j];
      assert r[k] == Filter(s, k, n);
      assert e in r[k];
      FilterMember(s, k, n, e);
      InFlatten(b, e);
      var i :| 0 <= i < |b| && e in b[i];
      var j' :| 0 <= j' < |b[i]| && b[i][j'] == e;
    }
  }

  // ---------------------------------------------------------------------------
  // The stored key as the source computes it

  /** The key as written: the unsigned 32-bit hash code is assigned to a
      32-bit signed `int`, so codes of 2^31 and above become negative. */
  function KeyAsWritten(h: nat): (key: int)
    requires h < 0x1_0000_0000
    ensures -0x8000_0000 <= key < 0x8000_0000
    ensures (key - h) % 0x1_0000_0000 == 0
  {
    if h < 0x8000_0000 then h else h - 0x1_0000_0000
  }

  /** C++ `%` on `int`: the remainder takes the sign of the dividend. */
  function TruncatedRem(a: int, n: nat): (r: int)
    requires n > 0
    ensures a >= 0 ==> 0 <= r < n
    ensures a < 0 ==> 0 < r + n && r <= 0
  {
    if a >= 0 then a % n else -((-a) % n)
  }

  /** The bucket index as written: `key % capacity` on the signed key. */
  function IndexAsWritten(h: nat, capacity: nat): (i: int)
    requires h < 0x1_0000_0000 && capacity > 0
    ensures h < 0x8000_0000 ==> i == BucketIndex(h, capacity)
  {
    TruncatedRem(KeyAsWritten(h), capacity)
  }

  /** A counterexample: the hash code 2^31 gives index -8 in a new set, outside
      the bucket array. */
  lemma IndexAsWrittenCanBeNegative()
    ensures IndexAsWritten(0x8000_0000, DEFAULT_CAPACITY) == -8
    ensures BucketIndex(0x8000_0000, DEFAULT_CAPACITY) == 8
  {
  }

  // ---------------------------------------------------------------------------
  // The container

  class HashSet<T(==)> {
    /** The client's hash function (an unsigned code modelled as a `nat`). */
    const hashFunction: T -> nat
    var hashArr: array<Chain<T>>
    var tableSize: nat
    var capacity: nat

    /** The table is well formed: one bucket per unit of capacity, every node
        placed by its stored code, no element twice, `tableSize` counting the
        nodes. */
    ghost predicate Consistent()
      reads this, hashArr
    {
      hashArr.Length == capacity &&
      Placed(hashArr[..], hashFunction) &&
      ChainsDistinct(hashArr[..]) &&
      tableSize == |Flatten(hashArr[..])|
    }

    /** The state after every completed operation: also the load bound
        `size/capacity <= 0.8`. */
    ghost predicate Valid()
      reads this, hashArr
    {
      Consistent() && capacity >= DEFAULT_CAPACITY && 5 * tableSize <= 4 * capacity
    }

    /** The elements of the set. */
    ghost function Elements(): set<T>
      reads this, hashArr
    {
      Contents(hashArr[..])
    }

    /** A new set: DEFAULT_CAPACITY empty buckets. */
    constructor (hashFunction: T -> nat)
      ensures Valid() && fresh(hashArr) && this.hashFunction == hashFunction
      ensures capacity == DEFAULT_CAPACITY && tableSize == 0
      ensures forall i :: 0 <= i < capacity ==> hashArr[i] == []
      ensures Elements() == {}
    {
      var arr := new Chain<T>[DEFAULT_CAPACITY];
      for i := 0 to DEFAULT_CAPACITY
        invariant forall k :: 0 <= k < i ==> arr[k] == []
      {
        arr[i] := [];
      }
      FlattenEmpty(arr[..]);
      this.hashFunction := hashFunction;
      capacity := DEFAULT_CAPACITY;
      tableSize := 0;
      hashArr := arr;
    }

    /** The copy constructor, as a deep copy: a fresh array holding the same
        chains, the same capacity, size and hash function. */
    constructor Copy(s: HashSet<T>)
      requires s.Valid()
      ensures Valid() && fresh(hashArr)
      ensures hashFunction == s.hashFunction && capacity == s.capacity && tableSize == s.tableSize
      ensures hashArr[..] == s.hashArr[..] && Elements() == s.Elements()
    {
      var arr := new Chain<T>[s.capacity];
      for i := 0 to s.capacity
        invariant forall k :: 0 <= k < i ==> arr[k] == s.hashArr[k]
      {
        arr[i] := s.hashArr[i];
      }
      assert arr[..] == s.hashArr[..];
      hashFunction := s.hashFunction;
      capacity := s.capacity;
      tableSize := s.tableSize;
      hashArr := arr;
    }

    /** `add`: a no-op when the element's bucket already holds it; otherwise a
        node (code, element) at the tail of that bucket, one more in the
        count, and a `resize` when the load factor exceeds 0.8. */
    method Add(element: T)
      requires Valid()
      modifies this, hashArr
      ensures Valid() && (hashArr == old(hashArr) || fresh(hashArr))
      ensures Elements() == old(Elements()) + {element}
      ensures tableSize == if element in old(Elements()) then old(tableSize) else old(tableSize) + 1
      ensures element in old(Elements()) ==>
        hashArr == old(hashArr) && capacity == old(capacity) && hashArr[..] == old(hashArr[..])
      ensures element !in old(Elements()) ==>
        var key := hashFunction(element);
        var grown := Append(old(hashArr[..]), BucketIndex(key, old(capacity)), HashNode(key, element));
        if 5 * tableSize > 4 * old(capacity) then
          capacity == 2 * old(capacity) && fresh(hashArr) && hashArr[..] == Rehash(grown, capacity)
        else
          capacity == old(capacity) && hashArr == old(hashArr) && hashArr[..] == grown
    {
      var key := hashFunction(element);
      var index := BucketIndex(key, capacity);
      var present := IsElementAtIndex(element, index);
      if present {
        return;
      }
      InChainIff(hashArr[..], hashFunction, element, index);
      AppendMiss(hashArr[..], hashFunction, element);
      hashArr[index] := hashArr[index] + [HashNode(key, element)];
      tableSize := tableSize + 1;
      if 5 * tableSize > 4 * capacity {
        Resize();
      }
    }

    /** `contains`: scan the element's bucket for an equal element. */
    method Contains(element: T) returns (found: bool)
      requires Consistent()
      ensures found <==> element in Elements()
    {
      var key := hashFunction(element);
      var index := BucketIndex(key, capacity);
      var curr := hashArr[index];
      var j := 0;
      while j < |curr|
        invariant 0 <= j <= |curr|
        invariant forall p :: 0 <= p < j ==> curr[p].value != element
      {
        if curr[j].value == element {
          InChainIff(hashArr[..], hashFunction, element, index);
          return true;
        }
        j := j + 1;
      }
      InChainIff(hashArr[..], hashFunction, element, index);
      return false;
    }

    /** `size`: the number of elements stored. */
    method Size() returns (n: nat)
      requires Consistent()
      ensures n == |Elements()|
    {
      SizeIsElementCount(hashArr[..], hashFunction);
      n := tableSize;
    }

    /** `elementsAtIndex`: the length of bucket `index`, 0 outside the array. */
    method ElementsAtIndex(index: nat) returns (count: nat)
      requires Consistent()
      ensures count == if index < capacity then |hashArr[index]| else 0
      ensures count > 0 <==> exists x :: x in Elements() && hashFunction(x) % capacity == index
    {
      if index >= capacity {
        return 0;
      }
      ChainNonEmptyIff(hashArr[..], hashFunction, index);
      var curr := hashArr[index];
      count := 0;
      while count < |curr|
        invariant count <= |curr|
      {
        count := count + 1;
      }
    }

    /** `isElementAtIndex`: whether bucket `index` holds the element, false
        outside the array. */
    method IsElementAtIndex(element: T, index: nat) returns (found: bool)
      requires Consistent()
      ensures found <==> index < capacity && InChain(hashArr[index], element)
      ensures found <==> element in Elements() && hashFunction(element) % capacity == index
    {
      if index >= capacity {
        assert hashFunction(element) % capacity < capacity;
        return false;
      }
      InChainIff(hashArr[..], hashFunction, element, index);
      var curr := hashArr[index];
      var j := 0;
      while j < |curr|
        invariant 0 <= j <= |curr|
        invariant forall p :: 0 <= p < j ==> curr[p].value != element
      {
        if curr[j].value == element {
          return true;
        }
        j := j + 1;
      }
      return false;
    }

    /** `resize`: a fresh array of twice the buckets, every node re-placed by
        its stored code, scanning bucket by bucket and each chain head to
        tail, appending at the tail of its new bucket. */
    method Resize()
      requires Consistent()
      modifies this
      ensures Consistent() && fresh(hashArr)
      ensures capacity == 2 * old(capacity)
      ensures hashArr[..] == Rehash(old(hashArr[..]), capacity)
      ensures multiset(Flatten(hashArr[..])) == multiset(Flatten(old(hashArr[..])))
      ensures tableSize == old(tableSize) && Elements() == old(Elements())
    {
      ghost var b := hashArr[..];
      var newCapacity := capacity * 2;
      var newArr := Redistribute(hashArr, newCapacity);
      RehashKeepsNodes(b, newCapacity);
      RehashPlaced(b, hashFunction, newCapacity);
      hashArr := newArr;
      capacity := newCapacity;
    }
  }

  /** The two loops of `resize`: a fresh array of `newCapacity` empty
      buckets, into which every old chain is moved in bucket order. */
  method Redistribute<T>(oldArr: array<Chain<T>>, newCapacity: nat) returns (newArr: array<Chain<T>>)
    requires newCapacity > 0
    ensures fresh(newArr) && newArr[..] == Rehash(oldArr[..], newCapacity)
  {
    ghost var b := oldArr[..];
    newArr := new Chain<T>[newCapacity];
    for i := 0 to newCapacity
      invariant forall k :: 0 <= k < i ==> newArr[k] == []
    {
      newArr[i] := [];
    }
    assert newArr[..] == Distribute(Flatten(b[..0]), newCapacity);
    for i := 0 to oldArr.Length
      invariant newArr[..] == Distribute(Flatten(b[..i]), newCapacity)
    {
      MoveChain(newArr, oldArr[i], Flatten(b[..i]));
      assert b[..i + 1][..i] == b[..i];
      assert Flatten(b[..i + 1]) == Flatten(b[..i]) + b[i];
    }
    assert b[..oldArr.Length] == b;
  }

  /** The inner loop of `resize`: walks one old chain head to tail and
      appends each node at the tail of bucket `key % newArr.Length`. When the
      array holds the distribution of the nodes scanned so far, it ends
      holding the distribution of those followed by the chain. */
  method MoveChain<T>(newArr: array<Chain<T>>, originCurr: Chain<T>, ghost scanned: Chain<T>)
    requires newArr.Length > 0
    requires newArr[..] == Distribute(scanned, newArr.Length)
    modifies newArr
    ensures newArr[..] == Distribute(scanned + originCurr, newArr.Length)
  {
    var newCapacity := newArr.Length;
    var j := 0;
    assert scanned + originCurr[..0] == scanned;
    while j < |originCurr|
      invariant 0 <= j <= |originCurr|
      invariant newArr[..] == Distribute(scanned + originCurr[..j], newCapacity)
    {
      var node := originCurr[j];
      var newIndex := BucketIndex(node.key, newCapacity);
      assert scanned + originCurr[..j + 1] == (scanned + originCurr[..j]) + [node];
      DistributeSnoc(scanned + originCurr[..j], node, newCapacity);
      newArr[newIndex] := newArr[newIndex] + [node];
      j := j + 1;
    }
    assert originCurr[..j] == originCurr;
  }

  /** The scenario of nine elements with codes 0 to 8 added to a new set: the
      ninth insertion takes the load factor to 0.9 and doubles the capacity
      once, to 20; all nine remain members. */
  method NineInsertionsResizeOnce()
  {
    var s := new HashSet<nat>(x => x);
    var i := 0;
    while i < 8
      invariant i <= 8
      invariant s.Valid() && fresh(s.hashArr) && s.capacity == DEFAULT_CAPACITY && s.tableSize == i
      invariant forall k: nat :: k in s.Elements() <==> k < i
    {
      assert i !in s.Elements();
      s.Add(i);
      assert s.tableSize == i + 1 && 5 * s.tableSize <= 4 * DEFAULT_CAPACITY;
      i := i + 1;
    }
    ghost var before := s.Elements();
    assert 8 !in before;
    s.Add(8);
    assert s.Elements() == before + {8};
    assert s.tableSize == 9 && 5 * s.tableSize > 4 * DEFAULT_CAPACITY;
    assert s.capacity == 20;
    forall k: nat
      ensures k in s.Elements() <==> k < 9
    {
      assert k in before <==> k < 8;
    }
    var found := s.Contains(4);
    assert found;
    found := s.Contains(9);
    assert !found;
  }
}
