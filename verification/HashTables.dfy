/**
 * The chained hash table `MyHTable`: an array of buckets, each a list of
 * key/value nodes, updated in place.  Keys are duplicate-free.
 */
module HashTables {
  import opened Polyhedra

  // The nodes hanging off one bucket.
  datatype Chain<K, T> = Nil | Node(key: K, value: T, next: Chain<K, T>)

  function Lookup<K(==), T>(c: Chain<K, T>, key: K): Option<T> {
    match c
    case Nil => None
    case Node(k, v, next) => if k == key then Some(v) else Lookup(next, key)
  }

  ghost predicate NoDuplicates<K, T>(c: Chain<K, T>) {
    c.Node? ==> Lookup(c.next, c.key).None? && NoDuplicates(c.next)
  }

  // The chain after the value in the node of `key` was overwritten.
  function Overwritten<K(==), T>(c: Chain<K, T>, key: K, value: T): Chain<K, T> {
    match c
    case Nil => Nil
    case Node(k, v, next) =>
      if k == key then Node(k, value, next) else Node(k, v, Overwritten(next, key, value))
  }

  // The chain after the first node of `key` was unlinked.
  function Unlinked<K(==), T>(c: Chain<K, T>, key: K): Chain<K, T> {
    match c
    case Nil => Nil
    case Node(k, v, next) => if k == key then next else Node(k, v, Unlinked(next, key))
  }

  function At<K(==), T>(m: map<K, T>, k: K): Option<T> {
    if k in m then Some(m[k]) else None
  }

  lemma SameMaps<K(!new), T>(m: map<K, T>, mine: map<K, T>, other: map<K, T>)
    requires forall k :: At(m, k) == if k in other then At(other, k) else At(mine, k)
    ensures m == mine + other
  {
    forall k
      ensures k in m <==> k in mine + other
      ensures k in m ==> m[k] == (mine + other)[k]
    {
      assert At(m, k) == if k in other then At(other, k) else At(mine, k);
    }
  }

  // Advancing along a chain passes exactly one key.
  lemma NextKeys<K(!new), T>(c: Chain<K, T>)
    requires c.Node? && NoDuplicates(c)
    ensures forall k :: Lookup(c.next, k) == if k == c.key then None else Lookup(c, k)
  {
  }

  lemma {:induction false} OverwrittenLookup<K, T>(c: Chain<K, T>, key: K, value: T, k: K)
    ensures Lookup(Overwritten(c, key, value), k)
         == if k == key && Lookup(c, key).Some? then Some(value) else Lookup(c, k)
  {
    if c.Node? {
      OverwrittenLookup(c.next, key, value, k);
    }
  }

  lemma {:induction false} OverwrittenKeepsKeys<K, T>(c: Chain<K, T>, key: K, value: T)
    requires NoDuplicates(c)
    ensures NoDuplicates(Overwritten(c, key, value))
  {
    if c.Node? {
      OverwrittenKeepsKeys(c.next, key, value);
      OverwrittenLookup(c.next, key, value, c.key);
    }
  }

  lemma {:induction false} UnlinkedLookup<K, T>(c: Chain<K, T>, key: K, k: K)
    requires NoDuplicates(c)
    ensures Lookup(Unlinked(c, key), k) == if k == key then None else Lookup(c, k)
  {
    if c.Node? {
      UnlinkedLookup(c.next, key, k);
    }
  }

  lemma {:induction false} UnlinkedKeepsKeys<K, T>(c: Chain<K, T>, key: K)
    requires NoDuplicates(c)
    ensures NoDuplicates(Unlinked(c, key))
  {
    if c.Node? {
      UnlinkedKeepsKeys(c.next, key);
      UnlinkedLookup(c.next, key, c.key);
    }
  }

  class MyHTable<K(==, !new), T> {
    const hash: K -> nat
    const size: nat
    const tab: array<Chain<K, T>>
    ghost var contents: map<K, T>  // the finite map the table stands for

    function Bucket(key: K): (i: nat)
      requires size > 0
      ensures i < size
    {
      hash(key) % size
    }

    ghost predicate Valid()
      reads this, tab
    {
      && size > 0 && tab.Length == size
      && (forall i :: 0 <= i < size ==> NoDuplicates(tab[i]))
      && (forall i, k :: 0 <= i < size && Lookup(tab[i], k).Some? ==> i == Bucket(k))
      && (forall k :: Lookup(tab[Bucket(k)], k) == if k in contents then Some(contents[k]) else None)
    }

    ghost function Repr(): set<object>
      reads this
    {
      {this, tab}
    }

    constructor (hash: K -> nat, size: nat)
      requires size > 0
      ensures Valid() && fresh(Repr()) && contents == map[] && this.hash == hash && this.size == size
    {
      this.hash := hash;
      this.size := size;
      tab := new Chain<K, T>[size](i => Nil);
      contents := map[];
    }

    // The walk along one bucket.  It leaves the bucket as it was, so that
    // lookups may be made while an iteration is under way.
    method Find(key: K) returns (node: Chain<K, T>)
      requires Valid()
      ensures node.Node? <==> key in contents
      ensures node.Node? ==> node.key == key && node.value == contents[key]
    {
      node := tab[Bucket(key)];
      while node.Node?
        invariant Lookup(node, key) == Lookup(tab[Bucket(key)], key)
        decreases node
      {
        if node.key == key {
          return;
        }
        node := node.next;
      }
    }

    method HasKey(key: K) returns (b: bool)
      requires Valid()
      ensures b <==> key in contents
    {
      var node := Find(key);
      b := node.Node?;
    }

    // The lookup asserts that the key is present.
    method Get(key: K) returns (value: T)
      requires Valid() && key in contents
      ensures value == contents[key]
    {
      var node := Find(key);
      value := node.value;
    }

    // A new node at the head of its bucket; nothing checks for an old one.
    method Make(key: K, value: T)
      requires Valid() && key !in contents
      modifies this, tab
      ensures Valid() && contents == old(contents)[key := value]
    {
      var i := Bucket(key);
      tab[i] := Node(key, value, tab[i]);
      contents := contents[key := value];
    }

    method Put(key: K, value: T)
      requires Valid()
      modifies this, tab
      ensures Valid() && contents == old(contents)[key := value]
    {
      var node := Find(key);
      if node.Node? {
        var i := Bucket(key);
        forall k {
          OverwrittenLookup(tab[i], key, value, k);
        }
        OverwrittenKeepsKeys(tab[i], key, value);
        tab[i] := Overwritten(tab[i], key, value);
        contents := contents[key := value];
      } else {
        Make(key, value);
      }
    }

    method Remove(key: K)
      requires Valid()
      modifies this, tab
      ensures Valid() && contents == old(contents) - {key}
    {
      var i := Bucket(key);
      forall k {
        UnlinkedLookup(tab[i], key, k);
      }
      UnlinkedKeepsKeys(tab[i], key);
      tab[i] := Unlinked(tab[i], key);
      contents := contents - {key};
    }

    // Copy every entry of another table, bucket by bucket.
    method PutAll(htab: MyHTable<K, T>)
      requires Valid() && htab.Valid() && htab.Repr() !! Repr()
      modifies this, tab
      ensures Valid() && contents == old(contents) + htab.contents
    {
      ghost var mine := contents;
      for i := 0 to htab.size
        invariant Valid()
        invariant forall k :: At(contents, k) == if htab.InBuckets(k, 0, i) then At(htab.contents, k) else At(mine, k)
      {
        PutChain(htab, i);
      }
      SameMaps(contents, mine, htab.contents);
    }

    method PutChain(htab: MyHTable<K, T>, i: nat)
      requires Valid() && htab.Valid() && htab.Repr() !! Repr() && i < htab.size
      modifies this, tab
      ensures Valid()
      ensures forall k ::
                At(contents, k) == if htab.InBuckets(k, i, i + 1) then At(htab.contents, k) else At(old(contents), k)
    {
      var node := htab.tab[i];
      while node.Node?
        invariant Valid() && NoDuplicates(node)
        invariant forall k :: Lookup(node, k).Some? ==> Lookup(node, k) == Lookup(htab.tab[i], k)
        invariant forall k :: At(contents, k) == if htab.InBuckets(k, i, i + 1) && Lookup(node, k).None?
                                                 then At(htab.contents, k) else At(old(contents), k)
        decreases node
      {
        NextKeys(node);
        assert Lookup(node, node.key) == Some(node.value);
        Put(node.key, node.value);
        node := node.next;
      }
    }

    ghost predicate InBuckets(key: K, lo: nat, hi: nat)
      requires size > 0
      reads this
    {
      key in contents && lo <= Bucket(key) < hi
    }

    method Clear()
      requires Valid()
      modifies this, tab
      ensures Valid() && contents == map[]
    {
      for i := 0 to size
        invariant forall k :: 0 <= k < i ==> tab[k] == Nil
      {
        tab[i] := Nil;
      }
      contents := map[];
    }
  }

  // An iteration over a table.  `visited` are the keys passed so far.
  class InternIterator<K(==, !new), T> {
    const htab: MyHTable<K, T>
    var node: Chain<K, T>
    var i: nat
    ghost var visited: set<K>

    ghost predicate Valid()
      reads this, htab, htab.tab
    {
      && htab.Valid() && i <= htab.size
      && (i < htab.size ==> node.Node? && NoDuplicates(node))
      && (forall k :: k in visited <==> k in htab.contents && !Ahead(k))
      && (i < htab.size ==> forall k :: Lookup(node, k).Some? ==> Lookup(node, k) == Lookup(htab.tab[i], k))
    }

    // Keys still to come.
    ghost predicate Ahead(k: K)
      requires htab.size > 0
      reads this
    {
      htab.Bucket(k) > i || (htab.Bucket(k) == i && Lookup(node, k).Some?)
    }

    constructor (htab: MyHTable<K, T>)
      requires htab.Valid()
      ensures Valid() && fresh(this) && this.htab == htab && visited == {}
    {
      this.htab := htab;
      node := Nil;
      i := 0;
      visited := {};
      new;
      Step();
    }

    predicate Ended()
      reads this
    {
      i >= htab.size
    }

    // Skip the empty buckets from `i` on.
    method Step()
      requires htab.Valid() && i <= htab.size
      requires forall k :: k in visited <==> k in htab.contents && htab.Bucket(k) < i
      modifies this
      ensures Valid() && visited == old(visited)
    {
      while i < htab.size
        invariant i <= htab.size && visited == old(visited)
        invariant forall k :: k in visited <==> k in htab.contents && htab.Bucket(k) < i
        decreases htab.size - i
      {
        if htab.tab[i].Node? {
          node := htab.tab[i];
          return;
        }
        i := i + 1;
      }
    }

    // Each step passes exactly one entry, never one passed before.
    method Next()
      requires Valid() && !Ended()
      modifies this
      ensures Valid()
      ensures old(node).key !in old(visited) && visited == old(visited) + {old(node).key}
    {
      ghost var was, key := node, node.key;
      CurrentEntry();
      NextKeys(node);
      node := node.next;
      visited := visited + {key};
      forall k
        ensures k in visited <==> k in htab.contents && !Ahead(k)
      {
        assert Lookup(was, key).Some?;
        assert Lookup(node, k) == if k == key then None else Lookup(was, k);
      }
      if node == Nil {
        i := i + 1;
        Step();
      }
    }

    // At the end every entry has been passed.
    lemma EndedVisitedAll()
      requires Valid() && Ended()
      ensures visited == htab.contents.Keys
    {
    }

    // The entry under the iterator is an entry of the table.
    lemma CurrentEntry()
      requires Valid() && !Ended()
      ensures node.Node? && node.key in htab.contents && htab.contents[node.key] == node.value && node.key !in visited
    {
      assert Lookup(node, node.key) == Some(node.value);
      assert Ahead(node.key);
    }
  }
}
