/**
 * Identifiers, and the two-way mapping between identifiers and polyhedron
 * variables: two hash tables that are kept exact inverses of one another.
 */
module Mappings {
  import opened HashTables

  datatype IdentType =
    | ID_REG | ID_REG_INPUT
    | ID_MEM_ADDR | ID_MEM_COUNT
    | ID_MEM_VAL | ID_MEM_VAL_PLUS | ID_MEM_VAL_MINUS | ID_MEM_VAL_INPUT
    | ID_SPECIAL | ID_LOOP | ID_INVALID

  datatype Ident = Ident(id: int, typ: IdentType)

  const NO_STEP := -1

  // A variable, with the step of a memory address.
  datatype IdVal = IdVal(g: nat, s: int)

  // ----- the mapping as a finite map -----

  ghost predicate OneToOne(m: map<Ident, IdVal>) {
    forall i, j :: i in m && j in m && m[i] == m[j] ==> i == j
  }

  // `n` is the inverse of `m`.
  ghost predicate Inverse(m: map<Ident, IdVal>, n: map<IdVal, Ident>) {
    && (forall i :: i in m ==> m[i] in n && n[m[i]] == i)
    && (forall g :: g in n ==> n[g] in m && m[n[g]] == g)
  }

  ghost predicate Submap<K, T>(m: map<K, T>, n: map<K, T>) {
    forall k :: k in m ==> k in n && n[k] == m[k]
  }

  lemma SubmapBoth<K, T>(m: map<K, T>, n: map<K, T>)
    requires Submap(m, n)
    ensures Submap(n, m) <==> m == n
  {
  }

  lemma InverseSubmap(m: map<Ident, IdVal>, n: map<IdVal, Ident>, m': map<Ident, IdVal>, n': map<IdVal, Ident>)
    requires Inverse(m, n) && Inverse(m', n') && Submap(m, m')
    ensures Submap(n, n')
  {
  }

  // Adding a pair takes the variable away from any other identifier.
  function Added(m: map<Ident, IdVal>, id: Ident, g: IdVal): map<Ident, IdVal> {
    (map i | i in m && m[i] != g :: m[i])[id := g]
  }

  lemma AddedOneToOne(m: map<Ident, IdVal>, id: Ident, g: IdVal)
    requires OneToOne(m)
    ensures OneToOne(Added(m, id, g))
  {
  }

  // The inverse of a mapping determines it, and conversely.
  lemma InverseUnique(m: map<Ident, IdVal>, m': map<Ident, IdVal>, n: map<IdVal, Ident>, n': map<IdVal, Ident>)
    requires Inverse(m, n) && Inverse(m', n')
    ensures m == m' <==> n == n'
    ensures OneToOne(m)
  {
    if m == m' {
      assert forall g :: g in n ==> g in n' && n'[g] == n[g];
      assert forall g :: g in n' ==> g in n;
    }
    if n == n' {
      assert forall i :: i in m ==> i in m' && m'[i] == m[i];
      assert forall i :: i in m' ==> i in m;
    }
  }

  // What the four table updates of `add` do to a pair of inverse maps.
  lemma InverseAdded(m: map<Ident, IdVal>, n: map<IdVal, Ident>, id: Ident, g: IdVal,
                     n1: map<IdVal, Ident>, m1: map<Ident, IdVal>,
                     m2: map<Ident, IdVal>, n2: map<IdVal, Ident>)
    requires Inverse(m, n)
    requires n1 == if id in m then n - {m[id]} else n
    requires m1 == if g in n1 then m - {n1[g]} else m
    requires m2 == m1[id := g] && n2 == n1[g := id]
    ensures Inverse(m2, n2) && m2 == Added(m, id, g)
  {
    forall i
      ensures i in m2 <==> i in Added(m, id, g)
      ensures i in m2 ==> m2[i] == Added(m, id, g)[i]
    {
      if i in m && m[i] == g {
        assert n[g] == i;
      }
    }
  }

  lemma InverseRemoved(m: map<Ident, IdVal>, n: map<IdVal, Ident>, id: Ident, g: IdVal,
                       m1: map<Ident, IdVal>, n1: map<IdVal, Ident>)
    requires Inverse(m, n) && id in m && m[id] == g
    requires m1 == m - {id} && n1 == n - {g}
    ensures Inverse(m1, n1)
  {
  }

  lemma InverseDomain(m: map<Ident, IdVal>, n: map<IdVal, Ident>)
    requires Inverse(m, n)
    ensures n.Keys == m.Values
  {
    forall g
      ensures g in n.Keys <==> g in m.Values
    {
      if g in n {
        assert n[g] in m && m[n[g]] == g;
      }
    }
  }

  // ----- the two tables -----

  class Mapping {
    const id2guid: MyHTable<Ident, IdVal>
    const guid2id: MyHTable<IdVal, Ident>

    ghost function Repr(): set<object>
      reads this
    {
      {this} + {id2guid, id2guid.tab} + {guid2id, guid2id.tab}
    }

    ghost predicate Valid()
      reads Repr()
    {
      && id2guid.Valid() && guid2id.Valid()
      && id2guid.Repr() !! guid2id.Repr()
      && Inverse(id2guid.contents, guid2id.contents)
    }

    ghost function Contents(): map<Ident, IdVal>
      reads id2guid
    {
      id2guid.contents
    }

    constructor (hashIdent: Ident -> nat, hashIdVal: IdVal -> nat, size: nat)
      requires size > 0
      ensures Valid() && fresh(Repr()) && Contents() == map[]
    {
      id2guid := new MyHTable(hashIdent, size);
      guid2id := new MyHTable(hashIdVal, size);
    }

    method Has1(id: Ident) returns (b: bool)
      requires Valid()
      ensures b <==> id in Contents()
    {
      b := id2guid.HasKey(id);
    }

    method Has2(g: IdVal) returns (b: bool)
      requires Valid()
      ensures b <==> g in Contents().Values
    {
      InverseDomain(id2guid.contents, guid2id.contents);
      b := guid2id.HasKey(g);
    }

    // Both lookups assert that the key is present.
    method Find1(id: Ident) returns (g: IdVal)
      requires Valid() && id in Contents()
      ensures g == Contents()[id]
    {
      g := id2guid.Get(id);
    }

    method Find2(g: IdVal) returns (id: Ident)
      requires Valid() && g in Contents().Values
      ensures id in Contents() && Contents()[id] == g
    {
      InverseDomain(id2guid.contents, guid2id.contents);
      id := guid2id.Get(g);
    }

    ghost predicate TablesValid()
      reads Repr()
    {
      id2guid.Valid() && guid2id.Valid() && id2guid.Repr() !! guid2id.Repr()
    }

    // Forget the variable of an identifier that is about to be remapped.
    method ReleaseIdent(id: Ident)
      requires TablesValid()
      modifies guid2id, guid2id.tab
      ensures TablesValid()
      ensures guid2id.contents ==
              if id in Contents() then old(guid2id.contents) - {Contents()[id]} else old(guid2id.contents)
    {
      var has := id2guid.HasKey(id);
      if has {
        var g := id2guid.Get(id);
        guid2id.Remove(g);
      }
    }

    // Forget the identifier of a variable that is about to be remapped.
    method ReleaseGuid(g: IdVal)
      requires TablesValid()
      modifies id2guid, id2guid.tab
      ensures TablesValid()
      ensures id2guid.contents ==
              if g in guid2id.contents then old(id2guid.contents) - {guid2id.contents[g]} else old(id2guid.contents)
    {
      var has := guid2id.HasKey(g);
      if has {
        var id := guid2id.Get(g);
        id2guid.Remove(id);
      }
    }

    method Add(id: Ident, g: IdVal)
      requires Valid()
      modifies id2guid, id2guid.tab, guid2id, guid2id.tab
      ensures Valid() && Contents() == Added(old(Contents()), id, g) && OneToOne(Contents())
    {
      hide MyHTable.Valid;
      ReleaseIdent(id);
      ghost var n1 := guid2id.contents;
      InverseUnique(old(Contents()), old(Contents()), old(guid2id.contents), old(guid2id.contents));
      AddedOneToOne(old(Contents()), id, g);
      ReleaseGuid(g);
      ghost var m1 := id2guid.contents;
      id2guid.Put(id, g);
      guid2id.Put(g, id);
      InverseAdded(old(id2guid.contents), old(guid2id.contents), id, g, n1, m1, id2guid.contents, guid2id.contents);
    }

    method Del1(id: Ident)
      requires Valid() && id in Contents()
      modifies id2guid, id2guid.tab, guid2id, guid2id.tab
      ensures Valid() && Contents() == old(Contents()) - {id}
    {
      hide MyHTable.Valid;
      var g := id2guid.Get(id);
      Unlink(id, g);
    }

    method Del2(g: IdVal)
      requires Valid() && g in Contents().Values
      modifies id2guid, id2guid.tab, guid2id, guid2id.tab
      ensures Valid()
      ensures exists id :: id in old(Contents()) && old(Contents())[id] == g && Contents() == old(Contents()) - {id}
    {
      hide MyHTable.Valid;
      InverseDomain(id2guid.contents, guid2id.contents);
      var id := guid2id.Get(g);
      Unlink(id, g);
    }

    method Unlink(id: Ident, g: IdVal)
      requires Valid() && id in Contents() && Contents()[id] == g
      modifies id2guid, id2guid.tab, guid2id, guid2id.tab
      ensures Valid() && Contents() == old(Contents()) - {id}
    {
      hide MyHTable.Valid;
      ReleaseIdent(id);
      id2guid.Remove(id);
      InverseRemoved(old(id2guid.contents), old(guid2id.contents), id, g, id2guid.contents, guid2id.contents);
    }

    // Inclusion, decided by walking both tables.
    method Includes(src: Mapping) returns (b: bool)
      requires Valid() && src.Valid()
      ensures b <==> Submap(Contents(), src.Contents())
    {
      b := AllIn(id2guid, src.id2guid);
      if b {
        InverseSubmap(Contents(), guid2id.contents, src.Contents(), src.guid2id.contents);
        b := AllIn(guid2id, src.guid2id);
      }
    }

    method Equals(src: Mapping) returns (b: bool)
      requires Valid() && src.Valid()
      ensures b <==> Contents() == src.Contents()
    {
      b := Includes(src);
      if b {
        b := src.Includes(this);
        SubmapBoth(Contents(), src.Contents());
      }
    }
  }

  // Every entry of the first table is one of the second.
  method SameEntry<K(==, !new), T(==)>(u: MyHTable<K, T>, key: K, value: T) returns (b: bool)
    requires u.Valid()
    ensures b <==> key in u.contents && u.contents[key] == value
  {
    b := u.HasKey(key);
    if b {
      var other := u.Get(key);
      b := other == value;
    }
  }

  method AllIn<K(==, !new), T(==)>(t: MyHTable<K, T>, u: MyHTable<K, T>) returns (b: bool)
    requires t.Valid() && u.Valid()
    ensures b <==> Submap(t.contents, u.contents)
  {
    hide InternIterator.Valid, MyHTable.Valid;
    var it := new InternIterator(t);
    while !it.Ended()
      invariant it.Valid() && fresh(it)
      invariant forall k :: k in it.visited ==> k in t.contents && k in u.contents && t.contents[k] == u.contents[k]
      decreases t.contents.Keys - it.visited
    {
      it.CurrentEntry();
      var same := SameEntry(u, it.node.key, it.node.value);
      if !same {
        return false;
      }
      it.Next();
    }
    it.EndedVisitedAll();
    b := true;
  }
}
