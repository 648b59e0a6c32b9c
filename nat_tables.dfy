/** The bidirectional translation tables of one protocol: the public side
    maps a public tuple to the private tuple it stands for, the private side
    maps a private tuple to its public tuple. The two are always updated
    together, so each is the inverse of the other. */
module Tables {
  import opened NatTypes

  type Table = map<Tuple, Tuple>

  /** Each table is the inverse of the other:
      pub[q] == p  <==>  priv[p] == q. */
  ghost predicate Consistent(pub: Table, priv: Table)
  {
    && (forall q :: q in pub ==> pub[q] in priv && priv[pub[q]] == q)
    && (forall p :: p in priv ==> priv[p] in pub && pub[priv[p]] == p)
  }

  /** No connection is bound to public port `port`. */
  ghost predicate PortUnbound(pub: Table, port: bv16)
  {
    forall q :: q in pub ==> q.port != port
  }

  /** The consistency invariant is exactly the bidirectional equivalence. */
  lemma ConsistentIff(pub: Table, priv: Table, q: Tuple, p: Tuple)
    requires Consistent(pub, priv)
    ensures (q in pub && pub[q] == p) <==> (p in priv && priv[p] == q)
  {
  }

  /** Removing the connection bound to public port `port`: every public entry
      on that port, and every private entry that maps to that port. */
  function RemovePort(pub: Table, priv: Table, port: bv16): (r: (Table, Table))
    ensures r.0.Keys == set q | q in pub && q.port != port
    ensures forall q :: q in r.0 ==> r.0[q] == pub[q]
    ensures r.1.Keys == set p | p in priv && priv[p].port != port
    ensures forall p :: p in r.1 ==> r.1[p] == priv[p]
  {
    (map q | q in pub && q.port != port :: pub[q],
     map p | p in priv && priv[p].port != port :: priv[p])
  }

  /** Inserting a fresh pair keeps the tables each other's inverse. */
  lemma InsertPreservesConsistent(pub: Table, priv: Table, q: Tuple, p: Tuple)
    requires Consistent(pub, priv)
    requires q !in pub && p !in priv
    ensures Consistent(pub[q := p], priv[p := q])
  {
    var pub', priv' := pub[q := p], priv[p := q];
    forall k | k in pub'
      ensures pub'[k] in priv' && priv'[pub'[k]] == k
    {
      if k != q {
        assert pub[k] != p;
      }
    }
    forall k | k in priv'
      ensures priv'[k] in pub' && pub'[priv'[k]] == k
    {
      if k != p {
        assert priv[k] != q;
      }
    }
  }

  /** Removing a port keeps the tables each other's inverse, and afterwards
      the port is free for allocation. */
  lemma RemovePortPreservesConsistent(pub: Table, priv: Table, port: bv16)
    requires Consistent(pub, priv)
    ensures Consistent(RemovePort(pub, priv, port).0, RemovePort(pub, priv, port).1)
    ensures PortUnbound(RemovePort(pub, priv, port).0, port)
  {
    var r := RemovePort(pub, priv, port);
    forall q | q in r.0
      ensures r.0[q] in r.1 && r.1[r.0[q]] == q
    {
      assert priv[pub[q]] == q;
    }
    forall p | p in r.1
      ensures r.1[p] in r.0 && r.0[r.1[p]] == p
    {
      assert pub[priv[p]] == p;
    }
  }
}
