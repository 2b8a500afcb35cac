/**
 Insertion and deletion, as functions that return the new root of the subtree they are
 given, exactly as the recursive C functions hand the new root back to the caller that
 relinks it.  Every ancestor of the changed position is passed through `Balancear` on the
 way up; a node holding a duplicate key is returned as it is, and a matched node with no
 child is dropped without rebalancing.
 */
module AvlOperaciones {
  import opened ArbolAvl
  import opened AvlRotaciones

  /**
   `insertar`: a missing subtree becomes a fresh leaf (cached factor 0); a smaller key goes
   left, a larger key right, an equal key leaves the node as it is.
   */
  function Insertar(t: Arbol, x: int): (r: Arbol)
    requires FeCorrecto(t)
    ensures r.Nodo? && FeCorrecto(r)
    ensures Claves(r) == Claves(t) + {x}
  {
    if t.Vacio? then Hoja(x)
    else if x < t.dato then
      var n := Nodo(t.dato, t.fe, Insertar(t.izq, x), t.der);
      HijosFeLocalPuedeBalancear(n);
      Balancear(n)
    else if x > t.dato then
      var n := Nodo(t.dato, t.fe, t.izq, Insertar(t.der, x));
      HijosFeLocalPuedeBalancear(n);
      Balancear(n)
    else t
  }

  /**
   `eliminar`: a missing subtree stays missing; a smaller or larger key is removed from
   the matching side; a matching node with no child disappears, with one child it takes
   that child's whole contents, and with two children it takes the key of its in-order
   successor (the leftmost node of its right subtree), which is then removed from the
   right subtree.
   */
  function Eliminar(t: Arbol, x: int): (r: Arbol)
    requires FeCorrecto(t)
    ensures FeCorrecto(r)
    ensures Claves(r) <= Claves(t)
  {
    if t.Vacio? then Vacio
    else if x < t.dato then
      var n := Nodo(t.dato, t.fe, Eliminar(t.izq, x), t.der);
      HijosFeLocalPuedeBalancear(n);
      Balancear(n)
    else if x > t.dato then
      var n := Nodo(t.dato, t.fe, t.izq, Eliminar(t.der, x));
      HijosFeLocalPuedeBalancear(n);
      Balancear(n)
    else if t.izq.Vacio? || t.der.Vacio? then
      var temp := if t.izq.Nodo? then t.izq else t.der;
      if temp.Vacio? then Vacio
      else
        assert FeCorrecto(temp);
        assert FeCorrecto(temp.izq) && FeCorrecto(temp.der);
        HijosFeLocalPuedeBalancear(temp);
        Balancear(temp)
    else
      var sucesor := EncontrarMin(t.der);
      var n := Nodo(sucesor.dato, t.fe, t.izq, Eliminar(t.der, sucesor.dato));
      HijosFeLocalPuedeBalancear(n);
      Balancear(n)
  }

  /** Insertion keeps the search-tree order. */
  lemma {:induction false} InsertarBst(t: Arbol, x: int)
    requires FeCorrecto(t) && Bst(t)
    ensures Bst(Insertar(t, x))
  {
    if t.Nodo? && x != t.dato {
      var n := if x < t.dato then Nodo(t.dato, t.fe, Insertar(t.izq, x), t.der)
               else Nodo(t.dato, t.fe, t.izq, Insertar(t.der, x));
      if x < t.dato { InsertarBst(t.izq, x); } else { InsertarBst(t.der, x); }
      assert Bst(n);
      HijosFeLocalPuedeBalancear(n);
      assert Insertar(t, x) == Balancear(n);
    }
  }

  /**
   On a search tree, deletion removes exactly the key `x` (nothing when `x` is absent) and
   keeps the search-tree order.
   */
  lemma {:induction false} EliminarBst(t: Arbol, x: int)
    requires FeCorrecto(t) && Bst(t)
    ensures Bst(Eliminar(t, x))
    ensures Claves(Eliminar(t, x)) == Claves(t) - {x}
  {
    if t.Vacio? {
    } else if x < t.dato {
      EliminarBst(t.izq, x);
      EliminarBstIzq(t, x);
    } else if x > t.dato {
      EliminarBst(t.der, x);
      EliminarBstDer(t, x);
    } else if t.izq.Vacio? || t.der.Vacio? {
      assert x !in Claves(t.izq) && x !in Claves(t.der);
    } else {
      var m := EncontrarMin(t.der).dato;
      EliminarBst(t.der, m);
      EliminarBstSucesor(t, m, Eliminar(t.der, m));
      assert Eliminar(t, x) == Balancear(Nodo(m, t.fe, t.izq, Eliminar(t.der, m)));
    }
  }

  lemma EliminarBstIzq(t: Arbol, x: int)
    requires FeCorrecto(t) && Bst(t) && t.Nodo? && x < t.dato
    requires Bst(Eliminar(t.izq, x)) && Claves(Eliminar(t.izq, x)) == Claves(t.izq) - {x}
    ensures Bst(Eliminar(t, x))
    ensures Claves(Eliminar(t, x)) == Claves(t) - {x}
  {
    var n := Nodo(t.dato, t.fe, Eliminar(t.izq, x), t.der);
    EliminarBstPaso(t, x, n.izq, n.der);
    assert Eliminar(t, x) == Balancear(n);
  }

  lemma EliminarBstDer(t: Arbol, x: int)
    requires FeCorrecto(t) && Bst(t) && t.Nodo? && x > t.dato
    requires Bst(Eliminar(t.der, x)) && Claves(Eliminar(t.der, x)) == Claves(t.der) - {x}
    ensures Bst(Eliminar(t, x))
    ensures Claves(Eliminar(t, x)) == Claves(t) - {x}
  {
    var n := Nodo(t.dato, t.fe, t.izq, Eliminar(t.der, x));
    EliminarBstPaso(t, x, n.izq, n.der);
    assert Eliminar(t, x) == Balancear(n);
  }

  /**
   One step of `EliminarBst` down a side: `x` is removed from the side it belongs to, the
   node keeps its key, and the rebalanced node holds the old keys less `x`.
   */
  lemma EliminarBstPaso(t: Arbol, x: int, i: Arbol, d: Arbol)
    requires t.Nodo? && Bst(t) && FeCorrecto(i) && FeCorrecto(d) && Bst(i) && Bst(d)
    requires || (x < t.dato && Claves(i) == Claves(t.izq) - {x} && d == t.der)
             || (x > t.dato && i == t.izq && Claves(d) == Claves(t.der) - {x})
    ensures PuedeBalancear(Nodo(t.dato, t.fe, i, d))
    ensures Bst(Balancear(Nodo(t.dato, t.fe, i, d)))
    ensures Claves(Balancear(Nodo(t.dato, t.fe, i, d))) == Claves(t) - {x}
  {
    BstConHijosMenores(t, i, d);
    ClavesSinLaBuscada(t, x, i, d);
    HijosFeLocalPuedeBalancear(Nodo(t.dato, t.fe, i, d));
  }

  /** A node of a search tree stays ordered when its subtrees lose keys. */
  lemma BstConHijosMenores(t: Arbol, i: Arbol, d: Arbol)
    requires t.Nodo? && Bst(t) && Bst(i) && Bst(d)
    requires Claves(i) <= Claves(t.izq) && Claves(d) <= Claves(t.der)
    ensures Bst(Nodo(t.dato, t.fe, i, d))
  {
  }

  /** Removing `x` from the side of a search tree it belongs to removes it from the node. */
  lemma ClavesSinLaBuscada(t: Arbol, x: int, i: Arbol, d: Arbol)
    requires t.Nodo? && Bst(t)
    requires || (x < t.dato && Claves(i) == Claves(t.izq) - {x} && d == t.der)
             || (x > t.dato && i == t.izq && Claves(d) == Claves(t.der) - {x})
    ensures Claves(Nodo(t.dato, t.fe, i, d)) == Claves(t) - {x}
  {
    if x < t.dato {
      assert x !in Claves(t.der);
    } else {
      assert x !in Claves(t.izq);
    }
  }

  /** The two-children step of `EliminarBst`: the node takes the successor's key `m`. */
  lemma EliminarBstSucesor(t: Arbol, m: int, d: Arbol)
    requires t.Nodo? && Bst(t) && FeCorrecto(t) && FeCorrecto(d) && Bst(d)
    requires m in Claves(t.der) && Claves(d) == Claves(t.der) - {m}
    requires forall c :: c in Claves(t.der) ==> m <= c
    ensures PuedeBalancear(Nodo(m, t.fe, t.izq, d))
    ensures Bst(Balancear(Nodo(m, t.fe, t.izq, d)))
    ensures Claves(Balancear(Nodo(m, t.fe, t.izq, d))) == Claves(t) - {t.dato}
  {
    BstSucesorArriba(t, m, d);
    ClavesSucesorArriba(t, m, d);
    HijosFeLocalPuedeBalancear(Nodo(m, t.fe, t.izq, d));
  }

  /** The successor's key, lifted into the node, lies between the two sides. */
  lemma BstSucesorArriba(t: Arbol, m: int, d: Arbol)
    requires t.Nodo? && Bst(t) && Bst(d)
    requires m in Claves(t.der) && Claves(d) == Claves(t.der) - {m}
    requires forall c :: c in Claves(t.der) ==> m <= c
    ensures Bst(Nodo(m, t.fe, t.izq, d))
  {
    assert t.dato < m;
    forall c | c in Claves(t.izq) ensures c < m {
      assert c < t.dato;
    }
    forall c | c in Claves(d) ensures m < c {
      assert c in Claves(t.der) && c != m;
    }
  }

  /** Lifting the successor's key and removing it below drops only the node's own key. */
  lemma ClavesSucesorArriba(t: Arbol, m: int, d: Arbol)
    requires t.Nodo? && Bst(t)
    requires m in Claves(t.der) && Claves(d) == Claves(t.der) - {m}
    ensures Claves(Nodo(m, t.fe, t.izq, d)) == Claves(t) - {t.dato}
  {
    assert t.dato !in Claves(t.izq) && t.dato !in Claves(t.der);
  }

  // ---------------------------------------------------------------- balance and height

  /**
   One level of the way back up after an insertion: one child grew by at most one level,
   the other kept its height; `Balancear` restores the AVL bound and the node's height
   grows by at most one.
   */
  lemma RebalancearTrasCrecer(t: Arbol, n: Arbol)
    requires Avl(t) && t.Nodo? && n.Nodo? && Avl(n.izq) && Avl(n.der)
    requires || (Altura(n.der) == Altura(t.der) && Altura(t.izq) <= Altura(n.izq) <= Altura(t.izq) + 1)
             || (Altura(n.izq) == Altura(t.izq) && Altura(t.der) <= Altura(n.der) <= Altura(t.der) + 1)
    ensures PuedeBalancear(n)
    ensures Avl(Balancear(n))
    ensures Altura(t) <= Altura(Balancear(n)) <= Altura(t) + 1
  {
    BalancearAvl(n);
  }

  /**
   One level of the way back up after a deletion: one child lost at most one level, the
   other kept its height; `Balancear` restores the AVL bound and the node's height shrinks
   by at most one.
   */
  lemma RebalancearTrasMenguar(t: Arbol, n: Arbol)
    requires Avl(t) && t.Nodo? && n.Nodo? && Avl(n.izq) && Avl(n.der)
    requires || (Altura(n.der) == Altura(t.der) && Altura(t.izq) - 1 <= Altura(n.izq) <= Altura(t.izq))
             || (Altura(n.izq) == Altura(t.izq) && Altura(t.der) - 1 <= Altura(n.der) <= Altura(t.der))
    ensures PuedeBalancear(n)
    ensures Avl(Balancear(n))
    ensures Altura(t) - 1 <= Altura(Balancear(n)) <= Altura(t)
  {
    BalancearAvl(n);
  }

  /** Insertion into an AVL tree gives an AVL tree at most one level taller. */
  lemma {:induction false} InsertarAvl(t: Arbol, x: int)
    requires Avl(t)
    ensures Avl(Insertar(t, x))
    ensures Altura(t) <= Altura(Insertar(t, x)) <= Altura(t) + 1
  {
    if t.Nodo? && x < t.dato {
      InsertarAvl(t.izq, x);
      var n := Nodo(t.dato, t.fe, Insertar(t.izq, x), t.der);
      RebalancearTrasCrecer(t, n);
      assert Insertar(t, x) == Balancear(n);
    } else if t.Nodo? && x > t.dato {
      InsertarAvl(t.der, x);
      var n := Nodo(t.dato, t.fe, t.izq, Insertar(t.der, x));
      RebalancearTrasCrecer(t, n);
      assert Insertar(t, x) == Balancear(n);
    }
  }

  /** Deletion from an AVL tree gives an AVL tree at most one level shorter. */
  lemma {:induction false} EliminarAvl(t: Arbol, x: int)
    requires Avl(t)
    ensures Avl(Eliminar(t, x))
    ensures Altura(t) - 1 <= Altura(Eliminar(t, x)) <= Altura(t)
  {
    if t.Vacio? {
    } else if x < t.dato {
      EliminarAvl(t.izq, x);
      var n := Nodo(t.dato, t.fe, Eliminar(t.izq, x), t.der);
      RebalancearTrasMenguar(t, n);
      assert Eliminar(t, x) == Balancear(n);
    } else if x > t.dato {
      EliminarAvl(t.der, x);
      var n := Nodo(t.dato, t.fe, t.izq, Eliminar(t.der, x));
      RebalancearTrasMenguar(t, n);
      assert Eliminar(t, x) == Balancear(n);
    } else if t.izq.Vacio? || t.der.Vacio? {
      var temp := if t.izq.Nodo? then t.izq else t.der;
      if temp.Nodo? {
        BalancearAvlIdentidad(temp);
        assert Eliminar(t, x) == temp;
      }
    } else {
      var m := EncontrarMin(t.der).dato;
      EliminarAvl(t.der, m);
      var n := Nodo(m, t.fe, t.izq, Eliminar(t.der, m));
      RebalancearTrasMenguar(t, n);
      assert Eliminar(t, x) == Balancear(n);
    }
  }

  /** Insertion keeps an AVL search tree one, adds exactly `x`, and grows by at most a level. */
  lemma InsertarConserva(t: Arbol, x: int)
    requires Avl(t) && Bst(t)
    ensures var r := Insertar(t, x);
      && Avl(r) && Bst(r) && Claves(r) == Claves(t) + {x}
      && Altura(t) <= Altura(r) <= Altura(t) + 1
  {
    InsertarAvl(t, x);
    InsertarBst(t, x);
  }

  /** Deletion keeps an AVL search tree one, removes exactly `x`, and shrinks by at most a level. */
  lemma EliminarConserva(t: Arbol, x: int)
    requires Avl(t) && Bst(t)
    ensures var r := Eliminar(t, x);
      && Avl(r) && Bst(r) && Claves(r) == Claves(t) - {x}
      && Altura(t) - 1 <= Altura(r) <= Altura(t)
  {
    EliminarAvl(t, x);
    EliminarBst(t, x);
  }

  // ---------------------------------------------------------------- no-ops

  /** Inserting a key that is already in an AVL search tree returns the very same tree. */
  lemma {:induction false} InsertarDuplicado(t: Arbol, x: int)
    requires Avl(t) && Bst(t) && x in Claves(t)
    ensures Insertar(t, x) == t
  {
    if x < t.dato {
      InsertarDuplicado(t.izq, x);
      BalancearAvlIdentidad(t);
    } else if x > t.dato {
      InsertarDuplicado(t.der, x);
      BalancearAvlIdentidad(t);
    }
  }

  /** Deleting a key that is not in an AVL search tree returns the very same tree. */
  lemma {:induction false} EliminarAusente(t: Arbol, x: int)
    requires Avl(t) && Bst(t) && x !in Claves(t)
    ensures Eliminar(t, x) == t
  {
    if t.Nodo? && x < t.dato {
      EliminarAusente(t.izq, x);
      BalancearAvlIdentidad(t);
    } else if t.Nodo? && x > t.dato {
      EliminarAusente(t.der, x);
      BalancearAvlIdentidad(t);
    }
  }

  /**
   Deleting the key of a node with at most one child, in an AVL tree, leaves exactly that
   child's subtree (nothing when there is no child): the copied child needs no rebalancing.
   */
  lemma EliminarConUnHijo(t: Arbol)
    requires Avl(t) && t.Nodo? && (t.izq.Vacio? || t.der.Vacio?)
    ensures Eliminar(t, t.dato) == if t.izq.Nodo? then t.izq else t.der
  {
    var temp := if t.izq.Nodo? then t.izq else t.der;
    if temp.Nodo? {
      BalancearAvlIdentidad(temp);
    }
  }

  /** Inserting the same key twice is the same as inserting it once. */
  lemma InsertarIdempotente(t: Arbol, x: int)
    requires Avl(t) && Bst(t)
    ensures Insertar(Insertar(t, x), x) == Insertar(t, x)
  {
    InsertarAvl(t, x);
    InsertarBst(t, x);
    InsertarDuplicado(Insertar(t, x), x);
  }

  /** Deleting the same key twice is the same as deleting it once. */
  lemma EliminarIdempotente(t: Arbol, x: int)
    requires Avl(t) && Bst(t)
    ensures Eliminar(Eliminar(t, x), x) == Eliminar(t, x)
  {
    EliminarAvl(t, x);
    EliminarBst(t, x);
    EliminarAusente(Eliminar(t, x), x);
  }

  // ---------------------------------------------------------------- round trip

  /**
   Plain search-tree insertion that only refreshes the cached factors on the way up and
   never rotates: what `insertar` does when no ancestor ends up two levels off balance.
   */
  function InsertarHoja(t: Arbol, x: int): (r: Arbol)
    ensures r.Nodo? && Claves(r) == Claves(t) + {x}
  {
    if t.Vacio? then Hoja(x)
    else if x < t.dato then ActualizarFe(Nodo(t.dato, t.fe, InsertarHoja(t.izq, x), t.der))
    else if x > t.dato then ActualizarFe(Nodo(t.dato, t.fe, t.izq, InsertarHoja(t.der, x)))
    else t
  }

  /**
   Inserting a fresh key whose leaf leaves every ancestor balanced is that plain insertion,
   and deleting the key right after gives back exactly the tree before the insertion.
   */
  lemma {:induction false} IdaVuelta(t: Arbol, x: int)
    requires Avl(t) && x !in Claves(t) && Avl(InsertarHoja(t, x))
    ensures Insertar(t, x) == InsertarHoja(t, x)
    ensures Eliminar(Insertar(t, x), x) == t
  {
    if t.Nodo? {
      var h := InsertarHoja(t, x);
      if x < t.dato {
        IdaVuelta(t.izq, x);
        var n := Nodo(t.dato, t.fe, InsertarHoja(t.izq, x), t.der);
        BalancearAvl(n);
        assert Insertar(t, x) == Balancear(n);
        var m := Nodo(t.dato, h.fe, t.izq, t.der);
        BalancearAvl(m);
        assert Eliminar(h, x) == Balancear(m);
      } else {
        IdaVuelta(t.der, x);
        var n := Nodo(t.dato, t.fe, t.izq, InsertarHoja(t.der, x));
        BalancearAvl(n);
        assert Insertar(t, x) == Balancear(n);
        var m := Nodo(t.dato, h.fe, t.izq, t.der);
        BalancearAvl(m);
        assert Eliminar(h, x) == Balancear(m);
      }
    }
  }
}
