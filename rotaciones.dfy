/**
 The four rotations and the rebalancing step, as functions on tree values.  Each rotation
 relinks two (or three) nodes and recomputes the cached balance factor of every node it
 relinks, the lower one first.
 */
module AvlRotaciones {
  import opened ArbolAvl

  /**
   Search-tree order does not depend on the cached factors, and the two shapes a single
   rotation moves between are ordered exactly together.
   */
  lemma BstRotacion(k: int, k2: int, a: Arbol, b: Arbol, c: Arbol, f: int, g: int, f2: int, g2: int)
    ensures Bst(Nodo(k, f, a, Nodo(k2, g, b, c))) <==> Bst(Nodo(k2, g2, Nodo(k, f2, a, b), c))
  {
    var arriba, abajo := Nodo(k2, g, b, c), Nodo(k, f2, a, b);
    if Bst(Nodo(k, f, a, arriba)) {
      assert k2 in Claves(arriba) && Bst(arriba) && Bst(b);
      assert Bst(abajo);
      assert Bst(Nodo(k2, g2, abajo, c));
    }
    if Bst(Nodo(k2, g2, abajo, c)) {
      assert k in Claves(abajo) && Bst(abajo) && Bst(b);
      assert forall x :: x in Claves(b) ==> x in Claves(abajo);
      assert Bst(arriba);
      assert Bst(Nodo(k, f, a, arriba));
    }
  }

  /** `rotar_izq`: the right child becomes the root and the old root its left child. */
  function RotarIzq(t: Arbol): (r: Arbol)
    requires t.Nodo? && t.der.Nodo?
    ensures r.Nodo? && r.izq.Nodo?
    ensures r.dato == t.der.dato && r.izq.dato == t.dato
    ensures r.izq.izq == t.izq && r.izq.der == t.der.izq && r.der == t.der.der
    ensures FeLocal(r) && FeLocal(r.izq)
    ensures Inorden(r) == Inorden(t)
    ensures Claves(r) == Claves(t)
    ensures Bst(t) ==> Bst(r)
    ensures FeCorrecto(t.izq) && FeCorrecto(t.der) ==> FeCorrecto(r)
  {
    var nuevaRaiz := t.der;
    var raiz := ActualizarFe(Nodo(t.dato, t.fe, t.izq, nuevaRaiz.izq));
    var r := ActualizarFe(Nodo(nuevaRaiz.dato, nuevaRaiz.fe, raiz, nuevaRaiz.der));
    BstRotacion(t.dato, nuevaRaiz.dato, t.izq, nuevaRaiz.izq, nuevaRaiz.der, t.fe, nuevaRaiz.fe, raiz.fe, r.fe);
    r
  }

  /** `rotar_der`: the left child becomes the root and the old root its right child. */
  function RotarDer(t: Arbol): (r: Arbol)
    requires t.Nodo? && t.izq.Nodo?
    ensures r.Nodo? && r.der.Nodo?
    ensures r.dato == t.izq.dato && r.der.dato == t.dato
    ensures r.izq == t.izq.izq && r.der.izq == t.izq.der && r.der.der == t.der
    ensures FeLocal(r) && FeLocal(r.der)
    ensures Inorden(r) == Inorden(t)
    ensures Claves(r) == Claves(t)
    ensures Bst(t) ==> Bst(r)
    ensures FeCorrecto(t.izq) && FeCorrecto(t.der) ==> FeCorrecto(r)
  {
    var nuevaRaiz := t.izq;
    var raiz := ActualizarFe(Nodo(t.dato, t.fe, nuevaRaiz.der, t.der));
    var r := ActualizarFe(Nodo(nuevaRaiz.dato, nuevaRaiz.fe, nuevaRaiz.izq, raiz));
    BstRotacion(nuevaRaiz.dato, t.dato, nuevaRaiz.izq, nuevaRaiz.der, t.der, r.fe, raiz.fe, nuevaRaiz.fe, t.fe);
    r
  }

  /** `rotar_der_izq`: rotate the right child right, then the node left. */
  function RotarDerIzq(t: Arbol): (r: Arbol)
    requires t.Nodo? && t.der.Nodo? && t.der.izq.Nodo?
    ensures r.Nodo? && r.izq.Nodo? && r.der.Nodo?
    ensures r.dato == t.der.izq.dato && r.izq.dato == t.dato && r.der.dato == t.der.dato
    ensures r.izq.izq == t.izq && r.izq.der == t.der.izq.izq
    ensures r.der.izq == t.der.izq.der && r.der.der == t.der.der
    ensures FeLocal(r) && FeLocal(r.izq) && FeLocal(r.der)
    ensures Inorden(r) == Inorden(t)
    ensures Claves(r) == Claves(t)
    ensures Bst(t) ==> Bst(r)
    ensures FeCorrecto(t.izq) && FeCorrecto(t.der) ==> FeCorrecto(r)
  {
    RotarIzq(t.(der := RotarDer(t.der)))
  }

  /** `rotar_izq_der`: rotate the left child left, then the node right. */
  function RotarIzqDer(t: Arbol): (r: Arbol)
    requires t.Nodo? && t.izq.Nodo? && t.izq.der.Nodo?
    ensures r.Nodo? && r.izq.Nodo? && r.der.Nodo?
    ensures r.dato == t.izq.der.dato && r.izq.dato == t.izq.dato && r.der.dato == t.dato
    ensures r.izq.izq == t.izq.izq && r.izq.der == t.izq.der.izq
    ensures r.der.izq == t.izq.der.der && r.der.der == t.der
    ensures FeLocal(r) && FeLocal(r.izq) && FeLocal(r.der)
    ensures Inorden(r) == Inorden(t)
    ensures Claves(r) == Claves(t)
    ensures Bst(t) ==> Bst(r)
    ensures FeCorrecto(t.izq) && FeCorrecto(t.der) ==> FeCorrecto(r)
  {
    RotarDer(t.(izq := RotarIzq(t.izq)))
  }

  /**
   What `balancear` needs in order not to follow a missing link: when the node leans two
   levels to one side and the heavy child's cached factor asks for a double rotation,
   the grandchild that the double rotation lifts must exist.
   */
  predicate PuedeBalancear(t: Arbol) {
    t.Vacio? ||
    ((FactorReal(t) == -2 ==> t.izq.fe > 0 ==> t.izq.der.Nodo?) &&
     (FactorReal(t) == 2 ==> t.der.fe < 0 ==> t.der.izq.Nodo?))
  }

  /** Children whose own cached factors are right always let `balancear` run. */
  lemma HijosFeLocalPuedeBalancear(t: Arbol)
    requires t.Nodo? && FeLocal(t.izq) && FeLocal(t.der)
    ensures PuedeBalancear(t)
  {
  }

  /**
   `balancear`: refresh the cached factor; at exactly -2 rotate right (double when the left
   child leans right), at exactly 2 rotate left (double when the right child leans left);
   otherwise leave the node.
   */
  function Balancear(t: Arbol): (r: Arbol)
    requires PuedeBalancear(t)
    ensures r.Vacio? <==> t.Vacio?
    ensures FeLocal(r)
    ensures Inorden(r) == Inorden(t)
    ensures Claves(r) == Claves(t)
    ensures Bst(t) ==> Bst(r)
    ensures t.Nodo? && FeCorrecto(t.izq) && FeCorrecto(t.der) ==> FeCorrecto(r)
  {
    if t.Vacio? then Vacio
    else
      var raiz := ActualizarFe(t);
      if raiz.fe == -2 then
        if raiz.izq.fe <= 0 then RotarDer(raiz) else RotarIzqDer(raiz)
      else if raiz.fe == 2 then
        if raiz.der.fe >= 0 then RotarIzq(raiz) else RotarDerIzq(raiz)
      else raiz
  }

  /**
   The rebalancing theorem: two AVL subtrees whose heights differ by at most two are
   joined into an AVL tree whose height is that of the taller subtree, or one more; when
   the heights already differ by at most one, no rotation happens and the height is
   exactly one more than the taller subtree.
   */
  lemma BalancearAvl(t: Arbol)
    requires t.Nodo? && Avl(t.izq) && Avl(t.der)
    requires -2 <= FactorReal(t) <= 2
    ensures PuedeBalancear(t)
    ensures Avl(Balancear(t))
    ensures Max(Altura(t.izq), Altura(t.der)) <= Altura(Balancear(t)) <= Altura(t)
    ensures -1 <= FactorReal(t) <= 1 ==> Balancear(t) == ActualizarFe(t)
  {
    var raiz := ActualizarFe(t);
    assert Altura(raiz) == Altura(t);
    if raiz.fe == -2 {
      if raiz.izq.fe <= 0 {
        assert Balancear(t) == RotarDer(raiz);
        BalancearDerSimple(raiz);
      } else {
        assert Balancear(t) == RotarIzqDer(raiz);
        BalancearIzqDerDoble(raiz);
      }
    } else if raiz.fe == 2 {
      if raiz.der.fe >= 0 {
        assert Balancear(t) == RotarIzq(raiz);
        BalancearIzqSimple(raiz);
      } else {
        assert Balancear(t) == RotarDerIzq(raiz);
        BalancearDerIzqDoble(raiz);
      }
    } else {
      assert Balancear(t) == raiz;
    }
  }

  lemma BalancearDerSimple(t: Arbol)
    requires t.Nodo? && Avl(t.izq) && Avl(t.der)
    requires FactorReal(t) == -2 && t.izq.fe <= 0
    ensures Avl(RotarDer(t))
    ensures Altura(t.izq) <= Altura(RotarDer(t)) <= Altura(t.izq) + 1
  {
    var r := RotarDer(t);
    assert Avl(r.der);
  }

  lemma BalancearIzqSimple(t: Arbol)
    requires t.Nodo? && Avl(t.izq) && Avl(t.der)
    requires FactorReal(t) == 2 && t.der.fe >= 0
    ensures Avl(RotarIzq(t))
    ensures Altura(t.der) <= Altura(RotarIzq(t)) <= Altura(t.der) + 1
  {
    var r := RotarIzq(t);
    assert Avl(r.izq);
  }

  lemma BalancearIzqDerDoble(t: Arbol)
    requires t.Nodo? && Avl(t.izq) && Avl(t.der)
    requires FactorReal(t) == -2 && t.izq.fe > 0
    ensures Avl(RotarIzqDer(t))
    ensures Altura(RotarIzqDer(t)) == Altura(t.izq)
  {
    var r := RotarIzqDer(t);
    assert Avl(t.izq.der);
    assert Avl(r.izq) && Avl(r.der);
  }

  lemma BalancearDerIzqDoble(t: Arbol)
    requires t.Nodo? && Avl(t.izq) && Avl(t.der)
    requires FactorReal(t) == 2 && t.der.fe < 0
    ensures Avl(RotarDerIzq(t))
    ensures Altura(RotarDerIzq(t)) == Altura(t.der)
  {
    var r := RotarDerIzq(t);
    assert Avl(t.der.izq);
    assert Avl(r.izq) && Avl(r.der);
  }

  /** On a node that is already AVL, `balancear` changes nothing. */
  lemma BalancearAvlIdentidad(t: Arbol)
    requires Avl(t)
    ensures PuedeBalancear(t)
    ensures Balancear(t) == t
  {
  }
}
