/**
 An AVL tree of integer keys, as a value.  A `Nodo` carries the key `dato`, the cached
 balance factor `fe` (height of the right subtree minus height of the left one) and the
 two owned subtrees.  Heights are never stored: `Altura` recomputes them.

 This module holds the data model, the invariants (cached `fe` right, AVL bound, search-tree
 order), the read-only operations (height, search, minimum, the three traversals) and the
 facts about them.
 */
module ArbolAvl {

  datatype Arbol = Vacio | Nodo(dato: int, fe: int, izq: Arbol, der: Arbol)

  /** A node with no children, as `crear_nodo` builds it: balance factor 0. */
  function Hoja(x: int): (t: Arbol) {
    Nodo(x, 0, Vacio, Vacio)
  }

  function Max(a: int, b: int): (m: int) {
    if a > b then a else b
  }

  /** Height: 0 for the empty tree, one more than the taller child otherwise. */
  function Altura(t: Arbol): (h: nat)
    ensures h == 0 <==> t.Vacio?
  {
    match t
    case Vacio => 0
    case Nodo(_, _, i, d) => 1 + Max(Altura(i), Altura(d))
  }

  /** Number of nodes. */
  function Tamano(t: Arbol): (n: nat) {
    match t
    case Vacio => 0
    case Nodo(_, _, i, d) => Tamano(i) + 1 + Tamano(d)
  }

  /** The true balance factor of a node, as the cached `fe` should be. */
  function FactorReal(t: Arbol): (f: int)
    requires t.Nodo?
  {
    Altura(t.der) - Altura(t.izq)
  }

  /** The cached balance factor of the root (if any) is the true one. */
  predicate FeLocal(t: Arbol) {
    t.Vacio? || t.fe == FactorReal(t)
  }

  /** The cached balance factor is right at every node. */
  predicate FeCorrecto(t: Arbol)
    ensures FeCorrecto(t) ==> FeLocal(t)
  {
    match t
    case Vacio => true
    case Nodo(_, _, i, d) => FeLocal(t) && FeCorrecto(i) && FeCorrecto(d)
  }

  /** The AVL invariant: every cached `fe` is right and lies in -1..1. */
  predicate Avl(t: Arbol)
    ensures Avl(t) ==> FeCorrecto(t)
    ensures Avl(t) && t.Nodo? ==> -1 <= FactorReal(t) <= 1
  {
    match t
    case Vacio => true
    case Nodo(_, f, i, d) => FeLocal(t) && -1 <= f <= 1 && Avl(i) && Avl(d)
  }

  function Claves(t: Arbol): (c: set<int>) {
    match t
    case Vacio => {}
    case Nodo(k, _, i, d) => Claves(i) + {k} + Claves(d)
  }

  /** Search-tree order: left keys below the node's key, right keys above it, everywhere. */
  predicate Bst(t: Arbol) {
    match t
    case Vacio => true
    case Nodo(k, _, i, d) =>
      && (forall c :: c in Claves(i) ==> c < k)
      && (forall c :: c in Claves(d) ==> k < c)
      && Bst(i) && Bst(d)
  }

  predicate Creciente(s: seq<int>) {
    forall i, j :: 0 <= i < j < |s| ==> s[i] < s[j]
  }

  /** `actualizar_fe`: recompute the root's cached balance factor, touching nothing else. */
  function ActualizarFe(t: Arbol): (r: Arbol)
    ensures FeLocal(r)
    ensures r.Vacio? <==> t.Vacio?
    ensures r.Nodo? ==> r.dato == t.dato && r.izq == t.izq && r.der == t.der
    ensures FeLocal(t) ==> r == t
  {
    if t.Vacio? then Vacio else t.(fe := Altura(t.der) - Altura(t.izq))
  }

  // ---------------------------------------------------------------- traversals

  /** `preorden`: the root first, then the left subtree, then the right one. */
  function Preorden(t: Arbol): (s: seq<int>)
    ensures |s| == Tamano(t)
    ensures t.Nodo? ==> s[0] == t.dato
  {
    match t
    case Vacio => []
    case Nodo(k, _, i, d) => [k] + Preorden(i) + Preorden(d)
  }

  /** `inorden`: the left subtree, the root, the right subtree. */
  function Inorden(t: Arbol): (s: seq<int>)
    ensures |s| == Tamano(t)
  {
    match t
    case Vacio => []
    case Nodo(k, _, i, d) => Inorden(i) + [k] + Inorden(d)
  }

  /** `postorden`: both subtrees first, the root last. */
  function Postorden(t: Arbol): (s: seq<int>)
    ensures |s| == Tamano(t)
    ensures t.Nodo? ==> s[|s| - 1] == t.dato
  {
    match t
    case Vacio => []
    case Nodo(k, _, i, d) => Postorden(i) + Postorden(d) + [k]
  }

  /** Each traversal lists exactly the tree's keys. */
  lemma {:induction false} RecorridosListanClaves(t: Arbol)
    ensures forall c :: c in Inorden(t) <==> c in Claves(t)
    ensures forall c :: c in Preorden(t) <==> c in Claves(t)
    ensures forall c :: c in Postorden(t) <==> c in Claves(t)
  {
    if t.Nodo? {
      RecorridosListanClaves(t.izq);
      RecorridosListanClaves(t.der);
    }
  }

  /** The three traversals list the same keys with the same multiplicities. */
  lemma {:induction false} RecorridosMismoMulticonjunto(t: Arbol)
    ensures multiset(Preorden(t)) == multiset(Inorden(t))
    ensures multiset(Postorden(t)) == multiset(Inorden(t))
  {
    if t.Nodo? {
      RecorridosMismoMulticonjunto(t.izq);
      RecorridosMismoMulticonjunto(t.der);
    }
  }

  /** In-order traversal of a search tree is strictly increasing. */
  lemma {:induction false} InordenCrecienteSiBst(t: Arbol)
    requires Bst(t)
    ensures Creciente(Inorden(t))
  {
    if t.Nodo? {
      RecorridosListanClaves(t.izq);
      RecorridosListanClaves(t.der);
      InordenCrecienteSiBst(t.izq);
      InordenCrecienteSiBst(t.der);
      var a, b := Inorden(t.izq), Inorden(t.der);
      var s := Inorden(t);
      assert s == a + [t.dato] + b;
      forall i, j | 0 <= i < j < |s| ensures s[i] < s[j] {
        if j < |a| {
        } else if i < |a| {
          assert s[i] in a;
          if j > |a| { assert s[j] == b[j - |a| - 1]; assert s[j] in b; }
        } else if i == |a| {
          assert s[j] == b[j - |a| - 1]; assert s[j] in b;
        } else {
          assert s[i] == b[i - |a| - 1] && s[j] == b[j - |a| - 1];
        }
      }
    }
  }

  /** Conversely, a tree whose in-order traversal is strictly increasing is a search tree. */
  lemma {:induction false} BstSiInordenCreciente(t: Arbol)
    requires Creciente(Inorden(t))
    ensures Bst(t)
  {
    if t.Nodo? {
      var a, b := Inorden(t.izq), Inorden(t.der);
      var s := Inorden(t);
      assert s == a + [t.dato] + b;
      assert Creciente(a) by {
        forall i, j | 0 <= i < j < |a| ensures a[i] < a[j] { assert a[i] == s[i] && a[j] == s[j]; }
      }
      assert Creciente(b) by {
        forall i, j | 0 <= i < j < |b| ensures b[i] < b[j] {
          assert b[i] == s[|a| + 1 + i] && b[j] == s[|a| + 1 + j];
        }
      }
      BstSiInordenCreciente(t.izq);
      BstSiInordenCreciente(t.der);
      RecorridosListanClaves(t.izq);
      RecorridosListanClaves(t.der);
      forall c | c in Claves(t.izq) ensures c < t.dato {
        var i :| 0 <= i < |a| && a[i] == c;
        assert s[i] == c && s[|a|] == t.dato;
      }
      forall c | c in Claves(t.der) ensures t.dato < c {
        var j :| 0 <= j < |b| && b[j] == c;
        assert s[|a| + 1 + j] == c && s[|a|] == t.dato;
      }
    }
  }

  /** Search-tree order is exactly a strictly increasing in-order traversal. */
  lemma BstSiiInordenCreciente(t: Arbol)
    ensures Bst(t) <==> Creciente(Inorden(t))
  {
    if Bst(t) { InordenCrecienteSiBst(t); }
    if Creciente(Inorden(t)) { BstSiInordenCreciente(t); }
  }

  // ---------------------------------------------------------------- search

  /** `buscar`: the node holding `x`, or `Vacio`. */
  function Buscar(t: Arbol, x: int): (r: Arbol)
    ensures t.Vacio? ==> r.Vacio?
    ensures r.Nodo? ==> r.dato == x && x in Claves(t)
    ensures Bst(t) ==> (r.Nodo? <==> x in Claves(t))
  {
    if t.Vacio? then Vacio
    else if x == t.dato then t
    else if x < t.dato then Buscar(t.izq, x)
    else Buscar(t.der, x)
  }

  /** `encontrar_min`: follow left links down to the node with no left child. */
  function EncontrarMin(t: Arbol): (r: Arbol)
    ensures r.Vacio? <==> t.Vacio?
    ensures r.Nodo? ==> r.izq.Vacio? && r.dato in Claves(t)
    ensures r.Nodo? && Bst(t) ==> forall c :: c in Claves(t) ==> r.dato <= c
  {
    if t.Vacio? then Vacio
    else if t.izq.Vacio? then t
    else EncontrarMin(t.izq)
  }
}
