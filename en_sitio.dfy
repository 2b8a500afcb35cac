/**
 The tree as the program keeps it: heap nodes linked through `izq` and `der`, updated in
 place.  Every operation that relinks nodes (the rotations, `Balancear`, `Insertar`,
 `Eliminar`) returns the root its caller must store back; `ActualizarFe` only rewrites `fe`,
 and the read-only operations return a height, a node or a sequence of keys.  Each node
 carries a ghost footprint `Repr` (the nodes of its subtree) and a ghost `Valor` (its
 subtree as an `Arbol` value); every method is proved to leave exactly the value that the
 corresponding function of the value model computes.
 */
module AvlEnSitio {
  import A = ArbolAvl
  import R = AvlRotaciones
  import O = AvlOperaciones

  class Nodo {
    var dato: int
    var fe: int
    var izq: Nodo?
    var der: Nodo?
    ghost var Repr: set<object>
    ghost var Valor: A.Arbol

    /** The subtree hanging here is a proper tree: owned children with disjoint footprints. */
    ghost predicate Valid()
      reads this, Repr
      ensures Valid() ==> this in Repr
      ensures Valid() ==> Valor.Nodo? && Valor.dato == dato && Valor.fe == fe
      decreases Repr
    {
      && this in Repr
      && (izq != null ==> izq in Repr && izq.Repr <= Repr && this !in izq.Repr && izq.Valid())
      && (der != null ==> der in Repr && der.Repr <= Repr && this !in der.Repr && der.Valid())
      && (izq != null && der != null ==> izq.Repr !! der.Repr)
      && Valor == A.Nodo(dato, fe, Ver(izq), Ver(der))
    }

    /** `crear_nodo`: a fresh leaf with cached factor 0. */
    constructor (d: int)
      ensures Valid() && fresh(Repr)
      ensures Valor == A.Nodo(d, 0, A.Vacio, A.Vacio)
    {
      dato, fe, izq, der := d, 0, null, null;
      Repr := {this};
      Valor := A.Nodo(d, 0, A.Vacio, A.Vacio);
    }
  }

  /** The subtree a possibly-null link points to, as a value. */
  ghost function Ver(n: Nodo?): (v: A.Arbol)
    reads n
  {
    if n == null then A.Vacio else n.Valor
  }

  /** The nodes a possibly-null link owns. */
  ghost function Huella(n: Nodo?): (s: set<object>)
    reads n
  {
    if n == null then {} else n.Repr
  }

  ghost predicate Valido(n: Nodo?)
    reads n, Huella(n)
  {
    n != null ==> n.Valid()
  }

  /**
   Ghost bookkeeping after relinking `n`: its footprint and value become those of the
   node over its current children.  The program's own fields are not touched.
   */
  ghost method Sellar(n: Nodo)
    requires Valido(n.izq) && Valido(n.der)
    requires n !in Huella(n.izq) && n !in Huella(n.der) && Huella(n.izq) !! Huella(n.der)
    modifies n
    ensures n.Valid()
    ensures n.Repr == {n} + Huella(n.izq) + Huella(n.der)
    ensures n.Valor == A.Nodo(n.dato, n.fe, Ver(n.izq), Ver(n.der))
    ensures n.dato == old(n.dato) && n.fe == old(n.fe) && n.izq == old(n.izq) && n.der == old(n.der)
  {
    n.Repr := {n} + Huella(n.izq) + Huella(n.der);
    n.Valor := A.Nodo(n.dato, n.fe, Ver(n.izq), Ver(n.der));
  }

  /** As `Sellar`, but the node takes over a given footprint (that of the subtree it replaces). */
  ghost method SellarEn(n: Nodo, huella: set<object>)
    requires Valido(n.izq) && Valido(n.der)
    requires n !in Huella(n.izq) && n !in Huella(n.der) && Huella(n.izq) !! Huella(n.der)
    requires n in huella && Huella(n.izq) <= huella && Huella(n.der) <= huella
    modifies n
    ensures n.Valid() && n.Repr == huella
    ensures n.Valor == A.Nodo(n.dato, n.fe, Ver(n.izq), Ver(n.der))
    ensures n.dato == old(n.dato) && n.fe == old(n.fe) && n.izq == old(n.izq) && n.der == old(n.der)
  {
    n.Repr := huella;
    n.Valor := A.Nodo(n.dato, n.fe, Ver(n.izq), Ver(n.der));
  }

  /** `altura`, recomputed by walking the subtree. */
  method Altura(n: Nodo?) returns (h: int)
    requires Valido(n)
    ensures h == A.Altura(Ver(n))
    decreases Huella(n)
  {
    if n == null {
      return 0;
    }
    var altIzq := Altura(n.izq);
    var altDer := Altura(n.der);
    h := 1 + (if altIzq > altDer then altIzq else altDer);
  }

  /** `actualizar_fe`: store the true balance factor in the node's `fe`. */
  method ActualizarFe(n: Nodo?)
    requires Valido(n)
    modifies n
    ensures Valido(n) && Huella(n) == old(Huella(n))
    ensures Ver(n) == A.ActualizarFe(old(Ver(n)))
    ensures n != null ==> n.izq == old(n.izq) && n.der == old(n.der) && n.dato == old(n.dato)
  {
    if n != null {
      var altDer := Altura(n.der);
      var altIzq := Altura(n.izq);
      n.fe := altDer - altIzq;
      n.Valor := A.Nodo(n.dato, n.fe, Ver(n.izq), Ver(n.der));
    }
  }

  /** `rotar_izq`: relink the node and its right child, then refresh both factors. */
  method RotarIzq(raiz: Nodo) returns (nuevaRaiz: Nodo)
    requires raiz.Valid() && raiz.der != null
    modifies raiz, raiz.der
    ensures nuevaRaiz.Valid() && nuevaRaiz.Repr == old(raiz.Repr)
    ensures nuevaRaiz == old(raiz.der)
    ensures nuevaRaiz.Valor == R.RotarIzq(old(raiz.Valor))
  {
    nuevaRaiz := raiz.der;
    ghost var v, h := raiz.Valor, raiz.Repr;
    raiz.der := nuevaRaiz.izq;
    nuevaRaiz.izq := raiz;
    Sellar(raiz);
    ActualizarFe(raiz);
    ghost var abajo := raiz.Valor;
    assert abajo == A.ActualizarFe(A.Nodo(v.dato, v.fe, v.izq, v.der.izq));
    SellarEn(nuevaRaiz, h);
    ActualizarFe(nuevaRaiz);
    assert nuevaRaiz.Valor == A.ActualizarFe(A.Nodo(v.der.dato, v.der.fe, abajo, v.der.der));
  }

  /** `rotar_der`: relink the node and its left child, then refresh both factors. */
  method RotarDer(raiz: Nodo) returns (nuevaRaiz: Nodo)
    requires raiz.Valid() && raiz.izq != null
    modifies raiz, raiz.izq
    ensures nuevaRaiz.Valid() && nuevaRaiz.Repr == old(raiz.Repr)
    ensures nuevaRaiz == old(raiz.izq)
    ensures nuevaRaiz.Valor == R.RotarDer(old(raiz.Valor))
  {
    nuevaRaiz := raiz.izq;
    ghost var v, h := raiz.Valor, raiz.Repr;
    raiz.izq := nuevaRaiz.der;
    nuevaRaiz.der := raiz;
    Sellar(raiz);
    ActualizarFe(raiz);
    ghost var abajo := raiz.Valor;
    assert abajo == A.ActualizarFe(A.Nodo(v.dato, v.fe, v.izq.der, v.der));
    SellarEn(nuevaRaiz, h);
    ActualizarFe(nuevaRaiz);
    assert nuevaRaiz.Valor == A.ActualizarFe(A.Nodo(v.izq.dato, v.izq.fe, v.izq.izq, abajo));
  }

  /** `rotar_der_izq`: rotate the right child right, store it back, rotate the node left. */
  method RotarDerIzq(raiz: Nodo) returns (nuevaRaiz: Nodo)
    requires raiz.Valid() && raiz.der != null && raiz.der.izq != null
    modifies raiz, raiz.der, raiz.der.izq
    ensures nuevaRaiz.Valid() && nuevaRaiz.Repr == old(raiz.Repr)
    ensures old(raiz.Valor).der.izq.Nodo? && nuevaRaiz.Valor == R.RotarDerIzq(old(raiz.Valor))
  {
    assert raiz.der.Valid() && raiz.der.izq.Valid();
    var d := RotarDer(raiz.der);
    raiz.der := d;
    raiz.Valor := A.Nodo(raiz.dato, raiz.fe, Ver(raiz.izq), d.Valor);
    nuevaRaiz := RotarIzq(raiz);
  }

  /** `rotar_izq_der`: rotate the left child left, store it back, rotate the node right. */
  method RotarIzqDer(raiz: Nodo) returns (nuevaRaiz: Nodo)
    requires raiz.Valid() && raiz.izq != null && raiz.izq.der != null
    modifies raiz, raiz.izq, raiz.izq.der
    ensures nuevaRaiz.Valid() && nuevaRaiz.Repr == old(raiz.Repr)
    ensures old(raiz.Valor).izq.der.Nodo? && nuevaRaiz.Valor == R.RotarIzqDer(old(raiz.Valor))
  {
    assert raiz.izq.Valid() && raiz.izq.der.Valid();
    var i := RotarIzq(raiz.izq);
    raiz.izq := i;
    raiz.Valor := A.Nodo(raiz.dato, raiz.fe, i.Valor, Ver(raiz.der));
    nuevaRaiz := RotarDer(raiz);
  }

  /** `balancear`: refresh the factor and rotate when it is exactly -2 or 2. */
  method Balancear(raiz: Nodo?) returns (r: Nodo?)
    requires Valido(raiz) && R.PuedeBalancear(Ver(raiz))
    modifies Huella(raiz)
    ensures Valido(r) && Huella(r) == old(Huella(raiz))
    ensures Ver(r) == R.Balancear(old(Ver(raiz)))
  {
    if raiz == null {
      return null;
    }
    ActualizarFe(raiz);
    assert raiz.izq != null ==> raiz.izq.Valid() && (raiz.izq.der != null ==> raiz.izq.der in raiz.Repr);
    assert raiz.der != null ==> raiz.der.Valid() && (raiz.der.izq != null ==> raiz.der.izq in raiz.Repr);
    if raiz.fe == -2 {
      if raiz.izq.fe <= 0 {
        r := RotarDer(raiz);
      } else {
        r := RotarIzqDer(raiz);
      }
    } else if raiz.fe == 2 {
      if raiz.der.fe >= 0 {
        r := RotarIzq(raiz);
      } else {
        r := RotarDerIzq(raiz);
      }
    } else {
      r := raiz;
    }
  }

  /** `insertar`: descend to the empty link, hang a new node there, rebalance on the way up. */
  method Insertar(raiz: Nodo?, dato: int) returns (r: Nodo)
    requires Valido(raiz) && A.FeCorrecto(Ver(raiz))
    modifies Huella(raiz)
    ensures r.Valid() && fresh(r.Repr - old(Huella(raiz)))
    ensures r.Valor == O.Insertar(old(Ver(raiz)), dato)
    decreases Huella(raiz), 1
  {
    if raiz == null {
      r := new Nodo(dato);
      return;
    }
    if dato < raiz.dato {
      InsertarIzq(raiz, dato);
    } else if dato > raiz.dato {
      InsertarDer(raiz, dato);
    } else {
      return raiz;
    }
    R.HijosFeLocalPuedeBalancear(raiz.Valor);
    r := Balancear(raiz);
  }

  /** `raiz->izq = insertar(raiz->izq, dato)`. */
  method InsertarIzq(raiz: Nodo, dato: int)
    requires raiz.Valid() && A.FeCorrecto(raiz.Valor)
    modifies raiz.Repr
    ensures raiz.Valid() && fresh(raiz.Repr - old(raiz.Repr))
    ensures raiz.Valor == A.Nodo(old(raiz.dato), old(raiz.fe), O.Insertar(old(Ver(raiz.izq)), dato), old(Ver(raiz.der)))
    decreases raiz.Repr, 0
  {
    var i := Insertar(raiz.izq, dato);
    raiz.izq := i;
    Sellar(raiz);
  }

  /** `raiz->der = insertar(raiz->der, dato)`. */
  method InsertarDer(raiz: Nodo, dato: int)
    requires raiz.Valid() && A.FeCorrecto(raiz.Valor)
    modifies raiz.Repr
    ensures raiz.Valid() && fresh(raiz.Repr - old(raiz.Repr))
    ensures raiz.Valor == A.Nodo(old(raiz.dato), old(raiz.fe), old(Ver(raiz.izq)), O.Insertar(old(Ver(raiz.der)), dato))
    decreases raiz.Repr, 0
  {
    var d := Insertar(raiz.der, dato);
    raiz.der := d;
    Sellar(raiz);
  }

  /** `encontrar_min`: follow left links from `raiz`. */
  method EncontrarMin(raiz: Nodo?) returns (m: Nodo?)
    requires Valido(raiz)
    ensures Valido(m) && Ver(m) == A.EncontrarMin(Ver(raiz))
    decreases Huella(raiz)
  {
    if raiz == null {
      return null;
    }
    if raiz.izq == null {
      return raiz;
    }
    m := EncontrarMin(raiz.izq);
  }

  /** `eliminar`: remove `dato` (successor copy for two children), rebalance on the way up. */
  method Eliminar(raiz: Nodo?, dato: int) returns (r: Nodo?)
    requires Valido(raiz) && A.FeCorrecto(Ver(raiz))
    modifies Huella(raiz)
    ensures Valido(r) && Huella(r) <= old(Huella(raiz))
    ensures Ver(r) == O.Eliminar(old(Ver(raiz)), dato)
    decreases Huella(raiz), 2
  {
    if raiz == null {
      return null;
    }
    if dato < raiz.dato {
      EliminarIzq(raiz, dato);
    } else if dato > raiz.dato {
      EliminarDer(raiz, dato);
    } else if raiz.izq == null || raiz.der == null {
      var temp := if raiz.izq != null then raiz.izq else raiz.der;
      if temp == null {
        return null;
      }
      CopiarHijo(raiz, temp);
    } else {
      ReemplazarPorSucesor(raiz);
    }
    R.HijosFeLocalPuedeBalancear(raiz.Valor);
    r := Balancear(raiz);
  }

  /** `raiz->izq = eliminar(raiz->izq, dato)`. */
  method EliminarIzq(raiz: Nodo, dato: int)
    requires raiz.Valid() && A.FeCorrecto(raiz.Valor)
    modifies raiz.Repr
    ensures raiz.Valid() && raiz.Repr <= old(raiz.Repr)
    ensures raiz.Valor == A.Nodo(old(raiz.dato), old(raiz.fe), O.Eliminar(old(Ver(raiz.izq)), dato), old(Ver(raiz.der)))
    decreases raiz.Repr, 0
  {
    var i := Eliminar(raiz.izq, dato);
    raiz.izq := i;
    Sellar(raiz);
  }

  /** `raiz->der = eliminar(raiz->der, dato)`. */
  method EliminarDer(raiz: Nodo, dato: int)
    requires raiz.Valid() && A.FeCorrecto(raiz.Valor)
    modifies raiz.Repr
    ensures raiz.Valid() && raiz.Repr <= old(raiz.Repr)
    ensures raiz.Valor == A.Nodo(old(raiz.dato), old(raiz.fe), old(Ver(raiz.izq)), O.Eliminar(old(Ver(raiz.der)), dato))
    decreases raiz.Repr, 0
  {
    var d := Eliminar(raiz.der, dato);
    raiz.der := d;
    Sellar(raiz);
  }

  /**
   The one-child case of `eliminar`, `*raiz = *temp`: the node takes over the key, factor
   and links of its only child, which then drops out of the tree.
   */
  method CopiarHijo(raiz: Nodo, temp: Nodo)
    requires raiz.Valid()
    requires (temp == raiz.izq && raiz.der == null) || (temp == raiz.der && raiz.izq == null)
    modifies raiz
    ensures raiz.Valid() && raiz.Repr <= old(raiz.Repr)
    ensures raiz.Valor == old(temp.Valor)
  {
    assert temp.Valid() && raiz !in temp.Repr;
    ghost var i, d := temp.izq, temp.der;
    assert Valido(i) && Valido(d) && raiz !in Huella(i) + Huella(d);
    raiz.dato, raiz.fe, raiz.izq, raiz.der := temp.dato, temp.fe, temp.izq, temp.der;
    Sellar(raiz);
  }

  /**
   The two-children case of `eliminar`: copy the key of the leftmost node of the right
   subtree into `raiz`, then delete that key from the right subtree.
   */
  method ReemplazarPorSucesor(raiz: Nodo)
    requires raiz.Valid() && A.FeCorrecto(raiz.Valor) && raiz.der != null
    modifies raiz.Repr
    ensures raiz.Valid() && raiz.Repr <= old(raiz.Repr)
    ensures raiz.Valor == A.Nodo(A.EncontrarMin(old(Ver(raiz.der))).dato, old(raiz.fe),
      old(Ver(raiz.izq)), O.Eliminar(old(Ver(raiz.der)), A.EncontrarMin(old(Ver(raiz.der))).dato))
    decreases raiz.Repr, 1
  {
    var sucesor := EncontrarMin(raiz.der);
    raiz.dato := sucesor.dato;
    Sellar(raiz);
    EliminarDer(raiz, sucesor.dato);
  }

  /** `buscar`: the node holding `dato`, or null. */
  method Buscar(raiz: Nodo?, dato: int) returns (r: Nodo?)
    requires Valido(raiz)
    ensures Valido(r) && Ver(r) == A.Buscar(Ver(raiz), dato)
    decreases Huella(raiz)
  {
    if raiz == null {
      return null;
    }
    if dato == raiz.dato {
      return raiz;
    }
    if dato < raiz.dato {
      r := Buscar(raiz.izq, dato);
    } else {
      r := Buscar(raiz.der, dato);
    }
  }

  /** `preorden`: the keys in the order the program prints them. */
  method Preorden(raiz: Nodo?) returns (s: seq<int>)
    requires Valido(raiz)
    ensures s == A.Preorden(Ver(raiz))
    decreases Huella(raiz)
  {
    if raiz == null {
      return [];
    }
    var i := Preorden(raiz.izq);
    var d := Preorden(raiz.der);
    s := [raiz.dato] + i + d;
  }

  /** `inorden`: the keys in the order the program prints them. */
  method Inorden(raiz: Nodo?) returns (s: seq<int>)
    requires Valido(raiz)
    ensures s == A.Inorden(Ver(raiz))
    decreases Huella(raiz)
  {
    if raiz == null {
      return [];
    }
    var i := Inorden(raiz.izq);
    var d := Inorden(raiz.der);
    s := i + [raiz.dato] + d;
  }

  /** `postorden`: the keys in the order the program prints them. */
  method Postorden(raiz: Nodo?) returns (s: seq<int>)
    requires Valido(raiz)
    ensures s == A.Postorden(Ver(raiz))
    decreases Huella(raiz)
  {
    if raiz == null {
      return [];
    }
    var i := Postorden(raiz.izq);
    var d := Postorden(raiz.der);
    s := i + d + [raiz.dato];
  }

  /** A valid subtree stays valid while none of its nodes is written. */
  twostate lemma SigueValido(n: Nodo)
    requires old(n.Valid()) && unchanged(old(n.Repr))
    ensures n.Valid() && n.Repr == old(n.Repr) && n.Valor == old(n.Valor)
  {
  }

  /**
   `raiz = insertar(raiz, dato)` on the root of an AVL search tree: the new root holds
   exactly the value-level insertion, which is again an AVL search tree with the old keys
   and `dato`, at most one level taller.
   */
  method InsertarEnRaiz(raiz: Nodo?, dato: int) returns (r: Nodo)
    requires Valido(raiz) && A.Avl(Ver(raiz)) && A.Bst(Ver(raiz))
    modifies Huella(raiz)
    ensures r.Valid() && fresh(r.Repr - old(Huella(raiz)))
    ensures r.Valor == O.Insertar(old(Ver(raiz)), dato)
    ensures A.Avl(r.Valor) && A.Bst(r.Valor)
    ensures A.Claves(r.Valor) == A.Claves(old(Ver(raiz))) + {dato}
    ensures A.Altura(old(Ver(raiz))) <= A.Altura(r.Valor) <= A.Altura(old(Ver(raiz))) + 1
  {
    ghost var antes := Ver(raiz);
    r := Insertar(raiz, dato);
    O.InsertarConserva(antes, dato);
  }

  /**
   `raiz = eliminar(raiz, dato)` on the root of an AVL search tree: the new root holds
   exactly the value-level deletion, which is again an AVL search tree with the old keys
   less `dato`, at most one level shorter.
   */
  method EliminarEnRaiz(raiz: Nodo?, dato: int) returns (r: Nodo?)
    requires Valido(raiz) && A.Avl(Ver(raiz)) && A.Bst(Ver(raiz))
    modifies Huella(raiz)
    ensures Valido(r) && Huella(r) <= old(Huella(raiz))
    ensures Ver(r) == O.Eliminar(old(Ver(raiz)), dato)
    ensures A.Avl(Ver(r)) && A.Bst(Ver(r))
    ensures A.Claves(Ver(r)) == A.Claves(old(Ver(raiz))) - {dato}
    ensures A.Altura(old(Ver(raiz))) - 1 <= A.Altura(Ver(r)) <= A.Altura(old(Ver(raiz)))
  {
    ghost var antes := Ver(raiz);
    r := Eliminar(raiz, dato);
    O.EliminarConserva(antes, dato);
  }

  /**
   The tree `main` keeps in its `raiz` variable and changes through the menu.  The
   invariant is the AVL one together with search-tree order; every menu operation keeps it.
   */
  class Arbol {
    var raiz: Nodo?
    ghost var Repr: set<object>

    ghost predicate Valid()
      reads this, Repr
    {
      && this in Repr
      && (raiz != null ==> raiz in Repr && raiz.Repr <= Repr && this !in raiz.Repr && raiz.Valid())
      && A.Avl(Ver(raiz)) && A.Bst(Ver(raiz))
    }

    /** The tree as a value. */
    ghost function Valor(): (v: A.Arbol)
      reads this, raiz
    {
      Ver(raiz)
    }

    /** `Nodo *raiz = NULL`. */
    constructor ()
      ensures Valid() && fresh(Repr)
      ensures Valor() == A.Vacio
    {
      raiz := null;
      Repr := {this};
    }

    /** Menu option 1 (and each command-line argument): `raiz = insertar(raiz, dato)`. */
    method InsertarDato(dato: int)
      requires Valid()
      modifies Repr
      ensures Valid() && fresh(Repr - old(Repr))
      ensures Valor() == O.Insertar(old(Valor()), dato)
      ensures A.Claves(Valor()) == old(A.Claves(Valor())) + {dato}
      ensures A.Altura(old(Valor())) <= A.Altura(Valor()) <= A.Altura(old(Valor())) + 1
    {
      var r := InsertarEnRaiz(raiz, dato);
      label Creado:
      assert this !in r.Repr;
      raiz := r;
      Repr := Repr + r.Repr;
      SigueValido@Creado(r);
    }

    /** Menu option 2: `raiz = eliminar(raiz, dato)`. */
    method EliminarDato(dato: int)
      requires Valid()
      modifies Repr
      ensures Valid() && Repr <= old(Repr)
      ensures Valor() == O.Eliminar(old(Valor()), dato)
      ensures A.Claves(Valor()) == old(A.Claves(Valor())) - {dato}
      ensures A.Altura(old(Valor())) - 1 <= A.Altura(Valor()) <= A.Altura(old(Valor()))
    {
      var r := EliminarEnRaiz(raiz, dato);
      Reenlazar(r);
    }

    /** `raiz = r`: the root variable takes a subtree already built within the footprint. */
    method Reenlazar(r: Nodo?)
      requires this in Repr && Valido(r) && Huella(r) <= Repr && this !in Huella(r)
      requires A.Avl(Ver(r)) && A.Bst(Ver(r))
      modifies this
      ensures Valid() && Repr == old(Repr) && Valor() == old(Ver(r))
    {
      label Antes:
      raiz := r;
      if r != null {
        SigueValido@Antes(r);
      }
    }

    /** Menu option 6: `temp = buscar(raiz, dato)`, found exactly when the key is stored. */
    method BuscarDato(dato: int) returns (temp: Nodo?)
      requires Valid()
      ensures temp != null <==> dato in A.Claves(Valor())
      ensures temp != null ==> temp.dato == dato
    {
      temp := Buscar(raiz, dato);
    }

    /** Menu option 5: `h = altura(raiz)`. */
    method AlturaArbol() returns (h: int)
      requires Valid()
      ensures h == A.Altura(Valor())
    {
      h := Altura(raiz);
    }

    /**
     Menu option 4: the three traversals of the current tree.  The in-order one is strictly
     increasing, the pre-order one starts and the post-order one ends at the root, and all
     three list the same keys.
     */
    method Recorridos() returns (pre: seq<int>, ino: seq<int>, post: seq<int>)
      requires Valid()
      ensures A.Creciente(ino)
      ensures multiset(pre) == multiset(ino) && multiset(post) == multiset(ino)
      ensures forall c :: c in ino <==> c in A.Claves(Valor())
      ensures raiz != null ==> pre[0] == raiz.dato && post[|post| - 1] == raiz.dato
      ensures pre == A.Preorden(Valor()) && ino == A.Inorden(Valor()) && post == A.Postorden(Valor())
    {
      pre := Preorden(raiz);
      ino := Inorden(raiz);
      post := Postorden(raiz);
      A.InordenCrecienteSiBst(Ver(raiz));
      A.RecorridosMismoMulticonjunto(Ver(raiz));
      A.RecorridosListanClaves(Ver(raiz));
    }

    /** Menu option 7: `vaciar_arbol(raiz); raiz = NULL`. */
    method Vaciar()
      requires Valid()
      modifies this
      ensures Valid() && Valor() == A.Vacio
    {
      raiz := null;
    }
  }
}
