/**
 What a run of the program does with the tree: it starts empty, applies a sequence of
 insertions and deletions (the keys given on the command line, then the ones typed at the
 menu) and answers searches.  The properties are stated for every such sequence, followed
 by the worked examples and the height bounds the AVL invariant buys.
 */
module AvlSesion {
  import opened ArbolAvl
  import opened AvlRotaciones
  import opened AvlOperaciones

  datatype Operacion = Insercion(clave: int) | Eliminacion(clave: int)

  /** Apply the operations in order, each to the root the previous one returned. */
  function Aplicar(t: Arbol, ops: seq<Operacion>): (r: Arbol)
    requires FeCorrecto(t)
    ensures FeCorrecto(r)
    decreases |ops|
  {
    if ops == [] then t
    else
      var siguiente := match ops[0]
        case Insercion(x) => Insertar(t, x)
        case Eliminacion(x) => Eliminar(t, x);
      Aplicar(siguiente, ops[1..])
  }

  /** The key set an operation sequence should leave: add on insertion, remove on deletion. */
  function ConjuntoTras(s: set<int>, ops: seq<Operacion>): (c: set<int>)
    decreases |ops|
  {
    if ops == [] then s
    else
      var siguiente := match ops[0]
        case Insercion(x) => s + {x}
        case Eliminacion(x) => s - {x};
      ConjuntoTras(siguiente, ops[1..])
  }

  /**
   Any sequence of insertions and deletions applied to an AVL search tree leaves an AVL
   search tree whose keys are the expected set; a search then finds a key exactly when it
   is in that set.
   */
  lemma {:induction false} AplicarConservaInvariantes(t: Arbol, ops: seq<Operacion>, k: int)
    requires Avl(t) && Bst(t)
    ensures Avl(Aplicar(t, ops)) && Bst(Aplicar(t, ops))
    ensures Claves(Aplicar(t, ops)) == ConjuntoTras(Claves(t), ops)
    ensures Buscar(Aplicar(t, ops), k).Nodo? <==> k in ConjuntoTras(Claves(t), ops)
    decreases |ops|
  {
    if ops != [] {
      match ops[0]
      case Insercion(x) =>
        InsertarAvl(t, x);
        InsertarBst(t, x);
        AplicarConservaInvariantes(Insertar(t, x), ops[1..], k);
      case Eliminacion(x) =>
        EliminarAvl(t, x);
        EliminarBst(t, x);
        AplicarConservaInvariantes(Eliminar(t, x), ops[1..], k);
    }
  }

  /** Starting from the empty tree, as the program does. */
  lemma DesdeVacio(ops: seq<Operacion>, k: int)
    ensures Avl(Aplicar(Vacio, ops)) && Bst(Aplicar(Vacio, ops))
    ensures Creciente(Inorden(Aplicar(Vacio, ops)))
    ensures Buscar(Aplicar(Vacio, ops), k).Nodo? <==> k in ConjuntoTras({}, ops)
  {
    AplicarConservaInvariantes(Vacio, ops, k);
    InordenCrecienteSiBst(Aplicar(Vacio, ops));
  }

  // ---------------------------------------------------------------- worked examples

  /** A key inserted beside a lone leaf: no rotation, the node leans one level. */
  lemma InsertarJuntoAHoja(k: int, x: int)
    ensures x > k ==> Insertar(Hoja(k), x) == Nodo(k, 1, Vacio, Hoja(x))
    ensures x < k ==> Insertar(Hoja(k), x) == Nodo(k, -1, Hoja(x), Vacio)
  {
    assert Insertar(Vacio, x) == Hoja(x);
    assert Altura(Hoja(x)) == 1;
    if x > k {
      var n := Nodo(k, 0, Vacio, Hoja(x));
      assert Insertar(Hoja(k), x) == Balancear(n);
      assert ActualizarFe(n) == Nodo(k, 1, Vacio, Hoja(x));
    } else if x < k {
      var n := Nodo(k, 0, Hoja(x), Vacio);
      assert Insertar(Hoja(k), x) == Balancear(n);
      assert ActualizarFe(n) == Nodo(k, -1, Hoja(x), Vacio);
    }
  }

  /** Three increasing keys inserted in order: one left rotation, the middle key on top. */
  lemma TresCrecientes(a: int, b: int, c: int)
    requires a < b < c
    ensures Insertar(Insertar(Insertar(Vacio, a), b), c) == Nodo(b, 0, Hoja(a), Hoja(c))
  {
    assert Insertar(Vacio, a) == Hoja(a);
    InsertarJuntoAHoja(a, b);
    InsertarJuntoAHoja(b, c);
    var d := Nodo(b, 1, Vacio, Hoja(c));
    var n := Nodo(a, 1, Vacio, d);
    assert Insertar(Nodo(a, 1, Vacio, Hoja(b)), c) == Balancear(n);
    assert Altura(Hoja(c)) == 1;
    assert Altura(d) == 2;
    var raiz := Nodo(a, 2, Vacio, d);
    assert ActualizarFe(n) == raiz;
    assert Balancear(n) == RotarIzq(raiz);
    assert ActualizarFe(Nodo(a, 2, Vacio, Vacio)) == Hoja(a);
    assert Altura(Hoja(a)) == 1;
  }

  /** Three decreasing keys inserted in order: one right rotation, the middle key on top. */
  lemma TresDecrecientes(a: int, b: int, c: int)
    requires a < b < c
    ensures Insertar(Insertar(Insertar(Vacio, c), b), a) == Nodo(b, 0, Hoja(a), Hoja(c))
  {
    assert Insertar(Vacio, c) == Hoja(c);
    InsertarJuntoAHoja(c, b);
    InsertarJuntoAHoja(b, a);
    var i := Nodo(b, -1, Hoja(a), Vacio);
    var n := Nodo(c, -1, i, Vacio);
    assert Insertar(Nodo(c, -1, Hoja(b), Vacio), a) == Balancear(n);
    assert Altura(Hoja(a)) == 1;
    assert Altura(i) == 2;
    var raiz := Nodo(c, -2, i, Vacio);
    assert ActualizarFe(n) == raiz;
    assert Balancear(n) == RotarDer(raiz);
    assert ActualizarFe(Nodo(c, -2, Vacio, Vacio)) == Hoja(c);
    assert Altura(Hoja(c)) == 1;
  }

  /** Largest, smallest, middle: the left-right double rotation, the middle key on top. */
  lemma TresEnZigzag(a: int, b: int, c: int)
    requires a < b < c
    ensures Insertar(Insertar(Insertar(Vacio, c), a), b) == Nodo(b, 0, Hoja(a), Hoja(c))
  {
    assert Insertar(Vacio, c) == Hoja(c);
    InsertarJuntoAHoja(c, a);
    InsertarJuntoAHoja(a, b);
    var i := Nodo(a, 1, Vacio, Hoja(b));
    var n := Nodo(c, -1, i, Vacio);
    assert Insertar(Nodo(c, -1, Hoja(a), Vacio), b) == Balancear(n);
    assert Altura(Hoja(b)) == 1;
    assert Altura(i) == 2;
    var raiz := Nodo(c, -2, i, Vacio);
    assert ActualizarFe(n) == raiz;
    assert Balancear(n) == RotarIzqDer(raiz);
    assert ActualizarFe(Nodo(a, 1, Vacio, Vacio)) == Hoja(a);
    var giro := Nodo(b, -1, Hoja(a), Vacio);
    assert Altura(Hoja(a)) == 1;
    assert RotarIzq(i) == giro;
    assert ActualizarFe(Nodo(c, -2, Vacio, Vacio)) == Hoja(c);
    assert Altura(Hoja(c)) == 1;
    assert RotarDer(Nodo(c, -2, giro, Vacio)) == Nodo(b, 0, Hoja(a), Hoja(c));
  }

  /** The three worked examples: 10, 20, 30 / 30, 20, 10 / 30, 10, 20 all end with 20 on top. */
  lemma Ejemplos()
    ensures Insertar(Insertar(Insertar(Vacio, 10), 20), 30) == Nodo(20, 0, Hoja(10), Hoja(30))
    ensures Insertar(Insertar(Insertar(Vacio, 30), 20), 10) == Nodo(20, 0, Hoja(10), Hoja(30))
    ensures Insertar(Insertar(Insertar(Vacio, 30), 10), 20) == Nodo(20, 0, Hoja(10), Hoja(30))
  {
    TresCrecientes(10, 20, 30);
    TresDecrecientes(10, 20, 30);
    TresEnZigzag(10, 20, 30);
  }

  /** Two strictly increasing sequences with the same elements are equal. */
  lemma {:induction false} CrecienteUnica(s: seq<int>, u: seq<int>)
    requires Creciente(s) && Creciente(u)
    requires forall c :: c in s <==> c in u
    ensures s == u
    decreases |s|
  {
    assert u != [] ==> u[0] in u;
    if s != [] {
      assert s[0] in s && u[0] in u;
      var i :| 0 <= i < |u| && u[i] == s[0];
      var j :| 0 <= j < |s| && s[j] == u[0];
      assert i == 0 && j == 0;
      forall c ensures c in s[1..] <==> c in u[1..] {
        if c in s[1..] {
          var p :| 1 <= p < |s| && s[p] == c;
          assert s[p] in s;
          var q :| 0 <= q < |u| && u[q] == c;
          assert q != 0;
          assert u[1..][q - 1] == c;
        }
        if c in u[1..] {
          var q :| 1 <= q < |u| && u[q] == c;
          assert u[q] in u;
          var p :| 0 <= p < |s| && s[p] == c;
          assert p != 0;
          assert s[1..][p - 1] == c;
        }
      }
      CrecienteUnica(s[1..], u[1..]);
      assert s == [s[0]] + s[1..] && u == [u[0]] + u[1..];
    }
  }

  /** How an operation sequence ending in `op` changes the expected key set. */
  lemma {:induction false} ConjuntoTrasUltima(s: set<int>, ops: seq<Operacion>, op: Operacion)
    ensures ConjuntoTras(s, ops + [op]) ==
            match op
            case Insercion(x) => ConjuntoTras(s, ops) + {x}
            case Eliminacion(x) => ConjuntoTras(s, ops) - {x}
    decreases |ops|
  {
    if ops != [] {
      assert (ops + [op])[1..] == ops[1..] + [op];
      var siguiente := match ops[0]
        case Insercion(x) => s + {x}
        case Eliminacion(x) => s - {x};
      ConjuntoTrasUltima(siguiente, ops[1..], op);
    }
  }

  /** The key set expected after the six insertions and the deletion of the worked example. */
  lemma ConjuntoTrasEjemplo(ops: seq<Operacion>, a: int, b: int, c: int, d: int, e: int, f: int)
    requires a < b < f < c < d < e
    requires ops == [Insercion(a), Insercion(b), Insercion(c), Insercion(d),
                     Insercion(e), Insercion(f), Eliminacion(d)]
    ensures ConjuntoTras({}, ops) == {a, b, f, c, e}
  {
    ConjuntoTrasUltima({}, [], ops[0]);
    assert ops[..1] == [] + [ops[0]];
    ConjuntoTrasUltima({}, ops[..1], ops[1]);
    assert ops[..2] == ops[..1] + [ops[1]];
    ConjuntoTrasUltima({}, ops[..2], ops[2]);
    assert ops[..3] == ops[..2] + [ops[2]];
    ConjuntoTrasUltima({}, ops[..3], ops[3]);
    assert ops[..4] == ops[..3] + [ops[3]];
    ConjuntoTrasUltima({}, ops[..4], ops[4]);
    assert ops[..5] == ops[..4] + [ops[4]];
    ConjuntoTrasUltima({}, ops[..5], ops[5]);
    assert ops[..6] == ops[..5] + [ops[5]];
    ConjuntoTrasUltima({}, ops[..6], ops[6]);
    assert ops == ops[..6] + [ops[6]];
  }

  /**
   Six keys inserted in the order a, b, c, d, e, f (with f between b and c), then d
   deleted: the tree is AVL and its in-order traversal is a b f c e.
   */
  lemma EliminacionTrasSeisInserciones(ops: seq<Operacion>, a: int, b: int, c: int, d: int, e: int, f: int)
    requires a < b < f < c < d < e
    requires ops == [Insercion(a), Insercion(b), Insercion(c), Insercion(d),
                     Insercion(e), Insercion(f), Eliminacion(d)]
    ensures Avl(Aplicar(Vacio, ops))
    ensures Inorden(Aplicar(Vacio, ops)) == [a, b, f, c, e]
  {
    var t := Aplicar(Vacio, ops);
    AplicarConservaInvariantes(Vacio, ops, a);
    ConjuntoTrasEjemplo(ops, a, b, c, d, e, f);
    ListaDeCinco(a, b, f, c, e);
    InordenDeClaves(t, [a, b, f, c, e]);
  }

  /** Five increasing keys, listed in order, make a strictly increasing list of exactly them. */
  lemma ListaDeCinco(a: int, b: int, c: int, d: int, e: int)
    requires a < b < c < d < e
    ensures Creciente([a, b, c, d, e])
    ensures {a, b, c, d, e} == set x | x in [a, b, c, d, e]
  {
    CrecienteCons(d, [e]);
    CrecienteCons(c, [d] + [e]);
    CrecienteCons(b, [c] + ([d] + [e]));
    CrecienteCons(a, [b] + ([c] + ([d] + [e])));
    assert [a] + ([b] + ([c] + ([d] + [e]))) == [a, b, c, d, e];
  }

  /** A key below the head of a strictly increasing sequence extends it. */
  lemma CrecienteCons(x: int, s: seq<int>)
    requires Creciente(s) && (s != [] ==> x < s[0])
    ensures Creciente([x] + s)
  {
    var u := [x] + s;
    forall i, j | 0 <= i < j < |u| ensures u[i] < u[j] {
      if i == 0 && j > 1 {
        assert s[0] < s[j - 1];
      }
    }
  }

  /** A search tree's in-order traversal is the increasing list of its keys. */
  lemma InordenDeClaves(t: Arbol, s: seq<int>)
    requires Bst(t) && Creciente(s)
    requires Claves(t) == set x | x in s
    ensures Inorden(t) == s
  {
    InordenCrecienteSiBst(t);
    RecorridosListanClaves(t);
    CrecienteUnica(Inorden(t), s);
  }

  /** The worked deletion: 10, 20, 30, 40, 50, 25 inserted, 40 deleted, in order 10 20 25 30 50. */
  lemma EjemploEliminacion()
    ensures Inorden(Aplicar(Vacio, [Insercion(10), Insercion(20), Insercion(30), Insercion(40),
                                    Insercion(50), Insercion(25), Eliminacion(40)])) == [10, 20, 25, 30, 50]
  {
    EliminacionTrasSeisInserciones([Insercion(10), Insercion(20), Insercion(30), Insercion(40),
                                    Insercion(50), Insercion(25), Eliminacion(40)], 10, 20, 30, 40, 50, 25);
  }

  // ---------------------------------------------------------------- height bounds

  function Pot2(n: nat): (p: nat) {
    if n == 0 then 1 else 2 * Pot2(n - 1)
  }

  /** The Fibonacci numbers, 0, 1, 1, 2, 3, 5, ... */
  function Fib(n: nat): (f: nat) {
    if n < 2 then n else Fib(n - 1) + Fib(n - 2)
  }

  /**
   An AVL tree of height `h` has at least `Fib(h + 2) - 1` nodes: the sparsest AVL tree of
   height `h` joins sparsest ones of heights `h - 1` and `h - 2`, so its size follows the
   Fibonacci recurrence, which is where the worst-case height of about `1.44 log2(n + 2)`
   comes from.
   */
  lemma {:induction false} AvlTamanoMinimo(t: Arbol)
    requires Avl(t)
    ensures Fib(Altura(t) + 2) <= Tamano(t) + 1
  {
    if t.Vacio? {
      assert Fib(2) == 1;
    } else {
      AvlTamanoMinimo(t.izq);
      AvlTamanoMinimo(t.der);
      MedidasNodo(t);
      TamanoMinimoJuntar(Altura(t), Altura(t.izq), Altura(t.der), Tamano(t.izq), Tamano(t.der));
    }
  }

  /** Height, balance and size of an AVL node in terms of its children. */
  lemma MedidasNodo(t: Arbol)
    requires t.Nodo? && Avl(t)
    ensures Altura(t) == 1 + Max(Altura(t.izq), Altura(t.der))
    ensures -1 <= Altura(t.der) - Altura(t.izq) <= 1
    ensures Tamano(t) + 1 == (Tamano(t.izq) + 1) + (Tamano(t.der) + 1)
  {
  }

  /**
   The counting step: subtrees whose heights differ by at most one, each meeting the bound
   for its height, make a node that meets the bound for its own.
   */
  lemma TamanoMinimoJuntar(h: nat, hi: nat, hd: nat, ni: nat, nd: nat)
    requires h == 1 + Max(hi, hd) && -1 <= hd - hi <= 1
    requires Fib(hi + 2) <= ni + 1 && Fib(hd + 2) <= nd + 1
    ensures Fib(h + 2) <= (ni + 1) + (nd + 1)
  {
    assert Fib(h + 2) == Fib(h + 1) + Fib(h);
    if hi >= hd {
      FibCreciente(h, hd + 2);
    } else {
      FibCreciente(h, hi + 2);
    }
  }

  lemma {:induction false} FibCreciente(a: nat, b: nat)
    requires a <= b
    ensures Fib(a) <= Fib(b)
    decreases b
  {
    if a < b {
      FibCreciente(a, b - 1);
    }
  }

  /** Any binary tree of height `h` has fewer than `2^h` nodes. */
  lemma {:induction false} TamanoMaximo(t: Arbol)
    ensures Tamano(t) < Pot2(Altura(t))
  {
    if t.Nodo? {
      TamanoMaximo(t.izq);
      TamanoMaximo(t.der);
      PotCreciente(Altura(t.izq), Altura(t) - 1);
      PotCreciente(Altura(t.der), Altura(t) - 1);
    }
  }

  lemma {:induction false} PotCreciente(a: nat, b: nat)
    requires a <= b
    ensures Pot2(a) <= Pot2(b)
    decreases b
  {
    if a < b {
      PotCreciente(a, b - 1);
    }
  }
}
