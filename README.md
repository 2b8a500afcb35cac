# AVL tree of integer keys

A model of the AVL tree in `main.c`. Each node (`Nodo`) holds:
- an `int` key `dato`;
- a cached balance factor `fe`, the height of the right subtree minus the height of the left one;
- two owned children, `izq` and `der`.

Heights are never stored; `altura` recomputes them. Every C function that relinks nodes (the rotations, `balancear`, `insertar`, `eliminar`) returns the root its caller must store back; `actualizar_fe` only rewrites `fe`, and `vaciar_arbol` only releases nodes.

The model has two layers.

**Value layer** (`arbol.dfy`, `rotaciones.dfy`, `operaciones.dfy`, `sesion.dfy`):
- The tree is the datatype `Arbol = Vacio | Nodo(dato, fe, izq, der)`. Each C function becomes a function on that value, with the same branches, the same `-2`/`2` tests and the same `<= 0`/`>= 0` choice between single and double rotation.
- Invariants:
  - `FeCorrecto`: the cached factor is right at every node;
  - `Avl`: it is also in -1..1;
  - `Bst`: search-tree order.
- Lemmas prove that insertion and deletion keep these invariants, and describe their key sets and heights.
- `AvlSesion` applies a whole run of menu operations to an empty tree. It also holds the worked examples and the height bounds.

**Heap layer** (`en_sitio.dfy`):
- The same functions work as the C code does: on heap nodes, relinking `izq`/`der` and writing `fe` in place.
- Each node carries a ghost footprint `Repr` and a ghost value `Valor`.
- Every method is proved to leave exactly the value that the value-layer function computes, with the footprint it may touch.
- The class `Arbol` is `main`'s `raiz` variable together with its menu operations. It keeps the AVL and search-tree invariants as its `Valid()`.

The C functions trust the cached factor of a child (`balancear` reads `raiz->izq->fe` without recomputing it). So `Insertar` and `Eliminar` require `FeCorrecto` of their input, which every tree the program builds satisfies. `Balancear` requires exactly that it will not follow a missing link (`PuedeBalancear`).

Where textbook AVL descriptions (cached heights, rotation whenever |factor| > 1) and the code in `main.c` differ, the model follows the code:
- Nodes cache the balance factor `fe` (right minus left), not a height. `altura` recomputes heights recursively.
- `balancear` rotates only when the refreshed factor is exactly -2 or 2, not whenever it is beyond ±1. A factor of 0 in the heavy child selects the single rotation.
- Two-children deletion takes the in-order successor (the smallest key of the right subtree), not the predecessor.

## Model

| member | source | states |
|---|---|---|
| ArbolAvl.Altura | main.c:27-32 | height is 0 exactly on the empty tree and is never negative; a node is one more than its taller child |
| ArbolAvl.ActualizarFe | main.c:34-38 | the node's cached factor becomes right (height of right minus left); key and children are untouched; a node whose factor was already right is unchanged; empty stays empty |
| ArbolAvl.FeCorrecto | main.c:34-38 | a tree whose cached factors are right everywhere has a right factor at its root |
| ArbolAvl.Avl | main.c:68-87 | the AVL invariant implies right cached factors and a true balance factor in -1..1 at the root |
| ArbolAvl.Preorden | main.c:174-179 | lists one key per node, the root first |
| ArbolAvl.Inorden | main.c:181-186 | lists one key per node |
| ArbolAvl.Postorden | main.c:188-193 | lists one key per node, the root last |
| ArbolAvl.RecorridosListanClaves | main.c:174-193 | each of the three traversals contains exactly the tree's keys |
| ArbolAvl.RecorridosMismoMulticonjunto | main.c:174-193 | the three traversals are permutations of one another |
| ArbolAvl.InordenCrecienteSiBst | main.c:181-186 | the in-order traversal of a search tree is strictly increasing |
| ArbolAvl.BstSiInordenCreciente | main.c:181-186 | a tree with a strictly increasing in-order traversal is a search tree |
| ArbolAvl.BstSiiInordenCreciente | main.c:181-186 | search-tree order holds if and only if the in-order traversal is strictly increasing |
| ArbolAvl.Buscar | main.c:195-200 | the empty tree gives no node; a returned node holds the key and the key is in the tree; on a search tree a node is returned exactly when the key is present |
| ArbolAvl.EncontrarMin | main.c:104-108 | empty exactly on the empty tree; the returned node has no left child and holds a key of the tree, which on a search tree is the smallest key |
| AvlRotaciones.BstRotacion | main.c:40-56 | the two shapes a single rotation moves between are search trees exactly together, whatever their cached factors |
| AvlRotaciones.RotarIzq | main.c:40-47 | the right child becomes the root with the old root as its left child and the middle subtree moved across; both relinked nodes get right factors; in-order sequence and key set are unchanged; search-tree order and right factors are kept |
| AvlRotaciones.RotarDer | main.c:49-56 | the mirror of RotarIzq: the left child becomes the root, with the same preserved properties |
| AvlRotaciones.RotarDerIzq | main.c:58-61 | the right child's left child becomes the root over the old root and the old right child; all three relinked factors are right; in-order sequence, keys, order and right factors are kept |
| AvlRotaciones.RotarIzqDer | main.c:63-66 | the mirror of RotarDerIzq, with the same preserved properties |
| AvlRotaciones.HijosFeLocalPuedeBalancear | main.c:73-84 | when both children's cached factors are right, `balancear` never follows a missing child |
| AvlRotaciones.Balancear | main.c:68-87 | empty stays empty; the root's factor is right afterwards; in-order sequence and keys are unchanged; order and right factors are kept |
| AvlRotaciones.BalancearAvl | main.c:68-87 | on AVL subtrees whose heights differ by at most two, the result is AVL, its height is that of the taller child or one more, and without imbalance only the factor is refreshed |
| AvlRotaciones.BalancearDerSimple | main.c:73-75 | left-heavy by two with the left child not leaning right: the single right rotation yields an AVL tree of height at most one above the left child |
| AvlRotaciones.BalancearIzqSimple | main.c:79-81 | right-heavy by two with the right child not leaning left: the single left rotation yields an AVL tree of height at most one above the right child |
| AvlRotaciones.BalancearIzqDerDoble | main.c:73-77 | left-heavy by two with the left child leaning right: the double rotation yields an AVL tree of the left child's height |
| AvlRotaciones.BalancearDerIzqDoble | main.c:79-83 | right-heavy by two with the right child leaning left: the double rotation yields an AVL tree of the right child's height |
| AvlRotaciones.BalancearAvlIdentidad | main.c:68-87 | on a tree that is already AVL, `balancear` returns it unchanged |
| AvlOperaciones.Insertar | main.c:89-102 | always returns a node; the key set becomes the old one plus the key; right cached factors are kept |
| AvlOperaciones.Eliminar | main.c:110-135 | right cached factors are kept and no key is added |
| AvlOperaciones.InsertarBst | main.c:89-102 | insertion keeps search-tree order |
| AvlOperaciones.EliminarBst | main.c:110-135 | on a search tree, deletion keeps the order and removes exactly the given key |
| AvlOperaciones.EliminarBstIzq | main.c:113-114 | deletion in the left subtree, given the property there, removes exactly the key and keeps the order at the node |
| AvlOperaciones.EliminarBstDer | main.c:115-116 | the mirror of EliminarBstIzq for the right subtree |
| AvlOperaciones.EliminarBstPaso | main.c:113-116 | the node keeps its key: after rebalancing, the keys are the old ones less the deleted key, still in order |
| AvlOperaciones.BstConHijosMenores | main.c:113-116 | a search-tree node whose subtrees lose keys stays ordered |
| AvlOperaciones.ClavesSinLaBuscada | main.c:113-116 | removing the key from the side it belongs to removes it from the node |
| AvlOperaciones.EliminarBstSucesor | main.c:127-130 | the node that takes the successor's key, with the successor removed below, is a search tree holding the old keys less the deleted one |
| AvlOperaciones.BstSucesorArriba | main.c:128-130 | the smallest key of the right subtree, lifted into the node, lies between the two sides |
| AvlOperaciones.ClavesSucesorArriba | main.c:128-130 | lifting the successor's key and removing it below drops only the node's own key |
| AvlOperaciones.RebalancearTrasCrecer | main.c:93-100 | after one child grew by at most one level, rebalancing gives an AVL node at most one level taller than before |
| AvlOperaciones.RebalancearTrasMenguar | main.c:113-134 | after one child shrank by at most one level, rebalancing gives an AVL node at most one level shorter than before |
| AvlOperaciones.InsertarAvl | main.c:89-102 | insertion into an AVL tree gives an AVL tree whose height grew by at most one |
| AvlOperaciones.EliminarAvl | main.c:110-135 | deletion from an AVL tree gives an AVL tree whose height shrank by at most one |
| AvlOperaciones.InsertarConserva | main.c:89-102 | insertion into an AVL search tree gives an AVL search tree with the key added and height up by at most one |
| AvlOperaciones.EliminarConserva | main.c:110-135 | deletion from an AVL search tree gives an AVL search tree with the key removed and height down by at most one |
| AvlOperaciones.InsertarDuplicado | main.c:96-97 | inserting a key already present returns the very same tree |
| AvlOperaciones.EliminarAusente | main.c:110-116 | deleting a missing key returns the very same tree |
| AvlOperaciones.EliminarConUnHijo | main.c:118-126 | deleting the key of a node with at most one child leaves exactly that child's subtree, or nothing |
| AvlOperaciones.InsertarIdempotente | main.c:89-102 | inserting a key twice equals inserting it once |
| AvlOperaciones.EliminarIdempotente | main.c:110-135 | deleting a key twice equals deleting it once |
| AvlOperaciones.IdaVuelta | main.c:89-135 | inserting a fresh key into an AVL tree, when the new leaf leaves every ancestor balanced, is plain search-tree insertion with refreshed factors, and deleting that key right after gives back exactly the original tree |
| AvlSesion.Aplicar | main.c:215-243 | applying a run of insertions and deletions keeps right cached factors |
| AvlSesion.AplicarConservaInvariantes | main.c:215-243 | any run of insertions and deletions on an AVL search tree leaves one whose keys are the expected set, and a search then finds exactly those keys |
| AvlSesion.DesdeVacio | main.c:211-243 | from the empty tree, any run leaves an AVL search tree with a strictly increasing in-order traversal, in which a search finds exactly the expected keys |
| AvlSesion.InsertarJuntoAHoja | main.c:89-100 | a key inserted beside a lone leaf hangs on the matching side and the node leans by one |
| AvlSesion.TresCrecientes | main.c:79-81 | three increasing keys inserted in order end balanced with the middle key on top (single left rotation) |
| AvlSesion.TresDecrecientes | main.c:73-75 | three decreasing keys end balanced with the middle key on top (single right rotation) |
| AvlSesion.TresEnZigzag | main.c:73-77 | largest, smallest, middle ends balanced with the middle key on top (left-right double rotation) |
| AvlSesion.Ejemplos | main.c:89-102 | 10 20 30, 30 20 10 and 30 10 20 all give root 20 with leaves 10 and 30 |
| AvlSesion.ConjuntoTrasUltima | main.c:233-243 | appending an insertion or deletion to a run adds or removes that key from the expected set |
| AvlSesion.ConjuntoTrasEjemplo | main.c:233-243 | the expected key set after six insertions and one deletion |
| AvlSesion.EliminacionTrasSeisInserciones | main.c:110-135 | inserting a, b, c, d, e, f (f between b and c) then deleting d leaves an AVL tree with in-order a b f c e |
| AvlSesion.EjemploEliminacion | main.c:110-135 | 10 20 30 40 50 25 inserted, 40 deleted: the in-order traversal is 10 20 25 30 50 |
| AvlSesion.InordenDeClaves | main.c:181-186 | a search tree's in-order traversal is the increasing list of its keys |
| AvlSesion.AvlTamanoMinimo | main.c:27-32 | an AVL tree of height h has at least Fib(h + 2) - 1 nodes (the Fibonacci minimum size of the sparsest AVL tree), so its height is logarithmic in its size |
| AvlSesion.TamanoMaximo | main.c:27-32 | any tree of height h has fewer than 2^h nodes |
| AvlEnSitio.Nodo.constructor | main.c:14-25 | `crear_nodo`: a fresh valid leaf with the key and factor 0 |
| AvlEnSitio.Altura | main.c:27-32 | the recursive walk returns the height of the subtree's value |
| AvlEnSitio.ActualizarFe | main.c:34-38 | writes the true factor into `fe` in place; links, key and footprint are unchanged |
| AvlEnSitio.RotarIzq | main.c:40-47 | relinks in place: returns the old right child, owning the same nodes, whose subtree is the value-level left rotation of the old one |
| AvlEnSitio.RotarDer | main.c:49-56 | relinks in place: returns the old left child, owning the same nodes, whose subtree is the value-level right rotation |
| AvlEnSitio.RotarDerIzq | main.c:58-61 | stores the rotated right child back, then rotates left: same nodes, the value-level right-left double rotation |
| AvlEnSitio.RotarIzqDer | main.c:63-66 | stores the rotated left child back, then rotates right: same nodes, the value-level left-right double rotation |
| AvlEnSitio.Balancear | main.c:68-87 | in place, with the same nodes, leaves exactly the value-level `Balancear` of the subtree |
| AvlEnSitio.Insertar | main.c:89-102 | in place, the returned root's subtree is the value-level insertion; only newly allocated nodes are added |
| AvlEnSitio.InsertarIzq | main.c:92-93 | relinking the left child to its insertion result changes only that child |
| AvlEnSitio.InsertarDer | main.c:94-95 | relinking the right child to its insertion result changes only that child |
| AvlEnSitio.EncontrarMin | main.c:104-108 | the node reached by following left links is the value-level minimum node |
| AvlEnSitio.Eliminar | main.c:110-135 | in place, the returned root's subtree is the value-level deletion, within the old nodes |
| AvlEnSitio.EliminarIzq | main.c:113-114 | relinking the left child to its deletion result changes only that child |
| AvlEnSitio.EliminarDer | main.c:115-116 | relinking the right child to its deletion result changes only that child |
| AvlEnSitio.CopiarHijo | main.c:118-126 | `*raiz = *temp`: the node takes over its only child's key, factor and links, and its subtree becomes the child's |
| AvlEnSitio.ReemplazarPorSucesor | main.c:127-131 | the node takes the key of the leftmost node of its right subtree, which is then deleted from the right subtree |
| AvlEnSitio.Buscar | main.c:195-200 | the node found is the value-level search result |
| AvlEnSitio.Preorden | main.c:174-179 | the keys, in the order the program prints them, are the value-level pre-order |
| AvlEnSitio.Inorden | main.c:181-186 | the keys, in the order the program prints them, are the value-level in-order |
| AvlEnSitio.Postorden | main.c:188-193 | the keys, in the order the program prints them, are the value-level post-order |
| AvlEnSitio.InsertarEnRaiz | main.c:233-236 | `raiz = insertar(raiz, dato)` on an AVL search tree: the new root's subtree is exactly the value-level insertion, an AVL search tree with the key added and height up by at most one |
| AvlEnSitio.EliminarEnRaiz | main.c:238-242 | `raiz = eliminar(raiz, dato)` on an AVL search tree: the new root's subtree is exactly the value-level deletion, an AVL search tree with the key removed and height down by at most one |
| AvlEnSitio.Arbol.constructor | main.c:211 | the program starts with the empty tree |
| AvlEnSitio.Arbol.InsertarDato | main.c:232-236 | menu option 1 (and each command-line key, main.c:215-217): the tree becomes exactly the value-level insertion of the key into the old tree; it keeps the AVL and search-tree invariants, adds exactly the key, and grows the height by at most one |
| AvlEnSitio.Arbol.EliminarDato | main.c:238-242 | menu deletion: the tree becomes exactly the value-level deletion of the key from the old tree; it keeps the invariants, removes exactly the key, and shrinks the height by at most one |
| AvlEnSitio.Arbol.Reenlazar | main.c:241 | the assignment to `raiz`: the tree's value becomes that of the new root, and the invariants and footprint carry over |
| AvlEnSitio.Arbol.BuscarDato | main.c:267-276 | menu search finds a node exactly when the key is stored, and that node holds the key |
| AvlEnSitio.Arbol.AlturaArbol | main.c:262-265 | the reported height is the tree's height |
| AvlEnSitio.Arbol.Recorridos | main.c:252-260 | the three listings are exactly the value-level pre-, in- and post-order of the current tree; the in-order one is strictly increasing, the pre-order starts and the post-order ends with the root, and all three list exactly the stored keys |
| AvlEnSitio.Arbol.Vaciar | main.c:278-281 | option 7 leaves the empty tree |

## Left out

- The interactive menu's I/O (`printf`, `scanf`) and the `atoi` parsing of command-line arguments: keys enter the model as `int` parameters.
- The allocation-failure exit in `crear_nodo`: allocation is total in Dafny.
- Memory release (`free` in `eliminar`, `vaciar_arbol`): Dafny has no deallocation. `AvlEnSitio.Arbol.Vaciar` only drops the root, and the methods' footprints say which nodes stay reachable.
- The printing functions `imprimir_conjuntos`, `imprimir_nivel` and `imprimir_jerarquica`: presentation only. The traversals are modelled as the key sequences they print.
- The cost of recomputing `altura` on every `actualizar_fe`: complexity is not modelled.
- C `int` overflow: keys are only compared, and heights and factors of any tree that fits in memory are far below `INT_MAX`. Both are modelled as unbounded integers.
- AvlOperaciones.Insertar, AvlOperaciones.Eliminar: they require right cached factors (`FeCorrecto`), which every tree the program builds has. On a tree with wrong cached factors the C code can follow a NULL child in `balancear`, and that behaviour is not modelled.
- AvlOperaciones.Eliminar: its own contract states only "no key added"; exact key removal needs search-tree order and is stated by `EliminarBst`.
- AvlSesion.AvlTamanoMinimo: proves the Fibonacci minimum size `Fib(h + 2) - 1`; the closed form `h <= 1.44 log2(n + 2) - 0.328` that follows from it through the golden ratio is not derived, because it needs real logarithms.
- AvlEnSitio.Eliminar: the footprint of the result is stated as a subset of the old one; which nodes are released is not tracked.
- AvlEnSitio.InsertarIzq, AvlEnSitio.InsertarDer, AvlEnSitio.EliminarIzq, AvlEnSitio.EliminarDer, AvlEnSitio.CopiarHijo, AvlEnSitio.ReemplazarPorSucesor: these split `insertar` and `eliminar` into their branches; the C functions do the same work inline.
