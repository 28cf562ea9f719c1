/** A snapshot of the router's compressed prefix tree: for every node its
    path segment, its children with the index of their first characters,
    and its key, the concatenation of the segments from the root. */
module RadixTree {

  datatype Cell<N> = Cell(path: string, indices: string, children: seq<N>)

  datatype Tree<N> = Tree(root: N, cells: map<N, Cell<N>>, key: map<N, string>)

  /** `a` is a proper prefix of `b`. */
  predicate Before(a: string, b: string) {
    |a| < |b| && a == b[..|a|]
  }

  /** `n` has child `j` and that child is on the way to the key `k`. */
  predicate Leads<N(==)>(t: Tree<N>, n: N, j: nat, k: string)
    requires n in t.cells && n in t.key && t.cells.Keys == t.key.Keys && |t.key[n]| < |k|
  {
    var c := t.cells[n];
    && j < |c.children| && j < |c.indices|
    && c.indices[j] == k[|t.key[n]|]
    && c.children[j] in t.key
    && t.key[c.children[j]] <= k
  }

  predicate CellOk<N(==)>(t: Tree<N>, n: N)
    requires n in t.cells && n in t.key
  {
    var c := t.cells[n];
    && |c.indices| == |c.children|
    && (forall j :: 0 <= j < |c.children| ==>
          && c.children[j] in t.cells && c.children[j] in t.key && c.children[j] != t.root
          && t.cells[c.children[j]].path != ""
          && t.cells[c.children[j]].path[0] == c.indices[j]
          && t.key[c.children[j]] == t.key[n] + t.cells[c.children[j]].path)
    && (forall i, j :: 0 <= i < j < |c.indices| ==> c.indices[i] != c.indices[j])
  }

  /** The root's key begins every key. */
  ghost predicate RootOk<N>(t: Tree<N>) {
    && t.root in t.cells && t.cells.Keys == t.key.Keys
    && t.key[t.root] == t.cells[t.root].path
    && forall n :: n in t.key ==> t.key[t.root] <= t.key[n]
  }

  ghost predicate CellsOk<N>(t: Tree<N>)
    requires t.cells.Keys == t.key.Keys
  {
    forall n :: n in t.cells ==> CellOk(t, n)
  }

  ghost predicate Distinct<N>(t: Tree<N>) {
    forall m, n :: m in t.key && n in t.key && t.key[m] == t.key[n] ==> m == n
  }

  /** From any node the way to a longer key goes through a child. */
  ghost predicate AllDescend<N>(t: Tree<N>)
    requires t.cells.Keys == t.key.Keys
  {
    forall n, m :: n in t.key && m in t.key && Before(t.key[n], t.key[m]) ==> Descends(t, n, t.key[m])
  }

  ghost predicate TreeOk<N>(t: Tree<N>) {
    RootOk(t) && CellsOk(t) && Distinct(t) && AllDescend(t)
  }

  ghost predicate Descends<N>(t: Tree<N>, n: N, k: string)
    requires n in t.cells && t.cells.Keys == t.key.Keys && |t.key[n]| < |k|
  {
    exists j: nat :: Leads(t, n, j, k)
  }

  /** The part of a node's key that comes before its own segment. */
  function Base<N(==)>(t: Tree<N>, n: N): string
    requires n in t.cells && n in t.key && |t.cells[n].path| <= |t.key[n]|
  {
    t.key[n][..|t.key[n]| - |t.cells[n].path|]
  }

  /** A node hangs where it says: at the root, or as child `j` of `parent`. */
  predicate HangsAt<N(==)>(t: Tree<N>, n: N, parent: N, j: nat) {
    && n in t.cells
    && (n != t.root ==> parent in t.cells && j < |t.cells[parent].children| && t.cells[parent].children[j] == n)
  }

  /** Cutting a node's segment at `i`: the new node `below` takes the end of
      the segment with all the children, the node keeps the beginning. */
  function Split<N(==)>(t: Tree<N>, n: N, i: nat, below: N): Tree<N>
    requires n in t.cells && n in t.key && i < |t.cells[n].path| <= |t.key[n]|
  {
    var c := t.cells[n];
    var front := Cell(c.path[..i], [c.path[i]], [below]);
    var back := Cell(c.path[i..], c.indices, c.children);
    Tree(t.root, t.cells[below := back][n := front], t.key[below := t.key[n]][n := Base(t, n) + c.path[..i]])
  }

  // ---- One part of TreeOk at a time ----

  lemma CellHere<N>(t: Tree<N>, n: N)
    requires TreeOk(t) && n in t.cells
    ensures n in t.key && CellOk(t, n)
  {
  }

  lemma KeysUnique<N>(t: Tree<N>, m: N, n: N)
    requires TreeOk(t) && m in t.key && n in t.key && t.key[m] == t.key[n]
    ensures m == n
  {
  }

  lemma WayDown<N>(t: Tree<N>, n: N, m: N) returns (j: nat)
    requires TreeOk(t) && n in t.key && m in t.key && Before(t.key[n], t.key[m])
    ensures n in t.cells && t.cells.Keys == t.key.Keys && Leads(t, n, j, t.key[m])
  {
    assert Descends(t, n, t.key[m]);
    j :| Leads(t, n, j, t.key[m]);
  }

  lemma RootBegins<N>(t: Tree<N>, n: N)
    requires TreeOk(t) && n in t.key
    ensures t.root in t.key && t.root in t.cells && t.key[t.root] == t.cells[t.root].path && t.key[t.root] <= t.key[n]
  {
  }

  lemma RootHere<N>(t: Tree<N>)
    requires TreeOk(t)
    ensures t.root in t.cells && t.root in t.key && t.key[t.root] == t.cells[t.root].path
  {
  }

  lemma SameKeys<N>(t: Tree<N>)
    requires TreeOk(t)
    ensures t.cells.Keys == t.key.Keys
  {
  }

  // ---- Splitting ----

  lemma SegmentEndsKey<N>(t: Tree<N>, n: N, parent: N, j: nat)
    requires TreeOk(t) && HangsAt(t, n, parent, j)
    ensures n in t.key && |t.cells[n].path| <= |t.key[n]|
    ensures t.key[n] == Base(t, n) + t.cells[n].path
    ensures n != t.root ==> parent in t.key && Base(t, n) == t.key[parent]
  {
    hide TreeOk;
    CellHere(t, n);
    if n == t.root {
      RootBegins(t, n);
    } else {
      CellHere(t, parent);
    }
  }

  lemma SameIndex<N>(t: Tree<N>, n: N, i: nat, j: nat)
    requires TreeOk(t) && n in t.cells && i < |t.cells[n].indices| && j < |t.cells[n].indices|
    requires t.cells[n].indices[i] == t.cells[n].indices[j]
    ensures i == j
  {
    hide TreeOk;
    CellHere(t, n);
  }

  /** A key that reaches into a node's segment runs through all of it. */
  lemma ThroughSegment<N>(t: Tree<N>, n: N, parent: N, j: nat, cut: string, m: N)
    requires TreeOk(t) && HangsAt(t, n, parent, j) && m in t.key && n in t.key
    requires cut <= t.key[n] && cut <= t.key[m]
    requires n != t.root ==> parent in t.key && |t.key[parent]| < |cut|
    ensures t.key[n] <= t.key[m]
  {
    hide TreeOk, Base, CellOk;
    if n == t.root {
      RootBegins(t, m);
    } else {
      ChildKey(t, parent, j);
      var p := t.key[parent];
      assert p <= cut;
      assert Before(p, t.key[m]);
      var k := WayDown(t, parent, m);
      assert cut[|p|] == t.key[n][|p|] == t.key[m][|p|];
      SameIndex(t, parent, k, j);
    }
  }

  lemma ChildKey<N>(t: Tree<N>, n: N, j: nat)
    requires TreeOk(t) && n in t.cells && j < |t.cells[n].children|
    ensures j < |t.cells[n].indices| && t.cells[n].children[j] in t.cells && t.cells[n].children[j] in t.key
    ensures n in t.key && t.cells[n].children[j] != t.root
    ensures Before(t.key[n], t.key[t.cells[n].children[j]])
    ensures t.key[t.cells[n].children[j]][|t.key[n]|] == t.cells[n].indices[j]
  {
    hide TreeOk;
    CellHere(t, n);
    var c := t.cells[n].children[j];
    assert t.key[c] == t.key[n] + t.cells[c].path;
  }

  /** What `Split` is called on: a node of the tree, a new node, and a cut
      inside the segment, not at its start unless the node is the root. */
  ghost predicate Splittable<N>(t: Tree<N>, n: N, parent: N, j: nat, i: nat, below: N) {
    && TreeOk(t) && HangsAt(t, n, parent, j) && below !in t.cells && n in t.key && below !in t.key
    && i < |t.cells[n].path| <= |t.key[n]|
    && (n != t.root ==> 0 < i)
  }

  lemma SplitKey<N>(t: Tree<N>, n: N, parent: N, j: nat, i: nat, below: N)
    requires Splittable(t, n, parent, j, i, below)
    ensures Split(t, n, i, below).key[n] + t.cells[n].path[i..] == t.key[n]
    ensures Before(Split(t, n, i, below).key[n], t.key[n])
    ensures |Split(t, n, i, below).key[n]| == |t.key[n]| - |t.cells[n].path| + i
    ensures n != t.root ==> parent in t.key && |t.key[parent]| == |t.key[n]| - |t.cells[n].path|
  {
    hide TreeOk;
    SegmentEndsKey(t, n, parent, j);
    CutKey(Base(t, n), t.cells[n].path, i);
  }

  lemma CutKey(base: string, p: string, i: nat)
    requires i < |p|
    ensures (base + p[..i]) + p[i..] == base + p
    ensures Before(base + p[..i], base + p)
  {
    assert p == p[..i] + p[i..];
  }

  /** The keys that begin with the cut are those that begin with the old key. */
  lemma SplitKeys<N>(t: Tree<N>, n: N, parent: N, j: nat, i: nat, below: N, m: N)
    requires Splittable(t, n, parent, j, i, below) && m in t.key
    requires Split(t, n, i, below).key[n] <= t.key[m]
    ensures t.key[n] <= t.key[m]
  {
    hide TreeOk;
    SplitKey(t, n, parent, j, i, below);
    ThroughSegment(t, n, parent, j, Split(t, n, i, below).key[n], m);
  }

  lemma SplitCellsOk<N>(t: Tree<N>, n: N, parent: N, j: nat, i: nat, below: N, m: N)
    requires Splittable(t, n, parent, j, i, below) && m in t.cells && m != n
    ensures m in t.key && CellOk(Split(t, n, i, below), m)
  {
    hide TreeOk;
    var s, c := Split(t, n, i, below), t.cells[m];
    SegmentEndsKey(t, n, parent, j);
    CellHere(t, m);
    forall k | 0 <= k < |c.children|
      ensures c.children[k] in s.cells && c.children[k] in s.key
      ensures s.cells[c.children[k]].path != "" && s.cells[c.children[k]].path[0] == c.indices[k]
      ensures s.key[c.children[k]] == s.key[m] + s.cells[c.children[k]].path
    {
      if c.children[k] == n {
        assert t.key[n] == t.key[m] + t.cells[n].path;
        assert Base(t, n) == t.key[m];
      }
    }
  }

  lemma SplitFrontOk<N>(t: Tree<N>, n: N, parent: N, j: nat, i: nat, below: N)
    requires Splittable(t, n, parent, j, i, below)
    ensures CellOk(Split(t, n, i, below), n)
  {
    hide TreeOk;
    SplitKey(t, n, parent, j, i, below);
    RootBegins(t, n);
  }

  lemma SplitBelowOk<N>(t: Tree<N>, n: N, parent: N, j: nat, i: nat, below: N)
    requires Splittable(t, n, parent, j, i, below)
    ensures CellOk(Split(t, n, i, below), below)
  {
    hide TreeOk;
    CellHere(t, n);
    var s, c := Split(t, n, i, below), t.cells[n];
    forall k | 0 <= k < |c.children|
      ensures c.children[k] in s.cells && c.children[k] in s.key && c.children[k] != n
    {
      ChildKey(t, n, k);
    }
  }

  lemma SplitKeysUnique<N>(t: Tree<N>, n: N, parent: N, j: nat, i: nat, below: N, x: N, y: N)
    requires Splittable(t, n, parent, j, i, below)
    requires x in Split(t, n, i, below).key && y in Split(t, n, i, below).key
    requires Split(t, n, i, below).key[x] == Split(t, n, i, below).key[y]
    ensures x == y
  {
    hide TreeOk;
    SplitKey(t, n, parent, j, i, below);
    if x != y {
      if x == n || y == n {
        var z := if x == n then y else x;
        if z != below {
          SplitKeys(t, n, parent, j, i, below, z);
        }
        assert false;
      } else {
        var x0, y0 := if x == below then n else x, if y == below then n else y;
        KeysUnique(t, x0, y0);
        assert false;
      }
    }
  }

  lemma SplitDescends<N>(t: Tree<N>, n: N, parent: N, j: nat, i: nat, below: N, x: N, y: N)
    requires Splittable(t, n, parent, j, i, below)
    requires x in Split(t, n, i, below).key && y in Split(t, n, i, below).key
    requires Before(Split(t, n, i, below).key[x], Split(t, n, i, below).key[y])
    requires Split(t, n, i, below).cells.Keys == Split(t, n, i, below).key.Keys
    ensures Descends(Split(t, n, i, below), x, Split(t, n, i, below).key[y])
  {
    hide TreeOk, Before;
    SplitKey(t, n, parent, j, i, below);
    var s := Split(t, n, i, below);
    if x == n {
      assert s.key[n] <= s.key[y] && y != n by { BeforeIs(s.key[n], s.key[y]); }
      SplitLeadsBelow(t, n, parent, j, i, below, y);
    } else {
      SplitLeadsOn(t, n, parent, j, i, below, x, y);
    }
  }

  lemma BeforeIs(a: string, b: string)
    ensures Before(a, b) <==> a <= b && a != b
    ensures Before(a, b) ==> |a| < |b|
  {
  }

  /** From the cut, the way to any longer key goes through the new node. */
  lemma SplitLeadsBelow<N>(t: Tree<N>, n: N, parent: N, j: nat, i: nat, below: N, y: N)
    requires Splittable(t, n, parent, j, i, below)
    requires y in Split(t, n, i, below).key && y != n
    requires Split(t, n, i, below).cells.Keys == Split(t, n, i, below).key.Keys
    requires Split(t, n, i, below).key[n] <= Split(t, n, i, below).key[y]
    ensures |Split(t, n, i, below).key[n]| < |Split(t, n, i, below).key[y]|
    ensures Leads(Split(t, n, i, below), n, 0, Split(t, n, i, below).key[y])
  {
    hide TreeOk;
    SplitKey(t, n, parent, j, i, below);
    if y != below {
      SplitKeys(t, n, parent, j, i, below, y);
    }
  }

  /** From any other node the way is the old one. */
  lemma SplitLeadsOn<N>(t: Tree<N>, n: N, parent: N, j: nat, i: nat, below: N, x: N, y: N)
    requires Splittable(t, n, parent, j, i, below)
    requires x in Split(t, n, i, below).key && y in Split(t, n, i, below).key && x != n
    requires Before(Split(t, n, i, below).key[x], Split(t, n, i, below).key[y])
    requires Split(t, n, i, below).cells.Keys == Split(t, n, i, below).key.Keys
    ensures Descends(Split(t, n, i, below), x, Split(t, n, i, below).key[y])
  {
    hide TreeOk;
    var s := Split(t, n, i, below);
    SplitKey(t, n, parent, j, i, below);
    var x0, y0 := if x == below then n else x, if y == below then n else y;
    var c := WayDown(t, x0, y0);
    var child := t.cells[x0].children[c];
    ChildKey(t, x0, c);
    if y == n && child != n && |s.key[n]| < |t.key[child]| {
      SplitKeys(t, n, parent, j, i, below, child);
      KeysUnique(t, child, n);
      assert false;
    }
    assert Leads(s, x, c, s.key[y]);
  }

  lemma SplitRootOk<N>(t: Tree<N>, n: N, parent: N, j: nat, i: nat, below: N)
    requires Splittable(t, n, parent, j, i, below)
    ensures RootOk(Split(t, n, i, below))
  {
    hide TreeOk;
    SameKeys(t);
    var s := Split(t, n, i, below);
    assert s.cells.Keys == s.key.Keys;
    RootBegins(t, n);
    SplitKey(t, n, parent, j, i, below);
    forall m | m in s.key ensures s.key[s.root] <= s.key[m] {
      if m != n && m != below {
        RootBegins(t, m);
      } else if m == n && n != t.root {
        assert t.key[t.root] <= t.key[parent] by { RootBegins(t, parent); }
        assert t.key[parent] <= s.key[n] by { SegmentEndsKey(t, n, parent, j); }
      }
    }
  }

  lemma SplitAllCells<N>(t: Tree<N>, n: N, parent: N, j: nat, i: nat, below: N)
    requires Splittable(t, n, parent, j, i, below)
    requires Split(t, n, i, below).cells.Keys == Split(t, n, i, below).key.Keys
    ensures CellsOk(Split(t, n, i, below))
  {
    hide TreeOk, CellOk;
    var s := Split(t, n, i, below);
    forall m | m in s.cells ensures CellOk(s, m) {
      if m == n {
        SplitFrontOk(t, n, parent, j, i, below);
      } else if m == below {
        SplitBelowOk(t, n, parent, j, i, below);
      } else {
        SplitCellsOk(t, n, parent, j, i, below, m);
      }
    }
  }

  lemma SplitDistinct<N>(t: Tree<N>, n: N, parent: N, j: nat, i: nat, below: N)
    requires Splittable(t, n, parent, j, i, below)
    ensures Distinct(Split(t, n, i, below))
  {
    hide TreeOk;
    var s := Split(t, n, i, below);
    forall x, y | x in s.key && y in s.key && s.key[x] == s.key[y] ensures x == y {
      SplitKeysUnique(t, n, parent, j, i, below, x, y);
    }
  }

  lemma SplitAllDescend<N>(t: Tree<N>, n: N, parent: N, j: nat, i: nat, below: N)
    requires Splittable(t, n, parent, j, i, below)
    requires Split(t, n, i, below).cells.Keys == Split(t, n, i, below).key.Keys
    ensures AllDescend(Split(t, n, i, below))
  {
    hide TreeOk, Descends;
    var s := Split(t, n, i, below);
    forall x, y | x in s.key && y in s.key && Before(s.key[x], s.key[y]) ensures Descends(s, x, s.key[y]) {
      SplitDescends(t, n, parent, j, i, below, x, y);
    }
  }

  /** Splitting keeps the tree well formed. */
  lemma SplitOk<N>(t: Tree<N>, n: N, parent: N, j: nat, i: nat, below: N)
    requires Splittable(t, n, parent, j, i, below)
    ensures TreeOk(Split(t, n, i, below))
  {
    hide CellsOk, Distinct, AllDescend, Split;
    SplitRootOk(t, n, parent, j, i, below);
    SplitAllCells(t, n, parent, j, i, below);
    SplitDistinct(t, n, parent, j, i, below);
    SplitAllDescend(t, n, parent, j, i, below);
  }

  // ---- Growing ----

  /** A new childless node `leaf` under `n`, holding the segment `rest`. */
  function Grow<N(==)>(t: Tree<N>, n: N, leaf: N, rest: string): Tree<N>
    requires n in t.cells && n in t.key && rest != ""
  {
    var c := t.cells[n];
    Tree(t.root,
         t.cells[n := Cell(c.path, c.indices + [rest[0]], c.children + [leaf])][leaf := Cell(rest, "", [])],
         t.key[leaf := t.key[n] + rest])
  }

  ghost predicate Growable<N>(t: Tree<N>, n: N, leaf: N, rest: string) {
    && TreeOk(t) && n in t.cells && n in t.key && leaf !in t.cells && leaf !in t.key
    && rest != "" && rest[0] !in t.cells[n].indices
  }

  /** No key continues the node's key the way the new segment does. */
  lemma NobodyThere<N>(t: Tree<N>, n: N, leaf: N, rest: string, m: N)
    requires Growable(t, n, leaf, rest) && m in t.key
    ensures !(t.key[n] + [rest[0]] <= t.key[m])
  {
    hide TreeOk;
    if t.key[n] + [rest[0]] <= t.key[m] {
      assert t.key[m][|t.key[n]|] == rest[0];
      var j := WayDown(t, n, m);
      assert false;
    }
  }

  lemma GrowRootOk<N>(t: Tree<N>, n: N, leaf: N, rest: string)
    requires Growable(t, n, leaf, rest)
    ensures RootOk(Grow(t, n, leaf, rest))
  {
    hide TreeOk;
    SameKeys(t);
    var g := Grow(t, n, leaf, rest);
    assert g.cells.Keys == g.key.Keys;
    RootBegins(t, n);
    forall m | m in g.key ensures g.key[g.root] <= g.key[m] {
      RootBegins(t, if m == leaf then n else m);
    }
  }

  lemma GrowCellOk<N>(t: Tree<N>, n: N, leaf: N, rest: string, m: N)
    requires Growable(t, n, leaf, rest) && m in Grow(t, n, leaf, rest).cells && m in Grow(t, n, leaf, rest).key
    ensures CellOk(Grow(t, n, leaf, rest), m)
  {
    hide TreeOk;
    RootBegins(t, n);
    if m != leaf {
      CellHere(t, m);
    }
  }

  lemma GrowAllCells<N>(t: Tree<N>, n: N, leaf: N, rest: string)
    requires Growable(t, n, leaf, rest) && Grow(t, n, leaf, rest).cells.Keys == Grow(t, n, leaf, rest).key.Keys
    ensures CellsOk(Grow(t, n, leaf, rest))
  {
    hide TreeOk, CellOk;
    forall m | m in Grow(t, n, leaf, rest).cells ensures CellOk(Grow(t, n, leaf, rest), m) {
      GrowCellOk(t, n, leaf, rest, m);
    }
  }

  lemma GrowDistinct<N>(t: Tree<N>, n: N, leaf: N, rest: string)
    requires Growable(t, n, leaf, rest)
    ensures Distinct(Grow(t, n, leaf, rest))
  {
    hide TreeOk;
    var g := Grow(t, n, leaf, rest);
    forall x, y | x in g.key && y in g.key && g.key[x] == g.key[y] ensures x == y {
      if x != leaf && y != leaf {
        KeysUnique(t, x, y);
      } else if x != y {
        NobodyThere(t, n, leaf, rest, if x == leaf then y else x);
        assert false;
      }
    }
  }

  lemma GrowDescends<N>(t: Tree<N>, n: N, leaf: N, rest: string, x: N, y: N)
    requires Growable(t, n, leaf, rest)
    requires Grow(t, n, leaf, rest).cells.Keys == Grow(t, n, leaf, rest).key.Keys
    requires x in Grow(t, n, leaf, rest).key && y in Grow(t, n, leaf, rest).key
    requires Before(Grow(t, n, leaf, rest).key[x], Grow(t, n, leaf, rest).key[y])
    ensures Descends(Grow(t, n, leaf, rest), x, Grow(t, n, leaf, rest).key[y])
  {
    hide TreeOk;
    var g := Grow(t, n, leaf, rest);
    if x == leaf {
      NobodyThere(t, n, leaf, rest, y);
      assert false;
    } else if y == leaf {
      GrowDescendsToLeaf(t, n, leaf, rest, x);
    } else {
      var j := WayDown(t, x, y);
      assert Leads(g, x, j, g.key[y]);
    }
  }

  lemma GrowDescendsToLeaf<N>(t: Tree<N>, n: N, leaf: N, rest: string, x: N)
    requires Growable(t, n, leaf, rest)
    requires Grow(t, n, leaf, rest).cells.Keys == Grow(t, n, leaf, rest).key.Keys
    requires x in t.key && Before(t.key[x], t.key[n] + rest)
    ensures Descends(Grow(t, n, leaf, rest), x, t.key[n] + rest)
  {
    hide TreeOk;
    var g, k := Grow(t, n, leaf, rest), t.key[n] + rest;
    CellHere(t, n);
    if |t.key[x]| > |t.key[n]| {
      NobodyThere(t, n, leaf, rest, x);
      assert false;
    } else if |t.key[x]| == |t.key[n]| {
      assert t.key[x] == t.key[n];
      KeysUnique(t, x, n);
      assert Leads(g, n, |t.cells[n].children|, k);
    } else {
      assert Before(t.key[x], t.key[n]);
      var j := WayDown(t, x, n);
      assert Leads(g, x, j, k);
    }
  }

  lemma GrowAllDescend<N>(t: Tree<N>, n: N, leaf: N, rest: string)
    requires Growable(t, n, leaf, rest) && Grow(t, n, leaf, rest).cells.Keys == Grow(t, n, leaf, rest).key.Keys
    ensures AllDescend(Grow(t, n, leaf, rest))
  {
    hide TreeOk, Descends;
    var g := Grow(t, n, leaf, rest);
    forall x, y | x in g.key && y in g.key && Before(g.key[x], g.key[y]) ensures Descends(g, x, g.key[y]) {
      GrowDescends(t, n, leaf, rest, x, y);
    }
  }

  /** Growing keeps the tree well formed. */
  lemma GrowOk<N>(t: Tree<N>, n: N, leaf: N, rest: string)
    requires Growable(t, n, leaf, rest)
    ensures TreeOk(Grow(t, n, leaf, rest))
  {
    hide CellsOk, Distinct, AllDescend, Grow;
    GrowRootOk(t, n, leaf, rest);
    GrowAllCells(t, n, leaf, rest);
    GrowDistinct(t, n, leaf, rest);
    GrowAllDescend(t, n, leaf, rest);
  }

  // ---- Planting and searching ----

  /** A tree of one node. */
  lemma SingleOk<N>(root: N, path: string)
    ensures TreeOk(Tree(root, map[root := Cell(path, "", [])], map[root := path]))
  {
  }

  /** A root with an empty segment and no children is the whole tree. */
  lemma BareRoot<N>(t: Tree<N>)
    requires TreeOk(t) && t.cells[t.root].path == "" && t.cells[t.root].children == []
    ensures t.cells.Keys == {t.root}
  {
    SameKeys(t);
    forall n | n in t.cells ensures n == t.root {
      if t.key[n] == "" {
        KeysUnique(t, n, t.root);
      } else {
        var j := WayDown(t, t.root, n);
        assert false;
      }
    }
  }

  /** The search cannot go on from `n`: no child is on the way to `k`. */
  predicate DeadEnd<N(==)>(t: Tree<N>, n: N, k: string)
    requires n in t.cells && n in t.key && |t.key[n]| < |k|
  {
    var c := t.cells[n];
    forall j :: 0 <= j < |c.children| && j < |c.indices| && c.indices[j] == k[|t.key[n]|] ==>
      c.children[j] in t.key && !(t.key[c.children[j]] <= k)
  }

  /** Then no node's key lies further on the way. */
  lemma DeadEndIsEnd<N>(t: Tree<N>, n: N, k: string, m: N)
    requires TreeOk(t) && n in t.cells && n in t.key && Before(t.key[n], k) && DeadEnd(t, n, k)
    requires m in t.key && t.key[m] <= k
    ensures t.key[m] <= t.key[n]
  {
    hide TreeOk;
    if |t.key[m]| > |t.key[n]| {
      assert t.key[m][|t.key[n]|] == k[|t.key[n]|];
      var j := WayDown(t, n, m);
      assert false;
    }
  }
}
