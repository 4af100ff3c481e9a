/** The menu diff (diffProducts, index.js:173-186): products are compared by name
    only, in both directions, and each differing name is mapped back to the first
    product that carries it. */
module Diff {
  import opened Seqs
  import opened Products

  /** What changed between the stored menu and the fresh one. */
  datatype Delta = Delta(added: seq<Product>, removed: seq<Product>)

  /** `products.map(product => product.name)`. */
  function Names(ps: seq<Product>): (r: seq<string>)
    ensures |r| == |ps|
    ensures forall i :: 0 <= i < |ps| ==> r[i] == ps[i].name
  {
    seq(|ps|, i requires 0 <= i < |ps| => ps[i].name)
  }

  /** `products.filter(product => product.name == name)[0]`: the first product named n. */
  function FirstNamed(ps: seq<Product>, n: string): (p: Product)
    requires n in Names(ps)
    ensures p in ps && p.name == n
    ensures exists i :: 0 <= i < |ps| && ps[i] == p && forall j :: 0 <= j < i ==> ps[j].name != n
  {
    var i := IndexOf(Names(ps), n);
    assert forall j :: 0 <= j < i ==> Names(ps)[..i][j] == ps[j].name;
    ps[i]
  }

  /** Each name mapped back to the first product of ps that carries it. */
  function FirstOfEach(ps: seq<Product>, names: seq<string>): (r: seq<Product>)
    requires forall i :: 0 <= i < |names| ==> names[i] in Names(ps)
    ensures |r| == |names|
    ensures forall i :: 0 <= i < |names| ==> r[i] == FirstNamed(ps, names[i])
  {
    seq(|names|, i requires 0 <= i < |names| => FirstNamed(ps, names[i]))
  }

  /** diffProducts. `removed` lists the old names missing from the new menu, `added`
      the new names missing from the old one, each in its own list's order (a name
      listed twice is reported twice), each mapped to the first product with that name. */
  function DiffProducts(oldProducts: seq<Product>, newProducts: seq<Product>): (d: Delta)
    ensures Names(d.removed) == Without(Names(oldProducts), Names(newProducts))
    ensures Names(d.added) == Without(Names(newProducts), Names(oldProducts))
    ensures forall i :: 0 <= i < |d.removed| ==>
      d.removed[i].name in Names(oldProducts) && d.removed[i] == FirstNamed(oldProducts, d.removed[i].name)
    ensures forall i :: 0 <= i < |d.added| ==>
      d.added[i].name in Names(newProducts) && d.added[i] == FirstNamed(newProducts, d.added[i].name)
  {
    var oldProductNames := Names(oldProducts);
    var newProductNames := Names(newProducts);
    var removedProductNames := Without(oldProductNames, newProductNames);
    var addedProductNames := Without(newProductNames, oldProductNames);
    var d := Delta(FirstOfEach(newProducts, addedProductNames), FirstOfEach(oldProducts, removedProductNames));
    assert Names(d.removed) == removedProductNames;
    assert Names(d.added) == addedProductNames;
    d
  }

  /** A removed product is an old product whose name the new menu lacks, and every
      old product whose name the new menu lacks is represented (by the first product
      of that name); symmetrically for added products. */
  lemma DiffMembership(oldProducts: seq<Product>, newProducts: seq<Product>)
    ensures var d := DiffProducts(oldProducts, newProducts);
      && (forall p :: p in d.removed ==> p in oldProducts && p.name !in Names(newProducts))
      && (forall p :: p in d.added ==> p in newProducts && p.name !in Names(oldProducts))
      && (forall i :: 0 <= i < |oldProducts| && oldProducts[i].name !in Names(newProducts) ==>
            FirstNamed(oldProducts, oldProducts[i].name) in d.removed)
      && (forall i :: 0 <= i < |newProducts| && newProducts[i].name !in Names(oldProducts) ==>
            FirstNamed(newProducts, newProducts[i].name) in d.added)
  {
    MissingMembers(oldProducts, Names(newProducts));
    MissingMembers(newProducts, Names(oldProducts));
  }

  /** One side of the diff: the first products of ps carrying each name that others lacks. */
  lemma MissingMembers(ps: seq<Product>, others: seq<string>)
    ensures var r := FirstOfEach(ps, Without(Names(ps), others));
      && (forall p :: p in r ==> p in ps && p.name !in others)
      && (forall i :: 0 <= i < |ps| && ps[i].name !in others ==> FirstNamed(ps, ps[i].name) in r)
  {
    var w := Without(Names(ps), others);
    var r := FirstOfEach(ps, w);
    WithoutMembers(Names(ps), others);
    forall p | p in r ensures p in ps && p.name !in others {
      var i :| 0 <= i < |r| && r[i] == p;
      assert p.name == w[i];
    }
    forall i | 0 <= i < |ps| && ps[i].name !in others ensures FirstNamed(ps, ps[i].name) in r {
      assert ps[i].name == Names(ps)[i];
      var j :| 0 <= j < |w| && w[j] == ps[i].name;
      assert r[j] == FirstNamed(ps, ps[i].name);
    }
  }

  /** Comparing a menu with itself finds no change. */
  lemma DiffSelf(ps: seq<Product>)
    ensures DiffProducts(ps, ps) == Delta([], [])
  {
    WithoutSelf(Names(ps), Names(ps));
  }

  /** Equality is by name only: a name present in both menus is reported in neither
      list, whatever the descriptions, categories or images of its products. */
  lemma DiffByNameOnly(oldProducts: seq<Product>, newProducts: seq<Product>, n: string)
    requires n in Names(oldProducts) && n in Names(newProducts)
    ensures n !in Names(DiffProducts(oldProducts, newProducts).removed)
    ensures n !in Names(DiffProducts(oldProducts, newProducts).added)
  {
    WithoutMembers(Names(oldProducts), Names(newProducts));
    WithoutMembers(Names(newProducts), Names(oldProducts));
  }

  /** The old products whose name the new menu lacks, in order. */
  function ProductsNotNamedIn(ps: seq<Product>, names: seq<string>): seq<Product> {
    if ps == [] then []
    else ProductsNotNamedIn(ps[..|ps| - 1], names)
         + (if ps[|ps| - 1].name in names then [] else [ps[|ps| - 1]])
  }

  /** On a menu whose names are all different (the case the catalog invariant is meant
      to ensure), `removed` is exactly the old products whose name the new menu lacks,
      in the old order, and `added` likewise. */
  lemma DiffOfDistinctMenus(oldProducts: seq<Product>, newProducts: seq<Product>)
    requires Distinct(Names(oldProducts)) && Distinct(Names(newProducts))
    ensures DiffProducts(oldProducts, newProducts).removed == ProductsNotNamedIn(oldProducts, Names(newProducts))
    ensures DiffProducts(oldProducts, newProducts).added == ProductsNotNamedIn(newProducts, Names(oldProducts))
  {
    FirstOfEachDistinct(oldProducts, Names(newProducts));
    FirstOfEachDistinct(newProducts, Names(oldProducts));
  }

  lemma {:induction false} FirstOfEachDistinct(ps: seq<Product>, others: seq<string>)
    requires Distinct(Names(ps))
    ensures FirstOfEach(ps, Without(Names(ps), others)) == ProductsNotNamedIn(ps, others)
    decreases |ps|
  {
    if ps != [] {
      NamesSnoc(ps);
      DistinctInit(Names(ps));
      FirstOfEachDistinct(ps[..|ps| - 1], others);
      MissingSnoc(ps, others);
    }
  }

  /** One more product, whose name is new, extends one side of the diff by at most
      that product. */
  lemma MissingSnoc(ps: seq<Product>, others: seq<string>)
    requires ps != [] && ps[|ps| - 1].name !in Names(ps[..|ps| - 1])
    ensures FirstOfEach(ps, Without(Names(ps), others))
         == FirstOfEach(ps[..|ps| - 1], Without(Names(ps[..|ps| - 1]), others))
            + (if ps[|ps| - 1].name in others then [] else [ps[|ps| - 1]])
  {
    var init, last := ps[..|ps| - 1], ps[|ps| - 1];
    NamesSnoc(ps);
    var w := Without(Names(init), others);
    FirstOfEachOfPrefix(ps, w);
    WithoutSnoc(Names(ps), others);
    if last.name !in others {
      FirstNamedLast(ps);
      FirstOfEachSnoc(ps, w, last.name);
    } else {
      assert Without(Names(ps), others) == w + [];
    }
  }

  lemma NamesSnoc(ps: seq<Product>)
    requires ps != []
    ensures Names(ps) == Names(ps[..|ps| - 1]) + [ps[|ps| - 1].name]
    ensures Names(ps)[..|ps| - 1] == Names(ps[..|ps| - 1])
  {
  }

  /** Names of the first |ps|-1 products find their first product there. */
  lemma FirstOfEachOfPrefix(ps: seq<Product>, w: seq<string>)
    requires ps != []
    requires forall i :: 0 <= i < |w| ==> w[i] in Names(ps[..|ps| - 1])
    ensures forall i :: 0 <= i < |w| ==> w[i] in Names(ps)
    ensures FirstOfEach(ps, w) == FirstOfEach(ps[..|ps| - 1], w)
  {
    var init := ps[..|ps| - 1];
    NamesSnoc(ps);
    forall i | 0 <= i < |w| ensures w[i] in Names(ps) && FirstNamed(ps, w[i]) == FirstNamed(init, w[i]) {
      IndexOfExtend(Names(init), [ps[|ps| - 1].name], w[i]);
    }
  }

  lemma FirstNamedLast(ps: seq<Product>)
    requires ps != [] && ps[|ps| - 1].name !in Names(ps[..|ps| - 1])
    ensures ps[|ps| - 1].name in Names(ps) && FirstNamed(ps, ps[|ps| - 1].name) == ps[|ps| - 1]
  {
    NamesSnoc(ps);
    IndexOfAppended(Names(ps[..|ps| - 1]), ps[|ps| - 1].name);
  }

  lemma FirstOfEachSnoc(ps: seq<Product>, w: seq<string>, n: string)
    requires forall i :: 0 <= i < |w| ==> w[i] in Names(ps)
    requires n in Names(ps)
    ensures FirstOfEach(ps, w + [n]) == FirstOfEach(ps, w) + [FirstNamed(ps, n)]
  {
  }

  /** Example: old [A, B, C], new [B, C, D]. */
  lemma DiffExample(a: Product, b: Product, c: Product, d: Product)
    requires a.name == "A" && b.name == "B" && c.name == "C" && d.name == "D"
    ensures DiffProducts([a, b, c], [b, c, d]) == Delta([d], [a])
  {
    assert Names([a, b, c]) == ["A", "B", "C"];
    assert Names([b, c, d]) == ["B", "C", "D"];
    NamesExample();
    assert FirstOfEach([a, b, c], ["A"]) == [a] by {
      IndexOfUnique(["A", "B", "C"], "A", 0);
    }
    assert FirstOfEach([b, c, d], ["D"]) == [d] by {
      IndexOfUnique(["B", "C", "D"], "D", 2);
    }
  }

  lemma NamesExample()
    ensures Without(["A", "B", "C"], ["B", "C", "D"]) == ["A"]
    ensures Without(["B", "C", "D"], ["A", "B", "C"]) == ["D"]
  {
    OnlyFirstMissing();
    OnlyLastMissing();
  }

  lemma OnlyFirstMissing()
    ensures Without(["A", "B", "C"], ["B", "C", "D"]) == ["A"]
  {
    var o := ["B", "C", "D"];
    assert ["A", "B", "C"][..2] == ["A", "B"] && ["A", "B"][..1] == ["A"] && ["A"][..0] == [];
    WithoutSnoc(["A"], o);
    WithoutSnoc(["A", "B"], o);
    WithoutSnoc(["A", "B", "C"], o);
  }

  lemma OnlyLastMissing()
    ensures Without(["B", "C", "D"], ["A", "B", "C"]) == ["D"]
  {
    var o := ["A", "B", "C"];
    assert ["B", "C", "D"][..2] == ["B", "C"] && ["B", "C"][..1] == ["B"] && ["B"][..0] == [];
    WithoutSnoc(["B"], o);
    WithoutSnoc(["B", "C"], o);
    WithoutSnoc(["B", "C", "D"], o);
  }
}
