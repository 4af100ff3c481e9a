/** Catalog construction (getProducts, index.js:50-81): walk the menu's categories,
    sub-categories and products in order, skip every product whose raw name was
    already met, and push a normalised record for the others. The HTTP fetch is
    not modelled: the parsed menu document is the input. */
module Catalog {
  import opened Seqs
  import opened JsStrings
  import opened Products
  import opened Diff

  const ImageCdn := "https://olo-images-live.imgix.net/"

  /** The parsed menu document: categories -> subCategories -> products. A missing
      `images` array is represented by the empty sequence (both skip the image). */
  datatype RawImage = RawImage(filename: string)
  datatype RawProduct = RawProduct(name: string, description: string, images: seq<RawImage>)
  datatype RawSubCategory = RawSubCategory(name: string, products: seq<RawProduct>)
  datatype RawCategory = RawCategory(name: string, subCategories: seq<RawSubCategory>)
  datatype FullMenu = FullMenu(categories: seq<RawCategory>)

  /** One product as the traversal meets it, with the raw names of its category
      and sub-category. */
  datatype Listing = Listing(category: string, subCategory: string, product: RawProduct)

  /** How a template literal renders a value that may be `undefined`. */
  function Interpolate(v: Option<string>): string {
    match v
    case Some(s) => s
    case None => "undefined"
  }

  /** The first image's filename, if there is an image. */
  function FirstImage(images: seq<RawImage>): Option<string> {
    if |images| > 0 then Some(images[0].filename) else None
  }

  /** The record pushed for a listing (index.js:68-74). */
  function Normalize(l: Listing): (p: Product)
    ensures IsTrimmed(p.name) && IsTrimmed(p.description) && IsTrimmed(p.category)
    ensures p.subcategory.Some? && IsTrimmed(p.subcategory.value)
    ensures p.image.Some? && |ImageCdn| <= |p.image.value| && p.image.value[..|ImageCdn|] == ImageCdn
    ensures |l.product.images| > 0 ==> p.image.value == ImageCdn + l.product.images[0].filename
    ensures |l.product.images| == 0 ==> p.image.value == ImageCdn + "undefined"
  {
    Product(
      Trim(l.product.name),
      Trim(l.product.description),
      Some(Trim(l.subCategory)),
      Trim(l.category),
      Some(ImageCdn + Interpolate(FirstImage(l.product.images))))
  }

  /** The traversal order of the three nested loops. */
  function ProductListings(category: string, subCategory: string, ps: seq<RawProduct>): seq<Listing> {
    if ps == [] then []
    else ProductListings(category, subCategory, ps[..|ps| - 1]) + [Listing(category, subCategory, ps[|ps| - 1])]
  }

  function SubCategoryListings(category: string, subs: seq<RawSubCategory>): seq<Listing> {
    if subs == [] then []
    else SubCategoryListings(category, subs[..|subs| - 1])
         + ProductListings(category, subs[|subs| - 1].name, subs[|subs| - 1].products)
  }

  function Listings(cats: seq<RawCategory>): seq<Listing> {
    if cats == [] then []
    else Listings(cats[..|cats| - 1]) + SubCategoryListings(cats[|cats| - 1].name, cats[|cats| - 1].subCategories)
  }

  /** The raw (untrimmed) product names, in order: the keys of the `productNames` set. */
  function RawNames(ls: seq<Listing>): (r: seq<string>)
    ensures |r| == |ls|
    ensures forall i :: 0 <= i < |ls| ==> r[i] == ls[i].product.name
  {
    seq(|ls|, i requires 0 <= i < |ls| => ls[i].product.name)
  }

  /** The listings that survive the `productNames.has` test. */
  function FirstListings(ls: seq<Listing>): seq<Listing> {
    if ls == [] then []
    else
      var init, last := ls[..|ls| - 1], ls[|ls| - 1];
      if last.product.name in RawNames(init) then FirstListings(init)
      else FirstListings(init) + [last]
  }

  /** What getProducts returns for a menu. */
  function CatalogOf(menu: FullMenu): (products: seq<Product>)
    ensures |products| == |set n | n in RawNames(Listings(menu.categories))|
  {
    var ls := Listings(menu.categories);
    FirstListingsOnePerName(ls);
    DistinctSetSize(RawNames(FirstListings(ls)));
    assert (set n | n in RawNames(FirstListings(ls))) == (set n | n in RawNames(ls));
    Map(Normalize, FirstListings(ls))
  }

  /** getProducts, from the parsed menu on. */
  method GetProducts(fullMenu: FullMenu) returns (products: seq<Product>)
    ensures products == CatalogOf(fullMenu)
  {
    var cats := fullMenu.categories;
    products := [];
    var productNames: set<string> := {};
    var i := 0;
    while i < |cats|
      invariant 0 <= i <= |cats|
      invariant Built(Listings(cats[..i]), products, productNames)
    {
      var category := cats[i];
      var subs := category.subCategories;
      ghost var before := Listings(cats[..i]);
      var j := 0;
      EmptyPrefixes(category.name, "", subs, []);
      assert before + SubCategoryListings(category.name, subs[..0]) == before;
      while j < |subs|
        invariant 0 <= j <= |subs|
        invariant Built(before + SubCategoryListings(category.name, subs[..j]), products, productNames)
      {
        var subCategory := subs[j];
        var ps := subCategory.products;
        ghost var beforeSub := before + SubCategoryListings(category.name, subs[..j]);
        var k := 0;
        EmptyPrefixes(category.name, subCategory.name, subs, ps);
        assert beforeSub + ProductListings(category.name, subCategory.name, ps[..0]) == beforeSub;
        while k < |ps|
          invariant 0 <= k <= |ps|
          invariant Built(beforeSub + ProductListings(category.name, subCategory.name, ps[..k]), products, productNames)
        {
          var image: Option<string> := None;
          if |ps[k].images| > 0 {
            image := Some(ps[k].images[0].filename);
          }
          var record := Product(
            Trim(ps[k].name),
            Trim(ps[k].description),
            Some(Trim(subCategory.name)),
            Trim(category.name),
            Some(ImageCdn + Interpolate(image)));
          ghost var l := Listing(category.name, subCategory.name, ps[k]);
          ProductListingsSnoc(category.name, subCategory.name, ps, k);
          AppendAssoc(beforeSub, ProductListings(category.name, subCategory.name, ps[..k]), [l]);
          RecordOne(beforeSub + ProductListings(category.name, subCategory.name, ps[..k]), l, products, productNames, record);
          if !(ps[k].name in productNames) {
            products := products + [record];
            productNames := productNames + {ps[k].name};
          }
          k := k + 1;
        }
        SubCategoryListingsSnoc(category.name, subs, j);
        AppendAssoc(before, SubCategoryListings(category.name, subs[..j]), ProductListings(category.name, subCategory.name, ps));
        j := j + 1;
      }
      ListingsSnoc(cats, i);
      i := i + 1;
    }
    assert cats[..i] == cats;
  }

  lemma EmptyPrefixes(category: string, subCategory: string, subs: seq<RawSubCategory>, ps: seq<RawProduct>)
    ensures SubCategoryListings(category, subs[..0]) == []
    ensures ProductListings(category, subCategory, ps[..0]) == []
  {
    assert subs[..0] == [];
    assert ps[..0] == [];
  }

  lemma AppendAssoc<T>(a: seq<T>, b: seq<T>, c: seq<T>)
    ensures (a + b) + c == a + (b + c)
  {
  }

  lemma ProductListingsSnoc(category: string, subCategory: string, ps: seq<RawProduct>, k: nat)
    requires k < |ps|
    ensures ProductListings(category, subCategory, ps[..k + 1])
         == ProductListings(category, subCategory, ps[..k]) + [Listing(category, subCategory, ps[k])]
  {
    assert ps[..k + 1][..k] == ps[..k];
  }

  lemma SubCategoryListingsSnoc(category: string, subs: seq<RawSubCategory>, j: nat)
    requires j < |subs|
    ensures ProductListings(category, subs[j].name, subs[j].products[..|subs[j].products|])
         == ProductListings(category, subs[j].name, subs[j].products)
    ensures SubCategoryListings(category, subs[..j + 1])
         == SubCategoryListings(category, subs[..j]) + ProductListings(category, subs[j].name, subs[j].products)
  {
    assert subs[j].products[..|subs[j].products|] == subs[j].products;
    assert subs[..j + 1][..j] == subs[..j];
  }

  lemma ListingsSnoc(cats: seq<RawCategory>, i: nat)
    requires i < |cats|
    ensures SubCategoryListings(cats[i].name, cats[i].subCategories[..|cats[i].subCategories|])
         == SubCategoryListings(cats[i].name, cats[i].subCategories)
    ensures Listings(cats[..i + 1]) == Listings(cats[..i]) + SubCategoryListings(cats[i].name, cats[i].subCategories)
  {
    assert cats[i].subCategories[..|cats[i].subCategories|] == cats[i].subCategories;
    assert cats[..i + 1][..i] == cats[..i];
  }

  /** The loop state after meeting the listings `met`: the records pushed so far
      and the set of raw names seen so far. */
  ghost predicate Built(met: seq<Listing>, products: seq<Product>, productNames: set<string>) {
    && products == Map(Normalize, FirstListings(met))
    && forall n :: n in productNames <==> n in RawNames(met)
  }

  /** One step of the innermost loop, on the specification side. */
  lemma RecordOne(met: seq<Listing>, l: Listing, products: seq<Product>, names: set<string>, record: Product)
    requires Built(met, products, names)
    requires record == Normalize(l)
    ensures l.product.name in names ==> Built(met + [l], products, names)
    ensures l.product.name !in names ==> Built(met + [l], products + [record], names + {l.product.name})
  {
    FirstListingsSnoc(met, l);
    if l.product.name !in names {
      MapSnoc(Normalize, FirstListings(met), l);
    }
  }

  lemma FirstListingsSnoc(met: seq<Listing>, l: Listing)
    ensures RawNames(met + [l]) == RawNames(met) + [l.product.name]
    ensures FirstListings(met + [l])
         == if l.product.name in RawNames(met) then FirstListings(met) else FirstListings(met) + [l]
  {
    assert (met + [l])[..|met|] == met;
  }

  /** The deduplication keeps the traversal order. */
  lemma {:induction false} FirstListingsKeepOrder(ls: seq<Listing>)
    ensures IsSubsequence(FirstListings(ls), ls)
    decreases |ls|
  {
    if ls != [] {
      var init, last := ls[..|ls| - 1], ls[|ls| - 1];
      assert ls == init + [last];
      FirstListingsKeepOrder(init);
      FirstListingsSnoc(init, last);
      SubsequenceSnoc(FirstListings(init), init, last, last.product.name !in RawNames(init));
    }
  }

  /** The deduplication keeps exactly one listing per raw name. */
  lemma {:induction false} FirstListingsOnePerName(ls: seq<Listing>)
    ensures Distinct(RawNames(FirstListings(ls)))
    ensures forall n :: n in RawNames(FirstListings(ls)) <==> n in RawNames(ls)
    decreases |ls|
  {
    if ls != [] {
      var init, last := ls[..|ls| - 1], ls[|ls| - 1];
      assert ls == init + [last];
      FirstListingsOnePerName(init);
      FirstListingsSnoc(init, last);
      var f := FirstListings(init);
      if last.product.name !in RawNames(init) {
        assert RawNames(f + [last]) == RawNames(f) + [last.product.name];
      }
    }
  }

  /** Each kept listing is the first listing with its raw name. */
  lemma {:induction false} FirstListingsAreFirst(ls: seq<Listing>)
    ensures forall k :: 0 <= k < |FirstListings(ls)| ==>
      FirstListings(ls)[k].product.name in RawNames(ls) &&
      FirstListings(ls)[k] == ls[IndexOf(RawNames(ls), FirstListings(ls)[k].product.name)]
    decreases |ls|
  {
    if ls != [] {
      var init, last := ls[..|ls| - 1], ls[|ls| - 1];
      assert ls == init + [last];
      FirstListingsAreFirst(init);
      FirstListingsSnoc(init, last);
      var f := FirstListings(init);
      var names := RawNames(init);
      forall k | 0 <= k < |f|
        ensures f[k].product.name in RawNames(ls)
        ensures f[k] == ls[IndexOf(RawNames(ls), f[k].product.name)]
      {
        IndexOfExtend(names, [last.product.name], f[k].product.name);
      }
      if last.product.name !in names {
        IndexOfAppended(names, last.product.name);
      }
    }
  }

  /** The catalog is the first-occurrence listings, each normalised: every text field
      is trimmed, the sub-category is present, and the image is the CDN prefix
      followed by the first image's filename ("undefined" when there is none). */
  lemma CatalogIsNormalisedFirstOccurrences(menu: FullMenu)
    ensures var ls := FirstListings(Listings(menu.categories));
      && |CatalogOf(menu)| == |ls|
      && forall k :: 0 <= k < |ls| ==>
        var p, raw := CatalogOf(menu)[k], ls[k];
        && p.name == Trim(raw.product.name) && IsTrimmed(p.name)
        && p.description == Trim(raw.product.description) && IsTrimmed(p.description)
        && p.subcategory == Some(Trim(raw.subCategory)) && IsTrimmed(p.subcategory.value)
        && p.category == Trim(raw.category) && IsTrimmed(p.category)
        && p.image.Some? && p.image.value[..|ImageCdn|] == ImageCdn
        && (|raw.product.images| > 0 ==> p.image.value == ImageCdn + raw.product.images[0].filename)
        && (|raw.product.images| == 0 ==> p.image.value == ImageCdn + "undefined")
  {
  }

  /** The innermost loop lists a sub-category's products in their order. */
  lemma {:induction false} ProductListingsInOrder(category: string, subCategory: string, ps: seq<RawProduct>)
    ensures |ProductListings(category, subCategory, ps)| == |ps|
    ensures forall i :: 0 <= i < |ps| ==> ProductListings(category, subCategory, ps)[i] == Listing(category, subCategory, ps[i])
    decreases |ps|
  {
    if ps != [] {
      ProductListingsInOrder(category, subCategory, ps[..|ps| - 1]);
    }
  }

  /** A menu with one category holding one sub-category lists that sub-category's products. */
  lemma OneShelf(category: string, subCategory: string, ps: seq<RawProduct>)
    ensures Listings([RawCategory(category, [RawSubCategory(subCategory, ps)])])
         == ProductListings(category, subCategory, ps)
  {
    var subs := [RawSubCategory(subCategory, ps)];
    var cats := [RawCategory(category, subs)];
    assert subs[..0] == [];
    assert cats[..0] == [];
    assert SubCategoryListings(category, subs) == [] + ProductListings(category, subCategory, ps);
    assert Listings(cats) == [] + SubCategoryListings(category, subs);
  }

  /** Two listings of the same raw name (whatever their other fields) and a third
      name: two records, and the first listing of the repeated name wins. */
  lemma DedupExample(category: string, subCategory: string, a: RawProduct, a': RawProduct, b: RawProduct)
    requires a.name == a'.name && a.name != b.name
    ensures var menu := FullMenu([RawCategory(category, [RawSubCategory(subCategory, [a, a', b])])]);
      && |CatalogOf(menu)| == 2
      && CatalogOf(menu)[0] == Normalize(Listing(category, subCategory, a))
      && CatalogOf(menu)[1] == Normalize(Listing(category, subCategory, b))
  {
    var la, la', lb := Listing(category, subCategory, a), Listing(category, subCategory, a'), Listing(category, subCategory, b);
    assert Listings([RawCategory(category, [RawSubCategory(subCategory, [a, a', b])])]) == [la, la', lb] by {
      OneShelf(category, subCategory, [a, a', b]);
      ProductListingsInOrder(category, subCategory, [a, a', b]);
    }
    assert FirstListings([la, la', lb]) == [la, lb] by {
      KeepFirstOfThree(la, la', lb);
    }
  }

  lemma KeepFirstOfThree(la: Listing, la': Listing, lb: Listing)
    requires la.product.name == la'.product.name && la.product.name != lb.product.name
    ensures FirstListings([la, la', lb]) == [la, lb]
  {
    FirstListingsSnoc([], la);
    assert [] + [la] == [la];
    FirstListingsSnoc([la], la');
    assert [la] + [la'] == [la, la'];
    FirstListingsSnoc([la, la'], lb);
    assert [la, la'] + [lb] == [la, la', lb];
  }

  /** Deduplication compares the RAW name and stores the TRIMMED one, so "A" and "A "
      both survive and the catalog holds two records named "A". */
  lemma TrimmedNamesMayRepeat()
    ensures var menu := FullMenu([RawCategory("Cakes", [RawSubCategory("Classics",
        [RawProduct("A", "", []), RawProduct("A ", "", [])])])]);
      |CatalogOf(menu)| == 2 && CatalogOf(menu)[0].name == CatalogOf(menu)[1].name == "A"
  {
    var a, a' := RawProduct("A", "", []), RawProduct("A ", "", []);
    var la, la' := Listing("Cakes", "Classics", a), Listing("Cakes", "Classics", a');
    assert Listings([RawCategory("Cakes", [RawSubCategory("Classics", [a, a'])])]) == [la, la'] by {
      OneShelf("Cakes", "Classics", [a, a']);
      ProductListingsInOrder("Cakes", "Classics", [a, a']);
    }
    assert FirstListings([la, la']) == [la, la'] by {
      KeepBoth(la, la');
    }
    TrimExamples();
  }

  lemma KeepBoth(la: Listing, lb: Listing)
    requires la.product.name != lb.product.name
    ensures FirstListings([la, lb]) == [la, lb]
  {
    FirstListingsSnoc([], la);
    assert [] + [la] == [la];
    FirstListingsSnoc([la], lb);
    assert [la] + [lb] == [la, lb];
  }

  // The corrections below state what getProducts evidently intends where it departs
  // from it; the run (Handler) keeps the behaviour as written.

  /** The record evidently intended: as Normalize, but a product without an image
      gets no image reference instead of the CDN prefix followed by "undefined". */
  function IntendedNormalize(l: Listing): (p: Product)
    ensures p.image.None? <==> |l.product.images| == 0
    ensures p.image.Some? ==> p.image.value == ImageCdn + l.product.images[0].filename
    ensures |l.product.images| > 0 ==> p == Normalize(l)
    ensures p.name == Normalize(l).name && p.description == Normalize(l).description
    ensures p.subcategory == Normalize(l).subcategory && p.category == Normalize(l).category
  {
    var image := if |l.product.images| > 0 then Some(ImageCdn + l.product.images[0].filename) else None;
    Product(Trim(l.product.name), Trim(l.product.description), Some(Trim(l.subCategory)), Trim(l.category), image)
  }

  /** The stored (trimmed) product names of the listings, in order. */
  function StoredNames(ls: seq<Listing>): (r: seq<string>)
    ensures |r| == |ls|
    ensures forall i :: 0 <= i < |ls| ==> r[i] == Trim(ls[i].product.name)
  {
    seq(|ls|, i requires 0 <= i < |ls| => Trim(ls[i].product.name))
  }

  /** The dedup evidently intended: keyed on the name that is stored, so that names
      are unique keys of the catalog. */
  function FirstListingsByStoredName(ls: seq<Listing>): seq<Listing> {
    if ls == [] then []
    else
      var init, last := ls[..|ls| - 1], ls[|ls| - 1];
      if Trim(last.product.name) in StoredNames(init) then FirstListingsByStoredName(init)
      else FirstListingsByStoredName(init) + [last]
  }

  lemma FirstListingsByStoredNameSnoc(met: seq<Listing>, l: Listing)
    ensures StoredNames(met + [l]) == StoredNames(met) + [Trim(l.product.name)]
    ensures FirstListingsByStoredName(met + [l])
         == if Trim(l.product.name) in StoredNames(met) then FirstListingsByStoredName(met)
            else FirstListingsByStoredName(met) + [l]
  {
    assert (met + [l])[..|met|] == met;
  }

  /** Keyed on the stored name, the dedup keeps exactly one listing per stored name. */
  lemma {:induction false} FirstListingsByStoredNameOnePerName(ls: seq<Listing>)
    ensures Distinct(StoredNames(FirstListingsByStoredName(ls)))
    ensures forall n :: n in StoredNames(FirstListingsByStoredName(ls)) <==> n in StoredNames(ls)
    decreases |ls|
  {
    if ls != [] {
      var init, last := ls[..|ls| - 1], ls[|ls| - 1];
      assert ls == init + [last];
      FirstListingsByStoredNameOnePerName(init);
      FirstListingsByStoredNameSnoc(init, last);
      var f := FirstListingsByStoredName(init);
      if Trim(last.product.name) !in StoredNames(init) {
        FirstListingsByStoredNameSnoc(f, last);
      }
    }
  }

  /** The catalog evidently intended: no two records share a name, every product name
      of the menu is represented, and records without an image carry none. */
  function IntendedCatalogOf(menu: FullMenu): (products: seq<Product>)
    ensures Distinct(Names(products))
    ensures forall n :: n in Names(products) <==> n in StoredNames(Listings(menu.categories))
    ensures forall k :: 0 <= k < |products| ==> IsTrimmed(products[k].name)
  {
    var ls := FirstListingsByStoredName(Listings(menu.categories));
    FirstListingsByStoredNameOnePerName(Listings(menu.categories));
    var products := Map(IntendedNormalize, ls);
    assert Names(products) == StoredNames(ls);
    products
  }

  /** On intended catalogs the diff is the plain name difference of the two menus:
      each side is exactly the products whose name the other catalog lacks, in order. */
  lemma IntendedCatalogsDiff(oldMenu: FullMenu, newMenu: FullMenu)
    ensures var oldProducts, newProducts := IntendedCatalogOf(oldMenu), IntendedCatalogOf(newMenu);
      && DiffProducts(oldProducts, newProducts).removed == ProductsNotNamedIn(oldProducts, Names(newProducts))
      && DiffProducts(oldProducts, newProducts).added == ProductsNotNamedIn(newProducts, Names(oldProducts))
  {
    DiffOfDistinctMenus(IntendedCatalogOf(oldMenu), IntendedCatalogOf(newMenu));
  }

  /** The menu of TrimmedNamesMayRepeat gives one record under the intended dedup. */
  lemma IntendedCatalogMergesTrimmedNames()
    ensures var menu := FullMenu([RawCategory("Cakes", [RawSubCategory("Classics",
        [RawProduct("A", "", []), RawProduct("A ", "", [])])])]);
      var c := IntendedCatalogOf(menu);
      |c| == 1 && c[0].name == "A" && c[0].image == None
  {
    var a, a' := RawProduct("A", "", []), RawProduct("A ", "", []);
    var la, la' := Listing("Cakes", "Classics", a), Listing("Cakes", "Classics", a');
    var menu := FullMenu([RawCategory("Cakes", [RawSubCategory("Classics", [a, a'])])]);
    assert Listings(menu.categories) == [la, la'] by {
      OneShelf("Cakes", "Classics", [a, a']);
      ProductListingsInOrder("Cakes", "Classics", [a, a']);
    }
    TrimExamples();
    KeepFirstByStoredName(la, la');
    assert IntendedCatalogOf(menu) == Map(IntendedNormalize, [la]);
  }

  lemma KeepFirstByStoredName(la: Listing, lb: Listing)
    requires Trim(la.product.name) == Trim(lb.product.name)
    ensures FirstListingsByStoredName([la, lb]) == [la]
  {
    FirstListingsByStoredNameSnoc([], la);
    assert [] + [la] == [la];
    FirstListingsByStoredNameSnoc([la], lb);
    assert [la] + [lb] == [la, lb];
  }
}
