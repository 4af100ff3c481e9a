/** The cheesecake classifier (isCheesecake / isNotCheesecake, index.js:163-171) and
    getCheesecakes (index.js:153-161). */
module Classifier {
  import opened Seqs
  import opened JsStrings
  import opened Products

  const Keyword := "cheesecake"

  /** Reference reading of a case-insensitive match: the ten characters of s from
      position i lower-case, one by one, to the keyword. */
  predicate KeywordAt(s: string, i: nat) {
    i + |Keyword| <= |s| && forall k :: 0 <= k < |Keyword| ==> LowerChar(s[i + k]) == Keyword[k]
  }

  ghost predicate ContainsKeyword(s: string) {
    exists i: nat :: KeywordAt(s, i)
  }

  /** `s.toLowerCase().includes("cheesecake")`. */
  function MentionsCheesecake(s: string): (b: bool)
    ensures b <==> ContainsKeyword(s)
  {
    LowerIncludesKeyword(s);
    Includes(ToLower(s), Keyword)
  }

  lemma LowerIncludesKeyword(s: string)
    ensures Includes(ToLower(s), Keyword) <==> ContainsKeyword(s)
  {
    var t := ToLower(s);
    IncludesIff(t, Keyword);
    forall i: nat ensures OccursAt(t, Keyword, i) <==> KeywordAt(s, i) {
      if i + |Keyword| <= |s| {
        var w := t[i..i + |Keyword|];
        assert forall k :: 0 <= k < |Keyword| ==> w[k] == LowerChar(s[i + k]);
      }
    }
  }

  /** isCheesecake: the keyword, in any case, in the name or in the description, AND
      in the category. Both conditions are needed. */
  function IsCheesecake(product: Product): (b: bool)
    ensures b <==> (ContainsKeyword(product.name) || ContainsKeyword(product.description))
                   && ContainsKeyword(product.category)
  {
    (MentionsCheesecake(product.name) || MentionsCheesecake(product.description))
    && MentionsCheesecake(product.category)
  }

  /** isNotCheesecake. */
  function IsNotCheesecake(product: Product): (b: bool)
    ensures b <==> !IsCheesecake(product)
  {
    !IsCheesecake(product)
  }

  /** The two filters of outputMenuDiff (index.js:84-87) split a list: each part keeps
      the list's order, the parts have no element in common, and together they hold
      every product exactly as often as the list does. */
  lemma CheesecakePartition(products: seq<Product>)
    ensures |Filter(IsCheesecake, products)| + |Filter(IsNotCheesecake, products)| == |products|
    ensures multiset(Filter(IsCheesecake, products)) + multiset(Filter(IsNotCheesecake, products))
            == multiset(products)
    ensures IsSubsequence(Filter(IsCheesecake, products), products)
    ensures IsSubsequence(Filter(IsNotCheesecake, products), products)
    ensures forall p :: p in Filter(IsCheesecake, products) ==> p !in Filter(IsNotCheesecake, products)
  {
    FilterPartition(IsCheesecake, IsNotCheesecake, products);
    FilterIsSubsequence(IsCheesecake, products);
    FilterIsSubsequence(IsNotCheesecake, products);
    FilterMembers(IsCheesecake, products);
    FilterMembers(IsNotCheesecake, products);
  }

  const FreshStrawberryDescription :=
    "The Original Topped " + "with Glazed Fresh " + "Strawberries. Our " + "Most Popular Flavor " + "for over 40 Years!"

  /** The record getCheesecakes always appends. It has neither subcategory nor image. */
  const FreshStrawberry := Product(
    "Fresh Strawberry",
    FreshStrawberryDescription,
    None,
    "Cheesecakes & Specialty Desserts",
    None)

  /** getCheesecakes: the cheesecakes of products in their order, then Fresh Strawberry. */
  function GetCheesecakes(products: seq<Product>): (cheesecakes: seq<Product>)
    ensures |cheesecakes| == |Filter(IsCheesecake, products)| + 1
    ensures cheesecakes[|cheesecakes| - 1] == FreshStrawberry
    ensures IsSubsequence(cheesecakes[..|cheesecakes| - 1], products)
    ensures forall p :: p in cheesecakes[..|cheesecakes| - 1] <==> p in products && IsCheesecake(p)
  {
    FilterIsSubsequence(IsCheesecake, products);
    FilterMembers(IsCheesecake, products);
    var filtered := Filter(IsCheesecake, products);
    assert (filtered + [FreshStrawberry])[..|filtered|] == filtered;
    filtered + [FreshStrawberry]
  }

  /** No letter c, in either case, anywhere in s. */
  predicate LacksLetterC(s: string) {
    forall i :: 0 <= i < |s| ==> s[i] != 'c' && s[i] != 'C'
  }

  /** A string with no letter c in either case cannot mention the keyword. */
  lemma NoLetterC(s: string)
    requires LacksLetterC(s)
    ensures !ContainsKeyword(s)
  {
    if exists i: nat :: KeywordAt(s, i) {
      var i: nat :| KeywordAt(s, i);
      assert LowerChar(s[i]) == Keyword[0];
    }
  }

  lemma LacksLetterCAppend(a: string, b: string)
    requires LacksLetterC(a) && LacksLetterC(b)
    ensures LacksLetterC(a + b)
  {
    forall i | 0 <= i < |a + b| ensures (a + b)[i] != 'c' && (a + b)[i] != 'C' {
      if i >= |a| { assert (a + b)[i] == b[i - |a|]; }
    }
  }

  lemma DescriptionLacksLetterC()
    ensures LacksLetterC(FreshStrawberryDescription)
  {
    var a, b, e, f, g := "The Original Topped ", "with Glazed Fresh ", "Strawberries. Our ", "Most Popular Flavor ", "for over 40 Years!";
    assert LacksLetterC(a) && LacksLetterC(b) && LacksLetterC(e) && LacksLetterC(f) && LacksLetterC(g);
    LacksLetterCAppend(a, b);
    LacksLetterCAppend(a + b, e);
    LacksLetterCAppend(a + b + e, f);
    LacksLetterCAppend(a + b + e + f, g);
  }

  /** A string shorter than the keyword cannot mention it. */
  lemma TooShort(s: string)
    requires |s| < |Keyword|
    ensures !ContainsKeyword(s)
  {
  }

  /** The appended record is not itself a cheesecake by the classifier's own test:
      neither its name nor its description contains the keyword. */
  lemma FreshStrawberryIsNotClassified()
    ensures !IsCheesecake(FreshStrawberry)
  {
    NoLetterC(FreshStrawberry.name);
    DescriptionLacksLetterC();
    NoLetterC(FreshStrawberryDescription);
  }

  /** Keyword in the name and in the category: a cheesecake. */
  lemma ChocolateCheesecakeIsCheesecake(description: string, image: Option<string>)
    ensures IsCheesecake(Product("Chocolate Cheesecake", description, None, "Cheesecakes", image))
  {
    assert KeywordAt("Chocolate Cheesecake", 10);
    assert KeywordAt("Cheesecakes", 0);
  }

  /** Neither the name nor the category holds the keyword: not a cheesecake. */
  lemma ChocolateCakeIsNot(description: string, image: Option<string>)
    ensures !IsCheesecake(Product("Chocolate Cake", description, None, "Cakes", image))
  {
    TooShort("Cakes");
  }

  /** The name names the keyword but the category does not: not a cheesecake. */
  lemma CheesecakeSamplerIsNot(description: string, image: Option<string>)
    ensures !IsCheesecake(Product("Cheesecake Sampler", description, None, "Appetizers", image))
  {
    NoLetterC("Appetizers");
  }
}
