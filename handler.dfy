/** The run (handler, index.js:19-46) as a trace of its side effects: build the
    catalog, diff it against the stored one, stop if the guardrail fires, announce,
    then store the new catalog. The menu fetch, the stored catalog and the answers of
    the Twitter service are inputs; the effects are what the run hands to the outside. */
module Handler {
  import opened Seqs
  import opened Products
  import opened Catalog
  import opened Diff
  import opened Guardrail
  import opened Announce

  /** One side effect: a createTweet call, or the write of the catalog to storage. */
  datatype Effect = Post(tweet: Tweet) | Store(catalog: seq<Product>)

  /** Why a run failed: the menu could not be fetched (network error or a status
      above 299, index.js:53-56), the delta was too large (index.js:35-37), or the
      Twitter service rejected a message. */
  datatype RunError = SourceUnavailable | GuardrailExceeded | PostingFailure

  /** What the handler passes to its callback: the new catalog, or the error. */
  datatype Outcome = Success(products: seq<Product>) | Failure(error: RunError)

  datatype Run = Run(effects: seq<Effect>, outcome: Outcome)

  function PostOf(t: Tweet): Effect {
    Post(t)
  }

  /** The run after getProducts has returned the catalog `products`. `rejected` is the
      index of the first createTweet call the Twitter service rejects, if any. */
  function Publish(products: seq<Product>, lastReadProducts: seq<Product>, rejected: Option<nat>): (r: Run)
    ensures r.outcome == Failure(GuardrailExceeded)
        <==> IsOutsideGuardrails(DiffProducts(lastReadProducts, products))
    ensures r.outcome == Failure(GuardrailExceeded) ==> r.effects == []
    ensures r.outcome.Failure? ==> forall e :: e in r.effects ==> e.Post?
    ensures r.outcome.Success? ==>
      r.outcome.products == products && r.effects != [] && r.effects[|r.effects| - 1] == Store(products)
    ensures |r.effects| <= 2 * MaxMenuDelta + 1
  {
    var productDelta := DiffProducts(lastReadProducts, products);
    if IsOutsideGuardrails(productDelta) then Run([], Failure(GuardrailExceeded))
    else
      GuardedRunPostsAtMostTwenty(productDelta);
      var tweets := Announcements(productDelta);
      if rejected.Some? && rejected.value < |tweets| then
        Run(Map(PostOf, tweets[..rejected.value]), Failure(PostingFailure))
      else
        Run(Map(PostOf, tweets) + [Store(products)], Success(products))
  }

  /** handler. `fetched` is the parsed menu, or None when the fetch failed. */
  function Handle(fetched: Option<FullMenu>, lastReadProducts: seq<Product>, rejected: Option<nat>): (r: Run)
    ensures fetched.None? ==> r == Run([], Failure(SourceUnavailable))
    ensures r.outcome.Success? ==> fetched.Some? && r.outcome.products == CatalogOf(fetched.value)
    ensures r.outcome.Failure? ==> forall e :: e in r.effects ==> e.Post?
    ensures |r.effects| <= 2 * MaxMenuDelta + 1
  {
    match fetched
    case None => Run([], Failure(SourceUnavailable))
    case Some(fullMenu) => Publish(CatalogOf(fullMenu), lastReadProducts, rejected)
  }

  /** The guardrail is checked before any post and before the write: when it fires,
      the run has no effect at all and the stored catalog stays as it was. */
  lemma GuardrailBeforeAnyEffect(fullMenu: FullMenu, lastReadProducts: seq<Product>, rejected: Option<nat>)
    requires IsOutsideGuardrails(DiffProducts(lastReadProducts, CatalogOf(fullMenu)))
    ensures Handle(Some(fullMenu), lastReadProducts, rejected) == Run([], Failure(GuardrailExceeded))
  {
  }

  /** A run that has any effect at all passed the guardrail. */
  lemma EffectsOnlyWithinGuardrails(fetched: Option<FullMenu>, lastReadProducts: seq<Product>, rejected: Option<nat>)
    requires Handle(fetched, lastReadProducts, rejected).effects != []
    ensures fetched.Some?
    ensures !IsOutsideGuardrails(DiffProducts(lastReadProducts, CatalogOf(fetched.value)))
  {
  }

  /** A successful run posts every announcement, in order, and then stores exactly
      the catalog it built, which it also returns. */
  lemma SuccessfulRun(fetched: Option<FullMenu>, lastReadProducts: seq<Product>, rejected: Option<nat>)
    requires Handle(fetched, lastReadProducts, rejected).outcome.Success?
    ensures fetched.Some?
    ensures var products := CatalogOf(fetched.value);
      var tweets := Announcements(DiffProducts(lastReadProducts, products));
      && Handle(fetched, lastReadProducts, rejected).outcome == Success(products)
      && Handle(fetched, lastReadProducts, rejected).effects == Map(PostOf, tweets) + [Store(products)]
  {
  }

  /** A rejected message stops the run: the messages before it stay posted, nothing
      after it is posted and the catalog is not stored. */
  lemma RejectedPostStopsRun(fetched: Option<FullMenu>, lastReadProducts: seq<Product>, rejected: Option<nat>)
    requires Handle(fetched, lastReadProducts, rejected).outcome == Failure(PostingFailure)
    ensures fetched.Some? && rejected.Some?
    ensures var tweets := Announcements(DiffProducts(lastReadProducts, CatalogOf(fetched.value)));
      && rejected.value < |tweets|
      && Handle(fetched, lastReadProducts, rejected).effects == Map(PostOf, tweets[..rejected.value])
    ensures forall e :: e in Handle(fetched, lastReadProducts, rejected).effects ==> e.Post?
  {
  }

  /** Running again on an unchanged menu announces nothing and rewrites the same
      catalog. */
  lemma RerunIsQuiet(products: seq<Product>, rejected: Option<nat>)
    ensures Publish(products, products, rejected) == Run([Store(products)], Success(products))
  {
    DiffSelf(products);
    assert Announcements(Delta([], [])) == [];
  }

  /** A whole run: the stored catalog holds Apple Pie, the new one Apple Pie and
      New Cheesecake (filed under Cheesecakes). One message is
      posted, with the new-cheesecake template, and the new catalog is stored as is. */
  lemma AddedCheesecakeRun(oldPie: Product, newPie: Product, cake: Product)
    requires oldPie.name == newPie.name == "Apple Pie"
    requires cake.name == "New Cheesecake" && cake.category == "Cheesecakes"
    ensures Publish([newPie, cake], [oldPie], None)
         == Run([Post(AddedCheesecakeTweet(cake)), Store([newPie, cake])], Success([newPie, cake]))
  {
    AppleAndCheesecakeDiff(oldPie, newPie, cake);
    OneCheesecakeAnnounced(cake);
    assert Map(PostOf, [AddedCheesecakeTweet(cake)]) == [Post(AddedCheesecakeTweet(cake))];
  }

  lemma OneCheesecakeAnnounced(cake: Product)
    requires cake.name == "New Cheesecake" && cake.category == "Cheesecakes"
    ensures Announcements(Delta([cake], [])) == [AddedCheesecakeTweet(cake)]
  {
    assert Classifier.IsCheesecake(cake) by {
      assert Classifier.KeywordAt(cake.name, 4);
      assert Classifier.KeywordAt(cake.category, 0);
    }
    assert [cake][..0] == [];
  }

  lemma AppleAndCheesecakeDiff(oldPie: Product, newPie: Product, cake: Product)
    requires oldPie.name == newPie.name == "Apple Pie" && cake.name == "New Cheesecake"
    ensures DiffProducts([oldPie], [newPie, cake]) == Delta([cake], [])
  {
    assert Names([oldPie]) == ["Apple Pie"];
    assert Names([newPie, cake]) == ["Apple Pie", "New Cheesecake"];
    assert Without(["Apple Pie"], ["Apple Pie", "New Cheesecake"]) == [] by {
      WithoutSnoc(["Apple Pie"], ["Apple Pie", "New Cheesecake"]);
    }
    assert Without(["Apple Pie", "New Cheesecake"], ["Apple Pie"]) == ["New Cheesecake"] by {
      WithoutSnoc(["Apple Pie", "New Cheesecake"], ["Apple Pie"]);
      assert ["Apple Pie", "New Cheesecake"][..1] == ["Apple Pie"];
      WithoutSnoc(["Apple Pie"], ["Apple Pie"]);
    }
    IndexOfUnique(["Apple Pie", "New Cheesecake"], "New Cheesecake", 1);
  }
}
