/** The safety valve (isOutsideGuardrails, index.js:135-145): a run whose delta is
    implausibly large is refused before anything is posted or stored. */
module Guardrail {
  import opened Diff

  /** MAX_MENU_DELTA (index.js:15). */
  const MaxMenuDelta := 10

  /** The removed list is checked first, then the added list; either one strictly
      longer than the threshold puts the delta outside the guardrails. */
  function IsOutsideGuardrails(productDelta: Delta): (outside: bool)
    ensures outside <==> |productDelta.removed| > MaxMenuDelta || |productDelta.added| > MaxMenuDelta
    ensures !outside ==> |productDelta.removed| + |productDelta.added| <= 2 * MaxMenuDelta
  {
    if |productDelta.removed| > MaxMenuDelta then true
    else if |productDelta.added| > MaxMenuDelta then true
    else false
  }

  /** The threshold itself is allowed: ten additions and ten removals pass. */
  lemma AtThresholdIsWithin(productDelta: Delta)
    requires |productDelta.added| == 10 && |productDelta.removed| == 10
    ensures !IsOutsideGuardrails(productDelta)
  {
  }

  /** One over the threshold on either side is refused, whatever the other side holds. */
  lemma OverThresholdIsOutside(productDelta: Delta)
    requires |productDelta.removed| == 11 || |productDelta.added| == 11
    ensures IsOutsideGuardrails(productDelta)
  {
  }

  /** Shrinking either list never turns an accepted delta into a refused one. */
  lemma GuardrailMonotone(big: Delta, small: Delta)
    requires |small.added| <= |big.added| && |small.removed| <= |big.removed|
    ensures IsOutsideGuardrails(small) ==> IsOutsideGuardrails(big)
  {
  }

  /** An unchanged menu is always within the guardrails. */
  lemma UnchangedMenuIsWithin(products: seq<Products.Product>)
    ensures !IsOutsideGuardrails(DiffProducts(products, products))
  {
    DiffSelf(products);
  }
}
