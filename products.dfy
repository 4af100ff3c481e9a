/** The normalised product record that the bot stores, diffs and announces
    (the objects built at index.js:68-74 and persisted between runs). */
module Products {

  datatype Option<T> = None | Some(value: T)

  /** One menu item. subcategory and image are optional because the hand-written
      "Fresh Strawberry" record of getCheesecakes has neither. */
  datatype Product = Product(
    name: string,
    description: string,
    subcategory: Option<string>,
    category: string,
    image: Option<string>)
}
