/** The records the server reads from and writes to the e-commerce
    platform, restricted to the fields it uses. */
module Shop {
  import opened Wrappers

  datatype Image = Image(id: int, alt: string)

  /** A product as the platform delivers it; `tags` is the comma-separated
      tag field, absent (`None`) when the platform sends none. */
  datatype Product = Product(
    id: int,
    title: string,
    bodyHtml: string,
    images: seq<Image>,
    tags: Option<string>)

  /** A namespaced metadata entry attached to a product. */
  datatype Metafield = Metafield(namespace: string, key: string, value: string)
}
