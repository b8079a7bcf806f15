/** Values shared by the catalogue components: the product record and the
    column descriptor the header is built from, and an Option type for
    results that may be absent. The product fields are those the components
    read; how the records are fetched is outside this model. */
module Types {

  datatype Option<T> = None | Some(value: T)

  function Min(a: int, b: int): (m: int)
    ensures m <= a && m <= b && (m == a || m == b)
  {
    if a <= b then a else b
  }

  function Max(a: int, b: int): (m: int)
    ensures m >= a && m >= b && (m == a || m == b)
  {
    if a <= b then b else a
  }

  datatype Review = Review(reviewerName: string, comment: string)

  datatype Product = Product(
    id: int,
    title: string,
    description: string,
    price: real,
    category: string,
    images: seq<string>,
    tags: seq<string>,
    reviews: seq<Review>)

  /** A table column: `key` selects the sort button, `caption` is the label shown. */
  datatype Column = Column(key: string, caption: string)
}
