/**
 The product record returned by the listing endpoint, and the field-equality
 constraints the product table can apply to it.
 */
module Catalog {

  /** One product. JavaScript numbers are modelled as `real`, except the
      identifier and the stock count, which are whole numbers. */
  datatype ProductItem = ProductItem(
    id: int,
    title: string,
    description: string,
    price: real,
    discountPercentage: real,
    rating: real,
    stock: int,
    brand: string,
    category: string,
    thumbnail: string,
    images: seq<string>)

  /** The scalar fields of a product, by name. */
  datatype FieldKey =
    | Id | Title | Description | Price | DiscountPercentage | Rating
    | Stock | Brand | Category | Thumbnail

  /** A scalar JavaScript value a field can hold. */
  datatype FieldValue = Num(n: real) | Str(s: string)

  /** `item[key]` for a scalar field. */
  function FieldOf(item: ProductItem, key: FieldKey): FieldValue {
    match key
    case Id => Num(item.id as real)
    case Title => Str(item.title)
    case Description => Str(item.description)
    case Price => Num(item.price)
    case DiscountPercentage => Num(item.discountPercentage)
    case Rating => Num(item.rating)
    case Stock => Num(item.stock as real)
    case Brand => Str(item.brand)
    case Category => Str(item.category)
    case Thumbnail => Str(item.thumbnail)
  }

  /** The extra filters: each entry requires one field to equal one value. */
  type AppliedFilters = map<FieldKey, FieldValue>

  /** The extra filters the product table holds: always the empty object. */
  const NoFilters: AppliedFilters := map[]
}
