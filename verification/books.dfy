/** The validated record a listing becomes. */
module Books {
  import opened Wrappers

  /** One book: its title, its price (a real number in place of Python's
      float), its star rating and its absolute link. */
  datatype Book = Book(title: string, price: real, rating: int, url: string)

  /** The record type's field constraints: a non-negative price and a rating
      from 0 to 5. */
  predicate Valid(b: Book) {
    b.price >= 0.0 && 0 <= b.rating <= 5
  }

  /** Constructing a record: the record itself when both constraints hold,
      and `None` (a validation error) otherwise. */
  function MakeBook(title: string, price: real, rating: int, url: string): (r: Option<Book>)
    ensures r.Some? <==> price >= 0.0 && 0 <= rating <= 5
    ensures r.Some? ==> Valid(r.value)
    ensures r.Some? ==> r.value.title == title && r.value.price == price
    ensures r.Some? ==> r.value.rating == rating && r.value.url == url
  {
    var b := Book(title, price, rating, url);
    if Valid(b) then Some(b) else None
  }
}
