/** What a service hands to the paginator: the ordered query, the page number and the page size. */
module Pagination {
  datatype PageRequest<T> = PageRequest(items: seq<T>, page: int, perPage: nat)
}
