/** The one-byte indices that the pooled lists use for links, with the null index. */
module Indices {
  type Index = i: int | 0 <= i <= 255

  const NULL: Index := 255
}
