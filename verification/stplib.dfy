/** The image metadata record the application reads from its table. The
    record type belongs to the `stplib` package, which is not part of this
    model; only the fields the application uses are kept. */
module Stplib {

  /** One uploaded image. `fileName` is the table's key; the two paths are
      object keys in the bucket. The creation time is reduced to an integer
      timestamp (`time.Time` ordering becomes integer ordering). */
  datatype ImgInfo = ImgInfo(
    fileName: string,
    orgPath: string,
    resizedFilePath: string,
    createdAt: int)

  /** `a.CreatedAt.After(b.CreatedAt)`: `a` was created strictly later. */
  predicate After(a: ImgInfo, b: ImgInfo) {
    a.createdAt > b.createdAt
  }
}
