/** The error values the record layer produces (xmtp/src/storage/errors.rs). */
module Errors {

  /** Failure of the contact crate to (de)serialise a public bundle; its
      contents are not interpreted here. */
  datatype ContactError = ContactError(reason: string)

  /** The variants of `StorageError` that the modelled operations return:
      `DieselResultError` wraps a failed statement (converted by `#[from]`
      when `?` propagates a `diesel::result::Error`), and `Store` carries the
      message of a failed model conversion. */
  datatype StorageError =
    | DieselResultError(reason: string)
    | Store(message: string)
}
