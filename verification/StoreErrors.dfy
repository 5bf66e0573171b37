/** The errors a prepared content store can fail to load with. */
module StoreErrors {
  datatype StoreError = NotFound | BackendUnavailable

  datatype StoreLoadError =
    | ReadFailed
    | BackendReadFailed(cause: StoreError)
    | JsonMalformed
    | ManifestFieldMissing
    | ViewFieldMissing
    | ManifestTimeInvalid
    | ManifestLifetimeTooLong
    | ManifestExpired
    | ManifestSequenceInvalid
    | DuplicateViewUrl
    | InvalidViewUrl
}
