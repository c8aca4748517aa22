/** The parts of the Cloud Search connector SDK the repository talks to, as plain values. */
module CloudSearchSdk {
  import opened DropBoxModel

  /** A polled index item: its name and the bytes `Item.decodePayload` yields. */
  datatype Item = Item(name: string, payload: seq<byte>)

  /** A `PushItem` whose payload was set with `encodePayload` (the base64 transport
      encoding is not modelled: the payload is kept as bytes). */
  datatype PushItem = PushItem(payload: seq<byte>)

  /** One `addPushItem(name, pushItem)` call recorded by `PushItems.Builder`. */
  datatype PushEntry = PushEntry(name: string, item: PushItem)

  /** The operations the repository hands back to the SDK. */
  datatype ApiOperation =
    | PushItems(entries: seq<PushEntry>)
    | DeleteItem(name: string)

  /** A `CheckpointCloseableIterable` built without a checkpoint: only its operations. */
  datatype CheckpointIterable = CheckpointIterable(operations: seq<ApiOperation>)

  datatype RepositoryException = RepositoryException(errorMessage: string, cause: SdkError)
}
