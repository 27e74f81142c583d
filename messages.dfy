/**
 * The messages exchanged with Subzero, as plain values: the protobuf
 * `CommandRequest` and `CommandResponse` envelopes, reduced to the fields the
 * cold-wallet ceremony reads or writes.
 */
module Messages {
  import opened Bytes

  /**
   * A correlation token: an opaque string, compared by exact equality. Its
   * characters are Unicode scalar values, so a Java String holding an
   * unpaired surrogate has no counterpart here.
   */
  type Token = string

  /** A Java `int`. */
  newtype Int32 = x: int | -0x8000_0000 <= x < 0x8000_0000

  /** One element's public key, encrypted under that element's protection; never inspected here. */
  datatype EncryptedPubKey = EncryptedPubKey(encryptedPubKey: seq<byte>)

  /** The request's oneof: InitWallet carries no fields, FinalizeWallet the collected keys. */
  datatype RequestPayload =
    | InitWallet
    | FinalizeWallet(encryptedPubKeys: seq<EncryptedPubKey>)

  datatype CommandRequest = CommandRequest(token: Token, walletId: Int32, payload: RequestPayload)

  /**
   * The response's oneof, as far as this code reads it: the finalize response
   * with its public-key bytes, or any other case (including none set).
   */
  datatype ResponsePayload =
    | FinalizeWalletResponse(pubKey: seq<byte>)
    | OtherResponse

  datatype CommandResponse = CommandResponse(token: Token, payload: ResponsePayload)
}
