/** The reference carried in the payload of every queued index item: a tagged pair
    (object type, team member id), as built by `DropBoxObject.Builder`.
    The byte format of the payload is not part of this model: encoding, decoding and the
    validity check are supplied as a `PayloadCodec`, so every statement below holds for
    any codec whatsoever. */
module DropBoxModel {
  import opened Wrappers

  newtype byte = x: int | 0 <= x < 256

  /** `DropBoxObject.MEMBER` and every other tag a decoded payload may carry. */
  datatype ObjectType = Member | Unrecognized(tag: string)

  datatype DropBoxObject = DropBoxObject(objectType: ObjectType, teamMemberId: string)

  /** Errors raised by the Dropbox SDK (`DbxException`) and by payload (de)serialisation
      (`IOException`). */
  datatype SdkError = DbxException(message: string) | IOException(message: string)

  /** `DropBoxObject.encodePayload`, `DropBoxObject.decodePayload` and
      `DropBoxObject.isValid`, left uninterpreted. */
  datatype PayloadCodec = PayloadCodec(
    encodePayload: DropBoxObject -> Result<seq<byte>, SdkError>,
    decodePayload: seq<byte> -> Result<DropBoxObject, SdkError>,
    isValid: DropBoxObject -> bool)

  /** The reference `getIds` builds for a team member. */
  function MemberObject(teamMemberId: string): DropBoxObject
  {
    DropBoxObject(Member, teamMemberId)
  }
}
