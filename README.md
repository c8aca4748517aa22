# Dropbox connector for Cloud Search: member enumeration and payload triage

This project models, in Dafny, the two pieces of logic in the connector's
`DropBoxRepository`:

- **`getIds`** lists the Dropbox team members. It keeps those whose team member id is in
  the configured allow-list `teamMemberIds`, or every member when that list is empty. For each
  kept member it adds one push item to a `PushItems` batch. The push item is named by the
  member's display name and carries the encoded reference (`MEMBER`, team member id). Any
  `DbxException` or `IOException` aborts the call with a `RepositoryException`
  ("Failed to get user IDs") whose cause is that error, so no partial batch is returned. On
  success the call returns exactly one operation, the batch.
- **`getDoc`** decodes a polled item's payload into a `DropBoxObject`. If decoding fails, or
  the object is not valid, it returns a delete operation for that item's name. Otherwise it
  returns `null`, because the branch on the object type is empty.

Layout:

- `wrappers.dfy` (`Wrappers`): `Option` for Java's `null` returns, `Result` for checked exceptions.
- `dropbox_model.dfy` (`DropBoxModel`): the reference type `DropBoxObject` and `PayloadCodec`.
  `PayloadCodec` is a record of three function values: `encodePayload`, `decodePayload` and
  `isValid`. Their source is not part of this model, so they stay uninterpreted and every
  result holds for any codec.
- `cloud_search_sdk.dfy` (`CloudSearchSdk`): the SDK values the repository produces or
  receives (`Item`, `PushItem`, `PushItems`/`DeleteItem`, the checkpoint iterable, the
  exception), as plain datatypes.
- `dropbox_repository.dfy` (`Contents`): the class `DropBoxRepository` with its two fields.
  The class has the imperative `GetIds`, a `for` loop with `continue` that appends to an
  accumulating sequence the way `addPushItem` fills the builder. `GetIds` is proved equal to
  the reference definition `GetIdsSpec`, which filters with `Kept` and then maps with
  `EncodeAll`. The class also has the function `GetDoc`. Lemmas state what `getIds` promises
  about that reference definition.

`GetIds` has no `modifies` clause, so the verifier also checks that it never changes
`teamMemberIds` or `teamClient`. `GetDoc` is a function of the item and the codec, so calling
it twice on the same invalid item gives the same delete.

A reference is meant to be valid exactly when its kind is recognised and its id is non-empty,
and decoding is meant to undo encoding for valid references. The code of `isValid` and of the
codec is not part of this model, so no definition here relies on either. Two lemmas take parts
of that design as explicit hypotheses about the codec:

- `PushedItemsAreNotDeleted` assumes that a valid reference that encodes decodes back to itself,
  and that every member reference with a non-empty id is valid.
- `EmptyIdIsPushedThenDeleted` assumes that the member reference with an empty id is not valid,
  and that decoding an encoded payload never yields a different reference.

`getIds` does not check a reference before pushing it. A kept member whose id is empty is
therefore pushed, and `getDoc` deletes it when it is polled.

## Model

| member | source | states |
|---|---|---|
| `Contents.Kept` | src/main/java/com/google/enterprise/cloudsearch/dropbox/contents/DropBoxRepository.java:87-93 | Soundness of the allow-list filter: every kept member was listed and passes the rule (allow-list empty, or containing its id). At most as many members are kept as were listed. |
| `Contents.KeptComplete` | src/main/java/com/google/enterprise/cloudsearch/dropbox/contents/DropBoxRepository.java:91-93 | Completeness of the filter: every listed member whose id the rule admits is kept. |
| `Contents.KeptEverything` | src/main/java/com/google/enterprise/cloudsearch/dropbox/contents/DropBoxRepository.java:91 | With an empty allow-list every listed member is kept, in listing order. |
| `Contents.KeptAppend` | src/main/java/com/google/enterprise/cloudsearch/dropbox/contents/DropBoxRepository.java:87-93 | Order preservation: filtering a concatenation of two listings gives the first part's kept members followed by the second part's. |
| `Contents.KeptExtend` | src/main/java/com/google/enterprise/cloudsearch/dropbox/contents/DropBoxRepository.java:87-93 | One more listed member adds itself to the kept members if the rule admits it, and nothing otherwise (the `continue`). |
| `Contents.EncodeAll` | src/main/java/com/google/enterprise/cloudsearch/dropbox/contents/DropBoxRepository.java:95-101 | A successful encoding of the kept members yields exactly one push entry per member. |
| `Contents.EncodeAllSucceeds` | src/main/java/com/google/enterprise/cloudsearch/dropbox/contents/DropBoxRepository.java:95-101 | Encoding succeeds if and only if every member's (MEMBER, id) reference encodes. Entry j is then named by member j's display name and carries member j's payload. |
| `Contents.EncodeAllAppend` | src/main/java/com/google/enterprise/cloudsearch/dropbox/contents/DropBoxRepository.java:87-108 | Encoding a concatenation means encoding its parts in sequence: the first part's error wins, then the second's; otherwise the entries are concatenated. |
| `Contents.EncodeAllFirstError` | src/main/java/com/google/enterprise/cloudsearch/dropbox/contents/DropBoxRepository.java:99-108 | A failed encoding reports the error of the first member whose reference fails to encode; all members before it encoded. |
| `Contents.GetIdsStep` | src/main/java/com/google/enterprise/cloudsearch/dropbox/contents/DropBoxRepository.java:87-102 | One loop iteration that does not fail. A skipped member leaves the encoded entries unchanged. A kept member whose reference encodes appends its entry. |
| `Contents.GetIdsAbort` | src/main/java/com/google/enterprise/cloudsearch/dropbox/contents/DropBoxRepository.java:99-108 | The iteration that fails. After a prefix that encoded, a kept member whose reference fails to encode makes the whole call fail with that member's error. |
| `Contents.DropBoxRepository.GetIds` | src/main/java/com/google/enterprise/cloudsearch/dropbox/contents/DropBoxRepository.java:79-115 | The loop returns exactly `GetIdsSpec` of the repository's allow-list, the member listing and the codec: the filter-then-encode reference definition, including the listing error and the first encoding error. |
| `Contents.GetIdsBatch` | src/main/java/com/google/enterprise/cloudsearch/dropbox/contents/DropBoxRepository.java:87-114 | On success, exactly one operation is returned, a `PushItems` batch. It has one entry per kept member, in listing order, with no more entries than listed members. Entry j is named by kept member j's display name and carries the encoding of (MEMBER, that member's id). |
| `Contents.GetIdsFailure` | src/main/java/com/google/enterprise/cloudsearch/dropbox/contents/DropBoxRepository.java:84-108 | The call fails if and only if listing fails or some kept member's reference fails to encode. The exception has the message "Failed to get user IDs" and its cause is the listing error or the first encoding error. No batch is returned. |
| `Contents.GetIdsEmptyAllowList` | src/main/java/com/google/enterprise/cloudsearch/dropbox/contents/DropBoxRepository.java:91-101 | With an empty allow-list, a successful call yields exactly one entry per listed member, in listing order. Entry j carries member j's display name and the encoding of (MEMBER, member j's id). |
| `Contents.GetIdsAllowList` | src/main/java/com/google/enterprise/cloudsearch/dropbox/contents/DropBoxRepository.java:91-93 | With a non-empty allow-list, a listed member is kept if and only if its id is in the allow-list; every other member is skipped. |
| `Contents.GetIdsAllowedMemberPushed` | src/main/java/com/google/enterprise/cloudsearch/dropbox/contents/DropBoxRepository.java:91-101 | On success, every listed member that the allow-list admits has its entry in the batch: its display name and the encoding of (MEMBER, its id). |
| `Contents.DropBoxRepository.GetDoc` | src/main/java/com/google/enterprise/cloudsearch/dropbox/contents/DropBoxRepository.java:146-172 | Returns an operation if and only if the payload fails to decode or decodes to an invalid reference. That operation is always the delete of exactly `item.getName()`. A valid reference yields no operation (`null`) whatever its object type. |
| `Contents.DropBoxRepository.Init` | src/main/java/com/google/enterprise/cloudsearch/dropbox/contents/DropBoxRepository.java:61-65 | After initialisation the allow-list is the configured one and the client is the one built from the configured credential file. |
| `Contents.PushedItemsAreNotDeleted` | src/main/java/com/google/enterprise/cloudsearch/dropbox/contents/DropBoxRepository.java:95-101 | Connects `getIds` with `getDoc`. Hypotheses: a valid reference that encodes decodes back to itself, and member references with a non-empty id are valid. Then polling batch entry j, pushed for kept member j with a non-empty id, yields no operation: that item is not deleted. |
| `Contents.EmptyIdIsPushedThenDeleted` | src/main/java/com/google/enterprise/cloudsearch/dropbox/contents/DropBoxRepository.java:95-159 | A kept member with an empty id is pushed under its display name. Hypotheses: the empty-id member reference is not valid, and decoding never yields a reference other than the one encoded. Then polling that entry yields the delete of exactly that item. |

## Left out

- Configuration loading and client construction in `init` are I/O and foreign SDK calls. The
  constructor takes their results, the allow-list and the credential file, as arguments.
- `teamClient.getMembers()` is a network call. `GetIds` receives its outcome (the member list
  or a `DbxException`) as the `listing` argument.
- `teamClient.asMember(...)` in `getDoc` is a network client call whose result is unused. It
  is not modelled.
- The byte format of `DropBoxObject` payloads and the code of `isValid` are not part of this
  model. They are uninterpreted `PayloadCodec` functions, so no round-trip is claimed.
- The base64 transport encoding done by `PushItem.encodePayload` and `Item.decodePayload` is
  not modelled. The payload travels as bytes.
- The checkpoint argument of `getIds` is ignored by the source and by the model, and the
  returned iterable carries no checkpoint.
- `getChanges`, `getAllDocs`, `exists` and `close` are not modelled. They contain no logic,
  only the constant returns `null`, `null`, `false` and nothing.
- Logging calls have no behavioural effect and are not modelled.
- Unchecked Java exceptions (a null allow-list, a runtime failure in the SDK) are not
  modelled. The allow-list is a sequence, never null.
- `Item` is reduced to its name and payload, the two fields `getDoc` reads.
