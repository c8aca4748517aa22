/** `DropBoxRepository`: member enumeration (`getIds`) and payload triage (`getDoc`). */
module Contents {
  import opened Wrappers
  import opened DropBoxModel
  import opened CloudSearchSdk

  /** The two fields of a listed `TeamMemberInfo` profile the repository reads. */
  datatype TeamMember = TeamMember(teamMemberId: string, displayName: string)

  /** Opaque handle built by `DropBoxClientFactory.getTeamClient` from the credential file. */
  datatype TeamClient = TeamClient(credentialFile: string)

  const GetIdsFailureMessage: string := "Failed to get user IDs"

  // ---------------------------------------------------------------------------
  // Specification of getIds: filter the members by the allow-list, then encode
  // each kept member; the first error aborts the whole call.
  // ---------------------------------------------------------------------------

  /** The allow-list rule: an empty allow-list keeps everyone. */
  predicate Keep(allowList: seq<string>, teamMemberId: string) {
    |allowList| == 0 || teamMemberId in allowList
  }

  /** The members that pass the allow-list, in listing order. */
  function Kept(allowList: seq<string>, members: seq<TeamMember>): (kept: seq<TeamMember>)
    ensures |kept| <= |members|
    ensures forall m :: m in kept ==> m in members && Keep(allowList, m.teamMemberId)
  {
    if members == [] then []
    else if Keep(allowList, members[0].teamMemberId) then [members[0]] + Kept(allowList, members[1..])
    else Kept(allowList, members[1..])
  }

  /** The push entry for a member whose reference encoded to `payload`. */
  function EntryFor(m: TeamMember, payload: seq<byte>): PushEntry {
    PushEntry(m.displayName, PushItem(payload))
  }

  /** Encodes the reference of every member in order; the first encoding error is the result. */
  function EncodeAll(members: seq<TeamMember>, codec: PayloadCodec): (r: Result<seq<PushEntry>, SdkError>)
    ensures r.Success? ==> |r.value| == |members|
  {
    if members == [] then Success([])
    else
      match codec.encodePayload(MemberObject(members[0].teamMemberId))
      case Failure(e) => Failure(e)
      case Success(payload) =>
        match EncodeAll(members[1..], codec)
        case Failure(e) => Failure(e)
        case Success(rest) => Success([EntryFor(members[0], payload)] + rest)
  }

  /** What `getIds` returns for the allow-list, the answer of `teamClient.getMembers()`
      and the payload codec. */
  function GetIdsSpec(allowList: seq<string>, listing: Result<seq<TeamMember>, SdkError>, codec: PayloadCodec)
    : Result<CheckpointIterable, RepositoryException>
  {
    match listing
    case Failure(e) => Failure(RepositoryException(GetIdsFailureMessage, e))
    case Success(members) =>
      match EncodeAll(Kept(allowList, members), codec)
      case Failure(e) => Failure(RepositoryException(GetIdsFailureMessage, e))
      case Success(entries) => Success(CheckpointIterable([PushItems(entries)]))
  }

  // ---------------------------------------------------------------------------
  // Specification of getDoc.
  // ---------------------------------------------------------------------------

  /** A payload `getDoc` can act on: it decodes, and the decoded reference is valid. */
  predicate Resolvable(codec: PayloadCodec, payload: seq<byte>) {
    codec.decodePayload(payload).Success? && codec.isValid(codec.decodePayload(payload).value)
  }

  // ---------------------------------------------------------------------------
  // The repository.
  // ---------------------------------------------------------------------------

  class DropBoxRepository {
    /** The client; its member listing reaches `GetIds` as the `listing` argument. */
    var teamClient: TeamClient
    /** Team member ids to be processed; empty means every member. */
    var teamMemberIds: seq<string>

    /** The state `init` leaves behind, given the configured allow-list and credential file. */
    constructor Init(configuredTeamMemberIds: seq<string>, credentialFile: string)
      ensures teamMemberIds == configuredTeamMemberIds
      ensures teamClient == TeamClient(credentialFile)
    {
      teamMemberIds := configuredTeamMemberIds;
      teamClient := TeamClient(credentialFile);
    }

    /** `getIds`: one `PushItems` batch holding an entry per allowed member, or a
        `RepositoryException` wrapping the first error. The repository is not changed. */
    method GetIds(checkpoint: seq<byte>, listing: Result<seq<TeamMember>, SdkError>, codec: PayloadCodec)
      returns (r: Result<CheckpointIterable, RepositoryException>)
      ensures r == GetIdsSpec(teamMemberIds, listing, codec)
    {
      if listing.Failure? {
        return Failure(RepositoryException(GetIdsFailureMessage, listing.error));
      }
      var members := listing.value;
      var entries: seq<PushEntry> := [];
      for i := 0 to |members|
        invariant EncodeAll(Kept(teamMemberIds, members[..i]), codec) == Success(entries)
      {
        var member := members[i];
        GetIdsStep(teamMemberIds, members, i, entries, codec);
        if !(|teamMemberIds| == 0 || member.teamMemberId in teamMemberIds) {
          continue;
        }
        var payload := codec.encodePayload(MemberObject(member.teamMemberId));
        if payload.Failure? {
          GetIdsAbort(teamMemberIds, members, i, entries, codec);
          return Failure(RepositoryException(GetIdsFailureMessage, payload.error));
        }
        entries := entries + [EntryFor(member, payload.value)];
      }
      assert members[..|members|] == members;
      r := Success(CheckpointIterable([PushItems(entries)]));
    }

    /** `getDoc`: deletes the item exactly when its payload is not resolvable; a resolvable
        payload yields no operation (`null`), whatever its object type. */
    function GetDoc(item: Item, codec: PayloadCodec): (r: Option<ApiOperation>)
      ensures r.Some? <==> !Resolvable(codec, item.payload)
      ensures r.Some? ==> r.value == DeleteItem(item.name)
    {
      match codec.decodePayload(item.payload)
      case Failure(_) => Some(DeleteItem(item.name))
      case Success(dropBoxObject) =>
        if !codec.isValid(dropBoxObject) then Some(DeleteItem(item.name))
        else
          match dropBoxObject.objectType
          case Member => None
          case Unrecognized(_) => None
    }
  }

  // ---------------------------------------------------------------------------
  // Lemmas about the filter.
  // ---------------------------------------------------------------------------

  /** Filtering a concatenation filters each part: kept members keep their listing order. */
  lemma {:induction false} KeptAppend(allowList: seq<string>, a: seq<TeamMember>, b: seq<TeamMember>)
    ensures Kept(allowList, a + b) == Kept(allowList, a) + Kept(allowList, b)
  {
    if a == [] {
      assert a + b == b;
    } else {
      assert (a + b)[1..] == a[1..] + b;
      KeptAppend(allowList, a[1..], b);
    }
  }

  /** Completeness: every listed member the allow-list admits is kept. */
  lemma {:induction false} KeptComplete(allowList: seq<string>, members: seq<TeamMember>, m: TeamMember)
    requires m in members
    requires |allowList| == 0 || m.teamMemberId in allowList
    ensures m in Kept(allowList, members)
  {
    if members[0] != m {
      KeptComplete(allowList, members[1..], m);
    }
  }

  /** With an empty allow-list every listed member is kept, in order. */
  lemma {:induction false} KeptEverything(members: seq<TeamMember>)
    ensures Kept([], members) == members
  {
    if members != [] {
      KeptEverything(members[1..]);
    }
  }

  /** Extending the processed prefix by one member extends the kept prefix by that member
      exactly when the allow-list admits it. */
  lemma KeptExtend(allowList: seq<string>, members: seq<TeamMember>, i: nat)
    requires i < |members|
    ensures Kept(allowList, members[..i + 1]) ==
      Kept(allowList, members[..i]) + (if Keep(allowList, members[i].teamMemberId) then [members[i]] else [])
  {
    assert members[..i + 1] == members[..i] + [members[i]];
    KeptAppend(allowList, members[..i], [members[i]]);
  }

  /** Filtering a listing equals filtering its prefix and suffix at any split point. */
  lemma KeptSplit(allowList: seq<string>, members: seq<TeamMember>, i: nat)
    requires i <= |members|
    ensures Kept(allowList, members) == Kept(allowList, members[..i]) + Kept(allowList, members[i..])
  {
    assert members == members[..i] + members[i..];
    KeptAppend(allowList, members[..i], members[i..]);
  }

  // ---------------------------------------------------------------------------
  // Lemmas about encoding.
  // ---------------------------------------------------------------------------

  /** Sequential composition of two encoding runs: the first error wins, otherwise the
      entries are concatenated. */
  function AndThen(first: Result<seq<PushEntry>, SdkError>, second: Result<seq<PushEntry>, SdkError>)
    : Result<seq<PushEntry>, SdkError>
  {
    match first
    case Failure(e) => Failure(e)
    case Success(x) =>
      match second
      case Failure(e) => Failure(e)
      case Success(y) => Success(x + y)
  }

  /** Encoding a concatenation is encoding its parts in sequence. */
  lemma {:induction false} EncodeAllAppend(a: seq<TeamMember>, b: seq<TeamMember>, codec: PayloadCodec)
    ensures EncodeAll(a + b, codec) == AndThen(EncodeAll(a, codec), EncodeAll(b, codec))
  {
    if a == [] {
      assert a + b == b;
      if EncodeAll(b, codec).Success? {
        assert [] + EncodeAll(b, codec).value == EncodeAll(b, codec).value;
      }
    } else {
      assert (a + b)[0] == a[0];
      assert (a + b)[1..] == a[1..] + b;
      EncodeAllAppend(a[1..], b, codec);
      var head := codec.encodePayload(MemberObject(a[0].teamMemberId));
      if head.Success? && EncodeAll(a[1..], codec).Success? && EncodeAll(b, codec).Success? {
        var x, y := EncodeAll(a[1..], codec).value, EncodeAll(b, codec).value;
        assert [EntryFor(a[0], head.value)] + (x + y) == ([EntryFor(a[0], head.value)] + x) + y;
      }
    }
  }

  /** Encoding succeeds exactly when every member's reference encodes, and then yields one
      entry per member, in order, named by its display name and carrying its payload. */
  lemma {:induction false} EncodeAllSucceeds(members: seq<TeamMember>, codec: PayloadCodec)
    ensures EncodeAll(members, codec).Success? <==>
      forall j :: 0 <= j < |members| ==> codec.encodePayload(MemberObject(members[j].teamMemberId)).Success?
    ensures EncodeAll(members, codec).Success? ==> forall j :: 0 <= j < |members| ==>
      EncodeAll(members, codec).value[j]
        == EntryFor(members[j], codec.encodePayload(MemberObject(members[j].teamMemberId)).value)
  {
    if members != [] {
      EncodeAllSucceeds(members[1..], codec);
      forall j | 0 < j < |members|
        ensures members[j] == members[1..][j - 1]
      {
      }
    }
  }

  /** A failed encoding reports the error of the first member whose reference fails to encode. */
  lemma {:induction false} EncodeAllFirstError(members: seq<TeamMember>, codec: PayloadCodec)
    requires EncodeAll(members, codec).Failure?
    ensures exists j :: (0 <= j < |members|
      && codec.encodePayload(MemberObject(members[j].teamMemberId)) == Failure(EncodeAll(members, codec).error)
      && forall k :: 0 <= k < j ==> codec.encodePayload(MemberObject(members[k].teamMemberId)).Success?)
  {
    var e := EncodeAll(members, codec).error;
    if codec.encodePayload(MemberObject(members[0].teamMemberId)).Failure? {
      assert codec.encodePayload(MemberObject(members[0].teamMemberId)) == Failure(e);
    } else {
      EncodeAllFirstError(members[1..], codec);
      var j :| 0 <= j < |members[1..]|
        && codec.encodePayload(MemberObject(members[1..][j].teamMemberId)) == Failure(EncodeAll(members[1..], codec).error)
        && forall k :: 0 <= k < j ==> codec.encodePayload(MemberObject(members[1..][k].teamMemberId)).Success?;
      assert forall k :: 0 <= k < j + 1 ==> codec.encodePayload(MemberObject(members[k].teamMemberId)).Success? by {
        forall k | 0 <= k < j + 1
          ensures codec.encodePayload(MemberObject(members[k].teamMemberId)).Success?
        {
          if k > 0 { assert members[k] == members[1..][k - 1]; }
        }
      }
      assert members[j + 1] == members[1..][j];
    }
  }

  /** One iteration of the `getIds` loop that does not fail: a skipped member leaves the
      encoded prefix as it is, and a kept member whose reference encodes appends its entry. */
  lemma GetIdsStep(allowList: seq<string>, members: seq<TeamMember>, i: nat, entries: seq<PushEntry>,
                   codec: PayloadCodec)
    requires i < |members|
    requires EncodeAll(Kept(allowList, members[..i]), codec) == Success(entries)
    ensures !Keep(allowList, members[i].teamMemberId) ==>
      EncodeAll(Kept(allowList, members[..i + 1]), codec) == Success(entries)
    ensures (Keep(allowList, members[i].teamMemberId)
      && codec.encodePayload(MemberObject(members[i].teamMemberId)).Success?) ==>
      EncodeAll(Kept(allowList, members[..i + 1]), codec) ==
        Success(entries + [EntryFor(members[i], codec.encodePayload(MemberObject(members[i].teamMemberId)).value)])
  {
    var m := members[i];
    var before := Kept(allowList, members[..i]);
    KeptExtend(allowList, members, i);
    if Keep(allowList, m.teamMemberId) {
      var head := codec.encodePayload(MemberObject(m.teamMemberId));
      if head.Success? {
        EncodeAllAppend(before, [m], codec);
        assert [m][1..] == [];
        assert EncodeAll([m], codec) == Success([EntryFor(m, head.value)] + []);
        assert [EntryFor(m, head.value)] + [] == [EntryFor(m, head.value)];
      }
    } else {
      assert before + [] == before;
    }
  }

  /** The iteration of the `getIds` loop that fails: a kept member whose reference fails to
      encode, after a prefix that encoded, decides the outcome of the whole call. */
  lemma GetIdsAbort(allowList: seq<string>, members: seq<TeamMember>, i: nat, entries: seq<PushEntry>,
                    codec: PayloadCodec)
    requires i < |members|
    requires EncodeAll(Kept(allowList, members[..i]), codec) == Success(entries)
    requires Keep(allowList, members[i].teamMemberId)
    requires codec.encodePayload(MemberObject(members[i].teamMemberId)).Failure?
    ensures EncodeAll(Kept(allowList, members), codec) ==
      Failure(codec.encodePayload(MemberObject(members[i].teamMemberId)).error)
  {
    var m := members[i];
    var before := Kept(allowList, members[..i]);
    KeptExtend(allowList, members, i);
    EncodeAllAppend(before, [m], codec);
    assert EncodeAll([m], codec) == Failure(codec.encodePayload(MemberObject(m.teamMemberId)).error);
    KeptSplit(allowList, members, i + 1);
    EncodeAllAppend(Kept(allowList, members[..i + 1]), Kept(allowList, members[i + 1..]), codec);
  }

  // ---------------------------------------------------------------------------
  // Properties of getIds.
  // ---------------------------------------------------------------------------

  /** On success `getIds` returns exactly one operation, a single push batch holding one entry
      per kept member, in listing order, named by the member's display name and carrying the
      encoding of (MEMBER, that member's id). */
  lemma GetIdsBatch(allowList: seq<string>, listing: Result<seq<TeamMember>, SdkError>, codec: PayloadCodec)
    requires GetIdsSpec(allowList, listing, codec).Success?
    ensures listing.Success?
    ensures var ops := GetIdsSpec(allowList, listing, codec).value.operations;
      var kept := Kept(allowList, listing.value);
      |ops| == 1 && ops[0].PushItems? && |ops[0].entries| == |kept| <= |listing.value|
      && forall j :: 0 <= j < |kept| ==>
        codec.encodePayload(MemberObject(kept[j].teamMemberId)).Success?
        && ops[0].entries[j] == PushEntry(kept[j].displayName,
             PushItem(codec.encodePayload(MemberObject(kept[j].teamMemberId)).value))
  {
    EncodeAllSucceeds(Kept(allowList, listing.value), codec);
  }

  /** `getIds` fails exactly when listing the members fails or some kept member's reference
      fails to encode; the exception carries the fixed message and the first error as cause,
      and no batch is returned. */
  lemma GetIdsFailure(allowList: seq<string>, listing: Result<seq<TeamMember>, SdkError>, codec: PayloadCodec)
    ensures GetIdsSpec(allowList, listing, codec).Failure? <==>
      listing.Failure? ||
      exists m :: m in listing.value && Keep(allowList, m.teamMemberId)
        && codec.encodePayload(MemberObject(m.teamMemberId)).Failure?
    ensures listing.Failure? ==>
      GetIdsSpec(allowList, listing, codec) == Failure(RepositoryException(GetIdsFailureMessage, listing.error))
    ensures GetIdsSpec(allowList, listing, codec).Failure? ==>
      GetIdsSpec(allowList, listing, codec).error.errorMessage == GetIdsFailureMessage
    ensures listing.Success? && GetIdsSpec(allowList, listing, codec).Failure? ==>
      exists j :: (0 <= j < |Kept(allowList, listing.value)|
        && codec.encodePayload(MemberObject(Kept(allowList, listing.value)[j].teamMemberId))
           == Failure(GetIdsSpec(allowList, listing, codec).error.cause)
        && forall k :: 0 <= k < j ==>
             codec.encodePayload(MemberObject(Kept(allowList, listing.value)[k].teamMemberId)).Success?)
  {
    if listing.Success? {
      var members := listing.value;
      var kept := Kept(allowList, members);
      EncodeAllSucceeds(kept, codec);
      if EncodeAll(kept, codec).Failure? {
        EncodeAllFirstError(kept, codec);
        assert GetIdsSpec(allowList, listing, codec).error.cause == EncodeAll(kept, codec).error;
        var j :| 0 <= j < |kept|
          && codec.encodePayload(MemberObject(kept[j].teamMemberId)) == Failure(EncodeAll(kept, codec).error)
          && forall k :: 0 <= k < j ==> codec.encodePayload(MemberObject(kept[k].teamMemberId)).Success?;
        assert kept[j] in kept;
        var x := GetIdsSpec(allowList, listing, codec).error;
        assert x.errorMessage == GetIdsFailureMessage;
        assert codec.encodePayload(MemberObject(kept[j].teamMemberId)) == Failure(x.cause);
      } else {
        forall m | m in members && Keep(allowList, m.teamMemberId)
          ensures codec.encodePayload(MemberObject(m.teamMemberId)).Success?
        {
          KeptComplete(allowList, members, m);
          var j :| 0 <= j < |kept| && kept[j] == m;
        }
      }
    }
  }

  /** With an empty allow-list every listed member yields exactly one push entry, in order. */
  lemma GetIdsEmptyAllowList(listing: Result<seq<TeamMember>, SdkError>, codec: PayloadCodec)
    requires GetIdsSpec([], listing, codec).Success?
    ensures listing.Success?
    ensures var entries := GetIdsSpec([], listing, codec).value.operations[0].entries;
      |entries| == |listing.value|
      && forall j :: 0 <= j < |entries| ==>
        codec.encodePayload(MemberObject(listing.value[j].teamMemberId)).Success?
        && entries[j] == EntryFor(listing.value[j],
             codec.encodePayload(MemberObject(listing.value[j].teamMemberId)).value)
  {
    KeptEverything(listing.value);
    GetIdsBatch([], listing, codec);
  }

  /** With a non-empty allow-list a listed member is kept if and only if its id is allowed. */
  lemma {:induction false} GetIdsAllowList(allowList: seq<string>, members: seq<TeamMember>, m: TeamMember)
    requires |allowList| > 0
    requires m in members
    ensures m in Kept(allowList, members) <==> m.teamMemberId in allowList
  {
    if m.teamMemberId in allowList {
      KeptComplete(allowList, members, m);
    }
  }

  /** Every listed member the allow-list admits has its entry in a successful batch. */
  lemma GetIdsAllowedMemberPushed(allowList: seq<string>, listing: Result<seq<TeamMember>, SdkError>,
                                  codec: PayloadCodec, m: TeamMember)
    requires GetIdsSpec(allowList, listing, codec).Success?
    requires m in listing.value
    requires Keep(allowList, m.teamMemberId)
    ensures codec.encodePayload(MemberObject(m.teamMemberId)).Success?
    ensures EntryFor(m, codec.encodePayload(MemberObject(m.teamMemberId)).value)
      in GetIdsSpec(allowList, listing, codec).value.operations[0].entries
  {
    var kept := Kept(allowList, listing.value);
    GetIdsBatch(allowList, listing, codec);
    KeptComplete(allowList, listing.value, m);
    var j :| 0 <= j < |kept| && kept[j] == m;
    assert GetIdsSpec(allowList, listing, codec).value.operations[0].entries[j]
      == EntryFor(m, codec.encodePayload(MemberObject(m.teamMemberId)).value);
  }

  // ---------------------------------------------------------------------------
  // getIds followed by getDoc.
  // ---------------------------------------------------------------------------

  /** Assume the codec decodes every valid reference it encodes back to that reference, and
      accepts member references with a non-empty id. Then polling the item `getIds` pushed for a
      kept member with a non-empty id yields no operation: that item is not deleted. These are
      hypotheses, because the codec's source is not part of this model. */
  lemma PushedItemsAreNotDeleted(repository: DropBoxRepository, listing: Result<seq<TeamMember>, SdkError>,
                                 codec: PayloadCodec, j: nat)
    requires forall o :: codec.isValid(o) && codec.encodePayload(o).Success? ==>
      codec.decodePayload(codec.encodePayload(o).value) == Success(o)
    requires forall id :: id != "" ==> codec.isValid(MemberObject(id))
    requires GetIdsSpec(repository.teamMemberIds, listing, codec).Success?
    requires j < |Kept(repository.teamMemberIds, listing.value)|
    requires Kept(repository.teamMemberIds, listing.value)[j].teamMemberId != ""
    ensures j < |GetIdsSpec(repository.teamMemberIds, listing, codec).value.operations[0].entries|
    ensures var e := GetIdsSpec(repository.teamMemberIds, listing, codec).value.operations[0].entries[j];
      repository.GetDoc(Item(e.name, e.item.payload), codec) == None
  {
    var kept := Kept(repository.teamMemberIds, listing.value);
    GetIdsBatch(repository.teamMemberIds, listing, codec);
    var e := GetIdsSpec(repository.teamMemberIds, listing, codec).value.operations[0].entries[j];
    var o := MemberObject(kept[j].teamMemberId);
    assert codec.isValid(o);
    assert codec.decodePayload(e.item.payload) == Success(o);
  }

  /** A kept member with an empty id is still pushed by `getIds`, since nothing checks the
      reference before it is encoded. If the codec rejects that reference, and decoding a
      payload it encoded never yields a different reference, polling the pushed item deletes
      exactly that item. */
  lemma EmptyIdIsPushedThenDeleted(repository: DropBoxRepository, listing: Result<seq<TeamMember>, SdkError>,
                                   codec: PayloadCodec, j: nat)
    requires forall o ::
      codec.encodePayload(o).Success? && codec.decodePayload(codec.encodePayload(o).value).Success? ==>
        codec.decodePayload(codec.encodePayload(o).value).value == o
    requires !codec.isValid(MemberObject(""))
    requires GetIdsSpec(repository.teamMemberIds, listing, codec).Success?
    requires j < |Kept(repository.teamMemberIds, listing.value)|
    requires Kept(repository.teamMemberIds, listing.value)[j].teamMemberId == ""
    ensures j < |GetIdsSpec(repository.teamMemberIds, listing, codec).value.operations[0].entries|
    ensures var e := GetIdsSpec(repository.teamMemberIds, listing, codec).value.operations[0].entries[j];
      e.name == Kept(repository.teamMemberIds, listing.value)[j].displayName
      && repository.GetDoc(Item(e.name, e.item.payload), codec) == Some(DeleteItem(e.name))
  {
    var kept := Kept(repository.teamMemberIds, listing.value);
    GetIdsBatch(repository.teamMemberIds, listing, codec);
    var e := GetIdsSpec(repository.teamMemberIds, listing, codec).value.operations[0].entries[j];
    var o := MemberObject(kept[j].teamMemberId);
    assert o == MemberObject("");
    assert e.item.payload == codec.encodePayload(o).value;
    assert !Resolvable(codec, e.item.payload);
  }
}
