/**
 * Requests to change only the place and the note of a finished booking
 * (lib/correction_metadata.php).  The proposal travels inside the stored
 * snapshot of the booking, under one reserved name.
 */
module CorrectionMetadata {
  import opened Wrappers
  import opened Booking
  import opened Schema
  import opened Attendance
  import opened Json

  const RESERVED_PREFIX := "_chrono_metadata_request"
  const METADATA_KEY := "_chrono_metadata_request_v1"
  const SNAPSHOT_LIMIT := 65536

  predicate Reserved(name: string) {
    RESERVED_PREFIX <= name
  }

  function OptionalInt(n: Option<int>): Value {
    if n.None? then Null else Int(n.value)
  }

  function OptionalText(s: Option<string>): Value {
    if s.None? then Null else Text(s.value)
  }

  /** A booking row in the order of its columns; a timestamp is its instant. */
  function RowMembers(id: int, r: Record): seq<Member> {
    [ Member("id", Int(id)),
      Member("startzeit", Int(r.start)),
      Member("endzeit", OptionalInt(r.end)),
      Member("pause", Int(r.pause)),
      Member("beschreibung", Text(r.note)),
      Member("standort", Text(r.location)),
      Member("user_id", Int(r.user)),
      Member("absence_kind", OptionalText(r.absenceKind)),
      Member("planned_minutes", OptionalInt(r.planned)) ]
  }

  function Snapshot(id: int, r: Record): Document {
    Encode(Object(RowMembers(id, r)))
  }

  function Proposal(m: Metadata): Value {
    Object([Member("version", Int(1)), Member("location", Text(m.location)), Member("note", Text(m.note))])
  }

  /** The snapshot of a request for new metadata: the row, then the proposal under the reserved name. */
  function SnapshotWith(id: int, r: Record, m: Metadata): Document {
    Encode(Object(RowMembers(id, r) + [Member(METADATA_KEY, Proposal(m))]))
  }

  function ReservedNames(members: seq<Member>): seq<string> {
    if members == [] then []
    else
      ReservedNames(members[..|members| - 1])
      + (if Reserved(members[|members| - 1].name) then [members[|members| - 1].name] else [])
  }

  /** The position of the last member with a name, or -1. */
  function Find(members: seq<Member>, name: string): (i: int)
    ensures -1 <= i < |members|
    ensures i >= 0 ==> members[i].name == name
    ensures i < 0 ==> forall k :: 0 <= k < |members| ==> members[k].name != name
  {
    if members == [] then -1
    else if members[|members| - 1].name == name then |members| - 1
    else Find(members[..|members| - 1], name)
  }

  /** A proposal is exactly version 1, a place and a note, in this order and of these types. */
  function ReadProposal(v: Value): Result<Metadata, Error> {
    if v.Object? && |v.members| == 3
       && v.members[0] == Member("version", Int(1))
       && v.members[1].name == "location"
       && v.members[2].name == "note"
    then
      if v.members[1].value.Text? && v.members[2].value.Text?
         && ValidMetadata(Metadata(v.members[1].value.text, v.members[2].value.text))
      then Success(Metadata(v.members[1].value.text, v.members[2].value.text))
      else Failure(InvalidMetadata)
    else Failure(UnreadableRequest)
  }

  datatype Parsed = Parsed(original: Document, metadata: Metadata)

  /** What a stored snapshot asks for: nothing for an ordinary one, a proposal and the original row, or a refusal. */
  function Parse(snapshot: Option<Document>): Result<Option<Parsed>, Error> {
    if snapshot.None? || snapshot.value.Unreadable? then Success(None)
    else
      var document := snapshot.value;
      var v := Decoded(document.value);
      if !v.Object? || ReservedNames(v.members) == [] then Success(None)
      else if document.bytes > SNAPSHOT_LIMIT || ReservedNames(v.members) != [METADATA_KEY]
        || Encode(v) != document then
        Failure(UnreadableRequest)
      else
        var i := Find(v.members, METADATA_KEY);
        if i < 0 then Failure(UnreadableRequest)
        else
          var metadata :- ReadProposal(v.members[i].value);
          Success(Some(Parsed(Encode(Object(v.members[..i] + v.members[i + 1..])), metadata)))
  }

  lemma {:induction false} ReservedInNames(members: seq<Member>, k: nat)
    requires k < |members| && Reserved(members[k].name)
    ensures members[k].name in ReservedNames(members)
  {
    if k < |members| - 1 {
      ReservedInNames(members[..|members| - 1], k);
    }
  }

  lemma {:induction false} NoneReserved(members: seq<Member>)
    requires forall k :: 0 <= k < |members| ==> !Reserved(members[k].name)
    ensures ReservedNames(members) == []
  {
    if members != [] {
      NoneReserved(members[..|members| - 1]);
    }
  }

  /** The column names differ from each other and from every reserved name. */
  lemma ColumnsDistinct(id: int, r: Record)
    ensures DistinctNames(RowMembers(id, r))
    ensures forall k :: 0 <= k < |RowMembers(id, r)| ==> !Reserved(RowMembers(id, r)[k].name)
  {
    var members := RowMembers(id, r);
    assert members[0].name[0] == 'i' && members[1].name[0] == 's' && members[2].name[0] == 'e'
      && members[3].name[0] == 'p';
    assert members[4].name[0] == 'b' && members[5].name[0] == 's' && members[6].name[0] == 'u'
      && members[7].name[0] == 'a';
    assert members[8].name[0] == 'p' && members[8].name[1] == 'l' && members[3].name[1] == 'a';
    assert members[1].name[2] == 'a' && members[5].name[2] == 'a' && members[1].name[3] == 'r'
      && members[5].name[3] == 'n';
    assert RESERVED_PREFIX[0] == '_';
  }

  lemma RowMembersPlain(id: int, r: Record)
    ensures DistinctNames(RowMembers(id, r))
    ensures forall k :: 0 <= k < |RowMembers(id, r)| ==> !Reserved(RowMembers(id, r)[k].name)
    ensures DecodedMembers(RowMembers(id, r)) == RowMembers(id, r)
    ensures ReservedNames(RowMembers(id, r)) == []
  {
    hide Reserved, DistinctNames;
    ColumnsDistinct(id, r);
    assert forall k :: 0 <= k < |RowMembers(id, r)| ==>
      Decoded(RowMembers(id, r)[k].value) == RowMembers(id, r)[k].value;
    hide RowMembers;
    NoneReserved(RowMembers(id, r));
    DecodedDistinct(RowMembers(id, r));
  }

  /** An ordinary snapshot asks for no metadata. */
  lemma OrdinarySnapshot(id: int, r: Record)
    ensures Parse(Some(Snapshot(id, r))) == Success(None)
  {
    RowMembersPlain(id, r);
  }

  lemma ProposalDecodes(m: Metadata)
    ensures Decoded(Proposal(m)) == Proposal(m)
  {
    var members := Proposal(m).members;
    assert members[0].name[0] == 'v' && members[1].name[0] == 'l' && members[2].name[0] == 'n';
    DecodedDistinct(members);
  }

  /** Reading back a request for new metadata returns the untouched row and the proposal. */
  lemma ProposalRoundTrip(id: int, r: Record, m: Metadata)
    requires ValidMetadata(m)
    requires SnapshotWith(id, r, m).bytes <= SNAPSHOT_LIMIT
    ensures Parse(Some(SnapshotWith(id, r, m))) == Success(Some(Parsed(Snapshot(id, r), m)))
  {
    var row := RowMembers(id, r);
    var members := row + [Member(METADATA_KEY, Proposal(m))];
    RowMembersPlain(id, r);
    ProposalDecodes(m);
    assert METADATA_KEY[..|RESERVED_PREFIX|] == RESERVED_PREFIX;
    forall k | 0 <= k < |row| ensures row[k].name != METADATA_KEY {
      assert !Reserved(row[k].name);
    }
    DecodedDistinct(members);
    assert members[..|members| - 1] == row;
    assert ReservedNames(members) == [METADATA_KEY];
    var i := Find(members, METADATA_KEY);
    assert i == |row|;
    assert members[..i] + members[i + 1..] == row;
  }

  /** Equal snapshots are snapshots of the same row. */
  lemma SnapshotInjective(id: int, r: Record, id': int, r': Record)
    requires Snapshot(id, r) == Snapshot(id', r')
    ensures id == id' && r == r'
  {
    var a, b := RowMembers(id, r), RowMembers(id', r');
    assert a[0] == b[0] && a[1] == b[1] && a[2] == b[2] && a[3] == b[3] && a[4] == b[4];
    assert a[5] == b[5] && a[6] == b[6] && a[7] == b[7] && a[8] == b[8];
  }

  /**
   * The only documents read as a request for metadata are encoder-spelled objects that carry exactly one
   * reserved name, with a valid proposal; whatever else carries a reserved name is refused.
   */
  lemma OnlyExactRequests(document: Document, k: nat)
    requires document.Written? && Decoded(document.value).Object?
    requires k < |Decoded(document.value).members| && Reserved(Decoded(document.value).members[k].name)
    ensures Parse(Some(document)).Failure? || Parse(Some(document)).value.Some?
    ensures Parse(Some(document)).Success? ==>
      var p := Parse(Some(document)).value.value;
      && document == Encode(Object(Decoded(document.value).members[k := Member(METADATA_KEY, Proposal(p.metadata))]))
      && p.original == Encode(Object(Decoded(document.value).members[..k] + Decoded(document.value).members[k + 1..]))
      && ValidMetadata(p.metadata)
  {
    var members := Decoded(document.value).members;
    ReservedInNames(members, k);
    if ReservedNames(members) == [METADATA_KEY] {
      OneReserved(members, k, Find(members, METADATA_KEY));
      if ReadProposal(members[k].value).Success? {
        var v := members[k].value;
        assert v.members == Proposal(ReadProposal(v).value).members;
        assert members[k := Member(METADATA_KEY, Proposal(ReadProposal(v).value))] == members;
      }
    }
  }

  lemma {:induction false} OneReserved(members: seq<Member>, j: nat, k: int)
    requires j < |members| && Reserved(members[j].name)
    requires 0 <= k < |members| ==> Reserved(members[k].name)
    requires |ReservedNames(members)| == 1
    requires k >= 0 ==> k < |members|
    ensures k >= 0 ==> j == k
  {
    var last := |members| - 1;
    if k >= 0 && j != k {
      if j < last {
        ReservedInNames(members[..last], j);
      } else {
        ReservedInNames(members[..last], k);
      }
      if j < last && k < last {
        OneReserved(members[..last], j, k);
      }
    }
  }
}
