/**
 * JSON documents as the stored request snapshots use them: the tree that a text
 * denotes, and what decoding and re-encoding do to it.
 */
module Json {

  datatype Value =
    | Null
    | Int(n: int)
    | Text(text: string)
    | Object(members: seq<Member>)
    | Other

  datatype Member = Member(name: string, value: Value)

  /**
   * A stored text: either not readable as JSON, or the tree it writes, with a tag for how it is
   * spelled (0 is the encoder's own spelling) and its length in bytes.
   */
  datatype Document = Unreadable(raw: string) | Written(value: Value, spelling: nat, bytes: nat)

  /** Decoding into an object keeps one value for every name, the last one, at the place of the first. */
  function Put(members: seq<Member>, name: string, value: Value): seq<Member> {
    if members == [] then [Member(name, value)]
    else if members[0].name == name then [Member(name, value)] + members[1..]
    else [members[0]] + Put(members[1..], name, value)
  }

  function Decoded(v: Value): Value
    decreases v, 0
  {
    match v
    case Object(members) => Object(DecodedMembers(members))
    case _ => v
  }

  function DecodedMembers(members: seq<Member>): seq<Member>
    decreases members, 1
  {
    if members == [] then []
    else
      var last := |members| - 1;
      Put(DecodedMembers(members[..last]), members[last].name, Decoded(members[last].value))
  }

  /** The bytes one character takes between the quotes of an encoded text. */
  function EncodedChar(c: char): nat {
    var n := c as int;
    if c == '"' || c == '\\' || c == '/' then 2
    else if n == 8 || n == 9 || n == 10 || n == 12 || n == 13 then 2
    else if n < 32 then 6
    else if n < 128 then 1
    else if n < 0x1_0000 then 6
    else 12
  }

  function EncodedText(s: string): nat {
    if s == "" then 0 else EncodedText(s[..|s| - 1]) + EncodedChar(s[|s| - 1])
  }

  function Digits(n: nat): nat {
    if n < 10 then 1 else 1 + Digits(n / 10)
  }

  function EncodedLength(v: Value): nat
    decreases v, 0
  {
    match v
    case Null => 4
    case Int(n) => if n < 0 then 1 + Digits(-n) else Digits(n)
    case Text(s) => 2 + EncodedText(s)
    case Object(members) => 2 + EncodedMembers(members) + (if members == [] then 0 else |members| - 1)
    case Other => 0
  }

  function EncodedMembers(members: seq<Member>): nat
    decreases members, 1
  {
    if members == [] then 0
    else
      var last := |members| - 1;
      EncodedMembers(members[..last]) + 3 + EncodedText(members[last].name) + EncodedLength(members[last].value)
  }

  function Encode(v: Value): Document {
    Written(v, 0, EncodedLength(v))
  }

  ghost predicate DistinctNames(members: seq<Member>) {
    forall i, j :: 0 <= i < j < |members| ==> members[i].name != members[j].name
  }

  ghost predicate Names(members: seq<Member>, name: string) {
    exists i :: 0 <= i < |members| && members[i].name == name
  }

  lemma {:induction false} PutNewName(members: seq<Member>, name: string, value: Value)
    requires !Names(members, name)
    ensures Put(members, name, value) == members + [Member(name, value)]
  {
    if members != [] {
      forall i | 0 <= i < |members[1..]| ensures members[1..][i].name != name {
        assert members[1..][i] == members[i + 1];
      }
      PutNewName(members[1..], name, value);
      assert members == [members[0]] + members[1..];
    }
  }

  /** An object of scalars with pairwise different names is what it decodes to. */
  lemma {:induction false} DecodedDistinct(members: seq<Member>)
    requires DistinctNames(members)
    requires forall i :: 0 <= i < |members| ==> Decoded(members[i].value) == members[i].value
    ensures DecodedMembers(members) == members
  {
    if members != [] {
      var last := |members| - 1;
      DecodedDistinct(members[..last]);
      forall i | 0 <= i < last ensures members[..last][i].name != members[last].name {
        assert members[..last][i] == members[i];
      }
      PutNewName(members[..last], members[last].name, members[last].value);
      assert members == members[..last] + [members[last]];
    }
  }
}
