/**
 * Keys of distinguished names (lib/ldap_manager_mapping.php): what is left of
 * an escaped name after splitting and decoding.  Sections 2.3, 2.4 and 3 of RFC
 * 4514 allow many spellings of one name.  A character stands for one byte; the
 * name arrives split into its relative names, each still escaped.
 */
module DnKey {
  import opened Wrappers

  predicate Hex(c: char) {
    '0' <= c <= '9' || 'a' <= c <= 'f' || 'A' <= c <= 'F'
  }

  function HexValue(c: char): int
    requires Hex(c)
  {
    if c <= '9' then c as int - '0' as int
    else if c <= 'F' then c as int - 'A' as int + 10
    else c as int - 'a' as int + 10
  }

  function HexByte(a: char, b: char): char
    requires Hex(a) && Hex(b)
  {
    (HexValue(a) * 16 + HexValue(b)) as char
  }

  const SPECIAL := " ,+\"\\<>;=#"

  function LowerChar(c: char): char {
    if 'A' <= c <= 'Z' then (c as int + 32) as char else c
  }

  function Lower(s: string): string {
    if s == "" then "" else Lower(s[..|s| - 1]) + [LowerChar(s[|s| - 1])]
  }

  /** One attribute with its value: opaque encoded bytes, or decoded text. */
  datatype Ava = Ber(attribute: string, digits: string) | Text(attribute: string, bytes: string)

  // --- Splitting ---

  /** The parts between unescaped plus signs; a backslash at the end is an error. */
  function Split(s: string, part: string): Option<seq<string>> {
    if s == "" then Some([part])
    else if s[0] == '\\' then (if |s| < 2 then None else Split(s[2..], part + s[..2]))
    else if s[0] == '+' then
      var rest := Split(s[1..], "");
      if rest.None? then None else Some([part] + rest.value)
    else Split(s[1..], part + [s[0]])
  }

  /** The scan with two offsets. */
  method SplitRdn(rdn: string) returns (parts: Option<seq<string>>)
    ensures parts == Split(rdn, "")
  {
    var found: seq<string> := [];
    var start, offset := 0, 0;
    assert rdn[0..] == rdn && rdn[0..0] == "";
    ResumedNone(Split(rdn, ""));
    while offset < |rdn|
      invariant 0 <= start <= offset <= |rdn|
      invariant Split(rdn, "") == Resumed(found, Split(rdn[offset..], rdn[start..offset]))
      decreases |rdn| - offset
    {
      if rdn[offset] == '\\' {
        if offset + 1 >= |rdn| {
          return None;
        }
        assert rdn[start..offset] + rdn[offset..][..2] == rdn[start..offset + 2];
        assert rdn[offset..][2..] == rdn[offset + 2..];
        offset := offset + 2;
      } else {
        assert rdn[offset..][1..] == rdn[offset + 1..];
        if rdn[offset] == '+' {
          assert rdn[offset + 1..offset + 1] == "";
          ResumedMore(found, rdn[start..offset], Split(rdn[offset + 1..], ""));
          found := found + [rdn[start..offset]];
          start := offset + 1;
        } else {
          assert rdn[start..offset] + [rdn[offset]] == rdn[start..offset + 1];
        }
        offset := offset + 1;
      }
    }
    assert rdn[offset..] == "";
    return Some(found + [rdn[start..offset]]);
  }

  /** The parts found so far in front of those still to come. */
  function Resumed(found: seq<string>, rest: Option<seq<string>>): Option<seq<string>> {
    if rest.None? then None else Some(found + rest.value)
  }

  lemma ResumedNone(rest: Option<seq<string>>)
    ensures Resumed([], rest) == rest
  {
    if rest.Some? {
      assert [] + rest.value == rest.value;
    }
  }

  lemma ResumedMore(found: seq<string>, part: string, rest: Option<seq<string>>)
    ensures Resumed(found, if rest.None? then None else Some([part] + rest.value)) == Resumed(found + [part], rest)
  {
    if rest.Some? {
      assert found + ([part] + rest.value) == found + [part] + rest.value;
    }
  }

  // --- Decoding ---

  /** The bytes an escaped text stands for. */
  function Decode(s: string): Option<string> {
    if s == "" then Some("")
    else if s[0] != '\\' then
      var rest := Decode(s[1..]);
      if rest.None? then None else Some([s[0]] + rest.value)
    else if |s| >= 3 && Hex(s[1]) && Hex(s[2]) then
      var rest := Decode(s[3..]);
      if rest.None? then None else Some([HexByte(s[1], s[2])] + rest.value)
    else if |s| >= 2 && s[1] in SPECIAL then
      var rest := Decode(s[2..]);
      if rest.None? then None else Some([s[1]] + rest.value)
    else None
  }

  method DecodeValue(value: string) returns (decoded: Option<string>)
    ensures decoded == Decode(value)
  {
    var bytes := "";
    var j := 0;
    assert value[0..] == value;
    PrefixedNone(Decode(value));
    while j < |value|
      invariant 0 <= j <= |value|
      invariant Decode(value) == Prefixed(bytes, Decode(value[j..]))
      decreases |value| - j
    {
      if value[j] != '\\' {
        assert value[j..][1..] == value[j + 1..];
        PrefixedMore(bytes, value[j], Decode(value[j + 1..]));
        bytes := bytes + [value[j]];
        j := j + 1;
      } else if j + 1 >= |value| {
        return None;
      } else if j + 2 < |value| && Hex(value[j + 1]) && Hex(value[j + 2]) {
        assert value[j..][3..] == value[j + 3..];
        PrefixedMore(bytes, HexByte(value[j + 1], value[j + 2]), Decode(value[j + 3..]));
        bytes := bytes + [HexByte(value[j + 1], value[j + 2])];
        j := j + 3;
      } else if value[j + 1] in SPECIAL {
        assert value[j..][2..] == value[j + 2..];
        PrefixedMore(bytes, value[j + 1], Decode(value[j + 2..]));
        bytes := bytes + [value[j + 1]];
        j := j + 2;
      } else {
        return None;
      }
    }
    assert value[j..] == "" && bytes + "" == bytes;
    return Some(bytes);
  }

  function Prefixed(bytes: string, rest: Option<string>): Option<string> {
    if rest.None? then None else Some(bytes + rest.value)
  }

  lemma PrefixedNone(rest: Option<string>)
    ensures Prefixed("", rest) == rest
  {
    if rest.Some? {
      assert "" + rest.value == rest.value;
    }
  }

  lemma PrefixedMore(bytes: string, c: char, rest: Option<string>)
    ensures Prefixed(bytes, if rest.None? then None else Some([c] + rest.value)) == Prefixed(bytes + [c], rest)
  {
    if rest.Some? {
      assert bytes + ([c] + rest.value) == bytes + [c] + rest.value;
    }
  }

  predicate BerDigits(s: string) {
    |s| >= 2 && |s| % 2 == 0 && forall i :: 0 <= i < |s| ==> Hex(s[i])
  }

  /** The position of the first equals sign, or the length. */
  function Equals(s: string): (n: nat)
    ensures n <= |s| && (n < |s| ==> s[n] == '=') && forall i :: 0 <= i < n ==> s[i] != '='
  {
    if s == "" || s[0] == '=' then 0 else 1 + Equals(s[1..])
  }

  function AvaOf(s: string): Option<Ava> {
    var n := Equals(s);
    if n == |s| || n == 0 then None
    else
      var attribute := Lower(s[..n]);
      var value := s[n + 1..];
      if value != "" && value[0] == '#' then
        if BerDigits(value[1..]) then Some(Ber(attribute, Lower(value[1..]))) else None
      else
        var decoded := Decode(value);
        if decoded.None? then None else Some(Text(attribute, decoded.value))
  }

  function AvasOf(parts: seq<string>): Option<seq<Ava>> {
    if parts == [] then Some([])
    else
      var first := AvaOf(parts[0]);
      var rest := AvasOf(parts[1..]);
      if first.None? || rest.None? then None else Some([first.value] + rest.value)
  }

  // --- Sorting ---

  /** The library's comparison, of which only an order on the values at hand is needed. */
  type Order = (Ava, Ava) -> bool

  ghost predicate Orders(leq: Order, s: seq<Ava>) {
    && (forall a, b :: a in s && b in s ==> leq(a, b) || leq(b, a))
    && (forall a, b :: a in s && b in s && leq(a, b) && leq(b, a) ==> a == b)
    && (forall a, b, c :: a in s && b in s && c in s && leq(a, b) && leq(b, c) ==> leq(a, c))
  }

  function Insert(leq: Order, sorted: seq<Ava>, a: Ava): (r: seq<Ava>)
    ensures multiset(r) == multiset(sorted) + multiset{a}
  {
    if sorted == [] || leq(sorted[|sorted| - 1], a) then sorted + [a]
    else
      var last := |sorted| - 1;
      assert sorted == sorted[..last] + [sorted[last]];
      Insert(leq, sorted[..last], a) + [sorted[last]]
  }

  function Sort(leq: Order, s: seq<Ava>): (r: seq<Ava>)
    ensures multiset(r) == multiset(s)
  {
    if s == [] then []
    else
      assert s == s[..|s| - 1] + [s[|s| - 1]];
      Insert(leq, Sort(leq, s[..|s| - 1]), s[|s| - 1])
  }

  ghost predicate Sorted(leq: Order, s: seq<Ava>) {
    forall i, j :: 0 <= i < j < |s| ==> leq(s[i], s[j])
  }

  lemma SameMembers(s: seq<Ava>, t: seq<Ava>)
    requires multiset(s) == multiset(t)
    ensures forall a :: a in s <==> a in t
    ensures |s| == |t|
  {
    forall a ensures a in s <==> a in t {
      assert a in s <==> a in multiset(s);
      assert a in t <==> a in multiset(t);
    }
    assert |multiset(s)| == |s| && |multiset(t)| == |t|;
  }

  lemma AppendSorted(leq: Order, s: seq<Ava>, a: Ava)
    requires Sorted(leq, s) && forall x :: x in s ==> leq(x, a)
    ensures Sorted(leq, s + [a])
  {
    var r := s + [a];
    forall i, j | 0 <= i < j < |r| ensures leq(r[i], r[j]) {
      assert s[i] in s;
    }
  }

  lemma {:induction false} InsertSorted(leq: Order, sorted: seq<Ava>, a: Ava)
    requires Sorted(leq, sorted) && Orders(leq, sorted + [a])
    ensures Sorted(leq, Insert(leq, sorted, a))
  {
    var all := sorted + [a];
    assert a in all && forall x :: x in sorted ==> x in all;
    if sorted != [] {
      var last := |sorted| - 1;
      var front := sorted[..last];
      assert sorted[last] in all;
      if leq(sorted[last], a) {
        forall x | x in sorted ensures leq(x, a) {
          var i :| 0 <= i < |sorted| && sorted[i] == x;
          assert i == last || leq(sorted[i], sorted[last]);
        }
        hide Orders, Sorted;
        AppendSorted(leq, sorted, a);
      } else {
        assert leq(a, sorted[last]);
        assert Orders(leq, front + [a]) by {
          assert forall x :: x in front + [a] ==> x in all;
        }
        hide Orders;
        InsertSorted(leq, front, a);
        var inner := Insert(leq, front, a);
        SameMembers(inner, front + [a]);
        forall x | x in inner ensures leq(x, sorted[last]) {
          if x in front {
            var i :| 0 <= i < last && front[i] == x;
            assert leq(sorted[i], sorted[last]);
          }
        }
        hide Sorted;
        AppendSorted(leq, inner, sorted[last]);
      }
    }
  }

  lemma {:induction false} SortSorted(leq: Order, s: seq<Ava>)
    requires Orders(leq, s)
    ensures Sorted(leq, Sort(leq, s))
  {
    if s != [] {
      var front := s[..|s| - 1];
      assert forall x :: x in front ==> x in s;
      SortSorted(leq, front);
      var sorted := Sort(leq, front);
      SameMembers(sorted, front);
      assert forall x :: x in sorted + [s[|s| - 1]] ==> x in s;
      InsertSorted(leq, sorted, s[|s| - 1]);
    }
  }

  /** Two sorted lists of the same values are the same list. */
  lemma {:induction false} SortedUnique(leq: Order, s: seq<Ava>, t: seq<Ava>)
    requires Orders(leq, s) && Sorted(leq, s) && Sorted(leq, t) && multiset(s) == multiset(t)
    ensures s == t
  {
    SameMembers(s, t);
    if s != [] {
      LastSame(leq, s, t);
      FrontBag(s, t);
      PrefixOrdered(leq, s, |s| - 1);
      hide Orders;
      var a, b := s[..|s| - 1], t[..|t| - 1];
      SortedUnique(leq, a, b);
      assert s == a + [s[|s| - 1]] && t == b + [t[|t| - 1]];
    }
  }

  lemma FrontBag(s: seq<Ava>, t: seq<Ava>)
    requires s != [] && t != [] && s[|s| - 1] == t[|t| - 1] && multiset(s) == multiset(t)
    ensures multiset(s[..|s| - 1]) == multiset(t[..|t| - 1])
  {
    assert s == s[..|s| - 1] + [s[|s| - 1]];
    assert t == t[..|t| - 1] + [t[|t| - 1]];
    assert multiset(s) == multiset(s[..|s| - 1]) + multiset{s[|s| - 1]};
    assert multiset(t) == multiset(t[..|t| - 1]) + multiset{t[|t| - 1]};
    assert multiset(s[..|s| - 1]) == multiset(s) - multiset{s[|s| - 1]};
  }

  lemma PrefixOrdered(leq: Order, s: seq<Ava>, n: nat)
    requires Orders(leq, s) && n <= |s|
    ensures Orders(leq, s[..n])
  {
    assert forall a :: a in s[..n] ==> a in s;
  }

  lemma LastSame(leq: Order, s: seq<Ava>, t: seq<Ava>)
    requires Orders(leq, s) && Sorted(leq, s) && Sorted(leq, t) && s != [] && |s| == |t|
    requires forall a :: a in s <==> a in t
    ensures s[|s| - 1] == t[|t| - 1]
  {
    var x, y := s[|s| - 1], t[|t| - 1];
    assert x in s && y in t;
    LastGreatest(leq, s, y);
    LastGreatest(leq, t, x);
  }

  lemma LastGreatest(leq: Order, s: seq<Ava>, a: Ava)
    requires Sorted(leq, s) && a in s && leq(a, a)
    ensures leq(a, s[|s| - 1])
  {
    var i :| 0 <= i < |s| && s[i] == a;
    assert i == |s| - 1 || leq(s[i], s[|s| - 1]);
  }

  /** Sorting removes exactly the order. */
  lemma SortExact(leq: Order, s: seq<Ava>, t: seq<Ava>)
    requires Orders(leq, s)
    ensures Sort(leq, s) == Sort(leq, t) <==> multiset(s) == multiset(t)
  {
    if multiset(s) == multiset(t) {
      SameMembers(s, t);
      assert Orders(leq, t);
      SortSorted(leq, s);
      SortSorted(leq, t);
      SameMembers(Sort(leq, s), s);
      SortedUnique(leq, Sort(leq, s), Sort(leq, t));
    }
  }

  // --- Keys ---

  function RdnKey(leq: Order, rdn: string): Option<seq<Ava>> {
    var parts := Split(rdn, "");
    if parts.None? then None
    else
      var avas := AvasOf(parts.value);
      if avas.None? then None else Some(Sort(leq, avas.value))
  }

  function RdnKeys(leq: Order, rdns: seq<string>): Option<seq<seq<Ava>>> {
    if rdns == [] then Some([])
    else
      var first := RdnKey(leq, rdns[0]);
      var rest := RdnKeys(leq, rdns[1..]);
      if first.None? || rest.None? then None else Some([first.value] + rest.value)
  }

  /** A name without relative names has no key. */
  function KeyOf(leq: Order, rdns: seq<string>): Option<seq<seq<Ava>>> {
    if rdns == [] then None else RdnKeys(leq, rdns)
  }

  // --- Written names ---

  /** One byte as it may be written: itself, as two hexadecimal digits, or behind a backslash. */
  datatype Byte = Plain(c: char) | Pair(high: char, low: char) | Escaped(c: char)

  datatype WrittenValue = Encoded(digits: string) | Written(bytes: seq<Byte>)

  datatype WrittenAva = WrittenAva(attribute: string, value: WrittenValue)

  /** A text that a splitting scan passes over without finding a separator. */
  predicate Passed(s: string) {
    if s == "" then true
    else if s[0] == '\\' then |s| >= 2 && Passed(s[2..])
    else s[0] != '+' && Passed(s[1..])
  }

  predicate WritableByte(b: Byte) {
    match b
    case Plain(c) => c != '\\' && c != '+'
    case Pair(h, l) => Hex(h) && Hex(l)
    case Escaped(c) => c in SPECIAL
  }

  predicate WritableAva(a: WrittenAva) {
    && a.attribute != "" && (forall i :: 0 <= i < |a.attribute| ==> a.attribute[i] != '=') && Passed(a.attribute + "=")
    && match a.value
       case Encoded(digits) => BerDigits(digits)
       case Written(bytes) =>
         (forall i :: 0 <= i < |bytes| ==> WritableByte(bytes[i])) && (bytes != [] ==> bytes[0] != Plain('#'))
  }

  function SpellByte(b: Byte): string {
    match b
    case Plain(c) => [c]
    case Pair(h, l) => ['\\', h, l]
    case Escaped(c) => ['\\', c]
  }

  function ByteOf(b: Byte): char
    requires WritableByte(b)
  {
    match b
    case Plain(c) => c
    case Pair(h, l) => HexByte(h, l)
    case Escaped(c) => c
  }

  function SpellBytes(bytes: seq<Byte>): string {
    if bytes == [] then "" else SpellByte(bytes[0]) + SpellBytes(bytes[1..])
  }

  function BytesOf(bytes: seq<Byte>): string
    requires forall i :: 0 <= i < |bytes| ==> WritableByte(bytes[i])
  {
    if bytes == [] then "" else [ByteOf(bytes[0])] + BytesOf(bytes[1..])
  }

  function SpellAva(a: WrittenAva): string {
    a.attribute + ("=" + SpellValue(a.value))
  }

  function SpellValue(v: WrittenValue): string {
    match v
    case Encoded(digits) => "#" + digits
    case Written(bytes) => SpellBytes(bytes)
  }

  /** What an attribute with its value means: neither the case of the name nor the way of escaping matters. */
  function Meaning(a: WrittenAva): Ava
    requires WritableAva(a)
  {
    match a.value
    case Encoded(digits) => Ber(Lower(a.attribute), Lower(digits))
    case Written(bytes) => Text(Lower(a.attribute), BytesOf(bytes))
  }

  predicate WritableRdn(avas: seq<WrittenAva>) {
    avas != [] && forall i :: 0 <= i < |avas| ==> WritableAva(avas[i])
  }

  function SpellRdn(avas: seq<WrittenAva>): string
    requires avas != []
  {
    SpellAva(avas[0]) + (if |avas| == 1 then "" else "+" + SpellRdn(avas[1..]))
  }

  function Meanings(avas: seq<WrittenAva>): seq<Ava>
    requires forall i :: 0 <= i < |avas| ==> WritableAva(avas[i])
  {
    if avas == [] then [] else [Meaning(avas[0])] + Meanings(avas[1..])
  }

  lemma {:induction false} DecodesSpelled(bytes: seq<Byte>)
    requires forall i :: 0 <= i < |bytes| ==> WritableByte(bytes[i])
    ensures Decode(SpellBytes(bytes)) == Some(BytesOf(bytes))
  {
    if bytes != [] {
      var s := SpellBytes(bytes);
      var rest := SpellBytes(bytes[1..]);
      DecodesSpelled(bytes[1..]);
      match bytes[0]
      case Plain(c) => assert s[1..] == rest;
      case Pair(h, l) => assert s[3..] == rest;
      case Escaped(c) =>
        assert s[2..] == rest && s[1] == c;
        assert !Hex(c);
    }
  }

  lemma {:induction false} PassedSplit(s: string, rest: string, part: string)
    requires Passed(s)
    ensures Split(s + rest, part) == Split(rest, part + s)
    decreases |s|
  {
    if s == "" {
      assert s + rest == rest && part + s == part;
    } else if s[0] == '\\' {
      assert (s + rest)[2..] == s[2..] + rest && (s + rest)[..2] == s[..2];
      PassedSplit(s[2..], rest, part + s[..2]);
      assert part + s[..2] + s[2..] == part + s;
    } else {
      assert (s + rest)[1..] == s[1..] + rest;
      PassedSplit(s[1..], rest, part + [s[0]]);
      assert part + [s[0]] + s[1..] == part + s;
    }
  }

  lemma {:induction false} PassedTogether(s: string, t: string)
    requires Passed(s) && Passed(t)
    ensures Passed(s + t)
    decreases |s|
  {
    if s == "" {
      assert s + t == t;
    } else if s[0] == '\\' {
      assert (s + t)[2..] == s[2..] + t;
      PassedTogether(s[2..], t);
    } else {
      assert (s + t)[1..] == s[1..] + t;
      PassedTogether(s[1..], t);
    }
  }

  lemma {:induction false} PlainPassed(s: string)
    requires forall i :: 0 <= i < |s| ==> s[i] != '\\' && s[i] != '+'
    ensures Passed(s)
  {
    if s != "" {
      PlainPassed(s[1..]);
    }
  }

  lemma {:induction false} BytesPassed(bytes: seq<Byte>)
    requires forall i :: 0 <= i < |bytes| ==> WritableByte(bytes[i])
    ensures Passed(SpellBytes(bytes))
  {
    if bytes != [] {
      BytesPassed(bytes[1..]);
      var s := SpellBytes(bytes);
      match bytes[0]
      case Plain(c) => assert s[1..] == SpellBytes(bytes[1..]);
      case Pair(h, l) =>
        assert s[2..] == [l] + SpellBytes(bytes[1..]);
        assert ([l] + SpellBytes(bytes[1..]))[1..] == SpellBytes(bytes[1..]);
      case Escaped(c) => assert s[2..] == SpellBytes(bytes[1..]);
    }
  }

  lemma AvaPassed(a: WrittenAva)
    requires WritableAva(a)
    ensures Passed(SpellAva(a))
  {
    match a.value {
      case Encoded(digits) => PlainPassed("#" + digits);
      case Written(bytes) => BytesPassed(bytes);
    }
    hide Passed, SpellBytes, SpellValue, WritableAva;
    PassedTogether(a.attribute + "=", SpellValue(a.value));
    assert SpellAva(a) == a.attribute + "=" + SpellValue(a.value);
  }

  lemma {:induction false} EqualsFound(attribute: string, rest: string)
    requires forall i :: 0 <= i < |attribute| ==> attribute[i] != '='
    ensures Equals(attribute + ("=" + rest)) == |attribute|
  {
    if attribute == "" {
      assert attribute + ("=" + rest) == "=" + rest;
    } else {
      assert (attribute + ("=" + rest))[1..] == attribute[1..] + ("=" + rest);
      EqualsFound(attribute[1..], rest);
    }
  }

  lemma AvaMeans(a: WrittenAva)
    requires WritableAva(a)
    ensures AvaOf(SpellAva(a)) == Some(Meaning(a))
  {
    var value := SpellValue(a.value);
    var s := SpellAva(a);
    EqualsFound(a.attribute, value);
    AttributeCut(a.attribute, value);
    assert s[..|a.attribute|] == a.attribute && s[|a.attribute| + 1..] == value;
    ValueMeans(a);
    hide Equals, Passed, Decode, SpellValue, BytesOf, BerDigits;
  }

  lemma AttributeCut(attribute: string, value: string)
    ensures var s := attribute + ("=" + value);
      s[..|attribute|] == attribute && s[|attribute| + 1..] == value && |s| > |attribute|
  {
  }

  lemma ValueMeans(a: WrittenAva)
    requires WritableAva(a)
    ensures var value := SpellValue(a.value);
      match a.value
      case Encoded(digits) => value != "" && value[0] == '#' && value[1..] == digits && BerDigits(digits)
      case Written(bytes) => (value != "" ==> value[0] != '#') && Decode(value) == Some(BytesOf(bytes))
  {
    match a.value
    case Encoded(digits) =>
    case Written(bytes) =>
      DecodesSpelled(bytes);
      if bytes != [] {
        assert SpellValue(a.value)[0] == SpellByte(bytes[0])[0];
      }
  }

  /** The spelled parts of a relative name. */
  function Spellings(avas: seq<WrittenAva>): seq<string> {
    if avas == [] then [] else [SpellAva(avas[0])] + Spellings(avas[1..])
  }

  lemma {:induction false} RdnSplits(avas: seq<WrittenAva>)
    requires WritableRdn(avas)
    ensures Split(SpellRdn(avas), "") == Some(Spellings(avas))
  {
    var first := SpellAva(avas[0]);
    AvaPassed(avas[0]);
    if |avas| == 1 {
      PassedSplit(first, "", "");
      assert "" + first == first && first + "" == first;
      assert avas[1..] == [];
      assert SpellRdn(avas) == first + "" && Spellings(avas) == [first];
    } else {
      var rest := SpellRdn(avas[1..]);
      PassedSplit(first, "+" + rest, "");
      assert "" + first == first;
      RdnSplits(avas[1..]);
      assert ("+" + rest)[1..] == rest;
    }
  }

  lemma {:induction false} SpellingsMean(avas: seq<WrittenAva>)
    requires forall i :: 0 <= i < |avas| ==> WritableAva(avas[i])
    ensures AvasOf(Spellings(avas)) == Some(Meanings(avas))
  {
    if avas != [] {
      AvaMeans(avas[0]);
      SpellingsMean(avas[1..]);
      assert Spellings(avas)[1..] == Spellings(avas[1..]);
    }
  }

  /** The key of a written relative name consists of its meanings, in sorted order. */
  lemma RdnKeyMeans(leq: Order, avas: seq<WrittenAva>)
    requires WritableRdn(avas)
    ensures RdnKey(leq, SpellRdn(avas)) == Some(Sort(leq, Meanings(avas)))
  {
    RdnSplits(avas);
    SpellingsMean(avas);
  }

  ghost predicate WritableName(name: seq<seq<WrittenAva>>) {
    forall i :: 0 <= i < |name| ==> WritableRdn(name[i])
  }

  function SpellName(name: seq<seq<WrittenAva>>): seq<string>
    requires forall i :: 0 <= i < |name| ==> name[i] != []
  {
    if name == [] then [] else [SpellRdn(name[0])] + SpellName(name[1..])
  }

  /** Two names say the same: relative name by relative name the same attributes and values, in whatever order. */
  ghost predicate SameName(v: seq<seq<WrittenAva>>, w: seq<seq<WrittenAva>>)
    requires WritableName(v) && WritableName(w)
  {
    |v| == |w| && forall i :: 0 <= i < |v| ==> multiset(Meanings(v[i])) == multiset(Meanings(w[i]))
  }

  function SortedName(leq: Order, name: seq<seq<WrittenAva>>): (r: seq<seq<Ava>>)
    requires forall i :: 0 <= i < |name| ==> WritableRdn(name[i])
    ensures |r| == |name|
  {
    if name == [] then []
    else
      assert WritableRdn(name[0]);
      [Sort(leq, Meanings(name[0]))] + SortedName(leq, name[1..])
  }

  lemma {:induction false} SortedAt(leq: Order, name: seq<seq<WrittenAva>>, i: nat)
    requires WritableName(name) && i < |name|
    ensures SortedName(leq, name)[i] == Sort(leq, Meanings(name[i]))
  {
    hide Sort, Meanings, WritableRdn;
    if i > 0 {
      SortedAt(leq, name[1..], i - 1);
    }
  }

  lemma {:induction false} NameParses(leq: Order, name: seq<seq<WrittenAva>>)
    requires WritableName(name)
    ensures RdnKeys(leq, SpellName(name)) == Some(SortedName(leq, name))
  {
    assert forall i :: 0 <= i < |name| ==> name[i] != [];
    hide Sort, Meanings, RdnKey, SpellRdn, WritableRdn;
    if name != [] {
      RdnKeyMeans(leq, name[0]);
      NameParses(leq, name[1..]);
      assert SpellName(name) == [SpellRdn(name[0])] + SpellName(name[1..]);
      assert SpellName(name)[1..] == SpellName(name[1..]);
    }
  }

  /**
   * Two writable names have equal keys exactly when they say the same: the case of attribute names, the way values
   * are escaped, the case of encoded values and the order inside a relative name make no difference, and nothing
   * else is ignored.
   */
  lemma KeyExact(leq: Order, v: seq<seq<WrittenAva>>, w: seq<seq<WrittenAva>>)
    requires WritableName(v) && WritableName(w) && v != [] && w != []
    requires forall i :: 0 <= i < |v| ==> Orders(leq, Meanings(v[i]))
    ensures KeyOf(leq, SpellName(v)).Some?
    ensures KeyOf(leq, SpellName(v)) == KeyOf(leq, SpellName(w)) <==> SameName(v, w)
  {
    assert SpellName(v) != [] && SpellName(w) != [];
    NameParses(leq, v);
    NameParses(leq, w);
    hide Orders, Meanings, Sort, SpellName, RdnKeys, SortedName, WritableRdn;
    if |v| == |w| {
      forall i | 0 <= i < |v|
        ensures SortedName(leq, v)[i] == SortedName(leq, w)[i] <==>
          multiset(Meanings(v[i])) == multiset(Meanings(w[i])) {
        RdnExact(leq, v, w, i);
      }
      Pointwise(SortedName(leq, v), SortedName(leq, w));
    }
  }

  lemma RdnExact(leq: Order, v: seq<seq<WrittenAva>>, w: seq<seq<WrittenAva>>, i: nat)
    requires WritableName(v) && WritableName(w) && i < |v| == |w|
    requires Orders(leq, Meanings(v[i]))
    ensures SortedName(leq, v)[i] == SortedName(leq, w)[i] <==> multiset(Meanings(v[i])) == multiset(Meanings(w[i]))
  {
    assert WritableRdn(v[i]) && WritableRdn(w[i]);
    hide Orders, Meanings, Sort, SortedName;
    SortExact(leq, Meanings(v[i]), Meanings(w[i]));
    SortedAt(leq, v, i);
    SortedAt(leq, w, i);
  }

  // --- Single characters ---

  /** The digits of a byte in both cases. */
  function DigitOf(n: int, upper: bool): char
    requires 0 <= n < 16
  {
    if upper then "0123456789ABCDEF"[n] else "0123456789abcdef"[n]
  }

  /** Every byte is what its two digits decode to, in either case of each. */
  lemma PairExactly(n: int, first: bool, second: bool)
    requires 0 <= n < 256
    ensures Decode(['\\', DigitOf(n / 16, first), DigitOf(n % 16, second)]) == Some([n as char])
  {
    var s := ['\\', DigitOf(n / 16, first), DigitOf(n % 16, second)];
    DigitValue(n / 16, first);
    DigitValue(n % 16, second);
    assert s[3..] == "" && Decode("") == Some("");
    assert [n as char] + "" == [n as char];
  }

  lemma DigitValue(n: int, upper: bool)
    requires 0 <= n < 16
    ensures Hex(DigitOf(n, upper)) && HexValue(DigitOf(n, upper)) == n
  {
  }

  /** A single escaped character stands for itself exactly when it is one of the ten special ones. */
  lemma EscapeExactly(c: char)
    ensures Decode(['\\', c]) == (
      if c in {' ', ',', '+', '"', '\\', '<', '>', ';', '=', '#'} then Some([c]) else None)
  {
    var s := ['\\', c];
    assert s[2..] == "" && Decode("") == Some("") && [c] + "" == [c];
    assert SPECIAL[0] == ' ' && SPECIAL[1] == ',' && SPECIAL[2] == '+' && SPECIAL[3] == '"' && SPECIAL[4] == '\\';
    assert SPECIAL[5] == '<' && SPECIAL[6] == '>' && SPECIAL[7] == ';' && SPECIAL[8] == '=' && SPECIAL[9] == '#';
  }

  /** Only the letters of the alphabet have a lower case here. */
  lemma LowerExactly(c: char)
    ensures forall k :: 0 <= k < 26 && c == "ABCDEFGHIJKLMNOPQRSTUVWXYZ"[k] ==>
      LowerChar(c) == "abcdefghijklmnopqrstuvwxyz"[k]
    ensures !('A' <= c <= 'Z') ==> LowerChar(c) == c
  {
  }

  // --- The library's comparison ---

  /** Byte by byte; a proper prefix comes first. */
  predicate LexLeq(s: string, t: string) {
    s == "" || (t != "" && (s[0] < t[0] || (s[0] == t[0] && LexLeq(s[1..], t[1..]))))
  }

  predicate Letter(c: char) {
    'a' <= c <= 'z' || 'A' <= c <= 'Z'
  }

  predicate Named(s: string) {
    s != "" && Letter(s[0])
  }

  /** Strings compare byte by byte unless both look like numbers, which nothing that begins with a letter does. */
  ghost predicate Library(loose: (string, string) -> bool) {
    && (forall s :: loose(s, s))
    && (forall s, t :: Named(s) || Named(t) ==> loose(s, t) == LexLeq(s, t))
  }

  /** Attribute, kind and value are compared in turn; the first difference decides, and "ber" comes before "text". */
  function Listwise(loose: (string, string) -> bool): Order {
    (a: Ava, b: Ava) =>
      if !(loose(a.attribute, b.attribute) && loose(b.attribute, a.attribute)) then loose(a.attribute, b.attribute)
      else if a.Ber? != b.Ber? then a.Ber?
      else if a.Ber? then loose(a.digits, b.digits)
      else loose(a.bytes, b.bytes)
  }

  /** The attribute types of a relative name differ, and each begins with a letter, as descriptors do. */
  ghost predicate TypesDiffer(s: seq<Ava>) {
    && (forall a :: a in s ==> Named(a.attribute))
    && (forall a, b :: a in s && b in s && a.attribute == b.attribute ==> a == b)
  }

  lemma {:induction false} LexTotal(s: string, t: string)
    ensures LexLeq(s, t) || LexLeq(t, s)
    ensures LexLeq(s, t) && LexLeq(t, s) ==> s == t
  {
    if s != "" && t != "" {
      LexTotal(s[1..], t[1..]);
      assert s == [s[0]] + s[1..] && t == [t[0]] + t[1..];
    }
  }

  lemma {:induction false} LexTransitive(s: string, t: string, u: string)
    requires LexLeq(s, t) && LexLeq(t, u)
    ensures LexLeq(s, u)
  {
    if s != "" && s[0] == t[0] == u[0] {
      LexTransitive(s[1..], t[1..], u[1..]);
    }
  }

  /** With such attribute types the comparison is decided by them alone. */
  lemma ByType(loose: (string, string) -> bool, s: seq<Ava>, a: Ava, b: Ava)
    requires Library(loose) && TypesDiffer(s) && a in s && b in s
    ensures Listwise(loose)(a, b) <==> LexLeq(a.attribute, b.attribute)
    ensures Listwise(loose)(a, b) || Listwise(loose)(b, a)
    ensures Listwise(loose)(a, b) && Listwise(loose)(b, a) ==> a == b
  {
    LexTotal(a.attribute, b.attribute);
    assert Named(a.attribute) && Named(b.attribute);
  }

  lemma TypesOrder(loose: (string, string) -> bool, s: seq<Ava>)
    requires Library(loose) && TypesDiffer(s)
    ensures Orders(Listwise(loose), s)
  {
    var leq := Listwise(loose);
    hide Listwise, LexLeq;
    forall a, b | a in s && b in s
      ensures (leq(a, b) || leq(b, a)) && (leq(a, b) && leq(b, a) ==> a == b) {
      ByType(loose, s, a, b);
    }
    forall a, b, c | a in s && b in s && c in s && leq(a, b) && leq(b, c) ensures leq(a, c) {
      ByType(loose, s, a, b);
      ByType(loose, s, b, c);
      ByType(loose, s, a, c);
      LexTransitive(a.attribute, b.attribute, c.attribute);
    }
  }

  /** The same with the comparison written out, for names whose relative names repeat no attribute type. */
  lemma KeyExactByTypes(loose: (string, string) -> bool, v: seq<seq<WrittenAva>>, w: seq<seq<WrittenAva>>)
    requires Library(loose)
    requires WritableName(v) && WritableName(w) && v != [] && w != []
    requires forall i :: 0 <= i < |v| ==> TypesDiffer(Meanings(v[i]))
    ensures KeyOf(Listwise(loose), SpellName(v)).Some?
    ensures KeyOf(Listwise(loose), SpellName(v)) == KeyOf(Listwise(loose), SpellName(w)) <==> SameName(v, w)
  {
    hide TypesDiffer, Library, Orders, SameName, Meanings, KeyOf;
    forall i | 0 <= i < |v| ensures Orders(Listwise(loose), Meanings(v[i])) {
      TypesOrder(loose, Meanings(v[i]));
    }
    KeyExact(Listwise(loose), v, w);
  }

  lemma Pointwise(s: seq<seq<Ava>>, t: seq<seq<Ava>>)
    requires |s| == |t|
    ensures s == t <==> forall i :: 0 <= i < |s| ==> s[i] == t[i]
  {
  }

  // --- Every name with a key is a written name ---

  function ReadBytes(s: string): seq<Byte>
    requires Decode(s).Some?
  {
    if s == "" then []
    else if s[0] != '\\' then [Plain(s[0])] + ReadBytes(s[1..])
    else if |s| >= 3 && Hex(s[1]) && Hex(s[2]) then [Pair(s[1], s[2])] + ReadBytes(s[3..])
    else [Escaped(s[1])] + ReadBytes(s[2..])
  }

  lemma {:induction false} BytesRead(s: string)
    requires Decode(s).Some? && Passed(s)
    ensures SpellBytes(ReadBytes(s)) == s
    ensures forall i :: 0 <= i < |ReadBytes(s)| ==> WritableByte(ReadBytes(s)[i])
    ensures s != "" ==> ReadBytes(s) != [] && (s[0] != '#' ==> ReadBytes(s)[0] != Plain('#'))
  {
    if s != "" {
      if s[0] != '\\' {
        BytesRead(s[1..]);
      } else if |s| >= 3 && Hex(s[1]) && Hex(s[2]) {
        assert Passed(s[2..]) && s[2..][1..] == s[3..];
        BytesRead(s[3..]);
        assert s == ['\\', s[1], s[2]] + s[3..];
      } else {
        BytesRead(s[2..]);
        assert s == ['\\', s[1]] + s[2..];
      }
    }
  }

  /** Cutting a passed text behind an equals sign leaves two passed texts. */
  lemma {:induction false} PassedCut(a: string, b: string)
    requires Passed(a + ("=" + b))
    ensures Passed(a + "=") && Passed(b)
    decreases |a|
  {
    var s := a + ("=" + b);
    if a == "" {
      assert s[1..] == b && (a + "=")[1..] == "";
    } else if a[0] == '\\' {
      if |a| == 1 {
        assert s[2..] == b && (a + "=")[2..] == "";
      } else {
        assert s[2..] == a[2..] + ("=" + b) && (a + "=")[2..] == a[2..] + "=";
        PassedCut(a[2..], b);
      }
    } else {
      assert s[1..] == a[1..] + ("=" + b) && (a + "=")[1..] == a[1..] + "=";
      PassedCut(a[1..], b);
    }
  }

  lemma ValueWritten(value: string) returns (v: WrittenValue)
    requires Passed(value)
    requires if value != "" && value[0] == '#' then BerDigits(value[1..]) else Decode(value).Some?
    ensures SpellValue(v) == value
    ensures match v
      case Encoded(digits) => BerDigits(digits)
      case Written(bytes) =>
        (forall i :: 0 <= i < |bytes| ==> WritableByte(bytes[i])) && (bytes != [] ==> bytes[0] != Plain('#'))
  {
    if value != "" && value[0] == '#' {
      v := Encoded(value[1..]);
      assert "#" + value[1..] == value;
    } else {
      BytesRead(value);
      v := Written(ReadBytes(value));
    }
  }

  lemma Reassembled(s: string, n: nat)
    requires n < |s| && s[n] == '='
    ensures s[..n + 1] == s[..n] + "=" && s == s[..n] + ("=" + s[n + 1..])
  {
  }

  lemma AvaWritten(s: string) returns (a: WrittenAva)
    requires AvaOf(s).Some? && Passed(s)
    ensures WritableAva(a) && SpellAva(a) == s
  {
    var n := Equals(s);
    Reassembled(s, n);
    PassedCut(s[..n], s[n + 1..]);
    var v := ValueWritten(s[n + 1..]);
    a := WrittenAva(s[..n], v);
    hide Passed, Decode, SpellValue, Equals;
  }

  function Join(parts: seq<string>): string
    requires parts != []
  {
    parts[0] + (if |parts| == 1 then "" else "+" + Join(parts[1..]))
  }

  lemma JoinPlus(part: string, s: string, rest: seq<string>)
    requires s != "" && s[0] == '+' && rest != [] && Join(rest) == "" + s[1..]
    ensures Join([part] + rest) == part + s
  {
    assert ([part] + rest)[1..] == rest;
    assert s == "+" + s[1..];
  }

  lemma Rejoined(part: string, s: string, n: nat)
    requires n <= |s|
    ensures part + s[..n] + s[n..] == part + s
  {
  }

  lemma PassedLonger(part: string, s: string)
    requires Passed(part) && s != "" && s[0] != '+' && (s[0] == '\\' ==> |s| >= 2)
    ensures Passed(part + s[..if s[0] == '\\' then 2 else 1])
  {
    var n := if s[0] == '\\' then 2 else 1;
    assert s[..n][n..] == "";
    PassedTogether(part, s[..n]);
  }

  lemma {:induction false} SplitJoins(s: string, part: string)
    requires Passed(part) && Split(s, part).Some?
    ensures Split(s, part).value != [] && Join(Split(s, part).value) == part + s
    ensures forall i :: 0 <= i < |Split(s, part).value| ==> Passed(Split(s, part).value[i])
    decreases |s|
  {
    assert Passed("");
    hide Passed;
    if s == "" {
      assert part + s == part && part + "" == part;
    } else if s[0] == '+' {
      hide Join;
      SplitJoins(s[1..], "");
      JoinPlus(part, s, Split(s[1..], "").value);
    } else {
      var n := if s[0] == '\\' then 2 else 1;
      hide Join;
      PassedLonger(part, s);
      assert [s[0]] == s[..1];
      SplitJoins(s[n..], part + s[..n]);
      Rejoined(part, s, n);
    }
  }

  lemma {:induction false} PartsWritten(parts: seq<string>) returns (avas: seq<WrittenAva>)
    requires parts != [] && AvasOf(parts).Some?
    requires forall i :: 0 <= i < |parts| ==> Passed(parts[i])
    ensures WritableRdn(avas) && SpellRdn(avas) == Join(parts)
  {
    var first := AvaWritten(parts[0]);
    if |parts| == 1 {
      avas := [first];
    } else {
      var rest := PartsWritten(parts[1..]);
      avas := [first] + rest;
      assert avas[1..] == rest;
    }
  }

  /** Every relative name that has a key is the spelling of a written one. */
  lemma RdnWritten(leq: Order, rdn: string) returns (avas: seq<WrittenAva>)
    requires RdnKey(leq, rdn).Some?
    ensures WritableRdn(avas) && SpellRdn(avas) == rdn
  {
    SplitJoins(rdn, "");
    assert "" + rdn == rdn;
    avas := PartsWritten(Split(rdn, "").value);
  }

  lemma {:induction false} RdnsWritten(leq: Order, rdns: seq<string>) returns (name: seq<seq<WrittenAva>>)
    requires RdnKeys(leq, rdns).Some?
    ensures WritableName(name) && (forall i :: 0 <= i < |name| ==> name[i] != []) && SpellName(name) == rdns
  {
    if rdns == [] {
      name := [];
    } else {
      var first := RdnWritten(leq, rdns[0]);
      var rest := RdnsWritten(leq, rdns[1..]);
      hide WritableRdn, SpellRdn, RdnKey;
      name := [first] + rest;
      assert first != [] by {
        Inhabited(first);
      }
      assert name[1..] == rest;
    }
  }

  lemma Inhabited(avas: seq<WrittenAva>)
    requires WritableRdn(avas)
    ensures avas != []
  {
  }

  /** So KeyExact speaks about every name that has a key. */
  lemma NameWritten(leq: Order, rdns: seq<string>) returns (name: seq<seq<WrittenAva>>)
    requires KeyOf(leq, rdns).Some?
    ensures WritableName(name) && name != [] && (forall i :: 0 <= i < |name| ==> name[i] != [])
      && SpellName(name) == rdns
  {
    name := RdnsWritten(leq, rdns);
  }
}
