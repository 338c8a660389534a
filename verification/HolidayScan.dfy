/**
 * The scan for repeated JSON field names (lib/holiday_refill.php) against the
 * meaning of the text: section 4 of RFC 8259 lets an object repeat a name, and
 * decoding alone would silently keep one of the values.
 */
module HolidayScan {
  import opened Wrappers

  // --- Texts and what they denote ---

  /** A value with the white space around it. */
  datatype Value = Value(before: string, core: Core, after: string)

  /** `gap` is the white space inside empty brackets; a quoted text is kept as written between its quotes. */
  datatype Core =
    | Literal(text: string)
    | Quoted(raw: string)
    | Array(gap: string, items: seq<Value>)
    | Object(gap: string, members: seq<Member>)

  datatype Member = Member(before: string, raw: string, after: string, value: Value)

  predicate Blank(s: string) {
    forall i :: 0 <= i < |s| ==> s[i] in " \t\n\r"
  }

  /** A number, true, false or null. */
  predicate PlainText(s: string) {
    forall i :: 0 <= i < |s| ==> s[i] !in "\"{}:"
  }

  /** What may stand between quotes: no bare quote, and a backslash takes the next character with it. */
  predicate RawText(s: string) {
    if s == "" then true
    else if s[0] == '"' then false
    else if s[0] == '\\' then |s| >= 2 && RawText(s[2..])
    else RawText(s[1..])
  }

  predicate WellFormed(v: Value) {
    && Blank(v.before) && Blank(v.after)
    && match v.core
       case Literal(text) => PlainText(text)
       case Quoted(raw) => RawText(raw)
       case Array(gap, items) => Blank(gap) && forall i :: 0 <= i < |items| ==> WellFormed(items[i])
       case Object(gap, members) => Blank(gap) && forall i :: 0 <= i < |members| ==> WellFormedMember(members[i])
  }

  predicate WellFormedMember(m: Member) {
    Blank(m.before) && RawText(m.raw) && Blank(m.after) && WellFormed(m.value)
  }

  function Spell(v: Value): string
    decreases v, 0
  {
    v.before + SpellCore(v.core) + v.after
  }

  function SpellCore(c: Core): string
    decreases c, 0
  {
    match c
    case Literal(text) => text
    case Quoted(raw) => "\"" + raw + "\""
    case Array(gap, items) => "[" + (if items == [] then gap else SpellItems(items)) + "]"
    case Object(gap, members) => "{" + (if members == [] then gap else SpellMembers(members)) + "}"
  }

  function SpellItems(items: seq<Value>): string
    decreases items, 1
  {
    if items == [] then ""
    else Spell(items[0]) + (if |items| == 1 then "" else "," + SpellItems(items[1..]))
  }

  function SpellMember(m: Member): string
    decreases m, 0
  {
    m.before + "\"" + m.raw + "\"" + m.after + ":" + Spell(m.value)
  }

  function SpellMembers(members: seq<Member>): string
    decreases members, 1
  {
    if members == [] then ""
    else SpellMember(members[0]) + (if |members| == 1 then "" else "," + SpellMembers(members[1..]))
  }

  // --- Tokens ---

  datatype Token = Open | Close | Colon | Quote(raw: string)

  /** The position behind the closing quote of a string whose body begins at i. */
  function StringEnd(s: string, i: nat): (end: Option<nat>)
    ensures end.Some? ==> i < end.value <= |s|
    decreases |s| - i
  {
    if i >= |s| then None
    else if s[i] == '"' then Some(i + 1)
    else if s[i] == '\\' then (if i + 1 < |s| then StringEnd(s, i + 2) else None)
    else StringEnd(s, i + 1)
  }

  /** All matches from left to right; characters that begin no match are skipped. */
  function Lex(s: string): seq<Token> {
    if s == "" then []
    else if s[0] == '{' then [Open] + Lex(s[1..])
    else if s[0] == '}' then [Close] + Lex(s[1..])
    else if s[0] == ':' then [Colon] + Lex(s[1..])
    else if s[0] == '"' && StringEnd(s, 1).Some? then
      var end := StringEnd(s, 1).value;
      [Quote(s[1..end - 1])] + Lex(s[end..])
    else Lex(s[1..])
  }

  function Flat(v: Value): seq<Token>
    decreases v, 0
  {
    match v.core
    case Literal(_) => []
    case Quoted(raw) => [Quote(raw)]
    case Array(_, items) => FlatItems(items)
    case Object(_, members) => [Open] + FlatMembers(members) + [Close]
  }

  function FlatItems(items: seq<Value>): seq<Token>
    decreases items, 1
  {
    if items == [] then [] else Flat(items[0]) + FlatItems(items[1..])
  }

  function FlatMembers(members: seq<Member>): seq<Token>
    decreases members, 1
  {
    if members == [] then [] else [Quote(members[0].raw), Colon] + Flat(members[0].value) + FlatMembers(members[1..])
  }

  lemma {:induction false} LexSkips(a: string, b: string)
    requires PlainText(a)
    ensures Lex(a + b) == Lex(b)
  {
    if a == "" {
      assert a + b == b;
    } else {
      assert a[0] !in "\"{}:";
      assert (a + b)[1..] == a[1..] + b;
      LexSkips(a[1..], b);
    }
  }

  lemma BlankSkips(a: string, b: string)
    requires Blank(a)
    ensures Lex(a + b) == Lex(b)
  {
    LexSkips(a, b);
  }

  lemma {:induction false} StringEnds(s: string, i: nat, raw: string)
    requires RawText(raw) && i + |raw| < |s| && s[i..i + |raw|] == raw && s[i + |raw|] == '"'
    ensures StringEnd(s, i) == Some(i + |raw| + 1)
    decreases |raw|
  {
    if raw != "" {
      assert s[i] == raw[0];
      if raw[0] == '\\' {
        assert s[i + 2..i + 2 + |raw[2..]|] == raw[2..];
        StringEnds(s, i + 2, raw[2..]);
      } else {
        assert s[i + 1..i + 1 + |raw[1..]|] == raw[1..];
        StringEnds(s, i + 1, raw[1..]);
      }
    }
  }

  lemma LexQuotes(raw: string, b: string)
    requires RawText(raw)
    ensures Lex("\"" + raw + "\"" + b) == [Quote(raw)] + Lex(b)
  {
    var s := "\"" + raw + "\"" + b;
    StringEnds(s, 1, raw);
    assert s[1..|raw| + 1] == raw;
    assert s[|raw| + 2..] == b;
  }

  lemma LexSymbol(c: char, b: string)
    requires c in "{}:[],"
    ensures Lex([c] + b) ==
      (if c == '{' then [Open] else if c == '}' then [Close] else if c == ':' then [Colon] else []) + Lex(b)
  {
    assert ([c] + b)[1..] == b;
  }

  /** The tokens of a text are those of the value it spells, whatever punctuation its strings contain. */
  lemma {:induction false} LexSpell(v: Value, b: string)
    requires WellFormed(v)
    ensures Lex(Spell(v) + b) == Flat(v) + Lex(b)
    decreases v, 0
  {
    hide Lex;
    var c := SpellCore(v.core);
    assert Spell(v) + b == v.before + (c + (v.after + b));
    BlankSkips(v.before, c + (v.after + b));
    BlankSkips(v.after, b);
    LexCore(v, v.after + b);
  }

  lemma {:induction false} LexCore(v: Value, b: string)
    requires WellFormed(v)
    ensures Lex(SpellCore(v.core) + b) == Flat(v) + Lex(b)
    decreases v.core, 0
  {
    hide Lex;
    match v.core
    case Literal(text) => LexSkips(text, b);
    case Quoted(raw) => LexQuotes(raw, b);
    case Array(gap, items) =>
      var inner := if items == [] then gap else SpellItems(items);
      assert SpellCore(v.core) + b == ['['] + (inner + ([']'] + b));
      LexSymbol('[', inner + ([']'] + b));
      LexSymbol(']', b);
      if items == [] {
        BlankSkips(gap, [']'] + b);
      } else {
        LexItems(items, [']'] + b);
      }
    case Object(gap, members) =>
      var inner := if members == [] then gap else SpellMembers(members);
      assert SpellCore(v.core) + b == ['{'] + (inner + (['}'] + b));
      LexSymbol('{', inner + (['}'] + b));
      LexSymbol('}', b);
      if members == [] {
        BlankSkips(gap, ['}'] + b);
      } else {
        LexMembers(members, ['}'] + b);
      }
  }

  lemma {:induction false} LexItems(items: seq<Value>, b: string)
    requires items != [] && forall i :: 0 <= i < |items| ==> WellFormed(items[i])
    ensures Lex(SpellItems(items) + b) == FlatItems(items) + Lex(b)
    decreases items, 1
  {
    hide Lex;
    if |items| == 1 {
      LexSpell(items[0], b);
      assert items[1..] == [];
      assert SpellItems(items) == Spell(items[0]) && FlatItems(items) == Flat(items[0]);
    } else {
      var rest := SpellItems(items[1..]) + b;
      assert SpellItems(items) + b == Spell(items[0]) + ([','] + rest);
      LexSpell(items[0], [','] + rest);
      LexSymbol(',', rest);
      LexItems(items[1..], b);
      assert [] + Lex(rest) == Lex(rest);
      assert Flat(items[0]) + (FlatItems(items[1..]) + Lex(b)) == FlatItems(items) + Lex(b);
    }
  }

  lemma LexMember(m: Member, b: string)
    requires WellFormedMember(m)
    ensures Lex(SpellMember(m) + b) == [Quote(m.raw), Colon] + Flat(m.value) + Lex(b)
    decreases m, 0
  {
    hide Lex;
    var value := Spell(m.value) + b;
    assert SpellMember(m) + b == m.before + ("\"" + m.raw + "\"" + (m.after + ([':'] + value)));
    BlankSkips(m.before, "\"" + m.raw + "\"" + (m.after + ([':'] + value)));
    LexQuotes(m.raw, m.after + ([':'] + value));
    BlankSkips(m.after, [':'] + value);
    LexSymbol(':', value);
    LexSpell(m.value, b);
  }

  lemma {:induction false} LexMembers(members: seq<Member>, b: string)
    requires members != [] && forall i :: 0 <= i < |members| ==> WellFormedMember(members[i])
    ensures Lex(SpellMembers(members) + b) == FlatMembers(members) + Lex(b)
    decreases members, 1
  {
    hide Lex;
    if |members| == 1 {
      LexMember(members[0], b);
      assert members[1..] == [];
      assert SpellMembers(members) == SpellMember(members[0]);
      assert FlatMembers(members) == [Quote(members[0].raw), Colon] + Flat(members[0].value);
    } else {
      var rest := SpellMembers(members[1..]) + b;
      assert SpellMembers(members) + b == SpellMember(members[0]) + ([','] + rest);
      LexMember(members[0], [','] + rest);
      LexSymbol(',', rest);
      LexMembers(members[1..], b);
      assert [] + Lex(rest) == Lex(rest);
      assert [Quote(members[0].raw), Colon] + Flat(members[0].value) + (FlatMembers(members[1..]) + Lex(b))
        == FlatMembers(members) + Lex(b);
    }
  }

  // --- Repeated names ---

  /** Some object at any depth has two members whose decoded names are equal. */
  ghost predicate Repeats(v: Value, decode: string -> string) {
    match v.core
    case Literal(_) => false
    case Quoted(_) => false
    case Array(_, items) => exists i :: 0 <= i < |items| && Repeats(items[i], decode)
    case Object(_, members) =>
      || (exists i, j :: 0 <= i < j < |members| && decode(members[i].raw) == decode(members[j].raw))
      || (exists i :: 0 <= i < |members| && RepeatsIn(members[i], decode))
  }

  ghost predicate RepeatsIn(m: Member, decode: string -> string) {
    Repeats(m.value, decode)
  }

  /** The token is a name of the innermost open object. */
  predicate NameAt(tokens: seq<Token>, i: nat) {
    i < |tokens| && tokens[i].Quote? && i + 1 < |tokens| && tokens[i + 1].Colon?
  }

  /** What the scan of the rest of the tokens comes to, given the names seen in every open object. */
  function ScanFrom(tokens: seq<Token>, i: nat, stack: seq<set<string>>, decode: string -> string): bool
    requires i <= |tokens|
    decreases |tokens| - i
  {
    if i == |tokens| then false
    else if NameAt(tokens, i) then
      var name := decode(tokens[i].raw);
      if stack == [] || name in stack[|stack| - 1] then true
      else ScanFrom(tokens, i + 1, stack[..|stack| - 1] + [stack[|stack| - 1] + {name}], decode)
    else
      match tokens[i]
      case Open => ScanFrom(tokens, i + 1, stack + [{}], decode)
      case Close => ScanFrom(tokens, i + 1, if stack == [] then [] else stack[..|stack| - 1], decode)
      case _ => ScanFrom(tokens, i + 1, stack, decode)
  }

  method Scan(tokens: seq<Token>, decode: string -> string) returns (repeated: bool)
    ensures repeated == ScanFrom(tokens, 0, [], decode)
  {
    var stack: seq<set<string>> := [];
    for i := 0 to |tokens|
      invariant ScanFrom(tokens, i, stack, decode) == ScanFrom(tokens, 0, [], decode)
    {
      var token := tokens[i];
      if token.Open? {
        stack := stack + [{}];
      } else if token.Close? {
        if stack != [] {
          stack := stack[..|stack| - 1];
        }
      } else if token.Quote? && i + 1 < |tokens| && tokens[i + 1].Colon? {
        var key := decode(token.raw);
        var n := |stack| - 1;
        if n < 0 || key in stack[n] {
          return true;
        }
        stack := stack[..n] + [stack[n] + {key}];
      }
    }
    return false;
  }

  /** The scan of a part of the tokens only depends on what is still to come. */
  lemma {:induction false} ScanShift(a: seq<Token>, b: seq<Token>, i: nat, stack: seq<set<string>>,
                                     decode: string -> string)
    requires i <= |b|
    ensures ScanFrom(a + b, |a| + i, stack, decode) == ScanFrom(b, i, stack, decode)
    decreases |b| - i
  {
    if i < |b| {
      assert (a + b)[|a| + i] == b[i];
      assert NameAt(a + b, |a| + i) == NameAt(b, i);
      if NameAt(b, i) {
        var name := decode(b[i].raw);
        if stack != [] && name !in stack[|stack| - 1] {
          ScanShift(a, b, i + 1, stack[..|stack| - 1] + [stack[|stack| - 1] + {name}], decode);
        }
      } else {
        match b[i]
        case Open => ScanShift(a, b, i + 1, stack + [{}], decode);
        case Close => ScanShift(a, b, i + 1, if stack == [] then [] else stack[..|stack| - 1], decode);
        case _ => ScanShift(a, b, i + 1, stack, decode);
      }
    }
  }

  function Scanned(tokens: seq<Token>, stack: seq<set<string>>, decode: string -> string): bool {
    ScanFrom(tokens, 0, stack, decode)
  }

  lemma ScanOne(t: Token, b: seq<Token>, stack: seq<set<string>>, decode: string -> string)
    requires !(t.Quote? && b != [] && b[0].Colon?)
    ensures Scanned([t] + b, stack, decode) ==
      match t
      case Open => Scanned(b, stack + [{}], decode)
      case Close => Scanned(b, if stack == [] then [] else stack[..|stack| - 1], decode)
      case _ => Scanned(b, stack, decode)
  {
    var next := match t
      case Open => stack + [{}]
      case Close => (if stack == [] then [] else stack[..|stack| - 1])
      case _ => stack;
    ScanShift([t], b, 0, next, decode);
  }

  lemma ScanName(raw: string, b: seq<Token>, stack: seq<set<string>>, seen: set<string>, decode: string -> string)
    ensures Scanned([Quote(raw), Colon] + b, stack + [seen], decode) ==
      (decode(raw) in seen || Scanned(b, stack + [seen + {decode(raw)}], decode))
  {
    var tokens := [Quote(raw), Colon] + b;
    assert NameAt(tokens, 0) && !NameAt(tokens, 1);
    var top := stack + [seen];
    var after := stack + [seen + {decode(raw)}];
    assert top[..|top| - 1] + [top[|top| - 1] + {decode(raw)}] == after;
    ScanShift([Quote(raw), Colon], b, 0, after, decode);
    assert tokens[0] == Quote(raw) && tokens[1] == Colon;
    assert ScanFrom(tokens, 1, after, decode) == ScanFrom(tokens, 2, after, decode);
    assert top != [] && top[|top| - 1] == seen;
  }

  /** The rest does not turn a preceding text into a name. */
  predicate Follows(b: seq<Token>) {
    b != [] ==> !b[0].Colon?
  }

  lemma {:induction false} FlatFollows(v: Value, b: seq<Token>)
    requires Follows(b)
    ensures Follows(Flat(v) + b)
    decreases v
  {
    match v.core
    case Literal(_) => assert Flat(v) + b == b;
    case Quoted(raw) => assert (Flat(v) + b)[0] == Quote(raw);
    case Array(_, items) => ItemsFollow(items, b);
    case Object(_, _) => assert (Flat(v) + b)[0] == Open;
  }

  lemma {:induction false} ItemsFollow(items: seq<Value>, b: seq<Token>)
    requires Follows(b)
    ensures Follows(FlatItems(items) + b)
    decreases items
  {
    if items == [] {
      assert FlatItems(items) + b == b;
    } else {
      ItemsFollow(items[1..], b);
      FlatFollows(items[0], FlatItems(items[1..]) + b);
      assert FlatItems(items) + b == Flat(items[0]) + (FlatItems(items[1..]) + b);
    }
  }

  /** The scan of a value finds exactly its repeated names, and otherwise leaves the open objects as they were. */
  lemma {:induction false} ScanValue(v: Value, b: seq<Token>, stack: seq<set<string>>, decode: string -> string)
    requires Follows(b)
    ensures Scanned(Flat(v) + b, stack, decode) == (Repeats(v, decode) || Scanned(b, stack, decode))
    decreases v, 0
  {
    hide Scanned;
    match v.core
    case Literal(_) => assert Flat(v) + b == b;
    case Quoted(raw) => ScanOne(Quote(raw), b, stack, decode);
    case Array(_, items) => ScanItems(items, b, stack, decode);
    case Object(_, members) =>
      var rest := [Close] + b;
      assert Flat(v) + b == [Open] + (FlatMembers(members) + rest);
      ScanOne(Open, FlatMembers(members) + rest, stack, decode);
      ScanMembers(members, rest, stack, {}, decode);
      ScanOne(Close, b, stack + [Names(members, decode)], decode);
      assert (stack + [Names(members, decode)])[..|stack|] == stack;
      assert {} + Names(members, decode) == Names(members, decode);
  }

  lemma {:induction false} ScanItems(items: seq<Value>, b: seq<Token>, stack: seq<set<string>>,
                                     decode: string -> string)
    requires Follows(b)
    ensures Scanned(FlatItems(items) + b, stack, decode) ==
      ((exists i :: 0 <= i < |items| && Repeats(items[i], decode)) || Scanned(b, stack, decode))
    decreases items, 1
  {
    hide Scanned, Repeats;
    if items == [] {
      assert FlatItems(items) + b == b;
    } else {
      var rest := FlatItems(items[1..]) + b;
      assert FlatItems(items) + b == Flat(items[0]) + rest;
      ItemsFollow(items[1..], b);
      ScanValue(items[0], rest, stack, decode);
      ScanItems(items[1..], b, stack, decode);
      assert forall i :: 0 <= i < |items[1..]| ==> items[1..][i] == items[i + 1];
      assert forall i :: 1 <= i < |items| ==> items[i] == items[1..][i - 1];
    }
  }

  ghost function Names(members: seq<Member>, decode: string -> string): set<string> {
    set i | 0 <= i < |members| :: decode(members[i].raw)
  }

  /** Some member repeats one of the seen names or an earlier one, or its value repeats a name. */
  ghost predicate MembersRepeat(members: seq<Member>, seen: set<string>, decode: string -> string) {
    || (exists i :: 0 <= i < |members| && decode(members[i].raw) in seen)
    || (exists i, j :: 0 <= i < j < |members| && decode(members[i].raw) == decode(members[j].raw))
    || (exists i :: 0 <= i < |members| && RepeatsIn(members[i], decode))
  }

  lemma MembersRepeatStep(members: seq<Member>, seen: set<string>, decode: string -> string)
    requires members != []
    ensures MembersRepeat(members, seen, decode) <==>
      || decode(members[0].raw) in seen
      || RepeatsIn(members[0], decode)
      || MembersRepeat(members[1..], seen + {decode(members[0].raw)}, decode)
  {
    hide RepeatsIn;
    var rest := members[1..];
    var more := seen + {decode(members[0].raw)};
    assert forall i :: 0 <= i < |rest| ==> rest[i] == members[i + 1];
    assert forall i :: 1 <= i < |members| ==> members[i] == rest[i - 1];
    if i :| 0 <= i < |members| && decode(members[i].raw) in seen && i > 0 {
      assert decode(rest[i - 1].raw) in more;
    }
    if i, j :| 0 <= i < j < |members| && decode(members[i].raw) == decode(members[j].raw) {
      if i == 0 {
        assert decode(rest[j - 1].raw) in more;
      } else {
        assert decode(rest[i - 1].raw) == decode(rest[j - 1].raw);
      }
    }
    if i :| 0 <= i < |members| && RepeatsIn(members[i], decode) && i > 0 {
      assert RepeatsIn(rest[i - 1], decode);
    }
    if i :| 0 <= i < |rest| && decode(rest[i].raw) in more {
      assert decode(members[i + 1].raw) in seen || decode(members[0].raw) == decode(members[i + 1].raw);
    }
    if i, j :| 0 <= i < j < |rest| && decode(rest[i].raw) == decode(rest[j].raw) {
      assert decode(members[i + 1].raw) == decode(members[j + 1].raw);
    }
    if i :| 0 <= i < |rest| && RepeatsIn(rest[i], decode) {
      assert RepeatsIn(members[i + 1], decode);
    }
  }

  lemma {:induction false} ScanMembers(members: seq<Member>, b: seq<Token>, stack: seq<set<string>>, seen: set<string>,
                                       decode: string -> string)
    requires Follows(b)
    ensures Scanned(FlatMembers(members) + b, stack + [seen], decode) ==
      (MembersRepeat(members, seen, decode) || Scanned(b, stack + [seen + Names(members, decode)], decode))
    decreases members, 1
  {
    hide Scanned, MembersRepeat;
    if members == [] {
      assert FlatMembers(members) + b == b;
      assert seen + Names(members, decode) == seen;
      assert !MembersRepeat(members, seen, decode) by {
        NoMembers(seen, decode);
      }
    } else {
      var m := members[0];
      var name := decode(m.raw);
      var rest := FlatMembers(members[1..]) + b;
      assert FlatMembers(members) + b == [Quote(m.raw), Colon] + (Flat(m.value) + rest);
      ScanName(m.raw, Flat(m.value) + rest, stack, seen, decode);
      assert Follows(rest) by {
        if members[1..] == [] {
          assert rest == b;
        }
      }
      ScanValue(m.value, rest, stack + [seen + {name}], decode);
      ScanMembers(members[1..], b, stack, seen + {name}, decode);
      MembersRepeatStep(members, seen, decode);
      NamesStep(members, decode);
      assert seen + {name} + Names(members[1..], decode) == seen + Names(members, decode);
    }
  }

  lemma NoMembers(seen: set<string>, decode: string -> string)
    ensures !MembersRepeat([], seen, decode)
  {
  }

  lemma NamesStep(members: seq<Member>, decode: string -> string)
    requires members != []
    ensures Names(members, decode) == {decode(members[0].raw)} + Names(members[1..], decode)
  {
    var rest := members[1..];
    forall n | n in Names(members, decode) ensures n in {decode(members[0].raw)} + Names(rest, decode) {
      var i :| 0 <= i < |members| && decode(members[i].raw) == n;
      if i > 0 {
        assert decode(rest[i - 1].raw) == n;
      }
    }
    forall n | n in Names(rest, decode) ensures n in Names(members, decode) {
      var i :| 0 <= i < |rest| && decode(rest[i].raw) == n;
      assert decode(members[i + 1].raw) == n;
    }
  }

  /** The linear scan of a JSON text rejects it exactly when some object in it repeats a decoded name. */
  lemma ScanExact(v: Value, decode: string -> string)
    requires WellFormed(v)
    ensures ScanFrom(Lex(Spell(v)), 0, [], decode) <==> Repeats(v, decode)
  {
    LexSpell(v, "");
    assert Spell(v) + "" == Spell(v);
    assert Flat(v) + [] == Flat(v);
    ScanValue(v, [], [], decode);
  }
}
