/** JSON texts character by character (section 2 of RFC 4627): what each kind of value is printed as,
    which escapes there are, and where white space may stand. */
module JsonWire {
  import opened Options
  import opened Decimal
  import opened Json
  import opened JsonMemory

  // ----- strings

  /** The text of one character between quotes. */
  function Spelled(c: char): string {
    if c == '\"' then "\\\""
    else if c == '\\' then "\\\\"
    else if c == '\U{0008}' then "\\b"
    else if c == '\U{000C}' then "\\f"
    else if c == '\n' then "\\n"
    else if c == '\r' then "\\r"
    else if c == '\t' then "\\t"
    else if c as int < 32 then ""
    else [c]
  }

  lemma {:induction false} CharsAround(a: string, c: char, b: string)
    ensures PrintChars(a + ([c] + b)) == PrintChars(a) + (PrintChar(c) + PrintChars(b))
  {
    hide PrintChar; hide PrintChars;
    var t := a + ([c] + b);
    CharsStep(t);
    if a == [] {
      assert t[0] == c && t[1..] == b;
      NoChars();
    } else {
      CharsStep(a);
      CharsAround(a[1..], c, b);
      assert t[0] == a[0] && t[1..] == a[1..] + ([c] + b);
    }
  }

  lemma CharsStep(t: string)
    requires t != []
    ensures PrintChars(t) == PrintChar(t[0]) + PrintChars(t[1..])
  {}

  lemma NoChars()
    ensures PrintChars([]) == []
  {}

  /** Every character of a string is printed as its spelling, whatever is around it. */
  lemma CharPrinted(a: string, c: char, b: string)
    ensures PrintString(a + ([c] + b)) == "\"" + (PrintChars(a) + (Spelled(c) + PrintChars(b))) + "\""
    ensures PrintString("") == "\"\""
  {
    SpellingPrinted(c);
    NoChars();
    hide PrintChar; hide Spelled; hide PrintChars;
    CharsAround(a, c, b);
  }

  lemma SpellingPrinted(c: char)
    ensures PrintChar(c) == Spelled(c)
  {}

  /** The escapes, spelled out. */
  lemma EscapesPrinted()
    ensures PrintString("\n") == "\"\\n\"" && PrintString("\r") == "\"\\r\"" && PrintString("\t") == "\"\\t\""
    ensures PrintString("\U{0008}") == "\"\\b\"" && PrintString("\U{000C}") == "\"\\f\""
    ensures PrintString("\"") == "\"\\\"\"" && PrintString("\\") == "\"\\\\\"" && PrintString("/") == "\"/\""
  {
    OneCharPrinted('\n');
    OneCharPrinted('\r');
    OneCharPrinted('\t');
    OneCharPrinted('\U{0008}');
    OneCharPrinted('\U{000C}');
    OneCharPrinted('\"');
    OneCharPrinted('\\');
    OneCharPrinted('/');
  }

  lemma OneCharPrinted(c: char)
    ensures PrintString([c]) == "\"" + Spelled(c) + "\""
  {
    CharPrinted([], c, []);
    assert [] + ([c] + []) == [c] && PrintChars([]) == [];
    assert [] + (Spelled(c) + []) == Spelled(c);
  }

  /** What the letter after a backslash stands for; `u` is not modelled. */
  function Meant(x: char): char {
    if x == 'b' then '\U{0008}'
    else if x == 'f' then '\U{000C}'
    else if x == 'n' then '\n'
    else if x == 'r' then '\r'
    else if x == 't' then '\t'
    else x
  }

  /** A string is read character by character: a plain one stands for itself, */
  lemma PlainParsed(c: char, tail: string)
    requires c as int >= 32 && c != '\"' && c != '\\'
    ensures ParseString("\"" + ([c] + tail))
         == match ParseString("\"" + tail) case None => None case Some(p) => Some(([c] + p.0, p.1))
  {
    assert ("\"" + ([c] + tail))[1..] == [c] + tail && ([c] + tail)[1..] == tail && ("\"" + tail)[1..] == tail;
  }

  /** a backslash and a letter for what is meant, also by letters that are never printed, */
  lemma EscapeParsed(x: char, tail: string)
    requires x != 'u'
    ensures ParseString("\"" + (['\\', x] + tail))
         == match ParseString("\"" + tail) case None => None case Some(p) => Some(([Meant(x)] + p.0, p.1))
    ensures Meant('b') == '\U{0008}' && Meant('f') == '\U{000C}' && Meant('n') == '\n' && Meant('r') == '\r'
    ensures Meant('t') == '\t' && Meant('/') == '/' && Meant('\"') == '\"' && Meant('\\') == '\\'
  {
    assert ("\"" + (['\\', x] + tail))[1..] == ['\\', x] + tail && (['\\', x] + tail)[2..] == tail;
    assert ("\"" + tail)[1..] == tail;
  }

  /** and a quote ends it; so do a control character, which is left, and the end of the text. */
  lemma EndParsed(c: char, rest: string)
    ensures ParseString("\"" + ("\"" + rest)) == Some(("", rest))
    ensures c as int < 32 ==> ParseString("\"" + ([c] + rest)) == Some(("", [c] + rest))
    ensures ParseString("\"") == Some(("", ""))
  {
    assert ("\"" + ("\"" + rest))[1..] == "\"" + rest && ("\"" + rest)[1..] == rest;
    assert ("\"" + ([c] + rest))[1..] == [c] + rest;
    assert "\""[1..] == [];
  }

  // ----- values

  /** The words, numbers and empty collections. */
  lemma LeavesPrinted(n: int, s: string, depth: nat)
    ensures Print(Null, depth, true) == "null" && Print(Null, depth, false) == "null"
    ensures Print(True, depth, true) == "true" && Print(True, depth, false) == "true"
    ensures Print(False, depth, true) == "false" && Print(False, depth, false) == "false"
    ensures Print(Number(n), depth, true) == PrintInt(n) == Print(Number(n), depth, false)
    ensures Print(Text(s), depth, true) == PrintString(s) == Print(Text(s), depth, false)
    ensures Print(Array([]), depth, true) == "[]" == Print(Array([]), depth, false)
    ensures Print(Object([]), depth, false) == "{}"
    ensures Print(Object([]), depth, true) == "{\n" + seq(depth, _ => '\t') + "}"
  {
    hide PrintInt; hide PrintString;
  }

  /** Items with a comma between them, and a space behind it when formatted. */
  lemma {:induction false} ItemsPrinted(v: Value, rest: seq<Value>, depth: nat, fmt: bool)
    ensures Print(Array([v]), depth, fmt) == "[" + (Print(v, depth + 1, fmt) + "]")
    ensures rest != [] ==>
              Print(Array([v] + rest), depth, fmt)
              == "[" + (Print(v, depth + 1, fmt) + ((if fmt then ", " else ",") + Print(Array(rest), depth, fmt)[1..]))
  {
    hide Print;
    ArrayText([v], depth, fmt);
    ArrayText([v] + rest, depth, fmt);
    ArrayText(rest, depth, fmt);
    ItemFirst(v, [], depth + 1, fmt);
    ItemFirst(v, rest, depth + 1, fmt);
    hide PrintItems;
    assert [v] + [] == [v];
    assert Print(v, depth + 1, fmt) + "" == Print(v, depth + 1, fmt);
  }

  lemma ArrayText(items: seq<Value>, depth: nat, fmt: bool)
    ensures Print(Array(items), depth, fmt) == "[" + (PrintItems(items, depth + 1, fmt) + "]")
  {
    hide PrintItems;
  }

  lemma {:induction false} ItemFirst(v: Value, rest: seq<Value>, depth: nat, fmt: bool)
    ensures PrintItems([v] + rest, depth, fmt)
         == Print(v, depth, fmt)
            + if rest == [] then "" else (if fmt then ", " else ",") + PrintItems(rest, depth, fmt)
  {
    hide Print;
    var all := [v] + rest;
    assert all[0] == v && all[1..] == rest;
  }

  /** A name, a colon and a value; when formatted, behind as many tabs as it is deep, and with a tab
      behind the colon. */
  function MemberSpelled(m: Member, depth: nat, fmt: bool): string {
    if fmt then seq(depth, _ => '\t') + (PrintString(m.name) + (":\t" + Print(m.value, depth, fmt)))
    else PrintString(m.name) + (":" + Print(m.value, depth, fmt))
  }

  /** Members with commas between them; when formatted, each on a line of its own. */
  lemma {:induction false} LastMemberPrinted(m: Member, depth: nat, fmt: bool)
    ensures var nl, tabs := if fmt then "\n" else "", if fmt then seq(depth, _ => '\t') else "";
            Print(Object([m]), depth, fmt) == "{" + (nl + (MemberSpelled(m, depth + 1, fmt) + (nl + (tabs + "}"))))
  {
    var tabs := if fmt then seq(depth, _ => '\t') else "";
    assert tabs == if fmt then Tabs(depth) else "";
    assert PrintMembers([], depth + 1, fmt) == "" && [m] + [] == [m];
    hide *;
    ObjectText([m], depth, fmt);
    MemberFirst(m, [], depth + 1, fmt);
    Ungrouped(MemberSpelled(m, depth + 1, fmt), "", if fmt then "\n" else "", "", tabs + "}");
  }

  lemma {:induction false} MembersPrinted(m: Member, rest: seq<Member>, depth: nat, fmt: bool)
    requires rest != []
    ensures Print(Object([m] + rest), depth, fmt)
         == "{" + ((if fmt then "\n" else "")
                   + (MemberSpelled(m, depth + 1, fmt) + ("," + Print(Object(rest), depth, fmt)[1..])))
  {
    hide *;
    ObjectText([m] + rest, depth, fmt);
    ObjectText(rest, depth, fmt);
    MemberFirst(m, rest, depth + 1, fmt);
    var nl, closing := if fmt then "\n" else "", (if fmt then Tabs(depth) else "") + "}";
    var more := PrintMembers(rest, depth + 1, fmt);
    Ungrouped(MemberSpelled(m, depth + 1, fmt), ",", nl, more, closing);
    assert ("{" + (nl + (more + closing)))[1..] == nl + (more + closing);
  }

  lemma Ungrouped(a: string, b: string, c: string, d: string, e: string)
    ensures (a + (b + (c + d))) + e == a + (b + (c + (d + e)))
    ensures b == "" && d == "" ==> (a + (b + (c + d))) + e == a + (c + e)
  {}

  lemma ObjectText(members: seq<Member>, depth: nat, fmt: bool)
    ensures Print(Object(members), depth, fmt)
         == "{" + ((if fmt then "\n" else "")
                   + (PrintMembers(members, depth + 1, fmt) + ((if fmt then Tabs(depth) else "") + "}")))
  {
    hide PrintMembers; hide Tabs;
  }

  lemma {:induction false} MemberFirst(m: Member, rest: seq<Member>, depth: nat, fmt: bool)
    ensures PrintMembers([m] + rest, depth, fmt)
         == MemberSpelled(m, depth, fmt)
            + ((if rest == [] then "" else ",") + ((if fmt then "\n" else "") + PrintMembers(rest, depth, fmt)))
  {
    hide Print; hide PrintString;
    var all := [m] + rest;
    assert all[0] == m && all[1..] == rest;
    MembersUnfolded(all, depth, fmt);
    hide PrintMembers;
    var name, value := PrintString(m.name), Print(m.value, depth, fmt);
    if fmt {
      assert Tabs(depth) + name + ":" + "\t" + value == Tabs(depth) + (name + (":\t" + value));
    } else {
      assert "" + name + ":" + "" + value == name + (":" + value);
    }
  }

  lemma {:induction false} MembersUnfolded(members: seq<Member>, depth: nat, fmt: bool)
    requires members != []
    ensures var m := members[0];
            PrintMembers(members, depth, fmt)
            == ((if fmt then Tabs(depth) else "") + PrintString(m.name) + ":" + (if fmt then "\t" else "")
                + Print(m.value, depth, fmt))
               + ((if |members| == 1 then "" else ",")
                  + ((if fmt then "\n" else "") + PrintMembers(members[1..], depth, fmt)))
  {
    hide Print; hide PrintString; hide Tabs;
  }

  // ----- white space

  /** What is skipped: characters up to a space, up to the first other one. */
  lemma {:induction false} SkipMeans(t: string) returns (k: nat)
    ensures k <= |t| && Skip(t) == t[k..] && (k < |t| ==> t[k] as int > 32)
    ensures forall i :: 0 <= i < k ==> t[i] as int <= 32
  {
    if t != [] && t[0] <= ' ' {
      k := SkipMeans(t[1..]);
      assert t[1..][k..] == t[k + 1..];
      forall i | 0 <= i < k + 1 ensures t[i] as int <= 32 {
        if i > 0 { assert t[i] == t[1..][i - 1]; }
      }
      k := k + 1;
    } else {
      k := 0;
    }
  }

  /** Items with white space before and after each, and the closing bracket. */
  function ItemsWith(items: seq<Value>, a: string, b: string, tail: string): string
    requires items != []
  {
    a + (Print(items[0], 0, false)
         + (b + if |items| == 1 then "]" + tail else "," + ItemsWith(items[1..], a, b, tail)))
  }

  lemma {:induction false} ItemsRead(round: int -> int, items: seq<Value>, a: string, b: string, tail: string)
    requires items != [] && Blank(a) && Blank(b) && Rounds(round)
    requires forall i :: 0 <= i < |items| ==> Doubles(items[i])
    ensures ParseItems(round, ItemsWith(items, a, b, tail)) == Some((CleanedItems(items), tail))
    decreases |items|
  {
    hide ParseValue; hide Print; hide Cleaned; hide Doubles; hide Rounds; hide ParseItems; hide Skip; hide Blank;
    var p := Print(items[0], 0, false);
    var next := if |items| == 1 then "]" + tail else "," + ItemsWith(items[1..], a, b, tail);
    var after := b + next;
    assert ItemsWith(items, a, b, tail) == a + (p + after);
    PrintStarts(items[0], 0, false);
    SkipBlank(a, p + after);
    NotSkipped(p + after);
    SkipBlank(b, next);
    NotSkipped(next);
    BlankEndsNumber(b, next);
    ValueRoundTrip(round, items[0], 0, false, after);
    ItemsUnfold(round, a + (p + after));
    if |items| == 1 {
      assert next[1..] == tail;
      assert CleanedItems(items) == [Cleaned(items[0])];
    } else {
      assert next[1..] == ItemsWith(items[1..], a, b, tail);
      ItemsRead(round, items[1..], a, b, tail);
    }
  }

  lemma NotSkipped(t: string)
    requires t != [] && t[0] > ' '
    ensures Skip(t) == t
  {}

  /** White space may stand around every item of an array, and inside an empty one. */
  lemma ArrayRead(round: int -> int, items: seq<Value>, a: string, b: string, tail: string)
    requires Blank(a) && Blank(b) && Rounds(round) && forall i :: 0 <= i < |items| ==> Doubles(items[i])
    ensures items != [] ==>
              ParseValue(round, "[" + ItemsWith(items, a, b, tail)) == Some((Array(CleanedItems(items)), tail))
    ensures ParseValue(round, "[" + (a + ("]" + tail))) == Some((Array([]), tail))
  {
    hide ParseValue; hide Doubles; hide Rounds; hide ParseItems; hide Skip; hide Blank; hide CleanedItems;
    var e := a + ("]" + tail);
    assert ("[" + e)[1..] == e;
    OpenedArray(round, "[" + e);
    SkipBlank(a, "]" + tail);
    NotSkipped("]" + tail);
    assert ("]" + tail)[1..] == tail;
    if items != [] {
      var t := ItemsWith(items, a, b, tail);
      assert ("[" + t)[1..] == t;
      OpenedArray(round, "[" + t);
      ItemsRead(round, items, a, b, tail);
      ItemsAgain(round, t);
      ItemsStart(items, a, b, tail);
    }
  }

  lemma ItemsAgain(round: int -> int, t: string)
    ensures ParseItems(round, Skip(t)) == ParseItems(round, t)
  {
    hide ParseValue; hide ParseItems;
    SkipTwice(t);
    ItemsUnfold(round, t);
    ItemsUnfold(round, Skip(t));
  }

  lemma ItemsStart(items: seq<Value>, a: string, b: string, tail: string)
    requires items != [] && Blank(a)
    ensures var u := Skip(ItemsWith(items, a, b, tail)); u != [] && u[0] != ']'
  {
    hide Print; hide Skip; hide Blank;
    var p := Print(items[0], 0, false);
    var after := b + if |items| == 1 then "]" + tail else "," + ItemsWith(items[1..], a, b, tail);
    PrintStarts(items[0], 0, false);
    SkipBlank(a, p + after);
    NotSkipped(p + after);
  }

  /** Members with white space around names, colons and values, and the closing brace. */
  function MembersWith(members: seq<Member>, a: string, b: string, tail: string): string
    requires members != []
  {
    a + (PrintString(members[0].name)
         + (b + (":" + (a + (Print(members[0].value, 0, false)
                             + (b + if |members| == 1 then "}" + tail
                                    else "," + MembersWith(members[1..], a, b, tail)))))))
  }

  lemma {:induction false} MembersRead(round: int -> int, members: seq<Member>, a: string, b: string, tail: string)
    requires members != [] && Blank(a) && Blank(b) && Rounds(round)
    requires forall i :: 0 <= i < |members| ==> Doubles(members[i].value)
    ensures ParseMembers(round, MembersWith(members, a, b, tail)) == Some((CleanedMembers(members), tail))
    decreases |members|
  {
    hide ParseValue; hide Print; hide Cleaned; hide Doubles; hide Rounds; hide ParseMembers; hide Skip; hide Blank;
    hide PrintString; hide ParseString; hide NameTail; hide PairTail; hide Kept;
    var m := members[0];
    var next := if |members| == 1 then "}" + tail else "," + MembersWith(members[1..], a, b, tail);
    var u := ":" + (a + (Print(m.value, 0, false) + (b + next)));
    var t := PrintString(m.name) + (b + u);
    assert MembersWith(members, a, b, tail) == a + t;
    QuoteFirst(m.name, b + u);
    SkipBlank(a, t);
    NotSkipped(t);
    StringRoundTrip(m.name, b + u);
    SkipBlank(b, u);
    NotSkipped(u);
    JsonMemory.MembersStep(round, a + t);
    PairRead(round, Kept(m.name), m.value, a, b, next);
    if |members| > 1 { MembersRead(round, members[1..], a, b, tail); }
    PairEnds(round, Member(Kept(m.name), Cleaned(m.value)), members, next, a, b, tail);
  }

  lemma QuoteFirst(name: string, rest: string)
    ensures var t := PrintString(name) + rest; t != [] && t[0] > ' '
  {
    hide PrintChars;
  }

  lemma PairRead(round: int -> int, name: string, v: Value, a: string, b: string, next: string)
    requires Blank(a) && Blank(b) && Rounds(round) && Doubles(v) && next != [] && next[0] in {',', '}'}
    ensures NameTail(round, name, ":" + (a + (Print(v, 0, false) + (b + next))))
         == PairTail(round, Member(name, Cleaned(v)), next)
  {
    hide ParseValue; hide Print; hide Cleaned; hide Doubles; hide Rounds; hide Skip; hide Blank; hide PairTail;
    var p, after := Print(v, 0, false), b + next;
    var u := ":" + (a + (p + after));
    assert u[1..] == a + (p + after);
    PrintStarts(v, 0, false);
    SkipBlank(a, p + after);
    NotSkipped(p + after);
    SkipBlank(b, next);
    NotSkipped(next);
    BlankEndsNumber(b, next);
    ValueRoundTrip(round, v, 0, false, after);
  }

  lemma PairEnds(round: int -> int, m: Member, members: seq<Member>, next: string, a: string, b: string, tail: string)
    requires members != [] && m == Member(Kept(members[0].name), Cleaned(members[0].value))
    requires next == if |members| == 1 then "}" + tail else "," + MembersWith(members[1..], a, b, tail)
    requires |members| > 1 ==>
               ParseMembers(round, MembersWith(members[1..], a, b, tail)) == Some((CleanedMembers(members[1..]), tail))
    ensures PairTail(round, m, next) == Some((CleanedMembers(members), tail))
  {
    hide ParseMembers; hide MembersWith; hide Kept; hide Cleaned;
    if |members| == 1 {
      assert next[1..] == tail;
      assert CleanedMembers(members) == [m];
    } else {
      assert next[1..] == MembersWith(members[1..], a, b, tail);
    }
  }

  /** White space may stand around every name, colon and value of an object, and inside an empty one. */
  lemma ObjectRead(round: int -> int, members: seq<Member>, a: string, b: string, tail: string)
    requires Blank(a) && Blank(b) && Rounds(round) && forall i :: 0 <= i < |members| ==> Doubles(members[i].value)
    ensures members != [] ==>
              ParseValue(round, "{" + MembersWith(members, a, b, tail)) == Some((Object(CleanedMembers(members)), tail))
    ensures ParseValue(round, "{" + (a + ("}" + tail))) == Some((Object([]), tail))
  {
    hide ParseValue; hide Doubles; hide Rounds; hide ParseMembers; hide Skip; hide Blank; hide CleanedMembers;
    var e := a + ("}" + tail);
    Opened(round, e);
    SkipBlank(a, "}" + tail);
    NotSkipped("}" + tail);
    assert ("}" + tail)[1..] == tail;
    if members != [] {
      var t := MembersWith(members, a, b, tail);
      Opened(round, t);
      MembersRead(round, members, a, b, tail);
      ParseMembersSkips(round, t);
      MembersStart(members, a, b, tail);
    }
  }

  lemma MembersStart(members: seq<Member>, a: string, b: string, tail: string)
    requires members != [] && Blank(a)
    ensures var u := Skip(MembersWith(members, a, b, tail)); u != [] && u[0] != '}'
  {
    hide Print; hide Skip; hide Blank; hide PrintChars;
    var t := MembersWith(members, a, b, tail)[|a|..];
    assert MembersWith(members, a, b, tail) == a + t;
    assert t[0] == '\"';
    SkipBlank(a, t);
    NotSkipped(t);
  }

  /** After an item comes a comma or the bracket, and nothing else. */
  lemma ItemsRefused(round: int -> int, v: Value, b: string, next: string)
    requires Rounds(round) && Doubles(v) && Blank(b) && EndsNumber(next)
    requires next == [] || (next[0] as int > 32 && next[0] !in {',', ']'})
    ensures ParseItems(round, Print(v, 0, false) + (b + next)) == None
  {
    hide ParseValue; hide Print; hide Cleaned; hide Doubles; hide Rounds; hide ParseItems; hide Skip; hide Blank;
    var p := Print(v, 0, false);
    PrintStarts(v, 0, false);
    NotSkipped(p + (b + next));
    BlankEndsNumber(b, next);
    ValueRoundTrip(round, v, 0, false, b + next);
    SkipBlank(b, next);
    NothingSkipped(next);
    ItemsUnfold(round, p + (b + next));
  }

  lemma NothingSkipped(t: string)
    requires t == [] || t[0] as int > 32
    ensures Skip(t) == t
  {}

  /** A member starts with a quoted name, a colon follows it, and a comma or the brace its value. */
  lemma MembersRefused(round: int -> int, name: string, v: Value, b: string, next: string, t: string)
    requires Rounds(round) && Doubles(v) && Blank(b) && EndsNumber(next) && (next == [] || next[0] as int > 32)
    ensures t == [] || (t[0] as int > 32 && t[0] != '\"') ==> ParseMembers(round, t) == None
    ensures next == [] || next[0] != ':' ==> ParseMembers(round, PrintString(name) + (b + next)) == None
    ensures next == [] || next[0] !in {',', '}'} ==>
              ParseMembers(round, PrintString(name) + (":" + (Print(v, 0, false) + (b + next)))) == None
  {
    hide ParseValue; hide Print; hide Cleaned; hide Doubles; hide Rounds; hide ParseMembers; hide Skip; hide Blank;
    hide PrintString; hide PairTail; hide Kept; hide ParseString;
    SkipBlank(b, next);
    NothingSkipped(next);
    if t == [] || (t[0] as int > 32 && t[0] != '\"') {
      NothingSkipped(t);
      NoQuote(t);
      JsonMemory.MembersStep(round, t);
    }
    QuoteFirst(name, b + next);
    NotSkipped(PrintString(name) + (b + next));
    StringRoundTrip(name, b + next);
    JsonMemory.MembersStep(round, PrintString(name) + (b + next));
    var u := ":" + (Print(v, 0, false) + (b + next));
    QuoteFirst(name, u);
    NotSkipped(PrintString(name) + u);
    NotSkipped(u);
    StringRoundTrip(name, u);
    JsonMemory.MembersStep(round, PrintString(name) + u);
    PairRefused(round, Kept(name), v, b, next);
  }

  lemma NoQuote(t: string)
    requires t == [] || t[0] != '\"'
    ensures ParseString(t) == None
  {}

  lemma PairRefused(round: int -> int, name: string, v: Value, b: string, next: string)
    requires Rounds(round) && Doubles(v) && Blank(b) && EndsNumber(next) && (next == [] || next[0] as int > 32)
    ensures next == [] || next[0] !in {',', '}'} ==>
              NameTail(round, name, ":" + (Print(v, 0, false) + (b + next))) == None
  {
    hide ParseValue; hide Print; hide Cleaned; hide Doubles; hide Rounds; hide Skip; hide Blank; hide ParseMembers;
    var p := Print(v, 0, false);
    assert (":" + (p + (b + next)))[1..] == p + (b + next);
    PrintStarts(v, 0, false);
    NotSkipped(p + (b + next));
    BlankEndsNumber(b, next);
    ValueRoundTrip(round, v, 0, false, b + next);
    SkipBlank(b, next);
    NothingSkipped(next);
  }

  // ----- the rest

  /** A number may have one zero in front, and nothing else begins a value. */
  lemma OddValues(round: int -> int, n: nat, t: string)
    requires Rounds(round) && 0 < n <= EXACT
    ensures ParseNumber(round, "0" + PrintNat(n)) == Some((n, ""))
    ensures t == "" || (t[0] !in {'n', 'f', 't', '\"', '-', '[', '{'} && !('0' <= t[0] <= '9'))
            ==> ParseValue(round, t) == None
  {
    hide PrintNat; hide Rounds; hide ParseItems; hide ParseMembers; hide Skip;
    var d := PrintNat(n);
    assert ("0" + d)[1..] == d && d + [] == d;
    DigitsRoundTrip(n, []);
    RoundingUnseen(round, 0, d);
  }

  /** What follows a whole value is not looked at, and white space before it does not matter. */
  lemma TrailingIgnored(round: int -> int, v: Value, fmt: bool, a: string, rest: string)
    requires Rounds(round) && Doubles(v) && Blank(a) && EndsNumber(rest)
    ensures Parse(round, a + (Print(v, 0, fmt) + rest)) == Some(Cleaned(v))
  {
    hide ParseValue; hide Print; hide Cleaned; hide Doubles; hide Rounds; hide Skip; hide Blank;
    PrintStarts(v, 0, fmt);
    SkipBlank(a, Print(v, 0, fmt) + rest);
    NotSkipped(Print(v, 0, fmt) + rest);
    ValueRoundTrip(round, v, 0, fmt, rest);
  }
}
