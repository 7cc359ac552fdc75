/** Printing and parsing of JSON trees as cJSON does it (section 2 of RFC 4627). A pointer into
    the text is the rest of the text from there on. */
module Json {
  import opened Options
  import opened Decimal

  datatype Value =
    | Null
    | False
    | True
    | Number(n: int)
    | Text(s: string)
    | Array(items: seq<Value>)
    | Object(members: seq<Member>)

  datatype Member = Member(name: string, value: Value)

  // ----- strings

  /** The letter after a backslash for a character that needs one. */
  function Escape(c: char): Option<char> {
    if c == '\\' then Some('\\')
    else if c == '\"' then Some('\"')
    else if c == '\U{0008}' then Some('b')
    else if c == '\U{000C}' then Some('f')
    else if c == '\n' then Some('n')
    else if c == '\r' then Some('r')
    else if c == '\t' then Some('t')
    else None
  }

  predicate Plain(c: char) { c > '\U{001F}' && c != '\"' && c != '\\' }

  /** Characters below a space without an escape of their own are dropped. */
  function PrintChar(c: char): string {
    if Plain(c) then [c]
    else if Escape(c).Some? then ['\\', Escape(c).value]
    else []
  }

  function PrintChars(s: string): string {
    if s == [] then [] else PrintChar(s[0]) + PrintChars(s[1..])
  }

  function PrintString(s: string): string { ['\"'] + PrintChars(s) + ['\"'] }

  /** The character an escape stands for; `\u` is not modelled. */
  function Unescape(c: char): Option<char> {
    if c == 'b' then Some('\U{0008}')
    else if c == 'f' then Some('\U{000C}')
    else if c == 'n' then Some('\n')
    else if c == 'r' then Some('\r')
    else if c == 't' then Some('\t')
    else if c == 'u' then None
    else Some(c)
  }

  /** Characters up to a quote or a control character. */
  function ParseChars(t: string): (r: Option<(string, string)>)
    ensures r.Some? ==> |r.value.1| <= |t|
  {
    if t == [] || t[0] == '\"' || t[0] <= '\U{001F}' then Some(([], t))
    else if t[0] != '\\' then
      match ParseChars(t[1..])
      case None => None
      case Some(r) => Some(([t[0]] + r.0, r.1))
    else if |t| < 2 || Unescape(t[1]).None? then None
    else
      match ParseChars(t[2..])
      case None => None
      case Some(r) => Some(([Unescape(t[1]).value] + r.0, r.1))
  }

  function ParseString(t: string): (r: Option<(string, string)>)
    ensures r.Some? ==> |r.value.1| < |t|
  {
    if t == [] || t[0] != '\"' then None
    else
      match ParseChars(t[1..])
      case None => None
      case Some(r) => Some((r.0, if r.1 != [] && r.1[0] == '\"' then r.1[1..] else r.1))
  }

  /** What survives printing and parsing. */
  function Kept(s: string): string {
    if s == [] then [] else KeptChar(s[0]) + Kept(s[1..])
  }

  function KeptChar(c: char): string { if Plain(c) || Escape(c).Some? then [c] else [] }

  lemma EscapeRoundTrip(c: char)
    requires Escape(c).Some?
    ensures Unescape(Escape(c).value) == Some(c)
  {}

  /** One printed character in front of a text. */
  lemma CharRoundTrip(c: char, t: string)
    requires ParseChars(t).Some?
    ensures var r := ParseChars(t).value;
            ParseChars(PrintChar(c) + t) == Some((KeptChar(c) + r.0, r.1))
  {
    hide Escape; hide Unescape;
    var r := ParseChars(t).value;
    var u := PrintChar(c) + t;
    if Plain(c) {
      assert u[0] == c && u[1..] == t;
    } else if Escape(c).Some? {
      EscapeRoundTrip(c);
      assert u[0] == '\\' && u[1] == Escape(c).value && u[2..] == t;
    } else {
      assert u == t && [] + r.0 == r.0;
    }
  }

  lemma CharsEnd(rest: string)
    requires rest != [] && rest[0] == '\"'
    ensures ParseChars(rest) == Some(([], rest))
  {}

  lemma {:induction false} CharsRoundTrip(s: string, rest: string)
    requires rest != [] && rest[0] == '\"'
    ensures ParseChars(PrintChars(s) + rest) == Some((Kept(s), rest))
  {
    hide Escape; hide Plain; hide PrintChar; hide ParseChars; hide KeptChar;
    if s == [] {
      assert PrintChars(s) + rest == rest;
      CharsEnd(rest);
    } else {
      CharsRoundTrip(s[1..], rest);
      var t := PrintChars(s[1..]) + rest;
      CharRoundTrip(s[0], t);
      assert PrintChars(s) + rest == PrintChar(s[0]) + t;
    }
  }

  lemma StringRoundTrip(s: string, rest: string)
    ensures ParseString(PrintString(s) + rest) == Some((Kept(s), rest))
  {
    var q := ['\"'] + rest;
    assert PrintString(s) + rest == ['\"'] + (PrintChars(s) + q);
    assert (['\"'] + (PrintChars(s) + q))[1..] == PrintChars(s) + q;
    CharsRoundTrip(s, q);
    assert q[1..] == rest;
  }

  // ----- numbers

  /** Numbers up to 2^53 are doubles; any larger result may be rounded. */
  const EXACT: int := 0x20_0000_0000_0000

  predicate IsExact(n: int) { -EXACT <= n <= EXACT }

  ghost predicate Rounds(round: int -> int) { forall x :: IsExact(x) ==> round(x) == x }

  /** The digit loop as it runs on doubles, with a rounding after every operation. */
  function ParseRounded(round: int -> int, n: int, t: string): (r: (int, string))
    ensures |r.1| <= |t|
    decreases |t|
  {
    if t != [] && IsDigit(t[0]) then ParseRounded(round, round(round(n * 10) + (t[0] as int - '0' as int)), t[1..])
    else (n, t)
  }

  lemma {:induction false} DigitsGrow(n: nat, t: string)
    ensures ParseDigits(n, t).0 >= n
    decreases |t|
  {
    if t != [] && IsDigit(t[0]) { DigitsGrow(n * 10 + (t[0] as int - '0' as int), t[1..]); }
  }

  /** While the number stays exact, so does every step on the way to it. */
  lemma {:induction false} RoundingUnseen(round: int -> int, n: nat, t: string)
    requires Rounds(round) && ParseDigits(n, t).0 <= EXACT
    ensures ParseRounded(round, n, t) == ParseDigits(n, t)
    decreases |t|
  {
    if t != [] && IsDigit(t[0]) {
      var m := n * 10 + (t[0] as int - '0' as int);
      DigitsGrow(m, t[1..]);
      assert IsExact(n * 10) && IsExact(m);
      RoundingUnseen(round, m, t[1..]);
    }
  }

  /** Integers only: a fraction or an exponent is not modelled. `round` is what doubles do to a result. */
  function ParseNumber(round: int -> int, t: string): (r: Option<(int, string)>)
    ensures r.Some? ==> |r.value.1| <= |t|
  {
    var negative := t != [] && t[0] == '-';
    var t1 := if negative then t[1..] else t;
    var t2 := if t1 != [] && t1[0] == '0' then t1[1..] else t1;
    var r: (int, string) := if t2 != [] && '1' <= t2[0] <= '9' then ParseRounded(round, 0, t2) else (0, t2);
    if r.1 != [] && r.1[0] in {'.', 'e', 'E'} then None
    else Some((if negative then -r.0 else r.0, r.1))
  }

  /** The text after a number does not go on with it. */
  predicate EndsNumber(rest: string) {
    rest == [] || !(IsDigit(rest[0]) || rest[0] in {'.', 'e', 'E'})
  }

  /** A printed integer that a double can hold is read exactly, however larger ones are rounded. */
  lemma NumberRoundTrip(round: int -> int, n: int, rest: string)
    requires Rounds(round) && IsExact(n) && EndsNumber(rest)
    ensures ParseNumber(round, PrintInt(n) + rest) == Some((n, rest))
  {
    hide PrintNat; hide Rounds;
    var m := if n < 0 then -n else n;
    var t := PrintInt(n) + rest;
    var t1 := PrintNat(m) + rest;
    assert n < 0 ==> t[1..] == t1;
    DigitsRoundTrip(m, rest);
    RoundingUnseen(round, 0, t1);
    if m == 0 {
      assert t1[1..] == rest;
    }
  }

  // ----- trees

  function Tabs(n: nat): string { seq(n, _ => '\t') }

  function Print(v: Value, depth: nat, fmt: bool): string
    decreases v, 0
  {
    match v
    case Null => "null"
    case False => "false"
    case True => "true"
    case Number(n) => PrintInt(n)
    case Text(s) => PrintString(s)
    case Array(items) => "[" + PrintItems(items, depth + 1, fmt) + "]"
    case Object(members) =>
      "{" + (if fmt then "\n" else "") + PrintMembers(members, depth + 1, fmt) + (if fmt then Tabs(depth) else "") + "}"
  }

  function PrintItems(items: seq<Value>, depth: nat, fmt: bool): string
    decreases items, 0
  {
    if items == [] then []
    else
      Print(items[0], depth, fmt)
      + if |items| == 1 then "" else (if fmt then ", " else ",") + PrintItems(items[1..], depth, fmt)
  }

  function PrintMembers(members: seq<Member>, depth: nat, fmt: bool): string
    decreases members, 0
  {
    if members == [] then []
    else
      (if fmt then Tabs(depth) else "") + PrintString(members[0].name) + ":" + (if fmt then "\t" else "")
      + Print(members[0].value, depth, fmt)
      + (if |members| == 1 then "" else ",") + (if fmt then "\n" else "")
      + PrintMembers(members[1..], depth, fmt)
  }

  /** White space, and any other character up to a space. */
  function Skip(t: string): (r: string)
    ensures |r| <= |t|
  {
    if t != [] && t[0] <= ' ' then Skip(t[1..]) else t
  }

  predicate Starts(t: string, word: string) { |word| <= |t| && t[..|word|] == word }

  function ParseValue(round: int -> int, t: string): (r: Option<(Value, string)>)
    ensures r.Some? ==> |r.value.1| < |t|
    decreases |t|, 1
  {
    if Starts(t, "null") then Some((Null, t[4..]))
    else if Starts(t, "false") then Some((False, t[5..]))
    else if Starts(t, "true") then Some((True, t[4..]))
    else if t == [] then None
    else if t[0] == '\"' then
      match ParseString(t)
      case None => None
      case Some(r) => Some((Text(r.0), r.1))
    else if t[0] == '-' || IsDigit(t[0]) then
      match ParseNumber(round, t)
      case None => None
      case Some(r) => Some((Number(r.0), r.1))
    else if t[0] == '[' then
      var u := Skip(t[1..]);
      if u != [] && u[0] == ']' then Some((Array([]), u[1..]))
      else
        match ParseItems(round, u)
        case None => None
        case Some(r) => Some((Array(r.0), r.1))
    else if t[0] == '{' then
      var u := Skip(t[1..]);
      if u != [] && u[0] == '}' then Some((Object([]), u[1..]))
      else
        match ParseMembers(round, u)
        case None => None
        case Some(r) => Some((Object(r.0), r.1))
    else None
  }

  /** Items up to and with the closing bracket. */
  function ParseItems(round: int -> int, t: string): (r: Option<(seq<Value>, string)>)
    ensures r.Some? ==> |r.value.1| < |t|
    decreases |t|, 2
  {
    match ParseValue(round, Skip(t))
    case None => None
    case Some(v) =>
      var u := Skip(v.1);
      if u == [] then None
      else if u[0] == ',' then
        match ParseItems(round, u[1..])
        case None => None
        case Some(r) => Some(([v.0] + r.0, r.1))
      else if u[0] == ']' then Some(([v.0], u[1..]))
      else None
  }

  /** Members up to and with the closing brace. */
  function ParseMembers(round: int -> int, t: string): (r: Option<(seq<Member>, string)>)
    ensures r.Some? ==> |r.value.1| < |t|
    decreases |t|, 2
  {
    match ParseString(Skip(t))
    case None => None
    case Some(name) =>
      var u := Skip(name.1);
      if u == [] || u[0] != ':' then None
      else
        match ParseValue(round, Skip(u[1..]))
        case None => None
        case Some(v) =>
          var w := Skip(v.1);
          if w == [] then None
          else if w[0] == ',' then
            match ParseMembers(round, w[1..])
            case None => None
            case Some(r) => Some(([Member(name.0, v.0)] + r.0, r.1))
          else if w[0] == '}' then Some(([Member(name.0, v.0)], w[1..]))
          else None
  }

  function Parse(round: int -> int, t: string): Option<Value> {
    match ParseValue(round, Skip(t))
    case None => None
    case Some(r) => Some(r.0)
  }

  // ----- the round trip

  /** The tree with the unprintable characters dropped from its strings. */
  function Cleaned(v: Value): Value
    decreases v, 0
  {
    match v
    case Text(s) => Text(Kept(s))
    case Array(items) => Array(CleanedItems(items))
    case Object(members) => Object(CleanedMembers(members))
    case _ => v
  }

  function CleanedItems(items: seq<Value>): seq<Value>
    decreases items, 0
  {
    if items == [] then [] else [Cleaned(items[0])] + CleanedItems(items[1..])
  }

  function CleanedMembers(members: seq<Member>): seq<Member>
    decreases members, 0
  {
    if members == [] then []
    else [Member(Kept(members[0].name), Cleaned(members[0].value))] + CleanedMembers(members[1..])
  }

  predicate Blank(s: string) { forall i :: 0 <= i < |s| ==> s[i] <= ' ' }

  /** White space in front does not matter. */
  lemma {:induction false} SkipBlank(space: string, t: string)
    requires Blank(space)
    ensures Skip(space + t) == Skip(t)
  {
    if space == [] {
      assert space + t == t;
    } else {
      SkipBlank(space[1..], t);
      assert (space + t)[1..] == space[1..] + t;
    }
  }

  /** A printed value starts with neither white space nor a closing bracket. */
  lemma PrintStarts(v: Value, depth: nat, fmt: bool)
    ensures var p := Print(v, depth, fmt); p != [] && p[0] > ' ' && p[0] != ']'
  {}

  /** Every number in the tree is an integer that a double holds exactly. */
  predicate Doubles(v: Value)
    decreases v
  {
    match v
    case Number(n) => IsExact(n)
    case Array(items) => forall i :: 0 <= i < |items| ==> Doubles(items[i])
    case Object(members) => forall i :: 0 <= i < |members| ==> Doubles(members[i].value)
    case _ => true
  }

  /** The printed text of any tree, formatted or not and whatever follows it, parses back to the
      tree with the unprintable characters dropped, and leaves what follows. */
  lemma {:induction false} ValueRoundTrip(round: int -> int, v: Value, depth: nat, fmt: bool, rest: string)
    requires Rounds(round) && Doubles(v) && EndsNumber(rest)
    ensures ParseValue(round, Print(v, depth, fmt) + rest) == Some((Cleaned(v), rest))
    decreases v, 1
  {
    hide ParseString; hide ParseNumber; hide PrintString; hide PrintInt; hide ParseItems; hide ParseMembers;
    hide PrintItems; hide PrintMembers; hide Skip;
    match v
    case Null => WordRoundTrip("null", rest);
    case False => WordRoundTrip("false", rest); StartsDiffer("false", "null", rest);
    case True => WordRoundTrip("true", rest); StartsDiffer("true", "null", rest); StartsDiffer("true", "false", rest);
    case Number(n) => NumberValue(round, n, rest);
    case Text(s) => TextValue(round, s, rest);
    case Array(items) => ArrayRoundTrip(round, items, depth, fmt, rest);
    case Object(members) => ObjectRoundTrip(round, members, depth, fmt, rest);
  }

  lemma WordRoundTrip(word: string, rest: string)
    ensures Starts(word + rest, word) && (word + rest)[|word|..] == rest
  {}

  lemma StartsDiffer(word: string, other: string, rest: string)
    requires word != [] && other != [] && word[0] != other[0]
    ensures !Starts(word + rest, other)
  {
    assert (word + rest)[0] == word[0];
  }

  lemma NumberValue(round: int -> int, n: int, rest: string)
    requires Rounds(round) && IsExact(n) && EndsNumber(rest)
    ensures ParseValue(round, PrintInt(n) + rest) == Some((Number(n), rest))
  {
    hide ParseNumber; hide PrintNat;
    NumberRoundTrip(round, n, rest);
    var t := PrintInt(n) + rest;
    assert t[0] == '-' || IsDigit(t[0]);
    NotAWord(t);
  }

  /** Only the three words start with their letters. */
  lemma NotAWord(t: string)
    requires t != [] && t[0] !in {'n', 'f', 't'}
    ensures !Starts(t, "null") && !Starts(t, "false") && !Starts(t, "true")
  {}

  lemma TextValue(round: int -> int, s: string, rest: string)
    ensures ParseValue(round, PrintString(s) + rest) == Some((Text(Kept(s)), rest))
  {
    hide ParseString;
    StringRoundTrip(s, rest);
    NotAWord(PrintString(s) + rest);
  }

  lemma {:induction false} ArrayRoundTrip(round: int -> int, items: seq<Value>, depth: nat, fmt: bool, rest: string)
    requires Rounds(round) && forall i :: 0 <= i < |items| ==> Doubles(items[i])
    ensures ParseValue(round, "[" + PrintItems(items, depth + 1, fmt) + "]" + rest)
            == Some((Array(CleanedItems(items)), rest))
    decreases items, 3
  {
    hide ParseItems; hide Starts;
    var u := PrintItems(items, depth + 1, fmt) + "]" + rest;
    var t := "[" + PrintItems(items, depth + 1, fmt) + "]" + rest;
    assert t[1..] == u;
    NotAWord(t);
    if items == [] {
      assert u == "]" + rest;
      assert u[1..] == rest;
    } else {
      PrintStarts(items[0], depth + 1, fmt);
      assert u[0] == Print(items[0], depth + 1, fmt)[0];
      ItemsRoundTrip(round, items, depth + 1, fmt, rest);
    }
  }

  /** What is left to do after an item, white space skipped. */
  function ItemTail(round: int -> int, v: Value, u: string): Option<(seq<Value>, string)> {
    if u == [] then None
    else if u[0] == ',' then match ParseItems(round, u[1..]) case None => None case Some(r) => Some(([v] + r.0, r.1))
    else if u[0] == ']' then Some(([v], u[1..]))
    else None
  }

  lemma ItemsUnfold(round: int -> int, t: string)
    ensures ParseItems(round, t)
            == match ParseValue(round, Skip(t)) case None => None case Some(v) => ItemTail(round, v.0, Skip(v.1))
  {
    hide ParseValue; hide Skip;
  }

  lemma {:induction false} ItemsRoundTrip(round: int -> int, items: seq<Value>, depth: nat, fmt: bool, rest: string)
    requires items != [] && Rounds(round) && forall i :: 0 <= i < |items| ==> Doubles(items[i])
    ensures ParseItems(round, PrintItems(items, depth, fmt) + "]" + rest) == Some((CleanedItems(items), rest))
    decreases items, 2
  {
    hide ParseValue; hide Print; hide Cleaned; hide Doubles; hide Rounds; hide ParseItems;
    var p := Print(items[0], depth, fmt);
    var gap := if fmt then " " else "";
    var more := PrintItems(items[1..], depth, fmt) + "]" + rest;
    var after := if |items| == 1 then "]" + rest else "," + (gap + more);
    assert PrintItems(items, depth, fmt) + "]" + rest == p + after;
    PrintStarts(items[0], depth, fmt);
    ValueRoundTrip(round, items[0], depth, fmt, after);
    ItemsUnfold(round, p + after);
    if |items| == 1 {
      assert after[1..] == rest;
      assert CleanedItems(items) == [Cleaned(items[0])];
    } else {
      ItemsRoundTrip(round, items[1..], depth, fmt, rest);
      SkipBlank(gap, more);
      assert after[1..] == gap + more;
      ItemsUnfold(round, gap + more);
      ItemsUnfold(round, more);
    }
  }

  /** What `ParseValue` does after an opening brace. */
  function AfterBrace(round: int -> int, u: string): Option<(Value, string)> {
    if u != [] && u[0] == '}' then Some((Object([]), u[1..]))
    else
      match ParseMembers(round, u)
      case None => None
      case Some(r) => Some((Object(r.0), r.1))
  }

  lemma Opened(round: int -> int, body: string)
    ensures ParseValue(round, "{" + body) == AfterBrace(round, Skip(body))
  {
    hide ParseMembers; hide Starts; hide ParseItems; hide Skip; hide ParseNumber; hide ParseString;
    var t := "{" + body;
    assert t[0] == '{' && t[1..] == body;
    NotAWord(t);
  }

  lemma NoMembers(round: int -> int, space: string, rest: string)
    requires Blank(space)
    ensures AfterBrace(round, Skip(space + ("}" + rest))) == Some((Object([]), rest))
  {
    SkipBlank(space, "}" + rest);
    assert ("}" + rest)[1..] == rest;
  }

  lemma SomeMembers(round: int -> int, members: seq<Member>, depth: nat, fmt: bool, rest: string)
    requires members != []
    requires ParseMembers(round, PrintMembers(members, depth, fmt) + rest).Some?
    ensures var r := ParseMembers(round, PrintMembers(members, depth, fmt) + rest).value;
            AfterBrace(round, Skip(PrintMembers(members, depth, fmt) + rest)) == Some((Object(r.0), r.1))
  {
    hide PrintMembers; hide ParseMembers; hide Skip;
    MembersStart(members, depth, fmt, rest);
    ParseMembersSkips(round, PrintMembers(members, depth, fmt) + rest);
  }

  lemma BlankTabs(depth: nat)
    ensures Blank(Tabs(depth))
  {}

  lemma {:induction false} ObjectRoundTrip(round: int -> int, members: seq<Member>, depth: nat, fmt: bool, rest: string)
    requires Rounds(round) && forall i :: 0 <= i < |members| ==> Doubles(members[i].value)
    ensures ParseValue(round, "{" + (if fmt then "\n" else "") + PrintMembers(members, depth + 1, fmt)
            + (if fmt then Tabs(depth) else "") + "}" + rest)
         == Some((Object(CleanedMembers(members)), rest))
    decreases members, 3
  {
    hide ParseMembers; hide ParseValue; hide PrintMembers; hide Tabs; hide Skip; hide AfterBrace; hide CleanedMembers;
    var nl := if fmt then "\n" else "";
    var space := if fmt then Tabs(depth) else "";
    BlankTabs(depth);
    var p := PrintMembers(members, depth + 1, fmt);
    var closing := space + ("}" + rest);
    assert "{" + nl + p + space + "}" + rest == "{" + (nl + (p + closing));
    Opened(round, nl + (p + closing));
    SkipBlank(nl, p + closing);
    if members == [] {
      Nothing(members, depth + 1, fmt);
      assert p + closing == closing;
      NoMembers(round, space, rest);
    } else {
      MembersRoundTrip(round, members, depth + 1, fmt, space, rest);
      assert p + space + "}" + rest == p + closing;
      SomeMembers(round, members, depth + 1, fmt, closing);
    }
  }

  lemma Nothing(members: seq<Member>, depth: nat, fmt: bool)
    requires members == []
    ensures PrintMembers(members, depth, fmt) == [] && CleanedMembers(members) == []
  {}

  lemma {:induction false} SkipTwice(t: string)
    ensures Skip(Skip(t)) == Skip(t)
  {
    if t != [] && t[0] <= ' ' { SkipTwice(t[1..]); }
  }

  lemma ParseMembersSkips(round: int -> int, t: string)
    ensures ParseMembers(round, Skip(t)) == ParseMembers(round, t)
  {
    SkipTwice(t);
  }

  /** What follows the value of the first member. */
  function Following(members: seq<Member>, depth: nat, fmt: bool, rest: string): string
    requires members != []
  {
    (if |members| == 1 then "" else ",")
      + ((if fmt then "\n" else "") + (PrintMembers(members[1..], depth, fmt) + rest))
  }

  /** The text of the first member and of those after it. */
  lemma MembersText(members: seq<Member>, depth: nat, fmt: bool, rest: string)
    requires members != []
    ensures PrintMembers(members, depth, fmt) + rest
         == (if fmt then Tabs(depth) else "")
            + (PrintString(members[0].name)
               + (":" + ((if fmt then "\t" else "")
                 + (Print(members[0].value, depth, fmt) + Following(members, depth, fmt, rest)))))
  {
    hide Print; hide PrintString; hide Tabs;
    var tabs := if fmt then Tabs(depth) else "";
    var tab := if fmt then "\t" else "";
    var comma := if |members| == 1 then "" else ",";
    var nl := if fmt then "\n" else "";
    var name, value, more := PrintString(members[0].name), Print(members[0].value, depth, fmt),
                             PrintMembers(members[1..], depth, fmt);
    assert PrintMembers(members, depth, fmt) == tabs + name + ":" + tab + value + comma + nl + more;
    Regroup5(tabs + name + ":" + tab + value, comma, nl, more, rest);
    Regroup5(tabs, name, ":", tab, value + (comma + (nl + (more + rest))));
    Regroup(tabs + name + ":" + tab, value, comma + (nl + (more + rest)));
  }

  lemma Regroup(a: string, b: string, c: string)
    ensures a + b + c == a + (b + c)
  {}

  lemma Regroup5(a: string, b: string, c: string, d: string, e: string)
    ensures a + b + c + d + e == a + (b + (c + (d + e)))
  {
    Regroup(a + b + c, d, e);
    Regroup(a + b, c, d + e);
    Regroup(a, b, c + (d + e));
  }

  /** After the white space, members start with a quote. */
  lemma MembersStart(members: seq<Member>, depth: nat, fmt: bool, rest: string)
    requires members != []
    ensures var u := Skip(PrintMembers(members, depth, fmt) + rest); u != [] && u[0] == '\"'
  {
    hide Print; hide PrintMembers; hide Tabs;
    MembersText(members, depth, fmt, rest);
    BlankTabs(depth);
    SkipBlank(if fmt then Tabs(depth) else "",
              PrintString(members[0].name)
              + (":" + ((if fmt then "\t" else "")
                + (Print(members[0].value, depth, fmt) + Following(members, depth, fmt, rest)))));
  }

  lemma {:induction false} MembersRoundTrip(round: int -> int, members: seq<Member>, depth: nat, fmt: bool,
                                            space: string, rest: string)
    requires members != [] && Blank(space) && Rounds(round)
    requires forall i :: 0 <= i < |members| ==> Doubles(members[i].value)
    ensures ParseMembers(round, PrintMembers(members, depth, fmt) + space + "}" + rest)
            == Some((CleanedMembers(members), rest))
    decreases members, 2
  {
    hide ParseValue; hide Print; hide Cleaned; hide PrintString; hide ParseString; hide Kept; hide ParseMembers;
    hide Skip;
    hide PrintMembers; hide Tabs; hide AfterMember; hide Doubles; hide Rounds;
    var m := members[0];
    var tabs := if fmt then Tabs(depth) else "";
    BlankTabs(depth);
    var nl := if fmt then "\n" else "";
    var tab := if fmt then "\t" else "";
    var closing := space + ("}" + rest);
    var more := PrintMembers(members[1..], depth, fmt) + closing;
    var after := (if |members| == 1 then "" else ",") + (nl + more);
    MembersText(members, depth, fmt, closing);
    assert PrintMembers(members, depth, fmt) + space + "}" + rest == PrintMembers(members, depth, fmt) + closing;
    if |members| == 1 {
      Nothing(members[1..], depth, fmt);
      assert after == (nl + space) + ("}" + rest);
      BlankEndsNumber(nl + space, "}" + rest);
      ValueRoundTrip(round, m.value, depth, fmt, after);
      OneMember(round, m, tabs, tab, depth, fmt, after);
      LastMember(round, m, nl + space, rest);
      assert CleanedMembers(members) == [Member(Kept(m.name), Cleaned(m.value))];
    } else {
      ValueRoundTrip(round, m.value, depth, fmt, after);
      OneMember(round, m, tabs, tab, depth, fmt, after);
      MembersRoundTrip(round, members[1..], depth, fmt, space, rest);
      assert PrintMembers(members[1..], depth, fmt) + space + "}" + rest == more;
      MoreMembers(round, m, nl, more);
    }
  }

  lemma BlankEndsNumber(space: string, t: string)
    requires Blank(space) && EndsNumber(t)
    ensures EndsNumber(space + t)
  {
    if space == [] {
      assert space + t == t;
    } else {
      assert (space + t)[0] == space[0];
    }
  }

  /** What `ParseMembers` does once the member at the front is read and `after` remains. */
  function AfterMember(round: int -> int, m: Member, after: string): Option<(seq<Member>, string)> {
    var w := Skip(after);
    if w == [] then None
    else if w[0] == ',' then
      match ParseMembers(round, w[1..])
      case None => None
      case Some(r) => Some(([m] + r.0, r.1))
    else if w[0] == '}' then Some(([m], w[1..]))
    else None
  }

  lemma OneMember(round: int -> int, m: Member, tabs: string, tab: string, depth: nat, fmt: bool, after: string)
    requires Blank(tabs) && Blank(tab)
    requires ParseValue(round, Print(m.value, depth, fmt) + after) == Some((Cleaned(m.value), after))
    ensures ParseMembers(round, tabs + (PrintString(m.name) + (":" + (tab + (Print(m.value, depth, fmt) + after)))))
         == AfterMember(round, Member(Kept(m.name), Cleaned(m.value)), after)
  {
    hide ParseValue; hide Print; hide Cleaned; hide ParseString; hide Kept;
    var v := Print(m.value, depth, fmt) + after;
    var u := ":" + (tab + v);
    var t := PrintString(m.name) + u;
    StringRoundTrip(m.name, u);
    SkipBlank(tabs, t);
    assert Skip(t) == t;
    assert Skip(u) == u && u[1..] == tab + v;
    SkipBlank(tab, v);
    PrintStarts(m.value, depth, fmt);
    assert Skip(v) == v;
  }

  lemma LastMember(round: int -> int, m: Member, space: string, rest: string)
    requires Blank(space)
    ensures AfterMember(round, Member(Kept(m.name), Cleaned(m.value)), space + ("}" + rest))
            == Some(([Member(Kept(m.name), Cleaned(m.value))], rest))
  {
    SkipBlank(space, "}" + rest);
    assert ("}" + rest)[1..] == rest;
  }

  lemma MoreMembers(round: int -> int, m: Member, nl: string, more: string)
    requires Blank(nl) && ParseMembers(round, more).Some?
    ensures AfterMember(round, Member(Kept(m.name), Cleaned(m.value)), "," + (nl + more))
         == Some(([Member(Kept(m.name), Cleaned(m.value))] + ParseMembers(round, more).value.0,
            ParseMembers(round, more).value.1))
  {
    var w := "," + (nl + more);
    assert Skip(w) == w && w[1..] == nl + more;
    SkipBlank(nl, more);
    ParseMembersSkips(round, nl + more);
    ParseMembersSkips(round, more);
  }

  // ----- exactly the trees that come back unchanged

  predicate CleanString(s: string) { forall i :: 0 <= i < |s| ==> Plain(s[i]) || Escape(s[i]).Some? }

  predicate Clean(v: Value)
    decreases v, 0
  {
    match v
    case Text(s) => CleanString(s)
    case Array(items) => forall i :: 0 <= i < |items| ==> Clean(items[i])
    case Object(members) => forall i :: 0 <= i < |members| ==> CleanString(members[i].name) && Clean(members[i].value)
    case _ => true
  }

  lemma {:induction false} KeptLength(s: string)
    ensures |Kept(s)| <= |s| && (CleanString(s) <==> Kept(s) == s)
  {
    if s != [] {
      KeptLength(s[1..]);
      assert s == [s[0]] + s[1..];
      assert CleanString(s) <==> KeptChar(s[0]) != [] && CleanString(s[1..]);
    }
  }

  lemma {:induction false} CleanedSame(v: Value)
    ensures Clean(v) <==> Cleaned(v) == v
    decreases v, 1
  {
    match v
    case Text(s) => KeptLength(s);
    case Array(items) => CleanedItemsSame(items);
    case Object(members) => CleanedMembersSame(members);
    case _ =>
  }

  lemma {:induction false} CleanedItemsSame(items: seq<Value>)
    ensures (forall i :: 0 <= i < |items| ==> Clean(items[i])) <==> CleanedItems(items) == items
    decreases items, 0
  {
    if items != [] {
      CleanedSame(items[0]);
      CleanedItemsSame(items[1..]);
      assert items == [items[0]] + items[1..];
    }
  }

  lemma {:induction false} CleanedMembersSame(members: seq<Member>)
    ensures (forall i :: 0 <= i < |members| ==> CleanString(members[i].name) && Clean(members[i].value))
       <==> CleanedMembers(members) == members
    decreases members, 0
  {
    if members != [] {
      KeptLength(members[0].name);
      CleanedSame(members[0].value);
      CleanedMembersSame(members[1..]);
      assert members == [members[0]] + members[1..];
    }
  }

  /** A tree comes back unchanged exactly when its strings hold no unprintable character. */
  lemma RoundTrip(round: int -> int, v: Value, fmt: bool)
    requires Rounds(round) && Doubles(v)
    ensures Parse(round, Print(v, 0, fmt)) == Some(Cleaned(v))
    ensures Clean(v) <==> Parse(round, Print(v, 0, fmt)) == Some(v)
  {
    hide ParseValue; hide Print; hide Cleaned; hide Clean;
    var p := Print(v, 0, fmt);
    PrintStarts(v, 0, fmt);
    assert Skip(p) == p && p + [] == p;
    ValueRoundTrip(round, v, 0, fmt, []);
    CleanedSame(v);
  }

  /** A control character without a short escape is lost. */
  lemma ControlLost(round: int -> int)
    requires Rounds(round)
    ensures Parse(round, Print(Text(['\U{0001}']), 0, false)) == Some(Text([]))
  {
    var s: string := ['\U{0001}'];
    RoundTrip(round, Text(s), false);
    assert s[1..] == [];
    assert Kept(s) == KeptChar(s[0]) + Kept(s[1..]);
  }
}
