/** How far the JSON parser reads. A text is followed in memory by a terminator and by bytes that do
    not belong to it; the terminator counts as white space, so a text that ends too early is read on
    behind its end. */
module JsonMemory {
  import opened Options
  import opened Decimal
  import opened Json

  const END: char := '\0'

  /** What lies in memory from the start of a text on. */
  function Memory(text: string, behind: string): string { text + ([END] + behind) }

  // ----- the texts that are read past their end

  /** A backslash is the last character of a string. */
  predicate CharsPast(t: string) {
    if t == [] || t[0] == '\"' || t[0] <= '\U{001F}' then false
    else if t[0] != '\\' then CharsPast(t[1..])
    else if |t| < 2 then true
    else Unescape(t[1]).Some? && CharsPast(t[2..])
  }

  predicate StringPast(t: string) { t != [] && t[0] == '\"' && CharsPast(t[1..]) }

  predicate ValuePast(round: int -> int, t: string)
    decreases |t|, 1
  {
    if Starts(t, "null") || Starts(t, "false") || Starts(t, "true") || t == [] then false
    else if t[0] == '\"' then StringPast(t)
    else if t[0] == '[' then
      var u := Skip(t[1..]);
      u == [] || (u[0] != ']' && ItemsPast(round, u))
    else if t[0] == '{' then
      var u := Skip(t[1..]);
      u == [] || (u[0] != '}' && MembersPast(round, u))
    else false
  }

  predicate ItemsPast(round: int -> int, t: string)
    decreases |t|, 2
  {
    var t1 := Skip(t);
    || t1 == [] || ValuePast(round, t1)
    || (ParseValue(round, t1).Some? && AfterItem(round, Skip(ParseValue(round, t1).value.1)))
  }

  /** After an item, up to the closing bracket. */
  predicate AfterItem(round: int -> int, u: string)
    decreases |u|, 3
  {
    u == [] || (u[0] == ',' && ItemsPast(round, u[1..]))
  }

  predicate MembersPast(round: int -> int, t: string)
    decreases |t|, 2
  {
    var t1 := Skip(t);
    || t1 == [] || StringPast(t1)
    || (ParseString(t1).Some? && AfterName(round, Skip(ParseString(t1).value.1)))
  }

  /** After a name, up to the closing brace. */
  predicate AfterName(round: int -> int, u: string)
    decreases |u|, 3
  {
    || u == []
    || (u[0] == ':'
        && var v := Skip(u[1..]);
           v == [] || ValuePast(round, v)
             || (ParseValue(round, v).Some? && AfterPair(round, Skip(ParseValue(round, v).value.1))))
  }

  predicate AfterPair(round: int -> int, w: string)
    decreases |w|, 3
  {
    w == [] || (w[0] == ',' && MembersPast(round, w[1..]))
  }

  /** The whole text: white space alone, or a value that is not finished. */
  predicate Overreads(round: int -> int, text: string) { Skip(text) == [] || ValuePast(round, Skip(text)) }

  // ----- the others are not

  /** The same result, with more text left. */
  function Further<T>(r: Option<(T, string)>, z: string): Option<(T, string)> {
    match r case None => None case Some(p) => Some((p.0, p.1 + z))
  }

  lemma {:induction false} SkipSame(t: string, z: string)
    requires Skip(t) != []
    ensures Skip(t + z) == Skip(t) + z
  {
    if t[0] <= ' ' {
      SkipSame(t[1..], z);
      assert (t + z)[1..] == t[1..] + z;
    }
  }

  /** Behind white space at the end, the terminator is skipped as well. */
  lemma {:induction false} SkipPast(t: string, behind: string)
    requires Skip(t) == []
    ensures Skip(Memory(t, behind)) == Skip(behind)
  {
    var z := [END] + behind;
    if t == [] {
      assert t + z == z && z[1..] == behind;
    } else {
      SkipPast(t[1..], behind);
      assert (t + z)[1..] == t[1..] + z;
    }
  }

  lemma {:induction false} CharsSame(t: string, z: string)
    requires z != [] && z[0] == END && !CharsPast(t)
    ensures ParseChars(t + z) == Further(ParseChars(t), z)
  {
    hide Unescape; hide ParseChars;
    CharsTurn(t);
    CharsTurn(t + z);
    if t == [] {
      assert t + z == z;
    } else if !(t[0] == '\"' || t[0] <= '\U{001F}') {
      if t[0] != '\\' {
        CharsSame(t[1..], z);
        assert (t + z)[1..] == t[1..] + z;
      } else if Unescape(t[1]).Some? {
        CharsSame(t[2..], z);
        assert (t + z)[1] == t[1] && (t + z)[2..] == t[2..] + z;
      }
    }
  }

  /** A character in front of what was read. */
  function Fronted(c: char, r: Option<(string, string)>): Option<(string, string)> {
    match r case None => None case Some(p) => Some(([c] + p.0, p.1))
  }

  lemma CharsTurn(t: string)
    ensures ParseChars(t)
         == if t == [] || t[0] == '\"' || t[0] <= '\U{001F}' then Some(([], t))
            else if t[0] != '\\' then Fronted(t[0], ParseChars(t[1..]))
            else if |t| < 2 || Unescape(t[1]).None? then None
            else Fronted(Unescape(t[1]).value, ParseChars(t[2..]))
  {
    hide Unescape;
  }

  lemma StringSame(t: string, z: string)
    requires z != [] && z[0] == END && t != [] && !StringPast(t)
    ensures ParseString(t + z) == Further(ParseString(t), z)
  {
    hide ParseChars; hide CharsPast;
    if t[0] == '\"' {
      assert (t + z)[1..] == t[1..] + z;
      CharsSame(t[1..], z);
      if ParseChars(t[1..]).Some? {
        var r := ParseChars(t[1..]).value.1;
        if r == [] {
          assert r + z == z;
        } else {
          assert (r + z)[1..] == r[1..] + z;
        }
      }
    }
  }

  lemma {:induction false} DigitsSame(round: int -> int, n: int, t: string, z: string)
    requires z != [] && z[0] == END
    ensures ParseRounded(round, n, t + z) == (ParseRounded(round, n, t).0, ParseRounded(round, n, t).1 + z)
    decreases |t|
  {
    if t == [] {
      assert t + z == z;
    } else if IsDigit(t[0]) {
      DigitsSame(round, round(round(n * 10) + (t[0] as int - '0' as int)), t[1..], z);
      assert (t + z)[1..] == t[1..] + z;
    }
  }

  lemma NumberSame(round: int -> int, t: string, z: string)
    requires z != [] && z[0] == END
    ensures ParseNumber(round, t + z) == Further(ParseNumber(round, t), z)
  {
    hide ParseRounded; hide Without;
    NumberParts(round, t);
    NumberParts(round, t + z);
    var t1 := Without(t, '-');
    var t2 := Without(t1, '0');
    WithoutSame(t, '-', z);
    WithoutSame(t1, '0', z);
    WithoutSame(t2, '-', z);
    DigitsSame(round, 0, t2, z);
    var r := if t2 != [] && '1' <= t2[0] <= '9' then ParseRounded(round, 0, t2) else (0, t2);
    WithoutSame(r.1, '-', z);
  }

  /** The text after one character, if it starts with it. */
  function Without(t: string, c: char): string { if t != [] && t[0] == c then t[1..] else t }

  lemma WithoutSame(t: string, c: char, z: string)
    requires z != [] && z[0] == END && c != END
    ensures Without(t + z, c) == Without(t, c) + z && (t + z)[0] == if t == [] then END else t[0]
  {
    if t == [] {
      assert t + z == z;
    } else {
      assert (t + z)[1..] == t[1..] + z;
    }
  }

  lemma NumberParts(round: int -> int, t: string)
    ensures var t2 := Without(Without(t, '-'), '0');
            var r: (int, string) := if t2 != [] && '1' <= t2[0] <= '9' then ParseRounded(round, 0, t2) else (0, t2);
            ParseNumber(round, t) == if r.1 != [] && r.1[0] in {'.', 'e', 'E'} then None
                              else Some((if t != [] && t[0] == '-' then -r.0 else r.0, r.1))
  {
    hide ParseRounded;
  }

  lemma StartsSame(t: string, z: string, word: string)
    requires z != [] && z[0] == END && END !in word
    ensures Starts(t + z, word) == Starts(t, word)
    ensures Starts(t, word) ==> (t + z)[|word|..] == t[|word|..] + z
  {
    if |t| < |word| <= |t + z| {
      assert (t + z)[..|word|][|t|] == END && word[|t|] != END;
    } else if |word| <= |t| {
      assert (t + z)[..|word|] == t[..|word|];
    }
  }

  // ----- the parser, one step at a time

  function AfterBracket(round: int -> int, u: string): Option<(Value, string)> {
    if u != [] && u[0] == ']' then Some((Array([]), u[1..]))
    else match ParseItems(round, u) case None => None case Some(r) => Some((Array(r.0), r.1))
  }

  lemma OpenedArray(round: int -> int, t: string)
    requires t != [] && t[0] == '['
    ensures ParseValue(round, t) == AfterBracket(round, Skip(t[1..]))
    ensures ValuePast(round, t) <==> var u := Skip(t[1..]); u == [] || (u[0] != ']' && ItemsPast(round, u))
  {
    hide ParseItems; hide Starts; hide ParseMembers; hide Skip; hide ParseNumber; hide ParseString; hide ItemsPast;
    NotAWord(t);
  }

  lemma OpenedObject(round: int -> int, t: string)
    requires t != [] && t[0] == '{'
    ensures ParseValue(round, t) == AfterBrace(round, Skip(t[1..]))
    ensures ValuePast(round, t) <==> var u := Skip(t[1..]); u == [] || (u[0] != '}' && MembersPast(round, u))
  {
    hide ParseItems; hide Starts; hide ParseMembers; hide Skip; hide ParseNumber; hide ParseString; hide MembersPast;
    NotAWord(t);
  }

  /** What is left to do after a name and its value. */
  function PairTail(round: int -> int, m: Member, w: string): Option<(seq<Member>, string)> {
    if w == [] then None
    else if w[0] == ',' then match ParseMembers(round, w[1..]) case None => None case Some(r) => Some(([m] + r.0, r.1))
    else if w[0] == '}' then Some(([m], w[1..]))
    else None
  }

  /** What is left to do after a name. */
  function NameTail(round: int -> int, name: string, u: string): Option<(seq<Member>, string)> {
    if u == [] || u[0] != ':' then None
    else
      match ParseValue(round, Skip(u[1..]))
      case None => None
      case Some(v) => PairTail(round, Member(name, v.0), Skip(v.1))
  }

  lemma MembersStep(round: int -> int, t: string)
    ensures ParseMembers(round, t)
            == match ParseString(Skip(t)) case None => None case Some(n) => NameTail(round, n.0, Skip(n.1))
  {
    hide ParseValue; hide ParseString; hide Skip;
  }

  // ----- nothing behind the text matters unless the text is read past its end

  lemma {:induction false} ValueSame(round: int -> int, t: string, z: string)
    requires z != [] && z[0] == END && !ValuePast(round, t)
    ensures ParseValue(round, t + z) == Further(ParseValue(round, t), z)
    decreases |t|, 1
  {
    hide ParseItems; hide ParseMembers; hide Skip; hide ParseNumber; hide ParseString; hide Starts; hide ItemsPast;
    hide MembersPast;
    StartsSame(t, z, "null");
    StartsSame(t, z, "false");
    StartsSame(t, z, "true");
    if Starts(t, "null") || Starts(t, "false") || Starts(t, "true") {
    } else if t == [] {
      assert t + z == z;
    } else if t[0] == '\"' {
      StringSame(t, z);
    } else if t[0] == '-' || IsDigit(t[0]) {
      NumberSame(round, t, z);
    } else if t[0] == '[' {
      ArraySame(round, t, z);
    } else if t[0] == '{' {
      ObjectSame(round, t, z);
    }
  }

  lemma {:induction false} ArraySame(round: int -> int, t: string, z: string)
    requires z != [] && z[0] == END && t != [] && t[0] == '[' && !ValuePast(round, t)
    ensures ParseValue(round, t + z) == Further(ParseValue(round, t), z)
    decreases |t|, 0
  {
    hide ParseValue; hide ParseItems; hide Skip; hide ValuePast; hide ItemsPast;
    OpenedArray(round, t);
    OpenedArray(round, t + z);
    var u := Skip(t[1..]);
    assert (t + z)[1..] == t[1..] + z;
    SkipSame(t[1..], z);
    if u[0] == ']' {
      assert (u + z)[1..] == u[1..] + z;
    } else {
      ItemsSame(round, u, z);
    }
  }

  lemma {:induction false} ItemsSame(round: int -> int, t: string, z: string)
    requires z != [] && z[0] == END && !ItemsPast(round, t)
    ensures ParseItems(round, t + z) == Further(ParseItems(round, t), z)
    decreases |t|, 2
  {
    hide ParseValue; hide ParseItems; hide Skip; hide ValuePast;
    ItemsUnfold(round, t);
    ItemsUnfold(round, t + z);
    var t1 := Skip(t);
    SkipSame(t, z);
    ValueSame(round, t1, z);
    if ParseValue(round, t1).Some? {
      var v := ParseValue(round, t1).value;
      var u := Skip(v.1);
      SkipSame(v.1, z);
      assert (u + z)[1..] == u[1..] + z;
      if u[0] == ',' { ItemsSame(round, u[1..], z); }
    }
  }

  lemma {:induction false} ObjectSame(round: int -> int, t: string, z: string)
    requires z != [] && z[0] == END && t != [] && t[0] == '{' && !ValuePast(round, t)
    ensures ParseValue(round, t + z) == Further(ParseValue(round, t), z)
    decreases |t|, 0
  {
    hide ParseValue; hide ParseMembers; hide Skip; hide ValuePast; hide MembersPast;
    OpenedObject(round, t);
    OpenedObject(round, t + z);
    var u := Skip(t[1..]);
    assert (t + z)[1..] == t[1..] + z;
    SkipSame(t[1..], z);
    if u[0] == '}' {
      assert (u + z)[1..] == u[1..] + z;
    } else {
      MembersSame(round, u, z);
    }
  }

  lemma {:induction false} MembersSame(round: int -> int, t: string, z: string)
    requires z != [] && z[0] == END && !MembersPast(round, t)
    ensures ParseMembers(round, t + z) == Further(ParseMembers(round, t), z)
    decreases |t|, 2
  {
    hide ParseString; hide ParseMembers; hide Skip; hide StringPast; hide NameTail; hide AfterName;
    MembersStep(round, t);
    MembersStep(round, t + z);
    var t1 := Skip(t);
    SkipSame(t, z);
    StringSame(t1, z);
    if ParseString(t1).Some? {
      var n := ParseString(t1).value;
      AfterNameFull(round, Skip(n.1));
      SkipSame(n.1, z);
      NameSame(round, n.0, Skip(n.1), z);
    }
  }

  lemma AfterNameFull(round: int -> int, u: string)
    requires !AfterName(round, u)
    ensures u != []
  {}

  lemma {:induction false} NameSame(round: int -> int, name: string, u: string, z: string)
    requires z != [] && z[0] == END && !AfterName(round, u)
    ensures NameTail(round, name, u + z) == Further(NameTail(round, name, u), z)
    decreases |u|, 3
  {
    hide ParseValue; hide ParseMembers; hide Skip; hide ValuePast; hide MembersPast;
    if u[0] == ':' {
      var v := Skip(u[1..]);
      assert (u + z)[1..] == u[1..] + z;
      SkipSame(u[1..], z);
      ValueSame(round, v, z);
      if ParseValue(round, v).Some? {
        var p := ParseValue(round, v).value;
        var w := Skip(p.1);
        SkipSame(p.1, z);
        assert (w + z)[1..] == w[1..] + z;
        if w[0] == ',' { MembersSame(round, w[1..], z); }
      }
    }
  }

  // ----- a text that is read past its end can be completed by what is behind it

  predicate Done<T>(r: Option<(T, string)>, rest: string) { r.Some? && r.value.1 == rest }

  lemma {:induction false} CharsOn(t: string, rest: string)
    requires CharsPast(t)
    ensures Done(ParseChars(Memory(t, "\"" + rest)), "\"" + rest)
  {
    var b := "\"" + rest;
    var m := Memory(t, b);
    if t[0] != '\\' {
      CharsOn(t[1..], rest);
      assert m[1..] == Memory(t[1..], b);
    } else if |t| < 2 {
      assert m[2..] == b;
    } else {
      CharsOn(t[2..], rest);
      assert m[2..] == Memory(t[2..], b);
    }
  }

  lemma StringOn(t: string, rest: string)
    requires StringPast(t)
    ensures Done(ParseString(Memory(t, "\"" + rest)), rest)
  {
    hide ParseChars; hide CharsPast;
    var m := Memory(t, "\"" + rest);
    CharsOn(t[1..], rest);
    assert m[1..] == Memory(t[1..], "\"" + rest);
    assert ("\"" + rest)[1..] == rest;
  }

  lemma NullValue(round: int -> int, rest: string)
    ensures ParseValue(round, "null" + rest) == Some((Null, rest)) && Skip("null" + rest) == "null" + rest
  {
    assert ("null" + rest)[..4] == "null" && ("null" + rest)[4..] == rest;
  }

  lemma Mark(c: char, rest: string)
    requires c > ' '
    ensures Skip([c] + rest) == [c] + rest && ([c] + rest)[1..] == rest
  {}

  lemma {:induction false} ValueOn(round: int -> int, t: string, rest: string) returns (b: string)
    requires ValuePast(round, t)
    ensures Done(ParseValue(round, Memory(t, b + rest)), rest)
    decreases |t|, 1
  {
    hide ParseItems; hide ParseMembers; hide Skip; hide ParseNumber; hide ParseString; hide Starts; hide ItemsPast;
    hide MembersPast; hide StringPast;
    if t[0] == '\"' {
      b := "\"";
      StringOn(t, rest);
      QuotedValue(round, Memory(t, b + rest));
    } else if t[0] == '[' {
      b := ArrayOn(round, t, rest);
    } else {
      b := ObjectOn(round, t, rest);
    }
  }

  lemma QuotedValue(round: int -> int, t: string)
    requires t != [] && t[0] == '\"'
    ensures ParseValue(round, t) == match ParseString(t) case None => None case Some(r) => Some((Text(r.0), r.1))
  {
    hide ParseString;
  }

  lemma {:induction false} ArrayOn(round: int -> int, t: string, rest: string) returns (b: string)
    requires t != [] && t[0] == '[' && ValuePast(round, t)
    ensures Done(ParseValue(round, Memory(t, b + rest)), rest)
    decreases |t|, 0
  {
    hide ParseValue; hide ParseItems; hide Skip; hide ValuePast; hide ItemsPast;
    OpenedArray(round, t);
    var u := Skip(t[1..]);
    if u == [] {
      b := "]";
      SkipPast(t[1..], b + rest);
      Mark(']', rest);
    } else {
      b := ItemsOn(round, u, rest);
      SkipSame(t[1..], [END] + (b + rest));
    }
    var m := Memory(t, b + rest);
    assert m[1..] == Memory(t[1..], b + rest);
    OpenedArray(round, m);
  }

  lemma {:induction false} ItemsOn(round: int -> int, t: string, rest: string) returns (b: string)
    requires ItemsPast(round, t)
    ensures Done(ParseItems(round, Memory(t, b + rest)), rest)
    decreases |t|, 2
  {
    hide ParseValue; hide ParseItems; hide Skip; hide ValuePast;
    var t1 := Skip(t);
    Mark(']', rest);
    if t1 == [] {
      b := "null]";
      NullValue(round, "]" + rest);
      assert b + rest == "null" + ("]" + rest);
      SkipPast(t, b + rest);
    } else if ValuePast(round, t1) {
      var b1 := ValueOn(round, t1, "]" + rest);
      b := b1 + "]";
      assert b + rest == b1 + ("]" + rest);
      SkipSame(t, [END] + (b + rest));
    } else {
      var v := ParseValue(round, t1).value;
      var u := Skip(v.1);
      if u == [] {
        b := "]";
        SkipPast(v.1, b + rest);
      } else {
        b := ItemsOn(round, u[1..], rest);
        SkipSame(v.1, [END] + (b + rest));
        assert Memory(u, b + rest)[1..] == Memory(u[1..], b + rest);
      }
      SkipSame(t, [END] + (b + rest));
      ValueSame(round, t1, [END] + (b + rest));
    }
    ItemsUnfold(round, Memory(t, b + rest));
  }

  lemma {:induction false} ObjectOn(round: int -> int, t: string, rest: string) returns (b: string)
    requires t != [] && t[0] == '{' && ValuePast(round, t)
    ensures Done(ParseValue(round, Memory(t, b + rest)), rest)
    decreases |t|, 0
  {
    hide ParseValue; hide ParseMembers; hide Skip; hide ValuePast; hide MembersPast;
    OpenedObject(round, t);
    var u := Skip(t[1..]);
    if u == [] {
      b := "}";
      SkipPast(t[1..], b + rest);
      Mark('}', rest);
    } else {
      b := MembersOn(round, u, rest);
      SkipSame(t[1..], [END] + (b + rest));
    }
    var m := Memory(t, b + rest);
    assert m[1..] == Memory(t[1..], b + rest);
    OpenedObject(round, m);
  }

  /** The rest of a member after its name, and a closing brace. */
  lemma ClosingPair(round: int -> int, name: string, rest: string)
    ensures Done(NameTail(round, name, ":null}" + rest), rest) && Skip(":null}" + rest) == ":null}" + rest
  {
    hide ParseValue; hide ParseMembers; hide Skip;
    var u := ":null}" + rest;
    assert u == [':'] + ("null" + ("}" + rest));
    Mark(':', "null" + ("}" + rest));
    NullValue(round, "}" + rest);
    Mark('}', rest);
  }

  lemma EmptyName(rest: string)
    ensures ParseString("\"\"" + rest) == Some(("", rest)) && Skip("\"\"" + rest) == "\"\"" + rest
  {
    var t := "\"\"" + rest;
    assert t[1..] == "\"" + rest && ("\"" + rest)[1..] == rest;
  }

  lemma {:induction false} MembersOn(round: int -> int, t: string, rest: string) returns (b: string)
    requires MembersPast(round, t)
    ensures Done(ParseMembers(round, Memory(t, b + rest)), rest)
    decreases |t|, 2
  {
    hide ParseString; hide ParseMembers; hide Skip; hide StringPast; hide NameTail; hide AfterName;
    var t1 := Skip(t);
    var tail := ":null}" + rest;
    if t1 == [] {
      b := "\"\":null}";
      assert b + rest == "\"\"" + tail;
      EmptyName(tail);
      ClosingPair(round, "", rest);
      SkipPast(t, b + rest);
    } else if StringPast(t1) {
      b := "\":null}";
      assert b + rest == "\"" + tail;
      StringOn(t1, tail);
      SkipSame(t, [END] + (b + rest));
      ClosingPair(round, ParseString(Memory(t1, b + rest)).value.0, rest);
    } else {
      var n := ParseString(t1).value;
      b := NameOn(round, n.0, n.1, rest);
      SkipSame(t, [END] + (b + rest));
      StringSame(t1, [END] + (b + rest));
    }
    MembersStep(round, Memory(t, b + rest));
  }

  lemma {:induction false} NameOn(round: int -> int, name: string, after: string, rest: string) returns (b: string)
    requires AfterName(round, Skip(after))
    ensures Done(NameTail(round, name, Skip(Memory(after, b + rest))), rest)
    decreases |after|, 3
  {
    hide ParseValue; hide ParseMembers; hide Skip; hide ValuePast; hide MembersPast;
    var u := Skip(after);
    if u == [] {
      b := ":null}";
      ClosingPair(round, name, rest);
      SkipPast(after, b + rest);
    } else {
      b := PairOn(round, u[1..], rest);
      SkipSame(after, [END] + (b + rest));
      assert Memory(u, b + rest) == [':'] + Memory(u[1..], b + rest);
    }
  }

  /** The value after a colon, and what follows it. */
  predicate PairPast(round: int -> int, t: string) {
    var v := Skip(t);
    v == [] || ValuePast(round, v)
      || (ParseValue(round, v).Some? && AfterPair(round, Skip(ParseValue(round, v).value.1)))
  }

  lemma {:induction false} PairOn(round: int -> int, t: string, rest: string) returns (b: string)
    requires PairPast(round, t)
    ensures ParseValue(round, Skip(Memory(t, b + rest))).Some?
    ensures forall name :: Done(NameTail(round, name, [':'] + Memory(t, b + rest)), rest)
    decreases |t|, 3
  {
    hide ParseValue; hide ParseMembers; hide Skip; hide ValuePast; hide MembersPast;
    var v := Skip(t);
    Mark('}', rest);
    if v == [] {
      b := "null}";
      NullValue(round, "}" + rest);
      assert b + rest == "null" + ("}" + rest);
      SkipPast(t, b + rest);
    } else if ValuePast(round, v) {
      var b1 := ValueOn(round, v, "}" + rest);
      b := b1 + "}";
      assert b + rest == b1 + ("}" + rest);
      SkipSame(t, [END] + (b + rest));
    } else {
      var p := ParseValue(round, v).value;
      var w := Skip(p.1);
      if w == [] {
        b := "}";
        SkipPast(p.1, b + rest);
      } else {
        b := MembersOn(round, w[1..], rest);
        SkipSame(p.1, [END] + (b + rest));
        assert Memory(w, b + rest)[1..] == Memory(w[1..], b + rest);
      }
      SkipSame(t, [END] + (b + rest));
      ValueSame(round, v, [END] + (b + rest));
    }
    assert ([':'] + Memory(t, b + rest))[1..] == Memory(t, b + rest);
  }

  // ----- on its own such a text is not a value

  lemma {:induction false} CharsFail(t: string)
    requires CharsPast(t)
    ensures ParseChars(t) == None
  {
    hide Unescape;
    if t[0] != '\\' {
      CharsFail(t[1..]);
    } else if |t| >= 2 {
      CharsFail(t[2..]);
    }
  }

  lemma StringFails(t: string)
    requires StringPast(t)
    ensures ParseString(t) == None
  {
    hide ParseChars;
    CharsFail(t[1..]);
  }

  lemma {:induction false} ValueFails(round: int -> int, t: string)
    requires ValuePast(round, t)
    ensures ParseValue(round, t) == None
    decreases |t|, 1
  {
    hide ParseItems; hide ParseMembers; hide Skip; hide ParseNumber; hide ParseString; hide Starts; hide ItemsPast;
    hide MembersPast; hide StringPast;
    if t[0] == '\"' {
      StringFails(t);
    } else {
      var u := Skip(t[1..]);
      if t[0] == '[' {
        ItemsFail(round, u);
      } else {
        MembersFail(round, u);
      }
    }
  }

  lemma {:induction false} ItemsFail(round: int -> int, t: string)
    requires t == [] || ItemsPast(round, t)
    ensures ParseItems(round, t) == None
    decreases |t|, 2
  {
    hide ParseValue; hide ParseItems; hide ValuePast;
    ItemsUnfold(round, t);
    var t1 := Skip(t);
    NothingParsed(round);
    if t1 == [] {
    } else if ValuePast(round, t1) {
      ValueFails(round, t1);
    } else {
      var u := Skip(ParseValue(round, t1).value.1);
      if u != [] { ItemsFail(round, u[1..]); }
    }
  }

  lemma {:induction false} MembersFail(round: int -> int, t: string)
    requires t == [] || MembersPast(round, t)
    ensures ParseMembers(round, t) == None
    decreases |t|, 2
  {
    hide ParseString; hide ParseMembers; hide StringPast; hide NameTail; hide AfterName;
    MembersStep(round, t);
    var t1 := Skip(t);
    NothingParsed(round);
    if t1 == [] {
    } else if StringPast(t1) {
      StringFails(t1);
    } else {
      var n := ParseString(t1).value;
      NameFails(round, n.0, Skip(n.1));
    }
  }

  lemma {:induction false} NameFails(round: int -> int, name: string, u: string)
    requires AfterName(round, u)
    ensures NameTail(round, name, u) == None
    decreases |u|, 3
  {
    hide ParseValue; hide ParseMembers; hide ValuePast; hide MembersPast;
    NothingParsed(round);
    if u != [] {
      var v := Skip(u[1..]);
      if v == [] {
      } else if ValuePast(round, v) {
        ValueFails(round, v);
      } else {
        var w := Skip(ParseValue(round, v).value.1);
        if w != [] { MembersFail(round, w[1..]); }
      }
    }
  }

  // ----- the exact condition

  /** The result depends on what lies behind the text exactly when the text is read past its end:
      otherwise it is the same whatever is there, and then there are bytes that complete it to a value. */
  lemma ReadsBehind(round: int -> int, text: string)
    ensures Overreads(round, text) <==> exists behind :: Parse(round, Memory(text, behind)) != Parse(round, text)
    ensures Overreads(round, text) ==>
              Parse(round, text) == None && exists behind :: Parse(round, Memory(text, behind)).Some?
  {
    hide Parse; hide Overreads;
    if Overreads(round, text) {
      var b := ParsedOn(round, text);
      assert Parse(round, Memory(text, b)) != Parse(round, text);
    } else {
      forall behind ensures Parse(round, Memory(text, behind)) == Parse(round, text) {
        ParsedSame(round, text, behind);
      }
    }
  }

  lemma ParsedSame(round: int -> int, text: string, behind: string)
    requires !Overreads(round, text)
    ensures Parse(round, Memory(text, behind)) == Parse(round, text)
  {
    hide ParseValue; hide Skip; hide ValuePast;
    SkipSame(text, [END] + behind);
    ValueSame(round, Skip(text), [END] + behind);
  }

  lemma ParsedOn(round: int -> int, text: string) returns (behind: string)
    requires Overreads(round, text)
    ensures Parse(round, text) == None && Parse(round, Memory(text, behind)).Some?
  {
    hide ParseValue; hide Skip; hide ValuePast;
    var t1 := Skip(text);
    if t1 == [] {
      behind := "null";
      NothingParsed(round);
      NullValue(round, "");
      assert "null" + "" == "null";
      SkipPast(text, behind);
    } else {
      behind := ValueOn(round, t1, "");
      assert behind + "" == behind;
      SkipSame(text, [END] + behind);
      ValueFails(round, t1);
    }
  }

  lemma NothingParsed(round: int -> int)
    ensures ParseValue(round, "") == None && ParseString("") == None
  {}

  /** The smallest ones: nothing at all, and an open bracket. */
  lemma OverreadsShort(round: int -> int)
    ensures Overreads(round, "") && Parse(round, Memory("", "null")) == Some(Null)
    ensures Overreads(round, "[") && Parse(round, Memory("[", "]")) == Some(Array([]))
  {
    NullValue(round, "");
    assert "null" + "" == "null";
    SkipPast("", "null");
    OpenedArray(round, "[");
    assert "["[1..] == "";
    hide ParseValue; hide Skip; hide ValuePast;
    SkipPast("", "]");
    Mark(']', "");
    Mark('[', [END] + "]");
    Mark('[', "");
    assert "]" + "" == "]" && "[" + "" == "[";
    assert Memory("[", "]") == "[" + ([END] + "]") && Memory("", "]") == [END] + "]";
    OpenedArray(round, Memory("[", "]"));
  }

  /** A printed tree is never read past its end, so it comes back wherever it lies. */
  lemma PrintedEnds(round: int -> int, v: Value, fmt: bool, behind: string)
    requires Rounds(round) && Doubles(v)
    ensures !Overreads(round, Print(v, 0, fmt)) && Parse(round, Memory(Print(v, 0, fmt), behind)) == Some(Cleaned(v))
  {
    hide Parse; hide Overreads; hide Print;
    RoundTrip(round, v, fmt);
    ReadsBehind(round, Print(v, 0, fmt));
    ParsedSame(round, Print(v, 0, fmt), behind);
  }
}
