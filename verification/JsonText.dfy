/** The loops of cJSON's printers and parsers, with the character buffers they allocate. Each is
    proved to compute the function of `Json` that the round trip is about. A write outside a
    buffer would not verify, so the precomputed lengths cover everything that is written. */
module JsonText {
  import opened Options
  import opened Decimal
  import opened Json
  import opened JsonMemory

  /** Copy a text and its terminator. */
  method StrCpy(out: array<char>, at: nat, text: string) returns (end: nat)
    requires at + |text| < out.Length
    modifies out
    ensures end == at + |text|
    ensures out[..end] == old(out[..at]) + text && out[end] == '\0'
  {
    for k := 0 to |text|
      invariant out[..at] == old(out[..at]) && out[at..at + k] == text[..k]
    {
      out[at + k] := text[k];
      assert out[at..at + k + 1] == out[at..at + k] + [text[k]];
    }
    end := at + |text|;
    out[end] := '\0';
    assert out[..end] == out[..at] + out[at..end];
  }

  method Put(out: array<char>, at: nat, c: char) returns (end: nat)
    requires at < out.Length
    modifies out
    ensures end == at + 1 && out[..end] == old(out[..at]) + [c]
  {
    out[at] := c;
    end := at + 1;
  }

  /** Write a character on a condition. */
  method PutIf(out: array<char>, at: nat, b: bool, c: char) returns (end: nat)
    requires at + (if b then 1 else 0) <= out.Length
    modifies out
    ensures end == at + (if b then 1 else 0)
    ensures out[..end] == old(out[..at]) + (if b then [c] else "")
  {
    end := at;
    if b { end := Put(out, at, c); }
  }

  /** Write the last character and the terminator. */
  method Finish(out: array<char>, at: nat, c: char) returns (text: string)
    requires at + 2 <= out.Length
    modifies out
    ensures text == old(out[..at]) + [c]
  {
    out[at] := c;
    out[at + 1] := '\0';
    text := out[..at + 1];
  }

  // ----- printing

  /** Room counted for the characters of a string. */
  function CharsRoom(s: string): nat {
    if s == [] then 0 else (if Plain(s[0]) then 1 else 2) + CharsRoom(s[1..])
  }

  method MeasureString(s: string) returns (len: nat)
    ensures len == CharsRoom(s)
  {
    len := 0;
    for i := 0 to |s|
      invariant len + CharsRoom(s[i..]) == CharsRoom(s)
    {
      assert s[i..][1..] == s[i + 1..];
      len := len + 1;
      if !Plain(s[i]) { len := len + 1; }
    }
  }

  /** A backslash is written before the letter is looked up, and overwritten when there is none. */
  method PrintOneChar(out: array<char>, at: nat, c: char) returns (end: nat)
    requires at + (if Plain(c) then 1 else 2) < out.Length
    modifies out
    ensures at <= end <= at + (if Plain(c) then 1 else 2)
    ensures out[..end] == old(out[..at]) + PrintChar(c)
  {
    if Plain(c) {
      end := Put(out, at, c);
    } else {
      end := Put(out, at, '\\');
      match Escape(c)
      case Some(letter) => end := Put(out, end, letter);
      case None =>
        end := end - 1;
        assert out[..end] == out[..end + 1][..end] == old(out[..at]);
    }
  }

  method PrintStringPtr(s: string) returns (text: string)
    ensures text == PrintString(s)
  {
    hide Plain; hide Escape; hide PrintChar;
    var len := MeasureString(s);
    var out := new char[len + 3];
    var at: nat := Put(out, 0, '\"');
    for i := 0 to |s|
      invariant at + CharsRoom(s[i..]) + 2 <= out.Length
      invariant out[..at] + PrintChars(s[i..]) == ['\"'] + PrintChars(s)
    {
      assert s[i..][1..] == s[i + 1..];
      Regroup(out[..at], PrintChar(s[i]), PrintChars(s[i + 1..]));
      at := PrintOneChar(out, at, s[i]);
    }
    text := Finish(out, at, '\"');
  }

  predicate In32(n: int) { -0x8000_0000 <= n < 0x8000_0000 }

  /** Every number is a 32-bit integer, as `%d` prints them. */
  predicate Fits(v: Value)
    decreases v
  {
    match v
    case Number(n) => In32(n)
    case Array(items) => forall i :: 0 <= i < |items| ==> Fits(items[i])
    case Object(members) => forall i :: 0 <= i < |members| ==> Fits(members[i].value)
    case _ => true
  }

  function Power10(k: nat): nat { if k == 0 then 1 else 10 * Power10(k - 1) }

  lemma {:induction false} NatWidth(n: nat, k: nat)
    requires k > 0 && n < Power10(k)
    ensures |PrintNat(n)| <= k
    decreases k
  {
    if n >= 10 {
      assert n / 10 < Power10(k - 1);
      NatWidth(n / 10, k - 1);
    }
  }

  method PrintInteger(n: int) returns (text: string)
    requires In32(n)
    ensures text == PrintInt(n)
  {
    var out := new char[21];
    assert Power10(10) == 10000000000;
    NatWidth(if n < 0 then -n else n, 10);
    var at := StrCpy(out, 0, PrintInt(n));
    text := out[..at];
  }

  method PrintTree(v: Value, depth: nat, fmt: bool) returns (text: string)
    requires Fits(v)
    ensures text == Print(v, depth, fmt)
    decreases v, 0
  {
    match v
    case Null => text := "null";
    case False => text := "false";
    case True => text := "true";
    case Number(n) => text := PrintInteger(n);
    case Text(s) => text := PrintStringPtr(s);
    case Array(items) => text := PrintArray(items, depth, fmt);
    case Object(members) => text := PrintObject(members, depth, fmt);
  }

  /** Room counted for the items of an array. */
  function ItemsRoom(items: seq<Value>, depth: nat, fmt: bool): nat {
    if items == [] then 0
    else |Print(items[0], depth, fmt)| + 2 + (if fmt then 1 else 0) + ItemsRoom(items[1..], depth, fmt)
  }

  /** The printed items, and the length counted along the way. */
  method PrintEntries(items: seq<Value>, depth: nat, fmt: bool) returns (entries: seq<string>, len: nat)
    requires forall i :: 0 <= i < |items| ==> Fits(items[i])
    ensures |entries| == |items| && forall i :: 0 <= i < |items| ==> entries[i] == Print(items[i], depth, fmt)
    ensures len == 5 + ItemsRoom(items, depth, fmt)
    decreases items, 1
  {
    hide Print;
    entries, len := [], 5;
    for i := 0 to |items|
      invariant |entries| == i && forall k :: 0 <= k < i ==> entries[k] == Print(items[k], depth, fmt)
      invariant len + ItemsRoom(items[i..], depth, fmt) == 5 + ItemsRoom(items, depth, fmt)
    {
      assert items[i..][1..] == items[i + 1..];
      var ret := PrintTree(items[i], depth, fmt);
      entries := entries + [ret];
      len := len + |ret| + 2 + (if fmt then 1 else 0);
    }
  }

  function Separator(fmt: bool): string { if fmt then ", " else "," }

  /** One item of the composed text, with its separator. */
  function ItemText(entry: string, last: bool, fmt: bool): string {
    entry + if last then "" else Separator(fmt)
  }

  method PutItem(out: array<char>, at: nat, entry: string, last: bool, fmt: bool) returns (end: nat)
    requires at + |entry| + 2 < out.Length
    modifies out
    ensures end == at + |ItemText(entry, last, fmt)|
    ensures out[..end] == old(out[..at]) + ItemText(entry, last, fmt)
  {
    end := StrCpy(out, at, entry);
    if !last {
      end := Put(out, end, ',');
      if fmt { end := Put(out, end, ' '); }
      out[end] := '\0';
    }
  }

  lemma ItemsSplit(items: seq<Value>, i: nat, depth: nat, fmt: bool)
    requires i < |items|
    ensures PrintItems(items[i..], depth, fmt)
         == ItemText(Print(items[i], depth, fmt), i == |items| - 1, fmt) + PrintItems(items[i + 1..], depth, fmt)
    ensures ItemsRoom(items[i..], depth, fmt)
         == |Print(items[i], depth, fmt)| + 2 + (if fmt then 1 else 0) + ItemsRoom(items[i + 1..], depth, fmt)
  {
    assert items[i..][1..] == items[i + 1..];
  }

  method PrintArray(items: seq<Value>, depth: nat, fmt: bool) returns (text: string)
    requires forall i :: 0 <= i < |items| ==> Fits(items[i])
    ensures text == "[" + PrintItems(items, depth + 1, fmt) + "]"
    decreases items, 2
  {
    hide Print; hide Fits; hide PrintItems; hide ItemsRoom;
    var entries, len := PrintEntries(items, depth + 1, fmt);
    var out := new char[len];
    var at: nat := Put(out, 0, '[');
    out[at] := '\0';
    assert items[0..] == items;
    for i := 0 to |items|
      invariant at + ItemsRoom(items[i..], depth + 1, fmt) + 4 <= out.Length
      invariant out[..at] + PrintItems(items[i..], depth + 1, fmt) == "[" + PrintItems(items, depth + 1, fmt)
    {
      ItemsSplit(items, i, depth + 1, fmt);
      Regroup(out[..at], ItemText(entries[i], i == |items| - 1, fmt), PrintItems(items[i + 1..], depth + 1, fmt));
      at := PutItem(out, at, entries[i], i == |items| - 1, fmt);
    }
    NoItems(items[|items|..], depth + 1, fmt);
    text := Finish(out, at, ']');
  }

  lemma NoItems(items: seq<Value>, depth: nat, fmt: bool)
    requires items == []
    ensures PrintItems(items, depth, fmt) == [] && ItemsRoom(items, depth, fmt) == 0
  {}

  /** Room counted for the members of an object. */
  function MembersRoom(members: seq<Member>, depth: nat, fmt: bool): nat {
    if members == [] then 0
    else
      |Print(members[0].value, depth, fmt)| + |PrintString(members[0].name)| + 2 + (if fmt then 2 + depth else 0)
      + MembersRoom(members[1..], depth, fmt)
  }

  method PrintFields(members: seq<Member>, depth: nat, fmt: bool)
    returns (names: seq<string>, entries: seq<string>, len: nat)
    requires forall i :: 0 <= i < |members| ==> Fits(members[i].value)
    ensures |names| == |members| && forall i :: 0 <= i < |members| ==> names[i] == PrintString(members[i].name)
    ensures |entries| == |members|
            && forall i :: 0 <= i < |members| ==> entries[i] == Print(members[i].value, depth, fmt)
    ensures len == 7 + (if fmt then depth else 0) + MembersRoom(members, depth, fmt)
    decreases members, 1
  {
    hide Print; hide PrintString;
    names, entries, len := [], [], 7;
    if fmt { len := len + depth; }
    ghost var start := len;
    for i := 0 to |members|
      invariant |names| == i && forall k :: 0 <= k < i ==> names[k] == PrintString(members[k].name)
      invariant |entries| == i && forall k :: 0 <= k < i ==> entries[k] == Print(members[k].value, depth, fmt)
      invariant len + MembersRoom(members[i..], depth, fmt) == start + MembersRoom(members, depth, fmt)
    {
      assert members[i..][1..] == members[i + 1..];
      var str := PrintStringPtr(members[i].name);
      var ret := PrintTree(members[i].value, depth, fmt);
      names, entries := names + [str], entries + [ret];
      len := len + |ret| + |str| + 2 + (if fmt then 2 + depth else 0);
    }
  }

  method PutTabs(out: array<char>, at: nat, n: nat) returns (end: nat)
    requires at + n <= out.Length
    modifies out
    ensures end == at + n && out[..end] == old(out[..at]) + Tabs(n)
  {
    end := at;
    for j := 0 to n
      invariant end == at + j && out[..end] == old(out[..at]) + Tabs(j)
    {
      end := Put(out, end, '\t');
    }
  }

  function Indent(n: nat, fmt: bool): (s: string)
    ensures |s| == if fmt then n else 0
  {
    if fmt then Tabs(n) else ""
  }

  method PutIndent(out: array<char>, at: nat, n: nat, fmt: bool) returns (end: nat)
    requires at + (if fmt then n else 0) <= out.Length
    modifies out
    ensures end == at + (if fmt then n else 0) && out[..end] == old(out[..at]) + Indent(n, fmt)
  {
    end := at;
    if fmt { end := PutTabs(out, at, n); }
  }

  /** One member of the composed text, with its separators, after `before`. */
  function MemberText(before: string, name: string, entry: string, last: bool, depth: nat, fmt: bool): string {
    before + Indent(depth, fmt) + name + ":" + (if fmt then "\t" else "") + entry
    + (if !last then "," else "") + (if fmt then "\n" else "")
  }

  /** Room counted for one member. */
  function MemberRoom(name: string, entry: string, depth: nat, fmt: bool): nat {
    |entry| + |name| + 2 + if fmt then 2 + depth else 0
  }

  method PutMember(out: array<char>, at: nat, name: string, entry: string, last: bool, depth: nat, fmt: bool)
    returns (end: nat)
    requires at + MemberRoom(name, entry, depth, fmt) < out.Length
    modifies out
    ensures end <= at + MemberRoom(name, entry, depth, fmt)
    ensures out[..end] == MemberText(old(out[..at]), name, entry, last, depth, fmt)
  {
    hide Indent;
    end := PutIndent(out, at, depth, fmt);
    end := StrCpy(out, end, name);
    end := Put(out, end, ':');
    end := PutIf(out, end, fmt, '\t');
    end := StrCpy(out, end, entry);
    end := PutIf(out, end, !last, ',');
    end := PutIf(out, end, fmt, '\n');
    out[end] := '\0';
  }

  lemma RoomSplit(members: seq<Member>, i: nat, depth: nat, fmt: bool)
    requires i < |members|
    ensures MembersRoom(members[i..], depth, fmt)
         == MemberRoom(PrintString(members[i].name), Print(members[i].value, depth, fmt), depth, fmt)
            + MembersRoom(members[i + 1..], depth, fmt)
  {
    hide Print; hide PrintString;
    assert members[i..][1..] == members[i + 1..];
  }

  lemma MembersSplit(before: string, members: seq<Member>, i: nat, depth: nat, fmt: bool)
    requires i < |members|
    ensures before + PrintMembers(members[i..], depth, fmt)
         == MemberText(before, PrintString(members[i].name), Print(members[i].value, depth, fmt), i == |members| - 1,
            depth, fmt)
            + PrintMembers(members[i + 1..], depth, fmt)
    ensures MembersRoom(members[i..], depth, fmt)
         == MemberRoom(PrintString(members[i].name), Print(members[i].value, depth, fmt), depth, fmt)
            + MembersRoom(members[i + 1..], depth, fmt)
  {
    hide Print; hide PrintString; hide Tabs; hide PrintMembers; hide MembersRoom;
    assert members[i..][1..] == members[i + 1..];
    var rest := PrintMembers(members[i + 1..], depth, fmt);
    var name, entry := PrintString(members[i].name), Print(members[i].value, depth, fmt);
    var tab := if fmt then "\t" else "";
    var comma := if i < |members| - 1 then "," else "";
    var nl := if fmt then "\n" else "";
    MembersText(members[i..], depth, fmt, []);
    assert PrintMembers(members[i..], depth, fmt) + [] == PrintMembers(members[i..], depth, fmt) && rest + [] == rest;
    assert Following(members[i..], depth, fmt, []) == comma + (nl + rest);
    Regroup5(before, Indent(depth, fmt), name, ":", tab + (entry + (comma + (nl + rest))));
    Regroup5(before + Indent(depth, fmt) + name + ":", tab, entry, comma, nl + rest);
    Regroup(before + Indent(depth, fmt) + name + ":" + tab + entry + comma, nl, rest);
    RoomSplit(members, i, depth, fmt);
  }

  method PrintObject(members: seq<Member>, depth: nat, fmt: bool) returns (text: string)
    requires forall i :: 0 <= i < |members| ==> Fits(members[i].value)
    ensures text == "{" + (if fmt then "\n" else "") + PrintMembers(members, depth + 1, fmt)
            + (if fmt then Tabs(depth) else "") + "}"
    decreases members, 2
  {
    hide Print; hide Fits; hide PrintString; hide Tabs; hide PrintMembers; hide MembersRoom; hide MemberText;
    hide MemberRoom;
    var names, entries, len := PrintFields(members, depth + 1, fmt);
    var out := new char[len];
    var at: nat := Put(out, 0, '{');
    at := PutIf(out, at, fmt, '\n');
    out[at] := '\0';
    ghost var opening := out[..at];
    assert opening == "{" + if fmt then "\n" else "";
    assert members[0..] == members;
    for i := 0 to |members|
      invariant at + MembersRoom(members[i..], depth + 1, fmt) + (if fmt then depth else 0) + 4 <= out.Length
      invariant out[..at] + PrintMembers(members[i..], depth + 1, fmt)
                == opening + PrintMembers(members, depth + 1, fmt)
    {
      MembersSplit(out[..at], members, i, depth + 1, fmt);
      at := PutMember(out, at, names[i], entries[i], i == |members| - 1, depth + 1, fmt);
    }
    NoFields(members[|members|..], depth + 1, fmt);
    at := PutIndent(out, at, depth, fmt);
    text := Finish(out, at, '}');
  }

  lemma NoFields(members: seq<Member>, depth: nat, fmt: bool)
    requires members == []
    ensures PrintMembers(members, depth, fmt) == [] && MembersRoom(members, depth, fmt) == 0
  {}

  // ----- parsing: `t` is what lies in memory from the pointer on, with the terminator of the text
  // and whatever follows it

  method SkipSpace(t: string) returns (r: string)
    ensures r == Skip(t)
  {
    r := t;
    while r != [] && r[0] <= ' '
      invariant Skip(r) == Skip(t)
    {
      r := r[1..];
    }
  }

  /** The digit loop, on numbers that are rounded as doubles are. */
  method ScanNumber(round: int -> int, t: string) returns (r: Option<(int, string)>)
    ensures r == ParseNumber(round, t)
  {
    var num, n, negative := t, 0, false;
    if num != [] && num[0] == '-' { negative, num := true, num[1..]; }
    if num != [] && num[0] == '0' { num := num[1..]; }
    if num != [] && '1' <= num[0] <= '9' {
      ghost var start := num;
      while num != [] && IsDigit(num[0])
        invariant ParseRounded(round, n, num) == ParseRounded(round, 0, start)
      {
        n, num := round(round(n * 10) + (num[0] as int - '0' as int)), num[1..];
      }
    }
    if num != [] && num[0] in {'.', 'e', 'E'} { return None; }
    return Some((if negative then -n else n, num));
  }

  /** Characters up to the closing quote, an escape counted once. */
  function Units(t: string): nat {
    if t == [] || t[0] == '\"' || t[0] <= '\U{001F}' then 0
    else if t[0] != '\\' then 1 + Units(t[1..])
    else if |t| < 2 then 1
    else 1 + Units(t[2..])
  }

  method MeasureQuoted(t: string) returns (len: nat)
    ensures len == Units(t)
  {
    var ptr := t;
    len := 0;
    while ptr != [] && ptr[0] != '\"' && ptr[0] > '\U{001F}'
      invariant len + Units(ptr) == Units(t)
      decreases |ptr|
    {
      len := len + 1;
      ptr := if ptr[0] != '\\' then ptr[1..] else if |ptr| < 2 then [] else ptr[2..];
    }
  }

  /** `s` put in front of what was parsed. */
  function Prefixed(s: string, r: Option<(string, string)>): Option<(string, string)> {
    match r
    case None => None
    case Some(p) => Some((s + p.0, p.1))
  }

  lemma CharsStart(t: string)
    ensures ParseChars(t) == Prefixed([], ParseChars(t))
  {
    if ParseChars(t).Some? { assert [] + ParseChars(t).value.0 == ParseChars(t).value.0; }
  }

  lemma CharsStop(s: string, t: string)
    requires t == [] || t[0] == '\"' || t[0] <= '\U{001F}'
    ensures Prefixed(s, ParseChars(t)) == Some((s, t))
  {
    assert s + [] == s;
  }

  /** One more character, escaped or not, after those in `s`. */
  lemma CharsStep(s: string, t: string)
    requires t != [] && t[0] != '\"' && t[0] > '\U{001F}'
    ensures Prefixed(s, ParseChars(t))
         == if t[0] != '\\' then Prefixed(s + [t[0]], ParseChars(t[1..]))
            else if |t| < 2 || Unescape(t[1]).None? then None
            else Prefixed(s + [Unescape(t[1]).value], ParseChars(t[2..]))
  {
    hide Unescape;
    if t[0] != '\\' {
      if ParseChars(t[1..]).Some? { Regroup(s, [t[0]], ParseChars(t[1..]).value.0); }
    } else if |t| >= 2 && Unescape(t[1]).Some? && ParseChars(t[2..]).Some? {
      Regroup(s, [Unescape(t[1]).value], ParseChars(t[2..]).value.0);
    }
  }

  method ScanString(t: string) returns (r: Option<(string, string)>)
    ensures r == ParseString(t)
  {
    hide Unescape; hide ParseChars;
    if t == [] || t[0] != '\"' { return None; }
    var len := MeasureQuoted(t[1..]);
    var out := new char[len + 1];
    var ptr, at: nat := t[1..], 0;
    CharsStart(ptr);
    while ptr != [] && ptr[0] != '\"' && ptr[0] > '\U{001F}'
      invariant at + Units(ptr) <= len
      invariant ParseChars(t[1..]) == Prefixed(out[..at], ParseChars(ptr))
      decreases |ptr|
    {
      CharsStep(out[..at], ptr);
      if ptr[0] != '\\' {
        at := Put(out, at, ptr[0]);
        ptr := ptr[1..];
      } else {
        if |ptr| < 2 || Unescape(ptr[1]).None? { return None; }
        at := Put(out, at, Unescape(ptr[1]).value);
        ptr := ptr[2..];
      }
    }
    CharsStop(out[..at], ptr);
    out[at] := '\0';
    if ptr != [] && ptr[0] == '\"' { ptr := ptr[1..]; }
    r := Some((out[..at], ptr));
  }

  method ScanValue(round: int -> int, t: string) returns (r: Option<(Value, string)>)
    ensures r == ParseValue(round, t)
    decreases |t|, 1
  {
    if Starts(t, "null") { return Some((Null, t[4..])); }
    if Starts(t, "false") { return Some((False, t[5..])); }
    if Starts(t, "true") { return Some((True, t[4..])); }
    if t == [] { return None; }
    if t[0] == '\"' {
      var s := ScanString(t);
      return match s case None => None case Some(p) => Some((Text(p.0), p.1));
    }
    if t[0] == '-' || IsDigit(t[0]) {
      var n := ScanNumber(round, t);
      return match n case None => None case Some(p) => Some((Number(p.0), p.1));
    }
    if t[0] == '[' { r := ScanArray(round, t); return; }
    if t[0] == '{' { r := ScanObject(round, t); return; }
    return None;
  }

  /** What remains to be done once some items are read. */
  function ItemsFrom(round: int -> int, items: seq<Value>, t: string): Option<(seq<Value>, string)> {
    if t == [] then None
    else if t[0] == ',' then
      match ParseItems(round, t[1..])
      case None => None
      case Some(r) => Some((items + r.0, r.1))
    else if t[0] == ']' then Some((items, t[1..]))
    else None
  }

  /** Reading one more item. */
  lemma ItemsStep(round: int -> int, items: seq<Value>, t: string)
    requires t != [] && t[0] == ','
    ensures match ParseValue(round, Skip(t[1..]))
            case None => ItemsFrom(round, items, t) == None
            case Some(v) => ItemsFrom(round, items, t) == ItemsFrom(round, items + [v.0], Skip(v.1))
  {
    hide ParseValue; hide Skip;
    match ParseValue(round, Skip(t[1..]))
    case None =>
    case Some(v) =>
      var u := Skip(v.1);
      if u != [] && u[0] == ',' && ParseItems(round, u[1..]).Some? {
        var rest := ParseItems(round, u[1..]).value.0;
        assert items + ([v.0] + rest) == items + [v.0] + rest;
      }
  }

  /** The loop over the items, after the opening bracket. */
  method ScanItems(round: int -> int, t: string) returns (r: Option<(seq<Value>, string)>)
    ensures r == ParseItems(round, t)
    decreases |t|, 2
  {
    hide ParseValue; hide Skip;
    var value := SkipSpace(t);
    var child := ScanValue(round, value);
    if child.None? { return None; }
    var items := [child.value.0];
    value := SkipSpace(child.value.1);
    assert ParseItems(round, t) == ItemsFrom(round, items, value);
    hide ParseItems; hide ItemsFrom;
    while value != [] && value[0] == ','
      invariant |value| < |t|
      invariant ParseItems(round, t) == ItemsFrom(round, items, value)
      decreases |value|
    {
      ItemsStep(round, items, value);
      value := SkipSpace(value[1..]);
      child := ScanValue(round, value);
      if child.None? { return None; }
      items := items + [child.value.0];
      value := SkipSpace(child.value.1);
    }
    ItemsEnd(round, items, value);
    r := if value != [] && value[0] == ']' then Some((items, value[1..])) else None;
  }

  lemma ItemsEnd(round: int -> int, items: seq<Value>, t: string)
    requires t == [] || t[0] != ','
    ensures ItemsFrom(round, items, t) == if t != [] && t[0] == ']' then Some((items, t[1..])) else None
  {}

  method ScanArray(round: int -> int, t: string) returns (r: Option<(Value, string)>)
    requires t != [] && t[0] == '['
    ensures r == ParseValue(round, t)
    decreases |t|, 0
  {
    hide ParseItems; hide Skip; hide Starts; hide ParseMembers; hide ParseNumber; hide ParseString;
    NotAWord(t);
    var value := SkipSpace(t[1..]);
    if value != [] && value[0] == ']' { return Some((Array([]), value[1..])); }
    var items := ScanItems(round, value);
    r := match items case None => None case Some(p) => Some((Array(p.0), p.1));
  }

  /** What remains to be done once some members are read. */
  function MembersFrom(round: int -> int, members: seq<Member>, t: string): Option<(seq<Member>, string)> {
    if t == [] then None
    else if t[0] == ',' then
      match ParseMembers(round, t[1..])
      case None => None
      case Some(r) => Some((members + r.0, r.1))
    else if t[0] == '}' then Some((members, t[1..]))
    else None
  }

  /** One name, colon and value; the text left starts at what follows them. */
  function ParseMember(round: int -> int, t: string): (r: Option<(Member, string)>)
    ensures r.Some? ==> |r.value.1| < |t|
  {
    match ParseString(Skip(t))
    case None => None
    case Some(name) =>
      var u := Skip(name.1);
      if u == [] || u[0] != ':' then None
      else
        match ParseValue(round, Skip(u[1..]))
        case None => None
        case Some(v) => Some((Member(name.0, v.0), Skip(v.1)))
  }

  lemma MembersUnfold(round: int -> int, t: string)
    ensures ParseMembers(round, t)
            == match ParseMember(round, t) case None => None case Some(m) => MembersFrom(round, [m.0], m.1)
  {
    hide ParseValue; hide ParseString; hide Skip;
  }

  /** Reading one more member. */
  lemma MembersStep(round: int -> int, members: seq<Member>, t: string)
    requires t != [] && t[0] == ','
    ensures match ParseMember(round, t[1..])
            case None => MembersFrom(round, members, t) == None
            case Some(m) => MembersFrom(round, members, t) == MembersFrom(round, members + [m.0], m.1)
  {
    hide ParseMember; hide ParseMembers;
    MembersUnfold(round, t[1..]);
    match ParseMember(round, t[1..])
    case None =>
    case Some(m) =>
      var u := m.1;
      if u != [] && u[0] == ',' && ParseMembers(round, u[1..]).Some? {
        var rest := ParseMembers(round, u[1..]).value.0;
        assert members + ([m.0] + rest) == members + [m.0] + rest;
      }
  }

  method ScanMember(round: int -> int, t: string) returns (r: Option<(Member, string)>)
    ensures r == ParseMember(round, t)
    decreases |t|, 2
  {
    hide ParseValue; hide ParseString; hide Skip;
    var value := SkipSpace(t);
    var name := ScanString(value);
    if name.None? { return None; }
    value := SkipSpace(name.value.1);
    if value == [] || value[0] != ':' { return None; }
    value := SkipSpace(value[1..]);
    var child := ScanValue(round, value);
    if child.None? { return None; }
    value := SkipSpace(child.value.1);
    r := Some((Member(name.value.0, child.value.0), value));
  }

  /** The loop over the members, after the opening brace. */
  method ScanMembers(round: int -> int, t: string) returns (r: Option<(seq<Member>, string)>)
    ensures r == ParseMembers(round, t)
    decreases |t|, 3
  {
    hide ParseMember; hide ParseMembers; hide MembersFrom;
    MembersUnfold(round, t);
    var child := ScanMember(round, t);
    if child.None? { return None; }
    var members, value := [child.value.0], child.value.1;
    while value != [] && value[0] == ','
      invariant |value| < |t|
      invariant ParseMembers(round, t) == MembersFrom(round, members, value)
      decreases |value|
    {
      MembersStep(round, members, value);
      child := ScanMember(round, value[1..]);
      if child.None? { return None; }
      members, value := members + [child.value.0], child.value.1;
    }
    MembersEnd(round, members, value);
    r := if value != [] && value[0] == '}' then Some((members, value[1..])) else None;
  }

  lemma MembersEnd(round: int -> int, members: seq<Member>, t: string)
    requires t == [] || t[0] != ','
    ensures MembersFrom(round, members, t) == if t != [] && t[0] == '}' then Some((members, t[1..])) else None
  {}

  method ScanObject(round: int -> int, t: string) returns (r: Option<(Value, string)>)
    requires t != [] && t[0] == '{'
    ensures r == ParseValue(round, t)
    decreases |t|, 0
  {
    hide ParseItems; hide Skip; hide Starts; hide ParseMembers; hide ParseNumber; hide ParseString;
    NotAWord(t);
    var value := SkipSpace(t[1..]);
    if value != [] && value[0] == '}' { return Some((Object([]), value[1..])); }
    var members := ScanMembers(round, value);
    r := match members case None => None case Some(p) => Some((Object(p.0), p.1));
  }

  /** Parsing what lies in memory. A text that is not read past its end gives its own result
      whatever follows it, and a printed one gives its tree back. */
  method ParseText(round: int -> int, memory: string) returns (r: Option<Value>)
    ensures r == Parse(round, memory)
    ensures forall text, behind | memory == Memory(text, behind) && !Overreads(round, text) :: r == Parse(round, text)
    ensures Rounds(round) ==> forall v, fmt, behind | Doubles(v) && memory == Memory(Print(v, 0, fmt), behind) ::
              r == Some(Cleaned(v)) && (r == Some(v) <==> Clean(v))
  {
    hide Print; hide ParseValue; hide Cleaned; hide Clean; hide Skip; hide Overreads; hide Memory; hide Rounds;
    hide Doubles;
    var value := SkipSpace(memory);
    var parsed := ScanValue(round, value);
    r := match parsed case None => None case Some(p) => Some(p.0);
    forall text, behind | memory == Memory(text, behind) && !Overreads(round, text) ensures r == Parse(round, text) {
      ParsedSame(round, text, behind);
    }
    forall v, fmt, behind | Rounds(round) && Doubles(v) && memory == Memory(Print(v, 0, fmt), behind)
      ensures r == Some(Cleaned(v)) && (r == Some(v) <==> Clean(v))
    {
      PrintedEnds(round, v, fmt, behind);
      RoundTrip(round, v, fmt);
    }
  }
}
