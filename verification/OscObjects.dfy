/** WOscLib's message objects, which keep their arguments in one array for each type and rebuild
    their buffer on every addition, and the loops that write and read bundles. A bundle is a
    value here, and its messages stand for the buffers of the objects it holds. */
module OscObjects {
  import opened Octets
  import opened Options
  import opened OscWords
  import opened Osc

  lemma {:induction false} EncodeArgsAppend(args: seq<Arg>, k: nat)
    requires k < |args|
    ensures EncodeArgs(args[..k + 1]) == EncodeArgs(args[..k]) + EncodeArg(args[k])
    decreases |args|
  {
    hide EncodeArg;
    if k == 0 {
      assert args[..1] == [args[0]] && args[..0] == [];
    } else {
      EncodeArgsAppend(args[1..], k - 1);
      assert args[..k + 1][1..] == args[1..][..k] && args[..k][1..] == args[1..][..k - 1];
    }
  }

  lemma SelectAppend(args: seq<Arg>, a: Arg, letter: byte)
    ensures Select(args + [a], letter) == Select(args, letter) + if Letter(a) == letter then [a] else []
  {
    assert (args + [a])[..|args|] == args;
  }

  lemma LetterKinds(a: Arg)
    ensures Letter(a) in {105, 102, 115, 98}
  {}

  /** What a scan of the type tag meets at each place. */
  lemma TagAt(args: seq<Arg>)
    ensures var tag := Padded(TypeTag(args));
            |args| + 2 <= |tag| && tag[0] == 44 && tag[|args| + 1] == 0
            && forall k :: 0 <= k < |args| ==> tag[k + 1] == Letter(args[k]) && tag[k + 1] in {105, 102, 115, 98}
  {}

  predicate Ints(args: seq<Arg>, ints: seq<int>) {
    |Select(args, 105)| == |ints| && forall i :: 0 <= i < |ints| ==> Select(args, 105)[i] == Int(ints[i])
  }

  predicate Floats(args: seq<Arg>, floats: seq<nat>) {
    |Select(args, 102)| == |floats| && forall i :: 0 <= i < |floats| ==> Select(args, 102)[i] == Float(floats[i])
  }

  predicate PaddedStrings(args: seq<Arg>, strings: seq<Bytes>) {
    |Select(args, 115)| == |strings| && forall i :: 0 <= i < |strings| ==> EncodeArg(Select(args, 115)[i]) == strings[i]
  }

  predicate RawBlobs(args: seq<Arg>, blobs: seq<(int, Bytes)>) {
    |Select(args, 98)| == |blobs|
      && forall i :: 0 <= i < |blobs| ==> Select(args, 98)[i] == Blob(blobs[i].0, blobs[i].1)
  }

  /** The arrays hold the arguments by type. */
  predicate Sorted(args: seq<Arg>, ints: seq<int>, floats: seq<nat>, strings: seq<Bytes>, blobs: seq<(int, Bytes)>) {
    Ints(args, ints) && Floats(args, floats) && PaddedStrings(args, strings) && RawBlobs(args, blobs)
  }

  /** How many arguments of each type come before the `k`-th. */
  datatype Cursor = Cursor(i: nat, f: nat, s: nat, b: nat)

  function CursorAt(args: seq<Arg>, k: nat): Cursor
    requires k <= |args|
  {
    var a := args[..k];
    Cursor(|Select(a, 105)|, |Select(a, 102)|, |Select(a, 115)|, |Select(a, 98)|)
  }

  function Advance(c: Cursor, letter: byte): Cursor {
    if letter == 105 then c.(i := c.i + 1)
    else if letter == 102 then c.(f := c.f + 1)
    else if letter == 115 then c.(s := c.s + 1)
    else c.(b := c.b + 1)
  }

  lemma CursorAdvances(args: seq<Arg>, k: nat)
    requires k < |args|
    ensures CursorAt(args, k + 1) == Advance(CursorAt(args, k), Letter(args[k]))
  {
    hide Select;
    assert args[..k + 1] == args[..k] + [args[k]];
    SelectAppend(args[..k], args[k], 105);
    SelectAppend(args[..k], args[k], 102);
    SelectAppend(args[..k], args[k], 115);
    SelectAppend(args[..k], args[k], 98);
  }

  /** The bytes of the next argument, taken from the array its letter names. */
  function NextBytes(letter: byte, c: Cursor, ints: seq<int>, floats: seq<nat>, strings: seq<Bytes>,
                     blobs: seq<(int, Bytes)>): Bytes
    requires letter in {105, 102, 115, 98}
    requires (letter == 105 ==> c.i < |ints|) && (letter == 102 ==> c.f < |floats|)
    requires (letter == 115 ==> c.s < |strings|) && (letter == 98 ==> c.b < |blobs|)
  {
    if letter == 105 then IntBytes(ints[c.i])
    else if letter == 102 then WordBytes(floats[c.f], 4)
    else if letter == 115 then strings[c.s]
    else blobs[c.b].1
  }

  lemma NextIs(args: seq<Arg>, k: nat, ints: seq<int>, floats: seq<nat>, strings: seq<Bytes>, blobs: seq<(int, Bytes)>)
    requires k < |args| && Sorted(args, ints, floats, strings, blobs)
    ensures var c, letter := CursorAt(args, k), Letter(args[k]);
            && (letter == 105 ==> c.i < |ints|) && (letter == 102 ==> c.f < |floats|)
            && (letter == 115 ==> c.s < |strings|) && (letter == 98 ==> c.b < |blobs|)
            && NextBytes(letter, c, ints, floats, strings, blobs) == EncodeArg(args[k])
  {
    hide Select; hide IntBytes; hide WordBytes; hide Padded;
    SelectAt(args, k, Letter(args[k]));
  }

  lemma EmptyAgrees()
    ensures Sorted([], [], [], [], []) && BlobsFit([]) && TypeTag([]) == [44]
  {}

  lemma TagReads(args: seq<Arg>)
    ensures ReadStr(Padded(TypeTag(args)), 0) == Some(TypeTag(args))
  {
    PaddedAt(Padded(TypeTag(args)), 0, TypeTag(args));
  }

  /** One more argument goes to the end of the array of its type. */
  lemma SortedAppend(args: seq<Arg>, a: Arg, ints: seq<int>, floats: seq<nat>, strings: seq<Bytes>,
                     blobs: seq<(int, Bytes)>)
    requires Sorted(args, ints, floats, strings, blobs)
    ensures Sorted(args + [a],
                   if a.Int? then ints + [a.n] else ints,
                   if a.Float? then floats + [a.bits] else floats,
                   if a.Str? then strings + [Padded(a.s)] else strings,
                   if a.Blob? then blobs + [(a.dataLen, a.raw)] else blobs)
    ensures BlobsFit(args) && (a.Blob? ==> RoomForBlob(args)) ==> BlobsFit(args + [a])
  {
    hide Select; hide Padded; hide IntBytes; hide WordBytes;
    SelectAppend(args, a, 105);
    SelectAppend(args, a, 102);
    SelectAppend(args, a, 115);
    SelectAppend(args, a, 98);
    assert forall k :: 0 <= k <= |args| ==> (args + [a])[..k] == args[..k];
    assert args[..|args|] == args;
  }

  class Message {
    var address: Bytes         // padded
    var typeTag: Bytes         // padded
    var ints: seq<int>
    var floats: seq<nat>
    var strings: seq<Bytes>    // padded
    var blobs: seq<(int, Bytes)>
    var buffer: array<byte>
    var value: Msg             // the address and the arguments, in order

    /** The arrays hold the arguments by type, and the type tag tells their order. */
    ghost predicate Agrees()
      reads this
    {
      && address == Padded(value.address)
      && typeTag == Padded(TypeTag(value.args))
      && Sorted(value.args, ints, floats, strings, blobs)
      && BlobsFit(value.args)
    }

    ghost predicate Valid()
      reads this, buffer
    {
      Agrees() && buffer[..] == EncodeMsg(value)
    }

    /** An address and the empty type tag. */
    constructor (addr: Bytes)
      requires addr != [] && addr[0] == 47
      ensures Valid() && fresh(buffer) && value == Msg(addr, [])
    {
      address, typeTag := Padded(addr), Padded([44]);
      ints, floats, strings, blobs := [], [], [], [];
      value := Msg(addr, []);
      buffer := new byte[0];
      new;
      EmptyAgrees();
      GenerateBuffer();
    }

    /** One letter after those of the type tag. */
    method AppendLetter(letter: byte, ghost a: Arg)
      requires typeTag == Padded(TypeTag(value.args)) && letter == Letter(a)
      modifies this`typeTag
      ensures typeTag == Padded(TypeTag(value.args + [a]))
    {
      hide Padded;
      TagReads(value.args);
      var tag := ReadStr(typeTag, 0).value;
      typeTag := Padded(tag + [letter]);
      assert tag + [letter] == TypeTag(value.args + [a]);
    }

    method AddInt(n: int)
      requires Valid()
      modifies this
      ensures Valid() && fresh(buffer) && value == old(value).(args := old(value.args) + [Int(n)])
    {
      hide Sorted; hide Padded; hide EncodeMsg; hide BlobsFit; hide TypeTag;
      AppendLetter(105, Int(n));
      SortedAppend(value.args, Int(n), ints, floats, strings, blobs);
      ints := ints + [n];
      value := value.(args := value.args + [Int(n)]);
      GenerateBuffer();
    }

    method AddFloat(bits: nat)
      requires Valid()
      modifies this
      ensures Valid() && fresh(buffer) && value == old(value).(args := old(value.args) + [Float(bits)])
    {
      hide Sorted; hide Padded; hide EncodeMsg; hide BlobsFit; hide TypeTag;
      AppendLetter(102, Float(bits));
      SortedAppend(value.args, Float(bits), ints, floats, strings, blobs);
      floats := floats + [bits];
      value := value.(args := value.args + [Float(bits)]);
      GenerateBuffer();
    }

    method AddString(s: Bytes)
      requires Valid()
      modifies this
      ensures Valid() && fresh(buffer) && value == old(value).(args := old(value.args) + [Str(s)])
    {
      hide Sorted; hide Padded; hide EncodeMsg; hide BlobsFit; hide TypeTag;
      AppendLetter(115, Str(s));
      SortedAppend(value.args, Str(s), ints, floats, strings, blobs);
      strings := strings + [Padded(s)];
      value := value.(args := value.args + [Str(s)]);
      GenerateBuffer();
    }

    /** The array for the second and later blobs is as long as the number of strings. When the new
        blob lies outside it the answer is no, and nothing is known of the object any more. */
    method AddBlob(dataLen: int, raw: Bytes) returns (ok: bool)
      requires Valid()
      modifies this
      ensures ok <==> RoomForBlob(old(value.args))
      ensures buffer == old(buffer) || fresh(buffer)
      ensures ok ==> Valid() && fresh(buffer) && value == old(value).(args := old(value.args) + [Blob(dataLen, raw)])
    {
      hide Sorted; hide Padded; hide EncodeMsg; hide BlobsFit; hide TypeTag; hide RoomForBlob;
      BlobCounts(value.args, ints, floats, strings, blobs);
      AppendLetter(98, Blob(dataLen, raw));
      SortedAppend(value.args, Blob(dataLen, raw), ints, floats, strings, blobs);
      var grown := GrowBlobs(blobs, |strings|, (dataLen, raw));
      if grown.None? { return false; }
      blobs := grown.value;
      value := value.(args := value.args + [Blob(dataLen, raw)]);
      GenerateBuffer();
      ok := true;
    }

    /** The length of the buffer, found by scanning the type tag. */
    method BufferLen() returns (len: nat)
      requires Agrees()
      ensures len == |EncodeMsg(value)|
    {
      hide Sorted; hide EncodeArg; hide NextBytes; hide CursorAt; hide Letter; hide Padded; hide EncodeArgs; hide Align;
      hide BlobsFit;
      ghost var args := value.args;
      TagAt(args);
      len := |address| + |typeTag|;
      var i, c := 0, Cursor(0, 0, 0, 0);
      ghost var k := 0;
      CursorStart(args);
      while i < |typeTag|
        invariant i <= |typeTag| && k <= |args|
        invariant if i == |typeTag| then k == |args| else i == k == 0 || i == k + 1
        invariant c == CursorAt(args, k) && len == |address| + |typeTag| + |EncodeArgs(args[..k])|
      {
        assert k < |args| ==> typeTag[k + 1] == Letter(args[k]);
        var letter := typeTag[i];
        if letter in {105, 102, 115, 98} {
          NextIs(args, k, ints, floats, strings, blobs);
          EncodeArgsAppend(args, k);
          CursorAdvances(args, k);
          len := len + |NextBytes(letter, c, ints, floats, strings, blobs)|;
          c := Advance(c, letter);
          i, k := i + 1, k + 1;
        } else if letter == 44 {
          i := i + 1;
        } else {
          i := |typeTag|;
        }
      }
      assert args[..k] == args;
    }

    /** Address, type tag and arguments, written to a new buffer. */
    method GenerateBuffer()
      requires Agrees()
      modifies this`buffer
      ensures Valid() && fresh(buffer)
    {
      hide Sorted; hide BlobsFit; hide Padded; hide EncodeArgs; hide TypeTag; hide EncodeMsg;
      MsgParts(value);
      var len := BufferLen();
      var buf := new byte[len](_ => 0);
      WriteHead(buf, address, typeTag);
      WriteArgs(buf);
      buffer := buf;
    }

    method WriteArg(buf: array<byte>, at: nat, letter: byte, c: Cursor, ghost k: nat, ghost head: Bytes)
      returns (end: nat, next: Cursor)
      requires Sorted(value.args, ints, floats, strings, blobs) && k < |value.args|
      requires letter == Letter(value.args[k]) && c == CursorAt(value.args, k)
      requires buf.Length == |head| + |EncodeArgs(value.args)|
      requires at == |head| + |EncodeArgs(value.args[..k])| <= buf.Length
               && buf[..at] == head + EncodeArgs(value.args[..k])
      modifies buf
      ensures next == CursorAt(value.args, k + 1)
      ensures end == |head| + |EncodeArgs(value.args[..k + 1])| <= buf.Length
      ensures buf[..end] == head + EncodeArgs(value.args[..k + 1])
    {
      hide Sorted; hide EncodeArg; hide NextBytes; hide CursorAt; hide Letter; hide EncodeArgs; hide Put;
      LetterKinds(value.args[k]);
      NextIs(value.args, k, ints, floats, strings, blobs);
      EncodeArgsAppend(value.args, k);
      EncodeArgsPrefix(value.args, k + 1);
      CursorAdvances(value.args, k);
      var bytes := NextBytes(letter, c, ints, floats, strings, blobs);
      PutEnd(buf[..], at, bytes);
      Copy(buf, at, bytes);
      end := at + |bytes|;
      next := Advance(c, letter);
    }

    /** The arguments in the order of the type tag. */
    method WriteArgs(buf: array<byte>)
      requires Agrees() && buf.Length == |address| + |typeTag| + |EncodeArgs(value.args)|
      modifies buf
      ensures buf[..] == old(buf[..|address| + |typeTag|]) + EncodeArgs(value.args)
    {
      hide Sorted; hide EncodeArg; hide NextBytes; hide CursorAt; hide Letter; hide Padded; hide EncodeArgs;
      hide BlobsFit; hide Put;
      ghost var args, head := value.args, buf[..|address| + |typeTag|];
      TagAt(args);
      var i, c, at: nat := 0, Cursor(0, 0, 0, 0), |address| + |typeTag|;
      ghost var k := 0;
      CursorStart(args);
      while i < |typeTag|
        invariant i <= |typeTag| && k <= |args|
        invariant if i == |typeTag| then k == |args| else i == k == 0 || i == k + 1
        invariant c == CursorAt(args, k) && at == |head| + |EncodeArgs(args[..k])| <= buf.Length
        invariant buf[..at] == head + EncodeArgs(args[..k])
      {
        assert k < |args| ==> typeTag[k + 1] == Letter(args[k]);
        var letter := typeTag[i];
        if letter in {105, 102, 115, 98} {
          at, c := WriteArg(buf, at, letter, c, k, head);
          i, k := i + 1, k + 1;
        } else if letter == 44 {
          i := i + 1;
        } else {
          i := |typeTag|;
        }
      }
      assert args[..k] == args;
    }
  }

  lemma MsgParts(m: Msg)
    ensures EncodeMsg(m) == Padded(m.address) + Padded(TypeTag(m.args)) + EncodeArgs(m.args)
  {
    hide Padded; hide EncodeArgs; hide TypeTag;
  }

  method WriteHead(buf: array<byte>, address: Bytes, typeTag: Bytes)
    requires |address| + |typeTag| <= buf.Length
    modifies buf
    ensures buf[..|address| + |typeTag|] == address + typeTag
  {
    hide Put;
    PutEnd(buf[..], 0, address);
    Copy(buf, 0, address);
    PutEnd(buf[..], |address|, typeTag);
    Copy(buf, |address|, typeTag);
  }

  lemma PutEnd(b: Bytes, at: nat, bytes: Bytes)
    requires at + |bytes| <= |b|
    ensures Put(b, at, bytes)[..at + |bytes|] == b[..at] + bytes
  {}

  lemma {:induction false} EncodeArgsPrefix(args: seq<Arg>, k: nat)
    requires k <= |args|
    ensures |EncodeArgs(args[..k])| <= |EncodeArgs(args)|
    decreases |args| - k
  {
    if k == |args| {
      assert args[..k] == args;
    } else {
      EncodeArgsAppend(args, k);
      EncodeArgsPrefix(args, k + 1);
    }
  }

  /** A message for an address, unless the address does not start with a slash. */
  method NewMessage(addr: Bytes) returns (m: Message?)
    ensures m == null <==> addr == [] || addr[0] != 47
    ensures m != null ==> fresh(m) && fresh(m.buffer) && m.Valid() && m.value == Msg(addr, [])
  {
    if addr == [] || addr[0] != 47 { return null; }
    m := new Message(addr);
  }

  /** Read the argument for a letter of the type tag and add it. */
  method AddArg(m: Message, letter: byte, t: Bytes, pos: nat) returns (size: Option<nat>)
    requires m.Valid() && letter in {105, 102, 115, 98}
    modifies m
    ensures m.buffer == old(m.buffer) || fresh(m.buffer)
    ensures var a := ReadArg(letter, t, pos, old(m.value.args));
            && (size.None? <==> a.None?)
            && (a.Some? ==> m.Valid() && size.value == |EncodeArg(a.value)|
                            && m.value == old(m.value).(args := old(m.value.args) + [a.value]))
  {
    hide Sorted; hide EncodeMsg; hide BlobsFit; hide TypeTag; hide Select; hide ReadStr; hide Word; hide WordBytes;
    if letter == 105 {
      var n := ReadInt32(t, pos);
      if n.None? { return None; }
      m.AddInt(n.value);
      size := Some(4);
    } else if letter == 102 {
      if pos + 4 > |t| { return None; }
      m.AddFloat(Word(t[pos..pos + 4]));
      size := Some(4);
    } else if letter == 115 {
      var s := ReadStr(t, pos);
      if s.None? { return None; }
      m.AddString(s.value);
      size := Some(Align(|s.value| + 1));
    } else {
      var blob := ReadBlob(t, pos);
      if blob.None? { return None; }
      var ok := m.AddBlob(blob.value.dataLen, blob.value.raw);
      if !ok { return None; }
      size := Some(|blob.value.raw|);
    }
  }

  /** Copy the blobs to a new array and write one more, unless that falls outside the array. */
  method GrowBlobs(blobs: seq<(int, Bytes)>, numStrings: nat, b: (int, Bytes)) returns (r: Option<seq<(int, Bytes)>>)
    ensures r == if blobs == [] || |blobs| < numStrings then Some(blobs + [b]) else None
  {
    if blobs == [] { return Some(blobs + [b]); }
    var more := new (int, Bytes)[numStrings](_ => (0, []));
    for i := 0 to |blobs|
      invariant i <= more.Length && more[..i] == blobs[..i]
    {
      if i >= more.Length { return None; }
      more[i] := blobs[i];
    }
    if |blobs| >= more.Length { return None; }
    assert more[..|blobs|] == blobs;
    more[|blobs|] := b;
    assert more[..|blobs| + 1] == blobs + [b];
    r := Some(more[..|blobs| + 1]);
  }

  lemma BlobCounts(args: seq<Arg>, ints: seq<int>, floats: seq<nat>, strings: seq<Bytes>, blobs: seq<(int, Bytes)>)
    requires Sorted(args, ints, floats, strings, blobs)
    ensures RoomForBlob(args) <==> blobs == [] || |blobs| < |strings|
  {
    hide Select;
  }

  lemma ArgsStep(tag: Bytes, i: nat, t: Bytes, pos: nat, args: seq<Arg>)
    requires i < |tag|
    ensures DecodeArgs(tag[i..], t, pos, args)
         == if tag[i] == 44 then DecodeArgs(tag[i + 1..], t, pos, args)
            else if tag[i] !in {105, 102, 115, 98} then Some(args)
            else match ReadArg(tag[i], t, pos, args)
                 case None => None
                 case Some(a) => DecodeArgs(tag[i + 1..], t, pos + |EncodeArg(a)|, args + [a])
  {
    hide ReadArg; hide EncodeArg;
    assert tag[i..][1..] == tag[i + 1..];
  }

  lemma ArgsStop(tag: Bytes, i: nat, t: Bytes, pos: nat, args: seq<Arg>)
    requires i == |tag|
    ensures DecodeArgs(tag[i..], t, pos, args) == Some(args)
  {}

  /** The scan of a received type tag. */
  method AddArgs(m: Message, tag: Bytes, t: Bytes, start: nat) returns (ok: bool)
    requires m.Valid() && m.value.args == []
    modifies m
    ensures ok <==> DecodeArgs(tag, t, start, []).Some?
    ensures m.buffer == old(m.buffer) || fresh(m.buffer)
    ensures ok ==> m.Valid() && m.value == Msg(old(m.value.address), DecodeArgs(tag, t, start, []).value)
  {
    hide DecodeArgs; hide ReadArg; hide EncodeArg; hide Message.Valid;
    var i, pos: nat := 0, start;
    assert tag[0..] == tag;
    ghost var first := m.buffer;
    while i < |tag|
      invariant i <= |tag| && m.Valid() && m.value.address == old(m.value.address)
      invariant m.buffer == first || fresh(m.buffer)
      invariant DecodeArgs(tag, t, start, []) == DecodeArgs(tag[i..], t, pos, m.value.args)
    {
      ArgsStep(tag, i, t, pos, m.value.args);
      if tag[i] in {105, 102, 115, 98} {
        var size := AddArg(m, tag[i], t, pos);
        if size.None? { return false; }
        pos := pos + size.value;
      } else if tag[i] != 44 {
        return true;
      }
      i := i + 1;
    }
    ArgsStop(tag, i, t, pos, m.value.args);
    ok := true;
  }

  /** The message at `pos`. */
  method ParseMessage(t: Bytes, pos: nat, len: int) returns (m: Message?)
    ensures m == null <==> DecodeMsg(t, pos, len).None?
    ensures m != null ==> fresh(m) && fresh(m.buffer) && m.Valid() && m.value == DecodeMsg(t, pos, len).value
  {
    hide ReadStr; hide DecodeArgs; hide Message.Valid;
    if len < 1 || pos >= |t| || t[pos] != 47 { return null; }
    var addr := ReadStr(t, pos);
    if addr.None? { return null; }
    StrFirst(t, pos);
    var message := new Message(addr.value);
    var size := Align(|addr.value| + 1);
    if len <= size { return message; }
    var tag := ReadStr(t, pos + size);
    if tag.None? { return null; }
    var ok := AddArgs(message, tag.value, t, pos + size + Align(|tag.value| + 1));
    m := if ok then message else null;
  }

  lemma StrFirst(t: Bytes, pos: nat)
    requires pos < |t| && t[pos] != 0 && ReadStr(t, pos).Some?
    ensures ReadStr(t, pos).value != [] && ReadStr(t, pos).value[0] == t[pos]
  {}

  // ----- bundles

  method BundleBufferLen(b: Bundle) returns (len: int)
    ensures len == BundleLen(b) == |EncodeBundle(b)|
    decreases b
  {
    hide EncodeMsg; hide EncodeBundle;
    BundleLength(b);
    len := 16;
    for i := 0 to |b.messages|
      invariant len + MessagesLen(b.messages[i..]) == 16 + MessagesLen(b.messages)
    {
      assert b.messages[i..][1..] == b.messages[i + 1..];
      len := len + 4 + |EncodeMsg(b.messages[i])|;
    }
    ghost var start := len;
    for i := 0 to |b.bundles|
      invariant len + BundlesLen(b.bundles[i..]) == start + BundlesLen(b.bundles)
    {
      assert b.bundles[i..][1..] == b.bundles[i + 1..];
      var n := BundleBufferLen(b.bundles[i]);
      len := len + 4 + n;
    }
  }

  /** Write an element and its size. */
  method WriteSized(buf: array<byte>, at: nat, s: Bytes) returns (end: nat)
    requires at + |Sized(s)| <= buf.Length
    modifies buf
    ensures end == at + |Sized(s)| && buf[..end] == old(buf[..at]) + Sized(s)
  {
    hide Put; hide WordBytes;
    PutEnd(buf[..], at, IntBytes(|s|));
    Copy(buf, at, IntBytes(|s|));
    PutEnd(buf[..], at + 4, s);
    Copy(buf, at + 4, s);
    end := at + 4 + |s|;
  }

  lemma MessagesSplit(messages: seq<Msg>, i: nat)
    requires i < |messages|
    ensures EncodeMessages(messages[i..]) == Sized(EncodeMsg(messages[i])) + EncodeMessages(messages[i + 1..])
  {
    hide Sized; hide EncodeMsg;
    assert messages[i..][1..] == messages[i + 1..];
  }

  method WriteMessages(buf: array<byte>, start: nat, messages: seq<Msg>) returns (at: nat)
    requires start + |EncodeMessages(messages)| <= buf.Length
    modifies buf
    ensures at == start + |EncodeMessages(messages)|
    ensures buf[..at] == old(buf[..start]) + EncodeMessages(messages)
  {
    hide Sized; hide EncodeMsg;
    at := start;
    for i := 0 to |messages|
      invariant at + |EncodeMessages(messages[i..])| == start + |EncodeMessages(messages)|
      invariant buf[..at] + EncodeMessages(messages[i..]) == old(buf[..start]) + EncodeMessages(messages)
    {
      MessagesSplit(messages, i);
      at := WriteSized(buf, at, EncodeMsg(messages[i]));
    }
  }

  lemma BundlesSplit(bundles: seq<Bundle>, i: nat)
    requires i < |bundles|
    ensures EncodeBundles(bundles[i..]) == Sized(EncodeBundle(bundles[i])) + EncodeBundles(bundles[i + 1..])
  {
    hide Sized; hide EncodeBundle;
    assert bundles[i..][1..] == bundles[i + 1..];
  }

  method WriteBundles(buf: array<byte>, start: nat, bundles: seq<Bundle>) returns (at: nat)
    requires start + |EncodeBundles(bundles)| <= buf.Length
    modifies buf
    ensures at == start + |EncodeBundles(bundles)|
    ensures buf[..at] == old(buf[..start]) + EncodeBundles(bundles)
    decreases bundles, 0
  {
    hide Sized; hide EncodeBundle; hide EncodeBundles;
    at := start;
    assert bundles[0..] == bundles;
    for i := 0 to |bundles|
      invariant at + |EncodeBundles(bundles[i..])| == start + |EncodeBundles(bundles)|
      invariant buf[..at] + EncodeBundles(bundles[i..]) == old(buf[..start]) + EncodeBundles(bundles)
    {
      BundlesSplit(bundles, i);
      var sub := GenerateBundle(bundles[i]);
      at := WriteSized(buf, at, sub[..]);
    }
    NoBundles(bundles[|bundles|..]);
  }

  lemma NoBundles(bundles: seq<Bundle>)
    requires bundles == []
    ensures EncodeBundles(bundles) == []
  {}

  /** Header, time tag, messages and bundles, in a buffer of the announced length. */
  method GenerateBundle(b: Bundle) returns (buf: array<byte>)
    ensures fresh(buf) && buf[..] == EncodeBundle(b)
    decreases b, 1
  {
    hide Put; hide EncodeMessages; hide EncodeBundles; hide WordBytes; hide BundleLen;
    var len := BundleBufferLen(b);
    buf := new byte[len](_ => 0);
    PutEnd(buf[..], 0, HEADER);
    Copy(buf, 0, HEADER);
    PutEnd(buf[..], 8, WordBytes(b.time, 8));
    Copy(buf, 8, WordBytes(b.time, 8));
    var at := WriteMessages(buf, 16, b.messages);
    at := WriteBundles(buf, at, b.bundles);
    BundleText(b);
  }

  lemma BundleText(b: Bundle)
    ensures EncodeBundle(b) == HEADER + WordBytes(b.time, 8) + EncodeMessages(b.messages) + EncodeBundles(b.bundles)
  {
    hide EncodeMessages; hide EncodeBundles; hide WordBytes;
  }

  /** The bundle at `pos`: elements are taken as long as their sizes say that there are more. */
  method ParseBundle(t: Bytes, pos: nat, len: int) returns (r: Option<Bundle>)
    ensures r == DecodeBundle(t, pos, len)
    decreases len
  {
    hide DecodeMsg; hide Word; hide CheckSize; hide DecodeElements; hide Message.Valid;
    if len < 16 || !At(t, pos, HEADER) || pos + 16 > |t| { return None; }
    var b := Bundle(Word(t[pos + 8..pos + 16]), [], []);
    if len == 16 { AtTheEnd(t, pos, 16, b); return Some(b); }
    var at: nat := 16;
    var next := CheckSize(t, pos, at, len);
    while next.Size?
      invariant 16 <= at <= len && next == CheckSize(t, pos, at, len)
      invariant DecodeBundle(t, pos, len) == DecodeElements(t, pos, at, len, b)
      decreases len - at
    {
      ElementsStep(t, pos, at, len, b);
      if pos + at + 4 >= |t| { return None; }
      if t[pos + at + 4] == 35 {
        var sub := ParseBundle(t, pos + at + 4, next.size);
        if sub.None? { return None; }
        b := b.(bundles := b.bundles + [sub.value]);
      } else {
        var m := ParseMessage(t, pos + at + 4, next.size);
        if m == null { return None; }
        b := b.(messages := b.messages + [m.value]);
      }
      at := at + next.size + 4;
      next := CheckSize(t, pos, at, len);
    }
    ElementsStop(t, pos, at, len, b);
    r := if next.End? then Some(b) else None;
  }

  lemma ElementsStep(t: Bytes, pos: nat, at: nat, len: int, b: Bundle)
    requires 16 <= at <= len && CheckSize(t, pos, at, len).Size?
    ensures var size := CheckSize(t, pos, at, len).size;
            && size < len && at + size + 4 <= len
            && DecodeElements(t, pos, at, len, b)
               == if pos + at + 4 >= |t| then None
                  else if t[pos + at + 4] == 35 then
                    match DecodeBundle(t, pos + at + 4, size)
                    case None => None
                    case Some(sub) => DecodeElements(t, pos, at + size + 4, len, b.(bundles := b.bundles + [sub]))
                  else
                    match DecodeMsg(t, pos + at + 4, size)
                    case None => None
                    case Some(m) => DecodeElements(t, pos, at + size + 4, len, b.(messages := b.messages + [m]))
  {
    hide DecodeMsg; hide DecodeBundle;
  }

  lemma ElementsStop(t: Bytes, pos: nat, at: nat, len: int, b: Bundle)
    requires 16 <= at <= len && !CheckSize(t, pos, at, len).Size?
    ensures DecodeElements(t, pos, at, len, b) == if CheckSize(t, pos, at, len).End? then Some(b) else None
  {
    hide CheckSize;
  }

  lemma CursorStart(args: seq<Arg>)
    ensures CursorAt(args, 0) == Cursor(0, 0, 0, 0) && EncodeArgs(args[..0]) == []
  {
    assert args[..0] == [];
  }
}
