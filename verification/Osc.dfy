/** The byte form of OSC messages and bundles ("OSC Messages" and "OSC Bundles" in the Open Sound
    Control 1.0 specification), as WOscLib writes and reads it. A pointer is a position in the
    packet; a read outside the packet, a write outside an array and a thrown exception all give
    None. */
module Osc {
  import opened Octets
  import opened Options
  import opened OscWords

  /** A blob keeps the bytes it was read from: its size field, its data and the padding. */
  datatype Arg =
    | Int(n: int)
    | Float(bits: nat)
    | Str(s: Bytes)
    | Blob(dataLen: int, raw: Bytes)

  datatype Msg = Msg(address: Bytes, args: seq<Arg>)

  datatype Bundle = Bundle(time: nat, messages: seq<Msg>, bundles: seq<Bundle>)

  // ----- messages

  function Letter(a: Arg): byte {
    match a case Int(_) => 105 case Float(_) => 102 case Str(_) => 115 case Blob(_, _) => 98
  }

  function Letters(args: seq<Arg>): (r: Bytes)
    ensures |r| == |args| && forall i :: 0 <= i < |args| ==> r[i] == Letter(args[i])
  {
    seq(|args|, i requires 0 <= i < |args| => Letter(args[i]))
  }

  function EncodeArg(a: Arg): Bytes {
    match a
    case Int(n) => IntBytes(n)
    case Float(bits) => WordBytes(bits, 4)
    case Str(s) => Padded(s)
    case Blob(_, raw) => raw
  }

  function EncodeArgs(args: seq<Arg>): Bytes {
    if args == [] then [] else EncodeArg(args[0]) + EncodeArgs(args[1..])
  }

  function TypeTag(args: seq<Arg>): Bytes { [44] + Letters(args) }

  function EncodeMsg(m: Msg): Bytes {
    Padded(m.address) + (Padded(TypeTag(m.args)) + EncodeArgs(m.args))
  }

  /** A blob made of `data`. */
  function NewBlob(data: Bytes): Arg {
    Blob(|data|, IntBytes(|data|) + (data + Zeros(Align(|data|) - |data|)))
  }

  /** The arguments of one type, in order. */
  function Select(args: seq<Arg>, letter: byte): seq<Arg> {
    if args == [] then []
    else
      var last := args[|args| - 1];
      Select(args[..|args| - 1], letter) + if Letter(last) == letter then [last] else []
  }

  function Strings(args: seq<Arg>): nat { |Select(args, 115)| }

  function Blobs(args: seq<Arg>): nat { |Select(args, 98)| }

  /** One more blob fits: the array for the second and later blobs is allocated with the number
      of strings. */
  predicate RoomForBlob(args: seq<Arg>) { Blobs(args) == 0 || Blobs(args) < Strings(args) }

  function ReadBlob(t: Bytes, pos: nat): (r: Option<Arg>)
    ensures r.Some? ==> r.value.Blob?
  {
    match ReadInt32(t, pos)
    case None => None
    case Some(dataLen) =>
      var bufferLen := Align(dataLen) + 4;
      if bufferLen < 0 || pos + bufferLen > |t| then None
      else Some(Blob(dataLen, t[pos..pos + bufferLen]))
  }

  /** The argument for a letter of the type tag, after those in `args`. */
  function ReadArg(letter: byte, t: Bytes, pos: nat, args: seq<Arg>): (r: Option<Arg>)
    requires letter in {105, 102, 115, 98}
    ensures r.Some? ==> Letter(r.value) == letter
  {
    if letter == 105 then
      match ReadInt32(t, pos) case None => None case Some(n) => Some(Int(n))
    else if letter == 102 then
      if pos + 4 > |t| then None else Some(Float(Word(t[pos..pos + 4])))
    else if letter == 115 then
      match ReadStr(t, pos) case None => None case Some(s) => Some(Str(s))
    else
      if RoomForBlob(args) then ReadBlob(t, pos) else None
  }

  /** The scan of the type tag: a comma is skipped, an unknown letter ends it. */
  function DecodeArgs(tag: Bytes, t: Bytes, pos: nat, args: seq<Arg>): Option<seq<Arg>> {
    if tag == [] then Some(args)
    else if tag[0] == 44 then DecodeArgs(tag[1..], t, pos, args)
    else if tag[0] !in {105, 102, 115, 98} then Some(args)
    else
      match ReadArg(tag[0], t, pos, args)
      case None => None
      case Some(a) => DecodeArgs(tag[1..], t, pos + |EncodeArg(a)|, args + [a])
  }

  /** The message at `pos`, `len` bytes long. */
  function DecodeMsg(t: Bytes, pos: nat, len: int): Option<Msg> {
    if len < 1 || pos >= |t| || t[pos] != 47 then None
    else
      match ReadStr(t, pos)
      case None => None
      case Some(address) =>
        var size := Align(|address| + 1);
        if len <= size then Some(Msg(address, []))
        else
          match ReadStr(t, pos + size)
          case None => None
          case Some(tag) =>
            match DecodeArgs(tag, t, pos + size + Align(|tag| + 1), [])
            case None => None
            case Some(args) => Some(Msg(address, args))
  }

  predicate WfArg(a: Arg) {
    match a
    case Int(n) => -HALF <= n < HALF
    case Float(bits) => bits < WORD
    case Str(s) => 0 !in s
    case Blob(dataLen, raw) =>
      0 <= dataLen < HALF && |raw| == Align(dataLen) + 4 && raw[..4] == IntBytes(dataLen)
  }

  predicate WfMsg(m: Msg) {
    |m.address| > 0 && m.address[0] == 47 && 0 !in m.address
    && forall i :: 0 <= i < |m.args| ==> WfArg(m.args[i])
  }

  lemma NewBlobWf(data: Bytes)
    requires |data| < HALF
    ensures WfArg(NewBlob(data))
  {}

  /** Every blob found room when it was added. */
  predicate BlobsFit(args: seq<Arg>) {
    forall k :: 0 <= k < |args| && args[k].Blob? ==> RoomForBlob(args[..k])
  }

  lemma {:induction false} SelectAt(args: seq<Arg>, k: nat, letter: byte)
    requires k < |args| && Letter(args[k]) == letter
    ensures |Select(args[..k], letter)| < |Select(args, letter)|
    ensures Select(args, letter)[|Select(args[..k], letter)|] == args[k]
    decreases |args|
  {
    var front := args[..|args| - 1];
    if k == |args| - 1 {
      assert args[..k] == front;
    } else {
      SelectAt(front, k, letter);
      assert front[..k] == args[..k];
    }
  }

  /** A message with at most one blob is always well behaved. */
  lemma OneBlobFits(args: seq<Arg>)
    requires Blobs(args) <= 1
    ensures BlobsFit(args)
  {
    hide Select;
    forall k | 0 <= k < |args| && args[k].Blob? ensures RoomForBlob(args[..k]) {
      SelectAt(args, k, 98);
    }
  }

  /** Several blobs and no string: the second one is written outside its array. */
  lemma BlobsWithoutStringsLost(m: Msg, t: Bytes, pos: nat)
    requires WfMsg(m) && At(t, pos, EncodeMsg(m)) && Strings(m.args) == 0 && Blobs(m.args) > 1
    ensures DecodeMsg(t, pos, |EncodeMsg(m)|) == None
  {
    hide EncodeMsg; hide DecodeMsg; hide WfMsg; hide At;
    MsgRoundTrip(m, t, pos);
    NoRoom(m.args);
  }

  lemma {:induction false} NoRoom(args: seq<Arg>)
    requires Strings(args) == 0 && Blobs(args) > 1
    ensures !BlobsFit(args)
    decreases |args|
  {
    var n := |args| - 1;
    var front := args[..n];
    if Blobs(front) > 1 {
      NoRoom(front);
      var k :| 0 <= k < n && front[k].Blob? && !RoomForBlob(front[..k]);
      assert front[..k] == args[..k] && args[k].Blob?;
    } else {
      assert args[n].Blob? && !RoomForBlob(args[..n]);
    }
  }

  /** The smallest such message. */
  lemma TwoBlobsLost()
    ensures var m := Msg([47], [NewBlob([]), NewBlob([])]);
            WfMsg(m) && DecodeMsg(EncodeMsg(m), 0, |EncodeMsg(m)|) == None
  {
    hide EncodeMsg; hide DecodeMsg;
    var b := NewBlob([]);
    var m := Msg([47], [b, b]);
    NewBlobWf([]);
    assert WfMsg(m);
    assert At(EncodeMsg(m), 0, EncodeMsg(m));
    MsgRoundTrip(m, EncodeMsg(m), 0);
    assert m.args[1].Blob? && m.args[..1] == [b];
    assert [b][..0] == [] && |[b]| == 1 && [b][0].Blob?;
    assert Select([b], 98) == Select([], 98) + [b] && Select([b], 115) == Select([], 115);
    assert !RoomForBlob(m.args[..1]);
  }

  lemma ArgAt(a: Arg, t: Bytes, pos: nat, args: seq<Arg>)
    requires WfArg(a) && At(t, pos, EncodeArg(a))
    ensures ReadArg(Letter(a), t, pos, args) == if a.Blob? && !RoomForBlob(args) then None else Some(a)
  {
    hide WordBytes; hide Word; hide ReadStr; hide Padded; hide RoomForBlob; hide Select;
    match a
    case Int(n) => IntAt(t, pos, n);
    case Float(bits) => Powers(); WordRoundTrip(bits, 4);
    case Str(s) => PaddedAt(t, pos, s);
    case Blob(dataLen, raw) =>
      assert raw == raw[..4] + raw[4..];
      AtSplit(t, pos, raw[..4], raw[4..]);
      IntAt(t, pos, dataLen);
  }

  lemma LettersTail(args: seq<Arg>, k: nat)
    requires k < |args|
    ensures Letters(args[k..])[0] == Letter(args[k]) && Letters(args[k..])[1..] == Letters(args[k + 1..])
    ensures Letter(args[k]) in {105, 102, 115, 98}
  {}

  lemma {:induction false} ArgsRoundTrip(args: seq<Arg>, k: nat, t: Bytes, pos: nat)
    requires k <= |args| && At(t, pos, EncodeArgs(args[k..]))
    requires forall i :: 0 <= i < |args| ==> WfArg(args[i])
    ensures DecodeArgs(Letters(args[k..]), t, pos, args[..k])
         == if forall j :: k <= j < |args| && args[j].Blob? ==> RoomForBlob(args[..j]) then Some(args) else None
    decreases |args| - k
  {
    hide WfArg; hide EncodeArg; hide RoomForBlob; hide Letters; hide At; hide DecodeArgs;
    if k == |args| {
      assert args[..k] == args;
      NoLetters(args[k..], t, pos, args);
    } else {
      var a := args[k];
      assert args[k..][1..] == args[k + 1..];
      AtSplit(t, pos, EncodeArg(a), EncodeArgs(args[k + 1..]));
      ArgNext(args, k, t, pos);
      ArgsRoundTrip(args, k + 1, t, pos + |EncodeArg(a)|);
    }
  }

  lemma NoLetters(none: seq<Arg>, t: Bytes, pos: nat, args: seq<Arg>)
    requires none == []
    ensures DecodeArgs(Letters(none), t, pos, args) == Some(args)
  {}

  /** One step of the scan over an encoded argument. */
  lemma ArgNext(args: seq<Arg>, k: nat, t: Bytes, pos: nat)
    requires k < |args| && WfArg(args[k]) && At(t, pos, EncodeArg(args[k]))
    ensures DecodeArgs(Letters(args[k..]), t, pos, args[..k])
         == if args[k].Blob? && !RoomForBlob(args[..k]) then None
            else DecodeArgs(Letters(args[k + 1..]), t, pos + |EncodeArg(args[k])|, args[..k + 1])
  {
    hide WfArg; hide EncodeArg; hide RoomForBlob; hide ReadArg; hide Letter; hide Letters; hide At;
    assert args[..k] + [args[k]] == args[..k + 1];
    LettersTail(args, k);
    ArgAt(args[k], t, pos, args[..k]);
  }

  /** An encoded message is read back, wherever it stands, exactly when its blobs fit. */
  lemma MsgRoundTrip(m: Msg, t: Bytes, pos: nat)
    requires WfMsg(m) && At(t, pos, EncodeMsg(m))
    ensures DecodeMsg(t, pos, |EncodeMsg(m)|) == if BlobsFit(m.args) then Some(m) else None
  {
    hide Align; hide WfArg; hide RoomForBlob; hide ReadStr; hide Padded; hide EncodeArgs; hide DecodeArgs;
    var tag := TypeTag(m.args);
    AtSplit(t, pos, Padded(m.address), Padded(tag) + EncodeArgs(m.args));
    AtSplit(t, pos + |Padded(m.address)|, Padded(tag), EncodeArgs(m.args));
    PaddedAt(t, pos, m.address);
    PaddedAt(t, pos + |Padded(m.address)|, tag);
    FirstByte(t, pos, m.address);
    assert m.args[0..] == m.args && m.args[..0] == [];
    ArgsRoundTrip(m.args, 0, t, pos + |Padded(m.address)| + |Padded(tag)|);
    SkipComma(Letters(m.args), t, pos + |Padded(m.address)| + |Padded(tag)|);
  }

  lemma SkipComma(letters: Bytes, t: Bytes, pos: nat)
    ensures DecodeArgs([44] + letters, t, pos, []) == DecodeArgs(letters, t, pos, [])
  {
    assert ([44] + letters)[1..] == letters;
  }

  lemma FirstByte(t: Bytes, pos: nat, s: Bytes)
    requires At(t, pos, Padded(s)) && s != []
    ensures pos < |t| && t[pos] == s[0]
  {
    assert t[pos..pos + |Padded(s)|][0] == Padded(s)[0];
  }

  lemma ArgAligned(a: Arg)
    requires WfArg(a)
    ensures |EncodeArg(a)| % 4 == 0
  {}

  lemma {:induction false} ArgsAligned(args: seq<Arg>)
    requires forall i :: 0 <= i < |args| ==> WfArg(args[i])
    ensures |EncodeArgs(args)| % 4 == 0
  {
    hide WfArg; hide EncodeArg;
    if args != [] {
      ArgsAligned(args[1..]);
      ArgAligned(args[0]);
    }
  }

  lemma MsgAligned(m: Msg)
    requires WfMsg(m)
    ensures |EncodeMsg(m)| % 4 == 0
  {
    hide WfArg; hide EncodeArgs; hide Padded; hide Align;
    ArgsAligned(m.args);
  }

  // ----- bundles

  /** "#bundle" and its terminator. */
  const HEADER: Bytes := [35, 98, 117, 110, 100, 108, 101, 0]

  /** The size of an element and the element. */
  function Sized(s: Bytes): Bytes { IntBytes(|s|) + s }

  function EncodeMessages(messages: seq<Msg>): Bytes {
    if messages == [] then [] else Sized(EncodeMsg(messages[0])) + EncodeMessages(messages[1..])
  }

  function EncodeBundle(b: Bundle): Bytes
    decreases b, 0
  {
    HEADER + (WordBytes(b.time, 8) + (EncodeMessages(b.messages) + EncodeBundles(b.bundles)))
  }

  function EncodeBundles(bundles: seq<Bundle>): Bytes
    decreases bundles, 0
  {
    if bundles == [] then [] else Sized(EncodeBundle(bundles[0])) + EncodeBundles(bundles[1..])
  }

  /** The size of the next element: none at the end, an error when it does not fit. */
  datatype Next = End | Bad | Size(size: nat)

  function CheckSize(t: Bytes, pos: nat, at: nat, len: int): Next {
    if at == len then End
    else if at + 4 > len then Bad
    else
      match ReadInt32(t, pos + at)
      case None => Bad
      case Some(size) => if 4 + size + at > len || size < 0 then Bad else Size(size)
  }

  /** The bundle at `pos`, `len` bytes long: a header, a time tag and elements. */
  function DecodeBundle(t: Bytes, pos: nat, len: int): Option<Bundle>
    decreases len, len
  {
    if len < 16 || !At(t, pos, HEADER) || pos + 16 > |t| then None
    else DecodeElements(t, pos, 16, len, Bundle(Word(t[pos + 8..pos + 16]), [], []))
  }

  /** The elements from offset `at` on, added to `b`. */
  function DecodeElements(t: Bytes, pos: nat, at: nat, len: int, b: Bundle): Option<Bundle>
    requires 16 <= at <= len
    decreases len, len - at
  {
    match CheckSize(t, pos, at, len)
    case End => Some(b)
    case Bad => None
    case Size(size) =>
      if pos + at + 4 >= |t| then None
      else if t[pos + at + 4] == 35 then
        match DecodeBundle(t, pos + at + 4, size)
        case None => None
        case Some(sub) => DecodeElements(t, pos, at + size + 4, len, b.(bundles := b.bundles + [sub]))
      else
        match DecodeMsg(t, pos + at + 4, size)
        case None => None
        case Some(m) => DecodeElements(t, pos, at + size + 4, len, b.(messages := b.messages + [m]))
  }

  predicate WfMessages(messages: seq<Msg>) {
    forall i :: 0 <= i < |messages| ==> WfMsg(messages[i])
  }

  predicate WfBundle(b: Bundle) {
    b.time < TIMES && WfMessages(b.messages)
    && forall i :: 0 <= i < |b.bundles| ==> WfBundle(b.bundles[i])
  }

  predicate MessagesFit(messages: seq<Msg>) {
    forall i :: 0 <= i < |messages| ==> BlobsFit(messages[i].args)
  }

  /** The blobs of every message fit, at every depth. */
  predicate AllFit(b: Bundle) {
    MessagesFit(b.messages) && forall i :: 0 <= i < |b.bundles| ==> AllFit(b.bundles[i])
  }

  /** The element standing at an offset, with its size in front. */
  lemma ElementAt(t: Bytes, pos: nat, at: nat, len: int, s: Bytes)
    requires At(t, pos + at, Sized(s)) && at + |Sized(s)| <= len < HALF && s != []
    ensures |Sized(s)| == |s| + 4 && At(t, pos + at + 4, s)
    ensures CheckSize(t, pos, at, len) == Size(|s|) && pos + at + 4 < |t| && t[pos + at + 4] == s[0]
  {
    hide IntBytes;
    AtSplit(t, pos + at, IntBytes(|s|), s);
    IntAt(t, pos + at, |s|);
    assert t[pos + at + 4..pos + at + 4 + |s|][0] == s[0];
  }

  lemma MsgFirst(m: Msg)
    requires WfMsg(m)
    ensures EncodeMsg(m) != [] && EncodeMsg(m)[0] == 47
  {
    hide EncodeArgs; hide TypeTag; hide WfArg; hide Align;
  }

  /** One message among the elements. */
  lemma MessageElement(m: Msg, t: Bytes, pos: nat, at: nat, len: int, b: Bundle)
    requires 16 <= at && at + |Sized(EncodeMsg(m))| <= len < HALF && WfMsg(m) && At(t, pos + at, Sized(EncodeMsg(m)))
    ensures DecodeElements(t, pos, at, len, b)
         == if !BlobsFit(m.args) then None
            else DecodeElements(t, pos, at + |Sized(EncodeMsg(m))|, len, b.(messages := b.messages + [m]))
  {
    hide WfMsg; hide EncodeMsg; hide BlobsFit; hide CheckSize; hide DecodeMsg; hide DecodeBundle; hide Sized; hide At;
    MsgFirst(m);
    ElementAt(t, pos, at, len, EncodeMsg(m));
    MsgRoundTrip(m, t, pos + at + 4);
  }

  lemma {:induction false} MessagesRoundTrip(messages: seq<Msg>, t: Bytes, pos: nat, at: nat, len: int, b: Bundle)
    requires 16 <= at && at + |EncodeMessages(messages)| <= len < HALF
    requires WfMessages(messages) && At(t, pos + at, EncodeMessages(messages))
    ensures DecodeElements(t, pos, at, len, b)
         == if !MessagesFit(messages) then None
            else DecodeElements(t, pos, at + |EncodeMessages(messages)|, len, b.(messages := b.messages + messages))
    decreases |messages|
  {
    hide WfMsg; hide EncodeMsg; hide BlobsFit; hide DecodeElements; hide Sized; hide At;
    if messages == [] {
      assert b.messages + messages == b.messages;
    } else {
      var m, more := messages[0], messages[1..];
      var s := Sized(EncodeMsg(m));
      AtSplit(t, pos + at, s, EncodeMessages(more));
      MessageElement(m, t, pos, at, len, b);
      assert MessagesFit(messages) <==> BlobsFit(m.args) && MessagesFit(more) by { MessagesFitSplit(messages); }
      if BlobsFit(m.args) {
        MessagesRoundTrip(more, t, pos, at + |s|, len, b.(messages := b.messages + [m]));
        assert b.messages + [m] + more == b.messages + messages;
      }
    }
  }

  lemma MessagesFitSplit(messages: seq<Msg>)
    requires messages != []
    ensures MessagesFit(messages) <==> BlobsFit(messages[0].args) && MessagesFit(messages[1..])
  {
    hide BlobsFit;
    assert messages == [messages[0]] + messages[1..];
  }

  /** An encoded bundle of any depth is read back, wherever it stands, exactly when the blobs of
      all its messages fit. */
  lemma {:induction false} BundleRoundTrip(b: Bundle, t: Bytes, pos: nat)
    requires WfBundle(b) && |EncodeBundle(b)| < HALF && At(t, pos, EncodeBundle(b))
    ensures DecodeBundle(t, pos, |EncodeBundle(b)|) == if AllFit(b) then Some(b) else None
    decreases b, 1
  {
    hide DecodeElements; hide EncodeMessages; hide EncodeBundles; hide WfMessages; hide MessagesFit; hide Word;
    hide WordBytes;
    var len := |EncodeBundle(b)|;
    var ms, bs := EncodeMessages(b.messages), EncodeBundles(b.bundles);
    AtSplit(t, pos, HEADER, WordBytes(b.time, 8) + (ms + bs));
    AtSplit(t, pos + 8, WordBytes(b.time, 8), ms + bs);
    AtSplit(t, pos + 16, ms, bs);
    Powers();
    WordRoundTrip(b.time, 8);
    var empty := Bundle(b.time, [], []);
    MessagesRoundTrip(b.messages, t, pos, 16, len, empty);
    assert [] + b.messages == b.messages;
    if MessagesFit(b.messages) {
      BundlesRoundTrip(b.bundles, t, pos, 16 + |ms|, len, Bundle(b.time, b.messages, []));
      assert [] + b.bundles == b.bundles;
      AtTheEnd(t, pos, len, b);
    }
  }

  /** The same for a bundle with any bytes before and after it. */
  lemma RoundTrip(b: Bundle, before: Bytes, after: Bytes)
    requires WfBundle(b) && BundleLen(b) < HALF
    ensures DecodeBundle(before + EncodeBundle(b) + after, |before|, BundleLen(b))
            == if AllFit(b) then Some(b) else None
  {
    hide EncodeBundle; hide DecodeBundle; hide WfBundle; hide AllFit; hide BundleLen;
    BundleLength(b);
    var t := before + EncodeBundle(b) + after;
    assert t[|before|..|before| + |EncodeBundle(b)|] == EncodeBundle(b);
    BundleRoundTrip(b, t, |before|);
  }

  lemma AtTheEnd(t: Bytes, pos: nat, len: int, b: Bundle)
    requires 16 <= len
    ensures DecodeElements(t, pos, len, len, b) == Some(b)
  {}

  lemma BundleFirst(b: Bundle)
    ensures EncodeBundle(b) != [] && EncodeBundle(b)[0] == 35
  {
    hide EncodeMessages; hide EncodeBundles; hide WordBytes;
  }

  /** One bundle among the elements. */
  lemma BundleElement(sub: Bundle, t: Bytes, pos: nat, at: nat, len: int, b: Bundle)
    requires 16 <= at && at + |Sized(EncodeBundle(sub))| <= len < HALF && At(t, pos + at, Sized(EncodeBundle(sub)))
    requires DecodeBundle(t, pos + at + 4, |EncodeBundle(sub)|) == if AllFit(sub) then Some(sub) else None
    ensures DecodeElements(t, pos, at, len, b)
         == if !AllFit(sub) then None
            else DecodeElements(t, pos, at + |Sized(EncodeBundle(sub))|, len, b.(bundles := b.bundles + [sub]))
  {
    hide EncodeBundle; hide AllFit; hide CheckSize; hide DecodeMsg; hide DecodeBundle; hide Sized; hide At;
    BundleFirst(sub);
    ElementAt(t, pos, at, len, EncodeBundle(sub));
  }

  predicate BundlesFit(bundles: seq<Bundle>) { forall i :: 0 <= i < |bundles| ==> AllFit(bundles[i]) }

  predicate WfBundles(bundles: seq<Bundle>) { forall i :: 0 <= i < |bundles| ==> WfBundle(bundles[i]) }

  lemma BundlesFitSplit(bundles: seq<Bundle>)
    requires bundles != []
    ensures BundlesFit(bundles) <==> AllFit(bundles[0]) && BundlesFit(bundles[1..])
  {
    hide AllFit;
    assert bundles == [bundles[0]] + bundles[1..];
  }

  lemma {:induction false} BundlesRoundTrip(bundles: seq<Bundle>, t: Bytes, pos: nat, at: nat, len: int, b: Bundle)
    requires 16 <= at && at + |EncodeBundles(bundles)| <= len < HALF
    requires WfBundles(bundles) && At(t, pos + at, EncodeBundles(bundles))
    ensures DecodeElements(t, pos, at, len, b)
         == if !BundlesFit(bundles) then None
            else DecodeElements(t, pos, at + |EncodeBundles(bundles)|, len, b.(bundles := b.bundles + bundles))
    decreases bundles, 0
  {
    hide WfBundle; hide EncodeBundle; hide AllFit; hide DecodeElements; hide Sized; hide At; hide BundlesFit;
    hide DecodeBundle;
    if bundles == [] {
      assert BundlesFit(bundles) by { NoBundlesFit(bundles); }
      assert b.bundles + bundles == b.bundles;
    } else {
      var sub, more := bundles[0], bundles[1..];
      var s := Sized(EncodeBundle(sub));
      AtSplit(t, pos + at, s, EncodeBundles(more));
      SubBundle(sub, t, pos, at);
      BundleRoundTrip(sub, t, pos + at + 4);
      BundleElement(sub, t, pos, at, len, b);
      BundlesFitSplit(bundles);
      if AllFit(sub) {
        BundlesRoundTrip(more, t, pos, at + |s|, len, b.(bundles := b.bundles + [sub]));
        assert b.bundles + [sub] + more == b.bundles + bundles;
      }
    }
  }

  lemma NoBundlesFit(bundles: seq<Bundle>)
    requires bundles == []
    ensures BundlesFit(bundles)
  {}

  lemma SubBundle(sub: Bundle, t: Bytes, pos: nat, at: nat)
    requires At(t, pos + at, Sized(EncodeBundle(sub)))
    ensures |Sized(EncodeBundle(sub))| == |EncodeBundle(sub)| + 4 && At(t, pos + at + 4, EncodeBundle(sub))
  {
    AtSplit(t, pos + at, IntBytes(|EncodeBundle(sub)|), EncodeBundle(sub));
  }

  // ----- lengths

  function BundleLen(b: Bundle): int
    decreases b, 0
  {
    16 + MessagesLen(b.messages) + BundlesLen(b.bundles)
  }

  function MessagesLen(messages: seq<Msg>): int {
    if messages == [] then 0 else 4 + |EncodeMsg(messages[0])| + MessagesLen(messages[1..])
  }

  function BundlesLen(bundles: seq<Bundle>): int
    decreases bundles, 0
  {
    if bundles == [] then 0 else 4 + BundleLen(bundles[0]) + BundlesLen(bundles[1..])
  }

  lemma SizedLength(s: Bytes)
    ensures |Sized(s)| == 4 + |s|
  {}

  lemma SumAligned(a: int, b: int)
    requires a % 4 == 0 && b % 4 == 0
    ensures (a + b) % 4 == 0 && (a + 4) % 4 == 0 && (4 + a + b) % 4 == 0 && (16 + a + b) % 4 == 0
  {}

  /** At every level the length announced beforehand is the number of bytes written, a multiple
      of 4. */
  lemma {:induction false} BundleLength(b: Bundle)
    ensures |EncodeBundle(b)| == BundleLen(b)
    ensures WfBundle(b) ==> BundleLen(b) % 4 == 0
    decreases b, 1
  {
    hide WfMessages; hide EncodeMessages; hide EncodeBundles; hide MessagesLen; hide BundlesLen; hide WordBytes;
    MessagesLength(b.messages);
    BundlesLength(b.bundles);
    if WfBundle(b) { SumAligned(MessagesLen(b.messages), BundlesLen(b.bundles)); }
  }

  lemma {:induction false} MessagesLength(messages: seq<Msg>)
    ensures |EncodeMessages(messages)| == MessagesLen(messages)
    ensures WfMessages(messages) ==> MessagesLen(messages) % 4 == 0
  {
    hide WfMsg; hide EncodeMsg; hide Sized;
    if messages != [] {
      MessagesLength(messages[1..]);
      SizedLength(EncodeMsg(messages[0]));
      if WfMessages(messages) {
        MsgAligned(messages[0]);
        SumAligned(|EncodeMsg(messages[0])|, MessagesLen(messages[1..]));
      }
    }
  }

  lemma {:induction false} BundlesLength(bundles: seq<Bundle>)
    ensures |EncodeBundles(bundles)| == BundlesLen(bundles)
    ensures WfBundles(bundles) ==> BundlesLen(bundles) % 4 == 0
    decreases bundles, 0
  {
    hide EncodeBundle; hide WfBundle; hide BundleLen; hide Sized;
    if bundles != [] {
      BundleLength(bundles[0]);
      BundlesLength(bundles[1..]);
      SizedLength(EncodeBundle(bundles[0]));
      if WfBundles(bundles) { SumAligned(BundleLen(bundles[0]), BundlesLen(bundles[1..])); }
    }
  }
}
