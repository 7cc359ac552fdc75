/** OSC packets byte by byte, as the Open Sound Control 1.0 specification lays them out. */
module OscWire {
  import Decimal
  import opened Octets
  import opened Options
  import opened OscWords
  import opened Osc

  // ----- words

  lemma {:induction false} PowerPositive(k: nat)
    ensures Power256(k) > 0
  {
    if k > 0 { PowerPositive(k - 1); }
  }

  /** Most significant byte first. */
  lemma {:induction false} WordBytesAt(w: nat, k: nat, i: nat)
    requires i < k
    ensures Power256(k - 1 - i) > 0 && WordBytes(w, k)[i] == w / Power256(k - 1 - i) % 256
    decreases k
  {
    PowerPositive(k - 1 - i);
    if i < k - 1 {
      WordBytesAt(w / 256, k - 1, i);
      PowerPositive(k - 2 - i);
      Decimal.DivTwice(w, 256, Power256(k - 2 - i));
    }
  }

  lemma PowersOf256()
    ensures Power256(0) == 1 && Power256(1) == 0x100 && Power256(2) == 0x1_0000 && Power256(3) == 0x100_0000
  {
    assert Power256(1) == 256 * Power256(0) && Power256(2) == 256 * Power256(1) && Power256(3) == 256 * Power256(2);
  }

  lemma FourBytes(w: nat)
    ensures WordBytes(w, 4) == [w / 0x100_0000 % 256, w / 0x1_0000 % 256, w / 0x100 % 256, w % 256]
  {
    hide WordBytes; hide Power256;
    PowersOf256();
    WordBytesAt(w, 4, 0);
    WordBytesAt(w, 4, 1);
    WordBytesAt(w, 4, 2);
    WordBytesAt(w, 4, 3);
  }

  lemma EightBytes(w: nat)
    ensures WordBytes(w, 8)
         == [w / 0x100_0000_0000_0000 % 256, w / 0x1_0000_0000_0000 % 256, w / 0x100_0000_0000 % 256,
             w / 0x1_0000_0000 % 256, w / 0x100_0000 % 256, w / 0x1_0000 % 256, w / 0x100 % 256, w % 256]
  {
    hide WordBytes; hide Power256;
    PowersOf256();
    MorePowers();
    WordBytesAt(w, 8, 0);
    WordBytesAt(w, 8, 1);
    WordBytesAt(w, 8, 2);
    WordBytesAt(w, 8, 3);
    WordBytesAt(w, 8, 4);
    WordBytesAt(w, 8, 5);
    WordBytesAt(w, 8, 6);
    WordBytesAt(w, 8, 7);
  }

  lemma MorePowers()
    ensures Power256(4) == 0x1_0000_0000 && Power256(5) == 0x100_0000_0000
    ensures Power256(6) == 0x1_0000_0000_0000 && Power256(7) == 0x100_0000_0000_0000
  {
    PowersOf256();
    assert Power256(4) == 256 * Power256(3) && Power256(5) == 256 * Power256(4);
    assert Power256(6) == 256 * Power256(5) && Power256(7) == 256 * Power256(6);
  }

  // ----- arguments

  /** Zeros after a string or a blob of `n` bytes. */
  predicate ZerosFrom(s: Bytes, n: nat) { forall i :: n <= i < |s| ==> s[i] == 0 }

  /** An integer is its two's complement, a float its bits, most significant byte first; a string has
      one to four zeros behind it, so that it ends on a multiple of 4. */
  lemma ArgumentBytes(n: int, bits: nat, s: Bytes)
    ensures var w := n % 0x1_0000_0000;
            EncodeArg(Int(n)) == [w / 0x100_0000 % 256, w / 0x1_0000 % 256, w / 0x100 % 256, w % 256]
    ensures EncodeArg(Float(bits)) == [bits / 0x100_0000 % 256, bits / 0x1_0000 % 256, bits / 0x100 % 256, bits % 256]
    ensures var r := EncodeArg(Str(s));
            |r| == |s| + (4 - |s| % 4) && r[..|s|] == s && ZerosFrom(r, |s|)
  {
    hide WordBytes;
    FourBytes(n % 0x1_0000_0000);
    FourBytes(bits);
    PaddedBytes(s);
  }

  lemma PaddedBytes(s: Bytes)
    ensures var r := Padded(s); |r| == |s| + (4 - |s| % 4) && r[..|s|] == s && ZerosFrom(r, |s|) && |r| % 4 == 0
  {
    PaddedLength(|s|);
    hide Align;
  }

  lemma PaddedLength(n: nat)
    ensures Align(n + 1) == n + (4 - n % 4) && (n + (4 - n % 4)) % 4 == 0
  {
    assert n == n / 4 * 4 + n % 4;
  }

  /** A blob: its size, its bytes, and zeros up to a multiple of 4. */
  lemma BlobBytes(data: Bytes)
    requires |data| < 0x8000_0000
    ensures var n, r := |data|, EncodeArg(NewBlob(data));
            && |r| == 4 + (n + 3) / 4 * 4 && ZerosFrom(r, 4 + n) && r[4..4 + n] == data
            && r[..4] == [n / 0x100_0000 % 256, n / 0x1_0000 % 256, n / 0x100 % 256, n % 256]
  {
    hide WordBytes;
    FourBytes(|data|);
    var z := Zeros(Align(|data|) - |data|);
    var r := EncodeArg(NewBlob(data));
    assert r == IntBytes(|data|) + data + z;
    assert r[..4] == IntBytes(|data|) && r[4..4 + |data|] == data;
  }

  /** The arguments stand one behind the other. */
  lemma {:induction false} ArgumentsInOrder(args: seq<Arg>, k: nat)
    requires k < |args|
    ensures EncodeArgs(args) == EncodeArgs(args[..k]) + EncodeArg(args[k]) + EncodeArgs(args[k + 1..])
    decreases k
  {
    hide EncodeArg;
    if k == 0 {
      assert args[..0] == [] && EncodeArgs([]) == [] && args[0 + 1..] == args[1..];
    } else {
      ArgumentsInOrder(args[1..], k - 1);
      assert args[1..][..k - 1] == args[..k][1..] && args[1..][k - 1 + 1..] == args[k + 1..];
    }
  }

  // ----- messages

  /** The letter of an argument: i, f, s or b. */
  lemma LettersAre(a: Arg)
    ensures Letter(a) as char
            == match a case Int(_) => 'i' case Float(_) => 'f' case Str(_) => 's' case Blob(_, _) => 'b'
  {}

  /** A message: the address and its zeros up to `p`, a comma and the letters and their zeros up to
      `q`, the arguments. */
  ghost predicate IsMessage(r: Bytes, m: Msg, p: nat, q: nat) {
    var n, k := |m.address|, |m.args|;
    && n < p <= n + 4 && p % 4 == 0 && p + 1 + k < q <= p + 1 + k + 4 && q % 4 == 0 && q <= |r|
    && r[..n] == m.address && ZerosFrom(r[..p], n)
    && r[p] as char == ',' && (forall i :: 0 <= i < k ==> r[p + 1 + i] == Letter(m.args[i]))
    && ZerosFrom(r[..q], p + 1 + k) && r[q..] == EncodeArgs(m.args)
  }

  lemma {:induction false} MessageBytes(m: Msg) returns (p: nat, q: nat)
    ensures IsMessage(EncodeMsg(m), m, p, q)
  {
    var a, t, e := Padded(m.address), Padded(TypeTag(m.args)), EncodeArgs(m.args);
    p, q := |a|, |a| + |t|;
    hide *;
    TagIs(m.args);
    PaddedRange(m.address);
    PaddedRange(TypeTag(m.args));
    EncodeMsgIs(m);
    LaidOut(a, t, e, |m.address|, 1 + |m.args|);
    Fours(|a|, |t|);
    PartsAreMessage(a + (t + e), m, t, p, q);
  }

  lemma Fours(a: nat, b: nat)
    requires a % 4 == 0 && b % 4 == 0
    ensures (a + b) % 4 == 0
  {}

  lemma PartsAreMessage(r: Bytes, m: Msg, t: Bytes, p: nat, q: nat)
    requires |m.address| < p <= |m.address| + 4 && p % 4 == 0 && q % 4 == 0 && q == p + |t| <= |r|
    requires 1 + |m.args| < |t| <= 1 + |m.args| + 4 && t[..1 + |m.args|] == TypeTag(m.args)
    requires r[..|m.address|] == m.address && ZerosFrom(r[..p], |m.address|) && r[q..] == EncodeArgs(m.args)
    requires forall i :: 0 <= i < |TypeTag(m.args)| ==> r[p + i] == TypeTag(m.args)[i]
    requires ZerosFrom(r[..q], p + (1 + |m.args|))
    ensures IsMessage(r, m, p, q)
  {
    TagIs(m.args);
    hide TypeTag; hide EncodeArgs; hide Letter; hide ZerosFrom;
    assert r[p + 0] == TypeTag(m.args)[0];
    forall i | 0 <= i < |m.args| ensures r[p + 1 + i] == Letter(m.args[i]) {
      assert r[p + (1 + i)] == TypeTag(m.args)[1 + i];
    }
  }

  lemma TagIs(args: seq<Arg>)
    ensures var t := TypeTag(args); |t| == 1 + |args| && t[0] as char == ','
    ensures forall i :: 0 <= i < |args| ==> TypeTag(args)[1 + i] == Letter(args[i])
  {}

  lemma PaddedRange(s: Bytes)
    ensures var r := Padded(s); |s| < |r| <= |s| + 4 && |r| % 4 == 0 && r[..|s|] == s && ZerosFrom(r, |s|)
  {
    hide Padded;
    PaddedBytes(s);
  }

  /** Three parts behind each other. */
  lemma LaidOut(a: Bytes, t: Bytes, e: Bytes, n: nat, k: nat)
    requires n <= |a| && k <= |t| && ZerosFrom(a, n) && ZerosFrom(t, k)
    ensures var r := a + (t + e);
            && r[..n] == a[..n] && ZerosFrom(r[..|a|], n) && r[|a| + |t|..] == e
            && (forall i :: 0 <= i < k ==> r[|a| + i] == t[..k][i]) && ZerosFrom(r[..|a| + |t|], |a| + k)
  {
    var r := a + (t + e);
    var u := r[..|a| + |t|];
    forall i | |a| + k <= i < |u| ensures u[i] == 0 { assert u[i] == t[i - |a|]; }
  }

  /** `/a` with the number 1. */
  lemma SmallMessage()
    ensures EncodeMsg(Msg([47, 97], [Int(1)])) == [47, 97, 0, 0, 44, 105, 0, 0, 0, 0, 0, 1]
  {
    var args := [Int(1)];
    assert TypeTag(args) == [44, 105];
    OneArgument(args);
    hide *;
    PaddedTwo(47, 97);
    PaddedTwo(44, 105);
    EncodeMsgIs(Msg([47, 97], args));
    assert [47, 97, 0, 0] + ([44, 105, 0, 0] + [0, 0, 0, 1]) == [47, 97, 0, 0, 44, 105, 0, 0, 0, 0, 0, 1];
  }

  lemma OneArgument(args: seq<Arg>)
    requires args == [Int(1)]
    ensures EncodeArgs(args) == [0, 0, 0, 1]
  {
    hide EncodeArg;
    ArgumentBytes(1, 0, []);
    assert args[1..] == [] && EncodeArgs([]) == [];
  }

  lemma EncodeMsgIs(m: Msg)
    ensures EncodeMsg(m) == Padded(m.address) + (Padded(TypeTag(m.args)) + EncodeArgs(m.args))
  {}

  lemma PaddedTwo(a: byte, b: byte)
    ensures Padded([a, b]) == [a, b, 0, 0]
  {
    PaddedBytes([a, b]);
    var r := Padded([a, b]);
    assert r[..2] == [a, b] && r[2] == 0 && r[3] == 0;
  }

  // ----- room for blobs

  ghost function StringsIn(args: seq<Arg>): set<int> { set i | 0 <= i < |args| && args[i].Str? }

  ghost function BlobsIn(args: seq<Arg>): set<int> { set i | 0 <= i < |args| && args[i].Blob? }

  lemma {:induction false} SelectedAre(args: seq<Arg>)
    ensures |Select(args, 115)| == |StringsIn(args)| && |Select(args, 98)| == |BlobsIn(args)|
  {
    if args == [] {
      assert StringsIn(args) == {} && BlobsIn(args) == {};
    } else {
      var n := |args| - 1;
      SelectedAre(args[..n]);
      LastCounted(args);
      hide StringsIn; hide BlobsIn;
    }
  }

  lemma LastCounted(args: seq<Arg>)
    requires args != []
    ensures var n := |args| - 1;
            && |StringsIn(args)| == |StringsIn(args[..n])| + (if args[n].Str? then 1 else 0)
            && |BlobsIn(args)| == |BlobsIn(args[..n])| + if args[n].Blob? then 1 else 0
  {
    var n := |args| - 1;
    var s, b := StringsIn(args[..n]), BlobsIn(args[..n]);
    assert StringsIn(args) == if args[n].Str? then s + {n} else s;
    assert BlobsIn(args) == if args[n].Blob? then b + {n} else b;
  }

  /** A blob has room after these arguments when it is the first one, or when they have more strings
      than blobs. */
  lemma RoomMeans(args: seq<Arg>)
    ensures RoomForBlob(args) <==> BlobsIn(args) == {} || |BlobsIn(args)| < |StringsIn(args)|
  {
    hide Select; hide BlobsIn; hide StringsIn;
    SelectedAre(args);
  }

  // ----- bundles

  /** A bundle: the characters of `#bundle` and a zero, the time tag, and the elements. */
  lemma BundleBytes(b: Bundle)
    ensures var r := EncodeBundle(b);
            && |r| >= 16
            && r[..8] == ['#' as int, 'b' as int, 'u' as int, 'n' as int, 'd' as int, 'l' as int, 'e' as int, 0]
            && r[8..16] == [b.time / 0x100_0000_0000_0000 % 256, b.time / 0x1_0000_0000_0000 % 256,
                            b.time / 0x100_0000_0000 % 256, b.time / 0x1_0000_0000 % 256, b.time / 0x100_0000 % 256,
                            b.time / 0x1_0000 % 256, b.time / 0x100 % 256, b.time % 256]
            && r[16..] == EncodeMessages(b.messages) + EncodeBundles(b.bundles)
  {
    hide WordBytes; hide EncodeMessages; hide EncodeBundles;
    EightBytes(b.time);
    var t, e, r := WordBytes(b.time, 8), EncodeMessages(b.messages) + EncodeBundles(b.bundles), EncodeBundle(b);
    assert r == HEADER + t + e;
    assert r[..8] == HEADER && r[8..16] == t && r[16..] == e;
  }

  /** Every element has its size in front, most significant byte first; messages come before bundles. */
  lemma {:induction false} MessageElements(messages: seq<Msg>, k: nat)
    requires k < |messages|
    ensures var n := |EncodeMsg(messages[k])| % 0x1_0000_0000;
            EncodeMessages(messages)
            == EncodeMessages(messages[..k])
               + ([n / 0x100_0000 % 256, n / 0x1_0000 % 256, n / 0x100 % 256, n % 256] + EncodeMsg(messages[k]))
               + EncodeMessages(messages[k + 1..])
  {
    hide EncodeMsg; hide Sized; hide EncodeMessages;
    SizedBytes(EncodeMsg(messages[k]));
    MessagesAround(messages, k);
  }

  lemma {:induction false} MessagesAround(messages: seq<Msg>, k: nat)
    requires k < |messages|
    ensures EncodeMessages(messages)
         == EncodeMessages(messages[..k]) + Sized(EncodeMsg(messages[k])) + EncodeMessages(messages[k + 1..])
    decreases k
  {
    hide EncodeMsg; hide Sized;
    if k == 0 {
      assert messages[..0] == [] && EncodeMessages([]) == [] && messages[0 + 1..] == messages[1..];
    } else {
      MessagesAround(messages[1..], k - 1);
      assert messages[1..][..k - 1] == messages[..k][1..] && messages[1..][k - 1 + 1..] == messages[k + 1..];
    }
  }

  lemma {:induction false} BundleElements(bundles: seq<Bundle>, k: nat)
    requires k < |bundles|
    ensures var n := |EncodeBundle(bundles[k])| % 0x1_0000_0000;
            EncodeBundles(bundles)
            == EncodeBundles(bundles[..k])
               + ([n / 0x100_0000 % 256, n / 0x1_0000 % 256, n / 0x100 % 256, n % 256] + EncodeBundle(bundles[k]))
               + EncodeBundles(bundles[k + 1..])
  {
    hide EncodeBundle; hide Sized; hide EncodeBundles;
    SizedBytes(EncodeBundle(bundles[k]));
    BundlesAround(bundles, k);
  }

  lemma {:induction false} BundlesAround(bundles: seq<Bundle>, k: nat)
    requires k < |bundles|
    ensures EncodeBundles(bundles)
         == EncodeBundles(bundles[..k]) + Sized(EncodeBundle(bundles[k])) + EncodeBundles(bundles[k + 1..])
    decreases k
  {
    hide EncodeBundle; hide Sized;
    if k == 0 {
      assert bundles[..0] == [] && EncodeBundles([]) == [] && bundles[0 + 1..] == bundles[1..];
    } else {
      BundlesAround(bundles[1..], k - 1);
      assert bundles[1..][..k - 1] == bundles[..k][1..] && bundles[1..][k - 1 + 1..] == bundles[k + 1..];
    }
  }

  lemma SizedBytes(s: Bytes)
    ensures var n := |s| % 0x1_0000_0000;
            Sized(s) == [n / 0x100_0000 % 256, n / 0x1_0000 % 256, n / 0x100 % 256, n % 256] + s
  {
    hide WordBytes;
    FourBytes(|s| % 0x1_0000_0000);
  }

  // ----- what is not an encoding

  /** A message without a slash in front is refused; one without a type tag has no arguments. */
  lemma OddMessages(t: Bytes, pos: nat, len: int, address: Bytes)
    ensures pos < |t| && t[pos] as char != '/' ==> DecodeMsg(t, pos, len) == None
    ensures len < 1 ==> DecodeMsg(t, pos, len) == None
    ensures (At(t, pos, Padded(address)) && address != [] && address[0] as char == '/' && 0 !in address
             && 1 <= len <= |Padded(address)|) ==> DecodeMsg(t, pos, len) == Some(Msg(address, []))
  {
    hide ReadStr; hide Padded; hide DecodeArgs; hide Align;
    if At(t, pos, Padded(address)) && address != [] && address[0] as char == '/' && 0 !in address {
      PaddedAt(t, pos, address);
      FirstByte(t, pos, address);
    }
  }

  /** A letter that is none of the four ends the arguments; commas are skipped. */
  lemma OddLetters(tag: Bytes, t: Bytes, pos: nat, args: seq<Arg>)
    requires tag != []
    ensures tag[0] as char !in {',', 'i', 'f', 's', 'b'} ==> DecodeArgs(tag, t, pos, args) == Some(args)
    ensures tag[0] as char == ',' ==> DecodeArgs(tag, t, pos, args) == DecodeArgs(tag[1..], t, pos, args)
  {}

  /** Bundles that are refused: too short, another header, or an element whose size is negative, cut
      off, or larger than what is left. */
  lemma OddBundles(t: Bytes, pos: nat, at: nat, len: int, b: Bundle)
    requires 16 <= at <= len
    ensures at < len < at + 4 ==> DecodeElements(t, pos, at, len, b) == None
    ensures match ReadInt32(t, pos + at)
            case None => at < len ==> DecodeElements(t, pos, at, len, b) == None
            case Some(size) =>
              at < len && (size < 0 || at + 4 + size > len) ==> DecodeElements(t, pos, at, len, b) == None
  {
    hide ReadInt32; hide DecodeMsg; hide DecodeBundle;
  }

  lemma OddHeaders(t: Bytes, pos: nat, len: int)
    ensures len < 16 ==> DecodeBundle(t, pos, len) == None
    ensures pos + 8 <= |t|
            && t[pos..pos + 8] != [35, 98, 117, 110, 100, 108, 101, 0]
            ==> DecodeBundle(t, pos, len) == None
  {
    hide DecodeElements; hide Word;
  }

  /** A word that is read: most significant byte first, negative from the top bit on. */
  lemma ReadsWord(a: byte, b: byte, c: byte, d: byte)
    ensures var w := a * 0x100_0000 + b * 0x1_0000 + c * 0x100 + d;
            ReadInt32([a, b, c, d], 0) == Some(if a >= 128 then w - 0x1_0000_0000 else w)
  {
    var s := [a, b, c, d];
    assert s[0..4] == s && s[..3] == [a, b, c] && [a, b, c][..2] == [a, b] && [a, b][..1] == [a] && [a][..0] == [];
    assert Word([]) == 0 && Word([a]) == a && Word([a, b]) == a * 256 + b && Word([a, b, c]) == (a * 256 + b) * 256 + c;
  }
}
