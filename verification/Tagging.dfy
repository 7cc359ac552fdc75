/** Tagged records on top of the byte buffer: a variable-length tag, a nibble-packed length and
    the payload. */
module Tagging {
  import Decimal
  import opened Octets
  import opened EvBuffer
  import opened Options

  const LIMIT: int := 0x1_0000_0000

  /** A buffer length as an `int` holds it. */
  function IntLength(n: nat): (len: int)
    ensures len <= n && (n < LIMIT / 2 ==> len == n)
  {
    if n % LIMIT < LIMIT / 2 then n % LIMIT else n % LIMIT - LIMIT
  }

  /** The part of a buffer that such a length covers. */
  function Seen(s: Bytes): (r: Bytes)
    ensures |r| == (if IntLength(|s|) < 0 then 0 else IntLength(|s|)) && r == s[..|r|]
  {
    if IntLength(|s|) < 0 then [] else s[..IntLength(|s|)]
  }

  /** A number that takes `n` bytes, if the length of a buffer of `size` covers them. */
  function Covered(x: nat, n: nat, size: nat): Option<(nat, nat)> {
    if n <= IntLength(size) then Some((x, n)) else None
  }

  // ----- tags: seven bits a byte, the high bit says that more follow

  function TagBytes(tag: nat): (r: Bytes)
    ensures |r| >= 1
  {
    if tag < 128 then [tag] else [128 + tag % 128] + TagBytes(tag / 128)
  }

  /** The scan from byte `count` on, with `low` read so far and the next seven bits worth
      `scale` each: the number before it is cut to 32 bits, and how many bytes it took. */
  function ScanTag(s: Bytes, count: nat, low: nat, scale: nat): (r: Option<(nat, nat)>)
    requires count <= |s|
    ensures r.Some? ==> count < r.value.1 <= |s|
    decreases |s| - count
  {
    if count == |s| then None
    else if s[count] < 128 then Some((low + s[count] * scale, count + 1))
    else ScanTag(s, count + 1, low + (s[count] - 128) * scale, scale * 128)
  }

  function ReadTag(s: Bytes): (r: Option<(nat, nat)>)
    ensures r.Some? ==> r.value.0 < LIMIT && 1 <= r.value.1 <= |s|
  {
    match ScanTag(Seen(s), 0, 0, 1)
    case None => None
    case Some(v) => Some((v.0 % LIMIT, v.1))
  }

  /** More bytes than a 32-bit tag can have: the next one would be shifted out of its word. */
  predicate Overlong(s: Bytes) { |Seen(s)| > 5 && forall i :: 0 <= i < 5 ==> s[i] >= 128 }

  lemma Regroup(scale: nat, tag: nat)
    ensures tag % 128 * scale + scale * 128 * (tag / 128) == scale * tag
  {
    assert tag == tag % 128 + 128 * (tag / 128);
    assert scale * (128 * (tag / 128)) == scale * 128 * (tag / 128);
  }

  lemma {:induction false} ScanReadsTag(before: Bytes, tag: nat, rest: Bytes, low: nat, scale: nat)
    ensures ScanTag(before + TagBytes(tag) + rest, |before|, low, scale)
         == Some((low + scale * tag, |before| + |TagBytes(tag)|))
    decreases tag
  {
    var s := before + TagBytes(tag) + rest;
    assert s[|before|] == TagBytes(tag)[0];
    if tag >= 128 {
      var b := [128 + tag % 128];
      assert TagBytes(tag) == b + TagBytes(tag / 128);
      assert s == (before + b) + TagBytes(tag / 128) + rest;
      ScanReadsTag(before + b, tag / 128, rest, low + tag % 128 * scale, scale * 128);
      Regroup(scale, tag);
    }
  }

  /** A tag that is cut short is not read. */
  lemma {:induction false} ScanCut(before: Bytes, tag: nat, k: nat, low: nat, scale: nat)
    requires k < |TagBytes(tag)|
    ensures ScanTag(before + TagBytes(tag)[..k], |before|, low, scale) == None
    decreases tag
  {
    var s := before + TagBytes(tag)[..k];
    if k > 0 {
      var b := [128 + tag % 128];
      assert TagBytes(tag) == b + TagBytes(tag / 128);
      assert s == (before + b) + TagBytes(tag / 128)[..k - 1];
      ScanCut(before + b, tag / 128, k - 1, low + tag % 128 * scale, scale * 128);
    }
  }

  lemma {:induction false} TagLength(tag: nat, k: nat)
    requires 1 <= k && tag < Power128(k)
    ensures |TagBytes(tag)| <= k
    decreases k
  {
    if tag >= 128 { TagLength(tag / 128, k - 1); }
  }

  function Power128(k: nat): nat { if k == 0 then 1 else 128 * Power128(k - 1) }

  // ----- integers: nibbles, least significant first, after a nibble with their count less one

  function Nibbles(x: nat): seq<int> {
    if x == 0 then [] else [x % 16] + Nibbles(x / 16)
  }

  function FromNibbles(d: seq<int>): (x: int)
    ensures (forall i :: 0 <= i < |d| ==> d[i] >= 0) ==> x >= 0
  {
    if d == [] then 0 else d[0] + 16 * FromNibbles(d[1..])
  }

  lemma {:induction false} NibblesRange(x: nat)
    ensures forall i :: 0 <= i < |Nibbles(x)| ==> 0 <= Nibbles(x)[i] < 16
    ensures FromNibbles(Nibbles(x)) == x
    decreases x
  {
    if x != 0 {
      NibblesRange(x / 16);
      assert Nibbles(x)[1..] == Nibbles(x / 16);
    }
  }

  function Power16(k: nat): nat { if k == 0 then 1 else 16 * Power16(k - 1) }

  lemma {:induction false} NibblesCount(x: nat, k: nat)
    requires x < Power16(k)
    ensures |Nibbles(x)| <= k
    decreases k
  {
    if x != 0 && k > 0 { NibblesCount(x / 16, k - 1); }
  }

  /** A nibble of a byte string: even ones are high halves. */
  function Nibble(s: Bytes, k: int): int
    requires 0 <= k && k / 2 < |s|
  {
    if k % 2 == 0 then s[k / 2] / 16 else s[k / 2] % 16
  }

  /** Nibble `k` of an encoded integer: the count, the digits, then zero. */
  function Packed(d: seq<int>, k: int): int {
    if k == 0 then (if |d| == 0 then 0 else |d| - 1)
    else if 1 <= k <= |d| then d[k - 1] else 0
  }

  ghost predicate PacksInto(d: seq<int>, s: Bytes) {
    |s| == (|d| + 2) / 2 && forall k :: 0 <= k < 2 * |s| ==> Nibble(s, k) == Packed(d, k)
  }

  /** The digits found at nibbles `k .. n`. */
  function DigitsAt(s: Bytes, k: nat, n: nat): (d: seq<int>)
    requires n / 2 < |s|
    ensures forall i :: 0 <= i < |d| ==> d[i] >= 0
    decreases n - k
  {
    if k > n then [] else [Nibble(s, k)] + DigitsAt(s, k + 1, n)
  }

  /** The number, and how many bytes it took. */
  function ReadInt(s: Bytes): (r: Option<(nat, nat)>)
    ensures r.Some? ==> 1 <= r.value.1 <= |s|
  {
    if s == [] then None
    else
      var n := s[0] / 16 + 1;
      if n > 8 || n / 2 + 1 > IntLength(|s|) then None
      else Some((FromNibbles(DigitsAt(s, 1, n)), n / 2 + 1))
  }

  lemma {:induction false} DigitsArePacked(d: seq<int>, s: Bytes, rest: Bytes, k: nat)
    requires PacksInto(d, s) && 1 <= k && |d| >= 1
    ensures |d| / 2 < |s + rest|
    ensures DigitsAt(s + rest, k, |d|) == if k > |d| then [] else d[k - 1..]
    decreases |d| - k
  {
    if k <= |d| {
      DigitsArePacked(d, s, rest, k + 1);
      assert Nibble(s + rest, k) == Nibble(s, k) == d[k - 1];
      assert d[k - 1..] == [d[k - 1]] + d[k..];
    }
  }

  /** Whatever packs the digits of a 32-bit number reads back as that number, exactly when the
      length that is looked at covers it. */
  lemma {:induction false} IntRoundTrip(x: nat, s: Bytes, rest: Bytes)
    requires x < LIMIT && PacksInto(Nibbles(x), s)
    ensures ReadInt(s + rest) == Covered(x, |s|, |s + rest|)
  {
    hide IntLength; hide PacksInto; hide Nibbles; hide FromNibbles; hide DigitsAt;
    var d := Nibbles(x);
    Short(x);
    NibblesRange(x);
    HeadNibble(d, s, rest);
    if d == [] {
      ZeroNibble(d, s, rest);
    } else {
      DigitsArePacked(d, s, rest, 1);
      assert d[0..] == d;
    }
  }

  lemma HeadNibble(d: seq<int>, s: Bytes, rest: Bytes)
    requires PacksInto(d, s) && |d| <= 8
    ensures |s| == (|d| + 2) / 2 && s + rest != [] && (s + rest)[0] / 16 + 1 == if d == [] then 1 else |d|
  {
    assert Nibble(s, 0) == Packed(d, 0) && (s + rest)[0] == s[0];
  }

  lemma ZeroNibble(d: seq<int>, s: Bytes, rest: Bytes)
    requires PacksInto(d, s) && d == []
    ensures |s| == 1 && FromNibbles(DigitsAt(s + rest, 1, 1)) == FromNibbles(d)
  {
    assert Nibble(s, 1) == Packed(d, 1) == 0;
    assert DigitsAt(s + rest, 1, 1) == [Nibble(s + rest, 1)];
    assert [0][1..] == [];
  }

  function IntBytes(x: nat): (s: Bytes)
    requires x < LIMIT
  {
    var d := Nibbles(x);
    NibblesRange(x);
    assert Power16(8) == LIMIT;
    NibblesCount(x, 8);
    seq((|d| + 2) / 2, i requires 0 <= i < (|d| + 2) / 2 => 16 * Packed(d, 2 * i) + Packed(d, 2 * i + 1))
  }

  lemma IntBytesPacks(x: nat)
    requires x < LIMIT
    ensures PacksInto(Nibbles(x), IntBytes(x)) && |IntBytes(x)| >= 1
  {
    hide Nibbles; hide FromNibbles; hide Packed; hide Nibble; hide IntBytes;
    var d, s := Nibbles(x), IntBytes(x);
    IntBytesAre(x);
    NibblesRange(x);
    Short(x);
    forall k | 0 <= k < 2 * |s| ensures Nibble(s, k) == Packed(d, k) {
      var i := k / 2;
      PackedRange(d, 2 * i);
      PackedRange(d, 2 * i + 1);
      PairOfNibbles(s, i, Packed(d, 2 * i), Packed(d, 2 * i + 1));
      assert k == 2 * i || k == 2 * i + 1;
    }
  }

  lemma IntBytesAre(x: nat)
    requires x < LIMIT
    ensures var d, s := Nibbles(x), IntBytes(x);
            |s| == (|d| + 2) / 2 && forall i :: 0 <= i < |s| ==> s[i] == 16 * Packed(d, 2 * i) + Packed(d, 2 * i + 1)
  {
    hide Nibbles; hide Packed;
  }

  lemma PackedRange(d: seq<int>, k: nat)
    requires |d| <= 8 && forall i :: 0 <= i < |d| ==> 0 <= d[i] < 16
    ensures 0 <= Packed(d, k) < 16
  {}

  lemma PairOfNibbles(s: Bytes, i: nat, high: int, low: int)
    requires i < |s| && 0 <= low < 16 && s[i] == 16 * high + low
    ensures Nibble(s, 2 * i) == high && Nibble(s, 2 * i + 1) == low
  {}

  /** Only one string packs the digits. */
  lemma PackingIsUnique(d: seq<int>, s: Bytes, t: Bytes)
    requires PacksInto(d, s) && PacksInto(d, t)
    ensures s == t
  {
    forall i | 0 <= i < |s| ensures s[i] == t[i] {
      assert Nibble(s, 2 * i) == Nibble(t, 2 * i) && Nibble(s, 2 * i + 1) == Nibble(t, 2 * i + 1);
    }
  }

  // ----- the bytes themselves

  lemma {:induction false} PowersPositive(k: nat)
    ensures Power128(k) > 0 && Power16(k) > 0
  {
    if k > 0 { PowersPositive(k - 1); }
  }

  /** A tag: seven bits a byte, the low ones first, and the high bit set in every byte but the last. */
  lemma {:induction false} TagBytesAt(tag: nat, i: nat)
    requires i < |TagBytes(tag)|
    ensures Power128(i) > 0
    ensures TagBytes(tag)[i] == tag / Power128(i) % 128 + if i == |TagBytes(tag)| - 1 then 0 else 128
    decreases tag
  {
    hide Power128;
    PowersPositive(i);
    PowerSteps(i);
    if i > 0 {
      TagBytesAt(tag / 128, i - 1);
      PowersPositive(i - 1);
      Decimal.DivTwice(tag, 128, Power128(i - 1));
    }
  }

  lemma PowerSteps(i: nat)
    ensures Power128(0) == 1 && Power16(0) == 1
    ensures i > 0 ==> Power128(i) == 128 * Power128(i - 1) && Power16(i) == 16 * Power16(i - 1)
  {}

  /** The digits of a number: base 16, the low ones first, and no more than needed. */
  lemma {:induction false} NibblesAt(x: nat, i: nat)
    requires i < |Nibbles(x)|
    ensures Power16(i) > 0 && Nibbles(x)[i] == x / Power16(i) % 16
    decreases x
  {
    hide Power16;
    PowersPositive(i);
    PowerSteps(i);
    if i > 0 {
      NibblesAt(x / 16, i - 1);
      PowersPositive(i - 1);
      Decimal.DivTwice(x, 16, Power16(i - 1));
    }
  }

  lemma {:induction false} NibblesEnough(x: nat)
    ensures x < Power16(|Nibbles(x)|) && (x > 0 ==> x >= Power16(|Nibbles(x)| - 1))
    decreases x
  {
    if x > 0 { NibblesEnough(x / 16); }
  }

  /** A number: how many digits it has, less one, in the high half of the first byte; the digits in the
      halves after it, the high half of each byte first; and a zero half at the end if one is left. */
  lemma IntBytesAt(x: nat, i: nat)
    requires x < LIMIT && i < |IntBytes(x)|
    ensures var n, b := |Nibbles(x)|, IntBytes(x)[i];
            && |IntBytes(x)| == n / 2 + 1
            && (i == 0 ==> b / 16 == if n == 0 then 0 else n - 1)
            && (i > 0 ==> b / 16 == Nibbles(x)[2 * i - 1])
            && b % 16 == if 2 * i < n then Nibbles(x)[2 * i] else 0
  {
    hide Nibbles; hide IntBytes;
    IntBytesAre(x);
    NibblesRange(x);
    Short(x);
    PackedRange(Nibbles(x), 2 * i);
    PackedRange(Nibbles(x), 2 * i + 1);
  }

  /** Tag 300, the number 0x1234, and what is no number. */
  lemma WireExamples(s: Bytes)
    ensures TagBytes(300) == [172, 2]
    ensures IntBytes(0x1234) == [0x34, 0x32, 0x10]
    ensures s == [] || s[0] >= 128 ==> ReadInt(s) == None
  {
    assert Nibbles(0x1) == [1] && Nibbles(0x12) == [2, 1] && Nibbles(0x123) == [3, 2, 1];
    assert Nibbles(0x1234) == [4, 3, 2, 1];
    IntBytesAre(0x1234);
    var d := [4, 3, 2, 1];
    assert Packed(d, 0) == 3 && Packed(d, 1) == 4 && Packed(d, 2) == 3 && Packed(d, 3) == 2;
    assert Packed(d, 4) == 1 && Packed(d, 5) == 0;
  }

  // ----- records

  datatype Record = Record(tag: nat, payload: Bytes)

  predicate RecordOk(r: Record) { r.tag < LIMIT && |r.payload| < LIMIT }

  function RecordBytes(r: Record): Bytes
    requires RecordOk(r)
  {
    TagBytes(r.tag) + IntBytes(|r.payload|) + r.payload
  }

  function MessageBytes(rs: seq<Record>): Bytes
    requires forall i :: 0 <= i < |rs| ==> RecordOk(rs[i])
  {
    if rs == [] then [] else RecordBytes(rs[0]) + MessageBytes(rs[1..])
  }

  /** What `evtag_unmarshal` takes from the front: on failure the parts already read are gone. */
  datatype Taken = Taken(record: Option<Record>, rest: Bytes)

  /** Tag and length, and what is left after them; on failure the tag alone may be gone. */
  function TakeHeader(s: Bytes): (Option<(nat, nat)>, Bytes) {
    match ReadTag(s)
    case None => (None, s)
    case Some(tag) =>
      var s1 := s[tag.1..];
      match ReadInt(s1)
      case None => (None, s1)
      case Some(len) => (Some((tag.0, len.0)), s1[len.1..])
  }

  function Unmarshal(s: Bytes): Taken {
    var h := TakeHeader(s);
    match h.0
    case None => Taken(None, h.1)
    case Some(x) =>
      if |h.1| < x.1 then Taken(None, h.1) else Taken(Some(Record(x.0, h.1[..x.1])), h.1[x.1..])
  }

  /** What `evtag_consume` leaves, and whether it succeeds. */
  function Consume(s: Bytes): (bool, Bytes) {
    var h := TakeHeader(s);
    match h.0
    case None => (false, h.1)
    case Some(x) => (true, if x.1 >= |h.1| then [] else h.1[x.1..])
  }

  /** The length of the whole record, as `evtag_peek_length` reports it. */
  function PeekLength(s: Bytes): Option<int> {
    match ReadTag(s)
    case None => None
    case Some(tag) =>
      match ReadInt(s[tag.1..])
      case None => None
      case Some(len) => Some((len.0 + len.1 + tag.1) % LIMIT)
  }

  /** A record of this header is read from a buffer of this size: the lengths that are looked at,
      cut to an `int`, cover its tag and then its length. */
  predicate Legible(r: Record, size: nat)
    requires RecordOk(r)
  {
    var t, n := |TagBytes(r.tag)|, |IntBytes(|r.payload|)|;
    t <= size && t <= IntLength(size) && n <= IntLength(size - t)
  }

  /** So it is in every buffer below 2^31 bytes. */
  lemma SmallIsLegible(r: Record, rest: Bytes)
    requires RecordOk(r) && |RecordBytes(r) + rest| < LIMIT / 2
    ensures Legible(r, |RecordBytes(r) + rest|)
  {
    hide TagBytes; hide IntBytes;
  }

  lemma HeaderReadsBack(r: Record, rest: Bytes)
    requires RecordOk(r)
    ensures var s := RecordBytes(r) + rest;
            var t := TagBytes(r.tag);
            var n := IntBytes(|r.payload|);
            && ReadTag(s) == Covered(r.tag, |t|, |s|)
            && s[|t|..] == n + (r.payload + rest)
            && ReadInt(n + (r.payload + rest)) == Covered(|r.payload|, |n|, |s| - |t|)
  {
    hide TagBytes; hide IntBytes; hide ReadInt; hide ReadTag; hide PacksInto; hide Nibbles; hide IntLength;
    var t, n := TagBytes(r.tag), IntBytes(|r.payload|);
    var tail := n + (r.payload + rest);
    assert RecordBytes(r) + rest == t + tail;
    assert (t + tail)[|t|..] == tail;
    TagReadsBack(r.tag, tail);
    IntBytesPacks(|r.payload|);
    IntRoundTrip(|r.payload|, n, r.payload + rest);
  }

  lemma TagReadsBack(tag: nat, rest: Bytes)
    requires tag < LIMIT
    ensures var s := TagBytes(tag) + rest;
            ReadTag(s) == Covered(tag, |TagBytes(tag)|, |s|)
  {
    hide TagBytes; hide ScanTag; hide IntLength;
    var t, s := TagBytes(tag), TagBytes(tag) + rest;
    var k := |Seen(s)|;
    if |t| <= k {
      assert Seen(s) == [] + t + rest[..k - |t|];
      ScanReadsTag([], tag, rest[..k - |t|], 0, 1);
    } else {
      assert Seen(s) == [] + t[..k];
      ScanCut([], tag, k, 0, 1);
    }
  }

  /** No tag of 32 bits is overlong. */
  lemma TagNotOverlong(tag: nat, rest: Bytes)
    requires tag < LIMIT
    ensures |TagBytes(tag)| <= 5 && !Overlong(TagBytes(tag) + rest)
  {
    hide IntLength;
    assert Power128(4) == 0x1000_0000 && Power128(5) == 128 * Power128(4);
    TagLength(tag, 5);
    TagEnds(tag);
    var s := TagBytes(tag) + rest;
    assert s[|TagBytes(tag)| - 1] < 128;
  }

  lemma {:induction false} TagEnds(tag: nat)
    ensures TagBytes(tag)[|TagBytes(tag)| - 1] < 128
    decreases tag
  {
    if tag >= 128 { TagEnds(tag / 128); }
  }

  /** One record: exactly when its header is covered, unmarshalling returns it and exactly its bytes
      are gone; consuming leaves the same rest; the peeked length is the encoded length. */
  lemma RecordRoundTrip(r: Record, rest: Bytes)
    requires RecordOk(r)
    ensures var s := RecordBytes(r) + rest;
            if Legible(r, |s|) then
              && Unmarshal(s) == Taken(Some(r), rest) && Consume(s) == (true, rest)
              && PeekLength(s) == Some(|RecordBytes(r)| % LIMIT)
            else Unmarshal(s).record == None && !Consume(s).0 && PeekLength(s) == None
  {
    hide RecordBytes; hide ReadTag; hide ReadInt; hide IntLength;
    HeaderReadsBack(r, rest);
    RecordLength(r);
    var n := IntBytes(|r.payload|);
    assert (n + (r.payload + rest))[|n|..] == r.payload + rest;
    assert (r.payload + rest)[..|r.payload|] == r.payload;
    assert (r.payload + rest)[|r.payload|..] == rest;
  }

  /** From 2^31 bytes on, up to 2^32, nothing is read. */
  lemma LargeIsLost(r: Record, rest: Bytes)
    requires RecordOk(r) && LIMIT / 2 <= |RecordBytes(r) + rest| < LIMIT
    ensures Unmarshal(RecordBytes(r) + rest).record == None
  {
    hide RecordBytes; hide Unmarshal; hide Consume; hide PeekLength; hide TagBytes; hide IntBytes;
    RecordRoundTrip(r, rest);
  }

  /** What a failure leaves: everything when there is no tag, all but the tag when there is no length, and
      all but both when the payload is short. Consuming does not mind a short payload. */
  lemma FailureLeaves(s: Bytes)
    ensures ReadTag(s) == None ==> Unmarshal(s) == Taken(None, s) && Consume(s) == (false, s)
    ensures ReadTag(s).Some? ==>
              var rest := s[ReadTag(s).value.1..];
              var n := ReadInt(rest);
              && (n == None ==> Unmarshal(s) == Taken(None, rest) && Consume(s) == (false, rest))
              && (n.Some? && |rest| - n.value.1 < n.value.0 ==>
                    Unmarshal(s) == Taken(None, rest[n.value.1..]) && Consume(s) == (true, []))
  {
    hide ReadTag; hide ReadInt;
  }

  lemma RecordLength(r: Record)
    requires RecordOk(r)
    ensures |RecordBytes(r)| == |TagBytes(r.tag)| + |IntBytes(|r.payload|)| + |r.payload|
  {}

  function UnmarshalMany(s: Bytes, n: nat): (r: (seq<Record>, Bytes)) {
    if n == 0 then ([], s)
    else
      var t := Unmarshal(s);
      if t.record.None? then ([], t.rest)
      else
        var more := UnmarshalMany(t.rest, n - 1);
        ([t.record.value] + more.0, more.1)
  }

  /** Every record is read from what is left of the buffer when its turn comes. */
  ghost predicate AllLegible(rs: seq<Record>, rest: Bytes)
    requires forall i :: 0 <= i < |rs| ==> RecordOk(rs[i])
  {
    rs == [] || (Legible(rs[0], |MessageBytes(rs) + rest|) && AllLegible(rs[1..], rest))
  }

  /** Any sequence of records followed by anything at all comes back as it was, exactly when every
      header is covered. */
  lemma {:induction false} RecordsRoundTrip(rs: seq<Record>, rest: Bytes)
    requires forall i :: 0 <= i < |rs| ==> RecordOk(rs[i])
    ensures UnmarshalMany(MessageBytes(rs) + rest, |rs|) == (rs, rest) <==> AllLegible(rs, rest)
  {
    if rs == [] {
      assert MessageBytes(rs) + rest == rest;
    } else {
      var r, more := rs[0], rs[1..];
      var tail := MessageBytes(more) + rest;
      var s := RecordBytes(r) + tail;
      assert AllLegible(rs, rest) <==> Legible(r, |MessageBytes(rs) + rest|) && AllLegible(more, rest);
      hide *;
      assert rs == [r] + more;
      MessageCons(rs, rest);
      RecordRoundTrip(r, tail);
      RecordsRoundTrip(more, rest);
      if Legible(r, |s|) {
        UnmarshalStep(s, r, tail, more, rest);
      } else {
        UnmarshalStops(s, |rs|);
      }
    }
  }

  lemma UnmarshalStops(s: Bytes, n: nat)
    requires n > 0 && Unmarshal(s).record == None
    ensures UnmarshalMany(s, n).0 == []
  {}

  /** So it is for a buffer below 2^31 bytes in all. */
  lemma {:induction false} SmallRoundTrip(rs: seq<Record>, rest: Bytes)
    requires (forall i :: 0 <= i < |rs| ==> RecordOk(rs[i])) && |MessageBytes(rs) + rest| < LIMIT / 2
    ensures AllLegible(rs, rest) && UnmarshalMany(MessageBytes(rs) + rest, |rs|) == (rs, rest)
  {
    if rs != [] {
      hide RecordBytes; hide Legible; hide UnmarshalMany;
      MessageCons(rs, rest);
      SmallRoundTrip(rs[1..], rest);
      SmallIsLegible(rs[0], MessageBytes(rs[1..]) + rest);
    }
    RecordsRoundTrip(rs, rest);
  }

  lemma MessageCons(rs: seq<Record>, rest: Bytes)
    requires rs != [] && forall i :: 0 <= i < |rs| ==> RecordOk(rs[i])
    ensures MessageBytes(rs) + rest == RecordBytes(rs[0]) + (MessageBytes(rs[1..]) + rest)
  {
    hide RecordBytes;
  }

  lemma UnmarshalStep(s: Bytes, r: Record, tail: Bytes, more: seq<Record>, rest: Bytes)
    requires Unmarshal(s) == Taken(Some(r), tail)
    ensures UnmarshalMany(s, |more| + 1) == ([r] + more, rest) <==> UnmarshalMany(tail, |more|) == (more, rest)
  {
    hide Unmarshal;
    var found := UnmarshalMany(tail, |more|);
    assert ([r] + found.0)[1..] == found.0 && ([r] + more)[1..] == more;
  }

  // ----- the code

  method EncodeTag(tag: nat) returns (data: Bytes)
    requires tag < LIMIT
    ensures data == TagBytes(tag)
  {
    data := [];
    var t := tag;
    while true
      invariant data + TagBytes(t) == TagBytes(tag)
      decreases t
    {
      var lower: byte := t % 128;
      var more := t / 128;
      if more == 0 {
        data := data + [lower];
        break;
      }
      ghost var d := data;
      data := data + [128 + lower];
      assert d + TagBytes(t) == data + TagBytes(more);
      t := more;
    }
  }

  /** The scan for a tag; `wild` says that a byte was shifted by more than its word. */
  method DecodeTag(s: Bytes) returns (r: Option<(nat, nat)>, wild: bool)
    ensures r == ReadTag(s) && (wild <==> Overlong(s))
  {
    var len := IntLength(|s|);
    ghost var t := Seen(s);
    var number, scale, count := 0, 1, 0;
    wild := false;
    ghost var low := 0;
    while count < len
      invariant 0 <= count <= |t| && scale >= 1 && low >= 0 && number == low % LIMIT
      invariant wild <==> count > 5
      invariant forall i :: 0 <= i < count ==> s[i] >= 128
      invariant ScanTag(t, 0, 0, 1) == ScanTag(t, count, low, scale)
      decreases len - count
    {
      hide ScanTag; hide IntLength; hide LowBits; hide Overlong;
      var lower := s[count];
      ScanStep(t, count, low, scale);
      var digit: nat := LowBits(lower, scale);
      ModSum(low, digit);
      number := (number + digit) % LIMIT;
      low := low + digit;
      scale := scale * 128;
      count := count + 1;
      wild := wild || count > 5;
      if lower < 128 {
        return Some((number, count)), wild;
      }
    }
    return None, wild;
  }

  /** The seven low bits of a byte, at their place. */
  function LowBits(b: byte, scale: nat): nat { b % 128 * scale }

  /** One byte of the scan. */
  lemma ScanStep(s: Bytes, count: nat, low: nat, scale: nat)
    requires count < |s|
    ensures ScanTag(s, count, low, scale)
         == if s[count] < 128 then Some((low + LowBits(s[count], scale), count + 1))
            else ScanTag(s, count + 1, low + LowBits(s[count], scale), scale * 128)
  {}

  lemma ModSum(a: nat, b: nat)
    ensures (a % LIMIT + b) % LIMIT == (a + b) % LIMIT
  {
    assert a + b == a / LIMIT * LIMIT + (a % LIMIT + b);
  }

  /** The nibble loop of `encode_int`, over its five-byte scratch array. */
  method PackInt(x: nat) returns (s: Bytes)
    requires x < LIMIT
    ensures s == IntBytes(x)
  {
    hide Nibbles; hide Nibble; hide Packed; hide IntBytes; hide PacksInto;
    var data := new byte[5](_ => 0);
    ZeroNibbles(data[..]);
    ghost var d := Nibbles(x);
    Short(x);
    var off := PackDigits(data, x);
    PutNibble(data, 0, if off > 2 then off - 2 else 0);
    forall k | 0 <= k < 10 ensures Nibble(data[..], k) == Packed(d, k) { PackedIs(d, k); }
    s := data[..(off + 1) / 2];
    Trim(d, data[..], s);
    IntBytesPacks(x);
    PackingIsUnique(d, s, IntBytes(x));
  }

  /** A 32-bit number has at most eight digits. */
  lemma Short(x: nat)
    requires x < LIMIT
    ensures |Nibbles(x)| <= 8
  {
    hide Nibbles;
    assert Power16(8) == LIMIT;
    NibblesCount(x, 8);
  }

  /** The digits go to the nibbles from the second on. */
  method PackDigits(data: array<byte>, x: nat) returns (off: nat)
    requires data.Length == 5 && x < LIMIT && forall k :: 0 <= k < 10 ==> Nibble(data[..], k) == 0
    modifies data
    ensures off == |Nibbles(x)| + 1
    ensures forall k :: 0 <= k < 10 ==> Nibble(data[..], k) == if 1 <= k < off then Nibbles(x)[k - 1] else 0
  {
    hide Nibbles; hide Nibble;
    var number := x;
    off := 1;
    ghost var d := Nibbles(x);
    ghost var done: seq<int> := [];
    Short(x);
    assert done + Nibbles(number) == d;
    while number != 0
      invariant 0 <= number && off == |done| + 1 && done + Nibbles(number) == d
      invariant forall k :: 0 <= k < 10 ==> Nibble(data[..], k) == if 1 <= k < off then done[k - 1] else 0
      decreases number
    {
      FirstNibble(number);
      PutNibble(data, off, number % 16);
      done := done + [number % 16];
      assert done + Nibbles(number / 16) == d;
      number := number / 16;
      off := off + 1;
    }
    NoNibbles();
    assert done == d;
  }

  lemma PackedIs(d: seq<int>, k: int)
    ensures Packed(d, k) == if k == 0 then (if |d| > 1 then |d| - 1 else 0) else if 1 <= k <= |d| then d[k - 1] else 0
  {}

  lemma ZeroNibbles(s: Bytes)
    requires forall i :: 0 <= i < |s| ==> s[i] == 0
    ensures forall k :: 0 <= k < 2 * |s| ==> Nibble(s, k) == 0
  {}

  lemma NoNibbles()
    ensures Nibbles(0) == []
  {}

  lemma FirstNibble(x: nat)
    requires x != 0
    ensures Nibbles(x) == [x % 16] + Nibbles(x / 16)
  {}

  lemma Trim(d: seq<int>, data: Bytes, s: Bytes)
    requires |data| == 5 && |d| <= 8 && s == data[..(|d| + 2) / 2]
    requires forall k :: 0 <= k < 10 ==> Nibble(data, k) == Packed(d, k)
    ensures PacksInto(d, s)
  {
    forall k | 0 <= k < 2 * |s| ensures Nibble(s, k) == Packed(d, k) {
      assert Nibble(s, k) == Nibble(data, k);
    }
  }

  /** Set one half of a byte and keep the other. */
  method PutNibble(data: array<byte>, k: nat, v: int)
    requires k / 2 < data.Length && 0 <= v < 16
    modifies data
    ensures forall j :: 0 <= j < 2 * data.Length ==>
              Nibble(data[..], j) == if j == k then v else Nibble(old(data[..]), j)
  {
    ghost var was := data[..];
    if k % 2 == 1 {
      data[k / 2] := data[k / 2] / 16 * 16 + v;
    } else {
      data[k / 2] := data[k / 2] % 16 + v * 16;
    }
    forall j | 0 <= j < 2 * data.Length ensures Nibble(data[..], j) == if j == k then v else Nibble(was, j) {
      var i := j / 2;
      assert j == 2 * i || j == 2 * i + 1;
      assert k == 2 * (k / 2) || k == 2 * (k / 2) + 1;
    }
  }

  lemma NextDigit(s: Bytes, k: nat, n: nat)
    requires n / 2 < |s| && 0 < k <= n
    ensures FromNibbles(DigitsAt(s, k, n)) == Nibble(s, k) + 16 * FromNibbles(DigitsAt(s, k + 1, n))
    ensures Nibble(s, k) >= 0
  {
    assert DigitsAt(s, k, n)[1..] == DigitsAt(s, k + 1, n);
  }

  method DecodeInt(s: Bytes) returns (r: Option<(nat, nat)>)
    ensures r == ReadInt(s)
  {
    if s == [] { return None; }
    var nibbles := s[0] / 16 + 1;
    if nibbles > 8 || nibbles / 2 + 1 > IntLength(|s|) { return None; }
    var len: nat, number: nat, n: nat := nibbles / 2 + 1, 0, nibbles;
    while n > 0
      invariant 0 <= n <= nibbles && nibbles / 2 < |s|
      invariant number == FromNibbles(DigitsAt(s, n + 1, nibbles))
    {
      NextDigit(s, n, nibbles);
      number := number * 16 + Nibble(s, n);
      n := n - 1;
    }
    return Some((number, len));
  }

  // The buffers of distinct arguments never share storage.

  method Marshal(evbuf: Buffer, tag: nat, data: Bytes)
    requires evbuf.Valid() && RecordOk(Record(tag, data))
    modifies evbuf, evbuf.store
    ensures evbuf.Valid() && (evbuf.store == old(evbuf.store) || fresh(evbuf.store))
    ensures evbuf.Content() == old(evbuf.Content()) + RecordBytes(Record(tag, data))
  {
    hide TagBytes; hide IntBytes; hide Buffer.Content; hide Buffer.Valid;
    ghost var c := evbuf.Content();
    ghost var t, n := TagBytes(tag), IntBytes(|data|);
    AddHeader(evbuf, tag, |data|);
    var ok := evbuf.Add(data, true);
    assert c + (t + n) + data == c + (t + n + data);
  }

  /** Take a record off the front of a buffer; for `wild` see `DecodeTag`. */
  method UnmarshalRecord(src: Buffer, dst: Buffer) returns (ok: bool, tag: nat, wild: bool)
    requires src.Valid() && dst.Valid() && src != dst && src.store != dst.store
    modifies src`misalign, src`off, dst, dst.store
    ensures src.Valid() && dst.Valid()
    ensures var t := Unmarshal(old(src.Content()));
            && src.Content() == t.rest && (ok <==> t.record.Some?)
            && (ok ==> tag == t.record.value.tag && dst.Content() == old(dst.Content()) + t.record.value.payload)
            && (!ok ==> dst.Content() == old(dst.Content())) && (wild <==> Overlong(old(src.Content())))
  {
    hide TakeHeader; hide Buffer.Content; hide Buffer.Valid; hide Overlong;
    ok, tag := false, 0;
    var h;
    h, wild := DrainHeader(src);
    if h.None? { return; }
    var s := src.Data();
    var len := h.value.1;
    if |s| < len { return; }
    var _ := dst.Add(s[..len], true);
    src.Drain(len);
    ok, tag := true, h.value.0;
  }

  /** Read tag and length off the front of a buffer. */
  method DrainHeader(evbuf: Buffer) returns (h: Option<(nat, nat)>, wild: bool)
    requires evbuf.Valid()
    modifies evbuf`misalign, evbuf`off
    ensures evbuf.Valid() && h == TakeHeader(old(evbuf.Content())).0
            && evbuf.Content() == TakeHeader(old(evbuf.Content())).1 && (wild <==> Overlong(old(evbuf.Content())))
  {
    hide ReadTag; hide ReadInt; hide Buffer.Content; hide Buffer.Valid; hide Overlong;
    h := None;
    var s := evbuf.Data();
    var t;
    t, wild := DecodeTag(s);
    if t.None? { return; }
    evbuf.Drain(t.value.1);
    s := evbuf.Data();
    var n := DecodeInt(s);
    if n.None? { return; }
    evbuf.Drain(n.value.1);
    h := Some((t.value.0, n.value.0));
  }

  method ConsumeRecord(evbuf: Buffer) returns (ok: bool, wild: bool)
    requires evbuf.Valid()
    modifies evbuf`misalign, evbuf`off
    ensures evbuf.Valid() && (ok, evbuf.Content()) == Consume(old(evbuf.Content()))
    ensures wild <==> Overlong(old(evbuf.Content()))
  {
    hide TakeHeader; hide Buffer.Content; hide Buffer.Valid; hide Overlong;
    ok := false;
    var h;
    h, wild := DrainHeader(evbuf);
    if h.None? { return; }
    evbuf.Drain(h.value.1);
    ok := true;
  }

  /** An integer travels as a record whose payload is its own packed form. */
  method MarshalInt(evbuf: Buffer, scratch: Buffer, tag: nat, x: nat)
    requires evbuf.Valid() && scratch.Valid() && evbuf != scratch && evbuf.store != scratch.store
    requires tag < LIMIT && x < LIMIT
    modifies evbuf, evbuf.store, scratch, scratch.store
    ensures evbuf.Valid() && scratch.Valid() && scratch.Content() == []
    ensures |IntBytes(x)| < LIMIT && evbuf.Content() == old(evbuf.Content()) + RecordBytes(Record(tag, IntBytes(x)))
  {
    hide TagBytes; hide IntBytes; hide Buffer.Content; hide Buffer.Valid;
    ghost var c := evbuf.Content();
    IntBytesShort(x);
    EncodeIntAlone(scratch, x);
    var v := scratch.Data();
    ghost var t, n := TagBytes(tag), IntBytes(|v|);
    AddHeader(evbuf, tag, |v|);
    var ok := evbuf.AddBuffer(scratch, true);
    assert c + (t + n) + v == c + (t + n + v);
  }

  /** Empty the buffer and pack one integer into it. */
  method EncodeIntAlone(scratch: Buffer, x: nat)
    requires scratch.Valid() && x < LIMIT
    modifies scratch, scratch.store
    ensures scratch.Valid() && scratch.Content() == IntBytes(x)
    ensures scratch.store == old(scratch.store) || fresh(scratch.store)
  {
    hide IntBytes; hide Buffer.Content; hide Buffer.Valid;
    var before := scratch.Data();
    scratch.Drain(|before|);
    var v := PackInt(x);
    var ok := scratch.Add(v, true);
    assert [] + v == v;
  }

  method AddHeader(evbuf: Buffer, tag: nat, len: nat)
    requires evbuf.Valid() && tag < LIMIT && len < LIMIT
    modifies evbuf, evbuf.store
    ensures evbuf.Valid() && evbuf.Content() == old(evbuf.Content()) + (TagBytes(tag) + IntBytes(len))
    ensures evbuf.store == old(evbuf.store) || fresh(evbuf.store)
  {
    hide TagBytes; hide IntBytes; hide Buffer.Content; hide Buffer.Valid;
    ghost var c := evbuf.Content();
    var t := EncodeTag(tag);
    var ok := evbuf.Add(t, true);
    var n := PackInt(len);
    ok := evbuf.Add(n, true);
    assert c + t + n == c + (t + n);
  }

  lemma IntBytesShort(x: nat)
    requires x < LIMIT
    ensures 1 <= |IntBytes(x)| <= 5
  {
    assert Power16(8) == LIMIT;
    NibblesCount(x, 8);
  }

  /** What `evtag_unmarshal_int` reads: the wanted tag, then the number in the payload. */
  function UnmarshalInt(s: Bytes, wanted: nat): Option<nat> {
    var t := Unmarshal(s);
    if t.record.None? || t.record.value.tag != wanted then None
    else
      match ReadInt(t.record.value.payload)
      case None => None
      case Some(v) => Some(v.0)
  }

  /** An integer record is read back exactly when its header is covered. */
  lemma IntRecordRoundTrip(tag: nat, x: nat, rest: Bytes)
    requires tag < LIMIT && x < LIMIT
    ensures |IntBytes(x)| < LIMIT
    ensures var r := Record(tag, IntBytes(x));
            UnmarshalInt(RecordBytes(r) + rest, tag) == if Legible(r, |RecordBytes(r) + rest|) then Some(x) else None
  {
    hide RecordBytes; hide Unmarshal; hide IntBytes; hide ReadInt; hide Legible; hide Consume; hide PeekLength;
    IntBytesShort(x);
    RecordRoundTrip(Record(tag, IntBytes(x)), rest);
    IntBytesPacks(x);
    IntRoundTrip(x, IntBytes(x), []);
    assert IntBytes(x) + [] == IntBytes(x);
  }
}
