/** DNS names on the wire (section 4.1.4 of RFC 1035) as `evdns.c` writes and reads them:
    labels with a length byte, and compression pointers shared through a label table. */
module DnsName {
  import opened Octets

  const DOT: byte := 46
  const MAX_LABELS: int := 128
  const POINTER_LIMIT: int := 0x4000

  datatype Entry = Entry(name: Bytes, pos: int)

  // ----- encoding, as a function of the buffer and the table

  /** Position recorded for a name, or -1. */
  function GetPos(labels: seq<Entry>, name: Bytes): (pos: int) {
    if labels == [] then -1
    else if labels[0].name == name then labels[0].pos
    else GetPos(labels[1..], name)
  }

  function Remember(labels: seq<Entry>, name: Bytes, pos: int): seq<Entry> {
    if |labels| == MAX_LABELS then labels else labels + [Entry(name, pos)]
  }

  /** `strchr(name, '.')`, or the length when there is no dot. */
  function LabelLength(name: Bytes): (n: nat)
    ensures n <= |name| && DOT !in name[..n] && (n < |name| ==> name[n] == DOT)
  {
    if name == [] || name[0] == DOT then 0
    else
      var n := LabelLength(name[1..]);
      assert name[..n + 1] == [name[0]] + name[1..][..n];
      n + 1
  }

  /** The two bytes of `htons(ref | 0xc000)`. */
  function PointerBytes(pos: int): (r: Bytes)
    ensures |r| == 2
  {
    var low := pos % POINTER_LIMIT;
    [0xc0 + low / 256, low % 256]
  }

  /** What is returned, the buffer and the table; `wild` says that the closing zero went to the
      byte behind the buffer. */
  datatype Encoding = Encoding(ret: int, buf: Bytes, labels: seq<Entry>, wild: bool)

  /** The closing zero, written without a look at the room that is left. */
  function Close(b: Bytes, k: int, labels: seq<Entry>): Encoding
    requires 0 <= k
  {
    if k < |b| then Encoding(k + 1, b[k := 0], labels, false) else Encoding(k + 1, b, labels, true)
  }

  /** The writing loop: `compress` says whether a table was passed. */
  function Encode(buf: Bytes, bufLen: int, j: int, name: Bytes, compress: bool, labels: seq<Entry>): (e: Encoding)
    requires 0 <= j && 0 <= bufLen <= |buf|
    ensures |e.buf| == |buf|
    decreases |name|
  {
    if compress && GetPos(labels, name) >= 0 then
      if j + 2 > bufLen then Encoding(-2, buf, labels, false)
      else Encoding(j + 2, Put(buf, j, PointerBytes(GetPos(labels, name))), labels, false)
    else
      var n := LabelLength(name);
      if n > 63 then Encoding(-1, buf, labels, false)
      else if j + n + 1 > bufLen then Encoding(-2, buf, labels, false)
      else
        var more := if compress then Remember(labels, name, j) else labels;
        var b := Put(buf, j, [n] + name[..n]);
        var k := j + n + 1;
        if n < |name| then Encode(b, bufLen, k, name[n + 1..], compress, more)
        else if b[k - 1] != 0 then Close(b, k, more)
        else Encoding(k, b, more, false)
  }

  /** One turn of the writing loop, case by case. */
  lemma EncodeTurn(buf: Bytes, bufLen: int, j: int, name: Bytes, compress: bool, labels: seq<Entry>)
    requires 0 <= j && 0 <= bufLen <= |buf|
    ensures var e := Encode(buf, bufLen, j, name, compress, labels);
            var pos := GetPos(labels, name);
            var n := LabelLength(name);
            if compress && pos >= 0 then
              e == if j + 2 > bufLen then Encoding(-2, buf, labels, false)
                   else Encoding(j + 2, Put(buf, j, PointerBytes(pos)), labels, false)
            else if n > 63 then e == Encoding(-1, buf, labels, false)
            else if j + n + 1 > bufLen then e == Encoding(-2, buf, labels, false)
            else
              var more := if compress then Remember(labels, name, j) else labels;
              var b := Put(buf, j, [n] + name[..n]);
              var k := j + n + 1;
              e == if n < |name| then Encode(b, bufLen, k, name[n + 1..], compress, more)
                   else if b[k - 1] != 0 then Close(b, k, more) else Encoding(k, b, more, false)
  {}

  function EncodeName(buf: Bytes, bufLen: int, j: int, name: Bytes, compress: bool, labels: seq<Entry>): (e: Encoding)
    requires 0 <= j && 0 <= bufLen <= |buf|
    ensures |e.buf| == |buf|
  {
    if |name| > 255 then Encoding(-2, buf, labels, false)
    else Encode(buf, bufLen, j, name, compress, labels)
  }

  // ----- decoding, as a function of the packet

  /** The low six bits of one byte and all of the next. */
  function PointerTarget(high: int, low: int): int { high % 64 * 256 + low }

  function Dotted(out: Bytes): Bytes { if out == [] then [] else out + [DOT] }

  datatype Parsed = Malformed | Parsed(name: Bytes, next: int)

  /** The reading loop: `out` is the text so far, `nameEnd` the offset past the first pointer
      (or -1), `ptrs` the number of pointers followed. */
  function Parse(packet: Bytes, j: int, out: Bytes, nameEnd: int, ptrs: int, outLen: int): Parsed
    requires 0 <= j && 0 <= ptrs <= |packet|
    decreases |packet| - ptrs, |packet| - j
  {
    if j >= |packet| then Malformed
    else
      var n := packet[j];
      if n == 0 then
        if |out| >= outLen then Malformed else Parsed(out, if nameEnd < 0 then j + 1 else nameEnd)
      else if n >= 64 then
        if j + 1 >= |packet| then Malformed
        else
          var target := PointerTarget(n, packet[j + 1]);
          if target >= |packet| || ptrs + 1 > |packet| then Malformed
          else Parse(packet, target, out, if nameEnd < 0 then j + 2 else nameEnd, ptrs + 1, outLen)
      else if out != [] && |out| + 1 >= outLen then Malformed
      else
        var text := Dotted(out);
        if |text| + n >= outLen || j + 1 + n > |packet| then Malformed
        else Parse(packet, j + 1 + n, text + packet[j + 1..j + 1 + n], nameEnd, ptrs, outLen)
  }

  /** One turn of the reading loop over a label. */
  lemma ParseLabel(packet: Bytes, j: int, out: Bytes, nameEnd: int, ptrs: int, outLen: int)
    requires 0 <= j < |packet| && 0 <= ptrs <= |packet| && 0 < packet[j] < 64
    ensures var n := packet[j];
            Parse(packet, j, out, nameEnd, ptrs, outLen)
            == if (out != [] && |out| + 1 >= outLen) || |Dotted(out)| + n >= outLen || j + 1 + n > |packet|
               then Malformed
               else Parse(packet, j + 1 + n, Dotted(out) + packet[j + 1..j + 1 + n], nameEnd, ptrs, outLen)
  {}

  /** One turn of the reading loop over a pointer. */
  lemma ParsePointer(packet: Bytes, j: int, out: Bytes, nameEnd: int, ptrs: int, outLen: int)
    requires 0 <= j < |packet| && 0 <= ptrs <= |packet| && packet[j] >= 64
    ensures Parse(packet, j, out, nameEnd, ptrs, outLen)
            == if j + 1 >= |packet| || packet[j] as int % 64 * 256 + packet[j + 1] >= |packet| || ptrs + 1 > |packet|
               then Malformed
               else Parse(packet, packet[j] as int % 64 * 256 + packet[j + 1], out,
                    if nameEnd < 0 then j + 2 else nameEnd, ptrs + 1, outLen)
  {}

  /** The reading loop at its end. */
  lemma ParseStop(packet: Bytes, j: int, out: Bytes, nameEnd: int, ptrs: int, outLen: int)
    requires 0 <= j && 0 <= ptrs <= |packet| && (j >= |packet| || packet[j] == 0)
    ensures Parse(packet, j, out, nameEnd, ptrs, outLen)
            == if j >= |packet| || |out| >= outLen then Malformed
               else Parsed(out, if nameEnd < 0 then j + 1 else nameEnd)
  {}

  function ParseName(packet: Bytes, idx: nat, outLen: int): Parsed {
    Parse(packet, idx, [], -1, 0, outLen)
  }

  // ----- what an encoded name looks like

  /** The labels of a name; a final dot adds none. */
  function Split(name: Bytes): seq<Bytes>
    decreases |name|
  {
    if name == [] then []
    else
      var n := LabelLength(name);
      [name[..n]] + if n < |name| then Split(name[n + 1..]) else []
  }

  function Join(labels: seq<Bytes>): Bytes {
    if labels == [] then []
    else if |labels| == 1 then labels[0]
    else labels[0] + [DOT] + Join(labels[1..])
  }

  predicate LabelOk(lab: Bytes) { 1 <= |lab| <= 63 && 0 !in lab }

  predicate WellFormed(name: Bytes) {
    |name| <= 255 && forall l :: l in Split(name) ==> LabelOk(l)
  }

  /** `labels` are laid out from `pos`, every byte of the layout below `limit`. A pointer
      leads to a layout that lies wholly below the pointer itself. */
  ghost predicate LaidOut(b: Bytes, pos: int, labels: seq<Bytes>, limit: int)
    decreases limit, |labels|
  {
    && 0 <= pos < limit <= |b|
    && if b[pos] >= 0xc0 then
         pos + 2 <= limit && LaidOut(b, (b[pos] as int - 0xc0) * 256 + b[pos + 1], labels, pos)
       else if labels == [] then
         b[pos] == 0
       else
         var n := |labels[0]|;
         && LabelOk(labels[0]) && b[pos] == n
         && pos + 1 + n < limit && b[pos + 1..pos + 1 + n] == labels[0]
         && LaidOut(b, pos + 1 + n, labels[1..], limit)
  }

  /** Offset just past the part of the layout that stands at `pos`. */
  ghost function After(b: Bytes, pos: int, labels: seq<Bytes>, limit: int): int
    requires LaidOut(b, pos, labels, limit)
    decreases |labels|
  {
    if b[pos] >= 0xc0 then pos + 2
    else if labels == [] then pos + 1
    else After(b, pos + 1 + |labels[0]|, labels[1..], limit)
  }

  // ----- layouts survive later writes

  lemma SliceBelow(b: Bytes, c: Bytes, limit: int, from: int, to: int)
    requires 0 <= from <= to <= limit <= |b| && limit <= |c| && b[..limit] == c[..limit]
    ensures b[from..to] == c[from..to]
  {
    assert b[from..to] == b[..limit][from..to];
    assert c[from..to] == c[..limit][from..to];
  }

  lemma {:induction false} LaidOutFrame(b: Bytes, c: Bytes, pos: int, labels: seq<Bytes>, limit: int, wider: int)
    requires LaidOut(b, pos, labels, limit) && limit <= wider <= |c| && b[..limit] == c[..limit]
    ensures LaidOut(c, pos, labels, wider)
    ensures After(c, pos, labels, wider) == After(b, pos, labels, limit)
    decreases limit, |labels|
  {
    assert b[pos] == b[..limit][pos] == c[pos];
    if b[pos] >= 0xc0 {
      assert b[pos + 1] == b[..limit][pos + 1] == c[pos + 1];
      SliceBelow(b, c, limit, 0, pos);
      LaidOutFrame(b, c, (b[pos] as int - 0xc0) * 256 + b[pos + 1], labels, pos, pos);
    } else if labels != [] {
      var n := |labels[0]|;
      SliceBelow(b, c, limit, pos + 1, pos + 1 + n);
      LaidOutFrame(b, c, pos + 1 + n, labels[1..], limit, wider);
    }
  }

  // ----- the encoder lays names out

  /** Every entry's name stands at its position, below `limit`. */
  ghost predicate Settled(b: Bytes, e: Entry, limit: int) {
    e.pos < POINTER_LIMIT && LaidOut(b, e.pos, Split(e.name), limit)
  }

  ghost predicate TableOk(b: Bytes, labels: seq<Entry>, limit: int) {
    forall i :: 0 <= i < |labels| ==> Settled(b, labels[i], limit)
  }

  lemma {:induction false} GetPosFinds(labels: seq<Entry>, name: Bytes) returns (i: int)
    requires GetPos(labels, name) >= 0
    ensures 0 <= i < |labels| && labels[i].name == name && labels[i].pos == GetPos(labels, name)
  {
    if labels[0].name == name {
      i := 0;
    } else {
      i := GetPosFinds(labels[1..], name);
      i := i + 1;
    }
  }

  /** A pointer on the wire: two set bits, then fourteen bits of the offset, the high ones first. */
  lemma PointerBytesAre(pos: int)
    requires 0 <= pos < 0x4000
    ensures PointerBytes(pos) == [0xc0 + pos / 256, pos % 256]
  {
    assert pos % POINTER_LIMIT == pos;
  }

  /** A name that is in the table is written as such a pointer, and nothing else changes. */
  lemma PointerWritten(buf: Bytes, bufLen: int, j: int, name: Bytes, labels: seq<Entry>)
    requires 0 <= j && j + 2 <= bufLen <= |buf| && 0 <= GetPos(labels, name) < 0x4000
    ensures var e, pos := Encode(buf, bufLen, j, name, true, labels), GetPos(labels, name);
            && e.ret == j + 2 && e.labels == labels && !e.wild
            && e.buf[j] == 0xc0 + pos / 256 && e.buf[j + 1] == pos % 256
            && e.buf[..j] == buf[..j] && e.buf[j + 2..] == buf[j + 2..]
  {
    hide Put; hide PointerBytes; hide GetPos;
    var e := Encode(buf, bufLen, j, name, true, labels);
    PointerBytesAre(GetPos(labels, name));
    assert e.buf[j] == e.buf[j..j + 2][0] && e.buf[j + 1] == e.buf[j..j + 2][1];
  }

  /** From any point of the writing loop: entries are settled below the start of the name,
      or belong to a longer tail of the name being written. */
  ghost predicate Pending(b: Bytes, labels: seq<Entry>, start: int, name: Bytes) {
    forall i :: 0 <= i < |labels| ==> Settled(b, labels[i], start) || |labels[i].name| > |name|
  }

  lemma PendingFrame(b: Bytes, c: Bytes, labels: seq<Entry>, start: int, name: Bytes, rest: Bytes)
    requires Pending(b, labels, start, name) && |rest| < |name|
    requires 0 <= start <= |b| && start <= |c| && b[..start] == c[..start]
    ensures Pending(c, labels, start, rest)
  {
    forall i | 0 <= i < |labels| && |labels[i].name| <= |rest| ensures Settled(c, labels[i], start) {
      assert Settled(b, labels[i], start);
      LaidOutFrame(b, c, labels[i].pos, Split(labels[i].name), start, start);
    }
  }

  /** The pointer case. */
  lemma {:induction false} PointerLaidOut(buf: Bytes, bufLen: int, j: int, name: Bytes, labels: seq<Entry>, start: int)
    requires 0 <= start <= j && j + 2 <= bufLen <= |buf| && GetPos(labels, name) >= 0
    requires Pending(buf, labels, start, name)
    ensures var e := Encode(buf, bufLen, j, name, true, labels);
            && e.ret == j + 2 && !e.wild && LaidOut(e.buf, j, Split(name), e.ret)
               && After(e.buf, j, Split(name), e.ret) == e.ret
  {
    hide Encode; hide GetPos; hide LaidOut; hide After; hide Split;
    var e := Encode(buf, bufLen, j, name, true, labels);
    var i := GetPosFinds(labels, name);
    assert Settled(buf, labels[i], start);
    LaidOutInside(buf, labels[i].pos, Split(name), start);
    PointerWritten(buf, bufLen, j, name, labels);
    assert buf[..start] == buf[..j][..start] == e.buf[..start];
    LaidOutFrame(buf, e.buf, labels[i].pos, Split(name), start, j);
    PointerStands(e.buf, j, labels[i].pos, Split(name));
  }

  lemma PointerStands(b: Bytes, j: int, pos: int, labels: seq<Bytes>)
    requires 0 <= j && j + 2 <= |b| && LaidOut(b, pos, labels, j)
    requires 0 <= pos < 0x4000 && b[j] == 0xc0 + pos / 256 && b[j + 1] == pos % 256
    ensures LaidOut(b, j, labels, j + 2) && After(b, j, labels, j + 2) == j + 2
  {}

  /** One label standing in front of a layout. */
  lemma LabelInFront(b: Bytes, pos: int, lab: Bytes, rest: seq<Bytes>, limit: int)
    requires LabelOk(lab) && 0 <= pos && pos + 1 + |lab| < limit <= |b|
    requires b[pos..pos + 1 + |lab|] == [|lab|] + lab
    requires LaidOut(b, pos + 1 + |lab|, rest, limit)
    ensures LaidOut(b, pos, [lab] + rest, limit)
    ensures After(b, pos, [lab] + rest, limit) == After(b, pos + 1 + |lab|, rest, limit)
  {
    var n := |lab|;
    assert b[pos] == b[pos..pos + 1 + n][0] == n;
    assert b[pos + 1..pos + 1 + n] == b[pos..pos + 1 + n][1..] == lab;
    assert ([lab] + rest)[1..] == rest;
  }

  /** What one run of the writing loop leaves behind. */
  ghost predicate Written(buf: Bytes, j: int, name: Bytes, labels: seq<Entry>, e: Encoding) {
    && 0 <= j < e.ret <= |e.buf| == |buf| && e.buf[..j] == buf[..j]
    && LaidOut(e.buf, j, Split(name), e.ret) && After(e.buf, j, Split(name), e.ret) == e.ret
    && labels <= e.labels
    && TableOk(e.buf, e.labels[|labels|..], e.ret)
  }

  /** The heart of the encoder: whatever it returns without error stands in the buffer, and
      so does every name it put in the table. */
  lemma {:induction false} EncodeWrites(buf: Bytes, bufLen: int, j: int, name: Bytes,
                                        compress: bool, labels: seq<Entry>, start: int)
    requires 0 <= start <= j && 0 <= bufLen <= |buf| && bufLen < POINTER_LIMIT
    requires forall l :: l in Split(name) ==> LabelOk(l)
    requires compress ==> Pending(buf, labels, start, name)
    ensures var e := Encode(buf, bufLen, j, name, compress, labels);
            e.ret >= 0 && !e.wild ==> Written(buf, j, name, labels, e)
    decreases |name|
  {
    var e := Encode(buf, bufLen, j, name, compress, labels);
    if e.ret >= 0 && !e.wild {
      if compress && GetPos(labels, name) >= 0 {
        PointerLaidOut(buf, bufLen, j, name, labels, start);
      } else {
        var n := LabelLength(name);
        var more := if compress then Remember(labels, name, j) else labels;
        var b := Put(buf, j, [n] + name[..n]);
        var k := j + n + 1;
        if name == [] {
          assert b[j] == b[j..j + 1][0] == 0;
          assert e == Encoding(k, b, more, false);
        } else {
          assert Split(name)[0] == name[..n];
          assert LabelOk(name[..n]);
          EncodeAfterLabel(buf, bufLen, j, name, compress, labels, start, e);
        }
        NewEntrySettled(buf, j, name, labels, more, e);
      }
    }
  }

  function Rest(name: Bytes): Bytes {
    var n := LabelLength(name);
    if n < |name| then name[n + 1..] else []
  }

  lemma SplitFirst(name: Bytes)
    requires name != [] && forall l :: l in Split(name) ==> LabelOk(l)
    ensures Split(name) == [name[..LabelLength(name)]] + Split(Rest(name))
    ensures LabelOk(name[..LabelLength(name)])
    ensures forall l :: l in Split(Rest(name)) ==> LabelOk(l)
    ensures LabelLength(name) == |name| ==> Split(Rest(name)) == []
  {
    assert Split(name)[0] == name[..LabelLength(name)];
    assert Split(name) == [name[..LabelLength(name)]] + Split(Rest(name));
    forall l | l in Split(Rest(name)) ensures LabelOk(l) { assert l in Split(name); }
  }

  /** A label is followed by the rest of the name, or by the closing zero. */
  lemma {:induction false} EncodeAfterLabel(buf: Bytes, bufLen: int, j: int, name: Bytes,
                                            compress: bool, labels: seq<Entry>, start: int, e: Encoding)
    requires 0 <= start <= j && 0 <= bufLen <= |buf| && bufLen < POINTER_LIMIT && name != []
    requires forall l :: l in Split(name) ==> LabelOk(l)
    requires compress ==> Pending(buf, labels, start, name) && GetPos(labels, name) < 0
    requires e == Encode(buf, bufLen, j, name, compress, labels) && e.ret >= 0 && !e.wild
    ensures j < e.ret <= |e.buf| == |buf| && e.buf[..j] == buf[..j]
    ensures LaidOut(e.buf, j, Split(name), e.ret) && After(e.buf, j, Split(name), e.ret) == e.ret
    ensures var more := if compress then Remember(labels, name, j) else labels;
            more <= e.labels && TableOk(e.buf, e.labels[|more|..], e.ret)
    decreases |name|, 0
  {
    hide LaidOut; hide After; hide Pending; hide TableOk; hide Put; hide Split; hide LabelLength; hide Encode;
    hide Remember;
    hide Rest; hide LabelOk;
    var n := LabelLength(name);
    var more := if compress then Remember(labels, name, j) else labels;
    SplitFirst(name);
    if n < |name| {
      EncodeInner(buf, bufLen, j, name, compress, labels, start, e);
    } else {
      assert name[..n] == name;
      EncodeLast(buf, bufLen, j, name, compress, labels, e);
      EmptyTableOk(e.buf, e.labels[|more|..], e.ret);
    }
    LabelWritten(buf, j, name[..n], Split(Rest(name)), e.buf, e.ret);
  }

  lemma EmptyTableOk(b: Bytes, labels: seq<Entry>, limit: int)
    requires labels == []
    ensures TableOk(b, labels, limit)
  {}

  lemma {:induction false} EncodeInner(buf: Bytes, bufLen: int, j: int, name: Bytes,
                                       compress: bool, labels: seq<Entry>, start: int, e: Encoding)
    requires 0 <= start <= j && 0 <= bufLen <= |buf| && bufLen < POINTER_LIMIT && LabelLength(name) < |name|
    requires forall l :: l in Split(Rest(name)) ==> LabelOk(l)
    requires compress ==> Pending(buf, labels, start, name) && GetPos(labels, name) < 0
    requires e == Encode(buf, bufLen, j, name, compress, labels) && e.ret >= 0 && !e.wild
    ensures var n := LabelLength(name);
            && j + n + 1 <= bufLen
            && var more := if compress then Remember(labels, name, j) else labels;
               Written(Put(buf, j, [n] + name[..n]), j + n + 1, Rest(name), more, e)
    decreases |name|, -1
  {
    hide LaidOut; hide After; hide Pending; hide TableOk; hide Put; hide Split; hide LabelLength; hide Written;
    hide Encode; hide Remember; hide GetPos;
    EncodeTurn(buf, bufLen, j, name, compress, labels);
    var n := LabelLength(name);
    var more := if compress then Remember(labels, name, j) else labels;
    var b := Put(buf, j, [n] + name[..n]);
    if compress {
      assert buf[..start] == buf[..j][..start] == b[..start];
      PendingGrows(buf, b, labels, start, name, Rest(name), j);
    }
    EncodeWrites(b, bufLen, j + n + 1, Rest(name), compress, more, start);
  }

  lemma PendingGrows(b: Bytes, c: Bytes, labels: seq<Entry>, start: int, name: Bytes, rest: Bytes, j: int)
    requires Pending(b, labels, start, name) && |rest| < |name|
    requires 0 <= start <= |b| && start <= |c| && b[..start] == c[..start]
    ensures Pending(c, Remember(labels, name, j), start, rest)
  {
    PendingFrame(b, c, labels, start, name, rest);
  }

  lemma {:induction false} EncodeLast(buf: Bytes, bufLen: int, j: int, name: Bytes, compress: bool, labels: seq<Entry>,
                                      e: Encoding)
    requires 0 <= j && 0 <= bufLen <= |buf| && LabelLength(name) == |name| && LabelOk(name)
    requires compress ==> GetPos(labels, name) < 0
    requires e == Encode(buf, bufLen, j, name, compress, labels) && e.ret >= 0 && !e.wild
    ensures var n := |name|;
            && j + n + 1 <= bufLen && e.ret == j + n + 2 <= |e.buf| == |buf|
            && e.buf[..j + n + 1] == Put(buf, j, [n] + name)[..j + n + 1]
            && LaidOut(e.buf, j + n + 1, [], e.ret) && After(e.buf, j + n + 1, [], e.ret) == e.ret
            && e.labels == if compress then Remember(labels, name, j) else labels
  {
    hide LaidOut; hide After; hide Put; hide Encode; hide GetPos; hide Remember; hide LabelLength;
    EncodeTurn(buf, bufLen, j, name, compress, labels);
    var n := |name|;
    var k := j + n + 1;
    assert name[..n] == name;
    var b := Put(buf, j, [n] + name);
    assert b[k - 1] == b[j..k][n] == ([n] + name)[n];
    assert name[n - 1] in name;
    assert e.buf == b[k := 0];
    ZeroStands(e.buf, k);
  }

  lemma ZeroStands(b: Bytes, k: int)
    requires 0 <= k < |b| && b[k] == 0
    ensures LaidOut(b, k, [], k + 1) && After(b, k, [], k + 1) == k + 1
  {}

  lemma LabelWritten(buf: Bytes, j: int, lab: Bytes, rest: seq<Bytes>, c: Bytes, limit: int)
    requires LabelOk(lab) && 0 <= j && j + 1 + |lab| < limit <= |c| == |buf|
    requires c[..j + 1 + |lab|] == Put(buf, j, [|lab|] + lab)[..j + 1 + |lab|]
    requires LaidOut(c, j + 1 + |lab|, rest, limit)
    ensures c[..j] == buf[..j]
    ensures LaidOut(c, j, [lab] + rest, limit)
    ensures After(c, j, [lab] + rest, limit) == After(c, j + 1 + |lab|, rest, limit)
  {
    var b := Put(buf, j, [|lab|] + lab);
    var k := j + 1 + |lab|;
    assert c[j..k] == c[..k][j..] == b[..k][j..] == b[j..k];
    assert c[..j] == c[..k][..j] == b[..k][..j] == b[..j];
    LabelInFront(c, j, lab, rest, limit);
  }

  lemma NewEntrySettled(buf: Bytes, j: int, name: Bytes, labels: seq<Entry>, more: seq<Entry>, e: Encoding)
    requires more == labels || more == Remember(labels, name, j)
    requires 0 <= j < POINTER_LIMIT && more <= e.labels
    requires LaidOut(e.buf, j, Split(name), e.ret)
    requires TableOk(e.buf, e.labels[|more|..], e.ret)
    ensures labels <= e.labels && TableOk(e.buf, e.labels[|labels|..], e.ret)
  {
    hide LaidOut; hide Split;
    forall i | 0 <= i < |e.labels[|labels|..]| ensures Settled(e.buf, e.labels[|labels|..][i], e.ret) {
      var at := i + |labels|;
      if at >= |more| {
        assert e.labels[at] == e.labels[|more|..][at - |more|];
      } else {
        assert e.labels[at] == more[at] == Entry(name, j);
      }
    }
  }

  /** One name through a shared table: it stands where it was written, earlier bytes are
      untouched, and every table entry, old and new, still stands. */
  lemma EncodeNameKeepsTable(buf: Bytes, bufLen: int, j: int, name: Bytes, compress: bool, labels: seq<Entry>)
    requires 0 <= j && 0 <= bufLen <= |buf| && bufLen < POINTER_LIMIT && j <= |buf|
    requires WellFormed(name) && TableOk(buf, labels, j)
    ensures var e := EncodeName(buf, bufLen, j, name, compress, labels);
            e.ret >= 0 && !e.wild ==> Written(buf, j, name, labels, e) && TableOk(e.buf, e.labels, e.ret)
  {
    var e := EncodeName(buf, bufLen, j, name, compress, labels);
    if e.ret >= 0 && !e.wild {
      EncodeWrites(buf, bufLen, j, name, compress, labels, j);
      forall i | 0 <= i < |e.labels| ensures Settled(e.buf, e.labels[i], e.ret) {
        if i < |labels| {
          assert e.labels[i] == labels[i] && Settled(buf, labels[i], j);
          LaidOutFrame(buf, e.buf, labels[i].pos, Split(labels[i].name), j, e.ret);
        } else {
          assert e.labels[i] == e.labels[|labels|..][i - |labels|];
        }
      }
    }
  }

  // ----- how much room a name takes

  /** Where the first tail of the name starts that is in the table, or -1. */
  function FoundAt(compress: bool, labels: seq<Entry>, name: Bytes): (p: int)
    ensures -1 <= p <= |name|
    decreases |name|
  {
    var n := LabelLength(name);
    if compress && GetPos(labels, name) >= 0 then 0
    else if n == |name| then -1
    else
      var r := FoundAt(compress, labels, name[n + 1..]);
      if r < 0 then -1 else n + 1 + r
  }

  /** The labels that are written out are short enough. */
  predicate LabelsFit(compress: bool, labels: seq<Entry>, name: Bytes)
    decreases |name|
  {
    var n := LabelLength(name);
    (compress && GetPos(labels, name) >= 0) || (n <= 63 && (n == |name| || LabelsFit(compress, labels, name[n + 1..])))
  }

  /** The room that is asked for: labels and a pointer, or labels alone. */
  function Checked(compress: bool, labels: seq<Entry>, name: Bytes): nat {
    var p := FoundAt(compress, labels, name);
    if p >= 0 then p + 2 else |name| + 1
  }

  /** A closing zero comes on top of that: nothing is in the table and the name has no final dot. */
  predicate Closes(compress: bool, labels: seq<Entry>, name: Bytes) {
    FoundAt(compress, labels, name) < 0 && name != [] && name[|name| - 1] != DOT
  }

  /** A new entry is longer than the tails still to come, so it is not found again. */
  lemma {:induction false} NotFoundAgain(compress: bool, labels: seq<Entry>, name: Bytes, pos: int, rest: Bytes)
    requires |rest| < |name|
    ensures FoundAt(compress, Remember(labels, name, pos), rest) == FoundAt(compress, labels, rest)
    ensures LabelsFit(compress, Remember(labels, name, pos), rest) == LabelsFit(compress, labels, rest)
    decreases |rest|
  {
    hide GetPos; hide LabelLength; hide Remember;
    OthersStay(labels, name, pos, rest);
    var n := LabelLength(rest);
    if n < |rest| { NotFoundAgain(compress, labels, name, pos, rest[n + 1..]); }
  }

  lemma {:induction false} OthersStay(labels: seq<Entry>, name: Bytes, pos: int, other: Bytes)
    requires other != name
    ensures GetPos(Remember(labels, name, pos), other) == GetPos(labels, other)
  {
    AppendStays(labels, Entry(name, pos), other);
  }

  lemma {:induction false} AppendStays(labels: seq<Entry>, e: Entry, other: Bytes)
    requires other != e.name
    ensures GetPos(labels + [e], other) == GetPos(labels, other)
  {
    if labels == [] {
      assert labels + [e] == [e] && [e][1..] == [];
    } else {
      AppendStays(labels[1..], e, other);
      assert (labels + [e])[1..] == labels[1..] + [e];
    }
  }

  /** How the measures of a name follow from those of the rest behind its first label. */
  lemma {:induction false} MeasureTurn(compress: bool, labels: seq<Entry>, name: Bytes)
    ensures var n := LabelLength(name);
            if compress && GetPos(labels, name) >= 0 then
              LabelsFit(compress, labels, name) && Checked(compress, labels, name) == 2
                && !Closes(compress, labels, name)
            else if n == |name| then
              && (LabelsFit(compress, labels, name) <==> n <= 63)
              && Checked(compress, labels, name) == n + 1
              && (Closes(compress, labels, name) <==> name != [] && name[n - 1] != DOT)
            else
              var rest := name[n + 1..];
              && (LabelsFit(compress, labels, name) <==> n <= 63 && LabelsFit(compress, labels, rest))
              && Checked(compress, labels, name) == n + 1 + Checked(compress, labels, rest)
              && (Closes(compress, labels, name) <==> Closes(compress, labels, rest))
  {
    hide GetPos; hide LabelLength;
    var n := LabelLength(name);
    if n < |name| {
      var rest := name[n + 1..];
      assert rest != [] ==> rest[|rest| - 1] == name[|name| - 1];
    }
  }

  lemma SameMeasures(compress: bool, more: seq<Entry>, labels: seq<Entry>, name: Bytes)
    requires FoundAt(compress, more, name) == FoundAt(compress, labels, name)
    ensures Checked(compress, more, name) == Checked(compress, labels, name)
    ensures Closes(compress, more, name) <==> Closes(compress, labels, name)
  {}

  /** What a call comes to, for every name, table and buffer: it succeeds exactly when the labels
      fit and the room asked for is there, and then returns the offset after that room and the
      closing zero. The zero goes behind the buffer exactly when that offset lies behind it. */
  lemma {:induction false} EncodeOutcome(buf: Bytes, bufLen: int, j: int, name: Bytes, compress: bool,
                                         labels: seq<Entry>)
    requires 0 <= j && 0 <= bufLen <= |buf| && 0 !in name
    ensures var e := Encode(buf, bufLen, j, name, compress, labels);
            var end := j + Checked(compress, labels, name);
            && (e.wild <==> e.ret > |buf|)
            && (e.ret >= 0 <==> LabelsFit(compress, labels, name) && end <= bufLen)
            && (e.ret < 0 && LabelsFit(compress, labels, name) ==> e.ret == -2)
            && (!LabelsFit(compress, labels, name) ==> e.ret == -1 || e.ret == -2)
            && (!LabelsFit(compress, labels, name) && j + |name| + 1 <= bufLen ==> e.ret == -1)
            && (e.ret >= 0 ==> e.ret == end + if Closes(compress, labels, name) then 1 else 0)
    decreases |name|
  {
    hide Encode; hide Put; hide GetPos; hide LabelLength; hide Remember; hide PointerBytes;
    hide LabelsFit; hide Checked; hide Closes; hide FoundAt;
    EncodeTurn(buf, bufLen, j, name, compress, labels);
    MeasureTurn(compress, labels, name);
    var n := LabelLength(name);
    if !(compress && GetPos(labels, name) >= 0) && n <= 63 && j + n + 1 <= bufLen {
      var more := if compress then Remember(labels, name, j) else labels;
      var b := Put(buf, j, [n] + name[..n]);
      if n < |name| {
        var rest := name[n + 1..];
        EncodeOutcome(b, bufLen, j + n + 1, rest, compress, more);
        if compress { NotFoundAgain(compress, labels, name, j, rest); }
        SameMeasures(compress, more, labels, rest);
      } else {
        LastByte(b, j, name);
      }
    }
  }

  /** The byte before the end is a byte of the last label, or the length of an empty one. */
  lemma LastByte(b: Bytes, j: int, name: Bytes)
    requires 0 <= j && j + |name| + 1 <= |b| && b[j..j + |name| + 1] == [|name|] + name[..|name|]
    requires 0 !in name && DOT !in name[..|name|] && |name| < 256
    ensures b[j + |name|] != 0 <==> name != []
    ensures name != [] ==> name[|name| - 1] != DOT
  {
    var k := j + |name| + 1;
    assert b[k - 1] == b[j..k][|name|];
    if name != [] { assert name[|name| - 1] in name[..|name|] && name[|name| - 1] in name; }
  }

  /** The closing zero is written behind the room that was announced exactly when that room is used
      up by the labels of a name without a final dot, none of whose tails is in the table. Nothing
      is ever written further out. */
  lemma ZeroBeyond(buf: Bytes, bufLen: int, j: int, name: Bytes, compress: bool, labels: seq<Entry>)
    requires 0 <= j && 0 <= bufLen <= |buf| && 0 !in name
    ensures var e := EncodeName(buf, bufLen, j, name, compress, labels);
            && e.ret <= bufLen + 1
            && (e.ret > bufLen <==> |name| <= 255 && LabelsFit(compress, labels, name)
                                    && Closes(compress, labels, name) && j + |name| + 1 == bufLen)
            && (e.wild <==> e.ret > bufLen == |buf|)
  {
    hide Encode; hide LabelsFit; hide FoundAt;
    EncodeOutcome(buf, bufLen, j, name, compress, labels);
  }

  /** The smallest such call: one letter into two bytes. The zero lands behind an exact buffer, and
      on a foreign byte of a longer one. */
  lemma ZeroBeyondTwoBytes()
    ensures EncodeName([7, 7], 2, 0, [97], false, []) == Encoding(3, [1, 97], [], true)
    ensures EncodeName([7, 7, 7], 2, 0, [97], false, []) == Encoding(3, [1, 97, 0], [], false)
  {
    assert LabelLength([97]) == 1 by { assert [97][1..] == []; }
    assert [97][..1] == [97];
    assert Put([7, 7], 0, [1] + [97]) == [1, 97];
    assert Put([7, 7, 7], 0, [1] + [97]) == [1, 97, 7];
  }

  // ----- the decoder reads layouts back

  function Extend(out: Bytes, labels: seq<Bytes>): Bytes
    decreases |labels|
  {
    if labels == [] then out
    else Extend(Dotted(out) + labels[0], labels[1..])
  }

  lemma {:induction false} ExtendLength(out: Bytes, labels: seq<Bytes>)
    ensures |Extend(out, labels)| >= |out|
    decreases |labels|
  {
    if labels != [] { ExtendLength(Dotted(out) + labels[0], labels[1..]); }
  }

  lemma LowBits(b: byte)
    requires b >= 0xc0
    ensures b as int % 64 == b as int - 0xc0
  {}

  lemma ExtendStep(out: Bytes, labels: seq<Bytes>)
    requires labels != [] && labels[0] != []
    ensures Extend(out, labels) == Extend(Dotted(out) + labels[0], labels[1..])
    ensures |Extend(out, labels)| >= |Dotted(out)| + |labels[0]| && (out != [] ==> |Dotted(out)| == |out| + 1)
  {
    ExtendLength(Dotted(out) + labels[0], labels[1..]);
  }

  lemma PointerFollows(b: Bytes, pos: int, labels: seq<Bytes>, limit: int)
    requires LaidOut(b, pos, labels, limit) && b[pos] >= 0xc0
    ensures 0 <= pos && pos + 2 <= limit <= |b| && After(b, pos, labels, limit) == pos + 2
    ensures var target := (b[pos] as int - 0xc0) * 256 + b[pos + 1];
            target == b[pos] as int % 64 * 256 + b[pos + 1] && 0 <= target < pos && LaidOut(b, target, labels, pos)
  {
    LowBits(b[pos]);
  }

  lemma LabelFollows(b: Bytes, pos: int, labels: seq<Bytes>, limit: int)
    requires LaidOut(b, pos, labels, limit) && b[pos] < 0xc0 && labels != []
    ensures var n := |labels[0]|;
            && 0 < n < 64 && b[pos] == n && 0 <= pos && pos + 1 + n < limit <= |b|
            && b[pos + 1..pos + 1 + n] == labels[0] && LaidOut(b, pos + 1 + n, labels[1..], limit)
            && After(b, pos, labels, limit) == After(b, pos + 1 + n, labels[1..], limit)
  {}

  lemma EndFollows(b: Bytes, pos: int, limit: int)
    requires LaidOut(b, pos, [], limit) && b[pos] < 0xc0
    ensures 0 <= pos < limit <= |b| && b[pos] == 0 && After(b, pos, [], limit) == pos + 1
  {}

  lemma {:induction false} ParseAtPointer(packet: Bytes, j: int, labels: seq<Bytes>, limit: int, out: Bytes,
                                          nameEnd: int, ptrs: int, outLen: int)
    requires LaidOut(packet, j, labels, limit) && packet[j] >= 0xc0 && 0 <= ptrs && ptrs + limit <= |packet|
    ensures 0 <= j && j + 2 <= limit && After(packet, j, labels, limit) == j + 2
    ensures var target := (packet[j] as int - 0xc0) * 256 + packet[j + 1];
            && LaidOut(packet, target, labels, j) && 0 <= target && ptrs + 1 <= |packet|
            && Parse(packet, j, out, nameEnd, ptrs, outLen)
               == Parse(packet, target, out, if nameEnd < 0 then j + 2 else nameEnd, ptrs + 1, outLen)
  {
    hide *;
    LaidOutInside(packet, j, labels, limit);
    PointerFollows(packet, j, labels, limit);
    ParsePointer(packet, j, out, nameEnd, ptrs, outLen);
  }

  lemma {:induction false} ParseAtLabel(packet: Bytes, j: int, labels: seq<Bytes>, limit: int, out: Bytes,
                                        nameEnd: int, ptrs: int, outLen: int)
    requires LaidOut(packet, j, labels, limit) && packet[j] < 0xc0 && labels != [] && 0 <= ptrs <= |packet|
    ensures labels[0] != [] && 0 <= j && j + 1 + |labels[0]| < limit
    ensures LaidOut(packet, j + 1 + |labels[0]|, labels[1..], limit)
    ensures After(packet, j, labels, limit) == After(packet, j + 1 + |labels[0]|, labels[1..], limit)
    ensures Parse(packet, j, out, nameEnd, ptrs, outLen)
         == if |Dotted(out) + labels[0]| >= outLen then Malformed
            else Parse(packet, j + 1 + |labels[0]|, Dotted(out) + labels[0], nameEnd, ptrs, outLen)
  {
    hide *;
    LaidOutInside(packet, j, labels, limit);
    DottedLength(out);
    LabelFollows(packet, j, labels, limit);
    ParseLabel(packet, j, out, nameEnd, ptrs, outLen);
  }

  /** The reading loop follows a layout to its end; the pointer count never runs out because
      each pointer lies below the previous one. */
  lemma {:induction false} ParseLaidOut(packet: Bytes, j: int, labels: seq<Bytes>, limit: int,
                                        out: Bytes, nameEnd: int, ptrs: int, outLen: int)
    requires LaidOut(packet, j, labels, limit)
    requires 0 <= ptrs && ptrs + limit <= |packet|
    ensures Parse(packet, j, out, nameEnd, ptrs, outLen)
         == if |Extend(out, labels)| >= outLen then Malformed
            else Parsed(Extend(out, labels), if nameEnd < 0 then After(packet, j, labels, limit) else nameEnd)
    decreases limit, |labels|
  {
    hide *;
    LaidOutInside(packet, j, labels, limit);
    if packet[j] >= 0xc0 {
      ParseAtPointer(packet, j, labels, limit, out, nameEnd, ptrs, outLen);
      var target := (packet[j] as int - 0xc0) * 256 + packet[j + 1];
      ParseLaidOut(packet, target, labels, j, out, if nameEnd < 0 then j + 2 else nameEnd, ptrs + 1, outLen);
    } else if labels == [] {
      EndFollows(packet, j, limit);
      ParseStop(packet, j, out, nameEnd, ptrs, outLen);
      ExtendNone(out);
    } else {
      ParseAtLabel(packet, j, labels, limit, out, nameEnd, ptrs, outLen);
      var text := Dotted(out) + labels[0];
      ExtendStep(out, labels);
      ParseLaidOut(packet, j + 1 + |labels[0]|, labels[1..], limit, text, nameEnd, ptrs, outLen);
    }
  }

  lemma DottedLength(out: Bytes)
    ensures |Dotted(out)| == |out| + if out == [] then 0 else 1
  {}

  lemma ExtendNone(out: Bytes)
    ensures Extend(out, []) == out
  {}

  lemma Regroup(a: Bytes, b: Bytes, c: Bytes)
    ensures a + b + [DOT] + c == a + (b + [DOT] + c)
  {}

  lemma {:induction false} ExtendIsJoin(out: Bytes, labels: seq<Bytes>)
    requires forall l :: l in labels ==> l != []
    ensures Extend(out, labels) == if labels == [] then out else Dotted(out) + Join(labels)
    decreases |labels|
  {
    if labels != [] {
      var text := Dotted(out) + labels[0];
      var rest := labels[1..];
      assert labels[0] in labels && forall l :: l in rest ==> l in labels;
      ExtendIsJoin(text, rest);
      if rest != [] {
        Regroup(Dotted(out), labels[0], Join(rest));
      }
    }
  }

  function TrimDot(name: Bytes): Bytes {
    if name != [] && name[|name| - 1] == DOT then name[..|name| - 1] else name
  }

  /** Splitting at dots and joining again gives the name back, up to a final dot. */
  lemma {:induction false} JoinSplit(name: Bytes)
    ensures Join(Split(name)) == TrimDot(name)
    decreases |name|
  {
    hide TrimDot; hide LabelLength;
    var n := LabelLength(name);
    if n == |name| {
      JoinSplitEnd(name);
    } else {
      var rest := name[n + 1..];
      JoinSplit(rest);
      JoinSplitStep(name[..n], rest, name);
    }
  }

  lemma JoinSplitEnd(name: Bytes)
    requires LabelLength(name) == |name|
    ensures Join(Split(name)) == TrimDot(name)
  {
    assert name[..|name|] == name;
    if name != [] {
      assert Split(name) == [name];
      assert name[|name| - 1] in name[..|name|];
    }
  }

  lemma JoinSplitStep(lab: Bytes, rest: Bytes, name: Bytes)
    requires name == lab + [DOT] + rest && Join(Split(rest)) == TrimDot(rest)
    ensures Join([lab] + Split(rest)) == TrimDot(name)
  {
    if rest == [] {
      assert [lab] + Split(rest) == [lab];
      assert name == lab + [DOT];
    } else {
      assert Split(rest) != [];
      assert ([lab] + Split(rest))[1..] == Split(rest);
      assert name[|name| - 1] == rest[|rest| - 1];
    }
  }

  /** Only proper labels are laid out. */
  lemma {:induction false} LaidOutLabels(b: Bytes, pos: int, labels: seq<Bytes>, limit: int)
    requires LaidOut(b, pos, labels, limit)
    ensures forall l :: l in labels ==> LabelOk(l)
    decreases limit, |labels|
  {
    if b[pos] >= 0xc0 {
      LaidOutLabels(b, (b[pos] as int - 0xc0) * 256 + b[pos + 1], labels, pos);
    } else if labels != [] {
      LaidOutLabels(b, pos + 1 + |labels[0]|, labels[1..], limit);
      assert labels == [labels[0]] + labels[1..];
    }
  }

  /** Any name that stands in a packet decodes to itself, up to a final dot, and to the offset
      just past it, exactly when there is room for it and a closing zero. */
  lemma DecodeStanding(packet: Bytes, pos: int, name: Bytes, limit: int, outLen: int)
    requires LaidOut(packet, pos, Split(name), limit)
    ensures ParseName(packet, pos, outLen)
         == if |TrimDot(name)| >= outLen then Malformed
            else Parsed(TrimDot(name), After(packet, pos, Split(name), limit))
  {
    hide TrimDot; hide Split; hide LaidOut; hide After; hide Parse;
    LaidOutLabels(packet, pos, Split(name), limit);
    JoinSplit(name);
    ExtendIsJoin([], Split(name));
    LaidOutInside(packet, pos, Split(name), limit);
    ParseLaidOut(packet, pos, Split(name), limit, [], -1, 0, outLen);
  }

  lemma LaidOutInside(b: Bytes, pos: int, labels: seq<Bytes>, limit: int)
    requires LaidOut(b, pos, labels, limit)
    ensures 0 <= pos < limit <= |b| && (labels == [] ==> Join(labels) == [])
  {}

  // ----- a whole message

  /** Names written one after another through one table, from offset `j`. */
  function EncodeAll(buf: Bytes, bufLen: int, j: int, names: seq<Bytes>, labels: seq<Entry>): Encoding
    requires 0 <= j && 0 <= bufLen <= |buf|
    decreases |names|
  {
    if names == [] then Encoding(j, buf, labels, false)
    else
      var e := EncodeName(buf, bufLen, j, names[0], true, labels);
      if e.ret < 0 || e.wild then e
      else EncodeAll(e.buf, bufLen, e.ret, names[1..], e.labels)
  }

  /** Where each name of `EncodeAll` starts, and in the end where the last one stops. */
  function Offsets(buf: Bytes, bufLen: int, j: int, names: seq<Bytes>, labels: seq<Entry>): seq<int>
    requires 0 <= j && 0 <= bufLen <= |buf|
    decreases |names|
  {
    if names == [] then [j]
    else
      var e := EncodeName(buf, bufLen, j, names[0], true, labels);
      [j] + if e.ret < 0 || e.wild then [e.ret] else Offsets(e.buf, bufLen, e.ret, names[1..], e.labels)
  }

  /** A name never needs more than its length and two bytes. */
  lemma {:induction false} EncodeFits(buf: Bytes, bufLen: int, j: int, name: Bytes, compress: bool, labels: seq<Entry>)
    requires 0 <= j && j + |name| + 2 <= bufLen <= |buf|
    requires forall l :: l in Split(name) ==> LabelOk(l)
    ensures var e := Encode(buf, bufLen, j, name, compress, labels);
            0 <= e.ret <= j + |name| + 2 && !e.wild
    decreases |name|
  {
    hide Encode; hide Put; hide GetPos; hide LabelLength; hide Remember; hide Split;
    EncodeTurn(buf, bufLen, j, name, compress, labels);
    var n := LabelLength(name);
    if name != [] && !(compress && GetPos(labels, name) >= 0) {
      SplitFirst(name);
      if n < |name| {
        var more := if compress then Remember(labels, name, j) else labels;
        EncodeFits(Put(buf, j, [n] + name[..n]), bufLen, j + n + 1, Rest(name), compress, more);
      }
    }
  }

  function Room(names: seq<Bytes>): nat {
    if names == [] then 0 else |names[0]| + 2 + Room(names[1..])
  }

  /** With that much room for every name the whole message is written. */
  lemma {:induction false} MessageFits(buf: Bytes, bufLen: int, j: int, names: seq<Bytes>, labels: seq<Entry>)
    requires 0 <= j && j + Room(names) <= bufLen <= |buf|
    requires forall i :: 0 <= i < |names| ==> WellFormed(names[i])
    ensures 0 <= EncodeAll(buf, bufLen, j, names, labels).ret <= j + Room(names)
    ensures !EncodeAll(buf, bufLen, j, names, labels).wild
    decreases |names|
  {
    if names != [] {
      assert WellFormed(names[0]);
      EncodeFits(buf, bufLen, j, names[0], true, labels);
      var e := EncodeName(buf, bufLen, j, names[0], true, labels);
      MessageFits(e.buf, bufLen, e.ret, names[1..], e.labels);
    }
  }

  /** Each name decodes from its offset to itself and to the next offset. */
  ghost predicate AllDecode(packet: Bytes, names: seq<Bytes>, at: seq<int>, outLen: int) {
    && |at| == |names| + 1
    && forall i :: 0 <= i < |names| ==>
         at[i] >= 0 && ParseName(packet, at[i], outLen) == Parsed(TrimDot(names[i]), at[i + 1])
  }

  lemma AllDecodeCons(packet: Bytes, names: seq<Bytes>, j: int, later: seq<int>, outLen: int)
    requires names != [] && j >= 0 && AllDecode(packet, names[1..], later, outLen)
    requires ParseName(packet, j, outLen) == Parsed(TrimDot(names[0]), later[0])
    ensures AllDecode(packet, names, [j] + later, outLen)
  {
    var at := [j] + later;
    forall i | 0 <= i < |names|
      ensures at[i] >= 0 && ParseName(packet, at[i], outLen) == Parsed(TrimDot(names[i]), at[i + 1])
    {
      if i > 0 { assert names[i] == names[1..][i - 1]; }
    }
  }

  /** Every entry of the table decodes to its own name. */
  ghost predicate EntriesDecode(b: Bytes, labels: seq<Entry>, outLen: int) {
    forall i :: 0 <= i < |labels| && |TrimDot(labels[i].name)| < outLen ==>
      && labels[i].pos >= 0 && ParseName(b, labels[i].pos, outLen).Parsed?
      && ParseName(b, labels[i].pos, outLen).name == TrimDot(labels[i].name)
  }

  lemma TableDecodes(b: Bytes, labels: seq<Entry>, limit: int, outLen: int)
    requires TableOk(b, labels, limit)
    ensures EntriesDecode(b, labels, outLen)
  {
    hide LaidOut; hide Split; hide TrimDot; hide ParseName; hide After;
    forall i | 0 <= i < |labels| && |TrimDot(labels[i].name)| < outLen
      ensures labels[i].pos >= 0 && ParseName(b, labels[i].pos, outLen).Parsed?
      ensures ParseName(b, labels[i].pos, outLen).name == TrimDot(labels[i].name)
    {
      assert Settled(b, labels[i], limit);
      LaidOutInside(b, labels[i].pos, Split(labels[i].name), limit);
      DecodeStanding(b, labels[i].pos, labels[i].name, limit, outLen);
    }
  }

  /** The round trip: however many names share the table, each decodes from its own offset to
      itself, up to a final dot, and to the offset of the next; and every entry of the table, old
      or new, decodes to its own name at the end. */
  lemma {:induction false} MessageRoundTrip(buf: Bytes, bufLen: int, j: int, names: seq<Bytes>, labels: seq<Entry>,
                                            outLen: int)
    requires 0 <= j <= |buf| && 0 <= bufLen <= |buf| && bufLen < POINTER_LIMIT && TableOk(buf, labels, j)
    requires forall i :: 0 <= i < |names| ==> WellFormed(names[i]) && |TrimDot(names[i])| < outLen
    ensures var e := EncodeAll(buf, bufLen, j, names, labels);
            var at := Offsets(buf, bufLen, j, names, labels);
            e.ret >= 0 && !e.wild ==>
              && |e.buf| == |buf| && j <= e.ret <= |buf| && e.buf[..j] == buf[..j]
              && AllDecode(e.buf, names, at, outLen) && at[0] == j && at[|names|] == e.ret
              && labels <= e.labels && TableOk(e.buf, e.labels, e.ret) && EntriesDecode(e.buf, e.labels, outLen)
    decreases |names|
  {
    hide LaidOut; hide After; hide EncodeName; hide TableOk; hide ParseName; hide Split; hide WellFormed;
    hide AllDecode;
    hide TrimDot; hide EntriesDecode;
    var all := EncodeAll(buf, bufLen, j, names, labels);
    if names == [] {
      NoneDecode(buf, j, outLen);
      TableDecodes(buf, labels, j, outLen);
    } else if all.ret >= 0 && !all.wild {
      EncodeNameKeepsTable(buf, bufLen, j, names[0], true, labels);
      var e := EncodeName(buf, bufLen, j, names[0], true, labels);
      MessageRoundTrip(e.buf, bufLen, e.ret, names[1..], e.labels, outLen);
      SliceBelow(e.buf, all.buf, e.ret, 0, j);
      LaidOutFrame(e.buf, all.buf, j, Split(names[0]), e.ret, e.ret);
      DecodeStanding(all.buf, j, names[0], e.ret, outLen);
      AllDecodeCons(all.buf, names, j, Offsets(e.buf, bufLen, e.ret, names[1..], e.labels), outLen);
    }
  }

  lemma NoneDecode(buf: Bytes, j: int, outLen: int)
    ensures AllDecode(buf, [], [j], outLen)
  {}

  // ----- exactly the names that come back

  ghost predicate Labelled(name: Bytes) { forall l :: l in Split(name) ==> LabelOk(l) }

  /** The entries that a name or a tail of it could be found under are names with proper labels. */
  ghost predicate ProperUpTo(labels: seq<Entry>, n: nat) {
    forall i :: 0 <= i < |labels| && |labels[i].name| <= n ==> Labelled(labels[i].name)
  }

  lemma ProperGrows(labels: seq<Entry>, name: Bytes, pos: int, n: nat)
    requires ProperUpTo(labels, |name|) && n < |name|
    ensures ProperUpTo(Remember(labels, name, pos), n)
  {
    hide Labelled;
  }

  lemma FirstSplit(name: Bytes)
    requires name != [] && 0 !in name && LabelLength(name) <= 63
    ensures var n := LabelLength(name);
            && (n > 0 && n == |name| ==> Labelled(name))
            && (n > 0 && n < |name| && Labelled(name[n + 1..]) ==> Labelled(name))
  {
    var n := LabelLength(name);
    assert 0 !in name[..n];
  }

  /** A label without a letter is written as the zero that ends a name, and the reader stops there,
      before the end of what was written. */
  lemma {:induction false} EmptyLabelEnds(buf: Bytes, bufLen: int, j: int, name: Bytes, compress: bool,
                                          labels: seq<Entry>, out: Bytes, outLen: int)
    requires 0 <= j <= |buf| && 0 <= bufLen <= |buf| && 0 !in name && !Labelled(name)
    requires compress ==> ProperUpTo(labels, |name|)
    ensures var e := Encode(buf, bufLen, j, name, compress, labels);
            e.ret >= 0 ==>
              var p := Parse(e.buf, j, out, -1, 0, outLen);
              p.Malformed? || p.next < e.ret
    decreases |name|
  {
    hide Encode; hide Put; hide GetPos; hide LabelLength; hide Remember; hide PointerBytes; hide Parse; hide Labelled;
    var e := Encode(buf, bufLen, j, name, compress, labels);
    EncodeTurn(buf, bufLen, j, name, compress, labels);
    if compress && GetPos(labels, name) >= 0 {
      var i := GetPosFinds(labels, name);
      assert false;
    }
    var n := LabelLength(name);
    if e.ret >= 0 {
      NothingLabelled();
      FirstSplit(name);
      var b, k := Put(buf, j, [n] + name[..n]), j + n + 1;
      var rest := name[n + 1..];
      var more := if compress then Remember(labels, name, j) else labels;
      EncodeKeepsBefore(b, bufLen, k, rest, compress, more);
      FirstKept(e.buf, b, j, k, n);
      if n == 0 {
        ParseStop(e.buf, j, out, -1, 0, outLen);
        EncodeOutcome(b, bufLen, k, rest, compress, more);
      } else {
        if compress { ProperGrows(labels, name, j, |rest|); }
        ParseLabel(e.buf, j, out, -1, 0, outLen);
        EmptyLabelEnds(b, bufLen, k, rest, compress, more, Dotted(out) + e.buf[j + 1..k], outLen);
      }
    }
  }

  lemma FirstKept(c: Bytes, b: Bytes, j: int, k: int, n: byte)
    requires 0 <= j < k <= |b| == |c| && c[..k] == b[..k] && b[j..k] != [] && b[j..k][0] == n
    ensures c[j] == n
  {
    assert c[j] == c[..k][j] && b[j] == b[..k][j] && b[j..k][0] == b[j];
  }

  lemma NothingLabelled()
    ensures Labelled([])
  {}

  lemma TableProper(b: Bytes, labels: seq<Entry>, limit: int, n: nat)
    requires TableOk(b, labels, limit)
    ensures ProperUpTo(labels, n)
  {
    hide LaidOut; hide Split; hide LabelOk;
    forall i | 0 <= i < |labels| ensures Labelled(labels[i].name) {
      assert Settled(b, labels[i], limit);
      LaidOutLabels(b, labels[i].pos, Split(labels[i].name), limit);
    }
  }

  /** A name that was written, through any table that stands or without one, decodes to itself, up
      to a final dot, and to the offset past it, exactly when none of its labels is empty. */
  lemma DecodesExactly(buf: Bytes, bufLen: int, j: int, name: Bytes, compress: bool, labels: seq<Entry>, outLen: int)
    requires 0 <= j <= |buf| && 0 <= bufLen <= |buf| && bufLen < POINTER_LIMIT && TableOk(buf, labels, j)
    requires 0 !in name && |TrimDot(name)| < outLen
    ensures var e := EncodeName(buf, bufLen, j, name, compress, labels);
            e.ret >= 0 && !e.wild ==>
              (ParseName(e.buf, j, outLen) == Parsed(TrimDot(name), e.ret) <==> WellFormed(name))
  {
    hide Encode; hide LaidOut; hide After; hide TableOk; hide Split; hide TrimDot; hide Parse; hide Written;
    var e := EncodeName(buf, bufLen, j, name, compress, labels);
    if e.ret >= 0 && !e.wild {
      if WellFormed(name) {
        EncodeNameKeepsTable(buf, bufLen, j, name, compress, labels);
        WrittenDecodes(buf, j, name, labels, e, outLen);
      } else {
        TableProper(buf, labels, j, |name|);
        EmptyLabelEnds(buf, bufLen, j, name, compress, labels, [], outLen);
      }
    }
  }

  lemma WrittenDecodes(buf: Bytes, j: int, name: Bytes, labels: seq<Entry>, e: Encoding, outLen: int)
    requires Written(buf, j, name, labels, e) && |TrimDot(name)| < outLen
    ensures ParseName(e.buf, j, outLen) == Parsed(TrimDot(name), e.ret)
  {
    hide LaidOut; hide After; hide TableOk; hide Split; hide TrimDot; hide ParseName;
    DecodeStanding(e.buf, j, name, e.ret, outLen);
  }

  /** The smallest one with something on both sides: `a..b` reads back as `a`. */
  lemma TwoDotsLost()
    ensures EncodeName([7, 7, 7, 7, 7, 7], 6, 0, [97, DOT, DOT, 98], false, [])
         == Encoding(6, [1, 97, 0, 1, 98, 0], [], false)
    ensures ParseName([1, 97, 0, 1, 98, 0], 0, 256) == Parsed([97], 3)
  {
    assert [97] + [DOT, DOT, 98] == [97, DOT, DOT, 98] && [97, DOT, DOT, 98][2..] == [DOT, 98];
    FirstLabel();
    EmptyLabelWritten();
    TwoDotsRead();
    hide Encode; hide LabelLength; hide Put; hide Parse;
    OneLetter(97, [DOT, DOT, 98]);
    EncodeTurn([7, 7, 7, 7, 7, 7], 6, 0, [97, DOT, DOT, 98], false, []);
  }

  lemma TwoDotsRead()
    ensures ParseName([1, 97, 0, 1, 98, 0], 0, 256) == Parsed([97], 3)
  {
    hide Parse;
    var b := [1, 97, 0, 1, 98, 0];
    assert b[1..2] == [97] && [] + [97] == [97];
    ParseLabel(b, 0, [], -1, 0, 256);
    ParseStop(b, 2, [97], -1, 0, 256);
  }

  lemma FirstLabel()
    ensures Put([7, 7, 7, 7, 7, 7], 0, [1] + [97]) == [1, 97, 7, 7, 7, 7]
  {}

  lemma EmptyLabelWritten()
    ensures Encode([1, 97, 7, 7, 7, 7], 6, 2, [DOT, 98], false, []) == Encoding(6, [1, 97, 0, 1, 98, 0], [], false)
  {
    assert LabelLength([DOT, 98]) == 0 && [DOT, 98][1..] == [98] && [DOT, 98][..0] == [];
    assert Put([1, 97, 7, 7, 7, 7], 2, [0] + []) == [1, 97, 0, 7, 7, 7];
    hide Encode; hide Put; hide LabelLength;
    EncodeTurn([1, 97, 7, 7, 7, 7], 6, 2, [DOT, 98], false, []);
    LastLabelWritten();
  }

  lemma LastLabelWritten()
    ensures Encode([1, 97, 0, 7, 7, 7], 6, 3, [98], false, []) == Encoding(6, [1, 97, 0, 1, 98, 0], [], false)
  {
    OneLetter(98, []);
    assert [98] + [] == [98];
    assert Put([1, 97, 0, 7, 7, 7], 3, [1] + [98]) == [1, 97, 0, 1, 98, 7];
    hide Encode; hide Put; hide LabelLength;
    EncodeTurn([1, 97, 0, 7, 7, 7], 6, 3, [98], false, []);
  }

  lemma OneLetter(c: byte, rest: Bytes)
    requires c != DOT && (rest != [] ==> rest[0] == DOT)
    ensures LabelLength([c] + rest) == 1 && ([c] + rest)[..1] == [c]
  {
    assert ([c] + rest)[1..] == rest;
  }

  // ----- names on the wire

  /** `a.b`, and the same `a` through a pointer to offset 12, as a server's answer has it. */
  lemma WireNames()
    ensures ParseName([1, 97, 1, 98, 0], 0, 256) == Parsed([97, 46, 98], 5)
    ensures ParseName([0, 0, 0, 0, 0, 0, 0, 0, 0, 0, 0, 0, 1, 97, 0, 0xc0, 12], 15, 256) == Parsed([97], 17)
  {
    hide Parse;
    var a := [1, 97, 1, 98, 0];
    assert a[1..2] == [97] && a[3..4] == [98] && [] + [97] == [97] && [97] + [46] + [98] == [97, 46, 98];
    ParseLabel(a, 0, [], -1, 0, 256);
    ParseLabel(a, 2, [97], -1, 0, 256);
    ParseStop(a, 4, [97, 46, 98], -1, 0, 256);
    var b := [0, 0, 0, 0, 0, 0, 0, 0, 0, 0, 0, 0, 1, 97, 0, 0xc0, 12];
    assert b[13..14] == [97];
    ParsePointer(b, 15, [], -1, 0, 256);
    ParseLabel(b, 12, [], 17, 1, 256);
    ParseStop(b, 14, [97], 17, 1, 256);
  }

  // ----- the code

  ghost function Names(labels: seq<Entry>): set<Bytes> { set i | 0 <= i < |labels| :: labels[i].name }

  /** Entry `i` is the first one with the name. */
  predicate FirstAt(labels: seq<Entry>, name: Bytes, i: int) {
    0 <= i < |labels| && labels[i].name == name && forall j :: 0 <= j < i ==> labels[j].name != name
  }

  lemma {:induction false} GetPosMeans(labels: seq<Entry>, name: Bytes)
    ensures if name !in Names(labels) then GetPos(labels, name) == -1
            else exists i :: FirstAt(labels, name, i) && GetPos(labels, name) == labels[i].pos
  {
    if labels != [] {
      GetPosMeans(labels[1..], name);
      if labels[0].name == name {
        assert FirstAt(labels, name, 0);
      } else if name in Names(labels) {
        var k :| 0 <= k < |labels| && labels[k].name == name;
        assert labels[1..][k - 1].name == name;
        var i :| FirstAt(labels[1..], name, i) && GetPos(labels[1..], name) == labels[1..][i].pos;
        assert FirstAt(labels, name, i + 1);
      }
    }
  }

  class LabelTable {
    var labels: seq<Entry>

    constructor ()
      ensures labels == []
    {
      labels := [];
    }

    method Lookup(name: Bytes) returns (pos: int)
      ensures pos == GetPos(labels, name)
      ensures if name !in Names(labels) then pos == -1
              else exists i :: FirstAt(labels, name, i) && pos == labels[i].pos
    {
      var i := 0;
      while i < |labels|
        invariant 0 <= i <= |labels|
        invariant GetPos(labels, name) == GetPos(labels[i..], name)
      {
        if labels[i].name == name {
          GetPosMeans(labels, name);
          return labels[i].pos;
        }
        i := i + 1;
      }
      GetPosMeans(labels, name);
      return -1;
    }

    method Insert(name: Bytes, pos: int)
      modifies this
      ensures labels == Remember(old(labels), name, pos)
      ensures labels == if |old(labels)| == 128 then old(labels) else old(labels) + [Entry(name, pos)]
    {
      if |labels| != MAX_LABELS {
        labels := labels + [Entry(name, pos)];
      }
    }
  }

  ghost function View(table: LabelTable?): seq<Entry>
    reads table
  {
    if table == null then [] else table.labels
  }

  method FindDot(name: Bytes) returns (n: nat)
    ensures n == LabelLength(name)
  {
    n := 0;
    while n < |name| && name[n] != DOT
      invariant n <= |name| && LabelLength(name) == n + LabelLength(name[n..])
    {
      assert name[n..][1..] == name[n + 1..];
      n := n + 1;
    }
  }

  /** `dnsname_to_labels`. The closing zero is written without a check of its own: `wild` says
      that it went behind the buffer. */
  method DnsNameToLabels(buf: array<byte>, bufLen: int, start: int, text: Bytes, table: LabelTable?)
    returns (ret: int, wild: bool)
    requires 0 <= start && 0 <= bufLen <= buf.Length
    modifies buf, table
    ensures Encoding(ret, buf[..], View(table), wild)
         == EncodeName(old(buf[..]), bufLen, start, text, table != null, old(View(table)))
  {
    hide Put; hide GetPos; hide LabelLength; hide Remember; hide PointerBytes; hide Encode;
    if |text| > 255 { return -2, false; }
    var j, name := start, text;
    ghost var goal := Encode(buf[..], bufLen, start, text, table != null, View(table));
    while true
      invariant 0 <= j && (table == null ==> View(table) == [])
      invariant Encode(buf[..], bufLen, j, name, table != null, View(table)) == goal
      decreases |name|
    {
      EncodeTurn(buf[..], bufLen, j, name, table != null, View(table));
      if table != null {
        var pos := table.Lookup(name);
        if pos >= 0 {
          if j + 2 > bufLen { return -2, false; }
          Copy(buf, j, PointerBytes(pos));
          return j + 2, false;
        }
      }
      var n := FindDot(name);
      if n > 63 { return -1, false; }
      if j + n + 1 > bufLen { return -2, false; }
      if table != null { table.Insert(name, j); }
      Copy(buf, j, [n] + name[..n]);
      j := j + n + 1;
      if n == |name| { break; }
      name := name[n + 1..];
    }
    j, wild := CloseName(buf, j, View(table));
    return j, wild;
  }

  /** The closing zero, unless one is there already. */
  method CloseName(buf: array<byte>, j: int, ghost labels: seq<Entry>) returns (ret: int, wild: bool)
    requires 0 < j <= buf.Length
    modifies buf
    ensures Encoding(ret, buf[..], labels, wild)
         == if old(buf[j - 1]) != 0 then Close(old(buf[..]), j, labels) else Encoding(j, old(buf[..]), labels, false)
  {
    ret, wild := j, false;
    if buf[j - 1] != 0 {
      wild, ret := j == buf.Length, j + 1;
      if !wild {
        ghost var was := buf[..];
        buf[j] := 0;
        assert buf[..] == was[j := 0];
      }
    }
  }

  // ----- a query

  function Word16(x: nat): (r: Bytes)
    ensures |r| == 2
  {
    [x / 256 % 256, x % 256]
  }

  function Words16(xs: seq<nat>): (r: Bytes)
    ensures |r| == 2 * |xs|
  {
    if xs == [] then [] else Words16(xs[..|xs| - 1]) + Word16(xs[|xs| - 1])
  }

  /** The `APPEND16` macro, once for each number. */
  method Append16(buf: array<byte>, start: int, xs: seq<nat>) returns (j: int)
    requires 0 <= start
    modifies buf
    ensures j == if start + 2 * |xs| <= buf.Length || xs == [] then start + 2 * |xs| else -1
    ensures j >= 0 && start <= buf.Length ==> buf[..start] == old(buf[..start]) && buf[start..j] == Words16(xs)
  {
    hide Word16; hide Put;
    j := start;
    for i := 0 to |xs|
      invariant j == start + 2 * i && (i > 0 ==> j <= buf.Length)
      invariant start <= buf.Length ==>
                  j <= buf.Length && buf[..start] == old(buf[..start]) && buf[start..j] == Words16(xs[..i])
    {
      if j + 2 > buf.Length { return -1; }
      ghost var was := buf[..];
      Copy(buf, j, Word16(xs[i]));
      AppendedWord(was, buf[..], start, j, xs, i);
      j := j + 2;
    }
    assert xs[..|xs|] == xs;
  }

  lemma AppendedWord(was: Bytes, now: Bytes, start: int, j: int, xs: seq<nat>, i: nat)
    requires 0 <= start <= j && j + 2 <= |was| && i < |xs| && now == Put(was, j, Word16(xs[i]))
    requires was[start..j] == Words16(xs[..i])
    ensures now[..start] == was[..start] && now[start..j + 2] == Words16(xs[..i + 1])
  {
    hide Word16;
    assert xs[..i + 1][..i] == xs[..i];
    assert now[..start] == now[..j][..start] == was[..j][..start];
    assert now[start..j] == now[..j][start..] == was[..j][start..];
    assert now[start..j + 2] == now[start..j] + now[j..j + 2];
  }

  /** High byte first. */
  lemma {:induction false} Words16At(xs: seq<nat>, i: nat)
    requires i < |xs|
    ensures Words16(xs)[2 * i] == xs[i] / 256 % 256 && Words16(xs)[2 * i + 1] == xs[i] % 256
    decreases |xs|
  {
    if i < |xs| - 1 { Words16At(xs[..|xs| - 1], i); }
  }

  lemma QueryWords(transId: nat, qtype: nat, qclass: nat)
    ensures Words16([transId, 0x0100, 1, 0, 0, 0])
         == [transId / 256 % 256, transId % 256, 1, 0, 0, 1, 0, 0, 0, 0, 0, 0]
    ensures Words16([qtype, qclass]) == [qtype / 256 % 256, qtype % 256, qclass / 256 % 256, qclass % 256]
  {
    hide Words16;
    var a, b := [transId, 0x0100, 1, 0, 0, 0], [qtype, qclass];
    Words16At(a, 0);
    Words16At(a, 1);
    Words16At(a, 2);
    Words16At(a, 3);
    Words16At(a, 4);
    Words16At(a, 5);
    Words16At(b, 0);
    Words16At(b, 1);
  }

  const HEADER_LEN: int := 12

  /** `evdns_request_data_build`: a header, the name, its type and its class. With the room that
      `evdns_request_len` reserves, 102 bytes and the name, every query that has proper labels is
      built, and no byte goes behind it. */
  method RequestDataBuild(name: Bytes, transId: nat, qtype: nat, qclass: nat, buf: array<byte>)
    returns (ret: int, wild: bool)
    requires 0 !in name
    modifies buf
    ensures var fits := |name| <= 255 && LabelsFit(false, [], name);
            var end := HEADER_LEN + |name| + 1;
            var closed := end + if Closes(false, [], name) then 1 else 0;
            && (wild <==> fits && Closes(false, [], name) && end == buf.Length)
            && (ret >= 0 <==> fits && closed + 4 <= buf.Length)
            && (ret >= 0 ==> ret == closed + 4)
            && (fits && |name| + 102 <= buf.Length ==> ret >= 0 && !wild)
    ensures ret >= 0 ==> buf[..12] == [transId / 256 % 256, transId % 256, 1, 0, 0, 1, 0, 0, 0, 0, 0, 0]
    ensures ret >= 0 ==> buf[ret - 4..ret] == [qtype / 256 % 256, qtype % 256, qclass / 256 % 256, qclass % 256]
    ensures ret >= 0 && WellFormed(name) && buf.Length < POINTER_LIMIT ==>
              forall outLen :: |TrimDot(name)| < outLen
                ==> ParseName(buf[..], HEADER_LEN, outLen) == Parsed(TrimDot(name), ret - 4)
  {
    hide LabelsFit; hide FoundAt; hide Encode; hide WellFormed; hide TrimDot; hide ParseName; hide Words16;
    wild := false;
    var j := Append16(buf, 0, [transId, 0x0100, 1, 0, 0, 0]);
    if j < 0 { return j, false; }
    NotFound(name);
    ghost var was := buf[..];
    EncodeOutcome(was, buf.Length, j, name, false, []);
    j, wild := DnsNameToLabels(buf, buf.Length, j, name, null);
    if j < 0 { return j, wild; }
    ghost var e := Encoding(j, buf[..], [], wild);
    j := Append16(buf, j, [qtype, qclass]);
    if j < 0 { return -1, wild; }
    QueryKeeps(was, e, buf[..], name);
    QueryWords(transId, qtype, qclass);
    return j, wild;
  }

  lemma {:induction false} NotFound(name: Bytes)
    ensures FoundAt(false, [], name) < 0
    decreases |name|
  {
    hide LabelLength;
    var n := LabelLength(name);
    if n < |name| { NotFound(name[n + 1..]); }
  }

  /** Bytes before the name stay. */
  lemma {:induction false} EncodeKeepsBefore(buf: Bytes, bufLen: int, j: int, name: Bytes, compress: bool,
                                             labels: seq<Entry>)
    requires 0 <= j <= |buf| && 0 <= bufLen <= |buf|
    ensures Encode(buf, bufLen, j, name, compress, labels).buf[..j] == buf[..j]
    decreases |name|
  {
    hide Encode; hide Put; hide GetPos; hide LabelLength; hide Remember; hide PointerBytes;
    EncodeTurn(buf, bufLen, j, name, compress, labels);
    var e := Encode(buf, bufLen, j, name, compress, labels);
    var n := LabelLength(name);
    if !(compress && GetPos(labels, name) >= 0) && n <= 63 && j + n + 1 <= bufLen {
      var b := Put(buf, j, [n] + name[..n]);
      if n < |name| {
        EncodeKeepsBefore(b, bufLen, j + n + 1, name[n + 1..], compress,
          if compress then Remember(labels, name, j) else labels);
        SliceBelow(b, e.buf, j + n + 1, 0, j);
      } else {
        assert e.buf[..j] == b[..j];
      }
    }
  }

  /** The name in a query decodes once the rest of it is written. */
  lemma QueryKeeps(was: Bytes, e: Encoding, packet: Bytes, name: Bytes)
    requires HEADER_LEN <= |was| == |packet| && e == EncodeName(was, |was|, HEADER_LEN, name, false, [])
    requires HEADER_LEN <= e.ret <= |was| && !e.wild && |e.buf| == |was| && packet[..e.ret] == e.buf[..e.ret]
    ensures packet[..HEADER_LEN] == was[..HEADER_LEN]
    ensures |was| < POINTER_LIMIT && WellFormed(name) ==>
              forall outLen :: |TrimDot(name)| < outLen
                ==> ParseName(packet, HEADER_LEN, outLen) == Parsed(TrimDot(name), e.ret)
  {
    hide Encode; hide WellFormed; hide TrimDot; hide ParseName; hide LaidOut; hide After; hide Split;
    EncodeKeepsBefore(was, |was|, HEADER_LEN, name, false, []);
    SliceBelow(e.buf, packet, e.ret, 0, HEADER_LEN);
    if |was| < POINTER_LIMIT && WellFormed(name) {
      EncodeNameKeepsTable(was, |was|, HEADER_LEN, name, false, []);
      LaidOutFrame(e.buf, packet, HEADER_LEN, Split(name), e.ret, e.ret);
      forall outLen | |TrimDot(name)| < outLen
        ensures ParseName(packet, HEADER_LEN, outLen) == Parsed(TrimDot(name), e.ret)
      {
        DecodeStanding(packet, HEADER_LEN, name, e.ret, outLen);
      }
    }
  }

  /** `name_parse`: on success the text and a closing zero are in `nameOut`, and `next` is the
      offset just past the name. */
  method NameParse(packet: array<byte>, idx: nat, nameOut: array<byte>) returns (ok: bool, size: nat, next: int)
    requires packet != nameOut
    modifies nameOut
    ensures ok <==> ParseName(packet[..], idx, nameOut.Length).Parsed?
    ensures ok ==> size < nameOut.Length && nameOut[size] == 0
                   && ParseName(packet[..], idx, nameOut.Length) == Parsed(nameOut[..size], next)
  {
    hide Parse; hide Put;
    var nameEnd, j, ptrs := -1, idx, 0;
    var cp := 0;
    ok, size, next := false, 0, 0;
    ghost var p := packet[..];
    ghost var out: Bytes := [];
    ghost var goal := ParseName(p, idx, nameOut.Length);
    while true
      invariant 0 <= j && 0 <= ptrs <= packet.Length && 0 <= cp <= nameOut.Length
      invariant packet[..] == p && out == nameOut[..cp]
      invariant Parse(p, j, out, nameEnd, ptrs, nameOut.Length) == goal
      decreases packet.Length - ptrs, packet.Length - j
    {
      if j >= packet.Length { ParseStop(p, j, out, nameEnd, ptrs, nameOut.Length); return; }
      var n := packet[j];
      if n == 0 { break; }
      if n >= 64 {
        ParsePointer(p, j, out, nameEnd, ptrs, nameOut.Length);
        if j + 1 >= packet.Length { return; }
        var target := PointerTarget(n, packet[j + 1]);
        if nameEnd < 0 { nameEnd := j + 2; }
        if target >= packet.Length { return; }
        ptrs := ptrs + 1;
        if ptrs > packet.Length { return; }
        j := target;
      } else {
        ParseLabel(p, j, out, nameEnd, ptrs, nameOut.Length);
        if cp != 0 && cp + 1 >= nameOut.Length { return; }
        var copied;
        copied, cp := AppendLabel(nameOut, cp, packet, j + 1, n);
        if !copied { return; }
        out := Dotted(out) + p[j + 1..j + 1 + n];
        j := j + 1 + n;
      }
    }
    ParseStop(p, j, out, nameEnd, ptrs, nameOut.Length);
    if cp >= nameOut.Length { return; }
    nameOut[cp] := 0;
    assert nameOut[..cp] == out;
    ok, size := true, cp;
    next := if nameEnd < 0 then j + 1 else nameEnd;
  }

  /** Append a label of the packet to the text, after a dot unless the text is empty. */
  method AppendLabel(nameOut: array<byte>, cp: int, packet: array<byte>, from: int, n: int)
    returns (copied: bool, end: int)
    requires packet != nameOut && 0 <= cp <= nameOut.Length && 0 <= from <= packet.Length && 0 < n
    requires cp != 0 ==> cp + 1 < nameOut.Length
    modifies nameOut
    ensures var text := Dotted(old(nameOut[..cp]));
            && (copied <==> |text| + n < nameOut.Length && from + n <= packet.Length)
            && 0 <= end <= nameOut.Length
            && (copied ==> nameOut[..end] == text + packet[from..from + n])
  {
    ghost var text := Dotted(nameOut[..cp]);
    end := cp;
    if cp != 0 {
      nameOut[cp] := DOT;
      end := cp + 1;
    }
    assert nameOut[..end] == text;
    copied := end + n < nameOut.Length && from + n <= packet.Length;
    if copied {
      Copy(nameOut, end, packet[from..from + n]);
      end := end + n;
      assert nameOut[..end] == text + packet[from..from + n];
    }
  }
}
