/** Words and strings as OSC packets hold them: most significant byte first, and padded with zeros
    to a multiple of 4. A pointer is a position in the packet; a read outside it gives None. */
module OscWords {
  import opened Octets
  import opened Options

  const HALF: int := 0x8000_0000
  const WORD: int := 0x1_0000_0000
  const TIMES: int := 0x1_0000_0000_0000_0000

  // ----- positions in a packet

  /** `s` stands at `pos`. */
  predicate At(t: Bytes, pos: nat, s: Bytes) {
    pos + |s| <= |t| && t[pos..pos + |s|] == s
  }

  lemma AtSplit(t: Bytes, pos: nat, a: Bytes, b: Bytes)
    requires At(t, pos, a + b)
    ensures At(t, pos, a) && At(t, pos + |a|, b)
  {
    var s := t[pos..pos + |a + b|];
    assert s == a + b;
    assert s[..|a|] == a && s[|a|..] == b;
    assert t[pos..pos + |a|] == s[..|a|] && t[pos + |a|..pos + |a| + |b|] == s[|a|..];
  }

  // ----- words, most significant byte first

  function WordBytes(w: nat, k: nat): (r: Bytes)
    ensures |r| == k
  {
    if k == 0 then [] else WordBytes(w / 256, k - 1) + [w % 256]
  }

  function Word(s: Bytes): nat {
    if s == [] then 0 else Word(s[..|s| - 1]) * 256 + s[|s| - 1]
  }

  function Power256(k: nat): nat { if k == 0 then 1 else 256 * Power256(k - 1) }

  lemma {:induction false} WordRoundTrip(w: nat, k: nat)
    requires w < Power256(k)
    ensures Word(WordBytes(w, k)) == w
    decreases k
  {
    if k > 0 {
      assert w / 256 < Power256(k - 1);
      WordRoundTrip(w / 256, k - 1);
      var r := WordBytes(w, k);
      assert r[..k - 1] == WordBytes(w / 256, k - 1);
    }
  }

  /** Two's complement. */
  function IntBytes(n: int): (r: Bytes)
    ensures |r| == 4
  {
    WordBytes(n % WORD, 4)
  }

  function Signed(w: int): int { if w >= HALF then w - WORD else w }

  lemma Powers()
    ensures Power256(4) == WORD && Power256(8) == TIMES
  {
    assert Power256(2) == 0x1_0000;
    assert Power256(4) == 256 * (256 * Power256(2));
    assert Power256(6) == 256 * (256 * Power256(4));
  }

  function ReadInt32(t: Bytes, pos: nat): Option<int> {
    if pos + 4 > |t| then None else Some(Signed(Word(t[pos..pos + 4])))
  }

  lemma IntAt(t: Bytes, pos: nat, n: int)
    requires At(t, pos, IntBytes(n)) && -HALF <= n < HALF
    ensures ReadInt32(t, pos) == Some(n)
  {
    hide WordBytes; hide Word;
    Powers();
    WordRoundTrip(n % WORD, 4);
  }

  // ----- strings

  function Zeros(n: nat): (r: Bytes)
    ensures |r| == n
  {
    seq(n, _ => 0)
  }

  /** Round up to a multiple of 4, with a remainder that takes the sign of its dividend. */
  function Align(n: int): (r: int)
    ensures r % 4 == 0 && n <= r
    ensures n >= 0 ==> r < n + 4
  {
    var m := if n >= 0 then n % 4 else -((-n) % 4);
    var q := if n >= 0 then n / 4 else -((-n) / 4);
    assert n == 4 * q + m && -4 < m < 4;
    n + (4 - m) % 4
  }

  /** A string, its terminator, and zeros up to a multiple of 4. */
  function Padded(s: Bytes): (r: Bytes)
    ensures |r| == Align(|s| + 1)
  {
    s + Zeros(Align(|s| + 1) - |s|)
  }

  /** The string that starts at `pos` and ends before the first zero. */
  function ReadStr(t: Bytes, pos: nat): Option<Bytes>
    decreases |t| - pos
  {
    if pos >= |t| then None
    else if t[pos] == 0 then Some([])
    else
      match ReadStr(t, pos + 1)
      case None => None
      case Some(s) => Some([t[pos]] + s)
  }

  lemma {:induction false} StrAt(t: Bytes, pos: nat, s: Bytes, zeros: nat)
    requires At(t, pos, s + Zeros(zeros)) && 0 !in s && zeros > 0
    ensures ReadStr(t, pos) == Some(s)
    decreases |s|
  {
    AtSplit(t, pos, s, Zeros(zeros));
    if s == [] {
      assert t[pos + |s|..pos + |s| + zeros][0] == Zeros(zeros)[0];
    } else {
      assert t[pos..pos + |s|][0] == s[0];
      assert s == [s[0]] + s[1..];
      assert s + Zeros(zeros) == [s[0]] + (s[1..] + Zeros(zeros));
      AtSplit(t, pos, [s[0]], s[1..] + Zeros(zeros));
      StrAt(t, pos + 1, s[1..], zeros);
    }
  }

  lemma PaddedAt(t: Bytes, pos: nat, s: Bytes)
    requires At(t, pos, Padded(s)) && 0 !in s
    ensures ReadStr(t, pos) == Some(s)
  {
    StrAt(t, pos, s, Align(|s| + 1) - |s|);
  }
}
