/** Lines of a file and the words of a line. */
module Words {
  import opened Decimal

  /** What `getline` returns, up to the end of the file. */
  function Lines(t: string): (r: seq<string>)
    ensures |r| > 0 && forall i :: 0 <= i < |r| ==> '\n' !in r[i]
  {
    if t == [] then [[]]
    else if t[0] == '\n' then [[]] + Lines(t[1..])
    else
      var r := Lines(t[1..]);
      [[t[0]] + r[0]] + r[1..]
  }

  /** Every line with its end. */
  function Joined(lines: seq<string>): string {
    if lines == [] then [] else lines[0] + "\n" + Joined(lines[1..])
  }

  lemma {:induction false} FirstLine(line: string, rest: string)
    requires '\n' !in line
    ensures Lines(line + "\n" + rest) == [line] + Lines(rest)
  {
    var t := line + "\n" + rest;
    if line == [] {
      assert t[1..] == rest;
    } else {
      assert t[1..] == line[1..] + "\n" + rest;
      FirstLine(line[1..], rest);
      assert line == [line[0]] + line[1..];
    }
  }

  /** Reading lines undoes writing them. */
  lemma {:induction false} LinesJoined(lines: seq<string>)
    requires forall i :: 0 <= i < |lines| ==> '\n' !in lines[i]
    ensures Lines(Joined(lines)) == lines + [[]]
  {
    if lines != [] {
      LinesJoined(lines[1..]);
      FirstLine(lines[0], Joined(lines[1..]));
      assert lines == [lines[0]] + lines[1..];
    }
  }

  /** A text and a line end are its lines, each with an end. */
  lemma {:induction false} JoinedLines(t: string)
    ensures Joined(Lines(t)) == t + "\n"
  {
    if t == [] {
      assert Lines(t)[1..] == [];
    } else if t[0] == '\n' {
      JoinedLines(t[1..]);
      assert Lines(t)[1..] == Lines(t[1..]);
      assert t == ['\n'] + t[1..];
    } else {
      JoinedLines(t[1..]);
      var r := Lines(t[1..]);
      assert Lines(t)[1..] == r[1..];
      assert Joined(Lines(t)) == [t[0]] + Joined(r);
      assert t + "\n" == [t[0]] + (t[1..] + "\n");
    }
  }

  lemma {:induction false} JoinedAppend(a: seq<string>, b: seq<string>)
    ensures Joined(a + b) == Joined(a) + Joined(b)
  {
    if a == [] {
      assert a + b == b;
    } else {
      JoinedAppend(a[1..], b);
      assert (a + b)[1..] == a[1..] + b;
    }
  }

  // ----- words

  /** How many characters come before white space. */
  function WordLength(line: string): (n: nat)
    ensures n <= |line|
  {
    if line == [] || IsSpace(line[0]) then 0 else 1 + WordLength(line[1..])
  }

  /** The words of a line, as an input stream splits it. */
  function Tokens(line: string): seq<string>
    decreases |line|
  {
    if line == [] then []
    else if IsSpace(line[0]) then Tokens(line[1..])
    else [line[..WordLength(line)]] + Tokens(line[WordLength(line)..])
  }

  predicate Token(w: string) { w != [] && forall i :: 0 <= i < |w| ==> !IsSpace(w[i]) }

  lemma {:induction false} WordLengthOf(w: string, rest: string)
    requires forall i :: 0 <= i < |w| ==> !IsSpace(w[i])
    requires rest == [] || IsSpace(rest[0])
    ensures WordLength(w + rest) == |w|
  {
    if w == [] {
      assert w + rest == rest;
    } else {
      WordLengthOf(w[1..], rest);
      assert (w + rest)[1..] == w[1..] + rest;
    }
  }

  lemma FirstToken(w: string, rest: string)
    requires Token(w) && (rest == [] || IsSpace(rest[0]))
    ensures Tokens(w + rest) == [w] + Tokens(rest)
  {
    WordLengthOf(w, rest);
    assert (w + rest)[..|w|] == w && (w + rest)[|w|..] == rest;
  }

  lemma SpaceSkipped(rest: string)
    ensures Tokens(" " + rest) == Tokens(rest)
  {
    assert (" " + rest)[1..] == rest;
  }

  /** The characters that separate words. */
  predicate Separates(c: char) { c in {' ', '\t', '\n', '\U{000B}', '\U{000C}', '\r'} }

  lemma {:induction false} WordLengthStops(a: string, rest: string)
    requires rest != [] && IsSpace(rest[0])
    ensures WordLength(a + rest) == WordLength(a)
  {
    if a == [] {
      assert a + rest == rest;
    } else {
      WordLengthStops(a[1..], rest);
      assert (a + rest)[1..] == a[1..] + rest;
    }
  }

  /** A line falls apart at every separator, */
  lemma {:induction false} TokensSplit(a: string, c: char, b: string)
    requires Separates(c)
    ensures Tokens(a + ([c] + b)) == Tokens(a) + Tokens(b)
    decreases |a|
  {
    var t := a + ([c] + b);
    if a == [] {
      assert t == [c] + b && ([c] + b)[1..] == b;
    } else if IsSpace(a[0]) {
      TokensSplit(a[1..], c, b);
      assert t[1..] == a[1..] + ([c] + b);
    } else {
      var n := WordLength(a);
      WordLengthStops(a, [c] + b);
      TokensSplit(a[n..], c, b);
      assert t[..n] == a[..n] && t[n..] == a[n..] + ([c] + b);
    }
  }

  /** and what is between them is a word. */
  lemma {:induction false} TokensWhole(w: string)
    requires forall i :: 0 <= i < |w| ==> !Separates(w[i])
    ensures Tokens(w) == if w == [] then [] else [w]
  {
    if w != [] {
      FirstToken(w, []);
      assert w + [] == w && Tokens([]) == [];
    }
  }

  /** Words with a space between them. */
  function Spaced(words: seq<string>): string {
    if words == [] then [] else if |words| == 1 then words[0] else words[0] + " " + Spaced(words[1..])
  }

  lemma SpacedStep(words: seq<string>)
    requires words != []
    ensures Spaced(words) == if |words| == 1 then words[0] else words[0] + " " + Spaced(words[1..])
  {}

  /** Splitting undoes joining, also when white space follows. */
  lemma {:induction false} TokensSpaced(words: seq<string>, rest: string)
    requires words != [] && (forall i :: 0 <= i < |words| ==> Token(words[i]))
    requires rest == [] || IsSpace(rest[0])
    ensures Tokens(Spaced(words) + rest) == words + Tokens(rest)
    decreases |words|
  {
    SpacedStep(words);
    hide *;
    if |words| == 1 {
      FirstToken(words[0], rest);
      assert words == [words[0]];
    } else {
      var w, more := words[0], words[1..];
      TokensSpaced(more, rest);
      Regrouped(w, Spaced(more), rest);
      NextToken(w, Spaced(more) + rest);
      assert words == [w] + more;
      assert [w] + (more + Tokens(rest)) == words + Tokens(rest);
    }
  }

  lemma Regrouped(a: string, b: string, c: string)
    ensures a + " " + b + c == a + (" " + (b + c))
  {}

  lemma NextToken(w: string, more: string)
    requires Token(w)
    ensures Tokens(w + (" " + more)) == [w] + Tokens(more)
  {
    hide Tokens; hide Token;
    assert IsSpace((" " + more)[0]);
    FirstToken(w, " " + more);
    SpaceSkipped(more);
  }

  /** Words, a space and one more word or nothing. */
  lemma TokensAfter(words: seq<string>, last: string)
    requires words != [] && (forall i :: 0 <= i < |words| ==> Token(words[i]))
    requires last == [] || Token(last)
    ensures Tokens(Spaced(words) + (" " + last)) == if last == [] then words else words + [last]
  {
    var rest := " " + last;
    TokensSpaced(words, rest);
    SpaceSkipped(last);
    if last != [] {
      assert last + [] == last;
      FirstToken(last, []);
    }
  }

  lemma {:induction false} SpacedPlain(words: seq<string>)
    requires forall i :: 0 <= i < |words| ==> '\n' !in words[i]
    ensures '\n' !in Spaced(words)
    decreases |words|
  {
    if |words| > 1 { SpacedPlain(words[1..]); }
  }
}
