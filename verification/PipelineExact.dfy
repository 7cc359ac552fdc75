/** Exactly which long texts a pipeline file can carry. A text may hold lines that end its block and
    turn what follows into commands, so this is about what any run over any lines can do to a
    property. */
module PipelineExact {
  import opened Options
  import Decimal
  import opened Words
  import opened PipelineFile
  import opened PipelineRoundTrip

  /** Every line of the text ends, and none is empty, a comment, white space or a boundary. */
  predicate Carried(text: string) {
    Ordinary(Lines(text)) && forall i :: 0 <= i < |Lines(text)| ==> Harmless(Lines(text)[i])
  }

  /** What a command or a block can make of a string property. */
  predicate Made(v: Content) { v.S? ==> v.s == "" || Token(v.s) || Carried(v.s) }

  // ----- what every step keeps

  /** Ids cannot be changed. */
  ghost predicate FixedIds(ms: seq<Module>) {
    forall i :: 0 <= i < |ms| ==> "id" in ms[i].props && ms[i].props["id"].readOnly
  }

  function ValueOf(ms: seq<Module>, j: nat, name: string): Content
    requires j < |ms|
  {
    Get(ms[j].props, name).value
  }

  /** Module `j` has the id, and its property `name` is a string that can be set; its text is still
      waited for, or it is one that was made by the file. */
  ghost predicate Placed(ms: seq<Module>, lates: seq<Late>, late: Late, j: nat) {
    && FixedIds(ms) && Find(ms, late.id) == Some(j)
    && !Get(ms[j].props, late.name).readOnly && ValueOf(ms, j, late.name).S?
    && (late in lates || Made(ValueOf(ms, j, late.name)))
  }

  lemma SetKeeps(ms: seq<Module>, k: nat, name: string, props: Props, s: string, text: bool)
    requires k < |ms| && FixedIds(ms)
    requires props == if text then SetText(ms[k].props, name, s) else Set(ms[k].props, name, s)
    ensures FixedIds(WithProps(ms, k, props))
    ensures forall id :: Find(WithProps(ms, k, props), id) == Find(ms, id)
  {
    var ns := WithProps(ms, k, props);
    hide Find;
    assert Id(ns[k]) == Id(ms[k]);
    forall id ensures Find(ns, id) == Find(ms, id) {
      FindSame(ns, ms, id);
    }
  }

  /** Setting any property of any module leaves the property placed. */
  lemma PlacedSet(ms: seq<Module>, lates: seq<Late>, late: Late, j: nat, k: nat, name: string, s: string, text: bool)
    requires Placed(ms, lates, late, j) && k < |ms| && (s == "" || Token(s) || Carried(s))
    ensures var ns := WithProps(ms, k, if text then SetText(ms[k].props, name, s) else Set(ms[k].props, name, s));
            && Placed(ns, lates, late, j)
            && (Made(ValueOf(ms, j, late.name)) || (k == j && name == late.name) ==> Made(ValueOf(ns, j, late.name)))
  {
    hide Find; hide Carried; hide Token;
    SetKeeps(ms, k, name, if text then SetText(ms[k].props, name, s) else Set(ms[k].props, name, s), s, text);
  }

  lemma {:induction false} FindLateNone(lates: seq<Late>, late: Late)
    requires late in lates
    ensures FindLate(lates, late.tag).Some?
  {
    if lates[0] != late { FindLateNone(lates[1..], late); }
  }

  /** Delivering a text leaves the property placed; once its own label has come it is made. */
  lemma {:induction false} DeliverKeeps(ms: seq<Module>, lates: seq<Late>, tag: string, data: string, late: Late,
                                        j: nat)
    requires Placed(ms, lates, late, j) && Carried(data) && Deliver(ms, lates, tag, data).Some?
    ensures var r := Deliver(ms, lates, tag, data).value;
            && Placed(r.0, r.1, late, j)
            && (Made(ValueOf(ms, j, late.name)) || tag == late.tag ==> Made(ValueOf(r.0, j, late.name)))
    decreases |lates|
  {
    hide Find; hide Carried; hide SetText; hide Made; hide FixedIds;
    match FindLate(lates, tag)
    case None =>
      if late in lates && tag == late.tag { FindLateNone(lates, late); }
    case Some(k) =>
      var i := Find(ms, lates[k].id).value;
      PlacedSet(ms, lates, late, j, i, lates[k].name, data, true);
      var ns := WithProps(ms, i, SetText(ms[i].props, lates[k].name, data));
      var rest := lates[..k] + lates[k + 1..];
      assert late in lates ==> late == lates[k] || late in rest;
      DeliverKeeps(ns, rest, tag, data, late, j);
  }

  /** The property is placed, and the block that is being read, if any, holds nothing odd. */
  ghost predicate Good(s: State, late: Late, j: nat) {
    Placed(s.graph.modules, s.lates, late, j) && Carried(s.data)
  }

  lemma FlushKeeps(s: State, late: Late, j: nat)
    requires Good(s, late, j) && Flush(s).Some?
    ensures var r := Flush(s).value;
            && Good(r, late, j) && !r.dataMode
            && (Made(ValueOf(s.graph.modules, j, late.name)) || (s.dataMode && s.dataTag == late.tag)
                ==> Made(ValueOf(r.graph.modules, j, late.name)))
  {
    hide Deliver; hide Carried; hide Made; hide Placed;
    NothingCarried();
    if s.dataMode {
      DeliverKeeps(s.graph.modules, s.lates, s.dataTag, s.data, late, j);
    }
  }

  lemma NothingCarried()
    ensures Carried("")
  {}

  lemma {:induction false} LinesGrow(data: string, line: string)
    requires '\n' !in line && Lines(data)[|Lines(data)| - 1] == ""
    ensures Lines(data + line + "\n") == Lines(data)[..|Lines(data)| - 1] + [line, ""]
    decreases |data|
  {
    var t := data + line + "\n";
    if data == [] {
      assert t == line + "\n" + "";
      FirstLine(line, "");
      assert Lines("") == [""];
    } else {
      assert t[0] == data[0] && t[1..] == data[1..] + line + "\n";
      var r := Lines(data[1..]);
      if data[0] == '\n' {
        assert Lines(data) == [[]] + r;
      } else {
        assert Lines(data) == [[data[0]] + r[0]] + r[1..] && |r| > 1;
      }
      LinesGrow(data[1..], line);
    }
  }

  lemma DataGrows(data: string, line: string)
    requires Carried(data) && '\n' !in line && Harmless(line) && !Dropped(line)
    ensures Carried(data + line + "\n")
  {
    hide Lines; hide Blank; hide Bound;
    LinesGrow(data, line);
    EmptyHarmless();
  }

  lemma EmptyHarmless()
    ensures Harmless("")
  {}

  lemma {:induction false} TokensAreTokens(line: string)
    ensures forall i :: 0 <= i < |Tokens(line)| ==> Token(Tokens(line)[i])
    decreases |line|
  {
    if line != [] {
      if Decimal.IsSpace(line[0]) {
        TokensAreTokens(line[1..]);
      } else {
        WordIsToken(line);
        TokensAreTokens(line[WordLength(line)..]);
      }
    }
  }

  lemma {:induction false} WordIsToken(line: string)
    requires line != [] && !Decimal.IsSpace(line[0])
    ensures Token(line[..WordLength(line)])
  {
    if |line| > 1 && !Decimal.IsSpace(line[1]) {
      WordIsToken(line[1..]);
      assert line[..WordLength(line)] == [line[0]] + line[1..][..WordLength(line[1..])];
    }
  }

  lemma {:induction false} FindAppend(ms: seq<Module>, x: Module, id: string)
    requires Find(ms, id).Some?
    ensures Find(ms + [x], id) == Find(ms, id)
  {
    hide Id;
    assert (ms + [x])[0] == ms[0];
    if Id(ms[0]) != id {
      FindAppend(ms[1..], x, id);
      assert (ms + [x])[1..] == ms[1..] + [x];
    }
  }

  lemma CreateKeeps(f: Factory, s: State, kind: string, id: string, late: Late, j: nat)
    requires Good(s, late, j) && Create(f, s, kind, id).Some?
    ensures var r := Create(f, s, kind, id).value;
            Good(r, late, j) && ValueOf(r.graph.modules, j, late.name) == ValueOf(s.graph.modules, j, late.name)
  {
    hide Find; hide Carried; hide Made;
    FindAppend(s.graph.modules, NewModule(f, kind, id), late.id);
  }

  lemma ConnectKeeps(f: Factory, s: State, from: string, output: int, to: string, input: int)
    requires Connect(f, s, from, output, to, input).Some?
    ensures var r := Connect(f, s, from, output, to, input).value;
            r.graph.modules == s.graph.modules && r == s.(graph := r.graph)
  {
    hide Find;
  }

  lemma CommandKeeps(f: Factory, s: State, tokens: seq<string>, late: Late, j: nat)
    requires Good(s, late, j) && |tokens| > 1 && Command(f, s, tokens).Some?
    requires forall i :: 0 <= i < |tokens| ==> Token(tokens[i])
    ensures var r := Command(f, s, tokens).value;
            && Good(r, late, j) && r.dataMode == s.dataMode
            && (Made(ValueOf(s.graph.modules, j, late.name)) ==> Made(ValueOf(r.graph.modules, j, late.name)))
  {
    hide Find; hide Carried; hide Made; hide Token; hide Create; hide Connect; hide Set; hide FixedIds;
    if tokens[0] == "pipeline" {
      if tokens[1] == "create" {
        CreateKeeps(f, s, tokens[2], tokens[3], late, j);
        CreateModes(f, s, tokens[2], tokens[3]);
      } else if tokens[1] == "set" {
        var k := Find(s.graph.modules, tokens[2]).value;
        PlacedSet(s.graph.modules, s.lates, late, j, k, tokens[3], if |tokens| == 5 then tokens[4] else "", false);
      } else if tokens[1] == "connect" {
        ConnectKeeps(f, s, tokens[2], Decimal.Atoi(tokens[3]), tokens[4], Decimal.Atoi(tokens[5]));
      }
    }
  }

  lemma CreateModes(f: Factory, s: State, kind: string, id: string)
    requires Create(f, s, kind, id).Some?
    ensures Create(f, s, kind, id).value.dataMode == s.dataMode
  {}

  /** In the block of the property, or past it. */
  ghost predicate Reached(s: State, late: Late, j: nat) {
    Good(s, late, j) && (Made(ValueOf(s.graph.modules, j, late.name)) || (s.dataMode && s.dataTag == late.tag))
  }

  /** No line of any kind can undo it. */
  lemma StepKeeps(f: Factory, s: State, line: string, late: Late, j: nat)
    requires Good(s, late, j) && '\n' !in line && Step(f, s, line).Some?
    ensures Good(Step(f, s, line).value, late, j)
    ensures Reached(s, late, j) ==> Reached(Step(f, s, line).value, late, j)
    ensures Reached(s, late, j) && (Bound(line) || Made(ValueOf(s.graph.modules, j, late.name)))
            ==> Made(ValueOf(Step(f, s, line).value.graph.modules, j, late.name))
  {
    hide Carried; hide Made; hide Placed; hide Tokens; hide Command; hide Flush;
    if !Dropped(line) {
      TokensAreTokens(line);
      var tokens := Tokens(line);
      if tokens[0] == BOUNDARY {
        FlushKeeps(s, late, j);
      } else if s.dataMode {
        DataGrows(s.data, line);
      } else {
        CommandKeeps(f, s, tokens, late, j);
      }
    }
  }

  lemma GoodInside(s: State, late: Late, j: nat)
    requires Good(s, late, j)
    ensures j < |s.graph.modules|
  {}

  lemma {:induction false} RunKeeps(f: Factory, s: State, lines: seq<string>, late: Late, j: nat)
    requires Good(s, late, j) && Plain(lines) && Run(f, s, lines).Some?
    ensures Good(Run(f, s, lines).value, late, j)
    ensures Reached(s, late, j) ==> Reached(Run(f, s, lines).value, late, j)
    ensures Reached(s, late, j) && Made(ValueOf(s.graph.modules, j, late.name))
            ==> Made(ValueOf(Run(f, s, lines).value.graph.modules, j, late.name))
    decreases |lines|
  {
    hide Reached; hide Step; hide Placed; hide Made; hide Carried;
    GoodInside(s, late, j);
    if lines != [] {
      StepKeeps(f, s, lines[0], late, j);
      RunKeeps(f, Step(f, s, lines[0]).value, lines[1..], late, j);
    }
  }

  /** From the line that opens its block to any later boundary: the property is made by the file. */
  lemma BlockMakes(f: Factory, s: State, mid: seq<string>, late: Late, j: nat)
    requires Good(s, late, j) && Token(late.tag) && Plain(mid)
    requires Run(f, s, [Spaced([BOUNDARY, late.tag])] + (mid + [BOUNDARY])).Some?
    ensures var r := Run(f, s, [Spaced([BOUNDARY, late.tag])] + (mid + [BOUNDARY])).value;
            Reached(r, late, j) && Made(ValueOf(r.graph.modules, j, late.name))
  {
    hide Good; hide Reached; hide Step; hide Run; hide Flush; hide Made; hide Token; hide Bound;
    BlockOpens(f, s, late, j, mid + [BOUNDARY]);
    var c := Flush(s).value.(dataMode := true, dataTag := late.tag);
    RunSplit(f, c, mid, [BOUNDARY]);
    RunKeeps(f, c, mid, late, j);
    var t := Run(f, c, mid).value;
    RunOne(f, t, BOUNDARY);
    BoundaryWord();
    assert Good(t, late, j);
    StepKeeps(f, t, BOUNDARY, late, j);
  }

  lemma BlockOpens(f: Factory, s: State, late: Late, j: nat, lines: seq<string>)
    requires Good(s, late, j) && Token(late.tag)
    requires Run(f, s, [Spaced([BOUNDARY, late.tag])] + lines).Some?
    ensures Flush(s).Some?
    ensures var c := Flush(s).value.(dataMode := true, dataTag := late.tag);
            Reached(c, late, j) && Good(c, late, j)
              && Run(f, s, [Spaced([BOUNDARY, late.tag])] + lines) == Run(f, c, lines)
  {
    hide Run; hide Flush; hide Made; hide Token; hide Placed; hide Carried; hide Tokens; hide Spaced; hide Command;
    var first := Spaced([BOUNDARY, late.tag]);
    RunSplit(f, s, [first], lines);
    RunOne(f, s, first);
    BoundaryToken();
    TokensSpaced([BOUNDARY, late.tag], []);
    NoTokens();
    assert first + [] == first && [BOUNDARY, late.tag] + [] == [BOUNDARY, late.tag];
    FirstOfSpaced(late.tag);
    FlushKeeps(s, late, j);
    BlockStart(f, s, Flush(s).value, late.tag, lines);
  }

  lemma BoundaryToken()
    ensures Token(BOUNDARY)
  {}

  lemma FirstOfSpaced(tag: string)
    ensures var t := Spaced([BOUNDARY, tag]); t != "" && t[0] != '#'
  {}

  // ----- the places of a block in the file

  lemma {:induction false} DataSplit(g: Graph, names: seq<seq<string>>, i: nat, n: nat) returns (post: seq<string>)
    requires i < n <= |g.modules| && Ordered(g.modules, names)
    ensures forall k :: 0 <= k < |names[i]| ==> names[i][k] in g.modules[i].props
    ensures DataAll(g, names, n)
         == DataAll(g, names, i)
            + (DataLines(g.modules[i], names[i]) + if HasText(g.modules[i], names[i]) then [BOUNDARY] else []) + post
    decreases n
  {
    hide DataLines; hide HasText;
    ModuleKeys(g, names, i);
    if n == i + 1 {
      post := [];
    } else {
      post := DataSplit(g, names, i, n - 1);
      var m, ns := g.modules[n - 1], names[n - 1];
      post := post + (DataLines(m, ns) + if HasText(m, ns) then [BOUNDARY] else []);
    }
  }

  lemma {:induction false} BlockSplit(m: Module, names: seq<string>, k: nat) returns (post: seq<string>)
    requires k < |names| && (forall i :: 0 <= i < |names| ==> names[i] in m.props) && m.props[names[k]].text
    ensures DataLines(m, names) == DataLines(m, names[..k]) + BlockLines(m, names[k]) + post
    ensures HasText(m, names)
    decreases |names|
  {
    hide BlockLines;
    var front, last := names[..|names| - 1], names[|names| - 1];
    if k == |names| - 1 {
      post := [];
    } else {
      post := BlockSplit(m, front, k);
      assert front[..k] == names[..k];
      post := post + if m.props[last].text then BlockLines(m, last) else [];
    }
  }

  lemma {:induction false} LateListed(m: Module, names: seq<string>, k: nat)
    requires k < |names| && (forall i :: 0 <= i < |names| ==> names[i] in m.props) && m.props[names[k]].text
    ensures Late(Id(m), names[k], Tag(Id(m), names[k])) in Lates(m, names)
    decreases |names|
  {
    hide Id; hide Tag;
    if k < |names| - 1 { LateListed(m, names[..|names| - 1], k); }
  }

  lemma {:induction false} LateInAll(g: Graph, names: seq<seq<string>>, i: nat, n: nat, late: Late)
    requires i < n <= |g.modules| && Ordered(g.modules, names) && late in Lates(g.modules[i], names[i])
    ensures late in AllLates(g, names, n)
    decreases n
  {
    hide Lates;
    if i < n - 1 { LateInAll(g, names, i, n - 1, late); }
  }

  // ----- a saved pipeline

  /** The long texts are strings that a new module lets be set. */
  predicate Writable(f: Factory, m: Module) {
    m.kind in f && forall x :: x in m.props && m.props[x].text ==> !Get(f[m.kind].props, x).readOnly
  }

  ghost predicate Saved(f: Factory, g: Graph, names: seq<seq<string>>) {
    && Ordered(g.modules, names) && WfModules(f, g.modules) && Wired(f, g)
       && DistinctTags(AllLates(g, names, |g.modules|))
    && forall i :: 0 <= i < |g.modules| ==> Writable(f, g.modules[i])
  }

  /** After the first part of the file every long text is waited for. */
  lemma CreatedGood(f: Factory, g: Graph, names: seq<seq<string>>, i: nat, k: nat)
    requires Saved(f, g, names) && i < |g.modules| && k < |names[i]|
    requires names[i][k] in g.modules[i].props && g.modules[i].props[names[i][k]].text
    ensures var m, x := g.modules[i], names[i][k];
            Good(Created(f, g, names), Late(Id(m), x, Tag(Id(m), x)), i)
  {
    var m, x, n := g.modules[i], names[i][k], |g.modules|;
    var ms := Halves(f, g, names, n);
    ModuleKeys(g, names, i);
    LateListed(m, names[i], k);
    LateInAll(g, names, i, n, Late(Id(m), x, Tag(Id(m), x)));
    HalvesAt(f, g, names, n);
    FindSame(ms, g.modules, Id(m));
    FindAt(g.modules, i);
    HalvesFixed(f, g, names, n);
    TextUntouched(f, m, names[i], x);
    NothingCarried();
  }

  lemma HalvesFixed(f: Factory, g: Graph, names: seq<seq<string>>, n: nat)
    requires n <= |g.modules| && Ordered(g.modules, names) && WfModules(f, g.modules)
    ensures FixedIds(Halves(f, g, names, n))
  {
    hide WfModule; hide HalfModule; hide Id;
    HalvesAt(f, g, names, n);
    forall i | 0 <= i < n ensures "id" in Halves(f, g, names, n)[i].props
      && Halves(f, g, names, n)[i].props["id"].readOnly {
      HalfModuleId(f, g.modules[i], names[i]);
    }
  }

  lemma TextUntouched(f: Factory, m: Module, names: seq<string>, x: string)
    requires WfModule(f, m) && Writable(f, m) && x in m.props && m.props[x].text
    requires forall i :: 0 <= i < |names| ==> names[i] in m.props
    ensures !Get(HalfModule(f, m, names).props, x).readOnly && Get(HalfModule(f, m, names).props, x).value.S?
  {
    var base := NewModule(f, m.kind, Id(m)).props;
    NewProps(f, m);
    assert x != "id" && WfProp(m.props[x]) && Compatible(Get(base, x), m.props[x]);
    hide WfModule; hide NewModule; hide Half; hide Id;
    HalfAt(base, m, names, x);
  }

  /** Whatever its texts hold, a file that loads has made every one of them. */
  lemma TextMade(f: Factory, g: Graph, names: seq<seq<string>>, date: string, i: nat, k: nat)
    requires Saved(f, g, names) && '\n' !in date && i < |g.modules| && k < |names[i]|
    requires names[i][k] in g.modules[i].props && g.modules[i].props[names[i][k]].text
    requires Load(f, Save(f, g, names, date)).Some?
    ensures var r := Load(f, Save(f, g, names, date)).value;
            i < |r.modules| && Made(ValueOf(r.modules, i, names[i][k]))
  {
    var n, m, ns, x := |g.modules|, g.modules[i], names[i], names[i][k];
    var late := Late(Id(m), x, Tag(Id(m), x));
    CreatedGood(f, g, names, i, k);
    TagOk(f, g, i, x);
    PlainConns(f, g);
    PlainTexts(f, g, names, n);
    ModuleKeys(g, names, i);
    AfterCreation(f, g, names, date);
    var post := DataSplit(g, names, i, n);
    var after := BlockSplit(m, ns, k);
    var s, conns := Created(f, g, names), ConnectLines(Conns(f, g, n));
    var text := Lines(AsString(m.props[x].value));
    hide *;
    BlockParts(m, x);
    Pieces(conns, DataAll(g, names, i), DataLines(m, ns[..k]), [Spaced([BOUNDARY, late.tag])], text, after, post,
      DataAll(g, names, n));
    Rest(f, s, conns + (DataAll(g, names, i) + DataLines(m, ns[..k])), text + after, post + [""], late, i);
  }

  ghost function Created(f: Factory, g: Graph, names: seq<seq<string>>): State
    requires Ordered(g.modules, names) && forall i :: 0 <= i < |g.modules| ==> g.modules[i].kind in f
  {
    START.(graph := START.graph.(modules := Halves(f, g, names, |g.modules|)), lates := AllLates(g, names, |g.modules|))
  }

  /** What a file does after its first part. */
  lemma AfterCreation(f: Factory, g: Graph, names: seq<seq<string>>, date: string)
    requires Saved(f, g, names) && '\n' !in date
    ensures Load(f, Save(f, g, names, date))
         == match Run(f, Created(f, g, names),
            ConnectLines(Conns(f, g, |g.modules|)) + (DataAll(g, names, |g.modules|) + [""]))
            case None => None
            case Some(r) => Some(r.graph)
  {
    hide Step; hide Run; hide WfModule; hide Wired; hide Conns; hide ConnectLines; hide Halves; hide CreateAll;
    hide DataAll; hide AllLates;
    hide Header; hide Save; hide Lines; hide Writable; hide DistinctTags;
    var n := |g.modules|;
    var a, b, c := CreateAll(g, names, n), ConnectLines(Conns(f, g, n)), DataAll(g, names, n);
    SavedLines(f, g, names, date);
    HeaderRun(f, START, date);
    CreateRun(f, g, names, n);
    assert SaveLines(f, g, names, date) + [""] == Header(date) + (a + (b + (c + [""])));
    RunSplit(f, START, Header(date), a + (b + (c + [""])));
    RunSplit(f, START, a, b + (c + [""]));
  }

  lemma TagOk(f: Factory, g: Graph, i: nat, x: string)
    requires WfModules(f, g.modules) && i < |g.modules| && x in g.modules[i].props
    ensures Token(Tag(Id(g.modules[i]), x))
  {
    WfNames(f, g.modules[i]);
    TagToken(g.modules[i], x);
  }

  lemma BlockParts(m: Module, x: string)
    requires x in m.props
    ensures BlockLines(m, x) == [Spaced([BOUNDARY, Tag(Id(m), x)])] + Lines(AsString(m.props[x].value))
  {}

  /** The lines of a file around one block. */
  lemma Pieces(conns: seq<string>, before: seq<string>, front: seq<string>, first: seq<string>, text: seq<string>,
               after: seq<string>, post: seq<string>, data: seq<string>)
    requires data == before + ((front + (first + text) + after) + [BOUNDARY]) + post && Plain(conns) && Plain(data)
    ensures conns + (data + [""])
            == (conns + (before + front)) + ((first + ((text + after) + [BOUNDARY])) + (post + [""]))
    ensures Plain(conns + (before + front)) && Plain(text + after) && Plain(post + [""])
  {
    assert data == (before + front) + (first + ((text + after) + ([BOUNDARY] + post)));
    PlainPart(before + front, first + ((text + after) + ([BOUNDARY] + post)));
    PlainPart(first, (text + after) + ([BOUNDARY] + post));
    PlainPart(text + after, [BOUNDARY] + post);
    PlainPart([BOUNDARY], post);
  }

  lemma PlainPart(a: seq<string>, b: seq<string>)
    requires Plain(a + b)
    ensures Plain(a) && Plain(b)
  {
    forall i | 0 <= i < |a| ensures '\n' !in a[i] { assert a[i] == (a + b)[i]; }
    forall i | 0 <= i < |b| ensures '\n' !in b[i] { assert b[i] == (a + b)[|a| + i]; }
  }

  /** The middle of a run reaches the property, and the rest leaves it. */
  lemma Rest(f: Factory, s: State, a: seq<string>, b: seq<string>, c: seq<string>, late: Late, j: nat)
    requires Good(s, late, j) && Token(late.tag) && Plain(a) && Plain(b) && Plain(c)
    requires Run(f, s, a + (([Spaced([BOUNDARY, late.tag])] + (b + [BOUNDARY])) + c)).Some?
    ensures var r := Run(f, s, a + (([Spaced([BOUNDARY, late.tag])] + (b + [BOUNDARY])) + c)).value;
            j < |r.graph.modules| && Made(ValueOf(r.graph.modules, j, late.name))
  {
    hide Good; hide Run; hide Made; hide Token; hide Plain; hide Reached;
    var block := [Spaced([BOUNDARY, late.tag])] + (b + [BOUNDARY]);
    RunSplit(f, s, a, block + c);
    RunKeeps(f, s, a, late, j);
    var t := Run(f, s, a).value;
    RunSplit(f, t, block, c);
    BlockMakes(f, t, b, late, j);
    var u := Run(f, t, block).value;
    ReachedGood(u, late, j);
    RunKeeps(f, u, c, late, j);
    GoodInside(Run(f, u, c).value, late, j);
  }

  lemma ReachedGood(s: State, late: Late, j: nat)
    requires Reached(s, late, j)
    ensures Good(s, late, j)
  {}

  // ----- the exact condition

  /** Every long text of `g` is back in `r`. */
  ghost predicate TextsBack(g: Graph, r: Graph) {
    forall i, x :: 0 <= i < |g.modules| && x in g.modules[i].props && g.modules[i].props[x].text ==>
      i < |r.modules| && ValueOf(r.modules, i, x) == g.modules[i].props[x].value
  }

  predicate CarriedTexts(m: Module) {
    forall x :: x in m.props && m.props[x].text ==> Carried(AsString(m.props[x].value))
  }

  lemma TokenIsReadable(t: string)
    requires Token(t)
    ensures Readable(t) && Unbroken(t) && !Ordinary(Lines(t))
  {
    hide Tokens; hide WordLength;
    PlainToken(t);
    OnlyLine(t);
    FirstToken(t, []);
    NoTokens();
    assert t + [] == t;
  }

  lemma CarriedIsReadable(t: string)
    requires Carried(t)
    ensures Readable(t) && Unbroken(t) && t != BOUNDARY
  {
    hide Blank; hide Bound;
    BoundaryLines();
    assert forall i :: 0 <= i < |Lines(t)| ==> Harmless(Lines(t)[i]);
  }

  /** What a file has made can be read from another one. */
  lemma MadeIsReadable(t: string)
    requires Made(S(t))
    ensures Readable(t) && Unbroken(t) && (Ordinary(Lines(t)) ==> Carried(t))
  {
    hide Carried; hide Token; hide Readable; hide Unbroken; hide Lines; hide Ordinary;
    if t == "" {
      NothingCarried();
      CarriedIsReadable("");
    } else if Token(t) {
      TokenIsReadable(t);
    } else {
      CarriedIsReadable(t);
    }
  }

  /** The long texts of a pipeline come back from its file exactly when each is empty or made of
      lines that end, are not empty, do not start with a number sign, hold more than white space and
      do not start with the boundary. */
  lemma ComesBackExactly(f: Factory, g: Graph, names: seq<seq<string>>, date: string)
    requires Saved(f, g, names) && '\n' !in date
    ensures var r := Load(f, Save(f, g, names, date));
            r.Some? && TextsBack(g, r.value) <==> forall i :: 0 <= i < |g.modules| ==> CarriedTexts(g.modules[i])
  {
    SavedParts(f, g, names);
    hide Load; hide Save; hide Saved; hide TextsBack; hide CarriedTexts;
    if forall i :: 0 <= i < |g.modules| ==> CarriedTexts(g.modules[i]) {
      CarriedLoads(f, g, names, date);
    }
    var r := Load(f, Save(f, g, names, date));
    if r.Some? && TextsBack(g, r.value) {
      BackIsCarried(f, g, names, date);
    }
  }

  lemma SavedParts(f: Factory, g: Graph, names: seq<seq<string>>)
    requires Saved(f, g, names)
    ensures Ordered(g.modules, names) && WfModules(f, g.modules) && Wired(f, g)
            && DistinctTags(AllLates(g, names, |g.modules|))
  {}

  /** Texts that a file can carry come back. */
  lemma CarriedLoads(f: Factory, g: Graph, names: seq<seq<string>>, date: string)
    requires Saved(f, g, names) && '\n' !in date
    requires forall i :: 0 <= i < |g.modules| ==> CarriedTexts(g.modules[i])
    ensures var r := Load(f, Save(f, g, names, date)); r.Some? && TextsBack(g, r.value)
  {
    hide Load; hide Save; hide Saved; hide CarriedTexts; hide ReadableTexts; hide Loads; hide Restored; hide Wired;
    hide WfModule; hide AllLates; hide Observing;
    SavedParts(f, g, names);
    forall i | 0 <= i < |g.modules| ensures ReadableTexts(g.modules[i]) && Loads(g.modules[i], names[i]) {
      ModuleKeys(g, names, i);
      CarriedModule(g.modules[i], names[i]);
    }
    RoundTrip(f, g, names, date);
    var r := Load(f, Save(f, g, names, date)).value;
    forall i, x | 0 <= i < |g.modules| && x in g.modules[i].props && g.modules[i].props[x].text
      ensures ValueOf(r.modules, i, x) == g.modules[i].props[x].value
    {
      WfNames(f, g.modules[i]);
      CarriedRestored(g.modules[i], r.modules[i], x);
    }
  }

  lemma CarriedModule(m: Module, names: seq<string>)
    requires CarriedTexts(m) && forall i :: 0 <= i < |names| ==> names[i] in m.props
    ensures ReadableTexts(m) && Loads(m, names)
  {
    hide Carried; hide Readable; hide Unbroken; hide AsString; hide HasText; hide Open;
    forall x | x in m.props && m.props[x].text
      ensures Readable(AsString(m.props[x].value)) && Unbroken(AsString(m.props[x].value))
              && AsString(m.props[x].value) != BOUNDARY
    {
      CarriedIsReadable(AsString(m.props[x].value));
    }
    AlwaysOpen(m, names);
  }

  lemma {:induction false} AlwaysOpen(m: Module, names: seq<string>)
    requires forall i :: 0 <= i < |names| ==> names[i] in m.props
    requires forall x :: x in m.props && m.props[x].text ==> AsString(m.props[x].value) != BOUNDARY
    ensures HasText(m, names) ==> Open(m, names)
  {
    hide AsString;
    if names != [] {
      AlwaysOpen(m, names[..|names| - 1]);
      HasTextSplit(m, names);
    }
  }

  lemma CarriedRestored(m: Module, r: Module, x: string)
    requires Restored(m, r) && x in m.props && m.props[x].text && CarriedTexts(m) && WfProp(m.props[x])
    ensures Get(r.props, x).value == m.props[x].value
  {
    hide Kept; hide Lines; hide Ordinary; hide Harmless; hide Token;
    assert RestoredProp(m.props[x], r.props[x]) && Carried(AsString(m.props[x].value));
    KeptSame(AsString(m.props[x].value));
  }

  /** Texts that come back are ones that a file can carry. */
  lemma BackIsCarried(f: Factory, g: Graph, names: seq<seq<string>>, date: string)
    requires Saved(f, g, names) && '\n' !in date
    requires Load(f, Save(f, g, names, date)).Some? && TextsBack(g, Load(f, Save(f, g, names, date)).value)
    ensures forall i :: 0 <= i < |g.modules| ==> CarriedTexts(g.modules[i])
  {
    hide Load; hide Save; hide Saved; hide Made; hide Readable; hide Unbroken; hide Restored; hide Wired; hide WfModule;
    hide AllLates; hide Observing;
    hide Carried; hide Lines; hide Ordinary; hide AllLoad;
    SavedParts(f, g, names);
    forall i, x | 0 <= i < |g.modules| && x in g.modules[i].props && g.modules[i].props[x].text
      ensures Made(g.modules[i].props[x].value) && g.modules[i].props[x].value.S?
    {
      ModuleKeys(g, names, i);
      var k :| 0 <= k < |names[i]| && names[i][k] == x;
      WfNames(f, g.modules[i]);
      TextMade(f, g, names, date, i, k);
    }
    forall i, x | 0 <= i < |g.modules| && x in g.modules[i].props && g.modules[i].props[x].text
      ensures Readable(AsString(g.modules[i].props[x].value))
    {
      MadeIsReadable(g.modules[i].props[x].value.s);
    }
    RoundTrip(f, g, names, date);
    var r := Load(f, Save(f, g, names, date)).value;
    forall i, x | 0 <= i < |g.modules| && x in g.modules[i].props && g.modules[i].props[x].text
      ensures Carried(AsString(g.modules[i].props[x].value))
    {
      MadeIsReadable(g.modules[i].props[x].value.s);
      RestoredOrdinary(g.modules[i], r.modules[i], x);
    }
  }

  lemma RestoredOrdinary(m: Module, r: Module, x: string)
    requires Restored(m, r) && x in m.props && m.props[x].text && Get(r.props, x).value == m.props[x].value
    ensures Ordinary(Lines(AsString(m.props[x].value)))
  {
    hide Kept; hide Lines; hide Ordinary;
    assert RestoredProp(m.props[x], r.props[x]);
    KeptSame(AsString(m.props[x].value));
  }

  // ----- what a boundary line does

  /** A boundary line inside a text ends its block: the property gets the lines before it, and the
      line opens a block of its own when it has a second word and no third; what follows is read as
      that block, or as commands. */
  lemma BoundaryCuts(f: Factory, s: State, before: seq<string>, line: string, after: seq<string>)
    requires s.dataMode && Bound(line) && forall i :: 0 <= i < |before| ==> Harmless(before[i])
    ensures Run(f, s, before + ([line] + after))
         == match Flush(s.(data := s.data + KeptLines(before)))
            case None => None
            case Some(c) => Run(f, if |Tokens(line)| == 2 then c.(dataMode := true, dataTag := Tokens(line)[1])
              else c, after)
  {
    hide Run; hide Flush; hide Tokens; hide Command; hide KeptLines;
    var t := s.(data := s.data + KeptLines(before));
    RunSplit(f, s, before, [line] + after);
    BlockRun(f, s, before);
    RunSplit(f, t, [line], after);
    RunOne(f, t, line);
  }
}
