/** Exactly which pipelines come back from their files whole: values of any kind, short or long, and
    connections. A short value may hold spaces and line ends, and then the rest of the file may be
    read as anything at all. */
module PipelineWhole {
  import opened Options
  import opened Lists
  import Decimal
  import opened Words
  import opened PipelineFile
  import opened PipelineRoundTrip
  import opened PipelineExact

  predicate Word(s: string) { s == "" || Token(s) }

  predicate Fits(p: Prop) { p.text || Word(AsString(p.value)) }

  predicate FitProps(m: Module) { forall x :: x in m.props ==> Fits(m.props[x]) }

  /** The same pipeline with nothing in place of every short value that is more than a word. */
  function Blanked(p: Prop): Prop { if Fits(p) then p else p.(value := S("")) }

  function BlankedModule(m: Module): Module { m.(props := map x | x in m.props :: Blanked(m.props[x])) }

  function BlankedGraph(g: Graph): (h: Graph)
    ensures |h.modules| == |g.modules|
  {
    g.(modules := seq(|g.modules|, i requires 0 <= i < |g.modules| => BlankedModule(g.modules[i])))
  }

  lemma FitIsSame(m: Module)
    requires FitProps(m)
    ensures BlankedModule(m) == m
  {}

  lemma AllFitIsSame(g: Graph)
    requires forall i :: 0 <= i < |g.modules| ==> FitProps(g.modules[i])
    ensures BlankedGraph(g) == g
  {
    hide FitProps; hide BlankedModule;
    forall i | 0 <= i < |g.modules| ensures BlankedGraph(g).modules[i] == g.modules[i] { FitIsSame(g.modules[i]); }
  }

  // ----- no line can put more than a word into a short property

  /** Module `j` has the id, and its property `name` is a string that is long or at most a word. */
  ghost predicate Short(ms: seq<Module>, id: string, j: nat, name: string) {
    && FixedIds(ms) && Find(ms, id) == Some(j)
    && var p := Get(ms[j].props, name);
       p.value.S? && Fits(p)
  }

  lemma ShortSet(ms: seq<Module>, id: string, j: nat, name: string, k: nat, other: string, s: string, text: bool)
    requires Short(ms, id, j, name) && k < |ms| && (text || Word(s))
    ensures Short(WithProps(ms, k, if text then SetText(ms[k].props, other, s) else Set(ms[k].props, other, s)),
            id, j, name)
  {
    hide Find; hide Token;
    SetKeeps(ms, k, other, if text then SetText(ms[k].props, other, s) else Set(ms[k].props, other, s), s, text);
  }

  lemma {:induction false} ShortDeliver(ms: seq<Module>, lates: seq<Late>, tag: string, data: string, id: string,
                                        j: nat, name: string)
    requires Short(ms, id, j, name) && Deliver(ms, lates, tag, data).Some?
    ensures Short(Deliver(ms, lates, tag, data).value.0, id, j, name)
    decreases |lates|
  {
    hide Find; hide Short; hide SetText;
    match FindLate(lates, tag)
    case None =>
    case Some(k) =>
      var i := Find(ms, lates[k].id).value;
      ShortSet(ms, id, j, name, i, lates[k].name, data, true);
      var ns := WithProps(ms, i, SetText(ms[i].props, lates[k].name, data));
      ShortDeliver(ns, lates[..k] + lates[k + 1..], tag, data, id, j, name);
  }

  lemma ShortCommand(f: Factory, s: State, tokens: seq<string>, id: string, j: nat, name: string)
    requires Short(s.graph.modules, id, j, name) && |tokens| > 1 && Command(f, s, tokens).Some?
    requires forall i :: 0 <= i < |tokens| ==> Token(tokens[i])
    ensures Short(Command(f, s, tokens).value.graph.modules, id, j, name)
  {
    hide Find; hide Short; hide Token; hide Create; hide Connect; hide Set;
    if tokens[0] == "pipeline" {
      if tokens[1] == "create" {
        ShortCreate(f, s, tokens[2], tokens[3], id, j, name);
      } else if tokens[1] == "set" {
        var k := Find(s.graph.modules, tokens[2]).value;
        ShortSet(s.graph.modules, id, j, name, k, tokens[3], if |tokens| == 5 then tokens[4] else "", false);
      } else if tokens[1] == "connect" {
        ConnectKeeps(f, s, tokens[2], Decimal.Atoi(tokens[3]), tokens[4], Decimal.Atoi(tokens[5]));
      }
    }
  }

  lemma ShortCreate(f: Factory, s: State, kind: string, made: string, id: string, j: nat, name: string)
    requires Short(s.graph.modules, id, j, name) && Create(f, s, kind, made).Some?
    ensures Short(Create(f, s, kind, made).value.graph.modules, id, j, name)
  {
    hide Find; hide Fits;
    FindAppend(s.graph.modules, NewModule(f, kind, made), id);
  }

  lemma ShortStep(f: Factory, s: State, line: string, id: string, j: nat, name: string)
    requires Short(s.graph.modules, id, j, name) && Step(f, s, line).Some?
    ensures Short(Step(f, s, line).value.graph.modules, id, j, name)
  {
    hide Short; hide Tokens; hide Command; hide Deliver;
    if !Dropped(line) {
      TokensAreTokens(line);
      if Tokens(line)[0] == BOUNDARY {
        if s.dataMode { ShortDeliver(s.graph.modules, s.lates, s.dataTag, s.data, id, j, name); }
      } else if !s.dataMode {
        ShortCommand(f, s, Tokens(line), id, j, name);
      }
    }
  }

  lemma {:induction false} ShortRun(f: Factory, s: State, lines: seq<string>, id: string, j: nat, name: string)
    requires Short(s.graph.modules, id, j, name) && Run(f, s, lines).Some?
    ensures Short(Run(f, s, lines).value.graph.modules, id, j, name)
    decreases |lines|
  {
    hide Short; hide Step;
    if lines != [] {
      ShortStep(f, s, lines[0], id, j, name);
      ShortRun(f, Step(f, s, lines[0]).value, lines[1..], id, j, name);
    }
  }

  // ----- the line of a short value

  /** The line that sets a property: two words or more are refused, one or none is set. */
  lemma SetLine(f: Factory, s: State, id: string, name: string, v: string)
    requires !s.dataMode && Token(id) && Token(name)
    ensures Step(f, s, SetHead(id, name) + v)
         == if |Tokens(v)| > 1 then None else Assign(s, id, name, if Tokens(v) == [] then "" else Tokens(v)[0])
  {
    hide Tokens; hide Token; hide Flush; hide Assign;
    var words := ["pipeline", "set", id, name];
    assert SetHead(id, name) + v == Spaced(words) + (" " + v);
    assert Token("pipeline") && Token("set") by { SetWords(); }
    TokensSpaced(words, " " + v);
    SpaceSkipped(v);
    assert (Spaced(words) + (" " + v))[0] == 'p';
    var tokens := words + Tokens(v);
    assert tokens[0] == "pipeline" && tokens[1] == "set" && tokens[2] == id && tokens[3] == name;
    assert |tokens| == 5 ==> tokens[4] == Tokens(v)[0];
  }

  lemma SetWords()
    ensures Token("pipeline") && Token("set")
  {}

  /** A short value of several words, without a line end: its own line is refused. */
  lemma SeveralWordsRefused(f: Factory, s: State, id: string, name: string, p: Prop)
    requires !s.dataMode && Token(id) && Token(name) && !p.text && |Tokens(AsString(p.value))| > 1
    ensures Step(f, s, PropLine(id, name, p)) == None
  {
    hide Step; hide Tokens; hide Spaced;
    PropLineIs(id, name, p);
    SetLine(f, s, id, name, AsString(p.value));
  }

  // ----- the lines of a file up to a short value

  lemma {:induction false} LinesAfter(lines: seq<string>, t: string)
    requires Plain(lines)
    ensures Lines(Joined(lines) + t) == lines + Lines(t)
  {
    hide Lines;
    if lines == [] {
      assert Joined(lines) + t == t && lines + Lines(t) == Lines(t);
    } else {
      LinesAfter(lines[1..], t);
      FirstLine(lines[0], Joined(lines[1..]) + t);
      assert Joined(lines) + t == lines[0] + "\n" + (Joined(lines[1..]) + t);
    }
  }

  lemma {:induction false} LinesInside(head: string, t: string)
    requires '\n' !in head
    ensures Lines(head + t) == [head + Lines(t)[0]] + Lines(t)[1..]
  {
    if head == [] {
      assert head + t == t && head + Lines(t)[0] == Lines(t)[0];
    } else {
      LinesInside(head[1..], t);
      assert (head + t)[1..] == head[1..] + t;
      assert [head[0]] + (head[1..] + Lines(t)[0]) == head + Lines(t)[0];
    }
  }

  /** A file with a value in the middle: the lines before it, the line it starts on, and others. */
  lemma LinesAround(before: seq<string>, head: string, v: string, after: seq<string>) returns (rest: seq<string>)
    requires Plain(before) && '\n' !in head
    ensures Lines(Joined(before + ([head + v] + after))) == before + ([head + Lines(v)[0]] + rest)
  {
    hide Lines; hide Joined; hide Plain;
    var t := v + ("\n" + Joined(after));
    JoinedAppend(before, [head + v] + after);
    JoinedOne(head + v, after);
    assert head + v + "\n" + Joined(after) == head + t;
    LinesAfter(before, head + t);
    LinesInside(head, t);
    FirstOfLines(v, Joined(after));
    rest := Lines(t)[1..];
  }

  lemma JoinedOne(line: string, after: seq<string>)
    ensures Joined([line] + after) == line + "\n" + Joined(after)
  {
    assert ([line] + after)[1..] == after;
  }

  lemma {:induction false} FirstOfLines(v: string, more: string)
    ensures Lines(v + ("\n" + more))[0] == Lines(v)[0]
  {
    var t := v + ("\n" + more);
    if v == [] {
      assert t[0] == '\n';
    } else {
      FirstOfLines(v[1..], more);
      assert t[0] == v[0] && t[1..] == v[1..] + ("\n" + more);
    }
  }

  lemma {:induction false} CreateSplit(g: Graph, names: seq<seq<string>>, i: nat, n: nat) returns (post: seq<string>)
    requires i < n <= |g.modules| && Ordered(g.modules, names)
    ensures forall k :: 0 <= k < |names[i]| ==> names[i][k] in g.modules[i].props
    ensures var m := g.modules[i];
            CreateAll(g, names, n)
            == CreateAll(g, names, i) + ([CreateLine(m.kind, Id(m))] + (PropLines(m, names[i]) + post))
    decreases n
  {
    hide PropLines; hide CreateLine; hide Id;
    ModuleKeys(g, names, i);
    if n == i + 1 {
      post := [""];
    } else {
      post := CreateSplit(g, names, i, n - 1);
      var m := g.modules[n - 1];
      post := post + ([CreateLine(m.kind, Id(m))] + (PropLines(m, names[n - 1]) + [""]));
    }
  }

  lemma {:induction false} PropSplit(m: Module, names: seq<string>, k: nat) returns (post: seq<string>)
    requires k < |names| && forall i :: 0 <= i < |names| ==> names[i] in m.props
    ensures PropLines(m, names) == PropLines(m, names[..k]) + ([PropLine(Id(m), names[k], m.props[names[k]])] + post)
    decreases |names|
  {
    hide PropLine; hide Id;
    var front, last := names[..|names| - 1], names[|names| - 1];
    if k == |names| - 1 {
      post := [];
    } else {
      post := PropSplit(m, front, k);
      assert front[..k] == names[..k];
      post := post + [PropLine(Id(m), last, m.props[last])];
    }
  }

  /** The lines of a file before those of property `k` of module `i`. */
  ghost function LinesBefore(g: Graph, names: seq<seq<string>>, date: string, i: nat, k: nat): seq<string>
    requires Ordered(g.modules, names) && i < |g.modules| && k <= |names[i]|
  {
    var m := g.modules[i];
    Header(date) + (CreateAll(g, names, i) + ([CreateLine(m.kind, Id(m))] + PropLines(m, names[i][..k])))
  }

  lemma FileSplit(f: Factory, g: Graph, names: seq<seq<string>>, date: string, i: nat, k: nat)
    returns (after: seq<string>)
    requires Ordered(g.modules, names) && i < |g.modules| && k < |names[i]| && names[i][k] in g.modules[i].props
    ensures var m, x := g.modules[i], names[i][k];
            SaveLines(f, g, names, date)
            == LinesBefore(g, names, date, i, k) + ([PropLine(Id(m), x, m.props[x])] + after)
  {
    var n, m, x := |g.modules|, g.modules[i], names[i][k];
    SaveLinesAre(f, g, names, date);
    BeforeIs(g, names, date, i, k, m);
    var b := CreateSplit(g, names, i, n);
    var a := PropSplit(m, names[i], k);
    hide *;
    var last := ConnectLines(Conns(f, g, n)) + DataAll(g, names, n);
    after := a + b + last;
    Regrouped(Header(date), CreateAll(g, names, i), [CreateLine(m.kind, Id(m))], PropLines(m, names[i][..k]),
      [PropLine(Id(m), x, m.props[x])], a, b, last);
  }

  lemma SaveLinesAre(f: Factory, g: Graph, names: seq<seq<string>>, date: string)
    requires Ordered(g.modules, names)
    ensures var n := |g.modules|;
            SaveLines(f, g, names, date)
            == Header(date) + (CreateAll(g, names, n) + (ConnectLines(Conns(f, g, n)) + DataAll(g, names, n)))
  {}

  lemma Regrouped(h: seq<string>, c: seq<string>, l: seq<string>, p: seq<string>, x: seq<string>, a: seq<string>,
                  b: seq<string>, z: seq<string>)
    ensures h + ((c + (l + ((p + (x + a)) + b))) + z) == (h + (c + (l + p))) + (x + (a + b + z))
  {}

  // ----- the lines before an odd value do not see it

  lemma {:induction false} CreateSame(g: Graph, h: Graph, names: seq<seq<string>>, k: nat)
    requires k <= |g.modules| == |h.modules| && Ordered(g.modules, names) && Ordered(h.modules, names)
    requires g.modules[..k] == h.modules[..k]
    ensures CreateAll(g, names, k) == CreateAll(h, names, k)
    decreases k
  {
    hide PropLines; hide CreateLine; hide Id;
    if k > 0 {
      assert g.modules[k - 1] == g.modules[..k][k - 1] == h.modules[..k][k - 1];
      assert g.modules[..k - 1] == g.modules[..k][..k - 1] == h.modules[..k][..k - 1] == h.modules[..k - 1];
      CreateSame(g, h, names, k - 1);
    }
  }

  lemma {:induction false} PropsSame(m: Module, n: Module, names: seq<string>)
    requires (forall i :: 0 <= i < |names| ==> names[i] in m.props && names[i] in n.props)
    requires Id(m) == Id(n) && forall i :: 0 <= i < |names| ==> m.props[names[i]] == n.props[names[i]]
    ensures PropLines(m, names) == PropLines(n, names)
  {
    hide PropLine; hide Id;
    if names != [] { PropsSame(m, n, names[..|names| - 1]); }
  }

  /** The first value that is more than a word: module `i`, property `k` in the order of its file. */
  ghost predicate FirstOdd(g: Graph, names: seq<seq<string>>, i: nat, k: nat) {
    && Ordered(g.modules, names) && i < |g.modules| && k < |names[i]|
    && (forall j :: 0 <= j < i ==> FitProps(g.modules[j]))
    && (forall j :: 0 <= j <= k ==> names[i][j] in g.modules[i].props)
    && (forall j :: 0 <= j < k ==> Fits(g.modules[i].props[names[i][j]]))
    && !Fits(g.modules[i].props[names[i][k]])
  }

  lemma BlankedAt(g: Graph, i: nat)
    requires i < |g.modules|
    ensures BlankedGraph(g).modules[i] == BlankedModule(g.modules[i])
  {}

  lemma BlankedPrefix(g: Graph, k: nat)
    requires k <= |g.modules| && forall j :: 0 <= j < k ==> FitProps(g.modules[j])
    ensures g.modules[..k] == BlankedGraph(g).modules[..k]
  {
    hide FitProps; hide BlankedModule;
    forall j | 0 <= j < k ensures g.modules[j] == BlankedGraph(g).modules[j] { FitIsSame(g.modules[j]); }
  }

  lemma {:induction false} BlankedProps(m: Module, names: seq<string>)
    requires Id(BlankedModule(m)) == Id(m)
    requires forall j :: 0 <= j < |names| ==> names[j] in m.props && Fits(m.props[names[j]])
    ensures (forall j :: 0 <= j < |names| ==> names[j] in BlankedModule(m).props)
    ensures PropLines(m, names) == PropLines(BlankedModule(m), names)
  {
    hide PropLines; hide Id; hide Fits;
    PropsSame(m, BlankedModule(m), names);
  }

  lemma FirstOddParts(g: Graph, names: seq<seq<string>>, i: nat, k: nat)
    requires FirstOdd(g, names, i, k)
    ensures Ordered(g.modules, names) && i < |g.modules| == |names| && k < |names[i]|
    ensures forall j :: 0 <= j < i ==> FitProps(g.modules[j])
    ensures forall j :: 0 <= j < |names[i][..k]| ==>
              names[i][..k][j] in g.modules[i].props && Fits(g.modules[i].props[names[i][..k][j]])
    ensures names[i][k] in g.modules[i].props && !Fits(g.modules[i].props[names[i][k]])
  {
    hide Fits; hide FitProps;
    ModuleKeys(g, names, i);
  }

  lemma SavedModule(f: Factory, g: Graph, names: seq<seq<string>>, i: nat)
    requires Saved(f, BlankedGraph(g), names) && i < |g.modules|
    ensures Ordered(BlankedGraph(g).modules, names) && WfModule(f, BlankedModule(g.modules[i]))
  {
    hide WfModule; hide Wired; hide BlankedModule;
    BlankedAt(g, i);
  }

  lemma BeforeIs(g: Graph, names: seq<seq<string>>, date: string, i: nat, k: nat, m: Module)
    requires Ordered(g.modules, names) && i < |g.modules| && k <= |names[i]| && m == g.modules[i]
    ensures forall j :: 0 <= j < |names[i][..k]| ==> names[i][..k][j] in m.props
    ensures LinesBefore(g, names, date, i, k)
         == Header(date) + (CreateAll(g, names, i) + ([CreateLine(m.kind, Id(m))] + PropLines(m, names[i][..k])))
  {
    hide CreateAll; hide PropLines; hide Header; hide CreateLine; hide Id;
  }

  lemma BeforeSame(f: Factory, g: Graph, names: seq<seq<string>>, date: string, i: nat, k: nat)
    requires FirstOdd(g, names, i, k) && Saved(f, BlankedGraph(g), names)
    ensures LinesBefore(g, names, date, i, k) == LinesBefore(BlankedGraph(g), names, date, i, k)
    ensures Id(g.modules[i]) == Id(BlankedGraph(g).modules[i])
  {
    var h, m := BlankedGraph(g), g.modules[i];
    assert BlankedModule(m).kind == m.kind;
    hide *;
    FirstOddParts(g, names, i, k);
    SavedModule(f, g, names, i);
    SameId(f, m);
    BlankedAt(g, i);
    BlankedPrefix(g, i);
    CreateSame(g, h, names, i);
    BlankedProps(m, names[i][..k]);
    BeforeIs(g, names, date, i, k, m);
    BeforeIs(h, names, date, i, k, BlankedModule(m));
  }

  lemma SameId(f: Factory, m: Module)
    requires WfModule(f, BlankedModule(m))
    ensures Id(BlankedModule(m)) == Id(m) && Token(Id(m))
  {
    hide Compatible; hide WfProp;
  }

  // ----- up to the first odd value the file is read as usual

  ghost function Before(f: Factory, h: Graph, names: seq<seq<string>>, i: nat, k: nat): State
    requires Ordered(h.modules, names) && i < |h.modules| && k <= |names[i]|
    requires forall j :: 0 <= j <= i ==> h.modules[j].kind in f
  {
    var m := h.modules[i];
    var half := Module(m.kind, Half(NewModule(f, m.kind, Id(m)).props, m, names[i][..k]));
    START.(graph := START.graph.(modules := Halves(f, h, names, i) + [half]),
           lates := AllLates(h, names, i) + Lates(m, names[i][..k]))
  }

  lemma BeforeRun(f: Factory, h: Graph, names: seq<seq<string>>, date: string, i: nat, k: nat)
    requires Ordered(h.modules, names) && WfModules(f, h.modules) && i < |h.modules| && k <= |names[i]|
    ensures Run(f, START, LinesBefore(h, names, date, i, k)) == Some(Before(f, h, names, i, k))
  {
    var m, front := h.modules[i], names[i][..k];
    NewIsFixed(f, m);
    WfParts(f, m);
    hide Step; hide WfModule; hide Id; hide Run; hide Lates; hide PropLines; hide CreateLine; hide CreateAll;
    hide Find; hide Header; hide NewModule; hide Half; hide AllLates; hide Halves; hide Token; hide WfProp;
    HeaderRun(f, START, date);
    var a, b := CreateAll(h, names, i), [CreateLine(m.kind, Id(m))];
    RunSplit(f, START, Header(date), a + (b + PropLines(m, front)));
    CreateRun(f, h, names, i);
    HalvesAt(f, h, names, i);
    var ms := Halves(f, h, names, i);
    FindNone(ms, Id(m));
    RunSplit(f, START, a, b + PropLines(m, front));
    var s := START.(graph := START.graph.(modules := ms), lates := AllLates(h, names, i));
    CreateNext(f, s, m);
    RunSplit(f, s, b, PropLines(m, front));
    var base := NewModule(f, m.kind, Id(m));
    PropsRun(f, s.(graph := s.graph.(modules := ms + [base])), ms, base.props, m, front);
  }

  lemma BeforePlain(f: Factory, h: Graph, names: seq<seq<string>>, date: string, i: nat, k: nat)
    requires Ordered(h.modules, names) && WfModules(f, h.modules) && i < |h.modules| && k <= |names[i]|
    requires '\n' !in date
    ensures Plain(LinesBefore(h, names, date, i, k))
  {
    var m, front := h.modules[i], names[i][..k];
    WfNames(f, m);
    hide WfModule; hide WfId; hide Token; hide Spaced; hide PropLines; hide CreateAll; hide Header; hide Id;
    hide WfProp;
    IdToken(m);
    PlainHeader(date);
    PlainCreates(f, h, names, i);
    PlainWords(["pipeline", "create", m.kind, Id(m)], []);
    PlainProps(m, front);
    PlainJoin([CreateLine(m.kind, Id(m))], PropLines(m, front));
    PlainJoin(CreateAll(h, names, i), [CreateLine(m.kind, Id(m))] + PropLines(m, front));
    PlainJoin(Header(date), CreateAll(h, names, i) + ([CreateLine(m.kind, Id(m))] + PropLines(m, front)));
  }

  /** Setting a property of the last module leaves it at most a word. */
  lemma LastIsShort(ms: seq<Module>, half: Module, id: string, x: string, w: string)
    requires FixedIds(ms) && IdFixed(half.props, id) && Find(ms, id).None? && Word(w)
    requires var p := Get(half.props, x); p.value.S? && (p.readOnly ==> p.value == S(""))
    ensures Short(ms + [half.(props := Set(half.props, x, w))], id, |ms|, x)
  {
    var last := half.(props := Set(half.props, x, w));
    NextProp(Get(half.props, x), w);
    hide Find; hide Fits; hide SetString;
    assert IdFixed(last.props, id) by { SetKeepsId(half.props, id, x, w); }
    FixedId(last, id);
    FindLast(ms, last, id);
  }

  lemma SetKeepsId(props: Props, id: string, x: string, w: string)
    requires IdFixed(props, id)
    ensures IdFixed(Set(props, x, w), id)
  {}

  /** The property that comes next is at most a word once its line is read. */
  lemma NextIsShort(f: Factory, h: Graph, names: seq<seq<string>>, i: nat, k: nat, w: string)
    requires Ordered(h.modules, names) && WfModules(f, h.modules) && i < |h.modules| && k < |names[i]| && Word(w)
    requires names[i][k] in h.modules[i].props && names[i][k] != "id"
    requires var p := h.modules[i].props[names[i][k]]; p.value == S("") && !p.text
    ensures var x, id, s := names[i][k], Id(h.modules[i]), Before(f, h, names, i, k);
            Assign(s, id, x, w).Some? && Short(Assign(s, id, x, w).value.graph.modules, id, i, x)
  {
    var m, front, x, id := h.modules[i], names[i][..k], names[i][k], Id(h.modules[i]);
    var base, ms, s := NewModule(f, m.kind, id).props, Halves(f, h, names, i), Before(f, h, names, i, k);
    var half := Module(m.kind, Half(base, m, front));
    NewIsFixed(f, m);
    BaseProp(f, m, x);
    NotBefore(names[i], k);
    HalvesFixed(f, h, names, i);
    HalvesAt(f, h, names, i);
    ModuleKeys(h, names, i);
    hide *;
    HalfKeepsId(base, m, front, id);
    FixedId(half, id);
    FindNone(ms, id);
    FindLast(ms, half, id);
    AssignLast(s, ms, half, id, x, w);
    HalfAt(base, m, front, x);
    LastIsShort(ms, half, id, x, w);
  }

  lemma NotBefore(names: seq<string>, k: nat)
    requires Distinct(names) && k < |names|
    ensures names[k] !in names[..k]
  {}

  lemma BaseProp(f: Factory, m: Module, x: string)
    requires WfModule(f, m) && x in m.props && x != "id" && m.props[x].value == S("") && !m.props[x].text
    ensures var p := Get(NewModule(f, m.kind, Id(m)).props, x); p.value.S? && (p.readOnly ==> p.value == S(""))
  {
    NewProps(f, m);
    hide WfModule; hide NewModule;
    assert Compatible(Get(NewModule(f, m.kind, Id(m)).props, x), m.props[x]);
  }

  lemma NextProp(p: Prop, w: string)
    requires p.value.S? && (p.readOnly ==> p.value == S("")) && Word(w)
    ensures SetString(p, w).value.S? && Fits(SetString(p, w))
  {}

  /** The lines of the file around the first odd value. */
  lemma {:induction false} OddFile(f: Factory, g: Graph, names: seq<seq<string>>, date: string, i: nat, k: nat)
    returns (rest: seq<string>)
    requires FirstOdd(g, names, i, k) && Saved(f, BlankedGraph(g), names) && '\n' !in date
    ensures var m, x := g.modules[i], names[i][k];
            Lines(Save(f, g, names, date))
            == LinesBefore(BlankedGraph(g), names, date, i, k)
               + ([SetHead(Id(m), x) + Lines(AsString(m.props[x].value))[0]] + rest)
  {
    hide *;
    FirstOddParts(g, names, i, k);
    SavedModule(f, g, names, i);
    var h, m, x := BlankedGraph(g), g.modules[i], names[i][k];
    OddProp(f, m, x);
    SavedParts(f, h, names);
    BeforeSame(f, g, names, date, i, k);
    BeforePlain(f, h, names, date, i, k);
    var after := FileSplit(f, g, names, date, i, k);
    SetHeadPlain(Id(m), x);
    PropLineIs(Id(m), x, m.props[x]);
    rest := LinesAround(LinesBefore(h, names, date, i, k), SetHead(Id(m), x), AsString(m.props[x].value), after);
    SaveIs(f, g, names, date);
  }

  /** The start of the line that sets a property. */
  function SetHead(id: string, name: string): string { Spaced(["pipeline", "set", id, name]) + " " }

  lemma SetHeadPlain(id: string, name: string)
    requires Token(id) && Token(name)
    ensures '\n' !in SetHead(id, name)
  {
    hide Token; hide Spaced;
    SetWords();
    PlainWords(["pipeline", "set", id, name], []);
    assert SetHead(id, name) == Spaced(["pipeline", "set", id, name]) + (" " + []);
  }

  lemma PropLineIs(id: string, name: string, p: Prop)
    requires !p.text
    ensures PropLine(id, name, p) == SetHead(id, name) + AsString(p.value)
  {
    hide Spaced; hide AsString;
  }

  /** The first odd value does not come back: its line is refused, or it leaves a word at most. */
  lemma OddLost(f: Factory, g: Graph, names: seq<seq<string>>, date: string, i: nat, k: nat)
    requires FirstOdd(g, names, i, k) && Saved(f, BlankedGraph(g), names) && '\n' !in date
    ensures var r, p, x := Load(f, Save(f, g, names, date)), g.modules[i].props[names[i][k]], names[i][k];
            && (|Tokens(Lines(AsString(p.value))[0])| > 1 ==> r == None)
            && (r.Some? ==> Short(r.value.modules, Id(g.modules[i]), i, x))
  {
    var h, m, x := BlankedGraph(g), g.modules[i], names[i][k];
    var id, v := Id(m), Lines(AsString(m.props[x].value))[0];
    OddProp(f, m, x);
    SavedParts(f, h, names);
    SameId(f, m);
    assert h.modules[i] == BlankedModule(m);
    var rest := OddFile(f, g, names, date, i, k);
    var s := Before(f, h, names, i, k);
    assert !s.dataMode;
    hide *;
    BeforeRun(f, h, names, date, i, k);
    LoadIs(f, Save(f, g, names, date));
    var line := SetHead(id, x) + v;
    RunSplit(f, START, LinesBefore(h, names, date, i, k), [line] + rest);
    RunSplit(f, s, [line], rest);
    RunOne(f, s, line);
    SetLine(f, s, id, x, v);
    if |Tokens(v)| <= 1 {
      var w := if Tokens(v) == [] then "" else Tokens(v)[0];
      FirstWord(v);
      NextIsShort(f, h, names, i, k, w);
      var t := Assign(s, id, x, w).value;
      if Run(f, t, rest).Some? { ShortRun(f, t, rest, id, i, x); }
    }
  }

  lemma FirstWord(v: string)
    ensures Tokens(v) == [] || Word(Tokens(v)[0])
    ensures Word("")
  {
    TokensAreTokens(v);
  }

  lemma SaveIs(f: Factory, g: Graph, names: seq<seq<string>>, date: string)
    requires Ordered(g.modules, names)
    ensures Save(f, g, names, date) == Joined(SaveLines(f, g, names, date))
  {}

  lemma LoadIs(f: Factory, t: string)
    ensures Load(f, t) == match Run(f, START, Lines(t)) case None => None case Some(s) => Some(s.graph)
  {}

  /** An odd value is a string, not an id, and blanked. */
  lemma OddProp(f: Factory, m: Module, x: string)
    requires WfModule(f, BlankedModule(m)) && x in m.props && !Fits(m.props[x])
    ensures Token(Id(m)) && Token(x) && x != "id" && x in BlankedModule(m).props && !m.props[x].text
    ensures BlankedModule(m).props[x] == Prop(S(""), false, BlankedModule(m).props[x].readOnly)
  {
    SameId(f, m);
    hide Compatible; hide WfProp;
  }

  // ----- the exact condition

  /** The same pipeline: modules, kinds, values, connections, and observers in order. */
  ghost predicate Same(g: Graph, r: Graph) {
    && |r.modules| == |g.modules| && r.inputs == g.inputs
    && (forall s :: Observing(r.observers, s) == Observing(g.observers, s))
    && forall i :: 0 <= i < |g.modules| ==> SameModule(g.modules[i], r.modules[i])
  }

  ghost predicate SameModule(m: Module, r: Module) {
    && r.kind == m.kind && (forall x :: x in r.props <==> x in m.props)
    && forall x :: x in m.props ==> r.props[x].value == m.props[x].value && r.props[x].text == m.props[x].text
  }

  lemma FindFirstOdd(g: Graph, names: seq<seq<string>>) returns (i: nat, k: nat)
    requires Ordered(g.modules, names) && exists i :: 0 <= i < |g.modules| && !FitProps(g.modules[i])
    ensures FirstOdd(g, names, i, k)
  {
    hide Fits;
    i := FirstOddModule(g);
    ModuleKeys(g, names, i);
    var x :| x in g.modules[i].props && !Fits(g.modules[i].props[x]);
    var at :| 0 <= at < |names[i]| && names[i][at] == x;
    k := FirstOddName(g.modules[i], names[i], 0);
  }

  lemma {:induction false} FirstOddModule(g: Graph) returns (i: nat)
    requires exists i :: 0 <= i < |g.modules| && !FitProps(g.modules[i])
    ensures i < |g.modules| && !FitProps(g.modules[i]) && forall j :: 0 <= j < i ==> FitProps(g.modules[j])
  {
    hide FitProps;
    i := 0;
    while FitProps(g.modules[i])
      invariant i < |g.modules| && forall j :: 0 <= j < i ==> FitProps(g.modules[j])
      decreases |g.modules| - i
    {
      i := i + 1;
    }
  }

  lemma {:induction false} FirstOddName(m: Module, names: seq<string>, from: nat) returns (k: nat)
    requires from < |names| && forall j :: 0 <= j < |names| ==> names[j] in m.props
    requires exists j :: from <= j < |names| && !Fits(m.props[names[j]])
    ensures from <= k < |names| && !Fits(m.props[names[k]])
    ensures forall j :: from <= j < k ==> Fits(m.props[names[j]])
    decreases |names| - from
  {
    hide Fits;
    if !Fits(m.props[names[from]]) {
      k := from;
    } else {
      k := FirstOddName(m, names, from + 1);
    }
  }

  /** A pipeline comes back whole from its file exactly when every short value is a word or nothing,
      and every long text is empty or made of lines that end, are not empty, do not start with a
      number sign, hold more than white space and do not start with the boundary. */
  lemma ComesBackWhole(f: Factory, g: Graph, names: seq<seq<string>>, date: string)
    requires Ordered(g.modules, names) && Saved(f, BlankedGraph(g), names) && '\n' !in date
    ensures var r := Load(f, Save(f, g, names, date));
            r.Some? && Same(g, r.value)
            <==> forall i :: 0 <= i < |g.modules| ==> FitProps(g.modules[i]) && CarriedTexts(g.modules[i])
  {
    hide Load; hide Save; hide Saved; hide Same; hide CarriedTexts; hide FitProps; hide BlankedGraph;
    var r := Load(f, Save(f, g, names, date));
    if forall i :: 0 <= i < |g.modules| ==> FitProps(g.modules[i]) {
      AllFitIsSame(g);
      if forall i :: 0 <= i < |g.modules| ==> CarriedTexts(g.modules[i]) {
        FitLoads(f, g, names, date);
      }
      if r.Some? && Same(g, r.value) {
        SameTexts(g, r.value);
        BackIsCarried(f, g, names, date);
      }
    } else if r.Some? {
      var i, k := FindFirstOdd(g, names);
      OddLost(f, g, names, date, i, k);
      OddNotSame(g, r.value, names, i, k);
    }
  }

  lemma SameTexts(g: Graph, r: Graph)
    requires Same(g, r)
    ensures TextsBack(g, r)
  {
    forall i, x | 0 <= i < |g.modules| && x in g.modules[i].props && g.modules[i].props[x].text
      ensures ValueOf(r.modules, i, x) == g.modules[i].props[x].value
    {
      assert SameModule(g.modules[i], r.modules[i]);
    }
  }

  lemma OddNotSame(g: Graph, r: Graph, names: seq<seq<string>>, i: nat, k: nat)
    requires FirstOdd(g, names, i, k) && Short(r.modules, Id(g.modules[i]), i, names[i][k])
    ensures !Same(g, r)
  {
    hide FixedIds; hide Find; hide Fits; hide SameModule; hide Observing;
    OddModuleDiffers(g.modules[i], r.modules[i], names[i][k]);
  }

  lemma OddModuleDiffers(m: Module, r: Module, x: string)
    requires x in m.props && !Fits(m.props[x]) && Fits(Get(r.props, x))
    ensures !SameModule(m, r)
  {
    hide Token;
  }

  lemma FitLoads(f: Factory, g: Graph, names: seq<seq<string>>, date: string)
    requires Saved(f, g, names) && '\n' !in date
    requires forall i :: 0 <= i < |g.modules| ==> CarriedTexts(g.modules[i])
    ensures var r := Load(f, Save(f, g, names, date)); r.Some? && Same(g, r.value)
  {
    hide Load; hide Save; hide Saved; hide CarriedTexts; hide ReadableTexts; hide Loads; hide Restored; hide Wired;
    hide WfModule; hide AllLates; hide Observing; hide SameModule;
    SavedParts(f, g, names);
    forall i | 0 <= i < |g.modules| ensures ReadableTexts(g.modules[i]) && Loads(g.modules[i], names[i]) {
      ModuleKeys(g, names, i);
      CarriedModule(g.modules[i], names[i]);
    }
    RoundTrip(f, g, names, date);
    var r := Load(f, Save(f, g, names, date)).value;
    forall i | 0 <= i < |g.modules| ensures SameModule(g.modules[i], r.modules[i]) {
      WfNames(f, g.modules[i]);
      RestoredSame(g.modules[i], r.modules[i]);
    }
  }

  lemma RestoredSame(m: Module, r: Module)
    requires Restored(m, r) && CarriedTexts(m) && forall x :: x in m.props ==> WfProp(m.props[x])
    ensures SameModule(m, r)
  {
    hide Kept; hide Lines; hide Ordinary; hide Harmless; hide Token;
    forall x | x in m.props ensures r.props[x].value == m.props[x].value && r.props[x].text == m.props[x].text {
      assert RestoredProp(m.props[x], r.props[x]);
      if m.props[x].text { CarriedRestored(m, r, x); }
    }
  }

  // ----- two inputs of a module on one stream

  /** The index that is saved is that of the first such input. */
  lemma {:induction false} InputIndexFirst(inputs: map<(string, int), Stream>, id: string, s: Stream, n: nat,
                                           count: nat)
    ensures var r := InputIndex(inputs, id, s, n, count);
            r == -1 || (n <= r && (id, r) in inputs && inputs[(id, r)] == s
                        && forall j :: n <= j < r ==> !((id, j) in inputs && inputs[(id, j)] == s))
    decreases count - n
  {
    if n < count { InputIndexFirst(inputs, id, s, n + 1, count); }
  }

  /** Observers are named by words. */
  ghost predicate Named(g: Graph) {
    && (forall s, id :: id in Observing(g.observers, s) ==> Token(id))
    && forall i :: 0 <= i < |g.modules| ==> Token(Id(g.modules[i]))
  }

  /** A connection between words that is not to this input. */
  predicate Elsewhere(c: Conn, key: (string, int)) { Token(c.from.id) && Token(c.to) && (c.to, c.input) != key }

  /** Another input of the module, before this one, reads the same stream. */
  predicate Second(inputs: map<(string, int), Stream>, id: string, a: nat, b: nat) {
    a < b && (id, a) in inputs && (id, b) in inputs && inputs[(id, a)] == inputs[(id, b)]
  }

  lemma StreamElsewhere(f: Factory, g: Graph, s: Stream, id: string, a: nat, b: nat)
    requires Named(g) && Second(g.inputs, id, a, b) && Token(s.id)
    ensures forall c :: c in StreamConns(f, g, s, Observing(g.observers, s)) ==> Elsewhere(c, (id, b))
  {
    hide Token; hide InputIndex; hide InputCount; hide Observing;
    var os := Observing(g.observers, s);
    forall i | 0 <= i < |os| ensures Elsewhere(StreamConns(f, g, s, os)[i], (id, b)) {
      assert os[i] in os;
      InputIndexFirst(g.inputs, os[i], s, 0, InputCount(f, g.modules, os[i]));
    }
  }

  lemma {:induction false} ModuleElsewhere(f: Factory, g: Graph, from: string, n: nat, id: string, a: nat, b: nat)
    requires Named(g) && Second(g.inputs, id, a, b) && Token(from)
    ensures forall c :: c in ModuleConns(f, g, from, n) ==> Elsewhere(c, (id, b))
    decreases n
  {
    hide Named; hide Second; hide StreamConns; hide Elsewhere; hide Token;
    if n > 0 {
      ModuleElsewhere(f, g, from, n - 1, id, a, b);
      StreamElsewhere(f, g, Stream(from, n - 1), id, a, b);
    }
  }

  lemma {:induction false} ConnsElsewhere(f: Factory, g: Graph, k: nat, id: string, a: nat, b: nat)
    requires k <= |g.modules| && Named(g) && Second(g.inputs, id, a, b)
    ensures forall c :: c in Conns(f, g, k) ==> Elsewhere(c, (id, b))
    decreases k
  {
    hide Second; hide ModuleConns; hide Elsewhere; hide Token; hide Observing; hide Id;
    if k > 0 {
      ConnsElsewhere(f, g, k - 1, id, a, b);
      ModuleElsewhere(f, g, Id(g.modules[k - 1]), OutputCount(f, g.modules[k - 1]), id, a, b);
    }
  }

  lemma ConnectLeaves(f: Factory, s: State, c: Conn, key: (string, int))
    requires Elsewhere(c, key) && key !in s.graph.inputs && !s.dataMode && Step(f, s, ConnectLine(c)).Some?
    ensures var r := Step(f, s, ConnectLine(c)).value;
            key !in r.graph.inputs && r == s.(graph := r.graph) && r.graph.modules == s.graph.modules
  {
    hide Step; hide Find; hide ConnectLine; hide Token;
    ConnectStep(f, s, c);
    ConnectKeeps(f, s, c.from.id, c.from.output, c.to, c.input);
  }

  lemma {:induction false} ConnectsLeave(f: Factory, s: State, conns: seq<Conn>, key: (string, int))
    requires (forall i :: 0 <= i < |conns| ==> Elsewhere(conns[i], key)) && key !in s.graph.inputs && !s.dataMode
    requires Run(f, s, ConnectLines(conns)).Some?
    ensures var r := Run(f, s, ConnectLines(conns)).value;
            key !in r.graph.inputs && r == s.(graph := r.graph) && r.graph.modules == s.graph.modules
    decreases |conns|
  {
    hide Step; hide Elsewhere; hide ConnectLine;
    if conns != [] {
      ConnectLeaves(f, s, conns[0], key);
      assert ConnectLines(conns)[1..] == ConnectLines(conns[1..]);
      ConnectsLeave(f, Step(f, s, ConnectLine(conns[0])).value, conns[1..], key);
    }
  }

  lemma PlainElsewhere(conns: seq<Conn>, key: (string, int))
    requires forall i :: 0 <= i < |conns| ==> Elsewhere(conns[i], key)
    ensures Plain(ConnectLines(conns))
  {
    hide Token; hide Spaced; hide Decimal.PrintInt;
    CommandWords();
    forall i | 0 <= i < |conns| ensures '\n' !in ConnectLine(conns[i]) {
      var c := conns[i];
      assert Elsewhere(c, key);
      IntToken(c.from.output);
      IntToken(c.input);
      PlainWords(["pipeline", "connect", c.from.id, Decimal.PrintInt(c.from.output), c.to, Decimal.PrintInt(c.input)],
        []);
    }
  }

  /** Only the first of several inputs of a module on one stream is saved: if the file loads, the
      others are not connected. */
  lemma SecondInputLost(f: Factory, g: Graph, names: seq<seq<string>>, date: string, id: string, a: nat, b: nat)
    requires Ordered(g.modules, names) && WfModules(f, g.modules) && Named(g) && '\n' !in date
    requires DistinctTags(AllLates(g, names, |g.modules|))
    requires forall i :: 0 <= i < |g.modules| ==> ReadableTexts(g.modules[i])
    requires Second(g.inputs, id, a, b)
    ensures var r := Load(f, Save(f, g, names, date)); r.Some? ==> (id, b) !in r.value.inputs
  {
    var n := |g.modules|;
    var conns := Conns(f, g, n);
    ConnsElsewhere(f, g, n, id, a, b);
    assert forall i :: 0 <= i < |conns| ==> conns[i] in conns;
    ModuleKinds(f, g.modules);
    hide *;
    PlainElsewhere(conns, (id, b));
    PlainSave(f, g, names, date);
    SaveLinesAre(f, g, names, date);
    LoadIs(f, Save(f, g, names, date));
    CreatedRun(f, g, names, date, ConnectLines(conns), DataAll(g, names, n));
    var s := Created(f, g, names);
    CreatedParts(f, g, names);
    RunSplit(f, s, ConnectLines(conns), DataAll(g, names, n) + [""]);
    if Run(f, s, ConnectLines(conns)).Some? {
      ConnectsLeave(f, s, conns, (id, b));
      var t := Run(f, s, ConnectLines(conns)).value;
      DataLeaves(f, g, names, t, (id, b));
    }
  }

  lemma CreatedParts(f: Factory, g: Graph, names: seq<seq<string>>)
    requires Ordered(g.modules, names) && WfModules(f, g.modules)
    ensures var s := Created(f, g, names);
            && s.graph.inputs == map[] && !s.dataMode && s.dataTag == "" && s.data == "" && s.delay == DELAY
            && s.graph.modules == Mixed(f, g, names, 0) && s.lates == LatesFrom(g, names, 0)
  {
    hide WfModule; hide Halves; hide Mixed; hide AllLates; hide LatesFrom;
    HalvesAreMixed(f, g, names);
    LatesAll(g, names);
  }

  /** Header and creation lines, then others. */
  lemma CreatedRun(f: Factory, g: Graph, names: seq<seq<string>>, date: string, b: seq<string>, c: seq<string>)
    requires Ordered(g.modules, names) && WfModules(f, g.modules)
    ensures Run(f, START, Header(date) + (CreateAll(g, names, |g.modules|) + (b + c)) + [""])
         == Run(f, Created(f, g, names), b + (c + [""]))
  {
    hide Step; hide Run; hide WfModule; hide Halves; hide CreateAll; hide AllLates; hide Header;
    var a := CreateAll(g, names, |g.modules|);
    HeaderRun(f, START, date);
    CreateRun(f, g, names, |g.modules|);
    assert Header(date) + (a + (b + c)) + [""] == Header(date) + (a + (b + (c + [""])));
    RunSplit(f, START, Header(date), a + (b + (c + [""])));
    RunSplit(f, START, a, b + (c + [""]));
  }

  /** The texts leave the connections alone. */
  lemma DataLeaves(f: Factory, g: Graph, names: seq<seq<string>>, t: State, key: (string, int))
    requires Ordered(g.modules, names) && WfModules(f, g.modules)
    requires DistinctTags(AllLates(g, names, |g.modules|))
    requires forall i :: 0 <= i < |g.modules| ==> ReadableTexts(g.modules[i])
    requires t.graph.modules == Mixed(f, g, names, 0) && t.lates == LatesFrom(g, names, 0)
    requires !t.dataMode && t.dataTag == "" && t.data == "" && t.delay == DELAY && key !in t.graph.inputs
    ensures var r := Run(f, t, DataAll(g, names, |g.modules|) + [""]); r.Some? ==> key !in r.value.graph.inputs
  {
    hide Run; hide WfModule; hide ReadableTexts; hide Mixed; hide LatesFrom; hide AllLates; hide DataAll; hide AllLoad;
    hide TagAfter;
    var n := |g.modules|;
    ModuleKinds(f, g.modules);
    assert t == Between(t.graph, Mixed(f, g, names, 0), LatesFrom(g, names, 0), "");
    DataRun(f, g, t.graph, names, n);
    RunSplit(f, t, DataAll(g, names, n), [""]);
    if Run(f, t, DataAll(g, names, n)).Some? {
      var r := Run(f, t, DataAll(g, names, n)).value;
      RunOne(f, r, "");
      EmptyStep(f, r);
    }
  }
}
