/** Loading what was saved gives the same pipeline back. */
module PipelineRoundTrip {
  import opened Options
  import opened Lists
  import opened Decimal
  import opened Words
  import opened PipelineFile
  import Observers

  // ----- what is kept of a text

  predicate Dropped(line: string) { line == "" || line[0] == '#' }

  /** What remains of a text: lines that are empty or look like comments are lost, and the others
      end with a line end. */
  function KeptLines(lines: seq<string>): string {
    if lines == [] then [] else (if Dropped(lines[0]) then [] else lines[0] + "\n") + KeptLines(lines[1..])
  }

  /** A text that is just the boundary ends its own block at once. */
  function Kept(text: string): string { if text == BOUNDARY then "" else KeptLines(Lines(text)) }

  /** A line of white space: it has no first word to look at. */
  predicate Blank(line: string) { !Dropped(line) && Tokens(line) == [] }

  /** A line that ends its block. */
  predicate Bound(line: string) { !Dropped(line) && Tokens(line) != [] && Tokens(line)[0] == BOUNDARY }

  predicate Harmless(line: string) { !Blank(line) && !Bound(line) }

  predicate Unbroken(text: string) { forall i :: 0 <= i < |Lines(text)| ==> !Blank(Lines(text)[i]) }

  /** No line of the text ends its block, but for a text that is just the boundary. */
  predicate Readable(text: string) { text == BOUNDARY || forall i :: 0 <= i < |Lines(text)| ==> !Bound(Lines(text)[i]) }

  // ----- single lines

  lemma {:induction false} RunSplit(f: Factory, s: State, a: seq<string>, b: seq<string>)
    ensures Run(f, s, a + b) == match Run(f, s, a) case None => None case Some(r) => Run(f, r, b)
    decreases |a|
  {
    hide Step;
    if a == [] {
      assert a + b == b;
    } else {
      assert (a + b)[1..] == a[1..] + b;
      match Step(f, s, a[0])
      case None =>
      case Some(r) => RunSplit(f, r, a[1..], b);
    }
  }

  lemma RunOne(f: Factory, s: State, line: string)
    ensures Run(f, s, [line]) == Step(f, s, line)
  {
    hide Step;
    match Step(f, s, line)
    case None =>
    case Some(r) => assert Run(f, r, [line][1..]) == Some(r);
  }

  /** A command and its words. */
  lemma CommandLine(f: Factory, s: State, words: seq<string>, last: string)
    requires |words| > 1 && words[0] == "pipeline" && (forall i :: 0 <= i < |words| ==> Token(words[i]))
    requires !s.dataMode && (last == [] || Token(last))
    ensures Step(f, s, Spaced(words)) == Command(f, s, words)
    ensures Step(f, s, Spaced(words) + (" " + last)) == Command(f, s, if last == [] then words else words + [last])
  {
    hide Command; hide Tokens; hide Token; hide Flush;
    TokensAfter(words, last);
    TokensSpaced(words, []);
    assert Spaced(words) + [] == Spaced(words) && words + Tokens([]) == words by { NoTokens(); }
    assert Spaced(words)[0] == 'p';
    assert words[0] != BOUNDARY;
  }

  lemma NoTokens()
    ensures Tokens([]) == []
  {}

  lemma PropStep(f: Factory, s: State, id: string, name: string, p: Prop)
    requires !s.dataMode && Token(id) && Token(name) && (p.text || AsString(p.value) == [] || Token(AsString(p.value)))
    ensures Step(f, s, PropLine(id, name, p))
         == if p.text then Some(s.(lates := s.lates + [Late(id, name, Tag(id, name))]))
            else Assign(s, id, name, AsString(p.value))
  {
    hide Step; hide Assign; hide Spaced; hide AsString;
    if p.text {
      var words := ["pipeline", "settext", id, name, Tag(id, name)];
      assert Token(Tag(id, name));
      CommandLine(f, s, words, []);
    } else {
      var words := ["pipeline", "set", id, name];
      CommandLine(f, s, words, AsString(p.value));
    }
  }

  lemma CreateStep(f: Factory, s: State, kind: string, id: string)
    requires !s.dataMode && Token(id) && Token(kind)
    ensures Step(f, s, CreateLine(kind, id)) == Create(f, s, kind, id)
  {
    hide Step; hide Create; hide Spaced;
    CommandLine(f, s, ["pipeline", "create", kind, id], []);
  }

  lemma IntToken(n: int)
    ensures Token(PrintInt(n))
  {
    hide PrintNat;
  }

  lemma ConnectStep(f: Factory, s: State, c: Conn)
    requires !s.dataMode && Token(c.from.id) && Token(c.to)
    ensures Step(f, s, ConnectLine(c)) == Connect(f, s, c.from.id, c.from.output, c.to, c.input)
  {
    hide Step; hide Connect; hide Spaced; hide PrintInt; hide Atoi;
    IntToken(c.from.output);
    IntToken(c.input);
    AtoiRoundTrip(c.from.output);
    AtoiRoundTrip(c.input);
    var words := ["pipeline", "connect", c.from.id, PrintInt(c.from.output), c.to, PrintInt(c.input)];
    CommandLine(f, s, words, []);
  }

  /** A boundary, with the label of a new block or alone. */
  lemma BoundaryStep(f: Factory, s: State, c: State, tag: string)
    requires Flush(s) == Some(c) && Token(tag)
    ensures Step(f, s, Spaced([BOUNDARY, tag])) == Some(c.(dataMode := true, dataTag := tag))
    ensures Step(f, s, BOUNDARY) == if s.dataMode then Some(c) else None
  {
    hide Flush; hide Tokens; hide Command;
    TokensSpaced([BOUNDARY, tag], []);
    NoTokens();
    assert Spaced([BOUNDARY, tag]) + [] == Spaced([BOUNDARY, tag]) && [BOUNDARY, tag] + [] == [BOUNDARY, tag];
    assert Token(BOUNDARY);
    TokensSpaced([BOUNDARY], []);
    assert Spaced([BOUNDARY]) == BOUNDARY && BOUNDARY + [] == BOUNDARY && [BOUNDARY] + [] == [BOUNDARY];
  }

  /** The lines of a block are collected. */
  lemma {:induction false} BlockRun(f: Factory, s: State, lines: seq<string>)
    requires s.dataMode && forall i :: 0 <= i < |lines| ==> Harmless(lines[i])
    ensures Run(f, s, lines) == Some(s.(data := s.data + KeptLines(lines)))
    decreases |lines|
  {
    hide Tokens; hide Flush; hide Command;
    if lines == [] {
      assert s.data + [] == s.data;
    } else {
      assert Harmless(lines[0]);
      var r := if Dropped(lines[0]) then s else s.(data := s.data + lines[0] + "\n");
      assert Step(f, s, lines[0]) == Some(r);
      BlockRun(f, r, lines[1..]);
      assert s.data + KeptLines(lines) == r.data + KeptLines(lines[1..]);
    }
  }

  /** A line of white space ends the reading of the file. */
  lemma {:induction false} BlankRun(f: Factory, s: State, lines: seq<string>)
    requires s.dataMode && (forall i :: 0 <= i < |lines| ==> !Bound(lines[i]))
             && exists i :: 0 <= i < |lines| && Blank(lines[i])
    ensures Run(f, s, lines) == None
    decreases |lines|
  {
    hide Tokens; hide Flush; hide Command;
    if !Blank(lines[0]) {
      var r := if Dropped(lines[0]) then s else s.(data := s.data + lines[0] + "\n");
      assert Step(f, s, lines[0]) == Some(r);
      var i :| 0 <= i < |lines| && Blank(lines[i]);
      assert lines[1..][i - 1] == lines[i];
      BlankRun(f, r, lines[1..]);
    }
  }

  // ----- pipelines that can be saved

  predicate SameType(a: Content, b: Content) { a.S? == b.S? && a.B? == b.B? && a.I? == b.I? }

  predicate WfProp(p: Prop) {
    if p.text then p.value.S? else AsString(p.value) == [] || Token(AsString(p.value))
  }

  /** A property against the one that a new module has: a long text stays one, and what cannot be
      changed was not. */
  predicate Compatible(was: Prop, p: Prop) {
    && SameType(was.value, p.value) && (was.text ==> p.text)
    && (was.readOnly ==> was.value == p.value && (p.text ==> Kept(AsString(p.value)) == AsString(p.value)))
  }

  predicate WfId(m: Module) {
    "id" in m.props && m.props["id"].value.S? && !m.props["id"].text && Token(m.props["id"].value.s)
  }

  predicate WfModule(f: Factory, m: Module) {
    && m.kind in f && Token(m.kind) && WfId(m)
    && (forall x :: x in m.props ==> Token(x) && WfProp(m.props[x]))
    && (forall x :: x in f[m.kind].props ==> x in m.props)
    && (forall x :: x in m.props && x != "id" ==> Compatible(Get(f[m.kind].props, x), m.props[x]))
    && Get(f[m.kind].props, "id").value.S? && !Get(f[m.kind].props, "id").readOnly && !Get(f[m.kind].props, "id").text
  }

  predicate ReadableTexts(m: Module) {
    forall x :: x in m.props && m.props[x].text ==> Readable(AsString(m.props[x].value))
  }

  ghost predicate DistinctIds(ms: seq<Module>) {
    forall i, j :: 0 <= i < j < |ms| ==> Id(ms[i]) != Id(ms[j])
  }

  // ----- modules and their short properties

  /** The properties of a new module once the short ones of `m` are set, in the order `names`. */
  function Half(base: Props, m: Module, names: seq<string>): Props
    requires forall i :: 0 <= i < |names| ==> names[i] in m.props
  {
    if names == [] then base
    else
      var x := names[|names| - 1];
      var b := Half(base, m, names[..|names| - 1]);
      if m.props[x].text then b else Set(b, x, AsString(m.props[x].value))
  }

  /** The long ones, to come later. */
  function Lates(m: Module, names: seq<string>): seq<Late>
    requires forall i :: 0 <= i < |names| ==> names[i] in m.props
  {
    if names == [] then []
    else
      var x := names[|names| - 1];
      Lates(m, names[..|names| - 1]) + if m.props[x].text then [Late(Id(m), x, Tag(Id(m), x))] else []
  }

  /** The id is set and stays. */
  predicate IdFixed(props: Props, id: string) { "id" in props && props["id"] == Prop(S(id), false, true) }

  lemma {:induction false} FindLast(ms: seq<Module>, x: Module, id: string)
    requires Find(ms, id).None? && Id(x) == id
    ensures Find(ms + [x], id) == Some(|ms|)
  {
    hide Id;
    if ms == [] {
      assert ms + [x] == [x];
    } else {
      FindLast(ms[1..], x, id);
      assert (ms + [x])[1..] == ms[1..] + [x];
    }
  }

  lemma {:induction false} HalfKeepsId(base: Props, m: Module, names: seq<string>, id: string)
    requires (forall i :: 0 <= i < |names| ==> names[i] in m.props) && IdFixed(base, id)
    ensures IdFixed(Half(base, m, names), id)
  {
    if names != [] { HalfKeepsId(base, m, names[..|names| - 1], id); }
  }

  lemma {:induction false} PropsRun(f: Factory, s: State, ms: seq<Module>, base: Props, m: Module, names: seq<string>)
    requires forall i :: 0 <= i < |names| ==> names[i] in m.props
    requires forall x :: x in m.props ==> Token(x) && WfProp(m.props[x])
    requires !s.dataMode && s.graph.modules == ms + [Module(m.kind, base)] && Find(ms, Id(m)).None?
    requires IdFixed(base, Id(m)) && Token(Id(m))
    ensures Run(f, s, PropLines(m, names))
         == Some(s.(graph := s.graph.(modules := ms + [Module(m.kind, Half(base, m, names))]),
            lates := s.lates + Lates(m, names)))
    decreases |names|
  {
    hide Step; hide Id; hide WfProp; hide Find; hide PropLine;
    if names == [] {
      assert s.lates + [] == s.lates;
    } else {
      var front, x := names[..|names| - 1], names[|names| - 1];
      var id, p := Id(m), m.props[x];
      PropsRun(f, s, ms, base, m, front);
      var half := Module(m.kind, Half(base, m, front));
      var r := s.(graph := s.graph.(modules := ms + [half]), lates := s.lates + Lates(m, front));
      RunSplit(f, s, PropLines(m, front), [PropLine(id, x, p)]);
      RunOne(f, r, PropLine(id, x, p));
      WfShort(p);
      PropStep(f, r, id, x, p);
      HalfKeepsId(base, m, front, id);
      FixedId(half, id);
      FindLast(ms, half, id);
      AssignLast(r, ms, half, id, x, AsString(p.value));
      assert s.lates + Lates(m, front) + [Late(id, x, Tag(id, x))]
             == s.lates + (Lates(m, front) + [Late(id, x, Tag(id, x))]);
      assert s.lates + (Lates(m, front) + []) == s.lates + Lates(m, front);
    }
  }

  lemma WfShort(p: Prop)
    requires WfProp(p)
    ensures p.text || AsString(p.value) == [] || Token(AsString(p.value))
  {}

  lemma FixedId(m: Module, id: string)
    requires IdFixed(m.props, id)
    ensures Id(m) == id
  {}

  lemma AssignLast(s: State, ms: seq<Module>, m: Module, id: string, name: string, value: string)
    requires s.graph.modules == ms + [m] && Find(s.graph.modules, id) == Some(|ms|)
    ensures Assign(s, id, name, value)
         == Some(s.(graph := s.graph.(modules := ms + [m.(props := Set(m.props, name, value))])))
  {
    hide Find; hide Set;
    assert (ms + [m])[|ms| := m.(props := Set(m.props, name, value))] == ms + [m.(props := Set(m.props, name, value))];
  }

  /** The modules after the first part of the file, and the texts still to come. */
  ghost function Halves(f: Factory, g: Graph, names: seq<seq<string>>, k: nat): (r: seq<Module>)
    requires k <= |g.modules| && Ordered(g.modules, names) && forall i :: 0 <= i < k ==> g.modules[i].kind in f
    ensures |r| == k
  {
    if k == 0 then [] else Halves(f, g, names, k - 1) + [HalfModule(f, g.modules[k - 1], names[k - 1])]
  }

  function HalfModule(f: Factory, m: Module, names: seq<string>): Module
    requires m.kind in f && forall i :: 0 <= i < |names| ==> names[i] in m.props
  {
    Module(m.kind, Half(NewModule(f, m.kind, Id(m)).props, m, names))
  }

  ghost function AllLates(g: Graph, names: seq<seq<string>>, k: nat): seq<Late>
    requires k <= |g.modules| && Ordered(g.modules, names)
  {
    if k == 0 then [] else AllLates(g, names, k - 1) + Lates(g.modules[k - 1], names[k - 1])
  }

  ghost predicate WfModules(f: Factory, ms: seq<Module>) {
    DistinctIds(ms) && forall i :: 0 <= i < |ms| ==> ms[i].kind in f && WfModule(f, ms[i])
  }

  lemma NewIsFixed(f: Factory, m: Module)
    requires WfModule(f, m)
    ensures m.kind in f
    ensures IdFixed(NewModule(f, m.kind, Id(m)).props, Id(m)) && Token(Id(m))
            && Id(NewModule(f, m.kind, Id(m))) == Id(m)
  {
    hide WfProp; hide Compatible;
  }

  lemma HalfModuleId(f: Factory, m: Module, names: seq<string>)
    requires WfModule(f, m) && forall i :: 0 <= i < |names| ==> names[i] in m.props
    ensures IdFixed(HalfModule(f, m, names).props, Id(m)) && Id(HalfModule(f, m, names)) == Id(m)
  {
    hide WfModule; hide NewModule; hide Half;
    NewIsFixed(f, m);
    HalfKeepsId(NewModule(f, m.kind, Id(m)).props, m, names, Id(m));
    FixedId(HalfModule(f, m, names), Id(m));
  }

  lemma {:induction false} HalvesAt(f: Factory, g: Graph, names: seq<seq<string>>, k: nat)
    requires k <= |g.modules| && Ordered(g.modules, names) && WfModules(f, g.modules)
    ensures forall i :: 0 <= i < k ==> Halves(f, g, names, k)[i] == HalfModule(f, g.modules[i], names[i])
    ensures forall i :: 0 <= i < k ==> Id(Halves(f, g, names, k)[i]) == Id(g.modules[i])
    decreases k
  {
    hide WfModule; hide HalfModule; hide Id;
    if k > 0 {
      HalvesAt(f, g, names, k - 1);
      HalfModuleId(f, g.modules[k - 1], names[k - 1]);
    }
  }

  lemma {:induction false} FindNone(ms: seq<Module>, id: string)
    requires forall i :: 0 <= i < |ms| ==> Id(ms[i]) != id
    ensures Find(ms, id).None?
  {
    hide Id;
    if ms != [] { FindNone(ms[1..], id); }
  }

  lemma CreateNext(f: Factory, s: State, m: Module)
    requires WfModule(f, m) && !s.dataMode && Find(s.graph.modules, Id(m)).None?
    ensures Run(f, s, [CreateLine(m.kind, Id(m))])
         == Some(s.(graph := s.graph.(modules := s.graph.modules + [NewModule(f, m.kind, Id(m))])))
  {
    hide Step; hide WfProp; hide Compatible; hide CreateLine; hide NewModule; hide Find;
    NewIsFixed(f, m);
    RunOne(f, s, CreateLine(m.kind, Id(m)));
    CreateStep(f, s, m.kind, Id(m));
  }

  lemma ModuleRun(f: Factory, s: State, m: Module, names: seq<string>)
    requires WfModule(f, m) && (forall i :: 0 <= i < |names| ==> names[i] in m.props)
    requires !s.dataMode && Find(s.graph.modules, Id(m)).None?
    ensures Run(f, s, [CreateLine(m.kind, Id(m))] + (PropLines(m, names) + [""]))
         == Some(s.(graph := s.graph.(modules := s.graph.modules + [HalfModule(f, m, names)]),
            lates := s.lates + Lates(m, names)))
  {
    var ms, fresh_ := s.graph.modules, NewModule(f, m.kind, Id(m));
    var r := s.(graph := s.graph.(modules := ms + [fresh_]));
    NewIsFixed(f, m);
    WfParts(f, m);
    hide Step; hide WfModule; hide CreateLine; hide NewModule; hide Find; hide Run; hide PropLines; hide Half;
    hide Lates; hide WfProp; hide Id; hide Token;
    CreateNext(f, s, m);
    RunSplit(f, s, [CreateLine(m.kind, Id(m))], PropLines(m, names) + [""]);
    PropsRun(f, r, ms, fresh_.props, m, names);
    RunSplit(f, r, PropLines(m, names), [""]);
    var t := r.(graph := r.graph.(modules := ms + [HalfModule(f, m, names)]), lates := s.lates + Lates(m, names));
    EmptyStep(f, t);
    RunOne(f, t, "");
  }

  lemma WfParts(f: Factory, m: Module)
    requires WfModule(f, m)
    ensures NewModule(f, m.kind, Id(m)).kind == m.kind
    ensures forall x :: x in m.props ==> Token(x) && WfProp(m.props[x])
  {}

  lemma EmptyStep(f: Factory, s: State)
    ensures Step(f, s, "") == Some(s)
  {}

  lemma {:induction false} CreateRun(f: Factory, g: Graph, names: seq<seq<string>>, k: nat)
    requires k <= |g.modules| && Ordered(g.modules, names) && WfModules(f, g.modules)
    ensures Run(f, START, CreateAll(g, names, k))
         == Some(START.(graph := START.graph.(modules := Halves(f, g, names, k)), lates := AllLates(g, names, k)))
    decreases k
  {
    hide Step; hide WfModule; hide Id; hide HalfModule; hide Run; hide Lates; hide PropLines; hide CreateLine;
    hide Find;
    if k == 0 {
      NothingRun(f, START);
    } else {
      CreateRun(f, g, names, k - 1);
      var m := g.modules[k - 1];
      var s := START.(graph := START.graph.(modules := Halves(f, g, names, k - 1)), lates := AllLates(g, names, k - 1));
      HalvesAt(f, g, names, k - 1);
      FindNone(Halves(f, g, names, k - 1), Id(m));
      ModuleRun(f, s, m, names[k - 1]);
      RunSplit(f, START, CreateAll(g, names, k - 1), [CreateLine(m.kind, Id(m))] + (PropLines(m, names[k - 1]) + [""]));
    }
  }

  lemma NothingRun(f: Factory, s: State)
    ensures Run(f, s, []) == Some(s)
  {}

  // ----- connections

  /** Inputs and observers after a list of connections to free inputs. */
  function InputsOf(conns: seq<Conn>): map<(string, int), Stream> {
    if conns == [] then map[]
    else
      var c := conns[|conns| - 1];
      InputsOf(conns[..|conns| - 1])[(c.to, c.input) := c.from]
  }

  function ObservedBy(conns: seq<Conn>): map<Stream, seq<string>> {
    if conns == [] then map[]
    else
      var c := conns[|conns| - 1];
      var o := ObservedBy(conns[..|conns| - 1]);
      o[c.from := Observing(o, c.from) + [c.to]]
  }

  ghost predicate DistinctKeys(conns: seq<Conn>) {
    forall i, j :: 0 <= i < j < |conns| ==> (conns[i].to, conns[i].input) != (conns[j].to, conns[j].input)
  }

  /** A connection that the modules allow. */
  predicate Allowed(f: Factory, ms: seq<Module>, c: Conn) {
    && Token(c.from.id) && Token(c.to)
    && Find(ms, c.from.id).Some? && Find(ms, c.to).Some?
    && var a, b := ms[Find(ms, c.from.id).value].kind, ms[Find(ms, c.to).value].kind;
    && a in f && b in f
    && 0 <= c.from.output < |f[a].outputs| && 0 <= c.input < |f[b].inputs|
    && Observers.Accepts(f[b].inputs[c.input], f[a].outputs[c.from.output])
  }

  lemma {:induction false} InputsOfKeys(conns: seq<Conn>, key: (string, int))
    ensures key in InputsOf(conns) <==> exists i :: 0 <= i < |conns| && (conns[i].to, conns[i].input) == key
    ensures key in InputsOf(conns)
            ==> exists i :: 0 <= i < |conns| && conns[i] == Conn(InputsOf(conns)[key], key.0, key.1)
  {
    if conns != [] {
      var front, c := conns[..|conns| - 1], conns[|conns| - 1];
      InputsOfKeys(front, key);
      if key == (c.to, c.input) {
        assert conns[|conns| - 1] == Conn(InputsOf(conns)[key], key.0, key.1);
      } else if key in InputsOf(conns) {
        var i :| 0 <= i < |front| && front[i] == Conn(InputsOf(front)[key], key.0, key.1);
        assert conns[i] == front[i];
      }
    }
  }

  /** A connection to a free input. */
  lemma ConnectNext(f: Factory, s: State, c: Conn)
    requires !s.dataMode && Allowed(f, s.graph.modules, c) && (c.to, c.input) !in s.graph.inputs
    ensures Run(f, s, [ConnectLine(c)])
         == Some(s.(graph := s.graph.(inputs := s.graph.inputs[(c.to, c.input) := c.from],
                                      observers := s.graph.observers[c.from := Observing(s.graph.observers, c.from)
                                                   + [c.to]])))
  {
    hide Step; hide Find; hide Token; hide Observing; hide ConnectLine;
    RunOne(f, s, ConnectLine(c));
    ConnectStep(f, s, c);
    assert Stream(c.from.id, c.from.output) == c.from;
  }

  lemma {:induction false} ConnsRun(f: Factory, s: State, conns: seq<Conn>)
    requires !s.dataMode && s.graph.inputs == map[] && s.graph.observers == map[] && DistinctKeys(conns)
    requires forall i :: 0 <= i < |conns| ==> Allowed(f, s.graph.modules, conns[i])
    ensures Run(f, s, ConnectLines(conns))
            == Some(s.(graph := Graph(s.graph.modules, InputsOf(conns), ObservedBy(conns))))
    decreases |conns|
  {
    hide Step; hide Run; hide Allowed; hide ConnectLine;
    if conns == [] {
      NothingRun(f, s);
      assert ConnectLines(conns) == [];
    } else {
      var front, c := conns[..|conns| - 1], conns[|conns| - 1];
      ConnsRun(f, s, front);
      var r := s.(graph := Graph(s.graph.modules, InputsOf(front), ObservedBy(front)));
      InputsOfKeys(front, (c.to, c.input));
      ConnectNext(f, r, c);
      RunSplit(f, s, ConnectLines(front), [ConnectLine(c)]);
      assert ConnectLines(conns) == ConnectLines(front) + [ConnectLine(c)];
    }
  }

  /** Inputs and observers agree: a module observes a stream exactly when one of its inputs reads
      it, and at most one does. */
  ghost predicate Wired(f: Factory, g: Graph) {
    && (forall s :: Observing(g.observers, s) != [] ==> StreamOf(f, g, s))
    && (forall s :: Distinct(Observing(g.observers, s)))
    && (forall key :: key in g.inputs ==>
         key.0 in Observing(g.observers, g.inputs[key]) && Allowed(f, g.modules, Conn(g.inputs[key], key.0, key.1)))
    && (forall s, id :: id in Observing(g.observers, s) ==> Reads(g, id, s))
    && (forall a, b :: a in g.inputs && b in g.inputs && a.0 == b.0 && g.inputs[a] == g.inputs[b] ==> a == b)
  }

  /** The stream is an output of one of the modules. */
  predicate StreamOf(f: Factory, g: Graph, s: Stream) {
    Find(g.modules, s.id).Some? && 0 <= s.output < OutputCount(f, g.modules[Find(g.modules, s.id).value])
  }

  ghost predicate Reads(g: Graph, id: string, s: Stream) {
    exists n :: (id, n) in g.inputs && g.inputs[(id, n)] == s
  }

  lemma {:induction false} InputIndexFinds(inputs: map<(string, int), Stream>, id: string, s: Stream, k: nat, n: nat,
                                           count: nat)
    requires k <= n < count && (id, n) in inputs && inputs[(id, n)] == s
    requires forall j :: k <= j < n ==> !((id, j) in inputs && inputs[(id, j)] == s)
    ensures InputIndex(inputs, id, s, k, count) == n
    decreases n - k
  {
    if k < n { InputIndexFinds(inputs, id, s, k + 1, n, count); }
  }

  /** The input that a module reads a stream with is the one that is saved. */
  lemma SavedInput(f: Factory, g: Graph, id: string, s: Stream)
    requires Wired(f, g) && id in Observing(g.observers, s)
    ensures var n := InputIndex(g.inputs, id, s, 0, InputCount(f, g.modules, id));
            (id, n) in g.inputs && g.inputs[(id, n)] == s
  {
    hide Observing; hide Find; hide StreamOf;
    assert Reads(g, id, s);
    var n :| (id, n) in g.inputs && g.inputs[(id, n)] == s;
    assert Allowed(f, g.modules, Conn(s, id, n));
    InputIndexFinds(g.inputs, id, s, 0, n, InputCount(f, g.modules, id));
  }

  /** A saved connection is one of the pipeline. */
  predicate Real(g: Graph, c: Conn) {
    (c.to, c.input) in g.inputs && g.inputs[(c.to, c.input)] == c.from
  }

  lemma StreamConnsReal(f: Factory, g: Graph, s: Stream)
    requires Wired(f, g)
    ensures forall c :: c in StreamConns(f, g, s, Observing(g.observers, s)) ==> Real(g, c)
  {
    hide Wired; hide Observing; hide InputIndex; hide InputCount;
    var obs := Observing(g.observers, s);
    forall i | 0 <= i < |obs| ensures Real(g, StreamConns(f, g, s, obs)[i]) {
      SavedInput(f, g, obs[i], s);
    }
  }

  lemma {:induction false} ModuleConnsReal(f: Factory, g: Graph, id: string, n: nat)
    requires Wired(f, g)
    ensures forall c :: c in ModuleConns(f, g, id, n) ==> Real(g, c)
    decreases n
  {
    hide Wired; hide Real; hide StreamConns;
    if n > 0 {
      ModuleConnsReal(f, g, id, n - 1);
      StreamConnsReal(f, g, Stream(id, n - 1));
    }
  }

  lemma {:induction false} ConnsReal(f: Factory, g: Graph, k: nat)
    requires k <= |g.modules| && Wired(f, g)
    ensures forall c :: c in Conns(f, g, k) ==> Real(g, c)
    decreases k
  {
    hide Wired; hide Real; hide ModuleConns;
    if k > 0 {
      ConnsReal(f, g, k - 1);
      ModuleConnsReal(f, g, Id(g.modules[k - 1]), OutputCount(f, g.modules[k - 1]));
    }
  }

  /** The observers that a list of connections gives a stream. */
  function Tos(conns: seq<Conn>, s: Stream): seq<string> {
    if conns == [] then []
    else
      var c := conns[|conns| - 1];
      Tos(conns[..|conns| - 1], s) + if c.from == s then [c.to] else []
  }

  lemma {:induction false} TosIsObservedBy(conns: seq<Conn>, s: Stream)
    ensures Observing(ObservedBy(conns), s) == Tos(conns, s)
  {
    if conns != [] { TosIsObservedBy(conns[..|conns| - 1], s); }
  }

  lemma {:induction false} TosAppend(a: seq<Conn>, b: seq<Conn>, s: Stream)
    ensures Tos(a + b, s) == Tos(a, s) + Tos(b, s)
    decreases |b|
  {
    if b == [] {
      assert a + b == a;
    } else {
      TosAppend(a, b[..|b| - 1], s);
      assert (a + b)[..|a + b| - 1] == a + b[..|b| - 1];
    }
  }

  lemma {:induction false} TosOfStream(f: Factory, g: Graph, t: Stream, obs: seq<string>, s: Stream)
    ensures Tos(StreamConns(f, g, t, obs), s) == if s == t then obs else []
  {
    hide StreamConns;
    if obs == [] {
      NoStreamConns(f, g, t);
    } else {
      var front := obs[..|obs| - 1];
      TosOfStream(f, g, t, front, s);
      LastStreamConn(f, g, t, obs);
      assert obs == front + [obs[|obs| - 1]];
    }
  }

  lemma NoStreamConns(f: Factory, g: Graph, t: Stream)
    ensures StreamConns(f, g, t, []) == []
  {}

  lemma LastStreamConn(f: Factory, g: Graph, t: Stream, obs: seq<string>)
    requires obs != []
    ensures var cs := StreamConns(f, g, t, obs);
            |cs| == |obs| && cs[..|obs| - 1] == StreamConns(f, g, t, obs[..|obs| - 1])
            && cs[|obs| - 1].from == t && cs[|obs| - 1].to == obs[|obs| - 1]
  {
    hide InputIndex; hide InputCount;
  }

  lemma {:induction false} TosOfModule(f: Factory, g: Graph, id: string, n: nat, s: Stream)
    ensures Tos(ModuleConns(f, g, id, n), s)
            == if s.id == id && 0 <= s.output < n then Observing(g.observers, s) else []
    decreases n
  {
    hide Tos; hide StreamConns; hide Observing;
    if n == 0 {
      NoTos(s);
    } else {
      var t := Stream(id, n - 1);
      TosOfModule(f, g, id, n - 1, s);
      TosOfStream(f, g, t, Observing(g.observers, t), s);
      TosAppend(ModuleConns(f, g, id, n - 1), StreamConns(f, g, t, Observing(g.observers, t)), s);
    }
  }

  lemma NoTos(s: Stream)
    ensures Tos([], s) == []
  {}

  /** The saved connections give every stream its observers, in order. */
  lemma {:induction false} TosOfConns(f: Factory, g: Graph, k: nat, s: Stream, i: nat)
    requires k <= |g.modules| && DistinctIds(g.modules)
    requires i < |g.modules| && Id(g.modules[i]) == s.id && 0 <= s.output < OutputCount(f, g.modules[i])
    ensures Tos(Conns(f, g, k), s) == if i < k then Observing(g.observers, s) else []
    decreases k
  {
    hide Tos; hide ModuleConns; hide Observing; hide Id;
    if k == 0 {
      NoTos(s);
    } else {
      var m := g.modules[k - 1];
      TosOfConns(f, g, k - 1, s, i);
      TosOfModule(f, g, Id(m), OutputCount(f, m), s);
      TosAppend(Conns(f, g, k - 1), ModuleConns(f, g, Id(m), OutputCount(f, m)), s);
      assert Id(m) == s.id ==> i == k - 1;
    }
  }

  /** No module has such an output: no saved connection comes from there. */
  lemma {:induction false} NoTosOfConns(f: Factory, g: Graph, k: nat, s: Stream)
    requires k <= |g.modules| && Observing(g.observers, s) == []
    ensures Tos(Conns(f, g, k), s) == []
    decreases k
  {
    hide Tos; hide ModuleConns; hide Observing; hide Id;
    if k == 0 {
      NoTos(s);
    } else {
      var m := g.modules[k - 1];
      NoTosOfConns(f, g, k - 1, s);
      TosOfModule(f, g, Id(m), OutputCount(f, m), s);
      TosAppend(Conns(f, g, k - 1), ModuleConns(f, g, Id(m), OutputCount(f, m)), s);
    }
  }

  lemma SavedObservers(f: Factory, g: Graph, s: Stream)
    requires Wired(f, g) && DistinctIds(g.modules)
    ensures Tos(Conns(f, g, |g.modules|), s) == Observing(g.observers, s)
  {
    hide Tos; hide Conns; hide Observing; hide Find; hide Allowed; hide OutputCount;
    if Observing(g.observers, s) == [] {
      NoTosOfConns(f, g, |g.modules|, s);
    } else {
      assert StreamOf(f, g, s);
      TosOfConns(f, g, |g.modules|, s, Find(g.modules, s.id).value);
    }
  }

  /** Each connection has its own place among the observers of its stream. */
  lemma {:induction false} TosAt(conns: seq<Conn>, p: nat)
    requires p < |conns|
    ensures var s := conns[p].from;
            |Tos(conns[..p], s)| < |Tos(conns, s)| && Tos(conns, s)[|Tos(conns[..p], s)|] == conns[p].to
    decreases |conns|
  {
    var front := conns[..|conns| - 1];
    if p == |conns| - 1 {
      assert conns[..p] == front;
    } else {
      TosAt(front, p);
      assert front[..p] == conns[..p];
    }
  }

  lemma SavedKeysDistinct(f: Factory, g: Graph)
    requires Wired(f, g) && DistinctIds(g.modules)
    ensures DistinctKeys(Conns(f, g, |g.modules|))
  {
    hide Tos; hide Conns; hide Observing; hide StreamOf; hide Allowed;
    var cs := Conns(f, g, |g.modules|);
    ConnsReal(f, g, |g.modules|);
    forall p, q | 0 <= p < q < |cs| ensures (cs[p].to, cs[p].input) != (cs[q].to, cs[q].input) {
      assert Real(g, cs[p]) && Real(g, cs[q]);
      var s := cs[q].from;
      if cs[p].from == s {
        SavedObservers(f, g, s);
        TosAt(cs, q);
        TosAt(cs[..q], p);
        TosShorter(cs, q, s);
        assert cs[..q][..p] == cs[..p];
        TosAt(cs, p);
      }
    }
  }

  lemma TosShorter(conns: seq<Conn>, q: nat, s: Stream)
    requires q <= |conns|
    ensures |Tos(conns[..q], s)| <= |Tos(conns, s)|
  {
    TosAppend(conns[..q], conns[q..], s);
    assert conns == conns[..q] + conns[q..];
  }

  lemma {:induction false} TosFrom(conns: seq<Conn>, s: Stream, id: string)
    requires id in Tos(conns, s)
    ensures exists i :: 0 <= i < |conns| && conns[i].from == s && conns[i].to == id
  {
    var front, c := conns[..|conns| - 1], conns[|conns| - 1];
    if c.from == s && c.to == id {
      assert conns[|conns| - 1] == c;
    } else {
      TosFrom(front, s, id);
      var i :| 0 <= i < |front| && front[i].from == s && front[i].to == id;
      assert conns[i] == front[i];
    }
  }

  /** The saved connections are all connections. */
  lemma SavedInputs(f: Factory, g: Graph)
    requires Wired(f, g) && DistinctIds(g.modules)
    ensures InputsOf(Conns(f, g, |g.modules|)) == g.inputs
  {
    hide InputsOf; hide Conns; hide Tos; hide Observing; hide StreamOf; hide Allowed;
    var cs := Conns(f, g, |g.modules|);
    ConnsReal(f, g, |g.modules|);
    forall key ensures key in InputsOf(cs) <==> key in g.inputs
               ensures key in InputsOf(cs) ==> InputsOf(cs)[key] == g.inputs[key] {
      InputsOfKeys(cs, key);
      if key in InputsOf(cs) {
        var i :| 0 <= i < |cs| && cs[i] == Conn(InputsOf(cs)[key], key.0, key.1);
        assert cs[i] in cs && Real(g, cs[i]);
      }
      if key in g.inputs {
        var s := g.inputs[key];
        SavedObservers(f, g, s);
        TosFrom(cs, s, key.0);
        var i :| 0 <= i < |cs| && cs[i].from == s && cs[i].to == key.0;
        assert cs[i] in cs && Real(g, cs[i]);
        assert (cs[i].to, cs[i].input) == key;
      }
    }
  }

  // ----- long texts

  /** The properties once the long ones of `m` are set as well. */
  function Full(base: Props, m: Module, names: seq<string>): Props
    requires forall i :: 0 <= i < |names| ==> names[i] in m.props
  {
    if names == [] then base
    else
      var x := names[|names| - 1];
      var b := Full(base, m, names[..|names| - 1]);
      if m.props[x].text then SetText(b, x, Kept(AsString(m.props[x].value))) else b
  }

  /** The label of the last block. */
  function LastTag(m: Module, names: seq<string>, tag: string): string
    requires forall i :: 0 <= i < |names| ==> names[i] in m.props
  {
    if names == [] then tag
    else
      var x := names[|names| - 1];
      if m.props[x].text then Tag(Id(m), x) else LastTag(m, names[..|names| - 1], tag)
  }

  lemma {:induction false} FullKeepsId(base: Props, m: Module, names: seq<string>, id: string)
    requires (forall i :: 0 <= i < |names| ==> names[i] in m.props) && IdFixed(base, id) && WfId(m)
    ensures IdFixed(Full(base, m, names), id)
  {
    if names != [] { FullKeepsId(base, m, names[..|names| - 1], id); }
  }

  ghost predicate DistinctTags(lates: seq<Late>) {
    forall i, j :: 0 <= i < j < |lates| ==> lates[i].tag != lates[j].tag
  }

  lemma {:induction false} NoLate(lates: seq<Late>, tag: string)
    requires forall i :: 0 <= i < |lates| ==> lates[i].tag != tag
    ensures FindLate(lates, tag).None?
  {
    if lates != [] { NoLate(lates[1..], tag); }
  }

  /** The first text that is waited for arrives. */
  lemma DeliverFirst(ms: seq<Module>, lates: seq<Late>, data: string, j: nat)
    requires lates != [] && DistinctTags(lates) && Find(ms, lates[0].id) == Some(j)
    ensures Deliver(ms, lates, lates[0].tag, data)
         == Some((ms[j := ms[j].(props := SetText(ms[j].props, lates[0].name, data))], lates[1..]))
  {
    hide Find; hide SetText;
    NoLate(lates[1..], lates[0].tag);
    assert lates[..0] + lates[1..] == lates[1..];
  }

  /** A state between blocks. */
  function Between(g: Graph, ms: seq<Module>, lates: seq<Late>, tag: string): State {
    State(g.(modules := ms), lates, false, tag, "", DELAY)
  }

  /** A state whose open block, if any, leads to `c`. */
  predicate LeadsTo(s: State, c: State, open: bool) { s.dataMode == open && Flush(s) == Some(c) }

  /** One block, up to its last line. */
  lemma BlockNext(f: Factory, s: State, g: Graph, ms: seq<Module>, lates: seq<Late>, tag: string, m: Module, x: string,
                  j: nat, open: bool)
    requires LeadsTo(s, Between(g, ms, lates, tag), open) && x in m.props
    requires Readable(AsString(m.props[x].value)) && Unbroken(AsString(m.props[x].value))
    requires Token(Tag(Id(m), x)) && lates != [] && lates[0] == Late(Id(m), x, Tag(Id(m), x)) && DistinctTags(lates)
    requires Find(ms, Id(m)) == Some(j)
    ensures var next := Run(f, s, BlockLines(m, x));
            && next.Some?
            && LeadsTo(next.value,
                       Between(g, ms[j := ms[j].(props := SetText(ms[j].props, x, Kept(AsString(m.props[x].value))))],
                         lates[1..], Tag(Id(m), x)),
                       AsString(m.props[x].value) != BOUNDARY)
  {
    hide Step; hide Id; hide Find; hide SetText; hide Run; hide Deliver; hide Token; hide Tag; hide Blank; hide Bound;
    hide KeptLines; hide AsString;
    var c, t, v := Between(g, ms, lates, tag), Tag(Id(m), x), AsString(m.props[x].value);
    var inside := c.(dataMode := true, dataTag := t);
    BlockStart(f, s, c, t, Lines(v));
    if v == BOUNDARY {
      BoundaryLines();
      DeliverFirst(ms, lates, "", j);
      BoundaryStep(f, inside, Flush(inside).value, t);
      RunOne(f, inside, BOUNDARY);
    } else {
      BlockRun(f, inside, Lines(v));
      assert "" + KeptLines(Lines(v)) == KeptLines(Lines(v));
      DeliverFirst(ms, lates, KeptLines(Lines(v)), j);
    }
  }

  lemma BlockStart(f: Factory, s: State, c: State, t: string, lines: seq<string>)
    requires Flush(s) == Some(c) && Token(t)
    ensures Run(f, s, [Spaced([BOUNDARY, t])] + lines) == Run(f, c.(dataMode := true, dataTag := t), lines)
  {
    hide Step; hide Run; hide Flush; hide Token;
    BoundaryStep(f, s, c, t);
    RunOne(f, s, Spaced([BOUNDARY, t]));
    RunSplit(f, s, [Spaced([BOUNDARY, t])], lines);
  }

  lemma BoundaryLines()
    ensures Lines(BOUNDARY) == [BOUNDARY]
  {
    OnlyLine(BOUNDARY);
  }

  lemma {:induction false} OnlyLine(t: string)
    requires '\n' !in t
    ensures Lines(t) == [t]
  {
    if t != [] {
      OnlyLine(t[1..]);
      assert t == [t[0]] + t[1..];
    }
  }

  /** A block with a line of white space. */
  lemma BlockFails(f: Factory, s: State, c: State, m: Module, x: string, open: bool)
    requires LeadsTo(s, c, open) && x in m.props && Token(Tag(Id(m), x))
    requires Readable(AsString(m.props[x].value)) && !Unbroken(AsString(m.props[x].value))
    ensures Run(f, s, BlockLines(m, x)) == None
  {
    hide Step; hide Id; hide Run; hide Token; hide Tag; hide AsString; hide Flush;
    var t, v := Tag(Id(m), x), AsString(m.props[x].value);
    BoundaryLines();
    BoundaryWord();
    assert v != BOUNDARY;
    BlockStart(f, s, c, t, Lines(v));
    BlankRun(f, c.(dataMode := true, dataTag := t), Lines(v));
  }

  lemma BoundaryWord()
    ensures !Blank(BOUNDARY) && Bound(BOUNDARY)
  {
    assert Token(BOUNDARY);
    FirstToken(BOUNDARY, []);
    assert BOUNDARY + [] == BOUNDARY;
  }

  /** `ms` with the properties of one module changed. */
  function WithProps(ms: seq<Module>, j: nat, props: Props): seq<Module>
    requires j < |ms|
  {
    ms[j := ms[j].(props := props)]
  }

  lemma {:induction false} FindSame(ms: seq<Module>, ns: seq<Module>, id: string)
    requires |ms| == |ns| && forall i :: 0 <= i < |ms| ==> Id(ms[i]) == Id(ns[i])
    ensures Find(ms, id) == Find(ns, id)
  {
    hide Id;
    if ms != [] { FindSame(ms[1..], ns[1..], id); }
  }

  /** Changing properties leaves the modules where they are found. */
  lemma FindWithProps(ms: seq<Module>, j: nat, props: Props, id: string)
    requires j < |ms| && IdFixed(props, Id(ms[j]))
    ensures Find(WithProps(ms, j, props), id) == Find(ms, id)
  {
    hide Find;
    FindSame(WithProps(ms, j, props), ms, id);
  }

  /** The block of the last text is still open after its lines. */
  predicate Open(m: Module, names: seq<string>)
    requires forall i :: 0 <= i < |names| ==> names[i] in m.props
  {
    names != [] && var x := names[|names| - 1];
    if m.props[x].text then AsString(m.props[x].value) != BOUNDARY else Open(m, names[..|names| - 1])
  }

  predicate UnbrokenTexts(m: Module, names: seq<string>)
    requires forall i :: 0 <= i < |names| ==> names[i] in m.props
  {
    forall i :: 0 <= i < |names| && m.props[names[i]].text ==> Unbroken(AsString(m.props[names[i]].value))
  }

  /** The texts of a module can be read back: no line of white space, and the closing boundary ends
      a block. */
  predicate Loads(m: Module, names: seq<string>)
    requires forall i :: 0 <= i < |names| ==> names[i] in m.props
  {
    UnbrokenTexts(m, names) && (HasText(m, names) ==> Open(m, names))
  }

  /** Texts with a line of white space are not read to their end. */
  lemma {:induction false} BlocksFail(f: Factory, g: Graph, ms: seq<Module>, m: Module, names: seq<string>, j: nat,
                                      more: seq<Late>, tag: string)
    requires (forall i :: 0 <= i < |names| ==> names[i] in m.props) && WfId(m)
    requires (forall x :: x in m.props ==> Token(x)) && ReadableTexts(m) && !UnbrokenTexts(m, names)
    requires Find(ms, Id(m)) == Some(j) && IdFixed(ms[j].props, Id(m)) && DistinctTags(Lates(m, names) + more)
    ensures Run(f, Between(g, ms, Lates(m, names) + more, tag), DataLines(m, names)) == None
    decreases |names|
  {
    hide Step; hide Id; hide Find; hide Run; hide Token; hide Tag; hide BlockLines; hide SetText; hide IdFixed;
    hide LeadsTo;
    hide Readable; hide Unbroken; hide Kept; hide AsString;
    var front, x := names[..|names| - 1], names[|names| - 1];
    if m.props[x].text {
      var late := Late(Id(m), x, Tag(Id(m), x));
      assert Lates(m, names) + more == Lates(m, front) + ([late] + more);
      RunSplit(f, Between(g, ms, Lates(m, names) + more, tag), DataLines(m, front), BlockLines(m, x));
      if UnbrokenTexts(m, front) {
        BlocksRun(f, g, ms, m, front, j, [late] + more, tag);
        var s := Run(f, Between(g, ms, Lates(m, front) + ([late] + more), tag), DataLines(m, front)).value;
        TagToken(m, x);
        BlockFails(f, s, Between(g, WithProps(ms, j, Full(ms[j].props, m, front)), [late] + more,
          LastTag(m, front, tag)), m, x, Open(m, front));
      } else {
        BlocksFail(f, g, ms, m, front, j, [late] + more, tag);
      }
    } else {
      assert Lates(m, names) == Lates(m, front) && DataLines(m, names) == DataLines(m, front);
      BlocksFail(f, g, ms, m, front, j, more, tag);
    }
  }

  lemma {:induction false} BlocksRun(f: Factory, g: Graph, ms: seq<Module>, m: Module, names: seq<string>, j: nat,
                                     more: seq<Late>, tag: string)
    requires (forall i :: 0 <= i < |names| ==> names[i] in m.props) && WfId(m)
    requires (forall x :: x in m.props ==> Token(x)) && ReadableTexts(m) && UnbrokenTexts(m, names)
    requires Find(ms, Id(m)) == Some(j) && IdFixed(ms[j].props, Id(m)) && DistinctTags(Lates(m, names) + more)
    ensures var next := Run(f, Between(g, ms, Lates(m, names) + more, tag), DataLines(m, names));
            && next.Some?
            && LeadsTo(next.value,
                       Between(g, WithProps(ms, j, Full(ms[j].props, m, names)), more, LastTag(m, names, tag)),
                       Open(m, names))
    decreases |names|
  {
    hide Step; hide Id; hide Find; hide Run; hide Token; hide Tag; hide BlockLines; hide SetText; hide IdFixed;
    hide LeadsTo;
    hide Readable; hide Unbroken; hide Kept; hide AsString;
    if names == [] {
      assert Lates(m, names) + more == more;
      var c := Between(g, ms, more, tag);
      NothingRun(f, c);
      assert WithProps(ms, j, ms[j].props) == ms;
      assert LeadsTo(c, c, false) by { Clean(c); }
    } else {
      var front, x := names[..|names| - 1], names[|names| - 1];
      if m.props[x].text {
        var late := Late(Id(m), x, Tag(Id(m), x));
        assert Lates(m, names) + more == Lates(m, front) + ([late] + more);
        BlocksRun(f, g, ms, m, front, j, [late] + more, tag);
        var s := Run(f, Between(g, ms, Lates(m, front) + ([late] + more), tag), DataLines(m, front)).value;
        var half := Full(ms[j].props, m, front);
        FullKeepsId(ms[j].props, m, front, Id(m));
        FindsFixed(ms, j, half, Id(m));
        TagToken(m, x);
        assert ([late] + more)[1..] == more;
        SuffixTags(Lates(m, front), [late] + more);
        BlockNext(f, s, g, WithProps(ms, j, half), [late] + more, LastTag(m, front, tag), m, x, j, Open(m, front));
        RunSplit(f, Between(g, ms, Lates(m, names) + more, tag), DataLines(m, front), BlockLines(m, x));
        assert WithProps(WithProps(ms, j, half), j, Full(ms[j].props, m, names))
               == WithProps(ms, j, Full(ms[j].props, m, names));
      } else {
        assert Lates(m, names) == Lates(m, front) && DataLines(m, names) == DataLines(m, front);
        BlocksRun(f, g, ms, m, front, j, more, tag);
      }
    }
  }

  lemma Clean(c: State)
    requires !c.dataMode
    ensures LeadsTo(c, c, false)
  {}

  lemma FindsFixed(ms: seq<Module>, j: nat, props: Props, id: string)
    requires Find(ms, id) == Some(j) && IdFixed(props, id)
    ensures Find(WithProps(ms, j, props), id) == Some(j)
  {
    FindWithProps(ms, j, props, id);
  }

  lemma TagToken(m: Module, x: string)
    requires WfId(m) && Token(x)
    ensures Token(Tag(Id(m), x))
  {}

  lemma SuffixTags(a: seq<Late>, b: seq<Late>)
    requires DistinctTags(a + b)
    ensures DistinctTags(b)
  {
    forall i, j | 0 <= i < j < |b| ensures b[i].tag != b[j].tag {
      assert (a + b)[|a| + i] == b[i] && (a + b)[|a| + j] == b[j];
    }
  }

  lemma HasTextSplit(m: Module, names: seq<string>)
    requires names != [] && forall i :: 0 <= i < |names| ==> names[i] in m.props
    ensures HasText(m, names) <==> HasText(m, names[..|names| - 1]) || m.props[names[|names| - 1]].text
  {
    var front, x := names[..|names| - 1], names[|names| - 1];
    if HasText(m, front) {
      var i :| 0 <= i < |front| && m.props[front[i]].text;
      assert m.props[names[i]].text;
    }
    if HasText(m, names) {
      var i :| 0 <= i < |names| && m.props[names[i]].text;
      assert i < |front| ==> m.props[front[i]].text;
    }
  }

  // ----- all modules

  function DoneModule(f: Factory, m: Module, names: seq<string>): Module
    requires m.kind in f && forall i :: 0 <= i < |names| ==> names[i] in m.props
  {
    Module(m.kind, Full(HalfModule(f, m, names).props, m, names))
  }

  /** The modules once the first `k` have got their texts. */
  ghost function Mixed(f: Factory, g: Graph, names: seq<seq<string>>, k: nat): (r: seq<Module>)
    requires Ordered(g.modules, names) && forall i :: 0 <= i < |g.modules| ==> g.modules[i].kind in f
    ensures |r| == |g.modules|
  {
    seq(|g.modules|, i requires 0 <= i < |g.modules| =>
      if i < k then DoneModule(f, g.modules[i], names[i]) else HalfModule(f, g.modules[i], names[i]))
  }

  /** The texts still to come after those of the first `k` modules. */
  ghost function LatesFrom(g: Graph, names: seq<seq<string>>, k: nat): seq<Late>
    requires k <= |g.modules| && Ordered(g.modules, names)
    decreases |g.modules| - k
  {
    if k == |g.modules| then [] else Lates(g.modules[k], names[k]) + LatesFrom(g, names, k + 1)
  }

  lemma {:induction false} LatesSplit(g: Graph, names: seq<seq<string>>, k: nat)
    requires k <= |g.modules| && Ordered(g.modules, names)
    ensures AllLates(g, names, |g.modules|) == AllLates(g, names, k) + LatesFrom(g, names, k)
    decreases |g.modules| - k
  {
    hide Lates;
    if k == |g.modules| {
      assert AllLates(g, names, k) + [] == AllLates(g, names, k);
    } else {
      LatesSplit(g, names, k + 1);
      assert AllLates(g, names, k) + Lates(g.modules[k], names[k]) + LatesFrom(g, names, k + 1)
          == AllLates(g, names, k) + (Lates(g.modules[k], names[k]) + LatesFrom(g, names, k + 1));
    }
  }

  ghost function TagAfter(g: Graph, names: seq<seq<string>>, k: nat): string
    requires k <= |g.modules| && Ordered(g.modules, names)
  {
    if k == 0 then "" else LastTag(g.modules[k - 1], names[k - 1], TagAfter(g, names, k - 1))
  }

  lemma {:induction false} FindAt(ms: seq<Module>, j: nat)
    requires j < |ms| && DistinctIds(ms)
    ensures Find(ms, Id(ms[j])) == Some(j)
  {
    hide Id;
    if j > 0 { FindAt(ms[1..], j - 1); }
  }

  lemma DoneModuleId(f: Factory, m: Module, names: seq<string>)
    requires WfModule(f, m) && forall i :: 0 <= i < |names| ==> names[i] in m.props
    ensures IdFixed(DoneModule(f, m, names).props, Id(m)) && Id(DoneModule(f, m, names)) == Id(m)
    ensures WfId(m)
  {
    HalfModuleId(f, m, names);
    assert WfId(m);
    hide WfModule; hide HalfModule; hide Full;
    FullKeepsId(HalfModule(f, m, names).props, m, names, Id(m));
    FixedId(DoneModule(f, m, names), Id(m));
  }

  lemma MixedIds(f: Factory, g: Graph, names: seq<seq<string>>, k: nat)
    requires Ordered(g.modules, names) && WfModules(f, g.modules)
    ensures forall i :: 0 <= i < |g.modules| ==>
              Id(Mixed(f, g, names, k)[i]) == Id(g.modules[i]) && Mixed(f, g, names, k)[i].kind == g.modules[i].kind
  {
    hide WfModule; hide Id; hide Half; hide Full; hide NewModule;
    forall i | 0 <= i < |g.modules| ensures Id(Mixed(f, g, names, k)[i]) == Id(g.modules[i]) {
      HalfModuleId(f, g.modules[i], names[i]);
      DoneModuleId(f, g.modules[i], names[i]);
    }
  }

  lemma MixedFind(f: Factory, g: Graph, names: seq<seq<string>>, k: nat, j: nat)
    requires Ordered(g.modules, names) && WfModules(f, g.modules) && j < |g.modules|
    ensures Find(Mixed(f, g, names, k), Id(g.modules[j])) == Some(j)
  {
    hide WfModule; hide Id; hide Find; hide Mixed;
    MixedIds(f, g, names, k);
    FindSame(Mixed(f, g, names, k), g.modules, Id(g.modules[j]));
    FindAt(g.modules, j);
  }

  /** The lines for the texts of one module. */
  lemma TextsRun(f: Factory, g: Graph, top: Graph, names: seq<seq<string>>, k: nat, tag: string)
    requires k < |g.modules| && Ordered(g.modules, names) && WfModules(f, g.modules) && ReadableTexts(g.modules[k])
    requires DistinctTags(LatesFrom(g, names, k))
    ensures Run(f, Between(top, Mixed(f, g, names, k), LatesFrom(g, names, k), tag),
                DataLines(g.modules[k], names[k]) + if HasText(g.modules[k], names[k]) then [BOUNDARY] else [])
         == if Loads(g.modules[k], names[k])
            then Some(Between(top, Mixed(f, g, names, k + 1), LatesFrom(g, names, k + 1),
                 LastTag(g.modules[k], names[k], tag)))
            else None
  {
    var m, ms := g.modules[k], Mixed(f, g, names, k);
    WfParts(f, m);
    MixedFind(f, g, names, k, k);
    MixedStep(f, g, names, k);
    ModuleKeys(g, names, k);
    LatesStep(g, names, k);
    ModuleTexts(f, top, ms, m, names[k], k, LatesFrom(g, names, k + 1), tag);
  }

  lemma ModuleKeys(g: Graph, names: seq<seq<string>>, k: nat)
    requires k < |g.modules| && Ordered(g.modules, names)
    ensures forall i :: 0 <= i < |names[k]| ==> names[k][i] in g.modules[k].props
  {}

  lemma ModuleTexts(f: Factory, top: Graph, ms: seq<Module>, m: Module, names: seq<string>, j: nat, more: seq<Late>,
                    tag: string)
    requires (forall i :: 0 <= i < |names| ==> names[i] in m.props) && WfId(m)
    requires (forall x :: x in m.props ==> Token(x)) && ReadableTexts(m)
    requires Find(ms, Id(m)) == Some(j) && IdFixed(ms[j].props, Id(m)) && DistinctTags(Lates(m, names) + more)
    ensures Run(f, Between(top, ms, Lates(m, names) + more, tag),
            DataLines(m, names) + if HasText(m, names) then [BOUNDARY] else [])
         == if Loads(m, names)
            then Some(Between(top, WithProps(ms, j, Full(ms[j].props, m, names)), more, LastTag(m, names, tag)))
            else None
  {
    hide *;
    var s0 := Between(top, ms, Lates(m, names) + more, tag);
    LoadsMeans(m, names);
    if UnbrokenTexts(m, names) {
      BlocksRun(f, top, ms, m, names, j, more, tag);
      var c := Between(top, WithProps(ms, j, Full(ms[j].props, m, names)), more, LastTag(m, names, tag));
      ModuleDone(f, s0, m, names, c);
    } else {
      BlocksFail(f, top, ms, m, names, j, more, tag);
      RunSplit(f, s0, DataLines(m, names), if HasText(m, names) then [BOUNDARY] else []);
    }
  }

  lemma LoadsMeans(m: Module, names: seq<string>)
    requires forall i :: 0 <= i < |names| ==> names[i] in m.props
    ensures Loads(m, names) <==> UnbrokenTexts(m, names) && (HasText(m, names) ==> Open(m, names))
  {}

  lemma LatesStep(g: Graph, names: seq<seq<string>>, k: nat)
    requires k < |g.modules| && Ordered(g.modules, names)
    ensures LatesFrom(g, names, k) == Lates(g.modules[k], names[k]) + LatesFrom(g, names, k + 1)
  {}

  /** One more module has got its texts. */
  lemma MixedStep(f: Factory, g: Graph, names: seq<seq<string>>, k: nat)
    requires k < |g.modules| && Ordered(g.modules, names) && WfModules(f, g.modules)
    ensures var m, ms := g.modules[k], Mixed(f, g, names, k);
            && IdFixed(ms[k].props, Id(m)) && WfId(m)
            && Mixed(f, g, names, k + 1) == WithProps(ms, k, Full(ms[k].props, m, names[k]))
  {
    var m, ms := g.modules[k], Mixed(f, g, names, k);
    HalfModuleId(f, m, names[k]);
    DoneModuleId(f, m, names[k]);
    HalfKind(f, m, names[k]);
    hide WfModule; hide Full; hide HalfModule; hide IdFixed; hide Id;
    assert WithProps(ms, k, Full(ms[k].props, m, names[k])) == Mixed(f, g, names, k + 1);
  }

  /** The boundary after the blocks of a module, if it has any. */
  lemma ModuleDone(f: Factory, s0: State, m: Module, names: seq<string>, c: State)
    requires forall i :: 0 <= i < |names| ==> names[i] in m.props
    requires Run(f, s0, DataLines(m, names)).Some?
    requires LeadsTo(Run(f, s0, DataLines(m, names)).value, c, Open(m, names))
    ensures Run(f, s0, DataLines(m, names) + if HasText(m, names) then [BOUNDARY] else [])
         == if HasText(m, names) ==> Open(m, names) then Some(c) else None
  {
    hide Step; hide Run; hide DataLines; hide HasText; hide LeadsTo; hide Open;
    var s := Run(f, s0, DataLines(m, names)).value;
    OpenHasText(m, names);
    if HasText(m, names) {
      Closing(f, s, c, Open(m, names));
      RunOne(f, s, BOUNDARY);
      RunSplit(f, s0, DataLines(m, names), [BOUNDARY]);
    } else {
      AtRest(s, c);
      assert DataLines(m, names) + [] == DataLines(m, names);
    }
  }

  lemma HalfKind(f: Factory, m: Module, names: seq<string>)
    requires m.kind in f && forall i :: 0 <= i < |names| ==> names[i] in m.props
    ensures HalfModule(f, m, names).kind == m.kind
  {}

  lemma AtRest(s: State, c: State)
    requires LeadsTo(s, c, false)
    ensures s == c
  {}

  lemma Closing(f: Factory, s: State, c: State, open: bool)
    requires LeadsTo(s, c, open)
    ensures Step(f, s, BOUNDARY) == if open then Some(c) else None
  {
    BoundaryStep(f, s, c, "x");
  }

  lemma {:induction false} OpenHasText(m: Module, names: seq<string>)
    requires forall i :: 0 <= i < |names| ==> names[i] in m.props
    ensures Open(m, names) ==> HasText(m, names)
  {
    if names != [] {
      OpenHasText(m, names[..|names| - 1]);
      HasTextSplit(m, names);
    }
  }

  /** The texts of the first `k` modules can be read back. */
  ghost predicate AllLoad(g: Graph, names: seq<seq<string>>, k: nat)
    requires k <= |g.modules| && Ordered(g.modules, names)
  {
    forall i :: 0 <= i < k ==> Loads(g.modules[i], names[i])
  }

  /** The state after the texts of the first `k` modules, unless one of them cannot be read. */
  ghost function AfterData(f: Factory, g: Graph, top: Graph, names: seq<seq<string>>, k: nat): Option<State>
    requires k <= |g.modules| && Ordered(g.modules, names)
             && forall i :: 0 <= i < |g.modules| ==> g.modules[i].kind in f
  {
    if AllLoad(g, names, k)
      then Some(Between(top, Mixed(f, g, names, k), LatesFrom(g, names, k), TagAfter(g, names, k))) else None
  }

  /** What the text section holds for one module: its blocks and the line that closes the last. */
  ghost function Blocks(m: Module, ns: seq<string>): seq<string>
    requires forall i :: 0 <= i < |ns| ==> ns[i] in m.props
  {
    DataLines(m, ns) + if HasText(m, ns) then [BOUNDARY] else []
  }

  lemma {:induction false} NextBlock(g: Graph, names: seq<seq<string>>, k: nat)
    requires k < |g.modules| && Ordered(g.modules, names)
    ensures (forall i :: 0 <= i < |names[k]| ==> names[k][i] in g.modules[k].props)
    ensures DataAll(g, names, k + 1) == DataAll(g, names, k) + Blocks(g.modules[k], names[k])
  {
    hide DataLines; hide HasText;
  }

  lemma {:induction false} DataOn(f: Factory, g: Graph, top: Graph, names: seq<seq<string>>, k: nat, s0: State)
    requires k < |g.modules| && Ordered(g.modules, names) && WfModules(f, g.modules) && ReadableTexts(g.modules[k])
    requires DistinctTags(AllLates(g, names, |g.modules|))
    requires Run(f, s0, DataAll(g, names, k)) == AfterData(f, g, top, names, k)
    ensures Run(f, s0, DataAll(g, names, k + 1)) == AfterData(f, g, top, names, k + 1)
  {
    ModuleKinds(f, g.modules);
    hide *;
    NextBlock(g, names, k);
    DataNext(f, g, top, names, k);
    RunSplit(f, s0, DataAll(g, names, k), Blocks(g.modules[k], names[k]));
  }

  lemma {:induction false} DataRun(f: Factory, g: Graph, top: Graph, names: seq<seq<string>>, k: nat)
    requires k <= |g.modules| && Ordered(g.modules, names) && WfModules(f, g.modules)
    requires forall i :: 0 <= i < |g.modules| ==> ReadableTexts(g.modules[i])
    requires DistinctTags(AllLates(g, names, |g.modules|))
    ensures Run(f, Between(top, Mixed(f, g, names, 0), LatesFrom(g, names, 0), ""), DataAll(g, names, k))
            == AfterData(f, g, top, names, k)
    decreases k
  {
    ModuleKinds(f, g.modules);
    hide *;
    var s0 := Between(top, Mixed(f, g, names, 0), LatesFrom(g, names, 0), "");
    if k == 0 {
      NoData(f, g, top, names);
      NothingRun(f, s0);
    } else {
      DataRun(f, g, top, names, k - 1);
      DataOn(f, g, top, names, k - 1, s0);
    }
  }

  lemma {:induction false} DataNext(f: Factory, g: Graph, top: Graph, names: seq<seq<string>>, k: nat)
    requires k < |g.modules| && Ordered(g.modules, names) && WfModules(f, g.modules) && ReadableTexts(g.modules[k])
    requires DistinctTags(AllLates(g, names, |g.modules|))
    ensures AfterData(f, g, top, names, k + 1)
            == match AfterData(f, g, top, names, k)
               case None => None
               case Some(s) => Run(f, s, Blocks(g.modules[k], names[k]))
  {
    hide Run; hide Ordered; hide WfModules; hide ReadableTexts; hide DataLines; hide HasText; hide Mixed;
    hide LatesFrom; hide TagAfter;
    hide AllLates; hide AllLoad; hide Loads; hide DistinctTags; hide LastTag;
    DataStep(g, names, k + 1);
    LatesSplit(g, names, k);
    SuffixTags(AllLates(g, names, k), LatesFrom(g, names, k));
    TextsRun(f, g, top, names, k, TagAfter(g, names, k));
  }

  lemma ModuleKinds(f: Factory, ms: seq<Module>)
    requires WfModules(f, ms)
    ensures forall i :: 0 <= i < |ms| ==> ms[i].kind in f
  {}

  lemma NoData(f: Factory, g: Graph, top: Graph, names: seq<seq<string>>)
    requires Ordered(g.modules, names) && forall i :: 0 <= i < |g.modules| ==> g.modules[i].kind in f
    ensures DataAll(g, names, 0) == []
    ensures AfterData(f, g, top, names, 0) == Some(Between(top, Mixed(f, g, names, 0), LatesFrom(g, names, 0), ""))
  {
    hide Mixed; hide LatesFrom; hide Loads;
  }

  /** One more module in the third part of the file. */
  lemma {:induction false} DataStep(g: Graph, names: seq<seq<string>>, k: nat)
    requires 0 < k <= |g.modules| && Ordered(g.modules, names)
    ensures var m, ns := g.modules[k - 1], names[k - 1];
            && (forall i :: 0 <= i < |ns| ==> ns[i] in m.props)
            && DataAll(g, names, k)
               == DataAll(g, names, k - 1) + (DataLines(m, ns) + if HasText(m, ns) then [BOUNDARY] else [])
            && (AllLoad(g, names, k) <==> AllLoad(g, names, k - 1) && Loads(m, ns))
            && TagAfter(g, names, k) == LastTag(m, ns, TagAfter(g, names, k - 1))
  {
    hide DataLines; hide HasText; hide Loads; hide LastTag;
  }

  // ----- the whole file

  lemma AllowedSame(f: Factory, ms: seq<Module>, ns: seq<Module>, c: Conn)
    requires Allowed(f, ms, c) && |ms| == |ns|
    requires forall i :: 0 <= i < |ms| ==> Id(ms[i]) == Id(ns[i]) && ms[i].kind == ns[i].kind
    ensures Allowed(f, ns, c)
  {
    hide Id; hide Find; hide Token;
    FindSame(ms, ns, c.from.id);
    FindSame(ms, ns, c.to);
  }

  lemma HalvesAreMixed(f: Factory, g: Graph, names: seq<seq<string>>)
    requires Ordered(g.modules, names) && WfModules(f, g.modules)
    ensures Halves(f, g, names, |g.modules|) == Mixed(f, g, names, 0)
  {
    hide WfModule; hide HalfModule; hide DoneModule;
    HalvesAt(f, g, names, |g.modules|);
  }

  lemma HeaderRun(f: Factory, s: State, date: string)
    ensures Run(f, s, Header(date)) == Some(s)
  {
    hide Tokens; hide Command; hide Flush;
    var h := Header(date);
    assert h[1..] == [h[1], h[2], h[3]] && h[1..][1..] == [h[2], h[3]] && [h[2], h[3]][1..] == [h[3]]
           && [h[3]][1..] == [];
    assert RULE[0] == '#' && h[1][0] == '#' && h[3] == "";
    assert Run(f, s, [h[3]]) == Some(s);
    assert Run(f, s, [h[2], h[3]]) == Some(s);
  }

  /** The saved connections are made. */
  lemma ConnectAll(f: Factory, g: Graph, s: State)
    requires Wired(f, g) && DistinctIds(g.modules) && |s.graph.modules| == |g.modules| && !s.dataMode
    requires s.graph.inputs == map[] && s.graph.observers == map[]
    requires forall i :: 0 <= i < |g.modules| ==>
               Id(s.graph.modules[i]) == Id(g.modules[i]) && s.graph.modules[i].kind == g.modules[i].kind
    ensures Run(f, s, ConnectLines(Conns(f, g, |g.modules|)))
         == Some(s.(graph := Graph(s.graph.modules, g.inputs, ObservedBy(Conns(f, g, |g.modules|)))))
  {
    hide Step; hide Run; hide Id; hide Allowed; hide Observing; hide StreamOf; hide InputsOf; hide ObservedBy;
    hide Conns; hide ConnectLines;
    var cs := Conns(f, g, |g.modules|);
    SavedKeysDistinct(f, g);
    SavedInputs(f, g);
    ConnsReal(f, g, |g.modules|);
    forall i | 0 <= i < |cs| ensures Allowed(f, s.graph.modules, cs[i]) {
      assert Real(g, cs[i]);
      assert Allowed(f, g.modules, Conn(g.inputs[(cs[i].to, cs[i].input)], cs[i].to, cs[i].input));
      assert Conn(g.inputs[(cs[i].to, cs[i].input)], cs[i].to, cs[i].input) == cs[i];
      AllowedSame(f, g.modules, s.graph.modules, cs[i]);
    }
    ConnsRun(f, s, cs);
  }

  lemma SavedRun(f: Factory, g: Graph, names: seq<seq<string>>, date: string)
    requires Ordered(g.modules, names) && WfModules(f, g.modules) && Wired(f, g)
             && DistinctTags(AllLates(g, names, |g.modules|))
    requires forall i :: 0 <= i < |g.modules| ==> ReadableTexts(g.modules[i])
    ensures Run(f, START, SaveLines(f, g, names, date))
         == if AllLoad(g, names, |g.modules|)
            then Some(Between(Graph([], g.inputs, ObservedBy(Conns(f, g, |g.modules|))),
                 Mixed(f, g, names, |g.modules|), [], TagAfter(g, names, |g.modules|)))
            else None
  {
    hide Step; hide Run; hide WfModule; hide Wired; hide ObservedBy; hide Conns; hide ConnectLines; hide Mixed;
    hide Halves;
    hide CreateAll; hide DataAll; hide TagAfter; hide AllLates; hide Header; hide Id; hide AllLoad; hide ReadableTexts;
    var n := |g.modules|;
    var a, b, c := CreateAll(g, names, n), ConnectLines(Conns(f, g, n)), DataAll(g, names, n);
    HeaderRun(f, START, date);
    RunSplit(f, START, Header(date), a + (b + c));
    CreateRun(f, g, names, n);
    HalvesAreMixed(f, g, names);
    LatesAll(g, names);
    var s := State(Graph(Mixed(f, g, names, 0), map[], map[]), LatesFrom(g, names, 0), false, "", "", DELAY);
    RunSplit(f, START, a, b + c);
    MixedIds(f, g, names, 0);
    ConnectAll(f, g, s);
    RunSplit(f, s, b, c);
    DataRun(f, g, Graph([], g.inputs, ObservedBy(Conns(f, g, n))), names, n);
  }

  lemma LatesAll(g: Graph, names: seq<seq<string>>)
    requires Ordered(g.modules, names)
    ensures AllLates(g, names, |g.modules|) == LatesFrom(g, names, 0) && LatesFrom(g, names, |g.modules|) == []
  {
    LatesSplit(g, names, 0);
    assert AllLates(g, names, 0) + LatesFrom(g, names, 0) == LatesFrom(g, names, 0);
  }

  // ----- no line end inside a line

  lemma PlainToken(w: string)
    requires Token(w)
    ensures '\n' !in w
  {}

  lemma PlainWords(words: seq<string>, last: string)
    requires (forall i :: 0 <= i < |words| ==> Token(words[i])) && (last == [] || Token(last))
    ensures '\n' !in Spaced(words) && '\n' !in Spaced(words) + (" " + last)
  {
    hide Token; hide Spaced;
    forall i | 0 <= i < |words| ensures '\n' !in words[i] { PlainToken(words[i]); }
    SpacedPlain(words);
    if last != [] { PlainToken(last); }
  }

  ghost predicate Plain(lines: seq<string>) { forall i :: 0 <= i < |lines| ==> '\n' !in lines[i] }

  lemma PlainJoin(a: seq<string>, b: seq<string>)
    requires Plain(a) && Plain(b)
    ensures Plain(a + b)
  {}

  lemma {:induction false} PlainProps(m: Module, names: seq<string>)
    requires (forall i :: 0 <= i < |names| ==> names[i] in m.props) && WfId(m)
    requires forall x :: x in m.props ==> Token(x) && WfProp(m.props[x])
    ensures Plain(PropLines(m, names))
  {
    hide Token; hide Spaced; hide WfProp;
    if names != [] {
      var x := names[|names| - 1];
      PlainProps(m, names[..|names| - 1]);
      IdToken(m);
      TagToken(m, x);
      WfShort(m.props[x]);
      if m.props[x].text {
        PlainWords(["pipeline", "settext", Id(m), x, Tag(Id(m), x)], []);
      } else {
        PlainWords(["pipeline", "set", Id(m), x], AsString(m.props[x].value));
      }
      PlainJoin(PropLines(m, names[..|names| - 1]), [PropLine(Id(m), x, m.props[x])]);
    }
  }

  lemma IdToken(m: Module)
    requires WfId(m)
    ensures Token(Id(m)) && Token("pipeline") && Token("settext") && Token("set") && Token("create")
            && Token("connect") && Token(BOUNDARY)
  {}

  lemma {:induction false} PlainData(m: Module, names: seq<string>)
    requires (forall i :: 0 <= i < |names| ==> names[i] in m.props) && WfId(m)
    requires forall x :: x in m.props ==> Token(x) && WfProp(m.props[x])
    ensures Plain(DataLines(m, names))
  {
    hide Token; hide Spaced; hide WfProp;
    if names != [] {
      var x := names[|names| - 1];
      PlainData(m, names[..|names| - 1]);
      IdToken(m);
      TagToken(m, x);
      PlainWords([BOUNDARY, Tag(Id(m), x)], []);
      PlainJoin([Spaced([BOUNDARY, Tag(Id(m), x)])], Lines(AsString(m.props[x].value)));
      PlainJoin(DataLines(m, names[..|names| - 1]), BlockLines(m, x));
    }
  }

  lemma PlainCreate(f: Factory, m: Module, names: seq<string>)
    requires WfModule(f, m) && forall i :: 0 <= i < |names| ==> names[i] in m.props
    ensures Plain([CreateLine(m.kind, Id(m))] + (PropLines(m, names) + [""]))
  {
    WfNames(f, m);
    hide WfModule; hide Token; hide Spaced; hide WfProp; hide PropLines; hide WfId; hide Id;
    IdToken(m);
    PlainWords(["pipeline", "create", m.kind, Id(m)], []);
    PlainProps(m, names);
    PlainJoin(PropLines(m, names), [""]);
    PlainJoin([CreateLine(m.kind, Id(m))], PropLines(m, names) + [""]);
  }

  lemma {:induction false} PlainCreates(f: Factory, g: Graph, names: seq<seq<string>>, k: nat)
    requires k <= |g.modules| && Ordered(g.modules, names) && WfModules(f, g.modules)
    ensures Plain(CreateAll(g, names, k))
    decreases k
  {
    hide WfModule; hide PropLines; hide CreateLine; hide Id;
    if k > 0 {
      hide Plain;
      var m := g.modules[k - 1];
      PlainCreates(f, g, names, k - 1);
      PlainCreate(f, m, names[k - 1]);
      PlainJoin(CreateAll(g, names, k - 1), [CreateLine(m.kind, Id(m))] + (PropLines(m, names[k - 1]) + [""]));
    }
  }

  lemma WfNames(f: Factory, m: Module)
    requires WfModule(f, m)
    ensures WfId(m) && Token(m.kind) && forall x :: x in m.props ==> Token(x) && WfProp(m.props[x])
  {}

  lemma PlainText(f: Factory, m: Module, names: seq<string>)
    requires WfModule(f, m) && forall i :: 0 <= i < |names| ==> names[i] in m.props
    ensures Plain(DataLines(m, names) + if HasText(m, names) then [BOUNDARY] else [])
  {
    WfNames(f, m);
    hide WfModule; hide Token; hide WfProp; hide DataLines; hide WfId; hide HasText;
    PlainData(m, names);
    IdToken(m);
    PlainToken(BOUNDARY);
    PlainJoin(DataLines(m, names), if HasText(m, names) then [BOUNDARY] else []);
  }

  lemma {:induction false} PlainTexts(f: Factory, g: Graph, names: seq<seq<string>>, k: nat)
    requires k <= |g.modules| && Ordered(g.modules, names) && WfModules(f, g.modules)
    ensures Plain(DataAll(g, names, k))
    decreases k
  {
    hide WfModule; hide DataLines; hide HasText;
    if k > 0 {
      hide Plain;
      var m, ns := g.modules[k - 1], names[k - 1];
      PlainTexts(f, g, names, k - 1);
      PlainText(f, m, ns);
      PlainJoin(DataAll(g, names, k - 1), DataLines(m, ns) + if HasText(m, ns) then [BOUNDARY] else []);
    }
  }

  lemma PlainConns(f: Factory, g: Graph)
    requires Wired(f, g)
    ensures Plain(ConnectLines(Conns(f, g, |g.modules|)))
  {
    hide Conns; hide Observing; hide StreamOf; hide Find; hide Token; hide Spaced; hide PrintInt;
    var cs := Conns(f, g, |g.modules|);
    ConnsReal(f, g, |g.modules|);
    forall i | 0 <= i < |cs| ensures '\n' !in ConnectLine(cs[i]) {
      var c := cs[i];
      assert c in cs && Real(g, c);
      assert Allowed(f, g.modules, Conn(g.inputs[(c.to, c.input)], c.to, c.input));
      IntToken(c.from.output);
      IntToken(c.input);
      CommandWords();
      PlainWords(["pipeline", "connect", c.from.id, PrintInt(c.from.output), c.to, PrintInt(c.input)], []);
    }
  }

  lemma CommandWords()
    ensures Token("pipeline") && Token("connect")
  {}

  lemma SavedLines(f: Factory, g: Graph, names: seq<seq<string>>, date: string)
    requires Ordered(g.modules, names) && WfModules(f, g.modules) && Wired(f, g) && '\n' !in date
    ensures Lines(Save(f, g, names, date)) == SaveLines(f, g, names, date) + [""]
  {
    hide WfModule; hide Wired; hide ConnectLines; hide Conns; hide Lines; hide Save; hide SaveLines; hide Plain;
    PlainConns(f, g);
    PlainSave(f, g, names, date);
  }

  lemma PlainSave(f: Factory, g: Graph, names: seq<seq<string>>, date: string)
    requires Ordered(g.modules, names) && WfModules(f, g.modules) && '\n' !in date
    requires Plain(ConnectLines(Conns(f, g, |g.modules|)))
    ensures Lines(Save(f, g, names, date)) == SaveLines(f, g, names, date) + [""]
  {
    hide WfModule; hide CreateAll; hide ConnectLines; hide DataAll; hide Conns; hide Lines; hide Joined;
    var n := |g.modules|;
    PlainCreates(f, g, names, n);
    PlainTexts(f, g, names, n);
    PlainHeader(date);
    PlainJoin(ConnectLines(Conns(f, g, n)), DataAll(g, names, n));
    PlainJoin(CreateAll(g, names, n), ConnectLines(Conns(f, g, n)) + DataAll(g, names, n));
    PlainJoin(Header(date), CreateAll(g, names, n) + (ConnectLines(Conns(f, g, n)) + DataAll(g, names, n)));
    LinesJoined(SaveLines(f, g, names, date));
  }

  lemma PlainHeader(date: string)
    requires '\n' !in date
    ensures Plain(Header(date))
  {}

  /** Loading a saved pipeline runs to its end, with the modules rebuilt and connected, exactly
      when its texts can be read back. */
  lemma LoadSaved(f: Factory, g: Graph, names: seq<seq<string>>, date: string)
    requires Ordered(g.modules, names) && WfModules(f, g.modules) && Wired(f, g)
             && DistinctTags(AllLates(g, names, |g.modules|))
    requires (forall i :: 0 <= i < |g.modules| ==> ReadableTexts(g.modules[i])) && '\n' !in date
    ensures Load(f, Save(f, g, names, date))
         == if AllLoad(g, names, |g.modules|)
            then Some(Graph(Mixed(f, g, names, |g.modules|), g.inputs, ObservedBy(Conns(f, g, |g.modules|))))
            else None
  {
    hide Step; hide Run; hide WfModule; hide Wired; hide SaveLines; hide Mixed; hide ObservedBy; hide Conns; hide Save;
    hide Lines;
    hide AllLates; hide TagAfter; hide AllLoad; hide ReadableTexts;
    SavedLines(f, g, names, date);
    SavedRun(f, g, names, date);
    RunSplit(f, START, SaveLines(f, g, names, date), [""]);
    if AllLoad(g, names, |g.modules|) {
      var s := Run(f, START, SaveLines(f, g, names, date)).value;
      RunOne(f, s, "");
      EmptyStep(f, s);
    }
  }

  // ----- what came back

  /** The same module, its long texts as they survive a file. */
  ghost predicate Restored(m: Module, r: Module) {
    && r.kind == m.kind && (forall x :: x in r.props <==> x in m.props)
    && forall x :: x in m.props ==> RestoredProp(m.props[x], r.props[x])
  }

  predicate RestoredProp(p: Prop, q: Prop) {
    q.text == p.text && q.value == if p.text then S(Kept(AsString(p.value))) else p.value
  }

  lemma {:induction false} HalfAt(base: Props, m: Module, names: seq<string>, x: string)
    requires forall i :: 0 <= i < |names| ==> names[i] in m.props
    ensures x in Half(base, m, names) <==> x in base || (x in names && !m.props[x].text)
    ensures Get(Half(base, m, names), x)
         == if x in names && !m.props[x].text then SetString(Get(base, x), AsString(m.props[x].value)) else Get(base, x)
  {
    hide Convert; hide AsString;
    if names != [] {
      HalfAt(base, m, names[..|names| - 1], x);
      assert x in names <==> x in names[..|names| - 1] || x == names[|names| - 1];
      Idempotent(Get(base, x), AsString(if x in names then m.props[x].value else S("")));
    }
  }

  lemma Idempotent(p: Prop, s: string)
    ensures SetString(SetString(p, s), s) == SetString(p, s)
  {}

  lemma {:induction false} FullAt(base: Props, m: Module, names: seq<string>, x: string)
    requires forall i :: 0 <= i < |names| ==> names[i] in m.props
    ensures x in Full(base, m, names) <==> x in base || (x in names && m.props[x].text)
    ensures Get(Full(base, m, names), x)
         == if x in names && m.props[x].text
            then SetString(Get(base, x), Kept(AsString(m.props[x].value))).(text := true) else Get(base, x)
  {
    hide Convert; hide AsString; hide Kept;
    if names != [] {
      FullAt(base, m, names[..|names| - 1], x);
      assert x in names <==> x in names[..|names| - 1] || x == names[|names| - 1];
      Idempotent(Get(base, x), Kept(AsString(if x in names then m.props[x].value else S(""))));
      TextKept(Get(base, x), Kept(AsString(if x in names then m.props[x].value else S(""))));
    }
  }

  lemma TextKept(p: Prop, s: string)
    ensures SetString(p.(text := true), s) == SetString(p, s).(text := true)
  {}

  lemma ConvertBack(v: Content, w: Content)
    requires SameType(v, w)
    ensures Convert(v, AsString(w)) == w
  {
    hide PrintInt; hide Atoi;
    if w.I? { AtoiRoundTrip(w.n); }
  }

  lemma PropRestored(was: Prop, p: Prop)
    requires Compatible(was, p) && WfProp(p)
    ensures RestoredProp(p,
            if p.text then SetString(was, Kept(AsString(p.value))).(text := true)
            else SetString(was, AsString(p.value)))
  {
    hide Kept; hide Token; hide Harmless;
    ConvertBack(was.value, p.value);
  }

  lemma ModuleRestored(f: Factory, m: Module, names: seq<string>)
    requires WfModule(f, m) && Distinct(names) && forall x :: x in names <==> x in m.props
    ensures (forall i :: 0 <= i < |names| ==> names[i] in m.props) && Restored(m, DoneModule(f, m, names))
  {
    assert forall i :: 0 <= i < |names| ==> names[i] in m.props;
    var base := NewModule(f, m.kind, Id(m)).props;
    var half, r := HalfModule(f, m, names).props, DoneModule(f, m, names).props;
    NewProps(f, m);
    DoneModuleId(f, m, names);
    hide Half; hide Full; hide NewModule; hide Kept; hide WfProp; hide Id; hide Convert;
    forall x ensures x in r <==> x in m.props {
      HalfAt(base, m, names, x);
      FullAt(half, m, names, x);
    }
    forall x | x in m.props ensures RestoredProp(m.props[x], r[x]) {
      HalfAt(base, m, names, x);
      FullAt(half, m, names, x);
      if x == "id" {
        IdRestored(m, r);
      } else {
        PropRestored(Get(base, x), m.props[x]);
      }
    }
  }

  lemma IdRestored(m: Module, r: Props)
    requires WfId(m) && IdFixed(r, Id(m))
    ensures RestoredProp(m.props["id"], r["id"])
  {}

  /** A new module has the properties of its kind, and its id. */
  lemma NewProps(f: Factory, m: Module)
    requires WfModule(f, m)
    ensures forall x :: x in NewModule(f, m.kind, Id(m)).props <==> x in f[m.kind].props || x == "id"
    ensures forall x :: x != "id" ==> Get(NewModule(f, m.kind, Id(m)).props, x) == Get(f[m.kind].props, x)
    ensures forall x :: x in m.props && x != "id" ==>
              Compatible(Get(NewModule(f, m.kind, Id(m)).props, x), m.props[x]) && WfProp(m.props[x])
    ensures forall x :: x in f[m.kind].props ==> x in m.props
  {
    hide Compatible; hide WfProp; hide Id; hide SetString; hide Token;
  }

  /** Loading a saved pipeline gives the same modules in order, the same property values and the
      same connections, with the observers of every stream in order; long texts come back as `Kept`
      describes. It fails exactly when a text has a line of white space, or the last text of a
      module is just the boundary. Only a text with a boundary line among others is left aside. */
  lemma RoundTrip(f: Factory, g: Graph, names: seq<seq<string>>, date: string)
    requires Ordered(g.modules, names) && WfModules(f, g.modules) && Wired(f, g)
             && DistinctTags(AllLates(g, names, |g.modules|))
    requires (forall i :: 0 <= i < |g.modules| ==> ReadableTexts(g.modules[i])) && '\n' !in date
    ensures Load(f, Save(f, g, names, date)).Some? <==> AllLoad(g, names, |g.modules|)
    ensures var r := Load(f, Save(f, g, names, date));
            r.Some? ==>
              && |r.value.modules| == |g.modules|
              && (forall i :: 0 <= i < |g.modules| ==> Restored(g.modules[i], r.value.modules[i]))
              && r.value.inputs == g.inputs
              && forall s :: Observing(r.value.observers, s) == Observing(g.observers, s)
  {
    hide Load; hide Save; hide WfModule; hide Wired; hide AllLates; hide ObservedBy; hide Conns; hide DoneModule;
    hide HalfModule; hide Restored;
    hide Observing; hide Tos; hide AllLoad; hide ReadableTexts;
    LoadSaved(f, g, names, date);
    forall i | 0 <= i < |g.modules| ensures Restored(g.modules[i], Mixed(f, g, names, |g.modules|)[i]) {
      ModuleRestored(f, g.modules[i], names[i]);
    }
    forall s ensures Observing(ObservedBy(Conns(f, g, |g.modules|)), s) == Observing(g.observers, s) {
      TosIsObservedBy(Conns(f, g, |g.modules|), s);
      SavedObservers(f, g, s);
    }
  }

  /** A text with a line of white space, anywhere in the pipeline: the file cannot be loaded. */
  lemma WhiteSpaceLost(f: Factory, g: Graph, names: seq<seq<string>>, date: string, i: nat, x: string)
    requires Ordered(g.modules, names) && WfModules(f, g.modules) && Wired(f, g)
             && DistinctTags(AllLates(g, names, |g.modules|))
    requires (forall i :: 0 <= i < |g.modules| ==> ReadableTexts(g.modules[i])) && '\n' !in date
    requires i < |g.modules| && x in g.modules[i].props && g.modules[i].props[x].text
    requires !Unbroken(AsString(g.modules[i].props[x].value))
    ensures Load(f, Save(f, g, names, date)) == None
  {
    hide Load; hide Save; hide WfModule; hide Wired; hide AllLates; hide Unbroken; hide ReadableTexts; hide AsString;
    RoundTrip(f, g, names, date);
    var k :| 0 <= k < |names[i]| && names[i][k] == x;
    assert !UnbrokenTexts(g.modules[i], names[i]);
    assert !Loads(g.modules[i], names[i]);
  }

  /** The smallest one: a space. */
  lemma SpaceLine(f: Factory, s: State)
    ensures Unbroken(" \n") == false && Ordinary(Lines(" \n")) && Step(f, s, " ") == None
  {
    FirstLine(" ", "");
    assert " " + "\n" + "" == " \n";
    assert Lines(" \n") == [" ", ""];
    assert Tokens(" ") == Tokens(" "[1..]);
    assert Blank(Lines(" \n")[0]);
  }

  // ----- exactly the texts that come back unchanged

  /** Every line ends, and none is empty or looks like a comment. */
  predicate Ordinary(lines: seq<string>) {
    && lines != [] && lines[|lines| - 1] == ""
    && forall i :: 0 <= i < |lines| - 1 ==> !Dropped(lines[i])
  }

  lemma {:induction false} KeptShorter(lines: seq<string>)
    ensures |KeptLines(lines)| <= |Joined(lines)|
    ensures |KeptLines(lines)| == |Joined(lines)| ==>
              (forall i :: 0 <= i < |lines| ==> !Dropped(lines[i])) && KeptLines(lines) == Joined(lines)
  {
    if lines != [] {
      KeptShorter(lines[1..]);
      assert lines == [lines[0]] + lines[1..];
    }
  }

  lemma {:induction false} KeptAll(lines: seq<string>)
    requires forall i :: 0 <= i < |lines| ==> '\n' !in lines[i]
    ensures KeptLines(lines) + "\n" == Joined(lines) <==> Ordinary(lines)
  {
    if lines != [] {
      var l, rest := lines[0], lines[1..];
      KeptAll(rest);
      if !Dropped(l) {
        Cancel(l + "\n", KeptLines(rest) + "\n", Joined(rest));
        assert KeptLines(lines) + "\n" == (l + "\n") + (KeptLines(rest) + "\n");
        assert Ordinary(lines) <==> Ordinary(rest) by { OrdinaryRest(lines); }
      } else {
        DroppedFirst(l, rest);
        assert rest == [] || !Ordinary(lines);
      }
    }
  }

  lemma OrdinaryRest(lines: seq<string>)
    requires lines != [] && !Dropped(lines[0])
    ensures Ordinary(lines) <==> Ordinary(lines[1..])
  {
    assert lines == [lines[0]] + lines[1..];
  }

  lemma Cancel(a: string, b: string, c: string)
    ensures a + b == a + c <==> b == c
  {
    assert (a + b)[|a|..] == b && (a + c)[|a|..] == c;
  }

  lemma DroppedFirst(l: string, rest: seq<string>)
    requires Dropped(l) && forall i :: 0 <= i < |rest| ==> '\n' !in rest[i]
    ensures KeptLines(rest) + "\n" == l + "\n" + Joined(rest) <==> rest == [] && l == ""
  {
    KeptShorter(rest);
    var a, b := KeptLines(rest) + "\n", l + "\n" + Joined(rest);
    if rest != [] && |a| == |b| {
      assert !Dropped(rest[0]);
      assert a[0] == rest[0][0] && b[0] == '\n';
    }
  }

  /** What is kept of a text is the text itself exactly when it is empty or made of ordinary lines,
      each with an end. */
  lemma KeptSame(text: string)
    ensures Kept(text) == text <==> Ordinary(Lines(text))
  {
    if text == BOUNDARY {
      BoundaryLines();
    } else {
      hide Lines; hide KeptLines; hide Joined;
      JoinedLines(text);
      KeptAll(Lines(text));
      assert (Kept(text) + "\n")[..|Kept(text)|] == Kept(text) && (text + "\n")[..|text|] == text;
    }
  }

  /** Empty lines go, and a final line end comes. */
  lemma EmptyLineLost()
    ensures Kept("a\n\nb") == "a\nb\n"
  {
    hide Lines; hide KeptLines;
    FirstLine("a", "\nb");
    FirstLine("", "b");
    OnlyLine("b");
    assert "a" + "\n" + "\nb" == "a\n\nb" && "" + "\n" + "b" == "\nb";
    KeptFirst("b", []);
    KeptFirst("", ["b"]);
    KeptFirst("a", ["", "b"]);
    assert ["b"] + [] == ["b"] && [""] + ["b"] == ["", "b"] && ["a"] + ["", "b"] == ["a", "", "b"];
    assert Lines("a\n\nb") == ["a", "", "b"];
  }

  /** So do lines that look like comments. */
  lemma CommentLineLost()
    ensures Kept("#\n") == ""
  {
    hide Lines; hide KeptLines;
    FirstLine("#", "");
    OnlyLine("");
    assert "#" + "\n" + "" == "#\n";
    KeptFirst("", []);
    KeptFirst("#", [""]);
    assert [""] + [] == [""] && ["#"] + [""] == ["#", ""];
  }

  lemma KeptFirst(line: string, rest: seq<string>)
    ensures KeptLines([line] + rest) == (if Dropped(line) then [] else line + "\n") + KeptLines(rest)
    ensures KeptLines([]) == []
  {
    assert ([line] + rest)[1..] == rest;
  }

  /** A restored module has the values it was saved with exactly when its long texts are made of
      ordinary lines. */
  lemma UnchangedWhenOrdinary(m: Module, r: Module)
    requires Restored(m, r)
    requires forall x :: x in m.props ==> WfProp(m.props[x])
    ensures (forall x :: x in m.props ==> r.props[x].value == m.props[x].value)
       <==> (forall x :: x in m.props && m.props[x].text ==> Ordinary(Lines(AsString(m.props[x].value))))
  {
    hide Lines; hide Ordinary; hide Kept; hide Token;
    forall x | x in m.props
      ensures r.props[x].value == m.props[x].value
              <==> (m.props[x].text ==> Ordinary(Lines(AsString(m.props[x].value))))
    {
      assert WfProp(m.props[x]) && RestoredProp(m.props[x], r.props[x]);
      KeptSame(AsString(m.props[x].value));
    }
  }
}
