/** The text form of a Movid pipeline: commands that create modules, set their properties and
    connect them, and blocks of data for long texts. */
module PipelineFile {
  import opened Options
  import opened Lists
  import opened Decimal
  import opened Words
  import Observers

  const BOUNDARY: string := "=============================="

  // ----- properties

  datatype Content = S(s: string) | B(b: bool) | I(n: int)

  function AsString(v: Content): string {
    match v case S(s) => s case B(b) => if b then "true" else "false" case I(n) => PrintInt(n)
  }

  /** A string turned into the type that `v` has. */
  function Convert(v: Content, s: string): Content {
    match v
    case S(_) => S(s)
    case B(_) => B(s in {"True", "true", "TRUE", "1"})
    case I(_) => I(Atoi(s))
  }

  datatype Prop = Prop(value: Content, text: bool, readOnly: bool)

  type Props = map<string, Prop>

  function SetString(p: Prop, s: string): Prop {
    if p.readOnly then p else p.(value := Convert(p.value, s))
  }

  /** A property that is asked for and missing is created. */
  function Get(props: Props, name: string): Prop {
    if name in props then props[name] else Prop(S(""), false, false)
  }

  function Set(props: Props, name: string, s: string): Props {
    props[name := SetString(Get(props, name), s)]
  }

  function SetText(props: Props, name: string, s: string): Props {
    props[name := SetString(Get(props, name), s).(text := true)]
  }

  // ----- modules and their streams

  /** What the factory makes: the types its inputs accept, the formats of its outputs, and the
      properties a new module has. */
  datatype Kind = Kind(inputs: seq<string>, outputs: seq<string>, props: Props)

  type Factory = map<string, Kind>

  datatype Module = Module(kind: string, props: Props)

  datatype Stream = Stream(id: string, output: int)

  /** Modules, the stream each connected input reads, and the modules that observe each stream. */
  datatype Graph = Graph(modules: seq<Module>, inputs: map<(string, int), Stream>, observers: map<Stream, seq<string>>)

  function Id(m: Module): string { AsString(Get(m.props, "id").value) }

  /** The first module with an id. */
  function Find(ms: seq<Module>, id: string): (r: Option<nat>)
    ensures r.Some? ==> r.value < |ms| && Id(ms[r.value]) == id
  {
    if ms == [] then None
    else if Id(ms[0]) == id then Some(0)
    else match Find(ms[1..], id) case None => None case Some(k) => Some(k + 1)
  }

  function Observing(observers: map<Stream, seq<string>>, s: Stream): seq<string> {
    if s in observers then observers[s] else []
  }

  /** Connect an input to a stream, or disconnect it when there is none. */
  function SetInput(g: Graph, id: string, kind: Kind, n: int, stream: Option<Stream>, format: string): Option<Graph> {
    if !(0 <= n < |kind.inputs|) then None
    else
      var g1 := if (id, n) !in g.inputs then g
                else
                  var was := g.inputs[(id, n)];
                  g.(inputs := g.inputs - {(id, n)},
                     observers := g.observers[was := RemoveFirst(Observing(g.observers, was), id)]);
      match stream
      case None => Some(g1)
      case Some(s) =>
        if !Observers.Accepts(kind.inputs[n], format) then None
        else Some(g1.(inputs := g1.inputs[(id, n) := s],
             observers := g1.observers[s := Observing(g1.observers, s) + [id]]))
  }

  // ----- parsing

  /** A property whose text comes later, in the block with this label. */
  datatype Late = Late(id: string, name: string, tag: string)

  /** The pipeline so far, the texts still to come, the block that is being read, and the delay of the
      main loop. */
  datatype State =
    State(graph: Graph, lates: seq<Late>, dataMode: bool, dataTag: string, data: string, delay: int)

  const DELAY: int := 5

  const START: State := State(Graph([], map[], map[]), [], false, "", "", DELAY)

  function FindLate(lates: seq<Late>, tag: string): (r: Option<nat>)
    ensures r.Some? ==> r.value < |lates|
  {
    if lates == [] then None
    else if lates[0].tag == tag then Some(0)
    else match FindLate(lates[1..], tag) case None => None case Some(k) => Some(k + 1)
  }

  /** Give a text to every property that waits for it. */
  function Deliver(ms: seq<Module>, lates: seq<Late>, tag: string, data: string): Option<(seq<Module>, seq<Late>)>
    decreases |lates|
  {
    match FindLate(lates, tag)
    case None => Some((ms, lates))
    case Some(k) =>
      match Find(ms, lates[k].id)
      case None => None
      case Some(j) =>
        Deliver(ms[j := ms[j].(props := SetText(ms[j].props, lates[k].name, data))], lates[..k] + lates[k + 1..], tag,
          data)
  }

  /** The end of a block, if there is one. */
  function Flush(s: State): Option<State> {
    if !s.dataMode then Some(s)
    else
      match Deliver(s.graph.modules, s.lates, s.dataTag, s.data)
      case None => None
      case Some(r) => Some(State(s.graph.(modules := r.0), r.1, false, s.dataTag, "", s.delay))
  }

  function Create(f: Factory, s: State, kind: string, id: string): Option<State> {
    if Find(s.graph.modules, id).Some? || kind !in f then None
    else Some(s.(graph := s.graph.(modules := s.graph.modules + [NewModule(f, kind, id)])))
  }

  /** A module with its id, which cannot be changed any more. */
  function NewModule(f: Factory, kind: string, id: string): Module
    requires kind in f
  {
    var props := Set(f[kind].props, "id", id);
    Module(kind, props["id" := props["id"].(readOnly := true)])
  }

  function Assign(s: State, id: string, name: string, value: string): Option<State> {
    match Find(s.graph.modules, id)
    case None => None
    case Some(j) =>
      var m := s.graph.modules[j];
      Some(s.(graph := s.graph.(modules := s.graph.modules[j := m.(props := Set(m.props, name, value))])))
  }

  function Connect(f: Factory, s: State, from: string, output: int, to: string, input: int): Option<State> {
    match Find(s.graph.modules, from)
    case None => None
    case Some(i) =>
      match Find(s.graph.modules, to)
      case None => None
      case Some(j) =>
        var a, b := s.graph.modules[i], s.graph.modules[j];
        if a.kind !in f || b.kind !in f then None
        else
          var formats := f[a.kind].outputs;
          var known := 0 <= output < |formats|;
          match SetInput(s.graph, to, f[b.kind], input,
            if known then Some(Stream(from, output)) else None, if known then formats[output] else "")
          case None => None
          case Some(g) => Some(s.(graph := g))
  }

  function Command(f: Factory, s: State, tokens: seq<string>): Option<State>
    requires |tokens| > 1
  {
    if tokens[0] == "config" then
      if |tokens| < 3 then None else Some(if tokens[1] == "delay" then s.(delay := Atoi(tokens[2])) else s)
    else if tokens[0] != "pipeline" then None
    else if tokens[1] == "create" then
      if |tokens| != 4 then None else Create(f, s, tokens[2], tokens[3])
    else if tokens[1] == "set" then
      if |tokens| < 4 || |tokens| > 5 then None
      else Assign(s, tokens[2], tokens[3], if |tokens| == 5 then tokens[4] else "")
    else if tokens[1] == "settext" then
      if |tokens| != 5 then None else Some(s.(lates := s.lates + [Late(tokens[2], tokens[3], tokens[4])]))
    else if tokens[1] == "connect" then
      if |tokens| != 6 then None else Connect(f, s, tokens[2], Atoi(tokens[3]), tokens[4], Atoi(tokens[5]))
    else None
  }

  /** One line of the file. A line of white space inside a block has no first word to look at. */
  function Step(f: Factory, s: State, line: string): Option<State> {
    if line == "" || line[0] == '#' then Some(s)
    else
      var tokens := Tokens(line);
      if |tokens| == 0 || (|tokens| == 1 && !s.dataMode) then None
      else if tokens[0] == BOUNDARY then
        match Flush(s)
        case None => None
        case Some(r) => Some(if |tokens| == 2 then r.(dataMode := true, dataTag := tokens[1]) else r)
      else if s.dataMode then Some(s.(data := s.data + line + "\n"))
      else Command(f, s, tokens)
  }

  function Run(f: Factory, s: State, lines: seq<string>): Option<State>
    decreases |lines|
  {
    if lines == [] then Some(s)
    else match Step(f, s, lines[0]) case None => None case Some(r) => Run(f, r, lines[1..])
  }

  function Load(f: Factory, text: string): Option<Graph> {
    match Run(f, START, Lines(text)) case None => None case Some(s) => Some(s.graph)
  }

  // ----- saving

  /** The label of the block for a text property. */
  function Tag(id: string, name: string): string { id + "_" + name }

  function CreateLine(kind: string, id: string): string { Spaced(["pipeline", "create", kind, id]) }

  function PropLine(id: string, name: string, p: Prop): string {
    if p.text then Spaced(["pipeline", "settext", id, name, Tag(id, name)])
    else Spaced(["pipeline", "set", id, name]) + (" " + AsString(p.value))
  }

  function ConnectLine(c: Conn): string {
    Spaced(["pipeline", "connect", c.from.id, PrintInt(c.from.output), c.to, PrintInt(c.input)]) + (" " + "")
  }

  /** The properties of a module in some order of their names. */
  function PropLines(m: Module, names: seq<string>): seq<string>
    requires forall i :: 0 <= i < |names| ==> names[i] in m.props
  {
    if names == [] then []
    else PropLines(m, names[..|names| - 1]) + [PropLine(Id(m), names[|names| - 1], m.props[names[|names| - 1]])]
  }

  function BlockLines(m: Module, name: string): seq<string>
    requires name in m.props
  {
    [Spaced([BOUNDARY, Tag(Id(m), name)])] + Lines(AsString(m.props[name].value))
  }

  function DataLines(m: Module, names: seq<string>): seq<string>
    requires forall i :: 0 <= i < |names| ==> names[i] in m.props
  {
    if names == [] then []
    else
      var last := names[|names| - 1];
      DataLines(m, names[..|names| - 1]) + if m.props[last].text then BlockLines(m, last) else []
  }

  /** One connection of an output to an input. */
  datatype Conn = Conn(from: Stream, to: string, input: int)

  /** The first input of a module, from `n` on, that reads a stream; -1 if there is none. */
  function InputIndex(inputs: map<(string, int), Stream>, id: string, s: Stream, n: nat, count: nat): int
    decreases count - n
  {
    if n >= count then -1
    else if (id, n) in inputs && inputs[(id, n)] == s then n
    else InputIndex(inputs, id, s, n + 1, count)
  }

  function InputCount(f: Factory, ms: seq<Module>, id: string): nat {
    match Find(ms, id)
    case None => 0
    case Some(j) => if ms[j].kind in f then |f[ms[j].kind].inputs| else 0
  }

  function StreamConns(f: Factory, g: Graph, s: Stream, observers: seq<string>): seq<Conn> {
    seq(|observers|, i requires 0 <= i < |observers| =>
      Conn(s, observers[i], InputIndex(g.inputs, observers[i], s, 0, InputCount(f, g.modules, observers[i]))))
  }

  /** The connections of the first `n` outputs of a module. */
  function ModuleConns(f: Factory, g: Graph, id: string, n: nat): seq<Conn> {
    if n == 0 then []
    else ModuleConns(f, g, id, n - 1) + StreamConns(f, g, Stream(id, n - 1), Observing(g.observers, Stream(id, n - 1)))
  }

  function OutputCount(f: Factory, m: Module): nat { if m.kind in f then |f[m.kind].outputs| else 0 }

  /** The connections of the first `k` modules. */
  function Conns(f: Factory, g: Graph, k: nat): seq<Conn>
    requires k <= |g.modules|
  {
    if k == 0 then []
    else Conns(f, g, k - 1) + ModuleConns(f, g, Id(g.modules[k - 1]), OutputCount(f, g.modules[k - 1]))
  }

  function ConnectLines(conns: seq<Conn>): (r: seq<string>)
    ensures |r| == |conns|
  {
    seq(|conns|, i requires 0 <= i < |conns| => ConnectLine(conns[i]))
  }

  /** For every module an order of all its properties. */
  ghost predicate Ordered(ms: seq<Module>, names: seq<seq<string>>) {
    && |names| == |ms|
    && forall i :: 0 <= i < |ms| ==> Distinct(names[i]) && (forall x :: x in names[i] <==> x in ms[i].props)
  }

  ghost function CreateAll(g: Graph, names: seq<seq<string>>, k: nat): seq<string>
    requires Ordered(g.modules, names) && k <= |g.modules|
  {
    if k == 0 then []
    else
      var m := g.modules[k - 1];
      CreateAll(g, names, k - 1) + ([CreateLine(m.kind, Id(m))] + (PropLines(m, names[k - 1]) + [""]))
  }

  predicate HasText(m: Module, names: seq<string>)
    requires forall i :: 0 <= i < |names| ==> names[i] in m.props
  {
    exists i :: 0 <= i < |names| && m.props[names[i]].text
  }

  ghost function DataAll(g: Graph, names: seq<seq<string>>, k: nat): seq<string>
    requires Ordered(g.modules, names) && k <= |g.modules|
  {
    if k == 0 then []
    else
      var m := g.modules[k - 1];
      DataAll(g, names, k - 1) + (DataLines(m, names[k - 1]) + if HasText(m, names[k - 1]) then [BOUNDARY] else [])
  }

  const RULE: string := "# " + BOUNDARY + BOUNDARY + "===="

  function Header(date: string): seq<string> {
    [RULE, "# PIPELINE AUTOGENERATED on " + date, RULE, ""]
  }

  /** Modules with their properties, then the connections, then the long texts. */
  ghost function SaveLines(f: Factory, g: Graph, names: seq<seq<string>>, date: string): seq<string>
    requires Ordered(g.modules, names)
  {
    Header(date) + (CreateAll(g, names, |g.modules|)
                    + (ConnectLines(Conns(f, g, |g.modules|)) + DataAll(g, names, |g.modules|)))
  }

  ghost function Save(f: Factory, g: Graph, names: seq<seq<string>>, date: string): string
    requires Ordered(g.modules, names)
  {
    Joined(SaveLines(f, g, names, date))
  }
}
