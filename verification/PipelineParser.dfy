/** The loops that write a pipeline to text and that read it back. */
module PipelineParser {
  import opened Options
  import opened Decimal
  import opened Words
  import opened PipelineFile

  // ----- writing

  /** The creation lines of a module. */
  method WriteModule(m: Module, names: seq<string>) returns (text: string)
    requires forall i :: 0 <= i < |names| ==> names[i] in m.props
    ensures text == Joined([CreateLine(m.kind, Id(m))] + (PropLines(m, names) + [""]))
  {
    hide PropLine; hide CreateLine; hide Id; hide Joined;
    text := CreateLine(m.kind, Id(m)) + "\n";
    OneLine(CreateLine(m.kind, Id(m)));
    assert names[..0] == [];
    assert [CreateLine(m.kind, Id(m))] + PropLines(m, names[..0]) == [CreateLine(m.kind, Id(m))];
    for k := 0 to |names|
      invariant text == Joined([CreateLine(m.kind, Id(m))] + PropLines(m, names[..k]))
    {
      var line := PropLine(Id(m), names[k], m.props[names[k]]);
      PropLinesNext(m, names, k);
      NextLine([CreateLine(m.kind, Id(m))] + PropLines(m, names[..k]), line);
      assert [CreateLine(m.kind, Id(m))] + PropLines(m, names[..k]) + [line]
             == [CreateLine(m.kind, Id(m))] + PropLines(m, names[..k + 1]);
      text := text + line + "\n";
    }
    assert names[..|names|] == names;
    NextLine([CreateLine(m.kind, Id(m))] + PropLines(m, names), "");
    assert [CreateLine(m.kind, Id(m))] + PropLines(m, names) + [""]
           == [CreateLine(m.kind, Id(m))] + (PropLines(m, names) + [""]);
    text := text + "" + "\n";
  }

  lemma PropLinesNext(m: Module, names: seq<string>, k: nat)
    requires k < |names| && forall i :: 0 <= i < |names| ==> names[i] in m.props
    ensures PropLines(m, names[..k + 1]) == PropLines(m, names[..k]) + [PropLine(Id(m), names[k], m.props[names[k]])]
  {
    assert names[..k + 1][..k] == names[..k];
  }

  lemma OneLine(line: string)
    ensures Joined([line]) == line + "\n"
  {
    assert [line][1..] == [];
  }

  lemma NextLine(lines: seq<string>, line: string)
    ensures Joined(lines + [line]) == Joined(lines) + line + "\n"
  {
    JoinedAppend(lines, [line]);
    OneLine(line);
  }

  /** The blocks of a module, with a boundary after them if there are any. */
  method WriteTexts(m: Module, names: seq<string>) returns (text: string)
    requires forall i :: 0 <= i < |names| ==> names[i] in m.props
    ensures text == Joined(DataLines(m, names) + if HasText(m, names) then [BOUNDARY] else [])
  {
    hide Id; hide Joined; hide Lines; hide BlockLines;
    text := "";
    var haveText := false;
    assert names[..0] == [];
    NoLines();
    for k := 0 to |names|
      invariant text == Joined(DataLines(m, names[..k]))
      invariant haveText <==> exists i :: 0 <= i < k && m.props[names[i]].text
    {
      DataLinesNext(m, names, k);
      var x := names[k];
      if m.props[x].text {
        haveText := true;
        BlockText(m, x);
        JoinedAppend(DataLines(m, names[..k]), BlockLines(m, x));
        text := text + (Spaced([BOUNDARY, Tag(Id(m), x)]) + "\n" + (AsString(m.props[x].value) + "\n"));
      }
    }
    assert names[..|names|] == names;
    if haveText {
      NextLine(DataLines(m, names), BOUNDARY);
      text := text + BOUNDARY + "\n";
    } else {
      assert DataLines(m, names) + [] == DataLines(m, names);
    }
  }

  lemma NoLines()
    ensures Joined([]) == ""
  {}

  lemma DataLinesNext(m: Module, names: seq<string>, k: nat)
    requires k < |names| && forall i :: 0 <= i < |names| ==> names[i] in m.props
    ensures DataLines(m, names[..k + 1])
            == DataLines(m, names[..k]) + if m.props[names[k]].text then BlockLines(m, names[k]) else []
    ensures !m.props[names[k]].text ==> DataLines(m, names[..k + 1]) == DataLines(m, names[..k])
  {
    hide BlockLines;
    assert names[..k + 1][..k] == names[..k];
  }

  /** A block as it is written: the label, the text and a line end. */
  lemma BlockText(m: Module, x: string)
    requires x in m.props
    ensures Joined(BlockLines(m, x)) == Spaced([BOUNDARY, Tag(Id(m), x)]) + "\n" + (AsString(m.props[x].value) + "\n")
  {
    hide Joined; hide Lines; hide Id; hide Tag;
    OneLine(Spaced([BOUNDARY, Tag(Id(m), x)]));
    JoinedLines(AsString(m.props[x].value));
    JoinedAppend([Spaced([BOUNDARY, Tag(Id(m), x)])], Lines(AsString(m.props[x].value)));
  }

  /** The connection lines of a module: for each of its outputs, each observer. */
  method WriteConnections(f: Factory, g: Graph, m: Module) returns (text: string)
    ensures text == Joined(ConnectLines(ModuleConns(f, g, Id(m), OutputCount(f, m))))
  {
    hide Joined; hide ConnectLine; hide Observing; hide InputIndex; hide InputCount; hide ConnectLines;
    hide StreamConns;
    text := "";
    NoLines();
    NoConnectLines();
    for n := 0 to OutputCount(f, m)
      invariant text == Joined(ConnectLines(ModuleConns(f, g, Id(m), n)))
    {
      var t := WriteStream(f, g, Stream(Id(m), n));
      var cs := StreamConns(f, g, Stream(Id(m), n), Observing(g.observers, Stream(Id(m), n)));
      ConnectLinesAppend(ModuleConns(f, g, Id(m), n), cs);
      JoinedAppend(ConnectLines(ModuleConns(f, g, Id(m), n)), ConnectLines(cs));
      text := text + t;
    }
  }

  lemma NoConnectLines()
    ensures ConnectLines([]) == []
  {}

  lemma ConnectLinesAppend(a: seq<Conn>, b: seq<Conn>)
    ensures ConnectLines(a + b) == ConnectLines(a) + ConnectLines(b)
  {
    hide ConnectLine;
  }

  method WriteStream(f: Factory, g: Graph, s: Stream) returns (text: string)
    ensures text == Joined(ConnectLines(StreamConns(f, g, s, Observing(g.observers, s))))
  {
    hide Joined; hide ConnectLine; hide Observing; hide InputIndex; hide InputCount;
    var obs := Observing(g.observers, s);
    ghost var all := ConnectLines(StreamConns(f, g, s, obs));
    text := "";
    NoLines();
    for j := 0 to |obs|
      invariant text == Joined(all[..j])
    {
      var c := Conn(s, obs[j], InputIndex(g.inputs, obs[j], s, 0, InputCount(f, g.modules, obs[j])));
      assert all[j] == ConnectLine(c);
      NextLine(all[..j], ConnectLine(c));
      assert all[..j] + [all[j]] == all[..j + 1];
      text := text + ConnectLine(c) + "\n";
    }
    assert all[..|obs|] == all;
  }

  /** The whole pipeline as text. */
  method Serialize(f: Factory, g: Graph, names: seq<seq<string>>, date: string) returns (text: string)
    requires Ordered(g.modules, names)
    ensures text == Save(f, g, names, date)
  {
    hide Joined; hide Id; hide PropLines; hide CreateLine; hide DataLines; hide ConnectLines; hide ModuleConns;
    hide HasText; hide RULE;
    var ms := g.modules;
    ghost var head := Header(date);
    text := RULE + "\n" + "# PIPELINE AUTOGENERATED on " + date + "\n" + RULE + "\n" + "" + "\n";
    HeaderText(date);
    ghost var all := head;
    NoneMore(head);
    for i := 0 to |ms|
      invariant text == Joined(all) && all == head + CreateAll(g, names, i)
    {
      var t := WriteModule(ms[i], names[i]);
      ghost var lines := [CreateLine(ms[i].kind, Id(ms[i]))] + (PropLines(ms[i], names[i]) + [""]);
      JoinedAppend(all, lines);
      Regroup(head, CreateAll(g, names, i), lines);
      text, all := text + t, all + lines;
    }
    ghost var made := all;
    NoneMore(made);
    NoConnectLines();
    for i := 0 to |ms|
      invariant text == Joined(all) && all == made + ConnectLines(Conns(f, g, i))
    {
      var t := WriteConnections(f, g, ms[i]);
      ghost var cs := ModuleConns(f, g, Id(ms[i]), OutputCount(f, ms[i]));
      JoinedAppend(all, ConnectLines(cs));
      ConnectLinesAppend(Conns(f, g, i), cs);
      Regroup(made, ConnectLines(Conns(f, g, i)), ConnectLines(cs));
      text, all := text + t, all + ConnectLines(cs);
    }
    ghost var wired := all;
    NoneMore(wired);
    for i := 0 to |ms|
      invariant text == Joined(all) && all == wired + DataAll(g, names, i)
    {
      var t := WriteTexts(ms[i], names[i]);
      ghost var lines := DataLines(ms[i], names[i]) + if HasText(ms[i], names[i]) then [BOUNDARY] else [];
      JoinedAppend(all, lines);
      Regroup(wired, DataAll(g, names, i), lines);
      text, all := text + t, all + lines;
    }
    ghost var a, b, c := CreateAll(g, names, |ms|), ConnectLines(Conns(f, g, |ms|)), DataAll(g, names, |ms|);
    Regroup(head, a, b);
    Regroup(head, a + b, c);
    Regroup(a, b, c);
  }

  lemma Regroup(a: seq<string>, b: seq<string>, c: seq<string>)
    ensures a + b + c == a + (b + c)
  {}

  lemma NoneMore(a: seq<string>)
    ensures a + [] == a
  {}

  lemma HeaderText(date: string)
    ensures Joined(Header(date)) == RULE + "\n" + "# PIPELINE AUTOGENERATED on " + date + "\n" + RULE + "\n" + "" + "\n"
  {
    hide Joined; hide RULE;
    var title := "# PIPELINE AUTOGENERATED on " + date;
    OneLine(RULE);
    NextLine([RULE], title);
    NextLine([RULE] + [title], RULE);
    NextLine([RULE] + [title] + [RULE], "");
    assert Header(date) == [RULE] + [title] + [RULE] + [""];
  }

  // ----- reading

  /** A pipeline that is being read: its modules and connections, and where the reader is. */
  class Parser {
    var graph: Graph
    var lates: seq<Late>
    var dataMode: bool
    var dataTag: string
    var data: string
    var delay: int

    function View(): State
      reads this
    {
      State(graph, lates, dataMode, dataTag, data, delay)
    }

    constructor (graph: Graph, delay: int)
      ensures View() == State(graph, [], false, "", "", delay)
    {
      this.graph, this.delay := graph, delay;
      lates, dataMode, dataTag, data := [], false, "", "";
    }

    /** Give the collected text to every property that waits for it, one after the other. */
    method DeliverAll() returns (ok: bool)
      modifies this`graph, this`lates
      ensures var r := Deliver(old(graph.modules), old(lates), dataTag, data);
              && (ok <==> r.Some?)
              && (ok ==> graph == old(graph).(modules := r.value.0) && lates == r.value.1)
    {
      hide Find; hide SetText;
      var again := true;
      while again
        invariant Deliver(old(graph.modules), old(lates), dataTag, data) == Deliver(graph.modules, lates, dataTag, data)
        invariant graph == old(graph).(modules := graph.modules)
        invariant !again ==> FindLate(lates, dataTag).None?
        decreases again, |lates|
      {
        again := false;
        var k := NextLate(dataTag);
        if k.Some? {
          var late := lates[k.value];
          var j := GetModuleById(late.id);
          if j.None? { return false; }
          var m := graph.modules[j.value];
          graph := graph.(modules := graph.modules[j.value := m.(props := SetText(m.props, late.name, data))]);
          lates := lates[..k.value] + lates[k.value + 1..];
          again := true;
        }
      }
      ok := true;
    }

    /** The first text property that waits for a block. */
    method NextLate(tag: string) returns (r: Option<nat>)
      ensures r == FindLate(lates, tag)
    {
      var i := 0;
      assert lates[0..] == lates;
      while i < |lates|
        invariant 0 <= i <= |lates|
        invariant FindLate(lates, tag) == match FindLate(lates[i..], tag) case None => None case Some(k) => Some(k + i)
      {
        if lates[i].tag == tag { return Some(i); }
        assert lates[i..][1..] == lates[i + 1..];
        i := i + 1;
      }
      r := None;
    }

    method GetModuleById(id: string) returns (r: Option<nat>)
      ensures r == Find(graph.modules, id)
    {
      hide Id;
      var ms := graph.modules;
      assert ms[0..] == ms;
      var i := 0;
      while i < |ms|
        invariant 0 <= i <= |ms|
        invariant Find(ms, id) == match Find(ms[i..], id) case None => None case Some(k) => Some(k + i)
      {
        if Id(ms[i]) == id { return Some(i); }
        assert ms[i..][1..] == ms[i + 1..];
        i := i + 1;
      }
      r := None;
    }

    /** A boundary line. */
    method ParseBoundary(tokens: seq<string>) returns (ok: bool)
      requires |tokens| > 0
      modifies this
      ensures var r := Flush(old(View()));
              && (ok <==> r.Some?)
              && (ok ==> View() == if |tokens| == 2 then r.value.(dataMode := true, dataTag := tokens[1]) else r.value)
    {
      hide Deliver;
      if dataMode {
        dataMode := false;
        ok := DeliverAll();
        if !ok { return; }
        data := "";
      }
      if |tokens| == 2 {
        dataMode, dataTag := true, tokens[1];
      }
      ok := true;
    }

    /** A command, with its errors. */
    method ParseCommand(f: Factory, tokens: seq<string>) returns (ok: bool)
      requires |tokens| > 1
      modifies this`graph, this`lates, this`delay
      ensures var r := Command(f, old(View()), tokens);
              (ok <==> r.Some?) && (ok ==> View() == r.value)
    {
      hide Create; hide Assign; hide Connect; hide Atoi;
      if tokens[0] == "config" {
        if |tokens| < 3 { return false; }
        if tokens[1] == "delay" { delay := Atoi(tokens[2]); }
        return true;
      }
      if tokens[0] != "pipeline" { return false; }
      if tokens[1] == "create" {
        if |tokens| != 4 { return false; }
        ok := ParseCreate(f, tokens[2], tokens[3]);
      } else if tokens[1] == "set" {
        if |tokens| < 4 || |tokens| > 5 { return false; }
        ok := ParseSet(tokens[2], tokens[3], if |tokens| == 5 then tokens[4] else "");
      } else if tokens[1] == "settext" {
        if |tokens| != 5 { return false; }
        lates := lates + [Late(tokens[2], tokens[3], tokens[4])];
        ok := true;
      } else if tokens[1] == "connect" {
        if |tokens| != 6 { return false; }
        ok := ParseConnect(f, tokens[2], Atoi(tokens[3]), tokens[4], Atoi(tokens[5]));
      } else {
        ok := false;
      }
    }

    method ParseCreate(f: Factory, kind: string, id: string) returns (ok: bool)
      modifies this`graph
      ensures var r := Create(f, old(View()), kind, id);
              (ok <==> r.Some?) && (ok ==> View() == r.value)
    {
      hide Find; hide NewModule;
      var known := GetModuleById(id);
      if known.Some? || kind !in f { return false; }
      graph := graph.(modules := graph.modules + [NewModule(f, kind, id)]);
      ok := true;
    }

    method ParseSet(id: string, name: string, value: string) returns (ok: bool)
      modifies this`graph
      ensures var r := Assign(old(View()), id, name, value);
              (ok <==> r.Some?) && (ok ==> View() == r.value)
    {
      hide Find; hide Set;
      var j := GetModuleById(id);
      if j.None? { return false; }
      var m := graph.modules[j.value];
      graph := graph.(modules := graph.modules[j.value := m.(props := Set(m.props, name, value))]);
      ok := true;
    }

    method ParseConnect(f: Factory, from: string, output: int, to: string, input: int) returns (ok: bool)
      modifies this`graph
      ensures var r := Connect(f, old(View()), from, output, to, input);
              (ok <==> r.Some?) && (ok ==> View() == r.value)
    {
      hide Find; hide SetInput;
      var i := GetModuleById(from);
      if i.None? { return false; }
      var j := GetModuleById(to);
      if j.None? { return false; }
      var a, b := graph.modules[i.value].kind, graph.modules[j.value].kind;
      if a !in f || b !in f { return false; }
      var known := 0 <= output < |f[a].outputs|;
      var g := SetInput(graph, to, f[b], input,
               if known then Some(Stream(from, output)) else None, if known then f[a].outputs[output] else "");
      if g.None? { return false; }
      graph := g.value;
      ok := true;
    }

    method ParseLine(f: Factory, line: string) returns (ok: bool)
      modifies this
      ensures var r := Step(f, old(View()), line);
              (ok <==> r.Some?) && (ok ==> View() == r.value)
    {
      hide Tokens; hide Flush; hide Command;
      if line == "" || line[0] == '#' { return true; }
      var tokens := Tokens(line);
      if |tokens| == 0 || (|tokens| == 1 && !dataMode) { return false; }
      if tokens[0] == BOUNDARY {
        ok := ParseBoundary(tokens);
      } else if dataMode {
        data := data + line + "\n";
        ok := true;
      } else {
        ok := ParseCommand(f, tokens);
      }
    }

    /** Read a file, line by line, up to its end or to the first error. */
    method Parse(f: Factory, text: string) returns (ok: bool)
      modifies this
      ensures var r := Run(f, old(View()), Lines(text));
              (ok <==> r.Some?) && (ok ==> View() == r.value)
    {
      hide Step; hide Lines;
      var lines := Lines(text);
      assert lines[0..] == lines;
      for i := 0 to |lines|
        invariant Run(f, old(View()), lines) == Run(f, View(), lines[i..])
      {
        assert lines[i..][1..] == lines[i + 1..];
        ok := ParseLine(f, lines[i]);
        if !ok { return; }
      }
      ok := true;
    }
  }
}
