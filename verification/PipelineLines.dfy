/** What single lines of a pipeline file mean, also lines that only a person writes, and what the
    saved file looks like, character by character. */
module PipelineLines {
  import opened Options
  import opened Lists
  import opened Decimal
  import opened Words
  import opened PipelineFile
  import opened PipelineRoundTrip
  import opened PipelineExact
  import Observers

  // ----- modules by their ids

  /** Module `j` is the first one with the id. */
  predicate FirstWith(ms: seq<Module>, id: string, j: int) {
    0 <= j < |ms| && Id(ms[j]) == id && forall i :: 0 <= i < j ==> Id(ms[i]) != id
  }

  predicate Unknown(ms: seq<Module>, id: string) { forall i :: 0 <= i < |ms| ==> Id(ms[i]) != id }

  lemma {:induction false} FindMeans(ms: seq<Module>, id: string)
    ensures if Unknown(ms, id) then Find(ms, id) == None
            else Find(ms, id).Some? && FirstWith(ms, id, Find(ms, id).value)
    ensures forall j :: FirstWith(ms, id, j) ==> Find(ms, id) == Some(j)
  {
    hide Id;
    if ms != [] {
      FindMeans(ms[1..], id);
      assert Unknown(ms, id) <==> Id(ms[0]) != id && Unknown(ms[1..], id) by { UnknownSplit(ms, id); }
      if Id(ms[0]) != id {
        forall j | FirstWith(ms, id, j) ensures FirstWith(ms[1..], id, j - 1) { assert ms[1..][j - 1] == ms[j]; }
        forall j | FirstWith(ms[1..], id, j) ensures FirstWith(ms, id, j + 1) {
          assert forall i :: 1 <= i < j + 1 ==> ms[i] == ms[1..][i - 1];
        }
      }
    }
  }

  lemma UnknownSplit(ms: seq<Module>, id: string)
    requires ms != []
    ensures Unknown(ms, id) <==> Id(ms[0]) != id && Unknown(ms[1..], id)
  {
    hide Id;
    assert ms == [ms[0]] + ms[1..];
  }

  // ----- values

  /** What a property is after a string was assigned to it. */
  ghost predicate Assigned(p: Prop, w: string, q: Prop) {
    && q.text == p.text && q.readOnly == p.readOnly
    && (p.readOnly ==> q == p)
    && (!p.readOnly ==>
          match p.value
          case S(_) => q.value == S(w)
          case B(_) => q.value == B(w == "true" || w == "True" || w == "TRUE" || w == "1")
          case I(_) => q.value.I? && forall n :: w == PrintInt(n) ==> q.value == I(n))
  }

  lemma SetStringAssigns(p: Prop, w: string)
    ensures Assigned(p, w, SetString(p, w))
  {
    hide PrintInt; hide Atoi;
    forall n | w == PrintInt(n) ensures Atoi(w) == n { AtoiRoundTrip(n); }
  }

  /** How values are written. */
  lemma ValuesPrinted(s: string, n: int)
    ensures AsString(S(s)) == s && AsString(B(true)) == "true" && AsString(B(false)) == "false"
    ensures AsString(I(n)) == PrintInt(n)
  {}

  /** In a module, one property was assigned and nothing else changed. */
  ghost predicate AssignedIn(m: Module, name: string, w: string, r: Module) {
    && r.kind == m.kind && r.props.Keys == m.props.Keys + {name}
    && (forall x :: x in m.props && x != name ==> r.props[x] == m.props[x])
    && Assigned(if name in m.props then m.props[name] else Prop(S(""), false, false), w, r.props[name])
  }

  /** The state with another module at one place. */
  predicate Replaced(s: State, j: nat, r: State)
    requires j < |s.graph.modules|
  {
    && |r.graph.modules| == |s.graph.modules|
    && r == s.(graph := s.graph.(modules := s.graph.modules[j := r.graph.modules[j]]))
  }

  lemma AssignMeans(s: State, id: string, name: string, w: string)
    ensures Unknown(s.graph.modules, id) ==> Assign(s, id, name, w) == None
    ensures forall j :: FirstWith(s.graph.modules, id, j) ==>
              && Assign(s, id, name, w).Some? && Replaced(s, j, Assign(s, id, name, w).value)
              && AssignedIn(s.graph.modules[j], name, w, Assign(s, id, name, w).value.graph.modules[j])
  {
    hide Find; hide SetString; hide Assigned;
    FindMeans(s.graph.modules, id);
    forall j | FirstWith(s.graph.modules, id, j)
      ensures AssignedIn(s.graph.modules[j], name, w, Assign(s, id, name, w).value.graph.modules[j])
    {
      SetStringAssigns(Get(s.graph.modules[j].props, name), w);
    }
  }

  // ----- words of a line

  /** Words with single spaces between them, as a person would write them. */
  lemma WordsOf(words: seq<string>)
    requires words != [] && forall i :: 0 <= i < |words| ==> Token(words[i])
    ensures Tokens(Spaced(words)) == words
    ensures words[0] != "" && Spaced(words) != "" && Spaced(words)[0] == words[0][0]
  {
    hide Tokens; hide Token;
    TokensSpaced(words, []);
    assert Spaced(words) + [] == Spaced(words) && words + [] == words by { NoTokens(); }
    NoTokens();
    assert Token(words[0]);
    TokenFirst(words[0]);
  }

  lemma TokenFirst(w: string)
    requires Token(w)
    ensures w != []
  {}

  lemma CommandOf(f: Factory, s: State, words: seq<string>)
    requires !s.dataMode && |words| > 1 && words[0] in {"pipeline", "config"}
    requires forall i :: 0 <= i < |words| ==> Token(words[i])
    ensures Step(f, s, Spaced(words)) == Command(f, s, words)
  {
    hide Command; hide Tokens; hide Token; hide Flush; hide Spaced;
    WordsOf(words);
  }

  lemma Literals()
    ensures Token("pipeline") && Token("config") && Token("create") && Token("set") && Token("settext")
    ensures Token("connect") && Token("delay")
  {}

  lemma Written2(a: string, b: string)
    ensures Spaced([a, b]) == a + " " + b
  {
    assert [a, b][1..] == [b];
  }

  lemma Written3(a: string, b: string, c: string)
    ensures Spaced([a, b, c]) == a + " " + b + " " + c
  {
    assert [a, b, c][1..] == [b, c];
    Written2(b, c);
  }

  lemma Written4(a: string, b: string, c: string, d: string)
    ensures Spaced([a, b, c, d]) == a + " " + b + " " + c + " " + d
  {
    assert [a, b, c, d][1..] == [b, c, d];
    Written3(b, c, d);
  }

  lemma Written5(a: string, b: string, c: string, d: string, e: string)
    ensures Spaced([a, b, c, d, e]) == a + " " + b + " " + c + " " + d + " " + e
  {
    assert [a, b, c, d, e][1..] == [b, c, d, e];
    Written4(b, c, d, e);
  }

  lemma Written6(a: string, b: string, c: string, d: string, e: string, g: string)
    ensures Spaced([a, b, c, d, e, g]) == a + " " + b + " " + c + " " + d + " " + e + " " + g
  {
    assert [a, b, c, d, e, g][1..] == [b, c, d, e, g];
    Written5(b, c, d, e, g);
  }

  // ----- the lines

  /** `pipeline set id name w`, and the same without a value. */
  lemma SetLineMeans(f: Factory, s: State, id: string, name: string, w: string)
    requires !s.dataMode && Token(id) && Token(name) && Token(w)
    ensures var ms, r := s.graph.modules, Step(f, s, "pipeline set " + id + " " + name + " " + w);
            && (Unknown(ms, id) ==> r == None)
            && forall j :: FirstWith(ms, id, j) ==>
                 r.Some? && Replaced(s, j, r.value) && AssignedIn(ms[j], name, w, r.value.graph.modules[j])
    ensures var ms, r := s.graph.modules, Step(f, s, "pipeline set " + id + " " + name);
            && (Unknown(ms, id) ==> r == None)
            && forall j :: FirstWith(ms, id, j) ==>
                 r.Some? && Replaced(s, j, r.value) && AssignedIn(ms[j], name, "", r.value.graph.modules[j])
  {
    hide Step; hide Assign; hide Token; hide Spaced; hide Unknown; hide FirstWith; hide Replaced; hide AssignedIn;
    Literals();
    Written5("pipeline", "set", id, name, w);
    Written4("pipeline", "set", id, name);
    assert "pipeline" + " " + "set" + " " == "pipeline set ";
    CommandOf(f, s, ["pipeline", "set", id, name, w]);
    CommandOf(f, s, ["pipeline", "set", id, name]);
    AssignMeans(s, id, name, w);
    AssignMeans(s, id, name, "");
  }

  /** `config what value`: the delay is taken, anything else ignored; without a value it is an error. */
  lemma ConfigLineMeans(f: Factory, s: State, what: string, value: string)
    requires !s.dataMode && Token(what) && Token(value)
    ensures Step(f, s, "config " + what + " " + value) == Some(if what == "delay" then s.(delay := Atoi(value)) else s)
    ensures Step(f, s, "config " + what) == None
  {
    hide Step; hide Token; hide Atoi; hide Spaced;
    Literals();
    Written3("config", what, value);
    assert "config" + " " == "config ";
    CommandOf(f, s, ["config", what, value]);
    assert Spaced(["config", what]) == "config " + what by { Written2("config", what); }
    CommandOf(f, s, ["config", what]);
  }

  /** A new module: of the kind, with the properties of the kind and a fixed id. */
  ghost predicate NewOf(f: Factory, kind: string, id: string, m: Module)
    requires kind in f
  {
    && m.kind == kind && m.props.Keys == f[kind].props.Keys + {"id"} && m.props["id"].readOnly
    && (forall x :: x in f[kind].props && x != "id" ==> m.props[x] == f[kind].props[x])
    && (("id" in f[kind].props ==> f[kind].props["id"].value.S? && !f[kind].props["id"].readOnly)
        ==> m.props["id"].value == S(id))
  }

  /** `pipeline create kind id`: refused when the id is used or the kind unknown. */
  lemma CreateLineMeans(f: Factory, s: State, kind: string, id: string)
    requires !s.dataMode && Token(kind) && Token(id)
    ensures var ms, r := s.graph.modules, Step(f, s, "pipeline create " + kind + " " + id);
            && (r.Some? <==> Unknown(ms, id) && kind in f)
            && (r.Some? ==>
                  && |r.value.graph.modules| == |ms| + 1 && NewOf(f, kind, id, r.value.graph.modules[|ms|])
                  && r.value == s.(graph := s.graph.(modules := ms + [r.value.graph.modules[|ms|]])))
  {
    hide Step; hide Token; hide Spaced; hide Find; hide Unknown; hide FirstWith;
    Literals();
    Written4("pipeline", "create", kind, id);
    assert "pipeline" + " " + "create" + " " == "pipeline create ";
    CommandOf(f, s, ["pipeline", "create", kind, id]);
    FindMeans(s.graph.modules, id);
    if kind in f { NewIsNew(f, kind, id); }
  }

  lemma NewIsNew(f: Factory, kind: string, id: string)
    requires kind in f
    ensures NewOf(f, kind, id, NewModule(f, kind, id))
  {}

  /** `pipeline settext id name tag`: the property waits for the block, whether it exists or not. */
  lemma SetTextLineMeans(f: Factory, s: State, id: string, name: string, tag: string)
    requires !s.dataMode && Token(id) && Token(name) && Token(tag)
    ensures Step(f, s, "pipeline settext " + id + " " + name + " " + tag)
         == Some(s.(lates := s.lates + [Late(id, name, tag)]))
  {
    hide Step; hide Token; hide Spaced;
    Literals();
    Written5("pipeline", "settext", id, name, tag);
    assert "pipeline" + " " + "settext" + " " == "pipeline settext ";
    CommandOf(f, s, ["pipeline", "settext", id, name, tag]);
  }

  // ----- connections

  /** An input after it was connected to `to`, or disconnected: the stream it had read loses one
      observer, the first with the name, and the new one gains it at the end; all else stays. */
  ghost predicate Moved(g: Graph, id: string, n: int, to: Option<Stream>, r: Graph) {
    && r.modules == g.modules
    && (forall key :: key != (id, n) ==> (key in r.inputs <==> key in g.inputs))
    && (forall key :: key != (id, n) && key in g.inputs ==> r.inputs[key] == g.inputs[key])
    && ((id, n) in r.inputs <==> to.Some?) && (to.Some? ==> r.inputs[(id, n)] == to.value)
    && forall t :: Observing(r.observers, t)
         == (if (id, n) in g.inputs && g.inputs[(id, n)] == t then RemoveFirst(Observing(g.observers, t), id)
             else Observing(g.observers, t))
            + if to == Some(t) then [id] else []
  }

  lemma SetInputMeans(g: Graph, id: string, kind: Kind, n: int, stream: Option<Stream>, format: string)
    ensures var r := SetInput(g, id, kind, n, stream, format);
            && (r.Some? <==> 0 <= n < |kind.inputs| && (stream.Some? ==> Observers.Accepts(kind.inputs[n], format)))
            && (r.Some? ==> Moved(g, id, n, stream, r.value))
  {
    hide Observers.Accepts; hide RemoveFirst;
    var r := SetInput(g, id, kind, n, stream, format);
    if r.Some? {
      forall t ensures Observing(r.value.observers, t)
        == (if (id, n) in g.inputs && g.inputs[(id, n)] == t then RemoveFirst(Observing(g.observers, t), id)
            else Observing(g.observers, t))
           + if stream == Some(t) then [id] else [] {
      }
    }
  }

  /** `pipeline connect from o to i`: an output that is not there disconnects the input. */
  lemma ConnectLineMeans(f: Factory, s: State, from: string, o: int, to: string, i: int, j: int, k: int)
    requires !s.dataMode && Token(from) && Token(to)
    requires FirstWith(s.graph.modules, from, j) && FirstWith(s.graph.modules, to, k)
    requires s.graph.modules[j].kind in f && s.graph.modules[k].kind in f
    ensures var a, b := f[s.graph.modules[j].kind].outputs, f[s.graph.modules[k].kind].inputs;
            var there := 0 <= o < |a|;
            var r := Step(f, s, "pipeline connect " + from + " " + PrintInt(o) + " " + to + " " + PrintInt(i));
            && (r.Some? <==> 0 <= i < |b| && (there ==> Observers.Accepts(b[i], a[o])))
            && (r.Some? ==>
                  && r.value == s.(graph := r.value.graph)
                  && Moved(s.graph, to, i, if there then Some(Stream(from, o)) else None, r.value.graph))
  {
    hide Step; hide Token; hide Spaced; hide Find; hide FirstWith; hide PrintInt; hide Atoi; hide SetInput; hide Moved;
    hide Observers.Accepts;
    Literals();
    IntToken(o);
    IntToken(i);
    AtoiRoundTrip(o);
    AtoiRoundTrip(i);
    Written6("pipeline", "connect", from, PrintInt(o), to, PrintInt(i));
    assert "pipeline" + " " + "connect" + " " == "pipeline connect ";
    CommandOf(f, s, ["pipeline", "connect", from, PrintInt(o), to, PrintInt(i)]);
    FindMeans(s.graph.modules, from);
    FindMeans(s.graph.modules, to);
    var a, kind := f[s.graph.modules[j].kind].outputs, f[s.graph.modules[k].kind];
    var there := 0 <= o < |a|;
    SetInputMeans(s.graph, to, kind, i, if there then Some(Stream(from, o)) else None, if there then a[o] else "");
  }

  /** Lines that are errors outside a block, and lines that are nothing. */
  lemma OtherLines(f: Factory, s: State, line: string)
    ensures line == "" || line[0] == '#' ==> Step(f, s, line) == Some(s)
    ensures !s.dataMode && line != "" && line[0] != '#' ==>
              var ws := Tokens(line);
              && (|ws| < 2 ==> Step(f, s, line) == None)
              && (|ws| >= 2 && ws[0] !in {"config", "pipeline", "=============================="}
                  ==> Step(f, s, line) == None)
              && (|ws| >= 2 && ws[0] == "pipeline" && ws[1] !in {"create", "set", "settext", "connect"}
                  ==> Step(f, s, line) == None)
              && (|ws| >= 2 && ws[0] == "pipeline" && ws[1] == "create" && |ws| != 4 ==> Step(f, s, line) == None)
              && (|ws| >= 2 && ws[0] == "pipeline" && ws[1] == "set" && |ws| !in {4, 5} ==> Step(f, s, line) == None)
              && (|ws| >= 2 && ws[0] == "pipeline" && ws[1] == "settext" && |ws| != 5 ==> Step(f, s, line) == None)
              && (|ws| >= 2 && ws[0] == "pipeline" && ws[1] == "connect" && |ws| != 6 ==> Step(f, s, line) == None)
  {
    hide Tokens; hide Flush; hide Create; hide Assign; hide Connect; hide Atoi;
    assert BOUNDARY == "==============================";
    assert "pipeline" != BOUNDARY && "config" != BOUNDARY;
  }

  // ----- blocks

  /** The texts that wait for other blocks, in order. */
  function Others(lates: seq<Late>, tag: string): seq<Late> {
    if lates == [] then [] else (if lates[0].tag == tag then [] else [lates[0]]) + Others(lates[1..], tag)
  }

  lemma {:induction false} FindLateMeans(lates: seq<Late>, tag: string)
    ensures match FindLate(lates, tag)
            case None => Others(lates, tag) == lates
            case Some(k) => lates[k].tag == tag && Others(lates[..k] + lates[k + 1..], tag) == Others(lates, tag)
  {
    if lates != [] && lates[0].tag != tag {
      FindLateMeans(lates[1..], tag);
      match FindLate(lates[1..], tag)
      case None => assert [lates[0]] + lates[1..] == lates;
      case Some(k) =>
        var rest := lates[1..];
        assert lates[..k + 1] + lates[k + 2..] == [lates[0]] + (rest[..k] + rest[k + 1..]);
    } else if lates != [] {
      assert lates[..0] + lates[1..] == lates[1..];
    }
  }

  /** The property has its text, if it is a string that can be set, and is marked as a text. */
  predicate HasGot(p: Prop, data: string) { p.text && (p.value.S? && !p.readOnly ==> p.value == S(data)) }

  lemma {:induction false} DeliverKeepsGot(ms: seq<Module>, lates: seq<Late>, tag: string, data: string, j: nat,
                                           name: string)
    requires FixedIds(ms) && j < |ms| && HasGot(Get(ms[j].props, name), data) && Deliver(ms, lates, tag, data).Some?
    ensures var r := Deliver(ms, lates, tag, data).value.0; j < |r| && HasGot(Get(r[j].props, name), data)
    decreases |lates|
  {
    hide Find; hide FixedIds;
    match FindLate(lates, tag)
    case None =>
    case Some(k) =>
      var i := Find(ms, lates[k].id).value;
      var props := SetText(ms[i].props, lates[k].name, data);
      SetKeeps(ms, i, lates[k].name, props, data, true);
      DeliverKeepsGot(WithProps(ms, i, props), lates[..k] + lates[k + 1..], tag, data, j, name);
  }

  /** The end of a block: every property that waits for it gets the text, the others still wait, in
      order; a module that is not there is an error. */
  lemma {:induction false} DeliverMeans(ms: seq<Module>, lates: seq<Late>, tag: string, data: string)
    requires FixedIds(ms)
    ensures Deliver(ms, lates, tag, data).Some?
       <==> forall late :: late in lates && late.tag == tag ==> Find(ms, late.id).Some?
    ensures Deliver(ms, lates, tag, data).Some? ==>
              var r := Deliver(ms, lates, tag, data).value;
              && r.1 == Others(lates, tag) && |r.0| == |ms|
              && forall late, j :: late in lates && late.tag == tag && Find(ms, late.id) == Some(j) ==>
                   HasGot(Get(r.0[j].props, late.name), data)
    decreases |lates|
  {
    hide Find; hide FixedIds; hide HasGot; hide SetText; hide Others;
    FindLateMeans(lates, tag);
    match FindLate(lates, tag)
    case None =>
      forall late | late in lates ensures late.tag != tag { OthersHaveNone(lates, tag, late); }
    case Some(k) =>
      assert lates[k] in lates;
      if Find(ms, lates[k].id).Some? {
        var i := Find(ms, lates[k].id).value;
        var rest := lates[..k] + lates[k + 1..];
        var props := SetText(ms[i].props, lates[k].name, data);
        var ns := WithProps(ms, i, props);
        SetKeeps(ms, i, lates[k].name, props, data, true);
        DeliverMeans(ns, rest, tag, data);
        WithoutOne(lates, k);
        GotNow(ms[i].props, lates[k].name, data);
        if Deliver(ns, rest, tag, data).Some? {
          DeliverKeepsGot(ns, rest, tag, data, i, lates[k].name);
        }
      }
  }

  lemma WithoutOne(lates: seq<Late>, k: nat)
    requires k < |lates|
    ensures forall late :: late in lates <==> late == lates[k] || late in lates[..k] + lates[k + 1..]
  {}

  lemma GotNow(props: Props, name: string, data: string)
    ensures HasGot(Get(SetText(props, name, data), name), data)
  {}

  lemma {:induction false} OthersHaveNone(lates: seq<Late>, tag: string, late: Late)
    requires late in lates && Others(lates, tag) == lates
    ensures late.tag != tag
  {
    OthersShorter(lates[1..], tag);
    if lates[0].tag != tag && late != lates[0] {
      assert Others(lates, tag)[1..] == Others(lates[1..], tag);
      OthersHaveNone(lates[1..], tag, late);
    }
  }

  lemma {:induction false} OthersShorter(lates: seq<Late>, tag: string)
    ensures |Others(lates, tag)| <= |lates|
  {
    if lates != [] { OthersShorter(lates[1..], tag); }
  }

  /** A boundary: the block that is open ends, and with a label another one starts. */
  lemma BoundaryLineMeans(f: Factory, s: State, tag: string)
    requires Token(tag)
    ensures var d := Deliver(s.graph.modules, s.lates, s.dataTag, s.data);
            var done := if !s.dataMode then Some(s)
                        else if d.None? then None
                        else Some(s.(graph := s.graph.(modules := d.value.0), lates := d.value.1, dataMode := false,
                                     data := ""));
            && Step(f, s, "==============================") == (if s.dataMode then done else None)
            && Step(f, s, "============================== " + tag)
               == if done.None? then None else Some(done.value.(dataMode := true, dataTag := tag))
  {
    hide Tokens; hide Command; hide Token; hide Spaced;
    BoundaryToken();
    NoTokens();
    WordsOf([BOUNDARY]);
    WordsOf([BOUNDARY, tag]);
    Written2(BOUNDARY, tag);
    assert Spaced([BOUNDARY]) == BOUNDARY by { Written1(BOUNDARY); }
    assert BOUNDARY + " " == "============================== ";
    assert BOUNDARY[0] == '=';
  }

  lemma Written1(a: string)
    ensures Spaced([a]) == a
  {}

  /** Any other line inside a block is kept as it is, unless it is empty, a comment or white space. */
  lemma TextLineMeans(f: Factory, s: State, line: string)
    requires s.dataMode && line != "" && line[0] != '#'
    ensures Tokens(line) == [] ==> Step(f, s, line) == None
    ensures Tokens(line) != [] && Tokens(line)[0] != "==============================" ==>
              Step(f, s, line) == Some(s.(data := s.data + line + "\n"))
  {
    hide Tokens; hide Flush; hide Command;
  }

  // ----- the saved file

  /** The lines that are written, as text. */
  lemma SavedLinesAre(kind: string, id: string, name: string, p: Prop, c: Conn)
    ensures CreateLine(kind, id) == "pipeline create " + kind + " " + id
    ensures PropLine(id, name, p)
         == if p.text then "pipeline settext " + id + " " + name + " " + (id + "_" + name)
            else "pipeline set " + id + " " + name + " " + AsString(p.value)
    ensures ConnectLine(c)
         == "pipeline connect " + c.from.id + " " + PrintInt(c.from.output) + " " + c.to + " " + PrintInt(c.input) + " "
    ensures BOUNDARY == "=============================="
  {
    hide PrintInt; hide AsString; hide Spaced;
    Written4("pipeline", "create", kind, id);
    assert "pipeline" + " " + "create" + " " == "pipeline create ";
    Written5("pipeline", "settext", id, name, Tag(id, name));
    assert "pipeline" + " " + "settext" + " " == "pipeline settext ";
    Written4("pipeline", "set", id, name);
    assert "pipeline" + " " + "set" + " " == "pipeline set ";
    Written6("pipeline", "connect", c.from.id, PrintInt(c.from.output), c.to, PrintInt(c.input));
    assert "pipeline" + " " + "connect" + " " == "pipeline connect ";
    assert " " + "" == " ";
  }

  lemma HeaderIs(date: string)
    ensures var rule := "# " + "==============================" + "==============================" + "====";
            Header(date) == [rule, "# PIPELINE AUTOGENERATED on " + date, rule, ""]
  {}

  lemma BlockLinesAre(m: Module, name: string)
    requires name in m.props
    ensures BlockLines(m, name)
         == ["============================== " + (Id(m) + "_" + name)] + Lines(AsString(m.props[name].value))
  {
    hide Lines; hide AsString; hide Id;
    Written2(BOUNDARY, Tag(Id(m), name));
    assert BOUNDARY + " " == "============================== ";
  }

  /** A whole file: one module that feeds itself, with a long text. Creation comes first, then the
      connections, then the texts. */
  lemma {:induction false} WholeFile(f: Factory, g: Graph, date: string)
    requires f == map["Gain" := Kind(["*"], ["F"], map[])]
    requires g.modules == [Module("Gain", map["id" := Prop(S("a"), false, true), "note" := Prop(S("hi"), true, false)])]
    requires g.inputs == map[("a", 0) := Stream("a", 0)] && g.observers == map[Stream("a", 0) := ["a"]]
    ensures Ordered(g.modules, [["id", "note"]])
    ensures SaveLines(f, g, [["id", "note"]], date)
         == Header(date)
            + ((["pipeline create Gain a"] + (["pipeline set a id a", "pipeline settext a note a_note"] + [""]))
               + (["pipeline connect a 0 a 0 "]
                  + (["============================== " + "a_note", "hi"] + ["=============================="])))
  {
    var m, names := g.modules[0], ["id", "note"];
    ExampleModule(f, m);
    assert g == Graph([m], g.inputs, g.observers);
    hide *;
    ExampleOrdered(m);
    OneModule(f, g, m, names, date);
    FileParts(f, m, g.inputs, g.observers);
  }

  lemma ExampleModule(f: Factory, m: Module)
    requires f == map["Gain" := Kind(["*"], ["F"], map[])]
    requires m == Module("Gain", map["id" := Prop(S("a"), false, true), "note" := Prop(S("hi"), true, false)])
    ensures m.kind == "Gain" && m.props.Keys == {"id", "note"} && OutputCount(f, m) == 1
    ensures (forall i :: 0 <= i < 2 ==> ["id", "note"][i] in m.props) && HasText(m, ["id", "note"])
    ensures BOUNDARY == "=============================="
  {
    assert m.props[["id", "note"][1]].text;
  }

  lemma {:induction false} OneModule(f: Factory, g: Graph, m: Module, names: seq<string>, date: string)
    requires g.modules == [m] && Ordered(g.modules, [names]) && forall i :: 0 <= i < |names| ==> names[i] in m.props
    ensures SaveLines(f, g, [names], date)
         == Header(date)
            + (([CreateLine(m.kind, Id(m))] + (PropLines(m, names) + [""]))
               + (ConnectLines(ModuleConns(f, g, Id(m), OutputCount(f, m)))
                  + (DataLines(m, names) + if HasText(m, names) then [BOUNDARY] else [])))
  {
    OneCreated(g, m, names);
    OneConnected(f, g, m);
    hide CreateAll; hide DataAll; hide Conns; hide PropLines; hide DataLines; hide ConnectLines; hide ModuleConns;
    hide Header; hide Id; hide CreateLine; hide HasText; hide OutputCount; hide Ordered;
  }

  lemma {:induction false} OneCreated(g: Graph, m: Module, names: seq<string>)
    requires g.modules == [m] && Ordered(g.modules, [names]) && forall i :: 0 <= i < |names| ==> names[i] in m.props
    ensures CreateAll(g, [names], 1) == [CreateLine(m.kind, Id(m))] + (PropLines(m, names) + [""])
    ensures DataAll(g, [names], 1) == DataLines(m, names) + if HasText(m, names) then [BOUNDARY] else []
  {
    hide PropLines; hide DataLines; hide Id; hide CreateLine; hide HasText;
    assert CreateAll(g, [names], 0) == [] && DataAll(g, [names], 0) == [];
  }

  lemma {:induction false} OneConnected(f: Factory, g: Graph, m: Module)
    requires g.modules == [m]
    ensures Conns(f, g, 1) == ModuleConns(f, g, Id(m), OutputCount(f, m))
  {
    hide Id; hide ModuleConns; hide OutputCount;
    assert Conns(f, g, 0) == [];
  }

  lemma {:induction false} ExampleOrdered(m: Module)
    requires m.props.Keys == {"id", "note"}
    ensures Ordered([m], [["id", "note"]])
  {
    var names := ["id", "note"];
    assert names[0] == "id" && names[1] == "note";
  }

  lemma {:induction false} FileParts(f: Factory, m: Module, inputs: map<(string, int), Stream>,
                                     observers: map<Stream, seq<string>>)
    requires f == map["Gain" := Kind(["*"], ["F"], map[])]
    requires m == Module("Gain", map["id" := Prop(S("a"), false, true), "note" := Prop(S("hi"), true, false)])
    requires inputs == map[("a", 0) := Stream("a", 0)] && observers == map[Stream("a", 0) := ["a"]]
    ensures Id(m) == "a" && CreateLine("Gain", "a") == "pipeline create Gain a"
    ensures PropLines(m, ["id", "note"]) == ["pipeline set a id a", "pipeline settext a note a_note"]
    ensures DataLines(m, ["id", "note"]) == ["============================== " + "a_note", "hi"]
    ensures ModuleConns(f, Graph([m], inputs, observers), "a", 1) == [Conn(Stream("a", 0), "a", 0)]
    ensures ConnectLines([Conn(Stream("a", 0), "a", 0)]) == ["pipeline connect a 0 a 0 "]
  {
    FileTexts(m);
    FileConns(f, m, inputs, observers);
    assert Id(m) == "a";
    TwoProps(m, "id", "note");
    OneConn(Conn(Stream("a", 0), "a", 0));
    hide *;
  }

  lemma TwoProps(m: Module, x: string, y: string)
    requires x in m.props && y in m.props && !m.props[x].text && m.props[y].text
    ensures PropLines(m, [x, y]) == [PropLine(Id(m), x, m.props[x]), PropLine(Id(m), y, m.props[y])]
    ensures DataLines(m, [x, y]) == BlockLines(m, y)
  {
    hide PropLine; hide BlockLines; hide Id;
    assert [x, y][..1] == [x] && [x][..0] == [];
    assert PropLines(m, [x]) == PropLines(m, []) + [PropLine(Id(m), x, m.props[x])];
    assert DataLines(m, [x]) == DataLines(m, []) + [];
  }

  lemma OneConn(c: Conn)
    ensures ConnectLines([c]) == [ConnectLine(c)]
  {}

  lemma {:induction false} FileTexts(m: Module)
    requires m == Module("Gain", map["id" := Prop(S("a"), false, true), "note" := Prop(S("hi"), true, false)])
    ensures CreateLine("Gain", "a") == "pipeline create Gain a"
    ensures PropLine("a", "id", m.props["id"]) == "pipeline set a id a"
    ensures PropLine("a", "note", m.props["note"]) == "pipeline settext a note a_note"
    ensures ConnectLine(Conn(Stream("a", 0), "a", 0)) == "pipeline connect a 0 a 0 "
    ensures BlockLines(m, "note") == ["============================== " + "a_note", "hi"]
  {
    var c := Conn(Stream("a", 0), "a", 0);
    assert Id(m) == "a" && PrintInt(0) == "0" && AsString(S("a")) == "a" && AsString(S("hi")) == "hi";
    hide *;
    Spelled1();
    Spelled2();
    Spelled3();
    SavedLinesAre("Gain", "a", "id", m.props["id"], c);
    SavedLinesAre("Gain", "a", "note", m.props["note"], c);
    BlockLinesAre(m, "note");
    OnlyLine("hi");
  }

  lemma Spelled1()
    ensures "pipeline create " + "Gain" + " " + "a" == "pipeline create Gain a"
    ensures "pipeline set " + "a" + " " + "id" + " " + "a" == "pipeline set a id a"
  {}

  lemma Spelled2()
    ensures "a" + "_" + "note" == "a_note"
    ensures "pipeline settext " + "a" + " " + "note" + " " + "a_note" == "pipeline settext a note a_note"
  {}

  lemma Spelled3()
    ensures "pipeline connect " + "a" + " " + "0" + " " + "a" + " " + "0" + " " == "pipeline connect a 0 a 0 "
  {}

  lemma {:induction false} FileConns(f: Factory, m: Module, inputs: map<(string, int), Stream>,
                                     observers: map<Stream, seq<string>>)
    requires f == map["Gain" := Kind(["*"], ["F"], map[])] && m.kind == "Gain" && Id(m) == "a"
    requires inputs == map[("a", 0) := Stream("a", 0)] && observers == map[Stream("a", 0) := ["a"]]
    ensures ModuleConns(f, Graph([m], inputs, observers), "a", 1) == [Conn(Stream("a", 0), "a", 0)]
  {
    var g := Graph([m], inputs, observers);
    hide Id;
    assert Find([m], "a") == Some(0);
    assert InputCount(f, [m], "a") == 1 && InputIndex(inputs, "a", Stream("a", 0), 0, 1) == 0;
    assert StreamConns(f, g, Stream("a", 0), ["a"]) == [Conn(Stream("a", 0), "a", 0)];
    assert ModuleConns(f, g, "a", 0) == [];
  }
}
