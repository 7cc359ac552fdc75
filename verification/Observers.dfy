/** The graph of streams and modules: who feeds whom, kept on both sides by `setInput`,
    `removeObservers` and the removal of a module. */
module Observers {
  import opened Lists

  // ----- input types

  /** The non-empty pieces of a comma-separated list. */
  function Pieces(s: string, piece: string): seq<string>
    decreases |s|
  {
    if s == [] then (if piece == [] then [] else [piece])
    else if s[0] == ',' then (if piece == [] then [] else [piece]) + Pieces(s[1..], [])
    else Pieces(s[1..], piece + [s[0]])
  }

  predicate Accepts(kind: string, format: string) {
    kind == "*" || format in Pieces(kind, [])
  }

  /** `x` stands at `i` in a list, with a comma or an end on either side. */
  predicate ListedAt(t: string, x: string, i: int) {
    && 0 <= i && i + |x| <= |t| && t[i..i + |x|] == x
    && (i == 0 || t[i - 1] == ',') && (i + |x| == |t| || t[i + |x|] == ',')
  }

  ghost predicate Listed(t: string, x: string) { x != [] && ',' !in x && exists i :: ListedAt(t, x, i) }

  /** A first piece and the rest of the list after its comma. */
  lemma ListedSplit(piece: string, rest: string, x: string)
    requires ',' !in piece
    ensures Listed(piece + [','] + rest, x) <==> (x == piece && x != []) || Listed(rest, x)
  {
    hide ListedAt;
    var t, n := piece + [','] + rest, |piece|;
    assert t == piece + ([','] + rest);
    if Listed(t, x) {
      var i :| ListedAt(t, x, i);
      ListedInside(t, x, i);
      if i <= n {
        ListedFirst(piece, [','] + rest, x, i);
      } else {
        ListedShift(piece, rest, x, i - n - 1);
      }
    }
    if x == piece && x != [] { ListedAtFirst(piece, [','] + rest); }
    if Listed(rest, x) {
      var k :| ListedAt(rest, x, k);
      ListedInside(rest, x, k);
      ListedShift(piece, rest, x, k);
    }
  }

  lemma ListedInside(t: string, x: string, i: int)
    requires ListedAt(t, x, i)
    ensures 0 <= i
  {}

  lemma ListedAtFirst(piece: string, rest: string)
    requires rest == [] || rest[0] == ','
    ensures ListedAt(piece + rest, piece, 0)
  {
    assert (piece + rest)[0..|piece|] == piece;
  }

  lemma ListedShift(piece: string, rest: string, x: string, k: int)
    requires 0 <= k
    ensures ListedAt(rest, x, k) <==> ListedAt(piece + [','] + rest, x, k + |piece| + 1)
  {
    var t, i := piece + [','] + rest, k + |piece| + 1;
    if k + |x| <= |rest| { assert t[i..i + |x|] == rest[k..k + |x|]; }
  }

  /** What is listed before the first comma is the whole piece there. */
  lemma ListedFirst(piece: string, rest: string, x: string, i: int)
    requires ',' !in piece && ',' !in x && (rest == [] || rest[0] == ',')
    requires ListedAt(piece + rest, x, i) && i <= |piece| && x != []
    ensures x == piece
  {
    var t, n := piece + rest, |piece|;
    forall k | 0 <= k < n ensures t[k] != ',' { assert t[k] == piece[k] && piece[k] in piece; }
    forall k | i <= k < i + |x| ensures t[k] != ',' {
      assert t[i..i + |x|][k - i] == t[k] && x[k - i] in x;
    }
    assert rest != [] ==> t[n] == rest[0];
    assert i == 0 && |x| == n;
    assert t[..n] == piece;
  }

  lemma {:induction false} PiecesAreListed(s: string, piece: string, x: string)
    requires ',' !in piece
    ensures x in Pieces(s, piece) <==> Listed(piece + s, x)
    decreases |s|
  {
    hide ListedAt;
    if s == [] {
      assert piece + s == piece && piece + [] == piece;
      if Listed(piece, x) {
        var i :| ListedAt(piece, x, i);
        ListedFits(piece, x, i);
        ListedFirst(piece, [], x, i);
      }
      if x == piece && x != [] { ListedAtFirst(piece, []); }
    } else if s[0] == ',' {
      hide Listed;
      PiecesAreListed(s[1..], [], x);
      assert [] + s[1..] == s[1..] && piece + s == piece + [','] + s[1..];
      ListedSplit(piece, s[1..], x);
    } else {
      hide Listed;
      PiecesAreListed(s[1..], piece + [s[0]], x);
      assert piece + [s[0]] + s[1..] == piece + s;
    }
  }

  lemma ListedFits(t: string, x: string, i: int)
    requires ListedAt(t, x, i)
    ensures i <= |t|
  {}

  /** A format between commas or ends. */
  predicate Around(kind: string, a: string, format: string, b: string) {
    kind == a + format + b && (a == "" || a[|a| - 1] == ',') && (b == "" || b[0] == ',')
  }

  /** An input takes every stream, or those whose format is in its comma-separated list. */
  lemma AcceptsMeans(kind: string, format: string)
    ensures Accepts(kind, format)
       <==> kind == "*" || (format != "" && ',' !in format && exists a, b :: Around(kind, a, format, b))
  {
    hide Pieces; hide Listed; hide Around;
    PiecesAreListed(kind, [], format);
    assert [] + kind == kind;
    ListedAround(kind, format);
  }

  lemma ListedAround(kind: string, format: string)
    ensures Listed(kind, format) <==> format != "" && ',' !in format && exists a, b :: Around(kind, a, format, b)
  {
    if Listed(kind, format) {
      var i :| ListedAt(kind, format, i);
      var a, b := kind[..i], kind[i + |format|..];
      assert kind == a + format + b;
      assert Around(kind, a, format, b);
    }
    if a, b :| Around(kind, a, format, b) {
      assert kind[|a|..|a| + |format|] == format;
      assert ListedAt(kind, format, |a|);
    }
  }

  class Stream {
    var observers: seq<Module>
    const format: string

    constructor (format: string)
      ensures observers == [] && this.format == format
    {
      observers, this.format := [], format;
    }

    method AddObserver(m: Module)
      modifies this`observers
      ensures observers == old(observers) + [m]
    {
      observers := observers + [m];
    }

    method RemoveObserver(m: Module)
      modifies this`observers
      ensures observers == RemoveFirst(old(observers), m)
    {
      var i := 0;
      while i < |observers|
        invariant 0 <= i <= |observers| && m !in observers[..i]
      {
        if observers[i] == m {
          RemoveAt(observers, m, i);
          observers := observers[..i] + observers[i + 1..];
          return;
        }
        i := i + 1;
      }
      RemoveAbsent(observers, m);
    }

    /** Disconnect every input fed by this stream. The list changes under each disconnect, so
        the scan starts again; when it comes to an end nothing is left to clear. */
    method RemoveObservers(ghost ms: set<Module>, ghost ss: set<Stream>)
      requires this in ss && Linked(ms, ss)
      modifies ss`observers, ms`inputs, ms`isError
      ensures Linked(ms, ss) && observers == []
      ensures forall s :: s in ss && s != this ==> s.observers == old(s.observers)
      ensures forall m :: m in ms ==> m.inputs == Without(old(m.inputs), this)
    {
      hide Count; hide Linked; hide Rewired;
      while true
        invariant Linked(ms, ss)
        invariant forall m :: m in ms ==> Without(m.inputs, this) == Without(old(m.inputs), this)
        invariant forall s :: s in ss && s != this ==> s.observers == old(s.observers)
        decreases |observers|
      {
        var m, i := FindFed();
        if m == null { break; }
        ObserverIn(ms, ss, m, this);
        RewiredShrinks(observers, m, i, m.inputs, this);
        ghost var before, slots := observers, m.inputs;
        m.SetInput(null, i, ms, ss);
        assert m.inputs == slots[i := null];
        assert observers == Rewired(before, m, i, slots, slots[i := null], this);
        forall s | s in ss && s != this ensures s.observers == old(s.observers) {
          RewiredElsewhere(old(s.observers), m, i, slots, s);
        }
      }
      forall m | m in ms ensures this !in m.inputs {
        LinkAt(ms, ss, m, this);
        CountIn(observers, m);
        CountIn(m.inputs, this);
      }
      forall m | m in ms ensures m.inputs == Without(old(m.inputs), this) {
        assert Without(m.inputs, this) == m.inputs;
      }
      // nothing is left for the clear
      if observers != [] {
        assert observers[0] in observers;
        ObserverIn(ms, ss, observers[0], this);
        LinkAt(ms, ss, observers[0], this);
        CountIn(observers, observers[0]);
        CountIn(observers[0].inputs, this);
      }
      assert observers == [];
      observers := [];
    }

    /** The first observer, in list order, with an input on this stream. */
    method FindFed() returns (m: Module?, i: int)
      ensures m != null ==> m in observers && 0 <= i < |m.inputs| && m.inputs[i] == this
      ensures m == null ==> forall x :: x in observers ==> this !in x.inputs
    {
      m, i := null, 0;
      var k := 0;
      while k < |observers|
        invariant 0 <= k <= |observers|
        invariant forall j :: 0 <= j < k ==> this !in observers[j].inputs
      {
        i := 0;
        while i < |observers[k].inputs|
          invariant 0 <= i <= |observers[k].inputs|
          invariant this !in observers[k].inputs[..i]
        {
          if observers[k].inputs[i] == this {
            m := observers[k];
            return;
          }
          i := i + 1;
        }
        assert observers[k].inputs[..i] == observers[k].inputs;
        k := k + 1;
      }
    }
  }

  /** The inputs with every slot on `s` emptied. */
  function Without(inputs: seq<Stream?>, s: Stream): (r: seq<Stream?>)
    ensures |r| == |inputs|
    ensures forall i :: 0 <= i < |inputs| ==> r[i] == if inputs[i] == s then null else inputs[i]
  {
    seq(|inputs|, i requires 0 <= i < |inputs| => if inputs[i] == s then null else inputs[i])
  }

  class Module {
    var inputs: seq<Stream?>
    const kinds: seq<string>
    const outputs: seq<Stream?>
    var isError: bool

    constructor (kinds: seq<string>, outputs: seq<Stream?>)
      ensures inputs == seq(|kinds|, _ => null) && this.kinds == kinds && this.outputs == outputs && !isError
    {
      inputs, this.kinds, this.outputs, isError := seq(|kinds|, _ => null), kinds, outputs, false;
    }

    ghost predicate Slotted()
      reads this`inputs
    {
      |inputs| == |kinds|
    }

    /** Connect input `n` to a stream, or disconnect it. A wrong index changes nothing; a
        stream of the wrong type leaves the input empty. */
    method SetInput(stream: Stream?, n: int, ghost ms: set<Module>, ghost ss: set<Stream>)
      requires this in ms && Linked(ms, ss) && (stream != null ==> stream in ss)
      modifies this`inputs, this`isError, ss`observers
      ensures Linked(ms, ss)
      ensures !(0 <= n < |old(inputs)|) ==> inputs == old(inputs) && isError
      ensures 0 <= n < |old(inputs)| ==>
                inputs == old(inputs)[n := if stream != null && Accepts(kinds[n], stream.format) then stream else null]
      ensures forall s :: s in ss ==> s.observers == Rewired(old(s.observers), this, n, old(inputs), inputs, s)
      ensures isError == (old(isError) || !(0 <= n < |old(inputs)|)
                          || (stream != null && !Accepts(kinds[n], stream.format)))
    {
      hide Count; hide Accepts; hide Agree; hide RemoveFirst; hide Linked;
      if !(0 <= n < |inputs|) {
        isError := true;
        return;
      }
      ghost var ins, obs := Snapshot(ms, ss);
      assert inputs[n] in inputs;
      if inputs[n] != null { InputIn(ms, ss, this, inputs[n]); }
      Rewire(stream, n, ss);
      RewiringKeepsLinks(ins, obs, this, n, inputs[n]);
      Restore(ms, ss, ins[this := ins[this][n := inputs[n]]],
              map s | s in obs :: Rewired(obs[s], this, n, ins[this], ins[this][n := inputs[n]], s));
    }

    method Rewire(stream: Stream?, n: int, ghost ss: set<Stream>)
      requires 0 <= n < |inputs| == |kinds| && (inputs[n] != null ==> inputs[n] in ss)
               && (stream != null ==> stream in ss)
      modifies this`inputs, this`isError, ss`observers
      ensures inputs == old(inputs)[n := if stream != null && Accepts(kinds[n], stream.format) then stream else null]
      ensures forall s :: s in ss ==> s.observers == Rewired(old(s.observers), this, n, old(inputs), inputs, s)
      ensures isError == (old(isError) || (stream != null && !Accepts(kinds[n], stream.format)))
    {
      hide RemoveFirst; hide Accepts;
      if inputs[n] != null {
        inputs[n].RemoveObserver(this);
      }
      inputs := inputs[n := stream];
      if stream != null && !Accepts(kinds[n], stream.format) {
        isError := true;
        inputs := inputs[n := null];
      }
      if inputs[n] != null {
        inputs[n].AddObserver(this);
      }
    }
  }

  /** Moving one link on both sides keeps the sides in agreement. */
  lemma RewiringKeepsLinks(ins: map<Module, seq<Stream?>>, obs: map<Stream, seq<Module>>, x: Module, n: int,
                           now: Stream?)
    requires Agree(ins, obs) && x in ins && 0 <= n < |ins[x]| && (now != null ==> now in obs)
    ensures Agree(ins[x := ins[x][n := now]], map s | s in obs :: Rewired(obs[s], x, n, ins[x], ins[x][n := now], s))
  {
    hide Count; hide RemoveFirst; hide Rewired;
    var after := ins[x][n := now];
    var obs' := map s | s in obs :: Rewired(obs[s], x, n, ins[x], after, s);
    forall s, m | s in obs && m in ins
      ensures Count(obs'[s], m) == Count(if m == x then after else ins[m], s)
    {
      if ins[x][n] == s {
        CountIn(ins[x], s);
        CountIn(obs[s], x);
      }
      RewiredCounts(obs[s], x, n, ins[x], now, s, m);
    }
    forall s, m | s in obs && m in obs'[s] ensures m in ins {
      RewiredMembers(obs[s], x, n, ins[x], now, s, m);
    }
  }

  lemma RewiredCounts(observers: seq<Module>, x: Module, n: int, before: seq<Stream?>, now: Stream?, s: Stream,
                      m: Module)
    requires 0 <= n < |before| && (before[n] == s ==> x in observers)
    ensures Count(Rewired(observers, x, n, before, before[n := now], s), m)
         == Count(observers, m) + if m == x then Count(before[n := now], s) - Count(before, s) else 0
  {
    CountUpdate(before, n, now, s);
    CountRemoved(observers, x, m);
    CountAppend(observers, x, m);
    CountAppend(RemoveFirst(observers, x), x, m);
  }

  lemma RewiredShrinks(observers: seq<Module>, x: Module, n: int, before: seq<Stream?>, s: Stream)
    requires 0 <= n < |before| && before[n] == s && x in observers
    ensures |Rewired(observers, x, n, before, before[n := null], s)| == |observers| - 1
  {
    CountRemoved(observers, x, x);
  }

  lemma RewiredElsewhere(observers: seq<Module>, x: Module, n: int, before: seq<Stream?>, s: Stream)
    requires 0 <= n < |before| && before[n] != s
    ensures Rewired(observers, x, n, before, before[n := null], s) == observers
  {}

  lemma RewiredMembers(observers: seq<Module>, x: Module, n: int, before: seq<Stream?>, now: Stream?, s: Stream,
                       m: Module)
    requires 0 <= n < |before| && m in Rewired(observers, x, n, before, before[n := now], s)
    ensures m in observers || m == x
  {
    if m != x {
      CountRemoved(observers, x, m);
      CountIn(RemoveFirst(observers, x), m);
      CountIn(observers, m);
    }
  }

  class Pipeline {
    var modules: seq<Module>

    constructor ()
      ensures modules == []
    {
      modules := [];
    }

    method RemoveElement(m: Module)
      modifies this
      ensures modules == RemoveFirst(old(modules), m)
    {
      var i := 0;
      while i < |modules|
        invariant 0 <= i <= |modules| && m !in modules[..i]
      {
        if modules[i] == m {
          RemoveAt(modules, m, i);
          modules := modules[..i] + modules[i + 1..];
          return;
        }
        i := i + 1;
      }
      RemoveAbsent(modules, m);
    }

    /** Take a module out of every stream that feeds it: one removal for each input. */
    method DisconnectInputs(gone: Module, ghost ms: set<Module>, ghost ss: set<Stream>)
      requires gone in ms && Linked(ms, ss)
      modifies ss`observers
      ensures Linked(ms - {gone}, ss)
    {
      hide Agree; hide Linked; hide Count; hide RemoveFirst;
      ghost var ins, obs := Snapshot(ms, ss);
      ghost var now := obs;
      NoneTaken(ins, obs, gone);
      var i := 0;
      while i < |gone.inputs|
        invariant 0 <= i <= |gone.inputs|
        invariant now.Keys == ss && forall s :: s in ss ==> now[s] == s.observers
        invariant PartlyOut(ins, now, gone, i)
      {
        var ds := gone.inputs[i];
        TakeOut(ins, now, gone, i);
        if ds != null {
          ds.RemoveObserver(gone);
          now := now[ds := RemoveFirst(now[ds], gone)];
        }
        i := i + 1;
      }
      AllTaken(ins, now, gone);
      Restore(ms - {gone}, ss, ins - {gone}, now);
    }

    /** `web_pipeline_remove`: afterwards no surviving module has an input on a stream of the
        removed one, no stream lists it, and the survivors' links still agree. */
    method WebPipelineRemove(gone: Module, ghost ms: set<Module>, ghost ss: set<Stream>)
      requires gone in ms && Linked(ms, ss)
      requires forall s :: s in gone.outputs && s != null ==> s in ss
      modifies this, ss`observers, ms`inputs, ms`isError
      ensures modules == RemoveFirst(old(modules), gone)
      ensures Distinct(old(modules)) ==> gone !in modules
      ensures Linked(ms - {gone}, ss)
      ensures forall s :: s in ss ==> gone !in s.observers
      ensures forall m, s :: m in ms - {gone} && s in gone.outputs && s != null ==> s !in m.inputs
      ensures forall s :: s in gone.outputs && s != null ==> s.observers == []
      ensures forall m, k :: m in ms - {gone} && 0 <= k < |old(m.inputs)| && old(m.inputs)[k] !in gone.outputs ==>
                |m.inputs| == |old(m.inputs)| && m.inputs[k] == old(m.inputs)[k]
    {
      hide Agree; hide Linked; hide Count; hide RemoveFirst;
      ghost var rest := ms - {gone};
      DisconnectInputs(gone, ms, ss);
      var i := 0;
      while i < |gone.outputs|
        invariant 0 <= i <= |gone.outputs| && Linked(rest, ss) && modules == old(modules)
        invariant forall k :: 0 <= k < i && gone.outputs[k] != null ==> gone.outputs[k].observers == []
        invariant forall m :: m in rest ==> |m.inputs| == |old(m.inputs)|
        invariant forall m, k :: m in rest && 0 <= k < |m.inputs| && old(m.inputs)[k] !in gone.outputs ==>
                    m.inputs[k] == old(m.inputs)[k]
      {
        var ds := gone.outputs[i];
        if ds != null {
          assert ds in gone.outputs;
          ds.RemoveObservers(rest, ss);
        }
        i := i + 1;
      }
      forall m, s | m in rest && s in gone.outputs && s != null ensures s !in m.inputs {
        LinkAt(rest, ss, m, s);
        CountIn(m.inputs, s);
        CountIn(s.observers, m);
      }
      forall s | s in ss ensures gone !in s.observers {
        if gone in s.observers {
          ObserverIn(rest, ss, gone, s);
        }
      }
      if Distinct(modules) { DistinctRemoval(modules, gone); }
      RemoveElement(gone);
    }
  }

  // ----- taking a module out of the observer lists

  /** After the first `i` inputs of `x` were handled its lists are short by that many. */
  ghost predicate PartlyOut(ins: map<Module, seq<Stream?>>, obs: map<Stream, seq<Module>>, x: Module, i: int) {
    && x in ins && 0 <= i <= |ins[x]|
    && (forall m, s :: m in ins && s in ins[m] && s != null ==> s in obs)
    && (forall s, m :: s in obs && m in obs[s] ==> m in ins)
    && (forall s, m :: s in obs && m in ins ==> Count(obs[s], m) == Count(if m == x then ins[x][i..] else ins[m], s))
  }

  lemma NoneTaken(ins: map<Module, seq<Stream?>>, obs: map<Stream, seq<Module>>, x: Module)
    requires Agree(ins, obs) && x in ins
    ensures PartlyOut(ins, obs, x, 0)
  {
    assert ins[x][0..] == ins[x];
  }

  lemma TakeOut(ins: map<Module, seq<Stream?>>, obs: map<Stream, seq<Module>>, x: Module, i: int)
    requires PartlyOut(ins, obs, x, i) && i < |ins[x]|
    ensures ins[x][i] != null ==> ins[x][i] in obs
    ensures PartlyOut(ins,
            if ins[x][i] == null then obs else obs[ins[x][i] := RemoveFirst(obs[ins[x][i]], x)], x, i + 1)
  {
    var ds := ins[x][i];
    assert ds in ins[x];
    assert ins[x][i..] == [ds] + ins[x][i + 1..];
    if ds != null {
      var now := obs[ds := RemoveFirst(obs[ds], x)];
      CountIn(obs[ds], x);
      forall m ensures Count(now[ds], m) == Count(obs[ds], m) - if m == x then 1 else 0 {
        CountRemoved(obs[ds], x, m);
      }
      forall m | m in now[ds] ensures m in ins {
        CountRemoved(obs[ds], x, m);
        CountIn(now[ds], m);
        CountIn(obs[ds], m);
      }
    }
  }

  lemma AllTaken(ins: map<Module, seq<Stream?>>, obs: map<Stream, seq<Module>>, x: Module)
    requires x in ins && PartlyOut(ins, obs, x, |ins[x]|)
    ensures Agree(ins - {x}, obs)
  {
    forall s, m | s in obs && m in obs[s] ensures m in ins - {x} {
      CountIn(obs[s], m);
      assert ins[x][|ins[x]|..] == [];
    }
  }

  /** What a change of input `n` of `m` does to the observers of `s`: the old link goes, the
      new one is added at the end. */
  ghost function Rewired(observers: seq<Module>, m: Module, n: int, before: seq<Stream?>, after: seq<Stream?>,
                         s: Stream): seq<Module> {
    if !(0 <= n < |before| == |after|) then observers
    else
      var kept := if before[n] == s then RemoveFirst(observers, m) else observers;
      if after[n] == s then kept + [m] else kept
  }

  ghost function InputsOf(ms: set<Module>): map<Module, seq<Stream?>>
    reads ms`inputs
  {
    map m | m in ms :: m.inputs
  }

  ghost function ObserversOf(ss: set<Stream>): map<Stream, seq<Module>>
    reads ss`observers
  {
    map s | s in ss :: s.observers
  }

  /** Both sides agree: `m` observes `s` exactly as often as `m` has inputs on `s`. */
  ghost predicate Agree(ins: map<Module, seq<Stream?>>, obs: map<Stream, seq<Module>>) {
    && (forall m, s :: m in ins && s in ins[m] && s != null ==> s in obs)
    && (forall s, m :: s in obs && m in obs[s] ==> m in ins)
    && (forall s, m :: s in obs && m in ins ==> Count(obs[s], m) == Count(ins[m], s))
  }

  ghost predicate Linked(ms: set<Module>, ss: set<Stream>)
    reads ms`inputs, ss`observers
  {
    && (forall m :: m in ms ==> m.Slotted())
    && Agree(InputsOf(ms), ObserversOf(ss))
  }

  /** Modules whose inputs are all free and streams that nobody observes agree: a pipeline starts so. */
  lemma FreeIsLinked(ms: set<Module>, ss: set<Stream>)
    requires forall m :: m in ms ==> m.Slotted() && forall n :: 0 <= n < |m.inputs| ==> m.inputs[n] == null
    requires forall s :: s in ss ==> s.observers == []
    ensures Linked(ms, ss)
  {
    var ins, obs := InputsOf(ms), ObserversOf(ss);
    forall m, s | m in ins && s in ins[m] ensures s == null {}
    forall s, m | s in obs && m in ins ensures Count(obs[s], m) == Count(ins[m], s) {
      CountIn(ins[m], s);
    }
  }

  lemma Snapshot(ms: set<Module>, ss: set<Stream>)
    returns (ins: map<Module, seq<Stream?>>, obs: map<Stream, seq<Module>>)
    requires Linked(ms, ss)
    ensures ins.Keys == ms && forall m :: m in ms ==> ins[m] == m.inputs && m.Slotted()
    ensures obs.Keys == ss && forall s :: s in ss ==> obs[s] == s.observers
    ensures Agree(ins, obs)
  {
    ins, obs := InputsOf(ms), ObserversOf(ss);
  }

  lemma Restore(ms: set<Module>, ss: set<Stream>, ins: map<Module, seq<Stream?>>, obs: map<Stream, seq<Module>>)
    requires ins.Keys == ms && forall m :: m in ms ==> ins[m] == m.inputs && m.Slotted()
    requires obs.Keys == ss && forall s :: s in ss ==> obs[s] == s.observers
    requires Agree(ins, obs)
    ensures Linked(ms, ss)
  {
    assert ins == InputsOf(ms);
    assert obs == ObserversOf(ss);
  }

  lemma LinkAt(ms: set<Module>, ss: set<Stream>, m: Module, s: Stream)
    requires Linked(ms, ss) && m in ms && s in ss
    ensures Count(s.observers, m) == Count(m.inputs, s)
  {
    assert m in InputsOf(ms) && InputsOf(ms)[m] == m.inputs;
    assert s in ObserversOf(ss) && ObserversOf(ss)[s] == s.observers;
  }

  lemma InputIn(ms: set<Module>, ss: set<Stream>, m: Module, s: Stream)
    requires Linked(ms, ss) && m in ms && s in m.inputs
    ensures s in ss
  {
    assert m in InputsOf(ms) && s in InputsOf(ms)[m];
    assert s in ObserversOf(ss);
  }

  lemma ObserverIn(ms: set<Module>, ss: set<Stream>, m: Module, s: Stream)
    requires Linked(ms, ss) && s in ss && m in s.observers
    ensures m in ms
  {
    assert s in ObserversOf(ss) && m in ObserversOf(ss)[s];
    assert m in InputsOf(ms);
  }
}
