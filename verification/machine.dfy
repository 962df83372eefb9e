/** The writer as a stack machine: what a run of API calls builds. */
module Machine {
  import opened Bytes
  import opened Document
  import opened Sequences

  // ----- state -----

  /** An open container, with its finished members; its shell is an empty container of its kind. */
  datatype Frame = Frame(key: Str, shell: Value, kids: seq<Member>)
  {
    function Finished(): (m: Member) {
      Member(key, match shell case Array(_) => Array(kids) case Block(_) => Block(kids) case _ => shell)
    }
  }

  /** Finished roots, the open containers from the outermost in, and the sticky error flag. */
  datatype State = State(roots: seq<Member>, open: seq<Frame>, failed: bool)

  const START := State([], [], false)

  /** A key as the API takes it: a null pointer with a length, or bytes. */
  datatype Key = NullKey(length: nat) | KeyBytes(bytes: Str)

  datatype Call =
    | Set(key: Key, value: Value)
    | Append(value: Value)
    | Begin(key: Key, shell: Value)
    | End(shell: Value)

  // ----- steps -----

  function Opened(s: State, key: Str, shell: Value): (r: State) {
    s.(open := s.open + [Frame(key, shell, [])])
  }

  /** More finished members: in the innermost open frame, or among the roots. */
  function Added(s: State, ms: seq<Member>): (r: State) {
    if s.open == [] then s.(roots := s.roots + ms)
    else
      var n := |s.open| - 1;
      s.(open := s.open[..n] + [s.open[n].(kids := s.open[n].kids + ms)])
  }

  /** The innermost open frame is finished and becomes a member of the enclosing one, or a root. */
  function Closed(s: State): (r: State)
    requires s.open != []
  {
    var n := |s.open| - 1;
    Added(s.(open := s.open[..n]), [s.open[n].Finished()])
  }

  function Failed(s: State): (r: State) {
    s.(failed := true)
  }

  predicate InArray(s: State) {
    s.open != [] && s.open[|s.open| - 1].shell.Array?
  }

  predicate KeyOk(key: Key) {
    match key
    case NullKey(length) => length == 0
    case KeyBytes(bytes) => |bytes| < TWO_32
  }

  function KeyOf(key: Key): (r: Str) {
    match key
    case NullKey(_) => []
    case KeyBytes(bytes) => bytes
  }

  predicate ValueOk(v: Value) {
    v.String? ==> |v.s| < TWO_32
  }

  /** A container's key: none at all inside an array. */
  predicate BeginOk(s: State, key: Key) {
    if InArray(s) then key == NullKey(0) else KeyOk(key)
  }

  predicate Accepted(s: State, c: Call) {
    && !s.failed
    && match c
       case Set(key, value) => ValueOk(value) && !InArray(s) && KeyOk(key)
       case Append(value) => ValueOk(value) && InArray(s)
       case Begin(key, _) => BeginOk(s, key)
       case End(shell) => s.open != [] && s.open[|s.open| - 1].shell == shell
  }

  function Taken(s: State, c: Call): (r: State)
    requires Accepted(s, c)
  {
    match c
    case Set(key, value) => Closed(Opened(s, KeyOf(key), value))
    case Append(value) => Closed(Opened(s, [], value))
    case Begin(key, shell) => Opened(s, KeyOf(key), shell)
    case End(_) => Closed(s)
  }

  /** One call: taken as it is, or refused for good. */
  function Step(s: State, c: Call): (r: State) {
    if Accepted(s, c) then Taken(s, c) else Failed(s)
  }

  function Run(s: State, calls: seq<Call>): (r: State) {
    if calls == [] then s else Step(Run(s, calls[..|calls| - 1]), calls[|calls| - 1])
  }

  /** A leaf call sets a scalar; a container call opens or closes an empty shell. */
  predicate CallOk(c: Call) {
    match c
    case Set(_, value) => !value.IsContainer()
    case Append(value) => !value.IsContainer()
    case Begin(_, shell) => shell == Array([]) || shell == Block([])
    case End(shell) => shell == Array([]) || shell == Block([])
  }

  // ----- a refused call is final -----

  lemma {:induction false} RunSplits(s: State, a: seq<Call>, b: seq<Call>)
    ensures Run(s, a + b) == Run(Run(s, a), b)
  {
    hide Step;
    if b == [] {
      assert a + b == a;
    } else {
      RunSplits(s, a, b[..|b| - 1]);
      assert (a + b)[..|a + b| - 1] == a + b[..|b| - 1];
    }
  }

  /** After a refused call the machine never changes again, so every later call is refused too. */
  lemma {:induction false} FailureIsFinal(s: State, calls: seq<Call>)
    requires s.failed
    ensures Run(s, calls) == s
    ensures forall c: Call :: !Accepted(Run(s, calls), c)
  {
    if calls != [] {
      FailureIsFinal(s, calls[..|calls| - 1]);
    }
  }

  // ----- what every run keeps -----

  /** Strings and keys fit in 32 bits, and array members carry no key, all the way down. */
  ghost predicate Sound(v: Value)
    decreases v, 0
  {
    match v
    case String(text) => |text| < TWO_32
    case Array(kids) => KidsSound(kids, false)
    case Block(kids) => KidsSound(kids, true)
    case _ => true
  }

  ghost predicate KidsSound(kids: seq<Member>, keyed: bool)
    decreases kids, 0
  {
    forall i :: 0 <= i < |kids| ==> MemberSound(kids[i], keyed)
  }

  ghost predicate MemberSound(m: Member, keyed: bool)
    decreases m, 1
  {
    |m.key| < TWO_32 && (!keyed ==> m.key == []) && Sound(m.value)
  }

  /** Keyed exactly under the root or a block. */
  predicate Keyed(s: State, level: nat)
    requires level <= |s.open|
  {
    level == 0 || !s.open[level - 1].shell.Array?
  }

  ghost predicate FrameSound(s: State, level: nat)
    requires level < |s.open|
  {
    var f := s.open[level];
    && (f.shell == Array([]) || f.shell == Block([]))
    && |f.key| < TWO_32 && (!Keyed(s, level) ==> f.key == [])
    && KidsSound(f.kids, !f.shell.Array?)
  }

  ghost predicate StateSound(s: State) {
    KidsSound(s.roots, true) && forall level :: 0 <= level < |s.open| ==> FrameSound(s, level)
  }

  lemma OpenedSound(s: State, key: Str, shell: Value)
    requires StateSound(s) && (shell == Array([]) || shell == Block([]))
    requires |key| < TWO_32 && (InArray(s) ==> key == [])
    ensures StateSound(Opened(s, key, shell))
  {
    var r := Opened(s, key, shell);
    forall level | 0 <= level < |r.open|
      ensures FrameSound(r, level)
    {
      assert level < |s.open| ==> FrameSound(s, level) && r.open[level] == s.open[level];
    }
  }

  lemma AddedSound(s: State, m: Member)
    requires StateSound(s) && MemberSound(m, !InArray(s))
    ensures StateSound(Added(s, [m]))
  {
    var n, r := |s.open|, Added(s, [m]);
    forall level | 0 <= level < n
      ensures FrameSound(r, level)
    {
      assert FrameSound(s, level);
      assert r.open[level].shell == s.open[level].shell && r.open[level].key == s.open[level].key;
      assert level > 0 ==> r.open[level - 1].shell == s.open[level - 1].shell;
    }
  }

  lemma OpenClosed(s: State, key: Str, value: Value)
    ensures Closed(Opened(s, key, value)) == Added(s, [Frame(key, value, []).Finished()])
  {
    assert Opened(s, key, value).open[..|s.open|] == s.open;
  }

  lemma ClosedSound(s: State)
    requires StateSound(s) && s.open != []
    ensures StateSound(Closed(s))
  {
    var n := |s.open| - 1;
    var outer := s.(open := s.open[..n]);
    assert FrameSound(s, n);
    forall level | 0 <= level < n
      ensures FrameSound(outer, level)
    {
      assert FrameSound(s, level);
    }
    AddedSound(outer, s.open[n].Finished());
  }

  lemma StartSound()
    ensures StateSound(START)
  {
  }

  /** Every run of calls keeps this, whatever was called. */
  lemma {:induction false} RunSound(calls: seq<Call>)
    requires forall i :: 0 <= i < |calls| ==> CallOk(calls[i])
    ensures StateSound(Run(START, calls))
  {
    hide StateSound, Accepted, Taken;
    if calls == [] {
      StartSound();
    } else {
      var n := |calls| - 1;
      RunSound(calls[..n]);
      assert Run(START, calls) == Step(Run(START, calls[..n]), calls[n]);
      var s := Run(START, calls[..n]);
      assert CallOk(calls[n]);
      if Accepted(s, calls[n]) {
        TakenSound(s, calls[n]);
      } else {
        FailedSound(s);
      }
    }
  }

  lemma FailedSound(s: State)
    requires StateSound(s)
    ensures StateSound(Failed(s))
  {
    forall level | 0 <= level < |s.open|
      ensures FrameSound(Failed(s), level)
    {
      assert FrameSound(s, level);
    }
  }

  lemma TakenSound(s: State, c: Call)
    requires StateSound(s) && CallOk(c) && Accepted(s, c)
    ensures StateSound(Taken(s, c))
  {
    hide StateSound;
    match c
    case Set(key, value) =>
      OpenClosed(s, KeyOf(key), value);
      AddedSound(s, Member(KeyOf(key), value));
    case Append(value) =>
      OpenClosed(s, [], value);
      AddedSound(s, Member([], value));
    case Begin(key, shell) => OpenedSound(s, KeyOf(key), shell);
    case End(_) => ClosedSound(s);
  }

  // ----- calls, one by one -----

  /** A key is taken if it is bytes, none up to 2^32 - 1 of them, or a null pointer without a length. */
  predicate KeyIsTaken(key: Key) {
    (key.NullKey? && key.length == 0) || (key.KeyBytes? && |key.bytes| <= 0xFFFF_FFFF)
  }

  predicate ScopeIs(s: State, shell: Value) {
    s.open != [] && s.open[|s.open| - 1].shell == shell
  }

  /**
   * Which calls are accepted. Inside an array nothing is set and nothing begins with a key, not even one of no bytes;
   * elsewhere nothing is appended; only the innermost container can be ended, as what it is.
   */
  lemma AcceptedCalls(s: State, c: Call)
    requires StateSound(s)
    ensures s.failed ==> !Accepted(s, c)
    ensures !s.failed ==>
      match c
      case Set(key, value) =>
        (Accepted(s, c) <==> !ScopeIs(s, Array([])) && KeyIsTaken(key) && (value.String? ==> |value.s| <= 0xFFFF_FFFF))
      case Append(value) =>
        (Accepted(s, c) <==> ScopeIs(s, Array([])) && (value.String? ==> |value.s| <= 0xFFFF_FFFF))
      case Begin(key, _) =>
        (Accepted(s, c) <==> (if ScopeIs(s, Array([])) then key == NullKey(0) else KeyIsTaken(key)))
      case End(shell) => (Accepted(s, c) <==> ScopeIs(s, shell))
  {
    hide KidsSound;
    if s.open != [] {
      InnermostSound(s);
    }
  }

  /** Among the roots, or behind the members of the innermost open container. */
  predicate Joins(s: State, m: Member, r: State) {
    var n := |s.open| - 1;
    && r.failed == s.failed
    && (s.open == [] ==> r.roots == s.roots + [m] && r.open == [])
    && (s.open != [] ==>
          r.roots == s.roots && r.open == s.open[..n] + [Frame(s.open[n].key, s.open[n].shell, s.open[n].kids + [m])])
  }

  function MadeBy(f: Frame): (m: Member) {
    Member(f.key, if f.shell.Array? then Array(f.kids) else Block(f.kids))
  }

  /**
   * What a call does: an accepted value becomes the last member, under the key's bytes, or under the empty key where there
   * is none; an accepted container is opened without members; an ended one becomes the last member with all it holds. A
   * refused call changes nothing but the flag.
   */
  lemma StepOf(s: State, c: Call)
    requires StateSound(s)
    ensures !Accepted(s, c) ==> Step(s, c) == State(s.roots, s.open, true)
    ensures Accepted(s, c) ==>
      match c
      case Set(key, value) => !value.IsContainer() ==> Joins(s, Member(if key.KeyBytes? then key.bytes else [], value), Step(s, c))
      case Append(value) => !value.IsContainer() ==> Joins(s, Member([], value), Step(s, c))
      case Begin(key, shell) =>
        Step(s, c) == State(s.roots, s.open + [Frame(if key.KeyBytes? then key.bytes else [], shell, [])], false)
      case End(_) =>
        var n := |s.open| - 1;
        n >= 0 && Joins(State(s.roots, s.open[..n], false), MadeBy(s.open[n]), Step(s, c))
  {
    hide StateSound, Joins, Added, Closed, InArray, KeyOk;
    match c
    case Set(key, value) =>
      OpenClosed(s, KeyOf(key), value);
      AddedJoins(s, Member(KeyOf(key), value));
    case Append(value) =>
      OpenClosed(s, [], value);
      AddedJoins(s, Member([], value));
    case Begin(_, _) =>
    case End(_) =>
      if Accepted(s, c) {
        InnermostSound(s);
        ClosedJoins(s);
      }
  }

  lemma AddedJoins(s: State, m: Member)
    ensures Joins(s, m, Added(s, [m]))
  {
  }

  lemma ClosedJoins(s: State)
    requires s.open != [] && FrameSound(s, |s.open| - 1)
    ensures var n := |s.open| - 1;
      Joins(State(s.roots, s.open[..n], s.failed), MadeBy(s.open[n]), Closed(s))
  {
    hide KidsSound, Joins, Added;
    AddedJoins(s.(open := s.open[..|s.open| - 1]), MadeBy(s.open[|s.open| - 1]));
  }

  // ----- the calls that build a document -----

  function Spell(key: Str): (k: Key) {
    if key == [] then NullKey(0) else KeyBytes(key)
  }

  function Build(m: Member, keyed: bool): (calls: seq<Call>)
    decreases m, 1
  {
    if m.value.IsContainer() then
      [Begin(Spell(m.key), Shell(m.value))] + BuildAll(m.value.kids, m.value.Block?) + [End(Shell(m.value))]
    else if keyed then [Set(Spell(m.key), m.value)]
    else [Append(m.value)]
  }

  function BuildAll(ms: seq<Member>, keyed: bool): (calls: seq<Call>)
    decreases ms, 0
  {
    if ms == [] then [] else BuildAll(ms[..|ms| - 1], keyed) + Build(ms[|ms| - 1], keyed)
  }

  lemma AddedConcat(s: State, a: seq<Member>, b: seq<Member>)
    ensures Added(Added(s, a), b) == Added(s, a + b)
  {
    if s.open == [] {
      assert s.roots + a + b == s.roots + (a + b);
    } else {
      var n := |s.open| - 1;
      assert s.open[n].kids + a + b == s.open[n].kids + (a + b);
      assert Added(s, a).open[..n] == s.open[..n];
    }
  }

  lemma AddedScope(s: State, ms: seq<Member>)
    ensures Added(s, ms).failed == s.failed && InArray(Added(s, ms)) == InArray(s)
  {
  }

  lemma RunNothing(s: State)
    ensures Run(s, []) == s
  {
  }

  lemma AddedNone(s: State)
    ensures Added(s, []) == s
  {
    if s.open == [] {
      assert s.roots + [] == s.roots;
    } else {
      var n := |s.open| - 1;
      assert s.open[n].kids + [] == s.open[n].kids;
      assert s.open == s.open[..n] + [s.open[n]];
    }
  }

  lemma RunOne(s: State, c: Call)
    ensures Run(s, [c]) == Step(s, c)
  {
    assert Run(s, [c][..0]) == s;
  }

  lemma RunBracket(s: State, first: Call, middle: seq<Call>, last: Call)
    ensures Run(s, [first] + middle + [last]) == Step(Run(Step(s, first), middle), last)
  {
    RunSplits(s, [first] + middle, [last]);
    RunSplits(s, [first], middle);
    RunOne(s, first);
    RunOne(Run(Step(s, first), middle), last);
  }

  /** Opening a container, filling it and closing it adds it. */
  lemma FilledCloses(s: State, m: Member)
    requires m.value.IsContainer() && !s.failed
    ensures var filled := Added(Opened(s, m.key, Shell(m.value)), m.value.kids);
      && Accepted(filled, End(Shell(m.value)))
      && Closed(filled) == Added(s, [m])
  {
    var filled := Added(Opened(s, m.key, Shell(m.value)), m.value.kids);
    assert filled.open[..|s.open|] == s.open;
    assert [] + m.value.kids == m.value.kids;
  }

  /** Every sound document can be built: its calls are all accepted and add exactly its members. */
  lemma {:induction false} BuildAllRuns(s: State, ms: seq<Member>, keyed: bool)
    requires !s.failed && keyed == !InArray(s) && KidsSound(ms, keyed)
    ensures Run(s, BuildAll(ms, keyed)) == Added(s, ms)
    decreases ms, 0
  {
    hide Run, Added, Build, InArray, MemberSound;
    if ms == [] {
      AddedNone(s);
      RunNothing(s);
    } else {
      var n := |ms| - 1;
      BuildAllRuns(s, ms[..n], keyed);
      AddedScope(s, ms[..n]);
      RunSplits(s, BuildAll(ms[..n], keyed), Build(ms[n], keyed));
      assert MemberSound(ms[n], keyed);
      BuildRuns(Added(s, ms[..n]), ms[n], keyed);
      AddedConcat(s, ms[..n], [ms[n]]);
      assert ms == ms[..n] + [ms[n]];
    }
  }

  lemma {:induction false} BuildRuns(s: State, m: Member, keyed: bool)
    requires !s.failed && keyed == !InArray(s) && MemberSound(m, keyed)
    ensures Run(s, Build(m, keyed)) == Added(s, [m])
    decreases m, 1
  {
    hide KidsSound, Run, Added, Closed;
    if m.value.IsContainer() {
      RunBracket(s, Begin(Spell(m.key), Shell(m.value)), BuildAll(m.value.kids, m.value.Block?), End(Shell(m.value)));
      BuildAllRuns(Opened(s, m.key, Shell(m.value)), m.value.kids, m.value.Block?);
      FilledCloses(s, m);
    } else if keyed {
      RunOne(s, Set(Spell(m.key), m.value));
      OpenClosed(s, m.key, m.value);
    } else {
      RunOne(s, Append(m.value));
      OpenClosed(s, [], m.value);
    }
  }

  // ----- the calls that were made -----

  /** A call with its key spelled in the one way. */
  function Spelled(c: Call): (r: Call) {
    match c
    case Set(key, value) => Set(Spell(KeyOf(key)), value)
    case Begin(key, shell) => Begin(Spell(KeyOf(key)), shell)
    case _ => c
  }

  function AllSpelled(calls: seq<Call>): (r: seq<Call>) {
    if calls == [] then [] else AllSpelled(calls[..|calls| - 1]) + [Spelled(calls[|calls| - 1])]
  }

  /** The calls a state remembers: those of the finished roots, then of each open container and what it holds. */
  function Trace(s: State): (calls: seq<Call>) {
    BuildAll(s.roots, true) + OpenTrace(s.open)
  }

  function OpenTrace(open: seq<Frame>): (calls: seq<Call>) {
    if open == [] then []
    else
      var f := open[|open| - 1];
      OpenTrace(open[..|open| - 1]) + ([Begin(Spell(f.key), f.shell)] + BuildAll(f.kids, !f.shell.Array?))
  }

  lemma BuildAllSnoc(ms: seq<Member>, m: Member, keyed: bool)
    ensures BuildAll(ms + [m], keyed) == BuildAll(ms, keyed) + Build(m, keyed)
  {
    assert (ms + [m])[..|ms|] == ms;
  }

  lemma OpenTraceSnoc(open: seq<Frame>, f: Frame)
    ensures OpenTrace(open + [f]) == OpenTrace(open) + ([Begin(Spell(f.key), f.shell)] + BuildAll(f.kids, !f.shell.Array?))
  {
    assert (open + [f])[..|open|] == open;
  }

  lemma AddedTrace(s: State, m: Member)
    ensures Trace(Added(s, [m])) == Trace(s) + Build(m, !InArray(s))
  {
    if s.open == [] {
      BuildAllSnoc(s.roots, m, true);
      assert BuildAll(s.roots, true) + [] == BuildAll(s.roots, true);
      assert BuildAll(s.roots + [m], true) + [] == BuildAll(s.roots + [m], true);
    } else {
      var n := |s.open| - 1;
      var f := s.open[n];
      var f' := f.(kids := f.kids + [m]);
      BuildAllSnoc(f.kids, m, !f.shell.Array?);
      OpenTraceSnoc(s.open[..n], f);
      OpenTraceSnoc(s.open[..n], f');
      assert s.open[..n] + [f] == s.open;
      Associate5(BuildAll(s.roots, true), OpenTrace(s.open[..n]), [Begin(Spell(f.key), f.shell)], BuildAll(f.kids, !f.shell.Array?),
                Build(m, !f.shell.Array?));
    }
  }

  lemma ClosedTrace(s: State)
    requires s.open != [] && FrameSound(s, |s.open| - 1)
    ensures Trace(Closed(s)) == Trace(s) + [End(s.open[|s.open| - 1].shell)]
  {
    var n := |s.open| - 1;
    var f := s.open[n];
    var outer := s.(open := s.open[..n]);
    AddedTrace(outer, f.Finished());
    OpenTraceSnoc(s.open[..n], f);
    assert s.open[..n] + [f] == s.open;
    var b, body, e := [Begin(Spell(f.key), f.shell)], BuildAll(f.kids, !f.shell.Array?), [End(f.shell)];
    assert Build(f.Finished(), !InArray(outer)) == b + body + e;
    Associate4(BuildAll(s.roots, true), OpenTrace(s.open[..n]), b + body, e);
  }

  /** A run that was never refused is remembered exactly: the document tells the calls, up to how empty keys were spelled. */
  lemma {:induction false} RunTraced(calls: seq<Call>)
    requires forall i :: 0 <= i < |calls| ==> CallOk(calls[i])
    requires !Run(START, calls).failed
    ensures Trace(Run(START, calls)) == AllSpelled(calls)
  {
    hide Trace, Taken, StateSound;
    if calls == [] {
      NothingTraced();
    } else {
      var n := |calls| - 1;
      var s := Run(START, calls[..n]);
      RunTraced(calls[..n]);
      RunSound(calls[..n]);
      assert CallOk(calls[n]);
      TakenTrace(s, calls[n]);
    }
  }

  lemma NothingTraced()
    ensures Trace(START) == []
  {
  }

  lemma TakenTrace(s: State, c: Call)
    requires StateSound(s) && CallOk(c) && Accepted(s, c)
    ensures Trace(Taken(s, c)) == Trace(s) + [Spelled(c)]
  {
    hide Trace, StateSound, Added, Closed;
    match c
    case Set(key, value) =>
      OpenClosed(s, KeyOf(key), value);
      AddedTrace(s, Member(KeyOf(key), value));
    case Append(value) =>
      OpenClosed(s, [], value);
      AddedTrace(s, Member([], value));
    case Begin(key, shell) => OpenedTrace(s, KeyOf(key), shell);
    case End(_) =>
      InnermostSound(s);
      ClosedTrace(s);
  }

  lemma InnermostSound(s: State)
    requires StateSound(s) && s.open != []
    ensures FrameSound(s, |s.open| - 1)
  {
  }

  lemma OpenedTrace(s: State, key: Str, shell: Value)
    ensures Trace(Opened(s, key, shell)) == Trace(s) + [Begin(Spell(key), shell)]
  {
    var f := Frame(key, shell, []);
    OpenTraceSnoc(s.open, f);
    assert BuildAll([], !shell.Array?) == [];
    assert [Begin(Spell(key), shell)] + [] == [Begin(Spell(key), shell)];
    Associate4(BuildAll(s.roots, true), OpenTrace(s.open), [Begin(Spell(key), shell)], []);
  }

  /**
   * Calls and documents determine each other: a run of accepted calls ends with the closed document `doc`
   * exactly when `doc` is sound and the calls are the ones that build it.
   */
  lemma CallsBuildExactly(calls: seq<Call>, doc: seq<Member>)
    requires forall i :: 0 <= i < |calls| ==> CallOk(calls[i])
    ensures Run(START, calls) == State(doc, [], false) ==> KidsSound(doc, true) && AllSpelled(calls) == BuildAll(doc, true)
    ensures KidsSound(doc, true) ==> Run(START, BuildAll(doc, true)) == State(doc, [], false)
  {
    hide Run, BuildAll, KidsSound, AllSpelled;
    if Run(START, calls) == State(doc, [], false) {
      RunSound(calls);
      RunTraced(calls);
      assert BuildAll(doc, true) + [] == BuildAll(doc, true);
    }
    if KidsSound(doc, true) {
      BuildAllRuns(START, doc, true);
      assert [] + doc == doc;
    }
  }
}
