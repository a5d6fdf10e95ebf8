/** Code generation for a whole program into one segment per event and subroutine, and the
    completion of the segments. */
module PreLink {
  import opened Words
  import opened Tree
  import opened Shapes
  import opened Bytecode
  import opened CodeGen
  import opened Relocation
  import opened StackCheck

  const EVENT_INIT := 0xFFFF

  /** A child of the program node. */
  datatype TopLevel = Code(s: Stmt) | EventDecl(id: nat) | SubDecl(id: nat)

  datatype Key = EventKey(id: nat) | SubKey(id: nat)

  predicate Declares(child: TopLevel, k: Key) {
    match k
    case EventKey(id) => child == EventDecl(id)
    case SubKey(id) => child == SubDecl(id)
  }

  function KeyOf(child: TopLevel): Key
    requires !child.Code?
  {
    if child.EventDecl? then EventKey(child.id) else SubKey(child.id)
  }

  /** No event or subroutine is declared twice, and the initial event never. */
  predicate UniqueDecls(children: seq<TopLevel>)
  {
    && (forall i, j | 0 <= i < j < |children| && !children[i].Code? :: children[i] != children[j])
    && EventDecl(EVENT_INIT) !in children
  }

  /** The segments a program has. */
  function Keys(children: seq<TopLevel>): set<Key>
  {
    {EventKey(EVENT_INIT)} + set c | c in children && !c.Code? :: KeyOf(c)
  }

  /** The statements that belong to segment k, when segment cur is open at the start. */
  function BodyOf(children: seq<TopLevel>, cur: Key, k: Key): seq<Stmt>
  {
    if children == [] then []
    else if children[0].Code? then (if cur == k then [children[0].s] else []) + BodyOf(children[1..], cur, k)
    else BodyOf(children[1..], KeyOf(children[0]), k)
  }

  function Body(children: seq<TopLevel>, k: Key): seq<Stmt> { BodyOf(children, EventKey(EVENT_INIT), k) }

  // ----- emission -----

  type Segments = map<Key, Segment>

  /** The segments after a child, with `current` the open one. */
  function EmitChild(segments: Segments, current: Key, child: TopLevel): (Segments, Key)
    requires current in segments
  {
    if child.Code? then
      var seg := segments[current];
      (segments[current := Segment(seg.id, seg.code + EmitStmt(child.s, Raw),
                                   Max(seg.maxStackDepth, StackDepth(child.s)))], current)
    else (segments[KeyOf(child) := Segment(child.id, [], 0)], KeyOf(child))
  }

  function EmitChildren(segments: Segments, current: Key, children: seq<TopLevel>): (Segments, Key)
    requires current in segments
    decreases |children|
  {
    if children == [] then (segments, current) else
    var (s, c) := EmitChild(segments, current, children[0]);
    EmitChildren(s, c, children[1..])
  }

  const InitialSegments: Segments := map[EventKey(EVENT_INIT) := Segment(EVENT_INIT, [], 0)]

  function EmitProgram(children: seq<TopLevel>): Segments {
    EmitChildren(InitialSegments, EventKey(EVENT_INIT), children).0
  }

  lemma {:induction false} EmitAllConcat(a: seq<Stmt>, b: seq<Stmt>, p: Placement)
    ensures EmitAll(a + b, p) == EmitAll(a, p) + EmitAll(b, p)
    ensures StackDepthAll(a + b) == Max(StackDepthAll(a), StackDepthAll(b))
  {
    hide EmitStmt, StackDepth;
    if a == [] {
      assert a + b == b && [] + EmitAll(b, p) == EmitAll(b, p);
    } else {
      assert (a + b)[1..] == a[1..] + b && (a + b)[0] == a[0];
      EmitAllConcat(a[1..], b, p);
      Associative(EmitStmt(a[0], p), EmitAll(a[1..], p), EmitAll(b, p));
    }
  }

  /** Segment k holds the code and the stack depth of the statements `done` so far. */
  predicate Holds(segments: Segments, k: Key, done: seq<Stmt>) {
    k in segments && segments[k] == Segment(k.id, EmitAll(done, Raw), StackDepthAll(done))
  }

  lemma {:induction false} EmitChildrenHolds(
      segments: Segments, current: Key, children: seq<TopLevel>, k: Key, done: seq<Stmt>)
    requires current in segments && Holds(segments, k, done)
    requires forall c | c in children :: !Declares(c, k)
    ensures Holds(EmitChildren(segments, current, children).0, k, done + BodyOf(children, current, k))
    decreases |children|
  {
    hide EmitStmt, StackDepth;
    if children == [] {
      assert done + [] == done;
    } else {
      var (s, c) := EmitChild(segments, current, children[0]);
      assert forall c | c in children[1..] :: c in children;
      if children[0].Code? && current == k {
        var one := [children[0].s];
        EmitAllConcat(done, one, Raw);
        OneStatement(children[0].s);
        EmitChildrenHolds(s, c, children[1..], k, done + one);
        Associative(done, one, BodyOf(children[1..], current, k));
      } else {
        assert !Declares(children[0], k);
        assert !children[0].Code? ==> KeyOf(children[0]) != k;
        EmitChildrenHolds(s, c, children[1..], k, done);
        assert [] + BodyOf(children[1..], current, k) == BodyOf(children[1..], current, k);
      }
    }
  }

  lemma OneStatement(s: Stmt)
    ensures EmitAll([s], Raw) == EmitStmt(s, Raw) && StackDepthAll([s]) == StackDepth(s)
  {
    hide EmitStmt, StackDepth;
    assert [s][1..] == [] && EmitStmt(s, Raw) + [] == EmitStmt(s, Raw);
  }

  /** Every segment holds exactly the code and the depth of its own statements. */
  lemma {:induction false} EmitChildrenOpens(segments: Segments, current: Key, children: seq<TopLevel>, k: Key)
    requires current in segments && current != k
    requires exists c | c in children :: Declares(c, k)
    requires forall i, j | 0 <= i < j < |children| && !children[i].Code? :: children[i] != children[j]
    ensures Holds(EmitChildren(segments, current, children).0, k, BodyOf(children, current, k))
    decreases |children|
  {
    hide EmitStmt, StackDepth;
    var (s, c) := EmitChild(segments, current, children[0]);
    if Declares(children[0], k) {
      assert Holds(s, k, []);
      forall c | c in children[1..]
        ensures !Declares(c, k)
      {
        var j :| 0 <= j < |children[1..]| && children[1..][j] == c;
        assert children[0] != children[j + 1];
      }
      EmitChildrenHolds(s, c, children[1..], k, []);
      assert [] + BodyOf(children[1..], c, k) == BodyOf(children[1..], c, k);
    } else {
      var c' :| c' in children && Declares(c', k);
      assert c' in children[1..];
      EmitChildrenOpens(s, c, children[1..], k);
      assert [] + BodyOf(children[1..], c, k) == BodyOf(children[1..], c, k);
    }
  }

  lemma {:induction false} EmitChildrenKeys(segments: Segments, current: Key, children: seq<TopLevel>)
    requires current in segments
    ensures EmitChildren(segments, current, children).0.Keys
            == segments.Keys + set c | c in children && !c.Code? :: KeyOf(c)
    decreases |children|
  {
    hide EmitStmt, StackDepth;
    if children != [] {
      var (s, c) := EmitChild(segments, current, children[0]);
      EmitChildrenKeys(s, c, children[1..]);
      assert children == [children[0]] + children[1..];
    }
  }

  /** The segments of a program: one per declaration and the initial one, each with the code of
      exactly its own statements in order and the largest depth reported for them. */
  lemma EmitProgramSegments(children: seq<TopLevel>)
    requires UniqueDecls(children)
    ensures EmitProgram(children).Keys == Keys(children)
    ensures forall k | k in Keys(children) :: Holds(EmitProgram(children), k, Body(children, k))
  {
    var init := EventKey(EVENT_INIT);
    EmitChildrenKeys(InitialSegments, init, children);
    forall k | k in Keys(children)
      ensures Holds(EmitProgram(children), k, Body(children, k))
    {
      if k == init {
        assert Holds(InitialSegments, k, []);
        EmitChildrenHolds(InitialSegments, init, children, k, []);
        assert [] + Body(children, k) == Body(children, k);
      } else {
        var c :| c in children && !c.Code? && KeyOf(c) == k;
        assert Declares(c, k);
        EmitChildrenOpens(InitialSegments, init, children, k);
      }
    }
  }

  // ----- completion -----

  /** The code of a segment closed with STOP or RET. */
  function FixCode(sub: bool, code: seq<word>): seq<word>
  {
    if !sub then code + [Pack(STOP, 0)] else
    var c := Rewrite(code, StopToRet);
    if TypeOfLast(c) == SUB_RET then c else c + [SUB_RET * 4096]
  }

  function Fixed(segments: Segments): Segments
  {
    map k | k in segments && !(k.EventKey? && segments[k].code == []) ::
      segments[k].(code := FixCode(k.SubKey?, segments[k].code))
  }

  /** The code under construction. */
  class PreLinkBytecode {
    var segments: Segments
    var current: Key

    constructor ()
      ensures segments == InitialSegments && current == EventKey(EVENT_INIT)
    {
      segments := InitialSegments;
      current := EventKey(EVENT_INIT);
    }

    /** Emit the children of the program one after the other. */
    method Emit(children: seq<TopLevel>)
      requires segments == InitialSegments && current == EventKey(EVENT_INIT)
      modifies this
      ensures segments == EmitProgram(children)
    {
      var rest := children;
      while rest != []
        invariant current in segments
        invariant EmitChildren(segments, current, rest).0 == EmitProgram(children)
      {
        var child := rest[0];
        if child.Code? {
          var seg := segments[current];
          segments := segments[current := Segment(seg.id, seg.code + EmitStmt(child.s, Raw),
                                                  Max(seg.maxStackDepth, StackDepth(child.s)))];
        } else {
          current := KeyOf(child);
          segments := segments[current := Segment(child.id, [], 0)];
        }
        rest := rest[1..];
      }
    }

    /** Drop empty events and close every segment. */
    method Fixup()
      modifies this`segments
      ensures segments == Fixed(old(segments))
    {
      var todo := segments.Keys;
      var result: Segments := map[];
      while todo != {}
        invariant todo <= segments.Keys && segments == old(segments)
        invariant result == map k | k in Fixed(segments) && k !in todo :: Fixed(segments)[k]
        decreases todo
      {
        var k :| k in todo;
        var seg := segments[k];
        if k.SubKey? {
          var code := RewriteInPlace(seg.code, StopToRet);
          var last := GetTypeOfLast(code);
          if last != SUB_RET {
            code := code + [SUB_RET * 4096];
          }
          result := result[k := seg.(code := code)];
        } else if seg.code != [] {
          result := result[k := seg.(code := seg.code + [Pack(STOP, 0)])];
        }
        todo := todo - {k};
      }
      segments := result;
    }
  }
}
