/** How a node's description is fetched piece by piece over channels that may lose messages. */
module Description {
  import opened Words

  datatype Kind = Variable | LocalEvent | NativeFunction

  /** `data` is all an entry carries besides its name. */
  datatype Entry = Entry(name: string, data: string)

  const Blank: Entry := Entry("", "")

  datatype Fragment = Fragment(kind: Kind, entry: Entry)

  /** One value for each kind of entry. */
  datatype Per<T> = Per(variables: T, events: T, functions: T)
  {
    function Get(k: Kind): T {
      match k
      case Variable => variables
      case LocalEvent => events
      case NativeFunction => functions
    }

    function Put(k: Kind, t: T): (r: Per<T>)
      ensures r.Get(k) == t && forall l | l != k :: r.Get(l) == Get(l)
    {
      match k
      case Variable => this.(variables := t)
      case LocalEvent => this.(events := t)
      case NativeFunction => this.(functions := t)
    }
  }

  datatype Limits = Limits(bytecode: nat, stack: nat, variables: nat)

  datatype Header = Header(name: string, version: nat, limits: Limits)

  datatype Message = About(header: Header, counts: Per<nat>) | Item(fragment: Fragment)

  // ----- the receiving side -----

  datatype Node = Node(header: Header, lists: Per<seq<Entry>>, counters: Per<nat>)

  const Unknown: Node := Node(Header("", 0, Limits(0, 0, 0)), Per([], [], []), Per(0, 0, 0))

  function Blanks(n: nat): (s: seq<Entry>)
    ensures |s| == n && forall i | 0 <= i < n :: s[i] == Blank
  {
    seq(n, _ => Blank)
  }

  predicate Named(list: seq<Entry>, name: string) { exists i | 0 <= i < |list| :: list[i].name == name }

  /** Store an entry in the next free place of its list, unless the list is full or has the name. */
  function Store(node: Node, f: Fragment): Node
  {
    var list, c := node.lists.Get(f.kind), node.counters.Get(f.kind);
    if c >= |list| || Named(list, f.entry.name) then node
    else node.(lists := node.lists.Put(f.kind, list[c := f.entry]), counters := node.counters.Put(f.kind, c + 1))
  }

  /** A description replaces everything but the counters. */
  function Update(node: Node, m: Message): Node
  {
    match m
    case About(h, n) => Node(h, Per(Blanks(n.variables), Blanks(n.events), Blanks(n.functions)), node.counters)
    case Item(f) => Store(node, f)
  }

  predicate Ready(node: Node) {
    && node.header.name != ""
    && forall k: Kind :: node.counters.Get(k) == |node.lists.Get(k)|
  }

  function Total(c: Per<nat>): nat { c.variables + c.events + c.functions }

  /** The fragment to ask for, as a sixteen-bit number. */
  function NextFragment(node: Node): int
  {
    if node.header.version > 0 then Wrap16(Total(node.counters)) else -1
  }

  /** Handling a message may send one more request. */
  function Sent(node: Node): seq<int> { if Ready(node) then [] else [NextFragment(node)] }

  class Receiver {
    const protocolVersion: nat
    var header: Header
    var lists: Per<seq<Entry>>
    var counters: Per<nat>
    /** What went out to the device, and whether the description was reported complete. */
    var requests: seq<int>
    var available: bool

    ghost function Value(): Node
      reads this
    {
      Node(header, lists, counters)
    }

    constructor (protocolVersion: nat)
      ensures Value() == Unknown && requests == [] && !available && this.protocolVersion == protocolVersion
    {
      this.protocolVersion := protocolVersion;
      header, lists, counters, requests, available := Unknown.header, Unknown.lists, Unknown.counters, [], false;
    }

    method RequestNextDescriptionFragment()
      modifies this`requests
      ensures requests == old(requests) + [NextFragment(Value())]
    {
      var fragment := -1;
      if header.version > 0 {
        fragment := Wrap16(counters.variables + counters.functions + counters.events);
      }
      requests := requests + [fragment];
    }

    method HandleDescriptionMessage(m: Message)
      modifies this
      ensures Value() == Update(old(Value()), m)
      ensures requests == old(requests) + if protocolVersion >= 8 then Sent(Value()) else []
      ensures available == (old(available) || Ready(Value()))
    {
      match m {
        case About(h, n) =>
          header, lists := h, Per(Blanks(n.variables), Blanks(n.events), Blanks(n.functions));
        case Item(f) =>
          var list, c := lists.Get(f.kind), counters.Get(f.kind);
          var i := 0;
          while i < |list| && list[i].name != f.entry.name
            invariant 0 <= i <= |list| && forall j | 0 <= j < i :: list[j].name != f.entry.name
          {
            i := i + 1;
          }
          if c < |list| && i == |list| {
            lists, counters := lists.Put(f.kind, list[c := f.entry]), counters.Put(f.kind, c + 1);
          }
      }
      var ready := header.name != "" && counters.variables == |lists.variables| &&
          counters.events == |lists.events| && counters.functions == |lists.functions|;
      assert ready == Ready(Value()) by { ReadyMeans(Value()); }
      if !ready && protocolVersion >= 8 {
        RequestNextDescriptionFragment();
      }
      if ready {
        available := true;
      }
      assert old(requests) + [] == old(requests);
    }
  }

  lemma ReadyMeans(node: Node)
    ensures Ready(node) <==>
            && node.header.name != "" && node.counters.variables == |node.lists.variables|
            && node.counters.events == |node.lists.events| && node.counters.functions == |node.lists.functions|
  {
    if Ready(node) {
      assert node.counters.Get(Variable) == |node.lists.Get(Variable)|;
      assert node.counters.Get(LocalEvent) == |node.lists.Get(LocalEvent)|;
      assert node.counters.Get(NativeFunction) == |node.lists.Get(NativeFunction)|;
    }
  }

  // ----- the device and the channels -----

  /** A device sends its description for fragment -1 and its entries, in an order of its own, for
      fragments 0, 1, 2 and so on. */
  datatype Device = Device(header: Header, fragments: seq<Fragment>)

  predicate Proper(dev: Device) { dev.header.name != "" && dev.header.version > 0 && |dev.fragments| < 32768 }

  function EntriesOf(fs: seq<Fragment>, k: Kind): seq<Entry>
  {
    if fs == [] then [] else
    var rest := EntriesOf(fs[..|fs| - 1], k);
    var f := fs[|fs| - 1];
    if f.kind == k then rest + [f.entry] else rest
  }

  function DescriptionOf(dev: Device): Message
  {
    About(dev.header, Per(|EntriesOf(dev.fragments, Variable)|, |EntriesOf(dev.fragments, LocalEvent)|,
                          |EntriesOf(dev.fragments, NativeFunction)|))
  }

  predicate Answers(dev: Device, request: int) { -1 <= request < |dev.fragments| }

  function Answer(dev: Device, request: int): Message
    requires Answers(dev, request)
  {
    if request == -1 then DescriptionOf(dev) else Item(dev.fragments[request])
  }

  /** Requests on their way to the device, and replies on their way back. A reply is written as the
      request it answers; the node only sees the message. */
  datatype System = System(node: Node, requests: seq<int>, replies: seq<int>)

  const Start: System := System(Unknown, [], [])

  datatype Step = Retransmit | Serve | Receive | LoseRequest(i: nat) | LoseReply(i: nat)

  function Without(s: seq<int>, i: nat): seq<int>
    requires i < |s|
  {
    s[..i] + s[i + 1..]
  }

  predicate Enabled(dev: Device, s: System, step: Step)
  {
    match step
    case Retransmit => true
    case Serve => s.requests != []
    case Receive => s.replies != [] && Answers(dev, s.replies[0])
    case LoseRequest(i) => i < |s.requests|
    case LoseReply(i) => i < |s.replies|
  }

  /** Timers may fire at any moment, channels keep the order and may drop any message. */
  function Next(dev: Device, s: System, step: Step): System
    requires Enabled(dev, s, step)
  {
    match step
    case Retransmit => s.(requests := s.requests + [NextFragment(s.node)])
    case Serve =>
      var r := s.requests[0];
      s.(requests := s.requests[1..], replies := s.replies + (if Answers(dev, r) then [r] else []))
    case Receive =>
      var node := Update(s.node, Answer(dev, s.replies[0]));
      System(node, s.requests + Sent(node), s.replies[1..])
    case LoseRequest(i) => s.(requests := Without(s.requests, i))
    case LoseReply(i) => s.(replies := Without(s.replies, i))
  }

  /** A run is any sequence of enabled steps. */
  function Perform(dev: Device, s: System, steps: seq<Step>): Option<System>
    decreases |steps|
  {
    if steps == [] then Some(s)
    else if !Enabled(dev, s, steps[0]) then None
    else Perform(dev, Next(dev, s, steps[0]), steps[1..])
  }

  // ----- the invariant -----

  /** Fragment j has a name, and no earlier one of its kind has the same. */
  predicate Fresh(fs: seq<Fragment>, j: nat)
    requires j < |fs|
  {
    && fs[j].entry.name != ""
    && forall i | 0 <= i < j :: fs[i].kind == fs[j].kind ==> fs[i].entry.name != fs[j].entry.name
  }

  /** The fragments stored so far, -1 before the description itself is known. */
  function Progress(node: Node): int { if node.header.version > 0 then Total(node.counters) else -1 }

  /** What a node holds after the first n fragments. */
  function Holding(dev: Device, n: nat): Node
    requires n <= |dev.fragments|
  {
    var list := (k: Kind) => EntriesOf(dev.fragments[..n], k) + Blanks(Missing(dev, n, k));
    var count := (k: Kind) => |EntriesOf(dev.fragments[..n], k)|;
    Node(dev.header, Per(list(Variable), list(LocalEvent), list(NativeFunction)),
         Per(count(Variable), count(LocalEvent), count(NativeFunction)))
  }

  function Missing(dev: Device, n: nat, k: Kind): (m: nat)
    requires n <= |dev.fragments|
    ensures m + |EntriesOf(dev.fragments[..n], k)| == |EntriesOf(dev.fragments, k)|
  {
    EntriesGrow(dev.fragments, n, k);
    |EntriesOf(dev.fragments, k)| - |EntriesOf(dev.fragments[..n], k)|
  }

  predicate Sorted(s: seq<int>) { forall i, j | 0 <= i < j < |s| :: s[i] <= s[j] }

  /** In flight are, in order, answers or requests for the last fragment stored and for the next. */
  predicate InFlight(s: seq<int>, p: int) {
    Sorted(s) && forall i | 0 <= i < |s| :: p - 1 <= s[i] <= p && s[i] >= -1
  }

  predicate Safe(dev: Device, s: System)
  {
    && (s.node == Unknown || Prefix(dev, s.node))
    && InFlight(s.replies + s.requests, Progress(s.node))
    && forall i | 0 <= i < |s.replies| :: Answers(dev, s.replies[i])
  }

  /** The node holds a prefix of the fragments, all of them fresh. */
  predicate Prefix(dev: Device, node: Node)
  {
    var n := Total(node.counters);
    n <= |dev.fragments| && node == Holding(dev, n) && forall j | 0 <= j < n :: Fresh(dev.fragments, j)
  }

  // ----- entries of one kind -----

  lemma EntriesStep(fs: seq<Fragment>, n: nat, k: Kind)
    requires n < |fs|
    ensures EntriesOf(fs[..n + 1], k) == EntriesOf(fs[..n], k) + (if fs[n].kind == k then [fs[n].entry] else [])
  {
    assert fs[..n + 1][..n] == fs[..n];
  }

  lemma {:induction false} EntriesGrow(fs: seq<Fragment>, n: nat, k: Kind)
    requires n <= |fs|
    ensures EntriesOf(fs[..n], k) <= EntriesOf(fs, k)
    ensures n < |fs| && fs[n].kind == k ==> |EntriesOf(fs[..n], k)| < |EntriesOf(fs, k)|
    decreases |fs| - n
  {
    if n == |fs| {
      assert fs[..n] == fs;
    } else {
      EntriesStep(fs, n, k);
      EntriesGrow(fs, n + 1, k);
    }
  }

  lemma {:induction false} EntriesTotal(fs: seq<Fragment>)
    ensures |EntriesOf(fs, Variable)| + |EntriesOf(fs, LocalEvent)| + |EntriesOf(fs, NativeFunction)| == |fs|
  {
    if fs != [] {
      EntriesTotal(fs[..|fs| - 1]);
    }
  }

  /** A name among the entries of a kind is the name of a fragment of that kind, and conversely. */
  lemma {:induction false} NamedEntry(fs: seq<Fragment>, k: Kind, name: string)
    ensures Named(EntriesOf(fs, k), name) <==> exists i | 0 <= i < |fs| :: fs[i].kind == k && fs[i].entry.name == name
  {
    if fs != [] {
      var n := |fs| - 1;
      var init := fs[..n];
      NamedEntry(init, k, name);
      var rest := EntriesOf(init, k);
      if fs[n].kind == k {
        NamedConcat(rest, [fs[n].entry], name);
        assert Named([fs[n].entry], name) <==> [fs[n].entry][0].name == name;
      }
      if i :| 0 <= i < |init| && init[i].kind == k && init[i].entry.name == name {
        assert fs[i].kind == k && fs[i].entry.name == name;
      }
      if i :| 0 <= i < |fs| && fs[i].kind == k && fs[i].entry.name == name {
        assert i < n ==> init[i].kind == k && init[i].entry.name == name;
      }
    }
  }

  lemma NamedConcat(a: seq<Entry>, b: seq<Entry>, name: string)
    ensures Named(a + b, name) <==> Named(a, name) || Named(b, name)
  {
    if i :| 0 <= i < |a| && a[i].name == name {
      assert (a + b)[i].name == name;
    }
    if i :| 0 <= i < |b| && b[i].name == name {
      assert (a + b)[|a| + i].name == name;
    }
    if i :| 0 <= i < |a + b| && (a + b)[i].name == name {
      assert if i < |a| then a[i].name == name else b[i - |a|].name == name;
    }
  }

  // ----- receiving one message -----

  lemma HoldingGet(dev: Device, n: nat, k: Kind)
    requires n <= |dev.fragments|
    ensures Holding(dev, n).lists.Get(k) == EntriesOf(dev.fragments[..n], k) + Blanks(Missing(dev, n, k))
    ensures Holding(dev, n).counters.Get(k) == |EntriesOf(dev.fragments[..n], k)|
    ensures Total(Holding(dev, n).counters) == n
  {
    EntriesTotal(dev.fragments[..n]);
  }

  /** The name of fragment j is taken in its list exactly when the fragment is stored already or
      not fresh. */
  lemma NameTaken(dev: Device, n: nat, j: nat)
    requires j <= n <= |dev.fragments| && j < |dev.fragments| && forall i | 0 <= i < n :: Fresh(dev.fragments, i)
    ensures var f := dev.fragments[j];
            var list := Holding(dev, n).lists.Get(f.kind);
            Holding(dev, n).counters.Get(f.kind) >= |list| || Named(list, f.entry.name)
            <==> j < n || !Fresh(dev.fragments, j)
  {
    hide EntriesOf;
    var fs, f := dev.fragments, dev.fragments[j];
    HoldingGet(dev, n, f.kind);
    var stored, blanks := EntriesOf(fs[..n], f.kind), Blanks(Missing(dev, n, f.kind));
    NamedConcat(stored, blanks, f.entry.name);
    NamedEntry(fs[..n], f.kind, f.entry.name);
    if j < n {
      assert fs[..n][j].kind == f.kind && fs[..n][j].entry.name == f.entry.name;
    } else {
      EntriesGrow(fs, n, f.kind);
      assert blanks[0] == Blank;
      assert Named(blanks, f.entry.name) <==> f.entry.name == "";
      if Named(stored, f.entry.name) {
        var i :| 0 <= i < |fs[..n]| && fs[..n][i].kind == f.kind && fs[..n][i].entry.name == f.entry.name;
        assert fs[i].kind == fs[j].kind;
      }
      if !Fresh(fs, j) && f.entry.name != "" {
        var i :| 0 <= i < j && fs[i].kind == fs[j].kind && fs[i].entry.name == fs[j].entry.name;
        assert fs[..n][i].kind == f.kind && fs[..n][i].entry.name == f.entry.name;
      }
    }
  }

  /** Receiving the next fragment stores it, if it is fresh. */
  lemma StoreNext(dev: Device, n: nat)
    requires n < |dev.fragments| && forall i | 0 <= i <= n :: Fresh(dev.fragments, i)
    ensures Store(Holding(dev, n), dev.fragments[n]) == Holding(dev, n + 1)
  {
    hide EntriesOf, Holding, Store, Fresh, Named;
    var node, f := Holding(dev, n), dev.fragments[n];
    NameTaken(dev, n, n);
    StoreHeader(node, f);
    HoldingHeader(dev, n);
    HoldingHeader(dev, n + 1);
    forall k: Kind
      ensures Store(node, f).lists.Get(k) == Holding(dev, n + 1).lists.Get(k)
      ensures Store(node, f).counters.Get(k) == Holding(dev, n + 1).counters.Get(k)
    {
      StoreNextKind(dev, n, k);
    }
    SameNode(Store(node, f), Holding(dev, n + 1));
  }

  lemma StoreHeader(node: Node, f: Fragment)
    ensures Store(node, f).header == node.header
  {
  }

  lemma StoreGet(node: Node, f: Fragment, k: Kind)
    requires node.counters.Get(f.kind) < |node.lists.Get(f.kind)| && !Named(node.lists.Get(f.kind), f.entry.name)
    ensures var c := node.counters.Get(k);
            if k == f.kind then
              Store(node, f).lists.Get(k) == node.lists.Get(k)[c := f.entry] && Store(node, f).counters.Get(k) == c + 1
            else Store(node, f).lists.Get(k) == node.lists.Get(k) && Store(node, f).counters.Get(k) == c
  {
  }

  lemma StoreNextKind(dev: Device, n: nat, k: Kind)
    requires n < |dev.fragments|
    requires var f := dev.fragments[n]; var list := Holding(dev, n).lists.Get(f.kind);
             Holding(dev, n).counters.Get(f.kind) < |list| && !Named(list, f.entry.name)
    ensures var s := Store(Holding(dev, n), dev.fragments[n]);
            && s.lists.Get(k) == Holding(dev, n + 1).lists.Get(k)
            && s.counters.Get(k) == Holding(dev, n + 1).counters.Get(k)
  {
    hide EntriesOf, Holding, Store, Named;
    var node, f := Holding(dev, n), dev.fragments[n];
    StoreGet(node, f, k);
    HoldingGet(dev, n, k);
    HoldingGet(dev, n + 1, k);
    EntriesStep(dev.fragments, n, k);
    if f.kind == k {
      var stored, m := EntriesOf(dev.fragments[..n], k), Missing(dev, n, k);
      assert (stored + Blanks(m))[|stored| := f.entry] == (stored + [f.entry]) + Blanks(m - 1);
    }
  }

  lemma SameNode(a: Node, b: Node)
    requires a.header == b.header
    requires forall k: Kind :: a.lists.Get(k) == b.lists.Get(k)
    requires forall k: Kind :: a.counters.Get(k) == b.counters.Get(k)
    ensures a == b
  {
    assert a.lists.Get(Variable) == b.lists.Get(Variable) && a.lists.Get(LocalEvent) == b.lists.Get(LocalEvent)
           && a.lists.Get(NativeFunction) == b.lists.Get(NativeFunction);
    assert a.counters.Get(Variable) == b.counters.Get(Variable) &&
        a.counters.Get(LocalEvent) == b.counters.Get(LocalEvent)
           && a.counters.Get(NativeFunction) == b.counters.Get(NativeFunction);
  }

  lemma AboutGives(dev: Device, node: Node)
    requires node.counters == Per(0, 0, 0)
    ensures Update(node, DescriptionOf(dev)) == Holding(dev, 0)
  {
    assert dev.fragments[..0] == [];
    var a, b := Update(node, DescriptionOf(dev)), Holding(dev, 0);
    forall k: Kind
      ensures a.lists.Get(k) == b.lists.Get(k) && a.counters.Get(k) == b.counters.Get(k)
    {
      HoldingGet(dev, 0, k);
    }
    SameNode(a, b);
  }

  /** What a safe node is after a reply that can be in flight. */
  lemma ReceiveGives(dev: Device, node: Node, r: int)
    requires Proper(dev) && (node == Unknown || Prefix(dev, node)) && Answers(dev, r)
    requires Progress(node) - 1 <= r <= Progress(node)
    ensures var next := Update(node, Answer(dev, r));
            && Prefix(dev, next)
            && Progress(next) ==
               if r == Progress(node) && (r >= 0 ==> Fresh(dev.fragments, r)) then r + 1 else Progress(node)
    ensures r == -1 ==> node.counters == Per(0, 0, 0)
  {
    hide EntriesOf, Holding, Store;
    HoldingGet(dev, 0, Variable);
    if node != Unknown {
      HoldingHeader(dev, Total(node.counters));
    }
    if r == -1 {
      AboutGives(dev, node);
      HoldingHeader(dev, 0);
    } else {
      var n := Total(node.counters);
      NameTaken(dev, n, r);
      if r == n && Fresh(dev.fragments, r) {
        StoreNext(dev, n);
        HoldingGet(dev, n + 1, Variable);
        HoldingHeader(dev, n + 1);
      } else {
        StoredTaken(node, dev.fragments[r]);
      }
    }
  }

  lemma StoredTaken(node: Node, f: Fragment)
    requires node.counters.Get(f.kind) >= |node.lists.Get(f.kind)| || Named(node.lists.Get(f.kind), f.entry.name)
    ensures Store(node, f) == node
  {
  }

  lemma HoldingHeader(dev: Device, n: nat)
    requires n <= |dev.fragments|
    ensures Holding(dev, n).header == dev.header
  {
  }

  // ----- what is in flight -----

  lemma InFlightTail(s: seq<int>, p: int, q: int)
    requires s != [] && InFlight(s, p) && (q == p || (s[0] == p && q == p + 1))
    ensures InFlight(s[1..] + [q], q) && InFlight(s[1..], q)
  {
    var t := s[1..];
    assert s[0] >= -1;
    forall i | 0 <= i < |t|
      ensures q - 1 <= t[i] <= q && t[i] >= -1
    {
      assert t[i] == s[i + 1] && s[0] <= s[i + 1];
    }
  }

  lemma InFlightAppend(s: seq<int>, p: int)
    requires InFlight(s, p) && p >= -1
    ensures InFlight(s + [p], p)
  {
  }

  lemma InFlightWithout(s: seq<int>, i: nat, p: int)
    requires InFlight(s, p) && i < |s|
    ensures InFlight(Without(s, i), p)
  {
  }

  lemma NextFragmentIs(dev: Device, node: Node)
    requires Proper(dev) && (node == Unknown || Prefix(dev, node))
    ensures NextFragment(node) == Progress(node) >= -1
  {
  }

  // ----- every step, every run -----

  lemma ReceiveSafe(dev: Device, s: System)
    requires Proper(dev) && Safe(dev, s) && Enabled(dev, s, Receive)
    ensures Safe(dev, Next(dev, s, Receive)) && Progress(Next(dev, s, Receive).node) >= Progress(s.node)
    ensures s.replies[0] == -1 ==> s.node.counters == Per(0, 0, 0)
  {
    hide Prefix, InFlight, Update, Answer, Ready, Fresh, NextFragment;
    var r, flight := s.replies[0], s.replies + s.requests;
    assert flight[0] == r && Progress(s.node) - 1 <= r <= Progress(s.node) by {
      InFlightBounds(flight, Progress(s.node));
    }
    ReceiveGives(dev, s.node, r);
    var next := Update(s.node, Answer(dev, r));
    InFlightTail(flight, Progress(s.node), Progress(next));
    NextFragmentIs(dev, next);
    assert s.replies[1..] + (s.requests + [NextFragment(next)]) == flight[1..] + [NextFragment(next)];
    assert s.replies[1..] + (s.requests + []) == flight[1..];
  }

  lemma InFlightBounds(s: seq<int>, p: int)
    requires s != [] && InFlight(s, p)
    ensures p - 1 <= s[0] <= p && s[0] >= -1
  {
  }

  lemma ServeSafe(dev: Device, s: System)
    requires Safe(dev, s) && s.requests != []
    ensures Safe(dev, Next(dev, s, Serve))
  {
    hide Prefix, InFlight;
    var r, flight := s.requests[0], s.replies + s.requests;
    if Answers(dev, r) {
      assert (s.replies + [r]) + s.requests[1..] == flight;
    } else {
      InFlightWithout(flight, |s.replies|, Progress(s.node));
      assert (s.replies + []) + s.requests[1..] == Without(flight, |s.replies|);
    }
  }

  lemma RetransmitSafe(dev: Device, s: System)
    requires Proper(dev) && Safe(dev, s)
    ensures Safe(dev, Next(dev, s, Retransmit))
  {
    hide Prefix, InFlight, NextFragment;
    var flight, p := s.replies + s.requests, Progress(s.node);
    NextFragmentIs(dev, s.node);
    InFlightAppend(flight, p);
    assert s.replies + (s.requests + [p]) == flight + [p];
  }

  lemma LoseRequestSafe(dev: Device, s: System, i: nat)
    requires Safe(dev, s) && i < |s.requests|
    ensures Safe(dev, Next(dev, s, LoseRequest(i)))
  {
    hide Prefix, InFlight, Progress;
    var flight := s.replies + s.requests;
    InFlightWithout(flight, |s.replies| + i, Progress(s.node));
    assert s.replies + Without(s.requests, i) == Without(flight, |s.replies| + i);
  }

  lemma LoseReplySafe(dev: Device, s: System, i: nat)
    requires Safe(dev, s) && i < |s.replies|
    ensures Safe(dev, Next(dev, s, LoseReply(i)))
  {
    hide Prefix, InFlight, Progress;
    var flight := s.replies + s.requests;
    InFlightWithout(flight, i, Progress(s.node));
    assert Without(s.replies, i) + s.requests == Without(flight, i);
  }

  /** Every step keeps the invariant and loses nothing already stored. A description that arrives
      again arrives before any entry is stored. */
  lemma StepSafe(dev: Device, s: System, step: Step)
    requires Proper(dev) && Safe(dev, s) && Enabled(dev, s, step)
    ensures Safe(dev, Next(dev, s, step)) && Progress(Next(dev, s, step).node) >= Progress(s.node)
    ensures step == Receive && Answer(dev, s.replies[0]).About? ==> s.node.counters == Per(0, 0, 0)
  {
    hide Safe, Update, NextFragment, Progress;
    match step
    case Retransmit => RetransmitSafe(dev, s);
    case Serve => ServeSafe(dev, s);
    case Receive => ReceiveSafe(dev, s);
    case LoseRequest(i) => LoseRequestSafe(dev, s, i);
    case LoseReply(i) => LoseReplySafe(dev, s, i);
  }

  lemma {:induction false} RunFromSafe(dev: Device, s: System, steps: seq<Step>)
    requires Proper(dev) && Safe(dev, s) && Perform(dev, s, steps).Some?
    ensures Safe(dev, Perform(dev, s, steps).value) && Progress(Perform(dev, s, steps).value.node) >= Progress(s.node)
    decreases |steps|
  {
    hide Safe, Next, Enabled;
    if steps != [] {
      StepSafe(dev, s, steps[0]);
      RunFromSafe(dev, Next(dev, s, steps[0]), steps[1..]);
    }
  }

  /** In every reachable state, whatever was lost or repeated, the entries stored are the first
      ones of the device, in its order, and all other places are blank. */
  lemma RunIsSafe(dev: Device, steps: seq<Step>)
    requires Proper(dev) && Perform(dev, Start, steps).Some?
    ensures Safe(dev, Perform(dev, Start, steps).value)
  {
    RunFromSafe(dev, Start, steps);
  }

  /** All entries of the device, each with its place. */
  predicate Complete(dev: Device, node: Node)
  {
    && node.header == dev.header
    && forall k: Kind :: node.lists.Get(k) == EntriesOf(dev.fragments, k)
  }

  /** A safe node is ready exactly when it has stored every fragment, and then it is complete. */
  lemma ReadyIsComplete(dev: Device, s: System)
    requires Proper(dev) && Safe(dev, s)
    ensures Ready(s.node) <==> Progress(s.node) == |dev.fragments|
    ensures Ready(s.node) ==> Complete(dev, s.node) && forall j | 0 <= j < |dev.fragments| :: Fresh(dev.fragments, j)
  {
    hide Fresh, EntriesOf, Holding;
    if s.node != Unknown {
      var n := Total(s.node.counters);
      forall k: Kind
        ensures s.node.counters.Get(k) + Missing(dev, n, k) == |s.node.lists.Get(k)|
        ensures s.node.lists.Get(k) == EntriesOf(dev.fragments[..n], k) + Blanks(Missing(dev, n, k))
      {
        HoldingGet(dev, n, k);
      }
      HoldingHeader(dev, n);
      if n < |dev.fragments| {
        var f := dev.fragments[n];
        EntriesGrow(dev.fragments, n, f.kind);
        assert s.node.counters.Get(f.kind) != |s.node.lists.Get(f.kind)|;
      } else {
        assert dev.fragments[..n] == dev.fragments;
      }
    }
  }

  // ----- the transfer can always complete -----

  predicate Lossless(steps: seq<Step>) { forall i | 0 <= i < |steps| :: !steps[i].LoseRequest? && !steps[i].LoseReply? }

  ghost predicate Completable(dev: Device, s: System) {
    exists steps :: Lossless(steps) && Perform(dev, s, steps).Some? && Ready(Perform(dev, s, steps).value.node)
  }

  lemma CompletableStep(dev: Device, s: System, step: Step)
    requires Enabled(dev, s, step) && !step.LoseRequest? && !step.LoseReply? && Completable(dev, Next(dev, s, step))
    ensures Completable(dev, s)
  {
    var steps :| Lossless(steps) && Perform(dev, Next(dev, s, step), steps).Some? &&
        Ready(Perform(dev, Next(dev, s, step), steps).value.node);
    var all := [step] + steps;
    assert all[1..] == steps && Lossless(all);
    assert Perform(dev, s, all) == Perform(dev, Next(dev, s, step), steps);
  }

  /** How many messages in flight are about a fragment already stored. */
  function Behind(s: seq<int>, p: int): nat {
    if s == [] then 0 else (if s[0] < p then 1 else 0) + Behind(s[1..], p)
  }

  lemma {:induction false} BehindAppend(s: seq<int>, p: int)
    ensures Behind(s + [p], p) == Behind(s, p)
  {
    if s != [] {
      assert (s + [p])[1..] == s[1..] + [p];
      BehindAppend(s[1..], p);
    } else {
      assert s + [p] == [p] && [p][1..] == [];
    }
  }

  function Stage(s: System): nat { if s.replies != [] then 0 else if s.requests != [] then 1 else 2 }

  /** If all names are present and distinct within their kind, then from every safe state some
      further steps without loss complete the transfer. */
  lemma {:induction false} CanComplete(dev: Device, s: System)
    requires Proper(dev) && Safe(dev, s) && forall j | 0 <= j < |dev.fragments| :: Fresh(dev.fragments, j)
    ensures Completable(dev, s)
    decreases |dev.fragments| - Progress(s.node), Behind(s.replies + s.requests, Progress(s.node)), Stage(s)
  {
    hide Prefix, InFlight, Ready, Fresh, Completable, Update, Answer, NextFragment;
    ReadyIsComplete(dev, s);
    ProgressBound(dev, s);
    var p, flight := Progress(s.node), s.replies + s.requests;
    if Ready(s.node) {
      AlreadyReady(dev, s);
    } else if flight == [] {
      StepSafe(dev, s, Retransmit);
      NextFragmentIs(dev, s.node);
      BehindAppend([], p);
      var next := Next(dev, s, Retransmit);
      assert next.replies + next.requests == [] + [p];
      CanComplete(dev, next);
      CompletableStep(dev, s, Retransmit);
    } else if s.replies == [] {
      InFlightBounds(flight, p);
      StepSafe(dev, s, Serve);
      var next := Next(dev, s, Serve);
      assert next.replies + next.requests == flight;
      CanComplete(dev, next);
      CompletableStep(dev, s, Serve);
    } else {
      ReceiveProgress(dev, s);
      StepSafe(dev, s, Receive);
      CanComplete(dev, Next(dev, s, Receive));
      CompletableStep(dev, s, Receive);
    }
  }

  lemma ProgressBound(dev: Device, s: System)
    requires Safe(dev, s)
    ensures Progress(s.node) <= |dev.fragments|
  {
  }

  lemma AlreadyReady(dev: Device, s: System)
    requires Ready(s.node)
    ensures Completable(dev, s)
  {
    assert Perform(dev, s, []) == Some(s) && Lossless([]);
  }

  /** Receiving either stores a fragment or leaves fewer stale messages. */
  lemma ReceiveProgress(dev: Device, s: System)
    requires Proper(dev) && Safe(dev, s) && s.replies != []
    requires forall j | 0 <= j < |dev.fragments| :: Fresh(dev.fragments, j)
    ensures Enabled(dev, s, Receive)
    ensures var next := Next(dev, s, Receive);
            var p, q := Progress(s.node), Progress(next.node);
            q > p || (q == p && Behind(next.replies + next.requests, p) < Behind(s.replies + s.requests, p))
  {
    hide Prefix, InFlight, Update, Answer, Ready, Fresh, NextFragment;
    var r, flight, p := s.replies[0], s.replies + s.requests, Progress(s.node);
    InFlightBounds(flight, p);
    ReceiveGives(dev, s.node, r);
    var next := Update(s.node, Answer(dev, r));
    NextFragmentIs(dev, next);
    if r < p {
      BehindAppend(flight[1..], p);
      assert s.replies[1..] + (s.requests + [p]) == flight[1..] + [p];
      assert s.replies[1..] + (s.requests + []) == flight[1..];
    }
  }

  /** Some run makes the node ready if and only if every entry has a name that no other entry of
      its kind has. */
  lemma ReadyReachableExact(dev: Device)
    requires Proper(dev)
    ensures (exists steps :: Perform(dev, Start, steps).Some? && Ready(Perform(dev, Start, steps).value.node))
            <==> forall j | 0 <= j < |dev.fragments| :: Fresh(dev.fragments, j)
  {
    hide Fresh;
    if steps :| Perform(dev, Start, steps).Some? && Ready(Perform(dev, Start, steps).value.node) {
      RunIsSafe(dev, steps);
      ReadyIsComplete(dev, Perform(dev, Start, steps).value);
    }
    if forall j | 0 <= j < |dev.fragments| :: Fresh(dev.fragments, j) {
      CanComplete(dev, Start);
    }
  }

  // ----- without losses the transfer runs by itself -----

  /** The node has everything, or the fragment it waits for is on its way. */
  predicate Live(s: System) { Ready(s.node) || Progress(s.node) in s.replies + s.requests }

  lemma LiveStep(dev: Device, s: System, step: Step)
    requires Proper(dev) && Safe(dev, s) && Enabled(dev, s, step) && !step.LoseRequest? && !step.LoseReply?
    requires step == Retransmit || Live(s)
    ensures Live(Next(dev, s, step))
  {
    hide Prefix, InFlight, Update, NextFragment, Ready;
    var next, p := Next(dev, s, step), Progress(s.node);
    StepSafe(dev, s, step);
    ReadyIsComplete(dev, s);
    match step
    case Retransmit =>
      NextFragmentIs(dev, s.node);
      assert p in s.replies + (s.requests + [p]);
    case Serve =>
      var r := s.requests[0];
      InFlightMember(s.replies + s.requests, p, |s.replies|);
      ProgressBound(dev, s);
      if !Ready(s.node) {
        assert Answers(dev, r);
        assert s.replies + [r] + s.requests[1..] == s.replies + s.requests;
      }
    case Receive =>
      NextFragmentIs(dev, next.node);
      assert !Ready(next.node) ==> next.requests[|next.requests| - 1] == Progress(next.node);
  }

  lemma InFlightMember(s: seq<int>, p: int, i: nat)
    requires InFlight(s, p) && i < |s|
    ensures -1 <= s[i] <= p
  {
  }

  /** Once a request went out, as long as nothing is lost, a node that is not ready has the request or
      the reply for its next fragment in flight: the timer is never needed. */
  lemma {:induction false} LosslessIsLive(dev: Device, s: System, steps: seq<Step>)
    requires Proper(dev) && Safe(dev, s) && Live(s) && Lossless(steps) && Perform(dev, s, steps).Some?
    ensures Live(Perform(dev, s, steps).value)
    decreases |steps|
  {
    hide Safe, Next, Enabled, Live;
    if steps != [] {
      StepSafe(dev, s, steps[0]);
      LiveStep(dev, s, steps[0]);
      LosslessIsLive(dev, Next(dev, s, steps[0]), steps[1..]);
    }
  }

  /** The first request. */
  const Asked: System := System(Unknown, [-1], [])

  /** After k steps of the transfer one message is in flight, in turn a request and its reply, until
      all fragments are stored. */
  predicate OnItsWay(dev: Device, s: System, k: nat)
  {
    var end := 2 * (|dev.fragments| + 1);
    && k <= end && Safe(dev, s) && Progress(s.node) == k / 2 - 1
    && s.requests == (if k % 2 == 0 && k < end then [k / 2 - 1] else [])
    && s.replies == (if k % 2 == 1 then [k / 2 - 1] else [])
  }

  lemma OneStepOn(dev: Device, s: System, step: Step, k: nat)
    requires Proper(dev) && OnItsWay(dev, s, k) && Enabled(dev, s, step) && step in {Serve, Receive}
    requires forall j | 0 <= j < |dev.fragments| :: Fresh(dev.fragments, j)
    ensures OnItsWay(dev, Next(dev, s, step), k + 1)
  {
    hide Prefix, InFlight, Update, NextFragment, Ready, Fresh;
    var next, p := Next(dev, s, step), Progress(s.node);
    StepSafe(dev, s, step);
    if step == Serve {
      assert next.requests == [] && next.replies == [p];
    } else {
      ReceiveOn(dev, s, k);
    }
  }

  lemma ReceiveOn(dev: Device, s: System, k: nat)
    requires Proper(dev) && OnItsWay(dev, s, k) && k % 2 == 1 && Enabled(dev, s, Receive)
    requires forall j | 0 <= j < |dev.fragments| :: Fresh(dev.fragments, j)
    ensures OnItsWay(dev, Next(dev, s, Receive), k + 1)
  {
    hide Prefix, InFlight, Update, NextFragment, Ready, Fresh;
    var next := Next(dev, s, Receive);
    StepSafe(dev, s, Receive);
    ReceiveGives(dev, s.node, Progress(s.node));
    NextFragmentIs(dev, next.node);
    ReadyIsComplete(dev, next);
    assert next.replies == [] && next.requests == Sent(next.node);
  }

  lemma {:induction false} OnTheWay(dev: Device, s: System, k: nat, steps: seq<Step>)
    requires Proper(dev) && OnItsWay(dev, s, k) && forall j | 0 <= j < |dev.fragments| :: Fresh(dev.fragments, j)
    requires Perform(dev, s, steps).Some? && forall i | 0 <= i < |steps| :: steps[i] in {Serve, Receive}
    ensures OnItsWay(dev, Perform(dev, s, steps).value, k + |steps|)
    decreases |steps|
  {
    hide OnItsWay, Next, Enabled, Fresh;
    if steps != [] {
      OneStepOn(dev, s, steps[0], k);
      OnTheWay(dev, Next(dev, s, steps[0]), k + 1, steps[1..]);
    }
  }

  /** From the first request on, with nothing lost and no timer, the description and the fragments are
      asked for and answered one by one: after exactly two steps for each the node is ready and sends
      nothing more, and before that there is always a next step. */
  lemma RunsByItself(dev: Device, steps: seq<Step>)
    requires Proper(dev) && forall j | 0 <= j < |dev.fragments| :: Fresh(dev.fragments, j)
    requires Perform(dev, Asked, steps).Some? && forall i | 0 <= i < |steps| :: steps[i] in {Serve, Receive}
    ensures Next(dev, Start, Retransmit) == Asked
    ensures var s, end := Perform(dev, Asked, steps).value, 2 * (|dev.fragments| + 1);
            && |steps| <= end && (Ready(s.node) <==> |steps| == end)
            && |s.requests| + |s.replies| == (if Ready(s.node) then 0 else 1)
            && (Ready(s.node) <==> !Enabled(dev, s, Serve) && !Enabled(dev, s, Receive))
  {
    hide Ready, Fresh, Prefix;
    var s := Perform(dev, Asked, steps).value;
    assert OnItsWay(dev, Asked, 0);
    OnTheWay(dev, Asked, 0, steps);
    ReadyIsComplete(dev, s);
  }
}
