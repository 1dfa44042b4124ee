/** timesync.c: which node of a sync group is frame master.  A node is master until it hears a
    frame from a lower address; masters broadcast frames.  One node is a class as in the source;
    then any number of them exchange packets that may be lost, delayed, repeated and reordered. */
module TimeSync {
  import opened Integers

  const PROTOCOL_MAGIC := 0x454d4954
  const PROTOCOL_VERSION := 1
  const MSG_FRAME_SYNC := 2

  datatype FrameSync = Wait | Master | Slave

  /** How far the server thread has got: not yet scheduled, waiting for an address, listening. */
  datatype Phase = Idle | Waiting | Listening

  /** A received datagram; `source` is the sender's address as a 32-bit number. */
  datatype Packet = Packet(magic: nat, version: nat, kind: nat, group: nat, source: nat)

  datatype Node = Node(phase: Phase, state: FrameSync, master: nat)

  /** The datagram is a frame of the node's own sync group. */
  predicate Accepted(p: Packet, group: nat) {
    && p.magic == PROTOCOL_MAGIC && p.version == PROTOCOL_VERSION && p.kind == MSG_FRAME_SYNC
    && group != 0 && p.group == group
  }

  function Handled(n: Node, p: Packet, group: nat): (r: Node)
    ensures r.phase == n.phase
  {
    if !Accepted(p, group) then n
    else if n.state == Wait || p.source < n.master || n.master == 0 then n.(state := Slave, master := p.source)
    else n
  }

  function FrameFrom(n: Node, address: nat, group: nat): set<Packet> {
    if n.state != Master || group == 0 then {}
    else {Packet(PROTOCOL_MAGIC, PROTOCOL_VERSION, MSG_FRAME_SYNC, group, address)}
  }

  /** Only datagrams that start with 0x454d4954 ("TIME" in memory) and say version 1, kind 2 and the
      node's own group, which is not 0, make any difference. */
  lemma Foreign(n: Node, p: Packet, group: nat)
    requires p.magic != 0x454d4954 || p.version != 1 || p.kind != 2 || group == 0 || p.group != group
    ensures Handled(n, p, group) == n && !Accepted(p, group)
  {
  }

  /** Of the addresses heard the lower one counts, and whoever takes another for master is its slave. */
  lemma LowerCounts(n: Node, p: Packet, group: nat)
    requires Accepted(p, group)
    ensures var r := Handled(n, p, group);
            && (n.state == Wait || n.master == 0 || p.source < n.master ==> r.master == p.source && r.state == Slave)
            && (n.state != Wait && 0 < n.master <= p.source ==> r == n)
  {
  }

  /** A master in a group sends just one frame, which says who it is and which any node of the group
      accepts; nobody else sends. */
  lemma FramesAccepted(n: Node, address: nat, group: nat)
    ensures n.state == Master && group != 0 <==> FrameFrom(n, address, group) != {}
    ensures |FrameFrom(n, address, group)| <= 1
    ensures forall p | p in FrameFrom(n, address, group) ::
              && Accepted(p, group) && p.source == address && p.group == group
              && p.magic == 0x454d4954 && p.version == 1 && p.kind == 2
  {
  }

  class TimeServer {
    const address: nat
    const group: nat
    var phase: Phase
    var frameSyncState: FrameSync
    var frameMasterIp: nat

    constructor (address: nat, group: nat)
      ensures this.address == address && this.group == group && Shown() == Node(Idle, Wait, 0)
    {
      this.address, this.group := address, group;
      phase, frameSyncState, frameMasterIp := Idle, Wait, 0;
    }

    function Shown(): Node
      reads this
    {
      Node(phase, frameSyncState, frameMasterIp)
    }

    method Begin()
      requires phase == Idle
      modifies this
      ensures Shown() == Node(Waiting, Master, old(frameMasterIp))
    {
      phase := Waiting;
      frameSyncState := Master;
    }

    method Listen()
      requires phase == Waiting
      modifies this
      ensures Shown() == Node(Listening, old(frameSyncState), address)
    {
      frameMasterIp := address;
      phase := Listening;
    }

    /** One turn of the listening loop; `applied` says whether the frame goes to the graphics. */
    method Receive(p: Packet) returns (applied: bool)
      requires phase == Listening
      modifies this
      ensures Shown() == Handled(old(Shown()), p, group)
      ensures applied <==> Accepted(p, group) && frameSyncState != Master
    {
      if p.magic != PROTOCOL_MAGIC {
        return false;
      }
      if p.version != PROTOCOL_VERSION {
        return false;
      }
      if p.kind != MSG_FRAME_SYNC {
        return false;
      }
      if group == 0 {
        return false;
      }
      if p.group != group {
        return false;
      }
      if frameSyncState == Wait {
        frameSyncState := Slave;
        frameMasterIp := p.source;
      } else if p.source < frameMasterIp || frameMasterIp == 0 {
        frameSyncState := Slave;
        frameMasterIp := p.source;
      }
      applied := frameSyncState != Master;
    }

    method SendFrameSync() returns (sent: set<Packet>)
      ensures sent == FrameFrom(Shown(), address, group)
      ensures sent != {} <==> frameSyncState == Master && group != 0
      ensures forall p | p in sent :: Accepted(p, group) && p.source == address
    {
      if frameSyncState != Master {
        return {};
      }
      if group == 0 {
        return {};
      }
      sent := {Packet(PROTOCOL_MAGIC, PROTOCOL_VERSION, MSG_FRAME_SYNC, group, address)};
    }
  }

  // ----- The network -----

  /** Nodes with their addresses and sync groups, which stay fixed. */
  datatype Network = Network(addresses: seq<nat>, groups: seq<nat>) {
    ghost predicate Valid() {
      && |addresses| == |groups|
      && (forall i :: 0 <= i < |addresses| ==> addresses[i] != 0)
      && forall i, j :: 0 <= i < |addresses| && 0 <= j < |addresses| && addresses[i] == addresses[j] ==> i == j
    }
  }

  /** Once sent a packet may arrive at any node at any time, any number of times, or never. */
  datatype World = World(nodes: seq<Node>, sent: set<Packet>)

  datatype Event = Begin(i: nat) | Listen(i: nat) | Send(i: nat) | Receive(i: nat, p: Packet)

  function Start(net: Network): World {
    World(seq(|net.addresses|, _ => Node(Idle, Wait, 0)), {})
  }

  /** The step can happen.  A packet that arrives was sent by a node, or is foreign traffic that
      the receiver does not accept. */
  predicate Enabled(net: Network, w: World, e: Event)
    requires |w.nodes| == |net.addresses| == |net.groups|
  {
    e.i < |w.nodes| &&
    match e
    case Begin(i) => w.nodes[i].phase == Idle
    case Listen(i) => w.nodes[i].phase == Waiting
    case Send(i) => true
    case Receive(i, p) => w.nodes[i].phase == Listening && (p in w.sent || !Accepted(p, net.groups[i]))
  }

  function Step(net: Network, w: World, e: Event): (w': World)
    requires |w.nodes| == |net.addresses| == |net.groups| && Enabled(net, w, e)
    ensures |w'.nodes| == |w.nodes|
  {
    match e
    case Begin(i) => w.(nodes := w.nodes[i := Node(Waiting, Master, w.nodes[i].master)])
    case Listen(i) => w.(nodes := w.nodes[i := Node(Listening, w.nodes[i].state, net.addresses[i])])
    case Send(i) => w.(sent := w.sent + FrameFrom(w.nodes[i], net.addresses[i], net.groups[i]))
    case Receive(i, p) => w.(nodes := w.nodes[i := Handled(w.nodes[i], p, net.groups[i])])
  }

  /** The world after a run, if every step of it can happen. */
  function After(net: Network, run: seq<Event>): (w: Option<World>)
    requires net.Valid()
    ensures w.Some? ==> |w.value.nodes| == |net.addresses|
  {
    if run == [] then Some(Start(net))
    else
      var before := After(net, run[..|run| - 1]);
      if before.None? || !Enabled(net, before.value, run[|run| - 1]) then None
      else Some(Step(net, before.value, run[|run| - 1]))
  }

  /** The addresses from which node i has handled a frame of its group. */
  function Heard(net: Network, run: seq<Event>, i: nat): set<nat>
    requires net.Valid() && i < |net.groups|
  {
    if run == [] then {}
    else
      var e := run[|run| - 1];
      Heard(net, run[..|run| - 1], i)
      + if e.Receive? && e.i == i && Accepted(e.p, net.groups[i]) then {e.p.source} else {}
  }

  /** What holds of node i: before it listens it is nobody's slave; from then on its master is the
      lowest of its own address and all those heard, and it is master exactly when that is its own. */
  ghost predicate NodeOk(net: Network, n: Node, heard: set<nat>, i: nat)
    requires i < |net.addresses|
  {
    match n.phase
    case Idle => n.state == Wait && n.master == 0 && heard == {}
    case Waiting => n.state == Master && n.master == 0 && heard == {}
    case Listening =>
      && n.master in heard + {net.addresses[i]}
      && (forall a | a in heard + {net.addresses[i]} :: n.master <= a)
      && (n.state == Master <==> n.master == net.addresses[i]) && n.state != Wait
  }

  /** Address a belongs to a node of group g. */
  ghost predicate Member(net: Network, a: nat, g: nat)
    requires net.Valid()
  {
    exists j {:trigger net.addresses[j]} | 0 <= j < |net.addresses| :: a == net.addresses[j] && g == net.groups[j]
  }

  /** Every packet under way is a frame of a node of that group. */
  ghost predicate SentOk(net: Network, sent: set<Packet>)
    requires net.Valid()
  {
    forall p | p in sent :: Member(net, p.source, p.group)
  }

  ghost predicate HeardOk(net: Network, heard: set<nat>, i: nat)
    requires net.Valid() && i < |net.groups|
  {
    forall a | a in heard :: Member(net, a, net.groups[i])
  }

  lemma MemberNonzero(net: Network, a: nat, g: nat)
    requires net.Valid() && Member(net, a, g)
    ensures a != 0
  {
  }

  lemma HandledOk(net: Network, n: Node, heard: set<nat>, i: nat, p: Packet)
    requires net.Valid() && i < |net.addresses| && n.phase == Listening && NodeOk(net, n, heard, i)
             && HeardOk(net, heard, i)
    requires Accepted(p, net.groups[i]) ==> Member(net, p.source, p.group)
    ensures var heard' := heard + if Accepted(p, net.groups[i]) then {p.source} else {};
            NodeOk(net, Handled(n, p, net.groups[i]), heard', i) && HeardOk(net, heard', i)
  {
    hide Member;
    if n.master in heard {
      MemberNonzero(net, n.master, net.groups[i]);
    }
  }

  lemma {:induction false} RunOk(net: Network, run: seq<Event>)
    requires net.Valid() && After(net, run).Some?
    ensures SentOk(net, After(net, run).value.sent)
    ensures forall i: nat | i < |net.addresses| ::
              NodeOk(net, After(net, run).value.nodes[i], Heard(net, run, i), i) && HeardOk(net, Heard(net, run, i), i)
  {
    if run != [] {
      hide Accepted, NodeOk, HeardOk, Handled;
      var before, e := run[..|run| - 1], run[|run| - 1];
      RunOk(net, before);
      var w := After(net, before).value;
      StepOk(net, w, e, Heard(net, before, e.i));
      forall i: nat | i < |net.addresses|
        ensures NodeOk(net, After(net, run).value.nodes[i], Heard(net, run, i), i)
                && HeardOk(net, Heard(net, run, i), i)
      {
        assert NodeOk(net, w.nodes[i], Heard(net, before, i), i);
        assert Heard(net, before, i) + {} == Heard(net, before, i);
      }
    }
  }

  lemma StepOk(net: Network, w: World, e: Event, heard: set<nat>)
    requires net.Valid() && |w.nodes| == |net.addresses| && Enabled(net, w, e)
    requires SentOk(net, w.sent) && NodeOk(net, w.nodes[e.i], heard, e.i) && HeardOk(net, heard, e.i)
    ensures SentOk(net, Step(net, w, e).sent)
    ensures var heard' := heard + if e.Receive? && Accepted(e.p, net.groups[e.i]) then {e.p.source} else {};
            NodeOk(net, Step(net, w, e).nodes[e.i], heard', e.i) && HeardOk(net, heard', e.i)
  {
    assert heard + {} == heard;
    assert Member(net, net.addresses[e.i], net.groups[e.i]);
    hide Member, HeardOk;
    if e.Receive? {
      if Accepted(e.p, net.groups[e.i]) {
        assert e.p in w.sent;
      }
      HandledOk(net, w.nodes[e.i], heard, e.i, e.p);
    }
  }

  // ----- What every run keeps -----

  ghost predicate Lowest(net: Network, low: nat)
    requires net.Valid()
  {
    low < |net.addresses| && forall j :: 0 <= j < |net.addresses| && net.groups[j] == net.groups[low] ==>
        net.addresses[low] <= net.addresses[j]
  }

  ghost predicate HasBelow(heard: set<nat>, a: nat) {
    exists b | b in heard :: b < a
  }

  /** A listening node is master exactly when it takes itself for the master, and that is as long
      as it has handled no frame from a lower address. */
  lemma MasterRule(net: Network, run: seq<Event>, i: nat)
    requires net.Valid() && After(net, run).Some? && i < |net.addresses|
             && After(net, run).value.nodes[i].phase == Listening
    ensures var n := After(net, run).value.nodes[i];
            && (n.state == Master <==> n.master == net.addresses[i])
            && (n.state == Master <==> !HasBelow(Heard(net, run, i), net.addresses[i]))
            && n.master <= net.addresses[i]
  {
    RunOk(net, run);
    var n, heard := After(net, run).value.nodes[i], Heard(net, run, i);
    assert NodeOk(net, n, heard, i);
    assert net.addresses[i] in heard + {net.addresses[i]};
    if HasBelow(heard, net.addresses[i]) {
      var b :| b in heard && b < net.addresses[i];
      assert b in heard + {net.addresses[i]};
    }
    if n.state != Master {
      assert n.master in heard && n.master < net.addresses[i];
    }
  }

  /** The lowest node of a group is master from its first step on, whatever arrives. */
  lemma LowestIsMaster(net: Network, run: seq<Event>, low: nat)
    requires net.Valid() && After(net, run).Some? && Lowest(net, low) && After(net, run).value.nodes[low].phase != Idle
    ensures After(net, run).value.nodes[low].state == Master
  {
    RunOk(net, run);
    assert NodeOk(net, After(net, run).value.nodes[low], Heard(net, run, low), low);
  }

  lemma {:induction false} Grows(net: Network, run: seq<Event>, more: seq<Event>, i: nat)
    requires net.Valid() && After(net, run + more).Some? && i < |net.addresses|
    ensures After(net, run).Some? && Heard(net, run, i) <= Heard(net, run + more, i)
    ensures After(net, run).value.nodes[i].phase == Listening ==>
              After(net, run + more).value.nodes[i].phase == Listening
  {
    hide Accepted, Handled, FrameFrom;
    if more == [] {
      assert run + more == run;
    } else {
      var all := run + more;
      assert all[..|all| - 1] == run + more[..|more| - 1];
      Grows(net, run, more[..|more| - 1], i);
      var before, e := After(net, all[..|all| - 1]).value, all[|all| - 1];
      assert After(net, all).value == Step(net, before, e);
    }
  }

  /** However a run goes on, the master of a listening node never gets a higher address. */
  lemma MasterNeverRises(net: Network, run: seq<Event>, more: seq<Event>, i: nat)
    requires net.Valid() && After(net, run + more).Some? && i < |net.addresses|
    ensures After(net, run).Some?
    ensures After(net, run).value.nodes[i].phase == Listening ==>
              After(net, run + more).value.nodes[i].master <= After(net, run).value.nodes[i].master
  {
    Grows(net, run, more, i);
    RunOk(net, run);
    RunOk(net, run + more);
    assert NodeOk(net, After(net, run).value.nodes[i], Heard(net, run, i), i);
    assert NodeOk(net, After(net, run + more).value.nodes[i], Heard(net, run + more, i), i);
  }

  /** All nodes of the group are listening. */
  ghost predicate AllListen(net: Network, w: World, g: nat)
    requires |w.nodes| == |net.groups|
  {
    forall j :: 0 <= j < |w.nodes| && net.groups[j] == g ==> w.nodes[j].phase == Listening
  }

  /** `low` is the group's only master. */
  ghost predicate OnlyMaster(net: Network, w: World, low: nat)
    requires |w.nodes| == |net.groups| && low < |net.groups|
  {
    forall j :: 0 <= j < |w.nodes| && net.groups[j] == net.groups[low] ==> (w.nodes[j].state == Master <==> j == low)
  }

  /** In a group that is listening there is one master exactly when every other node has handled a
      frame from someone below it. */
  lemma OneMasterIff(net: Network, run: seq<Event>, low: nat)
    requires net.Valid() && After(net, run).Some? && Lowest(net, low)
             && AllListen(net, After(net, run).value, net.groups[low])
    ensures OnlyMaster(net, After(net, run).value, low)
       <==> forall j: nat | j < |net.addresses| && net.groups[j] == net.groups[low] && j != low ::
              HasBelow(Heard(net, run, j), net.addresses[j])
  {
    hide HasBelow;
    var w := After(net, run).value;
    LowestIsMaster(net, run, low);
    forall j: nat | j < |net.addresses| && net.groups[j] == net.groups[low]
      ensures w.nodes[j].state == Master <==> !HasBelow(Heard(net, run, j), net.addresses[j])
    {
      MasterRule(net, run, j);
    }
  }

  /** Once every other node of the group has handled one frame from the lowest, that node is the
      only master for ever, and the only one that sends. */
  lemma OneMasterForEver(net: Network, run: seq<Event>, more: seq<Event>, low: nat)
    requires net.Valid() && After(net, run + more).Some? && Lowest(net, low)
    requires After(net, run).Some? && AllListen(net, After(net, run).value, net.groups[low])
    requires forall j: nat | j < |net.addresses| && net.groups[j] == net.groups[low] && j != low ::
               net.addresses[low] in Heard(net, run, j)
    ensures OnlyMaster(net, After(net, run + more).value, low)
    ensures forall j: nat | j < |net.addresses| && net.groups[j] == net.groups[low] ::
              && After(net, run + more).value.nodes[j].master == net.addresses[low]
              && (j != low ==> FrameFrom(After(net, run + more).value.nodes[j], net.addresses[j], net.groups[j]) == {})
  {
    var w := After(net, run + more).value;
    forall j: nat | j < |net.addresses| && net.groups[j] == net.groups[low]
      ensures w.nodes[j].master == net.addresses[low] && (w.nodes[j].state == Master <==> j == low)
    {
      Grows(net, run, more, j);
      RunOk(net, run + more);
      assert NodeOk(net, w.nodes[j], Heard(net, run + more, j), j);
      assert HeardOk(net, Heard(net, run + more, j), j);
    }
  }

  // ----- Getting there -----

  lemma {:induction false} AfterMore(net: Network, run: seq<Event>, e: Event)
    requires net.Valid() && After(net, run).Some? && Enabled(net, After(net, run).value, e)
    ensures After(net, run + [e]) == Some(Step(net, After(net, run).value, e))
    ensures forall i: nat | i < |net.groups| ::
              Heard(net, run + [e], i)
              == Heard(net, run, i)
                 + if e.Receive? && e.i == i && Accepted(e.p, net.groups[i]) then {e.p.source} else {}
  {
    assert (run + [e])[..|run + [e]| - 1] == run;
  }

  /** One receipt of p at each of the first n nodes that is in the group of `low` and not `low` itself. */
  function Receipts(net: Network, low: nat, p: Packet, n: nat): (more: seq<Event>)
    requires net.Valid() && low < |net.groups| && n <= |net.groups|
    ensures forall e | e in more :: e.Receive? && e.p == p && e.i < n && e.i != low
  {
    if n == 0 then []
    else
      Receipts(net, low, p, n - 1)
      + if net.groups[n - 1] == net.groups[low] && n - 1 != low then [Receive(n - 1, p)] else []
  }

  /** The frame p is under way while the group listens. */
  ghost predicate UnderWay(net: Network, run: seq<Event>, low: nat, p: Packet)
    requires net.Valid() && low < |net.groups|
  {
    var w := After(net, run);
    w.Some? && p in w.value.sent && Accepted(p, net.groups[low]) && AllListen(net, w.value, net.groups[low])
  }

  lemma Receipt(net: Network, run: seq<Event>, low: nat, p: Packet, j: nat)
    requires net.Valid() && low < |net.groups| && UnderWay(net, run, low, p)
    requires j < |net.groups| && net.groups[j] == net.groups[low]
    ensures UnderWay(net, run + [Receive(j, p)], low, p) && p.source in Heard(net, run + [Receive(j, p)], j)
    ensures forall i: nat | i < |net.groups| :: Heard(net, run, i) <= Heard(net, run + [Receive(j, p)], i)
  {
    hide Accepted, Heard, After;
    var w := After(net, run).value;
    AfterMore(net, run, Receive(j, p));
  }

  /** While they come in everybody goes on listening, and who has got his has heard of the sender. */
  lemma {:induction false} ReceiptsHeard(net: Network, run: seq<Event>, low: nat, p: Packet, n: nat)
    requires net.Valid() && low < |net.groups| && n <= |net.groups| && UnderWay(net, run, low, p)
    ensures UnderWay(net, run + Receipts(net, low, p, n), low, p)
    ensures forall j: nat | j < n && net.groups[j] == net.groups[low] && j != low ::
              p.source in Heard(net, run + Receipts(net, low, p, n), j)
  {
    hide Heard, UnderWay, Receipts;
    ReceiptsNext(net, run, low, p, n);
    if n > 0 {
      ReceiptsHeard(net, run, low, p, n - 1);
      if net.groups[n - 1] == net.groups[low] && n - 1 != low {
        Receipt(net, run + Receipts(net, low, p, n - 1), low, p, n - 1);
      }
    }
  }

  lemma ReceiptsNext(net: Network, run: seq<Event>, low: nat, p: Packet, n: nat)
    requires net.Valid() && low < |net.groups| && n <= |net.groups|
    ensures run + Receipts(net, low, p, n)
         == if n == 0 then run
            else if net.groups[n - 1] == net.groups[low] && n - 1 != low then
              run + Receipts(net, low, p, n - 1) + [Receive(n - 1, p)]
            else run + Receipts(net, low, p, n - 1)
  {
  }

  /** The lowest node sends. */
  lemma LowestSends(net: Network, run: seq<Event>, low: nat) returns (p: Packet)
    requires net.Valid() && After(net, run).Some? && Lowest(net, low) && net.groups[low] != 0
    requires AllListen(net, After(net, run).value, net.groups[low])
    ensures p.source == net.addresses[low] && UnderWay(net, run + [Send(low)], low, p)
  {
    var w := After(net, run).value;
    LowestIsMaster(net, run, low);
    FramesAccepted(w.nodes[low], net.addresses[low], net.groups[low]);
    p :| p in FrameFrom(w.nodes[low], net.addresses[low], net.groups[low]);
    hide Accepted, FrameFrom, Heard, After;
    AfterMore(net, run, Send(low));
  }

  /** From any state in which a group listens, one frame of its lowest node that reaches the others
      settles the election, for ever.  Other groups, and what is under way, do not matter. */
  lemma Settles(net: Network, run: seq<Event>, low: nat) returns (p: Packet, more: seq<Event>)
    requires net.Valid() && After(net, run).Some? && Lowest(net, low) && net.groups[low] != 0
    requires AllListen(net, After(net, run).value, net.groups[low])
    ensures p.source == net.addresses[low] && more == [Send(low)] + Receipts(net, low, p, |net.groups|)
    ensures After(net, run + more).Some? && OnlyMaster(net, After(net, run + more).value, low)
    ensures forall later: seq<Event> | After(net, run + more + later).Some? ::
              OnlyMaster(net, After(net, run + more + later).value, low)
  {
    hide Accepted, FrameFrom, Heard, After, OnlyMaster, AllListen, Receipts;
    p := LowestSends(net, run, low);
    more := [Send(low)] + Receipts(net, low, p, |net.groups|);
    ReceiptsHeard(net, run + [Send(low)], low, p, |net.groups|);
    assert run + [Send(low)] + Receipts(net, low, p, |net.groups|) == run + more;
    assert run + more + [] == run + more;
    OneMasterForEver(net, run + more, [], low);
    forall later: seq<Event> | After(net, run + more + later).Some?
      ensures OnlyMaster(net, After(net, run + more + later).value, low)
    {
      OneMasterForEver(net, run + more, later, low);
    }
  }

  /** In group 0, which means none, nobody hears of anybody: every listening node stays master. */
  lemma {:induction false} NoGroup(net: Network, run: seq<Event>, i: nat)
    requires net.Valid() && After(net, run).Some? && i < |net.groups| && net.groups[i] == 0
    ensures Heard(net, run, i) == {}
    ensures After(net, run).value.nodes[i].phase == Listening ==> After(net, run).value.nodes[i].state == Master
  {
    if run != [] {
      NoGroup(net, run[..|run| - 1], i);
    }
    if After(net, run).value.nodes[i].phase == Listening {
      MasterRule(net, run, i);
    }
  }
}
