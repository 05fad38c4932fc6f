/** What the exchange of blocks and chains comes to: no node announces a height twice, gossip ends,
    and the longest chain wins everywhere. */
module Gossip {
  import opened Primitives
  import opened Transactions
  import opened Blocks
  import opened ChainValidity
  import opened LedgerSpec
  import opened Machine
  import opened ChainStorage
  import opened Network

  function Height(p: Peered): nat {
    |p.state.chain|
  }

  // ----- every node stays sound -----

  ghost predicate AllSound(w: World) {
    forall i | 0 <= i < |w.nodes| :: Sound(w.nodes[i].state)
  }

  /** What a message does to a node's ledger is a step of the node, or nothing. */
  function StepOf(e: Envelope, clock: Clock): Option<Step> {
    match e.message
    case NewBlock(block) => Some(Accept(block, clock))
    case RequestChain => None
    case ResponseChain(chain) => Some(Replace(chain, clock))
  }

  lemma HandleIsStep(me: nat, p: Peered, e: Envelope, clock: Clock, forgotten: set<string>)
    requires p.state.chain != []
    ensures var q := Handle(me, p, e, clock, forgotten).0;
      || q.state == p.state
      || (StepOf(e, clock).Some? && q.state == Next(p.state, StepOf(e, clock).value))
  {
    hide ValidUnder, ApplyTxs, Rebuild, Without;
  }

  lemma HandleIsSound(me: nat, p: Peered, e: Envelope, clock: Clock, forgotten: set<string>)
    requires p.state.chain != [] && Sound(p.state)
    ensures Sound(Handle(me, p, e, clock, forgotten).0.state)
  {
    hide Sound, Handle, Next;
    HandleIsStep(me, p, e, clock, forgotten);
    if StepOf(e, clock).Some? {
      NextIsSound(p.state, StepOf(e, clock).value);
    }
  }

  lemma OneNodeSound(w: World, i: nat, p: Peered, messages: seq<Envelope>)
    requires AllSound(w) && i < |w.nodes| && Sound(p.state)
    ensures AllSound(World(w.nodes[i := p], messages))
  {
    hide Sound;
  }

  lemma EventIsSound(w: World, e: Event)
    requires WellFormed(w) && Possible(w, e) && AllSound(w)
    ensures AllSound(Happens(w, e))
  {
    hide Sound, Handle, AfterMine, Template, Sealed;
    var w' := Happens(w, e);
    if e.Deliver? {
      var envelope := w.inFlight[e.k];
      HandleIsSound(envelope.target, w.nodes[envelope.target], envelope, e.clock, e.forgotten);
      OneNodeSound(w, envelope.target, w'.nodes[envelope.target], w'.inFlight);
    } else if e.MineAt? {
      MineIsSound(w.nodes[e.i].state, e.miner, e.clock, e.nonce);
      OneNodeSound(w, e.i, w'.nodes[e.i], w'.inFlight);
    } else if e.Submit? {
      AddIsSound(w.nodes[e.at].state, e.tx, e.arrival);
      OneNodeSound(w, e.at, w'.nodes[e.at], w'.inFlight);
    }
  }

  /** Over any history of announcements, answers, losses and mining every node keeps a valid chain,
      the account state of that chain, and a sound pool. */
  lemma {:induction false} HistoryIsSound(w: World, events: seq<Event>)
    requires WellFormed(w) && IsHistory(w, events) && AllSound(w)
    ensures AllSound(After(w, events))
    decreases |events|
  {
    hide AllSound, Happens, Possible;
    if events != [] {
      EventIsSound(w, events[0]);
      HistoryIsSound(Happens(w, events[0]), events[1..]);
    }
  }

  // ----- one announcement per height -----

  /** The heights a node announced only ever went up, and all lie within its chain. */
  predicate AnnouncesUpwards(p: Peered) {
    && (forall i, j | 0 <= i < j < |p.announced| :: p.announced[i] < p.announced[j])
    && (forall i | 0 <= i < |p.announced| :: p.announced[i] < Height(p))
  }

  lemma OneMoreAnnouncement(p: Peered, q: Peered, height: nat)
    requires AnnouncesUpwards(p) && height == Height(p) && Height(q) > Height(p)
    requires q.announced == p.announced + [height]
    ensures AnnouncesUpwards(q)
  {
  }

  lemma HandleAnnounces(me: nat, p: Peered, e: Envelope, clock: Clock, forgotten: set<string>)
    requires p.state.chain != [] && AnnouncesUpwards(p)
    ensures var q := Handle(me, p, e, clock, forgotten).0; AnnouncesUpwards(q) && Height(q) >= Height(p)
  {
    var q := Handle(me, p, e, clock, forgotten).0;
    if q.announced != p.announced {
      OneMoreAnnouncement(p, q, e.message.block.index);
    }
  }

  lemma MineAnnounces(me: nat, p: Peered, miner: string, clock: Clock, nonce: u64, forgotten: set<string>)
    requires p.state.chain != [] && AnnouncesUpwards(p)
    ensures var q := OnMine(me, p, miner, clock, nonce, forgotten).0; AnnouncesUpwards(q) && Height(q) == Height(p) + 1
  {
    hide ApplyTxs, MerkleRoot, Decimal;
    var q := OnMine(me, p, miner, clock, nonce, forgotten).0;
    if q.announced != p.announced {
      OneMoreAnnouncement(p, q, Height(p));
    }
  }

  predicate AllAnnounceUpwards(w: World) {
    forall i | 0 <= i < |w.nodes| :: AnnouncesUpwards(w.nodes[i])
  }

  lemma OneNodeAnnounces(w: World, i: nat, p: Peered, messages: seq<Envelope>)
    requires WellFormed(w) && AllAnnounceUpwards(w) && i < |w.nodes| && AnnouncesUpwards(p)
    ensures AllAnnounceUpwards(World(w.nodes[i := p], messages))
  {
  }

  lemma EventAnnounces(w: World, e: Event)
    requires WellFormed(w) && Possible(w, e) && AllAnnounceUpwards(w)
    ensures AllAnnounceUpwards(Happens(w, e))
  {
    var w' := Happens(w, e);
    if e.Deliver? {
      var envelope := w.inFlight[e.k];
      HandleAnnounces(envelope.target, w.nodes[envelope.target], envelope, e.clock, e.forgotten);
      OneNodeAnnounces(w, envelope.target, w'.nodes[envelope.target], w'.inFlight);
    } else if e.MineAt? {
      MineAnnounces(e.i, w.nodes[e.i], e.miner, e.clock, e.nonce, e.forgottenByMiner);
      OneNodeAnnounces(w, e.i, w'.nodes[e.i], w'.inFlight);
    }
  }

  /** Over any history every node announces at most one block per height, whatever its memory of
      hashes has dropped. */
  lemma {:induction false} OneAnnouncementPerHeight(w: World, events: seq<Event>)
    requires WellFormed(w) && IsHistory(w, events) && AllAnnounceUpwards(w)
    ensures AllAnnounceUpwards(After(w, events))
    decreases |events|
  {
    if events != [] {
      EventAnnounces(w, events[0]);
      OneAnnouncementPerHeight(Happens(w, events[0]), events[1..]);
    }
  }

  // ----- gossip ends -----

  /** An announcement may cause a request, a request causes an answer. */
  function Weight(m: Message): nat {
    match m
    case NewBlock(_) => 3
    case RequestChain => 2
    case ResponseChain(_) => 1
  }

  function TotalWeight(messages: seq<Envelope>): nat {
    if messages == [] then 0
    else TotalWeight(messages[..|messages| - 1]) + Weight(messages[|messages| - 1].message)
  }

  lemma {:induction false} WeightOfConcat(a: seq<Envelope>, b: seq<Envelope>)
    ensures TotalWeight(a + b) == TotalWeight(a) + TotalWeight(b)
    decreases |b|
  {
    if b == [] {
      assert a + b == a;
    } else {
      assert (a + b)[..|a + b| - 1] == a + b[..|b| - 1];
      WeightOfConcat(a, b[..|b| - 1]);
    }
  }

  lemma WeightOfOne(e: Envelope)
    ensures TotalWeight([e]) == Weight(e.message) && TotalWeight([]) == 0
  {
    assert [e][..0] == [];
  }

  lemma WeightWithOneBetween(a: seq<Envelope>, e: Envelope, b: seq<Envelope>)
    ensures TotalWeight(a + [e] + b) == TotalWeight(a + b) + Weight(e.message)
  {
    WeightOfConcat(a, b);
    WeightOfConcat(a + [e], b);
    WeightOfConcat(a, [e]);
    WeightOfOne(e);
  }

  lemma PutBack(messages: seq<Envelope>, k: nat)
    requires k < |messages|
    ensures messages[..k] + [messages[k]] + messages[k + 1..] == messages
  {
  }

  lemma WeightOfRemoved(messages: seq<Envelope>, k: nat)
    requires k < |messages|
    ensures TotalWeight(Removed(messages, k)) == TotalWeight(messages) - Weight(messages[k].message)
  {
    PutBack(messages, k);
    WeightWithOneBetween(messages[..k], messages[k], messages[k + 1..]);
  }

  lemma {:induction false} WeightOfBroadcast(me: nat, targets: seq<nat>, m: Message)
    ensures TotalWeight(Broadcast(me, targets, m)) == Weight(m) * |targets|
    decreases |targets|
  {
    if targets != [] {
      var n := |targets| - 1;
      assert Broadcast(me, targets, m)[..n] == Broadcast(me, targets[..n], m);
      WeightOfBroadcast(me, targets[..n], m);
    }
  }

  /** How many blocks the nodes lack of a height that none exceeds. */
  function Missing(nodes: seq<Peered>, top: nat): int {
    if nodes == [] then 0
    else Missing(nodes[..|nodes| - 1], top) + (top - Height(nodes[|nodes| - 1]))
  }

  lemma {:induction false} MissingUpdate(nodes: seq<Peered>, top: nat, i: nat, p: Peered)
    requires i < |nodes|
    ensures Missing(nodes[i := p], top) == Missing(nodes, top) + Height(nodes[i]) - Height(p)
    decreases |nodes|
  {
    var n := |nodes| - 1;
    if i < n {
      assert nodes[i := p][..n] == nodes[..n][i := p];
      MissingUpdate(nodes[..n], top, i, p);
    } else {
      assert nodes[i := p][..n] == nodes[..n];
    }
  }

  lemma {:induction false} MissingNonNegative(nodes: seq<Peered>, top: nat)
    requires forall i | 0 <= i < |nodes| :: Height(nodes[i]) <= top
    ensures Missing(nodes, top) >= 0
    decreases |nodes|
  {
    if nodes != [] {
      MissingNonNegative(nodes[..|nodes| - 1], top);
    }
  }

  predicate MessageWithin(m: Message, top: nat) {
    match m
    case NewBlock(block) => block.index < top
    case RequestChain => true
    case ResponseChain(chain) => |chain| <= top
  }

  /** No chain, here or on its way, is longer than top, and no node has more than fanout
      neighbours. */
  predicate Within(w: World, top: nat, fanout: nat) {
    && (forall i | 0 <= i < |w.nodes| :: Height(w.nodes[i]) <= top && |w.nodes[i].neighbours| <= fanout)
    && (forall k | 0 <= k < |w.inFlight| :: MessageWithin(w.inFlight[k].message, top))
  }

  /** A delivery leaves the node and what it sends within the bounds, and what it sends weighs less
      than what it received unless the node grew. */
  predicate WeighsIn(p: Peered, e: Envelope, q: Peered, out: seq<Envelope>, top: nat, fanout: nat) {
    && Height(p) <= Height(q) <= top && q.neighbours == p.neighbours
    && (forall k | 0 <= k < |out| :: MessageWithin(out[k].message, top))
    && (TotalWeight(out) < Weight(e.message) || (Height(q) > Height(p) && TotalWeight(out) <= 3 * fanout))
  }

  lemma AcceptedHeight(s: NodeState, block: Block, clock: Clock)
    requires s.chain != []
    ensures |AfterAccept(s, block, clock).chain| == |s.chain| + if Acceptable(s, block, clock) then 1 else 0
  {
  }

  lemma PassedOnWeighs(me: nat, p: Peered, sender: nat, block: Block, top: nat, fanout: nat)
    requires |p.neighbours| <= fanout && block.index < top
    ensures var out := Broadcast(me, Except(p.neighbours, sender), NewBlock(block));
            TotalWeight(out) <= 3 * fanout && (forall k | 0 <= k < |out| :: MessageWithin(out[k].message, top))
  {
    WeightOfBroadcast(me, Except(p.neighbours, sender), NewBlock(block));
  }

  lemma NewBlockWeighs(me: nat, p: Peered, sender: nat, block: Block, clock: Clock, forgotten: set<string>, top: nat,
                       fanout: nat)
    requires p.state.chain != [] && Height(p) <= top && |p.neighbours| <= fanout && block.index < top
    ensures var (q, out) := OnNewBlock(me, p, sender, block, clock, forgotten);
            WeighsIn(p, Envelope(sender, me, NewBlock(block)), q, out, top, fanout)
  {
    WeightOfOne(Envelope(me, sender, RequestChain));
    AcceptedHeight(p.state, block, clock);
    PassedOnWeighs(me, p, sender, block, top, fanout);
  }

  lemma HandleWeighs(me: nat, p: Peered, e: Envelope, clock: Clock, forgotten: set<string>, top: nat, fanout: nat)
    requires p.state.chain != [] && Height(p) <= top && |p.neighbours| <= fanout && MessageWithin(e.message, top)
    ensures var (q, out) := Handle(me, p, e, clock, forgotten); WeighsIn(p, e, q, out, top, fanout)
  {
    match e.message
    case NewBlock(block) => NewBlockWeighs(me, p, e.source, block, clock, forgotten, top, fanout);
    case RequestChain => WeightOfOne(OnRequestChain(me, p, e.source)[0]);
    case ResponseChain(chain) =>
  }

  /** What is in flight, and what could still be announced. */
  function Potential(w: World, top: nat, fanout: nat): int {
    TotalWeight(w.inFlight) + Times(3 * fanout, Missing(w.nodes, top))
  }

  predicate IsDelivery(e: Event) {
    e.Deliver? || e.Lose?
  }

  function Times(factor: nat, n: int): int {
    factor * n
  }

  lemma AtLeastOnce(factor: nat, d: nat)
    requires d > 0
    ensures factor * d >= factor
  {
    assert factor * d == factor * (d - 1) + factor;
  }

  lemma Drop(factor: nat, more: int, less: int)
    requires less <= more
    ensures Times(factor, less) <= Times(factor, more)
    ensures less < more ==> Times(factor, less) + factor <= Times(factor, more)
  {
    var d := more - less;
    assert factor * more == factor * less + factor * d;
    if d > 0 {
      AtLeastOnce(factor, d);
    }
  }

  lemma LossLowersPotential(w: World, k: nat, top: nat, fanout: nat)
    requires WellFormed(w) && k < |w.inFlight| && Within(w, top, fanout)
    ensures Within(Happens(w, Lose(k)), top, fanout)
    ensures Potential(Happens(w, Lose(k)), top, fanout) < Potential(w, top, fanout)
  {
    hide Times, Missing, TotalWeight, MessageWithin;
    WeightOfRemoved(w.inFlight, k);
  }

  lemma WithinAfter(w: World, k: nat, i: nat, p: Peered, out: seq<Envelope>, top: nat, fanout: nat)
    requires Within(w, top, fanout) && k < |w.inFlight| && i < |w.nodes|
    requires WeighsIn(w.nodes[i], w.inFlight[k], p, out, top, fanout)
    ensures Within(World(w.nodes[i := p], Removed(w.inFlight, k) + out), top, fanout)
  {
    hide MessageWithin, TotalWeight;
  }

  lemma DeliveryLowersPotential(w: World, e: Event, top: nat, fanout: nat)
    requires WellFormed(w) && Possible(w, e) && IsDelivery(e) && Within(w, top, fanout)
    ensures Within(Happens(w, e), top, fanout)
    ensures Potential(Happens(w, e), top, fanout) < Potential(w, top, fanout)
  {
    if e.Deliver? {
      hide Times, Missing, TotalWeight, MessageWithin, Handle, Within;
      var envelope := w.inFlight[e.k];
      var i := envelope.target;
      var (p, out) := Handle(i, w.nodes[i], envelope, e.clock, e.forgotten);
      WithinNode(w, e.k, i, top, fanout);
      HandleWeighs(i, w.nodes[i], envelope, e.clock, e.forgotten, top, fanout);
      WithinAfter(w, e.k, i, p, out, top, fanout);
      WeightOfRemoved(w.inFlight, e.k);
      WeightOfConcat(Removed(w.inFlight, e.k), out);
      MissingUpdate(w.nodes, top, i, p);
      Drop(3 * fanout, Missing(w.nodes, top), Missing(w.nodes[i := p], top));
    } else {
      LossLowersPotential(w, e.k, top, fanout);
    }
  }

  lemma WithinNode(w: World, k: nat, i: nat, top: nat, fanout: nat)
    requires Within(w, top, fanout) && k < |w.inFlight| && i < |w.nodes|
    ensures Height(w.nodes[i]) <= top && |w.nodes[i].neighbours| <= fanout
    ensures MessageWithin(w.inFlight[k].message, top)
  {
  }

  /** Gossip ends: without new blocks being mined, from any state and in any order of arrivals and
      losses, the messages that are handled are at most the potential of the start: those in
      flight, weighted, and three for each connection and each block a node still lacks. */
  lemma {:induction false} GossipEnds(w: World, events: seq<Event>, top: nat, fanout: nat)
    requires WellFormed(w) && IsHistory(w, events) && Within(w, top, fanout)
    requires forall i | 0 <= i < |events| :: IsDelivery(events[i])
    ensures |events| <= Potential(w, top, fanout)
    ensures Within(After(w, events), top, fanout)
    decreases |events|
  {
    if events == [] {
      MissingNonNegative(w.nodes, top);
      assert Times(3 * fanout, Missing(w.nodes, top)) >= 0;
    } else {
      DeliveryLowersPotential(w, events[0], top, fanout);
      GossipEnds(Happens(w, events[0]), events[1..], top, fanout);
    }
  }

  lemma {:induction false} CeilingOfMessages(messages: seq<Envelope>) returns (top: nat)
    ensures forall k | 0 <= k < |messages| :: MessageWithin(messages[k].message, top)
    decreases |messages|
  {
    top := 0;
    if messages != [] {
      var last := messages[|messages| - 1].message;
      var before := CeilingOfMessages(messages[..|messages| - 1]);
      top := before + match last
                      case NewBlock(block) => block.index + 1
                      case RequestChain => 0
                      case ResponseChain(chain) => |chain|;
      forall k | 0 <= k < |messages| - 1
        ensures MessageWithin(messages[k].message, top)
      {
        assert MessageWithin(messages[..|messages| - 1][k].message, before);
      }
    }
  }

  lemma {:induction false} CeilingOfNodes(nodes: seq<Peered>) returns (top: nat, fanout: nat)
    ensures forall i | 0 <= i < |nodes| :: Height(nodes[i]) <= top && |nodes[i].neighbours| <= fanout
    decreases |nodes|
  {
    top, fanout := 0, 0;
    if nodes != [] {
      var last := nodes[|nodes| - 1];
      var height, most := CeilingOfNodes(nodes[..|nodes| - 1]);
      top, fanout := height + Height(last), most + |last.neighbours|;
      forall i | 0 <= i < |nodes| - 1
        ensures Height(nodes[i]) <= top && |nodes[i].neighbours| <= fanout
      {
        assert nodes[i] == nodes[..|nodes| - 1][i];
      }
    }
  }

  lemma CeilingIsUpward(m: Message, top: nat, higher: nat)
    requires MessageWithin(m, top) && top <= higher
    ensures MessageWithin(m, higher)
  {
  }

  /** From every state there is a number of deliveries and losses that no history exceeds. */
  lemma GossipAlwaysEnds(w: World) returns (bound: nat)
    requires WellFormed(w)
    ensures forall events: seq<Event> |
              IsHistory(w, events) && (forall i | 0 <= i < |events| :: IsDelivery(events[i])) ::
              |events| <= bound
  {
    var onTheWay := CeilingOfMessages(w.inFlight);
    var height, fanout := CeilingOfNodes(w.nodes);
    var top := onTheWay + height;
    forall k | 0 <= k < |w.inFlight|
      ensures MessageWithin(w.inFlight[k].message, top)
    {
      CeilingIsUpward(w.inFlight[k].message, onTheWay, top);
    }
    assert Within(w, top, fanout);
    GossipEnds(w, [], top, fanout);
    bound := Potential(w, top, fanout);
    forall events: seq<Event> | IsHistory(w, events) && (forall i | 0 <= i < |events| :: IsDelivery(events[i]))
      ensures |events| <= bound
    {
      GossipEnds(w, events, top, fanout);
    }
  }

  // ----- the longest chain wins -----

  /** Messages arrive or are lost, nodes ask for chains, transactions come in; nobody mines. */
  predicate IsExchange(e: Event) {
    !e.MineAt?
  }

  /** No block announcement is on its way, and no chain is longer than top. */
  predicate Settling(w: World, top: nat) {
    && (forall i | 0 <= i < |w.nodes| :: Height(w.nodes[i]) <= top)
    && (forall k | 0 <= k < |w.inFlight| ::
          !w.inFlight[k].message.NewBlock? && MessageWithin(w.inFlight[k].message, top))
  }

  /** All chains of that length, in a node or on their way, are this one. */
  predicate OnlyLongest(w: World, best: seq<Block>) {
    && (forall i | 0 <= i < |w.nodes| :: Height(w.nodes[i]) == |best| ==> w.nodes[i].state.chain == best)
    && (forall k | 0 <= k < |w.inFlight| ::
          var m := w.inFlight[k].message; m.ResponseChain? && |m.chain| == |best| ==> m.chain == best)
  }

  /** Somewhere along the history this node handles an answer that carries a chain of this length and
      that is valid at its clock. */
  predicate Hears(w: World, events: seq<Event>, i: nat, length: nat)
    requires WellFormed(w) && IsHistory(w, events)
    decreases |events|
  {
    events != [] &&
    (HearsNow(w, events[0], i, length) || Hears(Happens(w, events[0]), events[1..], i, length))
  }

  predicate HearsNow(w: World, e: Event, i: nat, length: nat)
    requires WellFormed(w) && Possible(w, e)
  {
    e.Deliver? && w.inFlight[e.k].target == i &&
    match w.inFlight[e.k].message
    case ResponseChain(chain) => |chain| == length && ValidUnder(w.nodes[i].state.engine, chain, e.clock.epoch)
    case _ => false
  }

  lemma HandleSettles(me: nat, p: Peered, e: Envelope, clock: Clock, forgotten: set<string>, top: nat)
    requires p.state.chain != [] && Height(p) <= top && !e.message.NewBlock? && MessageWithin(e.message, top)
    ensures var (q, out) := Handle(me, p, e, clock, forgotten);
      && Height(p) <= Height(q) <= top
      && (forall k | 0 <= k < |out| :: !out[k].message.NewBlock? && MessageWithin(out[k].message, top))
  {
  }

  lemma EventSettles(w: World, e: Event, top: nat)
    requires WellFormed(w) && Possible(w, e) && IsExchange(e) && Settling(w, top)
    ensures Settling(Happens(w, e), top)
    ensures forall i | 0 <= i < |w.nodes| :: Height(Happens(w, e).nodes[i]) >= Height(w.nodes[i])
    ensures forall i | 0 <= i < |w.nodes| :: HearsNow(w, e, i, top) ==> Height(Happens(w, e).nodes[i]) == top
  {
    if e.Deliver? {
      var envelope := w.inFlight[e.k];
      HandleSettles(envelope.target, w.nodes[envelope.target], envelope, e.clock, e.forgotten, top);
    }
  }

  /** A node that has processed a longest chain has a longest chain, and keeps it. */
  lemma {:induction false} LongestWins(w: World, events: seq<Event>, top: nat, i: nat)
    requires WellFormed(w) && IsHistory(w, events) && Settling(w, top) && i < |w.nodes|
    requires forall j | 0 <= j < |events| :: IsExchange(events[j])
    requires Height(w.nodes[i]) == top || Hears(w, events, i, top)
    ensures Settling(After(w, events), top) && Height(After(w, events).nodes[i]) == top
    decreases |events|
  {
    if events != [] {
      EventSettles(w, events[0], top);
      LongestWins(Happens(w, events[0]), events[1..], top, i);
    }
  }

  lemma HandleKeepsLongest(me: nat, p: Peered, e: Envelope, clock: Clock, forgotten: set<string>, best: seq<Block>)
    requires p.state.chain != [] && !e.message.NewBlock? && IsNormalChain(best) && Sound(p.state)
    requires Height(p) == |best| ==> p.state.chain == best
    requires e.message.ResponseChain? && |e.message.chain| == |best| ==> e.message.chain == best
    ensures var (q, out) := Handle(me, p, e, clock, forgotten);
      && Sound(q.state)
      && (Height(q) == |best| ==> q.state.chain == best)
      && (forall k | 0 <= k < |out| ::
            var m := out[k].message; m.ResponseChain? && |m.chain| == |best| ==> m.chain == best)
  {
    match e.message
    case RequestChain => ChainRoundTrip(best);
    case ResponseChain(chain) => ReplaceIsSound(p.state, chain, clock);
  }

  lemma EventKeepsLongest(w: World, e: Event, best: seq<Block>)
    requires WellFormed(w) && Possible(w, e) && IsExchange(e) && Settling(w, |best|)
    requires OnlyLongest(w, best) && IsNormalChain(best) && AllSound(w)
    ensures OnlyLongest(Happens(w, e), best) && AllSound(Happens(w, e))
  {
    hide Network.Handle, Machine.Sound;
    if e.Deliver? {
      var envelope := w.inFlight[e.k];
      var i := envelope.target;
      HandleKeepsLongest(i, w.nodes[i], envelope, e.clock, e.forgotten, best);
      forall j | 0 <= j < |w.nodes|
        ensures Sound(Happens(w, e).nodes[j].state)
      {
        assert Sound(w.nodes[j].state);
      }
    } else if e.Submit? {
      AddIsSound(w.nodes[e.at].state, e.tx, e.arrival);
      OneNodeSound(w, e.at, Happens(w, e).nodes[e.at], w.inFlight);
    }
  }

  /** Convergence: with no mining and no announcement in flight, whoever asks whom, when the longest chain is the only
      one of its length, every node that holds it at the start or processes it on the way ends with
      exactly that chain and with the account state rebuilt from it. */
  lemma {:induction false} NodesConverge(w: World, events: seq<Event>, best: seq<Block>, i: nat)
    requires WellFormed(w) && IsHistory(w, events) && Settling(w, |best|) && i < |w.nodes|
    requires forall j | 0 <= j < |events| :: IsExchange(events[j])
    requires OnlyLongest(w, best) && IsNormalChain(best) && AllSound(w)
    requires w.nodes[i].state.chain == best || Hears(w, events, i, |best|)
    ensures var s := After(w, events).nodes[i].state; s.chain == best && s.ledger == Rebuild(best)
    decreases |events|
  {
    if events == [] {
      assert Sound(w.nodes[i].state);
    } else {
      var w' := Happens(w, events[0]);
      EventSettles(w, events[0], |best|);
      EventKeepsLongest(w, events[0], best);
      assert Height(w'.nodes[i]) >= Height(w.nodes[i]);
      assert HearsNow(w, events[0], i, |best|) ==> Height(w'.nodes[i]) == |best|;
      NodesConverge(w', events[1..], best, i);
    }
  }

  /** When every node holds or hears that chain, all nodes end up equal in chain and accounts. */
  lemma AllNodesAgree(w: World, events: seq<Event>, best: seq<Block>)
    requires WellFormed(w) && IsHistory(w, events) && Settling(w, |best|)
    requires forall j | 0 <= j < |events| :: IsExchange(events[j])
    requires OnlyLongest(w, best) && IsNormalChain(best) && AllSound(w)
    requires forall i | 0 <= i < |w.nodes| :: w.nodes[i].state.chain == best || Hears(w, events, i, |best|)
    ensures forall i | 0 <= i < |w.nodes| ::
              var s := After(w, events).nodes[i].state; s.chain == best && s.ledger == Rebuild(best)
  {
    forall i | 0 <= i < |w.nodes|
      ensures var s := After(w, events).nodes[i].state; s.chain == best && s.ledger == Rebuild(best)
    {
      NodesConverge(w, events, best, i);
    }
  }
}
