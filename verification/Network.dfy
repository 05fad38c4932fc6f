/** Nodes that exchange blocks and chains: gossip ends, and nodes agree on the longest chain. */
module Network {
  import opened Primitives
  import opened Transactions
  import opened Blocks
  import opened ChainValidity
  import opened LedgerSpec
  import opened Machine
  import opened ChainStorage

  datatype Message =
    | NewBlock(block: Block)
    | RequestChain
    | ResponseChain(chain: seq<Block>)

  datatype Envelope = Envelope(source: nat, target: nat, message: Message)

  /** A node with its connections, the block hashes it remembers, and the heights it announced. */
  datatype Peered = Peered(
    state: NodeState,
    neighbours: seq<nat>,
    seen: set<string>,
    announced: seq<nat>)

  // ----- the message handlers -----

  function Broadcast(me: nat, targets: seq<nat>, message: Message): (out: seq<Envelope>)
    ensures |out| == |targets|
  {
    seq(|targets|, i requires 0 <= i < |targets| => Envelope(me, targets[i], message))
  }

  function Except(targets: seq<nat>, sender: nat): (rest: seq<nat>)
    ensures |rest| <= |targets|
  {
    if targets == [] then []
    else Except(targets[..|targets| - 1], sender)
         + if targets[|targets| - 1] == sender then [] else [targets[|targets| - 1]]
  }

  /** The remembered hashes after one more; the set is bounded, and which entries it drops does not
      matter here. */
  function Remembered(seen: set<string>, hash: string, forgotten: set<string>): set<string> {
    seen + {hash} - forgotten
  }

  /** A block that was not seen before is accepted if it continues the chain, and then passed on; if
      it lies ahead, the sender is asked for its chain. */
  function OnNewBlock(me: nat, p: Peered, sender: nat, block: Block, clock: Clock, forgotten: set<string>)
    : (Peered, seq<Envelope>)
    requires p.state.chain != []
  {
    if block.hash in p.seen then (p, [])
    else
      var q := p.(seen := Remembered(p.seen, block.hash, forgotten));
      var chain := p.state.chain;
      if block.index == |chain| && block.previousHash == chain[|chain| - 1].hash then
        var r := q.(state := AfterAccept(p.state, block, clock));
        if Acceptable(p.state, block, clock)
        then (r.(announced := p.announced + [block.index]),
              Broadcast(me, Except(p.neighbours, sender), NewBlock(block)))
        else (r, [])
      else if block.index >= |chain| then (q, [Envelope(me, sender, RequestChain)])
      else (q, [])
  }

  /** The answer carries the chain as it arrives, encoded and decoded. */
  function OnRequestChain(me: nat, p: Peered, sender: nat): seq<Envelope> {
    [Envelope(me, sender, ResponseChain(Decode(Encode(p.state.chain))))]
  }

  function OnResponseChain(p: Peered, chain: seq<Block>, clock: Clock): Peered {
    p.(state := AfterReplace(p.state, chain, clock))
  }

  function Handle(me: nat, p: Peered, e: Envelope, clock: Clock, forgotten: set<string>): (Peered, seq<Envelope>)
    requires p.state.chain != []
  {
    match e.message
    case NewBlock(block) => OnNewBlock(me, p, e.source, block, clock, forgotten)
    case RequestChain => (p, OnRequestChain(me, p, e.source))
    case ResponseChain(chain) => (OnResponseChain(p, chain, clock), [])
  }

  /** Mining announces the new block to everyone, unless its hash is remembered. */
  function OnMine(me: nat, p: Peered, miner: string, clock: Clock, nonce: u64, forgotten: set<string>)
    : (Peered, seq<Envelope>)
    requires p.state.chain != []
  {
    var q := p.(state := AfterMine(p.state, miner, clock, nonce));
    var block := Sealed(Template(p.state, miner, clock), nonce);
    if block.hash in p.seen then (q, [])
    else (q.(seen := Remembered(p.seen, block.hash, forgotten), announced := p.announced + [block.index]),
          Broadcast(me, p.neighbours, NewBlock(BlockFromJson(BlockToJson(block)))))
  }

  /** A node may ask all its neighbours for their chains at any time. */
  function OnAsk(me: nat, p: Peered): seq<Envelope> {
    Broadcast(me, p.neighbours, RequestChain)
  }

  // ----- the network -----

  datatype World = World(nodes: seq<Peered>, inFlight: seq<Envelope>)

  predicate WellFormed(w: World) {
    && (forall i | 0 <= i < |w.nodes| :: w.nodes[i].state.chain != [])
    && (forall i | 0 <= i < |w.nodes| :: AllBelow(w.nodes[i].neighbours, |w.nodes|))
    && Addressed(w.inFlight, |w.nodes|)
  }

  /** Messages arrive in any order, or are lost; rate limits and duplicate suppression lose them
      too. */
  datatype Event =
    | Deliver(k: nat, clock: Clock, forgotten: set<string>)
    | Lose(k: nat)
    | MineAt(i: nat, miner: string, clock: Clock, nonce: u64, forgottenByMiner: set<string>)
    | Ask(asking: nat)
    | Submit(at: nat, tx: Transaction, arrival: Clock)

  predicate Possible(w: World, e: Event) {
    match e
    case Deliver(k, _, _) => k < |w.inFlight|
    case Lose(k) => k < |w.inFlight|
    case MineAt(i, miner, clock, nonce, _) =>
      i < |w.nodes| && w.nodes[i].state.chain != [] && Solves(Template(w.nodes[i].state, miner, clock), nonce)
    case Ask(i) => i < |w.nodes|
    case Submit(i, _, _) => i < |w.nodes|
  }

  function Removed<T>(s: seq<T>, k: nat): seq<T>
    requires k < |s|
  {
    s[..k] + s[k + 1..]
  }

  lemma {:induction false} ExceptMembers(targets: seq<nat>, sender: nat)
    ensures forall j :: j in Except(targets, sender) ==> j in targets
    decreases |targets|
  {
    if targets != [] {
      ExceptMembers(targets[..|targets| - 1], sender);
    }
  }

  predicate Addressed(messages: seq<Envelope>, bound: nat) {
    forall k | 0 <= k < |messages| :: messages[k].source < bound && messages[k].target < bound
  }

  predicate AllBelow(targets: seq<nat>, bound: nat) {
    forall j | j in targets :: j < bound
  }

  lemma BroadcastIsAddressed(me: nat, targets: seq<nat>, m: Message, bound: nat)
    requires me < bound && AllBelow(targets, bound)
    ensures Addressed(Broadcast(me, targets, m), bound)
  {
    forall k | 0 <= k < |targets|
      ensures targets[k] < bound
    {
      assert targets[k] in targets;
    }
  }

  lemma NewBlockKeepsForm(me: nat, p: Peered, sender: nat, block: Block, clock: Clock, forgotten: set<string>,
                          bound: nat)
    requires p.state.chain != [] && me < bound && sender < bound && AllBelow(p.neighbours, bound)
    ensures var (q, out) := OnNewBlock(me, p, sender, block, clock, forgotten);
            q.state.chain != [] && q.neighbours == p.neighbours && Addressed(out, bound)
  {
    hide ChainValidity.ValidUnder, LedgerSpec.ApplyTxs, Machine.Without;
    var passedOn := Except(p.neighbours, sender);
    ExceptMembers(p.neighbours, sender);
    BroadcastIsAddressed(me, passedOn, NewBlock(block), bound);
  }

  predicate KeepsForm(p: Peered, handled: (Peered, seq<Envelope>), bound: nat) {
    handled.0.state.chain != [] && handled.0.neighbours == p.neighbours && Addressed(handled.1, bound)
  }

  lemma HandleKeepsForm(me: nat, p: Peered, e: Envelope, clock: Clock, forgotten: set<string>, bound: nat)
    requires p.state.chain != [] && me < bound && e.source < bound && AllBelow(p.neighbours, bound)
    ensures KeepsForm(p, Handle(me, p, e, clock, forgotten), bound)
  {
    match e.message
    case NewBlock(block) => NewBlockKeepsForm(me, p, e.source, block, clock, forgotten, bound);
    case RequestChain =>
    case ResponseChain(chain) =>
  }

  lemma MineKeepsForm(me: nat, p: Peered, miner: string, clock: Clock, nonce: u64, forgotten: set<string>, bound: nat)
    requires p.state.chain != [] && me < bound && AllBelow(p.neighbours, bound)
    ensures KeepsForm(p, OnMine(me, p, miner, clock, nonce, forgotten), bound)
  {
    var block := Sealed(Template(p.state, miner, clock), nonce);
    BroadcastIsAddressed(me, p.neighbours, NewBlock(BlockFromJson(BlockToJson(block))), bound);
  }

  /** The network with one node changed and some messages sent on top of those still in flight. */
  function Updated(w: World, i: nat, handled: (Peered, seq<Envelope>), rest: seq<Envelope>): (w': World)
    requires WellFormed(w) && i < |w.nodes| && Addressed(rest, |w.nodes|)
    requires KeepsForm(w.nodes[i], handled, |w.nodes|)
    ensures WellFormed(w') && |w'.nodes| == |w.nodes|
  {
    World(w.nodes[i := handled.0], rest + handled.1)
  }

  function Delivered(w: World, k: nat, clock: Clock, forgotten: set<string>): (w': World)
    requires WellFormed(w) && k < |w.inFlight|
    ensures WellFormed(w') && |w'.nodes| == |w.nodes|
  {
    var envelope := w.inFlight[k];
    var node := w.nodes[envelope.target];
    HandleKeepsForm(envelope.target, node, envelope, clock, forgotten, |w.nodes|);
    Updated(w, envelope.target, Handle(envelope.target, node, envelope, clock, forgotten), Removed(w.inFlight, k))
  }

  function Mined(w: World, i: nat, miner: string, clock: Clock, nonce: u64, forgotten: set<string>): (w': World)
    requires WellFormed(w) && i < |w.nodes|
    ensures WellFormed(w') && |w'.nodes| == |w.nodes|
  {
    MineKeepsForm(i, w.nodes[i], miner, clock, nonce, forgotten, |w.nodes|);
    Updated(w, i, OnMine(i, w.nodes[i], miner, clock, nonce, forgotten), w.inFlight)
  }

  function Asked(w: World, i: nat): (w': World)
    requires WellFormed(w) && i < |w.nodes|
    ensures WellFormed(w') && |w'.nodes| == |w.nodes|
  {
    BroadcastIsAddressed(i, w.nodes[i].neighbours, RequestChain, |w.nodes|);
    World(w.nodes, w.inFlight + OnAsk(i, w.nodes[i]))
  }

  /** A transaction reaches a node, from a wallet or from another node. */
  function Submitted(w: World, i: nat, tx: Transaction, clock: Clock): (w': World)
    requires WellFormed(w) && i < |w.nodes|
    ensures WellFormed(w') && |w'.nodes| == |w.nodes|
  {
    var node := w.nodes[i];
    w.(nodes := w.nodes[i := node.(state := AfterAdd(node.state, tx, clock))])
  }

  function Happens(w: World, e: Event): (w': World)
    requires WellFormed(w) && Possible(w, e)
    ensures WellFormed(w') && |w'.nodes| == |w.nodes|
  {
    match e
    case Deliver(k, clock, forgotten) => Delivered(w, k, clock, forgotten)
    case Lose(k) => w.(inFlight := Removed(w.inFlight, k))
    case MineAt(i, miner, clock, nonce, forgotten) => Mined(w, i, miner, clock, nonce, forgotten)
    case Ask(i) => Asked(w, i)
    case Submit(i, tx, clock) => Submitted(w, i, tx, clock)
  }

  predicate IsHistory(w: World, events: seq<Event>)
    requires WellFormed(w)
    decreases |events|
  {
    events == [] || (Possible(w, events[0]) && IsHistory(Happens(w, events[0]), events[1..]))
  }

  function After(w: World, events: seq<Event>): (w': World)
    requires WellFormed(w) && IsHistory(w, events)
    ensures WellFormed(w') && |w'.nodes| == |w.nodes|
    decreases |events|
  {
    if events == [] then w else After(Happens(w, events[0]), events[1..])
  }
}
