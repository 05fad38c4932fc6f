/** The conversation between nodes, message by message: who announces, who asks, who answers, and that a
    node that lags behind catches up. */
module Exchange {
  import opened Primitives
  import opened Transactions
  import opened Blocks
  import opened ChainValidity
  import opened LedgerSpec
  import opened Machine
  import opened ChainStorage
  import opened Durability
  import opened Network
  import opened Gossip

  lemma LastOf(messages: seq<Envelope>, k: nat, last: Envelope)
    requires k < |messages|
    ensures var sent := Removed(messages, k) + [last];
            |sent| == |messages| && sent[|messages| - 1] == last
  {
  }

  // ----- announcements -----

  lemma BroadcastReaches(me: nat, targets: seq<nat>, m: Message, j: nat)
    ensures Envelope(me, j, m) in Broadcast(me, targets, m) <==> j in targets
  {
    var out := Broadcast(me, targets, m);
    if j in targets {
      var i :| 0 <= i < |targets| && targets[i] == j;
      assert out[i] == Envelope(me, j, m);
    }
  }

  lemma {:induction false} ExceptExactly(targets: seq<nat>, sender: nat, j: nat)
    ensures j in Except(targets, sender) <==> j in targets && j != sender
    decreases |targets|
  {
    if targets != [] {
      ExceptExactly(targets[..|targets| - 1], sender, j);
    }
  }

  /** A mined block whose hash is not remembered is announced to every connected peer; one whose hash is
      remembered to nobody. */
  lemma MinedIsAnnounced(w: World, i: nat, miner: string, clock: Clock, nonce: u64, forgotten: set<string>)
    requires WellFormed(w) && Possible(w, MineAt(i, miner, clock, nonce, forgotten))
    ensures var w' := Happens(w, MineAt(i, miner, clock, nonce, forgotten));
            var p, chain := w.nodes[i], w'.nodes[i].state.chain;
      && |chain| == |p.state.chain| + 1
      && var b := chain[|chain| - 1];
         if b.hash in p.seen then w'.inFlight == w.inFlight
         else forall j | j in p.neighbours ::
                Envelope(i, j, NewBlock(BlockFromJson(BlockToJson(b)))) in w'.inFlight
  {
    hide Sealed, Template, ApplyTxs, BlockToJson, BlockFromJson, Broadcast, Solves;
    var w' := Happens(w, MineAt(i, miner, clock, nonce, forgotten));
    var p := w.nodes[i];
    MinedTransactions(p.state, miner, clock, nonce);
    var b := Sealed(Template(p.state, miner, clock), nonce);
    if b.hash !in p.seen {
      forall j | j in p.neighbours
        ensures Envelope(i, j, NewBlock(BlockFromJson(BlockToJson(b)))) in w'.inFlight
      {
        BroadcastReaches(i, p.neighbours, NewBlock(BlockFromJson(BlockToJson(b))), j);
      }
    }
  }

  /** Over a normal pool the announced block is the mined one. */
  lemma AnnouncedAsMined(s: NodeState, miner: string, clock: Clock, nonce: u64)
    requires s.chain != [] && IsNormalPool(s.mempool)
    ensures var b := Sealed(Template(s, miner, clock), nonce); BlockFromJson(BlockToJson(b)) == b
  {
    hide Sealed, Template, BlockToJson, BlockFromJson;
    MinedBlockIsNormal(s, miner, clock, nonce);
    BlockRoundTrip(Sealed(Template(s, miner, clock), nonce));
  }

  /** An announcement arrives. */
  predicate Announced(w: World, k: nat, sender: nat, i: nat, b: Block) {
    k < |w.inFlight| && w.inFlight[k] == Envelope(sender, i, NewBlock(b))
  }

  /** A block seen before changes nothing and is not passed on. */
  lemma SeenIsIgnored(w: World, k: nat, sender: nat, i: nat, b: Block, clock: Clock, forgotten: set<string>)
    requires WellFormed(w) && Announced(w, k, sender, i, b) && b.hash in w.nodes[i].seen
    ensures var w' := Happens(w, Deliver(k, clock, forgotten));
            w'.nodes == w.nodes && w'.inFlight == Removed(w.inFlight, k)
  {
    hide Acceptable, AfterAccept;
  }

  /** An unseen block is remembered, unless it is among what is dropped. */
  lemma UnseenIsRemembered(w: World, k: nat, sender: nat, i: nat, b: Block, clock: Clock, forgotten: set<string>)
    requires WellFormed(w) && Announced(w, k, sender, i, b) && b.hash !in w.nodes[i].seen
    ensures var seen := Happens(w, Deliver(k, clock, forgotten)).nodes[i].seen;
            forall h :: h in seen <==> (h in w.nodes[i].seen || h == b.hash) && h !in forgotten
  {
    hide Acceptable, AfterAccept;
  }

  /** An unseen block that the node takes is passed on to every connected peer except the sender, and to
      nobody else. */
  lemma TakenIsPassedOn(w: World, k: nat, sender: nat, i: nat, b: Block, clock: Clock, forgotten: set<string>, j: nat)
    requires WellFormed(w) && Announced(w, k, sender, i, b) && b.hash !in w.nodes[i].seen
    requires Acceptable(w.nodes[i].state, b, clock)
    ensures var w' := Happens(w, Deliver(k, clock, forgotten));
      && w'.nodes[i].state.chain == w.nodes[i].state.chain + [b]
      && |w'.inFlight| >= |w.inFlight| - 1
      && (Envelope(i, j, NewBlock(b)) in w'.inFlight[|w.inFlight| - 1..] <==>
            j in w.nodes[i].neighbours && j != sender)
  {
    hide ValidUnder, ApplyTxs, Without, Broadcast, Except;
    var w', rest := Happens(w, Deliver(k, clock, forgotten)), Removed(w.inFlight, k);
    var passedOn := Broadcast(i, Except(w.nodes[i].neighbours, sender), NewBlock(b));
    assert w'.inFlight == rest + passedOn;
    assert w'.inFlight[|w.inFlight| - 1..] == passedOn;
    BroadcastReaches(i, Except(w.nodes[i].neighbours, sender), NewBlock(b), j);
    ExceptExactly(w.nodes[i].neighbours, sender, j);
  }

  // ----- asking and answering -----

  /** An unseen block that lies ahead: beyond the next position, or next but not on this tip. */
  predicate LiesAhead(b: Block, chain: seq<Block>)
    requires chain != []
  {
    b.index > |chain| || (b.index == |chain| && b.previousHash != chain[|chain| - 1].hash)
  }

  /** Such a block makes the node ask its sender for the chain; otherwise nothing changes in its ledger. */
  lemma AheadIsAsked(w: World, k: nat, sender: nat, i: nat, b: Block, clock: Clock, forgotten: set<string>)
    requires WellFormed(w) && Announced(w, k, sender, i, b) && b.hash !in w.nodes[i].seen
    requires LiesAhead(b, w.nodes[i].state.chain)
    ensures var w' := Happens(w, Deliver(k, clock, forgotten));
      && w'.nodes == w.nodes[i := w'.nodes[i]] && w'.nodes[i].state == w.nodes[i].state
      && w'.nodes[i].neighbours == w.nodes[i].neighbours
      && |w'.inFlight| == |w.inFlight| && w'.inFlight[|w.inFlight| - 1] == Envelope(i, sender, RequestChain)
  {
    hide Acceptable, AfterAccept;
    LastOf(w.inFlight, k, Envelope(i, sender, RequestChain));
  }

  /** An unseen block that neither continues the chain nor lies ahead is met with silence. */
  lemma StaleIsSilent(w: World, k: nat, sender: nat, i: nat, b: Block, clock: Clock, forgotten: set<string>)
    requires WellFormed(w) && Announced(w, k, sender, i, b) && b.index < |w.nodes[i].state.chain|
    ensures var w' := Happens(w, Deliver(k, clock, forgotten));
            w'.inFlight == Removed(w.inFlight, k) && w'.nodes[i].state == w.nodes[i].state
  {
    hide Acceptable, AfterAccept;
    assert Removed(w.inFlight, k) + [] == Removed(w.inFlight, k);
  }

  /** A request is answered to the asker with the answerer's whole chain, as it reads after encoding and
      decoding; a chain of normal transactions is unchanged by that. */
  lemma RequestIsAnswered(w: World, k: nat, i: nat, j: nat, clock: Clock, forgotten: set<string>)
    requires WellFormed(w) && k < |w.inFlight| && w.inFlight[k] == Envelope(i, j, RequestChain)
    requires IsNormalChain(w.nodes[j].state.chain)
    ensures var w' := Happens(w, Deliver(k, clock, forgotten));
      && w'.nodes == w.nodes && |w'.inFlight| == |w.inFlight|
      && w'.inFlight[|w.inFlight| - 1] == Envelope(j, i, ResponseChain(w.nodes[j].state.chain))
  {
    hide Encode, Decode;
    ChainRoundTrip(w.nodes[j].state.chain);
    LastOf(w.inFlight, k, Envelope(j, i, ResponseChain(w.nodes[j].state.chain)));
    assert w.nodes[j := w.nodes[j]] == w.nodes;
  }

  /** An answer that is valid at the clock leaves the asker at least as long as the answered chain, and
      with exactly that chain where it was shorter; nobody else changes. */
  lemma AnswerIsHeard(w: World, k: nat, i: nat, j: nat, chain: seq<Block>, clock: Clock, forgotten: set<string>)
    requires WellFormed(w) && k < |w.inFlight| && w.inFlight[k] == Envelope(j, i, ResponseChain(chain))
    requires ValidUnder(w.nodes[i].state.engine, chain, clock.epoch)
    ensures var e, q := Deliver(k, clock, forgotten), Happens(w, Deliver(k, clock, forgotten)).nodes[i];
      && HearsNow(w, e, i, |chain|)
      && Height(q) >= |chain| && Height(q) >= Height(w.nodes[i])
      && q.state.chain == (if |chain| > Height(w.nodes[i]) then chain else w.nodes[i].state.chain)
      && q.state.engine == w.nodes[i].state.engine && q.neighbours == w.nodes[i].neighbours
      && Happens(w, e).nodes == w.nodes[i := q]
  {
    hide ValidUnder, Rebuild, Without;
  }

  /** A message stays on its way until it arrives or is lost, whatever else happens. */
  lemma StaysInFlight(w: World, k: nat, e: Event)
    requires WellFormed(w) && Possible(w, e) && k < |w.inFlight|
    requires e != Lose(k) && !(e.Deliver? && e.k == k)
    ensures w.inFlight[k] in Happens(w, e).inFlight
  {
    hide Handle, OnMine, Broadcast;
    if IsDelivery(e) {
      var rest := Removed(w.inFlight, e.k);
      assert w.inFlight[k] in rest by {
        if k < e.k {
          assert rest[k] == w.inFlight[k];
        } else {
          assert rest[k - 1] == w.inFlight[k];
        }
      }
    }
  }

  lemma OneEvent(w: World, e: Event)
    requires WellFormed(w) && Possible(w, e)
    ensures IsHistory(w, [e]) && After(w, [e]) == Happens(w, e)
    ensures forall i: nat, length: nat :: HearsNow(w, e, i, length) ==> Hears(w, [e], i, length)
  {
    hide Happens, Possible, HearsNow;
    assert [e][1..] == [];
  }

  lemma EventThen(w: World, e: Event, rest: seq<Event>)
    requires WellFormed(w) && Possible(w, e) && IsHistory(Happens(w, e), rest)
    ensures IsHistory(w, [e] + rest) && After(w, [e] + rest) == After(Happens(w, e), rest)
    ensures forall i: nat, length: nat :: Hears(Happens(w, e), rest, i, length) ==> Hears(w, [e] + rest, i, length)
  {
    hide Happens, Possible, HearsNow;
    assert ([e] + rest)[1..] == rest;
  }

  lemma ThreeEvents(w: World, a: Event, b: Event, c: Event)
    requires WellFormed(w) && Possible(w, a) && Possible(Happens(w, a), b) && Possible(Happens(Happens(w, a), b), c)
    ensures IsHistory(w, [a, b, c]) && After(w, [a, b, c]) == Happens(Happens(Happens(w, a), b), c)
    ensures forall i: nat, length: nat ::
              HearsNow(Happens(Happens(w, a), b), c, i, length) ==> Hears(w, [a, b, c], i, length)
  {
    hide Happens, Possible, HearsNow, Hears, IsHistory, After;
    OneEvent(Happens(Happens(w, a), b), c);
    EventThen(Happens(w, a), b, [c]);
    EventThen(w, a, [b] + [c]);
    assert [a] + ([b] + [c]) == [a, b, c];
  }

  /** A node that hears of a block ahead catches up in three deliveries: the announcement, its request,
      and the answer. */
  lemma AheadCatchesUp(w: World, k: nat, j: nat, i: nat, b: Block, clock: Clock, forgotten: set<string>)
    returns (events: seq<Event>)
    requires WellFormed(w) && Announced(w, k, j, i, b) && b.hash !in w.nodes[i].seen
    requires LiesAhead(b, w.nodes[i].state.chain) && IsNormalChain(w.nodes[j].state.chain)
    requires i != j && ValidUnder(w.nodes[i].state.engine, w.nodes[j].state.chain, clock.epoch)
    ensures |events| == 3 && (forall n | 0 <= n < 3 :: events[n].Deliver?) && IsHistory(w, events)
    ensures Hears(w, events, i, Height(w.nodes[j]))
    ensures Height(After(w, events).nodes[i]) >= Height(w.nodes[j])
    ensures Height(w.nodes[j]) > Height(w.nodes[i]) ==>
              After(w, events).nodes[i].state.chain == w.nodes[j].state.chain
  {
    hide Happens, LiesAhead, IsNormalChain, ValidUnder, HearsNow, Hears, IsHistory, After;
    var last, chain := |w.inFlight| - 1, w.nodes[j].state.chain;
    var first, again := Deliver(k, clock, forgotten), Deliver(last, clock, forgotten);
    AheadIsAsked(w, k, j, i, b, clock, forgotten);
    var w1 := Happens(w, first);
    RequestIsAnswered(w1, last, i, j, clock, forgotten);
    var w2 := Happens(w1, again);
    AnswerIsHeard(w2, last, i, j, chain, clock, forgotten);
    ThreeEvents(w, first, again, again);
    events := [first, again, again];
  }

  // ----- everyone catches up -----

  lemma {:induction false} HistoryConcat(w: World, a: seq<Event>, b: seq<Event>)
    requires WellFormed(w) && IsHistory(w, a) && IsHistory(After(w, a), b)
    ensures IsHistory(w, a + b) && After(w, a + b) == After(After(w, a), b)
    decreases |a|
  {
    hide Happens, Possible;
    if a == [] {
      assert a + b == b;
    } else {
      assert (a + b)[1..] == a[1..] + b;
      HistoryConcat(Happens(w, a[0]), a[1..], b);
    }
  }

  /** One node holds a normal chain that is longest, and the only one so long; every other is connected to
      it, and its engine accepts that chain at this clock. */
  predicate Ready(w: World, holder: nat, best: seq<Block>, clock: Clock) {
    && holder < |w.nodes| && w.nodes[holder].state.chain == best && IsNormalChain(best)
    && forall i | 0 <= i < |w.nodes| ::
         && Height(w.nodes[i]) <= |best| && (Height(w.nodes[i]) == |best| ==> w.nodes[i].state.chain == best)
         && (i != holder ==> holder in w.nodes[i].neighbours)
         && ValidUnder(w.nodes[i].state.engine, best, clock.epoch)
  }

  lemma AskReaches(w: World, i: nat, j: nat) returns (k: nat)
    requires WellFormed(w) && i < |w.nodes| && j in w.nodes[i].neighbours
    ensures var w' := Happens(w, Ask(i));
            w'.nodes == w.nodes && k < |w'.inFlight| && w'.inFlight[k] == Envelope(i, j, RequestChain)
  {
    hide Broadcast;
    var w' := Happens(w, Ask(i));
    BroadcastReaches(i, w.nodes[i].neighbours, RequestChain, j);
    assert Envelope(i, j, RequestChain) in w'.inFlight;
    k :| 0 <= k < |w'.inFlight| && w'.inFlight[k] == Envelope(i, j, RequestChain);
  }

  /** A node that asks the holder gets there in three events. */
  lemma AskerCatchesUp(w: World, i: nat, holder: nat, best: seq<Block>, clock: Clock) returns (events: seq<Event>)
    requires WellFormed(w) && Ready(w, holder, best, clock) && i < |w.nodes| && i != holder
    ensures IsHistory(w, events) && (forall n | 0 <= n < |events| :: IsExchange(events[n]))
    ensures var w' := After(w, events);
      && Ready(w', holder, best, clock) && w'.nodes[i].state.chain == best
      && w'.nodes == w.nodes[i := w'.nodes[i]]
  {
    hide Happens, IsNormalChain, ValidUnder, HearsNow, IsHistory, After;
    var k := AskReaches(w, i, holder);
    var w1 := Happens(w, Ask(i));
    var last := |w1.inFlight| - 1;
    RequestIsAnswered(w1, k, i, holder, clock, {});
    var w2 := Happens(w1, Deliver(k, clock, {}));
    AnswerIsHeard(w2, last, i, holder, best, clock, {});
    ThreeEvents(w, Ask(i), Deliver(k, clock, {}), Deliver(last, clock, {}));
    events := [Ask(i), Deliver(k, clock, {}), Deliver(last, clock, {})];
  }

  lemma {:induction false} FirstNodesCatchUp(w: World, holder: nat, best: seq<Block>, clock: Clock, n: nat)
    returns (events: seq<Event>)
    requires WellFormed(w) && Ready(w, holder, best, clock) && n <= |w.nodes|
    ensures IsHistory(w, events) && (forall m | 0 <= m < |events| :: IsExchange(events[m]))
    ensures var w' := After(w, events);
            Ready(w', holder, best, clock) && forall i | 0 <= i < n :: w'.nodes[i].state.chain == best
    decreases n
  {
    hide Happens, Possible, IsNormalChain, ValidUnder;
    events := [];
    if n > 0 {
      events := FirstNodesCatchUp(w, holder, best, clock, n - 1);
      if n - 1 != holder {
        var w' := After(w, events);
        var more := AskerCatchesUp(w', n - 1, holder, best, clock);
        HistoryConcat(w, events, more);
        events := events + more;
      }
    }
  }

  /** Convergence can always be reached: without mining there is a history of asking and answering after
      which every node holds the longest chain and the accounts rebuilt from it. */
  lemma EveryoneCatchesUp(w: World, holder: nat, best: seq<Block>, clock: Clock) returns (events: seq<Event>)
    requires WellFormed(w) && Ready(w, holder, best, clock) && AllSound(w)
    ensures IsHistory(w, events) && (forall m | 0 <= m < |events| :: IsExchange(events[m]))
    ensures forall i | 0 <= i < |w.nodes| ::
              var s := After(w, events).nodes[i].state; s.chain == best && s.ledger == Rebuild(best)
  {
    hide Happens, Possible, Ready, Rebuild, ValidChain, PoolSound;
    events := FirstNodesCatchUp(w, holder, best, clock, |w.nodes|);
    HistoryIsSound(w, events);
    forall i | 0 <= i < |w.nodes|
      ensures var s := After(w, events).nodes[i].state; s.chain == best && s.ledger == Rebuild(best)
    {
      assert Sound(After(w, events).nodes[i].state);
    }
  }
}
