/** A node: its blockchain, its connections and its memory of block hashes, changed in place by its
    message handlers. Each handler is proved against the network's step. */
module Node {
  import opened Primitives
  import opened Transactions
  import opened Blocks
  import opened LedgerSpec
  import opened Machine
  import opened AtomicFiles
  import opened ChainStorage
  import opened Core
  import opened Network

  const MAX_SEEN := 1000

  class Node {
    const me: nat
    const blockchain: Blockchain
    var peers: seq<nat>
    /** Those of the peers whose connection is up. */
    var connected: set<nat>
    var seenBlockHashes: set<string>
    /** What the node has sent, in order. */
    var outbox: seq<Envelope>
    ghost var announced: seq<nat>

    ghost function View(): Peered
      reads this, blockchain, blockchain.stateManager
    {
      Peered(blockchain.View(), Connected(peers, connected), seenBlockHashes, announced)
    }

    ghost predicate Valid()
      reads this, blockchain, blockchain.stateManager
    {
      blockchain.Valid()
    }

    constructor (me: nat, blockchain: Blockchain, peers: seq<nat>, connected: set<nat>)
      requires blockchain.Valid()
      ensures Valid() && this.me == me && this.blockchain == blockchain && outbox == []
      ensures View() == Peered(blockchain.View(), Connected(peers, connected), {}, [])
    {
      this.me, this.blockchain, this.peers, this.connected := me, blockchain, peers, connected;
      seenBlockHashes, outbox, announced := {}, [], [];
    }

    /** Remember a hash; while there are too many, drop some. */
    method Remember(hash: string) returns (ghost forgotten: set<string>)
      modifies this`seenBlockHashes
      ensures seenBlockHashes == Remembered(old(seenBlockHashes), hash, forgotten)
      ensures |seenBlockHashes| <= MAX_SEEN
    {
      forgotten := {};
      seenBlockHashes := seenBlockHashes + {hash};
      while |seenBlockHashes| > MAX_SEEN
        invariant seenBlockHashes == old(seenBlockHashes) + {hash} - forgotten
        decreases |seenBlockHashes|
      {
        var dropped :| dropped in seenBlockHashes;
        seenBlockHashes := seenBlockHashes - {dropped};
        forgotten := forgotten + {dropped};
      }
    }

    method Send(target: nat, message: Message)
      modifies this`outbox
      ensures outbox == old(outbox) + [Envelope(me, target, message)]
    {
      outbox := outbox + [Envelope(me, target, message)];
    }

    /** Send to every peer that is connected except, possibly, one. */
    method BroadcastTo(message: Message, except: Option<nat>)
      modifies this`outbox
      ensures outbox == old(outbox) + Broadcast(me, Targets(Connected(peers, connected), except), message)
    {
      ghost var targets: seq<nat> := [];
      ghost var before := outbox;
      NothingBroadcast(me, message, before, connected, except);
      hide Connected, Targets, Broadcast;
      for i := 0 to |peers|
        invariant targets == Targets(Connected(peers[..i], connected), except)
        invariant outbox == before + Broadcast(me, targets, message)
      {
        assert peers[..i + 1] == peers[..i] + [peers[i]];
        ConnectedWithOneMore(peers[..i], peers[i], connected, except);
        if except != Some(peers[i]) && peers[i] in connected {
          BroadcastOneMore(me, targets, peers[i], message, before);
          targets := targets + [peers[i]];
          Send(peers[i], message);
        }
      }
      assert peers[..|peers|] == peers;
    }

    /** Try to append a block that continues the chain, and pass it on if that succeeds. */
    method TakeBlock(sender: nat, block: Block, clock: Clock, io: WriteIO<Content>)
      requires Valid()
      modifies this`announced, this`outbox, blockchain, blockchain.stateManager, blockchain.Disk()
      ensures Valid() && blockchain.View() == AfterAccept(old(blockchain.View()), block, clock)
      ensures if Acceptable(old(blockchain.View()), block, clock)
              then && announced == old(announced) + [block.index]
                   && outbox == old(outbox)
                                + Broadcast(me, Except(Connected(peers, connected), sender), NewBlock(block))
              else announced == old(announced) && outbox == old(outbox)
    {
      hide Machine.Acceptable, Machine.AfterAccept, Connected, Except, Broadcast, AfterAppend;
      var accepted := blockchain.AcceptBlock(block, clock, io);
      if accepted {
        announced := announced + [block.index];
        BroadcastTo(NewBlock(block), Some(sender));
      }
    }

    method HandleNewBlock(sender: nat, block: Block, clock: Clock, io: WriteIO<Content>)
      returns (ghost forgotten: set<string>)
      requires Valid()
      modifies this, blockchain, blockchain.stateManager, blockchain.Disk()
      ensures Valid()
      ensures var handled := OnNewBlock(me, old(View()), sender, block, clock, forgotten);
              View() == handled.0 && outbox == old(outbox) + handled.1
    {
      hide Machine.Acceptable, Machine.AfterAccept;
      forgotten := {};
      if block.hash in seenBlockHashes {
        return;
      }
      forgotten := Remember(block.hash);
      var chain := blockchain.chain;
      if block.index == |chain| && block.previousHash == chain[|chain| - 1].hash {
        TakeBlock(sender, block, clock, io);
      } else if block.index >= |chain| {
        Send(sender, RequestChain);
      }
    }

    method HandleRequestChain(sender: nat)
      modifies this`outbox
      ensures outbox == old(outbox) + OnRequestChain(me, View(), sender)
    {
      Send(sender, ResponseChain(Decode(Encode(blockchain.chain))));
    }

    method HandleResponseChain(chain: seq<Block>, clock: Clock, io: WriteIO<Content>)
      requires Valid()
      modifies blockchain, blockchain.stateManager, blockchain.Disk()
      ensures Valid() && View() == OnResponseChain(old(View()), chain, clock)
    {
      var replaced := blockchain.ReplaceChain(chain, clock, io);
    }

    /** Announce a block unless its hash is remembered. */
    method BroadcastBlock(block: Block) returns (ghost forgotten: set<string>)
      modifies this`seenBlockHashes, this`outbox, this`announced
      ensures if block.hash in old(seenBlockHashes)
              then unchanged(this)
              else && seenBlockHashes == Remembered(old(seenBlockHashes), block.hash, forgotten)
                   && announced == old(announced) + [block.index]
                   && outbox == old(outbox)
                             + Broadcast(me, Connected(peers, connected), NewBlock(BlockFromJson(BlockToJson(block))))
    {
      forgotten := {};
      if block.hash in seenBlockHashes {
        return;
      }
      forgotten := Remember(block.hash);
      announced := announced + [block.index];
      BroadcastTo(NewBlock(BlockFromJson(BlockToJson(block))), None);
    }

    method Mine(miner: string, clock: Clock, io: WriteIO<Content>, ghost solution: u64)
      returns (block: Block, ghost forgotten: set<string>)
      requires Valid() && Solves(Template(blockchain.View(), miner, clock), solution)
      modifies this, blockchain, blockchain.stateManager, blockchain.Disk()
      ensures Valid() && Solves(Template(old(blockchain.View()), miner, clock), block.nonce)
      ensures var mined := OnMine(me, old(View()), miner, clock, block.nonce, forgotten);
              View() == mined.0 && outbox == old(outbox) + mined.1
    {
      hide Machine.AfterMine, Machine.Template, Blocks.Sealed, Blocks.Solves;
      block := blockchain.MinePendingTransactions(miner, clock, io, solution);
      forgotten := BroadcastBlock(block);
    }
  }

  /** The peers whose connection is up, in order. */
  function Connected(peers: seq<nat>, connected: set<nat>): seq<nat> {
    if peers == [] then []
    else
      var last := peers[|peers| - 1];
      Connected(peers[..|peers| - 1], connected) + if last in connected then [last] else []
  }

  function Targets(neighbours: seq<nat>, except: Option<nat>): seq<nat> {
    if except.Some? then Except(neighbours, except.value) else neighbours
  }

  lemma ConnectedWithOneMore(peers: seq<nat>, peer: nat, connected: set<nat>, except: Option<nat>)
    ensures Targets(Connected(peers + [peer], connected), except)
         == Targets(Connected(peers, connected), except)
            + if except != Some(peer) && peer in connected then [peer] else []
  {
    var before := Connected(peers, connected);
    assert (peers + [peer])[..|peers|] == peers;
    if peer in connected {
      assert (before + [peer])[..|before|] == before;
      assert Except(before + [peer], peer) == Except(before, peer) + [] == Except(before, peer);
    } else {
      assert Connected(peers + [peer], connected) == before;
    }
  }

  lemma NothingBroadcast(me: nat, message: Message, before: seq<Envelope>, connected: set<nat>, except: Option<nat>)
    ensures before == before + Broadcast(me, [], message)
    ensures Targets(Connected([], connected), except) == []
  {
  }

  lemma BroadcastOneMore(me: nat, targets: seq<nat>, target: nat, message: Message, before: seq<Envelope>)
    ensures before + Broadcast(me, targets + [target], message)
         == before + Broadcast(me, targets, message) + [Envelope(me, target, message)]
  {
    assert Broadcast(me, targets + [target], message)
        == Broadcast(me, targets, message) + [Envelope(me, target, message)];
  }
}
