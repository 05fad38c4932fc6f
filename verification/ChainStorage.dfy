/** The chain file: how a chain is encoded in it, loaded from it and appended to it. */
module ChainStorage {
  import opened Primitives
  import opened Transactions
  import opened Blocks
  import opened ChainValidity
  import opened AtomicFiles

  /** The text of the chain file: a JSON array of blocks, or anything else. */
  datatype Content = ChainText(blocks: seq<BlockJson>) | OtherText(text: string)

  function Encode(chain: seq<Block>): (blocks: seq<BlockJson>)
    ensures |blocks| == |chain|
  {
    seq(|chain|, i requires 0 <= i < |chain| => BlockToJson(chain[i]))
  }

  function Decode(blocks: seq<BlockJson>): (chain: seq<Block>)
    ensures |chain| == |blocks|
  {
    seq(|blocks|, i requires 0 <= i < |blocks| => BlockFromJson(blocks[i]))
  }

  /** A missing file reads as the empty text. */
  function ReadText(f: Files<Content>): Content {
    if f.main.Some? then f.main.value else OtherText("")
  }

  function LoadedChain(f: Files<Content>): seq<Block> {
    match ReadText(f)
    case ChainText(blocks) => Decode(blocks)
    case OtherText(_) => []
  }

  /** More than two characters on disk; an empty array has exactly two. */
  predicate HasChain(f: Files<Content>) {
    f.main.Some? && match f.main.value
    case ChainText(blocks) => blocks != []
    case OtherText(text) => |text| > 2
  }

  function AfterSave(f: Files<Content>, chain: seq<Block>, io: WriteIO<Content>): Files<Content> {
    AfterWrite(f, ChainText(Encode(chain)), io)
  }

  /** Appending refuses a file that is not an array, and a block that does not continue the last
      stored one. */
  predicate Appends(f: Files<Content>, b: Block) {
    match ReadText(f)
    case ChainText(blocks) =>
      blocks == [] || (var tip := BlockFromJson(blocks[|blocks| - 1]);
                       b.index == tip.index + 1 && b.previousHash == tip.hash)
    case OtherText(text) => text == ""
  }

  function StoredBlocks(f: Files<Content>): seq<BlockJson> {
    if ReadText(f).ChainText? then ReadText(f).blocks else []
  }

  function AfterAppend(f: Files<Content>, b: Block, io: WriteIO<Content>): Files<Content> {
    if Appends(f, b) then AfterWrite(f, ChainText(StoredBlocks(f) + [BlockToJson(b)]), io) else f
  }

  class ChainStore {
    const file: AtomicFile<Content>

    constructor (file: AtomicFile<Content>)
      ensures this.file == file
    {
      this.file := file;
    }

    method HasPersistedChain() returns (found: bool)
      ensures found == HasChain(file.View())
    {
      if file.main.None? {
        return false;
      }
      match file.main.value
      case ChainText(blocks) => found := blocks != [];
      case OtherText(text) => found := |text| > 2;
    }

    method LoadChain() returns (chain: seq<Block>)
      ensures chain == LoadedChain(file.View())
    {
      chain := [];
      if file.main.None? || file.main.value.OtherText? {
        return;
      }
      var blocks := file.main.value.blocks;
      for i := 0 to |blocks|
        invariant chain == Decode(blocks)[..i]
      {
        chain := chain + [BlockFromJson(blocks[i])];
      }
      assert chain == Decode(blocks);
    }

    method SaveChain(chain: seq<Block>, io: WriteIO<Content>) returns (ok: bool)
      modifies file
      ensures file.View() == AfterSave(old(file.View()), chain, io)
      ensures ok == WriteRun(old(file.View()), ChainText(Encode(chain)), io).1
    {
      var blocks: seq<BlockJson> := [];
      for i := 0 to |chain|
        invariant blocks == Encode(chain)[..i]
      {
        blocks := blocks + [BlockToJson(chain[i])];
      }
      assert blocks == Encode(chain);
      ghost var trace;
      ok, trace := file.AtomicWrite(ChainText(blocks), io);
    }

    method AppendBlock(b: Block, io: WriteIO<Content>) returns (ok: bool)
      modifies file
      ensures file.View() == AfterAppend(old(file.View()), b, io)
      ensures ok <==> Appends(old(file.View()), b)
                      && WriteRun(old(file.View()), ChainText(StoredBlocks(old(file.View())) + [BlockToJson(b)]), io).1
    {
      hide WriteRun, BlockToJson, BlockFromJson;
      var raw := if file.main.Some? then file.main.value else OtherText("");
      var blocks: seq<BlockJson> := [];
      match raw {
        case ChainText(stored) => blocks := stored;
        case OtherText(text) =>
          if text != "" {
            return false;
          }
      }
      if blocks != [] {
        var tip := BlockFromJson(blocks[|blocks| - 1]);
        if b.index != tip.index + 1 || b.previousHash != tip.hash {
          return false;
        }
      }
      ghost var trace;
      ok, trace := file.AtomicWrite(ChainText(blocks + [BlockToJson(b)]), io);
    }
  }

  // ----- what is on disk -----

  predicate IsNormalChain(chain: seq<Block>) {
    forall i | 0 <= i < |chain| :: IsNormalBlock(chain[i])
  }

  /** A chain comes back from its encoding unchanged exactly when all its transactions are normal. */
  lemma ChainRoundTrip(chain: seq<Block>)
    ensures Decode(Encode(chain)) == chain <==> IsNormalChain(chain)
  {
    var back := Decode(Encode(chain));
    forall i | 0 <= i < |chain|
      ensures back[i] == chain[i] <==> IsNormalBlock(chain[i])
    {
      BlockRoundTrip(chain[i]);
    }
  }

  /** The file holds the encoding of this chain, and the chain decodes to itself. */
  predicate Stores(f: Files<Content>, chain: seq<Block>) {
    f.main == Some(ChainText(Encode(chain))) && IsNormalChain(chain)
  }

  lemma SaveStores(f: Files<Content>, chain: seq<Block>, io: WriteIO<Content>)
    requires io.Succeeds(f.main.Some?) && IsNormalChain(chain)
    ensures Stores(AfterSave(f, chain, io), chain)
  {
    ReturnsTrue(f, ChainText(Encode(chain)), io);
  }

  lemma EncodeOneMore(chain: seq<Block>, b: Block)
    ensures Encode(chain + [b]) == Encode(chain) + [BlockToJson(b)]
    ensures IsNormalChain(chain) && IsNormalBlock(b) ==> IsNormalChain(chain + [b])
  {
  }

  /** The continuity check compares with the tip of the stored chain. */
  lemma AppendsToTip(f: Files<Content>, chain: seq<Block>, b: Block)
    requires f.main == Some(ChainText(Encode(chain))) && chain != []
    ensures Appends(f, b) <==> b.index == chain[|chain| - 1].index + 1 && b.previousHash == chain[|chain| - 1].hash
  {
    var tip := chain[|chain| - 1];
    TipComesBack(tip);
    assert StoredBlocks(f)[|chain| - 1] == BlockToJson(tip);
  }

  lemma TipComesBack(tip: Block)
    ensures BlockFromJson(BlockToJson(tip)).index == tip.index && BlockFromJson(BlockToJson(tip)).hash == tip.hash
  {
  }

  /** The continuity check lets every block through that continues the stored chain, and where the
      write returns true the file then holds the longer chain. */
  lemma AppendStores(f: Files<Content>, chain: seq<Block>, b: Block, io: WriteIO<Content>)
    requires Stores(f, chain) && chain != [] && IsNormalBlock(b) && io.Succeeds(true)
    requires b.index == chain[|chain| - 1].index + 1 && b.previousHash == chain[|chain| - 1].hash
    ensures Appends(f, b) && Stores(AfterAppend(f, b, io), chain + [b])
  {
    AppendsToTip(f, chain, b);
    EncodeOneMore(chain, b);
    ReturnsTrue(f, ChainText(Encode(chain + [b])), io);
  }

  lemma StoredLoads(f: Files<Content>, chain: seq<Block>)
    requires Stores(f, chain) && chain != []
    ensures HasChain(f) && LoadedChain(f) == chain
  {
    ChainRoundTrip(chain);
  }

  /** A block is appended to a missing or empty file, and to an array that is empty or ends in the block
      before it; anything else on disk makes appending refuse. */
  lemma AppendCases(f: Files<Content>, b: Block)
    ensures f.main == None || f.main == Some(OtherText("")) || f.main == Some(ChainText([])) ==> Appends(f, b)
    ensures f.main.Some? && f.main.value.OtherText? && f.main.value.text != "" ==> !Appends(f, b)
    ensures f.main.Some? && f.main.value.ChainText? && f.main.value.blocks != [] ==>
              var last := f.main.value.blocks[|f.main.value.blocks| - 1];
              (Appends(f, b) <==> b.index == Or(last.index, 0) + 1 && b.previousHash == Or(last.hash, ""))
  {
  }
}
