/** What the hash of the last block says about the whole chain before it. */
module TamperEvidence {
  import opened Primitives
  import opened Transactions
  import opened Blocks
  import opened ChainValidity
  import Merkle

  // ----- one header text -----

  /** The fields a header text stands for: the nonce and the difficulty only as one digit string. */
  predicate SameHeader(a: Block, b: Block) {
    && a.index == b.index && a.timestamp == b.timestamp
    && a.merkleRoot == b.merkleRoot && a.previousHash == b.previousHash
    && Decimal(a.nonce) + Decimal(a.difficulty) == Decimal(b.nonce) + Decimal(b.difficulty)
  }

  /** The fields before the nonce are printed at equal lengths. */
  predicate SameLayout(a: Block, b: Block) {
    && |Decimal(a.index)| == |Decimal(b.index)| && |a.timestamp| == |b.timestamp|
    && |a.merkleRoot| == |b.merkleRoot| && |a.previousHash| == |b.previousHash|
  }

  /** Nothing separates the fields of a header: one text means one header exactly where the fields
      are equally long. */
  lemma HeaderDetermines(a: Block, b: Block)
    requires Header(a) == Header(b)
    ensures SameHeader(a, b) <==> SameLayout(a, b)
  {
    hide Decimal;
    if SameLayout(a, b) {
      var ia, ib := Decimal(a.index), Decimal(b.index);
      var na, nb := Decimal(a.nonce) + Decimal(a.difficulty), Decimal(b.nonce) + Decimal(b.difficulty);
      CutAt(ia + a.timestamp + a.merkleRoot + a.previousHash, na, ib + b.timestamp + b.merkleRoot + b.previousHash, nb);
      CutAt(ia + a.timestamp + a.merkleRoot, a.previousHash, ib + b.timestamp + b.merkleRoot, b.previousHash);
      CutAt(ia + a.timestamp, a.merkleRoot, ib + b.timestamp, b.merkleRoot);
      CutAt(ia, a.timestamp, ib, b.timestamp);
      DecimalInjective(a.index, b.index);
    }
  }

  /** One digit string means one nonce and one difficulty exactly where the difficulties have equally
      many digits; difficulties below 10 always do. */
  lemma DigitsDetermine(a: Block, b: Block)
    requires Decimal(a.nonce) + Decimal(a.difficulty) == Decimal(b.nonce) + Decimal(b.difficulty)
    ensures a.nonce == b.nonce && a.difficulty == b.difficulty
       <==> |Decimal(a.difficulty)| == |Decimal(b.difficulty)|
    ensures a.difficulty < 10 && b.difficulty < 10 ==> a.nonce == b.nonce && a.difficulty == b.difficulty
  {
    if |Decimal(a.difficulty)| == |Decimal(b.difficulty)| {
      CutAt(Decimal(a.nonce), Decimal(a.difficulty), Decimal(b.nonce), Decimal(b.difficulty));
      DecimalInjective(a.nonce, b.nonce);
      DecimalInjective(a.difficulty, b.difficulty);
    }
  }

  /** Otherwise two nonces and difficulties can share one hash. */
  lemma NonceAndDifficultyRunTogether(b: Block)
    ensures CalculateHash(b.(nonce := 1, difficulty := 23)) == CalculateHash(b.(nonce := 12, difficulty := 3))
  {
    assert Decimal(1) == "1" && Decimal(2) == "2" && Decimal(3) == "3";
    assert Decimal(23) == Decimal(2) + [Digit(3)] && Decimal(12) == Decimal(1) + [Digit(2)];
    assert Decimal(1) + Decimal(23) == Decimal(12) + Decimal(3);
  }

  /** A block on top of a genesis block that holds one reward with this identifier. */
  function RewardBlock(g: Block, reward: Transaction, id: string, timestamp: string, difficulty: nat): Block {
    Block(1, timestamp, g.hash, [reward.(txID := id)], id, 0, difficulty, "")
  }

  /** Neither the shape of a timestamp nor the identifier of a reward is checked: the last character
      of the time can move into the Merkle root. These are two valid chains with one tip hash, one
      header text, and different headers. */
  lemma TimestampAndRootRunTogether(g: Block, reward: Transaction, difficulty: nat, nonce: u64)
    requires ValidGenesis(g) && IsCoinbase(reward)
    requires Solves(RewardBlock(g, reward, "a", "2026-01-01T00:00:00Z", difficulty), nonce)
    ensures var a := Sealed(RewardBlock(g, reward, "a", "2026-01-01T00:00:00Z", difficulty), nonce);
            var b := Sealed(RewardBlock(g, reward, "Za", "2026-01-01T00:00:00", difficulty), nonce);
      && ValidChain([g, a]) && ValidChain([g, b])
      && a.hash == b.hash && Header(a) == Header(b)
      && !SameHeader(a, b) && !SameLayout(a, b)
  {
    var x := RewardBlock(g, reward, "a", "2026-01-01T00:00:00Z", difficulty);
    var y := RewardBlock(g, reward, "Za", "2026-01-01T00:00:00", difficulty);
    SingleRoot(reward, "a");
    SingleRoot(reward, "Za");
    assert x.timestamp + "a" == y.timestamp + "Za";
    SameText(WithNonce(x, nonce), WithNonce(y, nonce));
    RewardBlockIsValid(g, reward, "a", x.timestamp, difficulty, nonce);
    RewardBlockIsValid(g, reward, "Za", y.timestamp, difficulty, nonce);
    assert |x.timestamp| != |y.timestamp|;
  }

  lemma SingleRoot(reward: Transaction, id: string)
    requires id != ""
    ensures MerkleRoot([reward.(txID := id)]) == id
  {
    assert Leaves([reward.(txID := id)]) == [id];
    Merkle.SingleLeafIsRoot(id);
  }

  lemma SameText(a: Block, b: Block)
    requires a.index == b.index && a.previousHash == b.previousHash
    requires a.nonce == b.nonce && a.difficulty == b.difficulty
    requires a.timestamp + a.merkleRoot == b.timestamp + b.merkleRoot
    ensures Header(a) == Header(b)
  {
    hide Decimal;
    assert Decimal(a.index) + a.timestamp + a.merkleRoot == Decimal(a.index) + (a.timestamp + a.merkleRoot);
    assert Decimal(b.index) + b.timestamp + b.merkleRoot == Decimal(b.index) + (b.timestamp + b.merkleRoot);
  }

  lemma RewardBlockIsValid(g: Block, reward: Transaction, id: string, timestamp: string, difficulty: nat, nonce: u64)
    requires ValidGenesis(g) && IsCoinbase(reward) && id != ""
    requires Solves(RewardBlock(g, reward, id, timestamp, difficulty), nonce)
    ensures ValidChain([g, Sealed(RewardBlock(g, reward, id, timestamp, difficulty), nonce)])
  {
    hide Sealed, Solves, MerkleRoot, CalculateHash, MeetsTarget;
    SealedBlock(RewardBlock(g, reward, id, timestamp, difficulty), nonce);
  }

  // ----- the whole chain -----

  predicate SameHeaders(a: seq<Block>, b: seq<Block>) {
    && |a| == |b|
    && forall i | 0 <= i < |a| :: SameHeader(a[i], b[i]) && a[i].hash == b[i].hash
  }

  /** The block so many positions below the tip. */
  function FromTip(chain: seq<Block>, k: nat): Block
    requires k < |chain|
  {
    chain[|chain| - 1 - k]
  }

  predicate LayoutAgreesAt(a: seq<Block>, b: seq<Block>, k: nat)
    requires k < |a| && k < |b|
  {
    Header(FromTip(a, k)) == Header(FromTip(b, k)) ==> SameLayout(FromTip(a, k), FromTip(b, k))
  }

  /** Counted from the tips, wherever the header texts are the same they are divided in the same
      way. */
  predicate LayoutsAgree(a: seq<Block>, b: seq<Block>) {
    forall k: nat | k < |a| && k < |b| :: LayoutAgreesAt(a, b, k)
  }

  /** Hashing the headers of the two chains exhibits a collision. */
  ghost predicate HeadersCollide(a: seq<Block>, b: seq<Block>) {
    exists i, j | 0 <= i < |a| && 0 <= j < |b| :: Collision(Header(a[i]), Header(b[j]))
  }

  /** Some header of the chain hashes to the 64 zeros that a genesis block points to. */
  ghost predicate HashesToZeros(chain: seq<Block>) {
    exists i | 0 <= i < |chain| :: Sha256(Header(chain[i])) == Zeros(64)
  }

  lemma HashIsOfHeader(chain: seq<Block>, i: nat)
    requires ValidChain(chain) && i < |chain|
    ensures |chain[i].previousHash| == 64 && chain[i].hash == Sha256(Header(chain[i]))
  {
    if i > 0 {
      assert ValidSuccessor(chain[i], chain[i - 1], i);
      assert i > 1 ==> ValidSuccessor(chain[i - 1], chain[i - 2], i - 1);
    }
  }

  /** One chain could continue another only below a genesis block whose index is not 0, which nothing
      checks, and only through a header that hashes to zeros. */
  ghost predicate ContinuesBelow(longer: seq<Block>, shorter: seq<Block>)
    requires shorter != []
  {
    shorter[0].index != 0 && HashesToZeros(longer)
  }

  /** That is what such a chain looks like: where the last block but one hashes to zeros, the last one
      by itself is a valid chain with the same tip. */
  lemma TipAloneIsValid(chain: seq<Block>)
    requires ValidChain(chain) && |chain| >= 2 && chain[|chain| - 2].hash == Zeros(64)
    ensures var tip := chain[|chain| - 1];
            ValidChain([tip]) && tip.index != 0 && ContinuesBelow(chain, [tip])
  {
    hide Header, MerkleRoot, MeetsTarget;
    var n := |chain| - 1;
    assert ValidSuccessor(chain[n], chain[n - 1], n);
    HashIsOfHeader(chain, n - 1);
  }

  lemma {:induction false} AlignedTips(a: seq<Block>, b: seq<Block>)
    requires ValidChain(a) && ValidChain(b) && LayoutsAgree(a, b)
    requires a[|a| - 1].hash == b[|b| - 1].hash
    ensures SameHeaders(a, b) || HeadersCollide(a, b) || ContinuesBelow(a, b) || ContinuesBelow(b, a)
    decreases |a|
  {
    hide Decimal, MerkleRoot, MeetsTarget, AllVerified, SameLayout, Header;
    var m, n := |a| - 1, |b| - 1;
    HashIsOfHeader(a, m);
    HashIsOfHeader(b, n);
    if Header(a[m]) != Header(b[n]) {
      assert Collision(Header(a[m]), Header(b[n]));
    } else {
      assert LayoutAgreesAt(a, b, 0);
      HeaderDetermines(a[m], b[n]);
      if m > 0 && n > 0 {
        assert ValidSuccessor(a[m], a[m - 1], m) && ValidSuccessor(b[n], b[n - 1], n);
        PrefixValid(a);
        PrefixValid(b);
        PrefixLayouts(a, b);
        AlignedTips(a[..m], b[..n]);
        if SameHeaders(a[..m], b[..n]) {
          LiftSameHeaders(a, b, n);
        } else if HeadersCollide(a[..m], b[..n]) {
          LiftCollision(a, b, m, n);
        } else if ContinuesBelow(a[..m], b[..n]) {
          LiftZeros(a, m);
        } else {
          LiftZeros(b, n);
        }
      } else if m > 0 {
        HashIsOfHeader(a, m - 1);
        assert ValidSuccessor(a[m], a[m - 1], m);
      } else if n > 0 {
        HashIsOfHeader(b, n - 1);
        assert ValidSuccessor(b[n], b[n - 1], n);
      }
    }
  }

  lemma PrefixLayouts(a: seq<Block>, b: seq<Block>)
    requires |a| > 1 && |b| > 1 && LayoutsAgree(a, b)
    ensures LayoutsAgree(a[..|a| - 1], b[..|b| - 1])
  {
    hide SameLayout, Header;
    var a', b' := a[..|a| - 1], b[..|b| - 1];
    forall k: nat | k < |a'| && k < |b'|
      ensures LayoutAgreesAt(a', b', k)
    {
      assert LayoutAgreesAt(a, b, k + 1);
      assert FromTip(a', k) == FromTip(a, k + 1) && FromTip(b', k) == FromTip(b, k + 1);
    }
  }

  lemma SameHeadersSameLayouts(a: seq<Block>, b: seq<Block>)
    requires SameHeaders(a, b)
    ensures LayoutsAgree(a, b)
  {
    forall k: nat | k < |a| && k < |b|
      ensures LayoutAgreesAt(a, b, k)
    {
      assert SameHeader(FromTip(a, k), FromTip(b, k));
    }
  }

  /** Two valid chains that end in the same hash are equally long and agree header by header exactly
      when their header texts are divided alike, unless two of their headers collide or a genesis
      block has an index other than 0. */
  lemma TipDeterminesHeaders(a: seq<Block>, b: seq<Block>)
    requires ValidChain(a) && ValidChain(b) && a[|a| - 1].hash == b[|b| - 1].hash
    ensures || HeadersCollide(a, b) || ContinuesBelow(a, b) || ContinuesBelow(b, a)
            || (SameHeaders(a, b) <==> LayoutsAgree(a, b))
  {
    if SameHeaders(a, b) {
      SameHeadersSameLayouts(a, b);
    } else if LayoutsAgree(a, b) {
      AlignedTips(a, b);
    }
  }

  // ----- chains as the node itself builds them -----

  /** "YYYY-MM-DDTHH:MM:SSZ": 20 characters, the first dash after four others. */
  predicate IsoShaped(s: string) {
    |s| == 20 && s[4] == '-' && '-' !in s[..4]
  }

  predicate Digests(leaves: seq<string>) {
    forall i | 0 <= i < |leaves| :: |leaves[i]| == 64
  }

  predicate WellShaped(b: Block) {
    IsoShaped(b.timestamp) && Digests(Leaves(b.transactions))
  }

  predicate WellShapedChain(chain: seq<Block>) {
    forall i | 0 <= i < |chain| :: WellShaped(chain[i])
  }

  /** A text with digits, then a timestamp: the position of the timestamp can be read off. */
  lemma IndexLength(i: string, t: string, rest: string, j: string, u: string, rest': string)
    requires '-' !in i && '-' !in j && IsoShaped(t) && IsoShaped(u)
    requires i + t + rest == j + u + rest'
    ensures |i| == |j|
  {
    var s, s' := i + t + rest, j + u + rest';
    assert s[|i| + 4] == t[4] == '-' && s'[|j| + 4] == u[4] == '-';
    assert forall k | 0 <= k < |i| :: s[k] == i[k];
    assert forall k | 0 <= k < |j| :: s'[k] == j[k];
    assert forall k | |i| <= k < |i| + 4 :: s[k] == t[..4][k - |i|];
    assert forall k | |j| <= k < |j| + 4 :: s'[k] == u[..4][k - |j|];
  }

  lemma MerkleRootLength(txs: seq<Transaction>)
    requires Digests(Leaves(txs))
    ensures |MerkleRoot(txs)| == 64
  {
    if txs != [] {
      Merkle.RootLevel(|txs|);
    }
  }

  lemma ShapedHeader(a: Block, b: Block)
    requires IsoShaped(a.timestamp) && |a.merkleRoot| == 64 && |a.previousHash| == 64
    requires IsoShaped(b.timestamp) && |b.merkleRoot| == 64 && |b.previousHash| == 64
    requires Header(a) == Header(b)
    ensures SameLayout(a, b)
  {
    var ia, ib := Decimal(a.index), Decimal(b.index);
    var pa := a.merkleRoot + a.previousHash + (Decimal(a.nonce) + Decimal(a.difficulty));
    var pb := b.merkleRoot + b.previousHash + (Decimal(b.nonce) + Decimal(b.difficulty));
    DigitsHaveNoDash(a.index);
    DigitsHaveNoDash(b.index);
    HeaderTail(a);
    HeaderTail(b);
    IndexLength(ia, a.timestamp, pa, ib, b.timestamp, pb);
  }

  lemma DigitsHaveNoDash(n: nat)
    ensures '-' !in Decimal(n)
  {
    assert forall k | 0 <= k < |Decimal(n)| :: IsDigit(Decimal(n)[k]);
  }

  lemma HeaderTail(b: Block)
    ensures Header(b) == Decimal(b.index) + b.timestamp
                         + (b.merkleRoot + b.previousHash + (Decimal(b.nonce) + Decimal(b.difficulty)))
  {
    hide Decimal;
  }

  /** With such timestamps and with identifiers of 64 characters the texts are always divided
      alike. */
  lemma WellShapedLayoutsAgree(a: seq<Block>, b: seq<Block>)
    requires ValidChain(a) && ValidChain(b) && WellShapedChain(a) && WellShapedChain(b)
    ensures LayoutsAgree(a, b)
  {
    hide Header, SameLayout, Decimal;
    forall k: nat | k < |a| && k < |b|
      ensures LayoutAgreesAt(a, b, k)
    {
      var x, y := FromTip(a, k), FromTip(b, k);
      RootAndLinkLengths(a, |a| - 1 - k);
      RootAndLinkLengths(b, |b| - 1 - k);
      if Header(x) == Header(y) {
        ShapedHeader(x, y);
      }
    }
  }

  lemma RootAndLinkLengths(chain: seq<Block>, i: nat)
    requires ValidChain(chain) && WellShapedChain(chain) && i < |chain|
    ensures IsoShaped(chain[i].timestamp) && |chain[i].merkleRoot| == 64 && |chain[i].previousHash| == 64
  {
    HashIsOfHeader(chain, i);
    assert i > 0 ==> ValidSuccessor(chain[i], chain[i - 1], i);
    assert WellShaped(chain[i]);
    MerkleRootLength(chain[i].transactions);
  }

  /** Chains as nodes build them: with genesis index 0, ISO timestamps and identifiers of 64
      characters one tip hash means one length and the same headers, or two headers that collide. */
  lemma NodeBuiltTipsDetermine(a: seq<Block>, b: seq<Block>)
    requires ValidChain(a) && ValidChain(b) && a[|a| - 1].hash == b[|b| - 1].hash
    requires WellShapedChain(a) && WellShapedChain(b) && a[0].index == 0 && b[0].index == 0
    ensures SameHeaders(a, b) || HeadersCollide(a, b)
  {
    hide ValidChain, SameHeaders, LayoutsAgree, WellShapedChain, HeadersCollide;
    WellShapedLayoutsAgree(a, b);
    TipDeterminesHeaders(a, b);
  }

  // ----- lifting from a prefix -----

  lemma PrefixValid(chain: seq<Block>)
    requires ValidChain(chain) && |chain| > 1
    ensures ValidChain(chain[..|chain| - 1])
  {
    PrefixIsValid(NoEngine, chain, 0, |chain| - 1);
  }

  lemma LiftCollision(a: seq<Block>, b: seq<Block>, m: nat, n: nat)
    requires m <= |a| && n <= |b| && HeadersCollide(a[..m], b[..n])
    ensures HeadersCollide(a, b)
  {
    var i, j :| 0 <= i < m && 0 <= j < n && Collision(Header(a[..m][i]), Header(b[..n][j]));
    assert a[..m][i] == a[i] && b[..n][j] == b[j];
  }

  lemma LiftZeros(chain: seq<Block>, n: nat)
    requires n <= |chain| && HashesToZeros(chain[..n])
    ensures HashesToZeros(chain)
  {
    var i :| 0 <= i < n && Sha256(Header(chain[..n][i])) == Zeros(64);
    assert chain[..n][i] == chain[i];
  }

  lemma LiftSameHeaders(a: seq<Block>, b: seq<Block>, n: nat)
    requires |a| == |b| == n + 1 && SameHeaders(a[..n], b[..n])
    requires SameHeader(a[n], b[n]) && a[n].hash == b[n].hash
    ensures SameHeaders(a, b)
  {
    forall i | 0 <= i < |a|
      ensures SameHeader(a[i], b[i]) && a[i].hash == b[i].hash
    {
      if i < n {
        assert a[..n][i] == a[i] && b[..n][i] == b[i];
      }
    }
  }

  // ----- down to the transactions -----

  /** The identifier is the one its fields give. Verified transfers have it, rewards need not. */
  predicate Identified(tx: Transaction) {
    tx.txID == ComputeTxID(tx)
  }

  lemma VerifiedTransferIsIdentified(tx: Transaction)
    requires Verify(tx) && !IsCoinbase(tx)
    ensures Identified(tx)
  {
  }

  /** Blocks with one header and equally many transactions agree in all identifiers exactly when
      these are equally long, and then in every transaction that its identifier fits, rewards
      included, signature apart, exactly when its fields are equally long, unless something hashed
      for them collides. */
  lemma SameHeaderDeterminesTransaction(a: Block, b: Block, k: nat)
    requires SameHeader(a, b)
    requires a.merkleRoot == MerkleRoot(a.transactions) && b.merkleRoot == MerkleRoot(b.transactions)
    requires |a.transactions| == |b.transactions| && k < |a.transactions|
    ensures var la, lb := Leaves(a.transactions), Leaves(b.transactions);
            Merkle.TreesCollide(la, lb) || (la == lb <==> Merkle.SameLengths(la, lb))
    ensures var t, u := a.transactions[k], b.transactions[k];
      && Merkle.SameLengths(Leaves(a.transactions), Leaves(b.transactions))
      && Identified(t) && Identified(u)
      ==> || Merkle.TreesCollide(Leaves(a.transactions), Leaves(b.transactions))
          || Collision(TxCore(t), TxCore(u))
          || (SameFields(t, u) <==> SameFieldLengths(t, u))
  {
    hide TxCore, SameFields, SameFieldLengths;
    var t, u := a.transactions[k], b.transactions[k];
    var la, lb := Leaves(a.transactions), Leaves(b.transactions);
    Merkle.RootDeterminesLeaves(la, lb);
    if la == lb && Identified(t) && Identified(u) {
      assert la[k] == t.txID && lb[k] == u.txID;
      TxIDDeterminesFields(t, u);
    }
  }

  predicate AllIdentified(txs: seq<Transaction>) {
    forall k | 0 <= k < |txs| :: Identified(txs[k])
  }

  lemma IdentifiedLeaves(txs: seq<Transaction>)
    requires AllIdentified(txs)
    ensures Digests(Leaves(txs))
  {
    forall k | 0 <= k < |txs|
      ensures |Leaves(txs)[k]| == 64
    {
      assert Identified(txs[k]);
    }
  }

  /** Block by block as many transactions, each with the identifier its fields give. */
  predicate Comparable(a: seq<Block>, b: seq<Block>) {
    && |a| == |b|
    && forall i | 0 <= i < |a| ::
         && |a[i].transactions| == |b[i].transactions|
         && AllIdentified(a[i].transactions) && AllIdentified(b[i].transactions)
  }

  /** The Merkle trees of two blocks, or the identifier texts of two transactions, collide. */
  ghost predicate ContentsCollide(a: seq<Block>, b: seq<Block>)
    requires Comparable(a, b)
  {
    exists i | 0 <= i < |a| :: BlocksCollide(a[i], b[i])
  }

  ghost predicate BlocksCollide(a: Block, b: Block)
    requires |a.transactions| == |b.transactions|
  {
    || Merkle.TreesCollide(Leaves(a.transactions), Leaves(b.transactions))
    || exists k | 0 <= k < |a.transactions| :: Collision(TxCore(a.transactions[k]), TxCore(b.transactions[k]))
  }

  predicate SameTransactions(a: Block, b: Block) {
    && |a.transactions| == |b.transactions|
    && forall k | 0 <= k < |a.transactions| :: SameFields(a.transactions[k], b.transactions[k])
  }

  predicate SameTransactionLayout(a: Block, b: Block) {
    && |a.transactions| == |b.transactions|
    && forall k | 0 <= k < |a.transactions| :: SameFieldLengths(a.transactions[k], b.transactions[k])
  }

  lemma SameHeaderDeterminesBlock(a: Block, b: Block)
    requires SameHeader(a, b) && |a.transactions| == |b.transactions|
    requires a.merkleRoot == MerkleRoot(a.transactions) && b.merkleRoot == MerkleRoot(b.transactions)
    requires AllIdentified(a.transactions) && AllIdentified(b.transactions)
    ensures BlocksCollide(a, b) || (SameTransactions(a, b) <==> SameTransactionLayout(a, b))
  {
    hide TxCore, SameFields, SameFieldLengths, SameHeader, Leaves, MerkleRoot, Identified, Merkle.TreesCollide;
    IdentifiedLeaves(a.transactions);
    IdentifiedLeaves(b.transactions);
    if !BlocksCollide(a, b) {
      forall k | 0 <= k < |a.transactions|
        ensures SameFields(a.transactions[k], b.transactions[k])
           <==> SameFieldLengths(a.transactions[k], b.transactions[k])
      {
        SameHeaderDeterminesTransaction(a, b, k);
      }
    }
  }

  /** Over whole chains: where the headers are the same, the blocks hold equally many transactions and
      all identifiers fit, the chains agree in every transaction, signatures apart, exactly when all
      fields are equally long, or something hashed for them collides. */
  lemma SameHeadersDetermineTransactions(a: seq<Block>, b: seq<Block>)
    requires ValidChain(a) && ValidChain(b) && SameHeaders(a, b) && Comparable(a, b)
    ensures || ContentsCollide(a, b)
            || ((forall i | 0 <= i < |a| :: SameTransactions(a[i], b[i]))
                <==> forall i | 0 <= i < |a| :: SameTransactionLayout(a[i], b[i]))
  {
    hide BlocksCollide, SameTransactions, SameTransactionLayout, AllIdentified, SameHeader, MerkleRoot, CalculateHash;
    if !ContentsCollide(a, b) {
      forall i | 0 <= i < |a|
        ensures SameTransactions(a[i], b[i]) <==> SameTransactionLayout(a[i], b[i])
      {
        RootIsOfTransactions(a, i);
        RootIsOfTransactions(b, i);
        assert SameHeader(a[i], b[i]) && !BlocksCollide(a[i], b[i]);
        SameHeaderDeterminesBlock(a[i], b[i]);
      }
    }
  }

  lemma RootIsOfTransactions(chain: seq<Block>, i: nat)
    requires ValidChain(chain) && i < |chain|
    ensures chain[i].merkleRoot == MerkleRoot(chain[i].transactions)
  {
    assert i > 0 ==> ValidSuccessor(chain[i], chain[i - 1], i);
  }
}
