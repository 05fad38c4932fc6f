/** Transactions: their identifier, verification, expiry and JSON form. */
module Transactions {
  import opened Primitives

  type u64 = n: nat | n < U64

  datatype Transaction = Transaction(
    txID: string,
    senderPublicKey: string,
    receiverPublicKey: string,
    fromAddress: string,
    toAddress: string,
    amount: u64,
    nonce: u64,
    payload: string,
    timestamp: string,
    digitalSignature: string)

  /** The key that marks a mining reward. */
  const COINBASE := "COINBASE"

  predicate IsCoinbase(tx: Transaction) { tx.senderPublicKey == COINBASE }

  /** The text whose hash is the transaction's identifier. */
  function TxCore(tx: Transaction): string {
    tx.senderPublicKey + "|" + (tx.receiverPublicKey + "|" + (tx.fromAddress + "|" + (tx.toAddress + "|"
    + (Decimal(tx.amount) + "|" + (Decimal(tx.nonce) + "|" + (tx.payload + "|" + tx.timestamp))))))
  }

  function ComputeTxID(tx: Transaction): (id: string)
    ensures |id| == 64
  {
    Sha256(TxCore(tx))
  }

  function DeriveAddress(publicKey: string): (address: string)
    ensures |address| == 44
  {
    "PCN_" + Sha256(publicKey)[..40]
  }

  function DeriveAddressLegacy(publicKey: string): string {
    Sha256(publicKey)
  }

  predicate Verify(tx: Transaction) {
    IsCoinbase(tx) ||
    (&& tx.amount != 0
     && tx.txID != "" && tx.digitalSignature != "" && tx.senderPublicKey != ""
     && (tx.fromAddress == "" || tx.fromAddress == DeriveAddress(tx.senderPublicKey)
         || tx.fromAddress == DeriveAddressLegacy(tx.senderPublicKey))
     && tx.txID == ComputeTxID(tx)
     && ECDSA(tx.txID, tx.digitalSignature, tx.senderPublicKey))
  }

  /** A text that does not parse counts as expired. */
  predicate IsExpired(tx: Transaction, windowSeconds: int, now: int) {
    match ISO_PARSER(tx.timestamp)
    case None => true
    case Some(time) => now - time > windowSeconds || time - now > windowSeconds
  }

  // ----- what the identifier determines -----

  predicate BarFree(s: string) { '|' !in s }

  /** The fields before the payload, and the timestamp after it, contain no separator. */
  predicate Separable(tx: Transaction) {
    && BarFree(tx.senderPublicKey) && BarFree(tx.receiverPublicKey)
    && BarFree(tx.fromAddress) && BarFree(tx.toAddress) && BarFree(tx.timestamp)
  }

  lemma SplitFirstBar(x: string, y: string, u: string, v: string)
    requires BarFree(x) && BarFree(u) && x + "|" + y == u + "|" + v
    ensures x == u && y == v
  {
    var s, t := x + "|" + y, u + "|" + v;
    assert s[|x|] == '|' && t[|u|] == '|';
    assert forall i | 0 <= i < |x| :: s[i] == x[i];
    assert forall i | 0 <= i < |u| :: t[i] == u[i];
    assert x == s[..|x|] && u == t[..|u|] && y == s[|x| + 1..] && v == t[|u| + 1..];
  }

  lemma SplitLastBar(x: string, y: string, u: string, v: string)
    requires BarFree(y) && BarFree(v) && x + "|" + y == u + "|" + v
    ensures x == u && y == v
  {
    var s, t := x + "|" + y, u + "|" + v;
    assert s[|x|] == '|' && t[|u|] == '|';
    assert forall i | |x| < i < |s| :: s[i] == y[i - |x| - 1];
    assert forall i | |u| < i < |t| :: t[i] == v[i - |u| - 1];
    assert x == s[..|x|] && u == t[..|u|] && y == s[|x| + 1..] && v == t[|u| + 1..];
  }

  lemma DecimalIsBarFree(n: nat)
    ensures BarFree(Decimal(n))
  {
    assert forall i | 0 <= i < |Decimal(n)| :: IsDigit(Decimal(n)[i]);
  }

  lemma CoreTailDeterminesFields(t: Transaction, u: Transaction)
    requires BarFree(t.timestamp) && BarFree(u.timestamp)
    requires Decimal(t.amount) + "|" + (Decimal(t.nonce) + "|" + (t.payload + "|" + t.timestamp))
          == Decimal(u.amount) + "|" + (Decimal(u.nonce) + "|" + (u.payload + "|" + u.timestamp))
    ensures t.amount == u.amount && t.nonce == u.nonce && t.payload == u.payload && t.timestamp == u.timestamp
  {
    var t1, u1 := t.payload + "|" + t.timestamp, u.payload + "|" + u.timestamp;
    var t2, u2 := Decimal(t.nonce) + "|" + t1, Decimal(u.nonce) + "|" + u1;
    DecimalIsBarFree(t.amount);
    DecimalIsBarFree(u.amount);
    SplitFirstBar(Decimal(t.amount), t2, Decimal(u.amount), u2);
    DecimalIsBarFree(t.nonce);
    DecimalIsBarFree(u.nonce);
    SplitFirstBar(Decimal(t.nonce), t1, Decimal(u.nonce), u1);
    SplitLastBar(t.payload, t.timestamp, u.payload, u.timestamp);
    DecimalInjective(t.amount, u.amount);
    DecimalInjective(t.nonce, u.nonce);
  }

  predicate SameFields(t: Transaction, u: Transaction) {
    u.(txID := t.txID, digitalSignature := t.digitalSignature) == t
  }

  /** The fields before the timestamp are printed at equal lengths. */
  predicate SameFieldLengths(t: Transaction, u: Transaction) {
    && |t.senderPublicKey| == |u.senderPublicKey| && |t.receiverPublicKey| == |u.receiverPublicKey|
    && |t.fromAddress| == |u.fromAddress| && |t.toAddress| == |u.toAddress|
    && |Decimal(t.amount)| == |Decimal(u.amount)| && |Decimal(t.nonce)| == |Decimal(u.nonce)|
    && |t.payload| == |u.payload|
  }

  lemma CutAtBar(x: string, y: string, u: string, v: string)
    requires |x| == |u| && x + "|" + y == u + "|" + v
    ensures x == u && y == v
  {
    CutAt(x + "|", y, u + "|", v);
    CutAt(x, "|", u, "|");
  }

  lemma SameLengthsSameFields(t: Transaction, u: Transaction)
    requires SameFieldLengths(t, u) && TxCore(t) == TxCore(u)
    ensures SameFields(t, u)
  {
    var t7, u7 := t.payload + "|" + t.timestamp, u.payload + "|" + u.timestamp;
    var t6, u6 := Decimal(t.nonce) + "|" + t7, Decimal(u.nonce) + "|" + u7;
    var t5, u5 := Decimal(t.amount) + "|" + t6, Decimal(u.amount) + "|" + u6;
    var t4, u4 := t.toAddress + "|" + t5, u.toAddress + "|" + u5;
    var t3, u3 := t.fromAddress + "|" + t4, u.fromAddress + "|" + u4;
    var t2, u2 := t.receiverPublicKey + "|" + t3, u.receiverPublicKey + "|" + u3;
    CutAtBar(t.senderPublicKey, t2, u.senderPublicKey, u2);
    CutAtBar(t.receiverPublicKey, t3, u.receiverPublicKey, u3);
    CutAtBar(t.fromAddress, t4, u.fromAddress, u4);
    CutAtBar(t.toAddress, t5, u.toAddress, u5);
    CutAtBar(Decimal(t.amount), t6, Decimal(u.amount), u6);
    CutAtBar(Decimal(t.nonce), t7, Decimal(u.nonce), u7);
    CutAtBar(t.payload, t.timestamp, u.payload, u.timestamp);
    DecimalInjective(t.amount, u.amount);
    DecimalInjective(t.nonce, u.nonce);
  }

  /** Two transactions with the same identifier have the same fields, signature apart, exactly when
      their fields are equally long, unless the two identifier computations collide. */
  lemma TxIDDeterminesFields(t: Transaction, u: Transaction)
    requires ComputeTxID(t) == ComputeTxID(u)
    ensures Collision(TxCore(t), TxCore(u)) || (SameFields(t, u) <==> SameFieldLengths(t, u))
  {
    if TxCore(t) == TxCore(u) && SameFieldLengths(t, u) {
      SameLengthsSameFields(t, u);
    }
  }

  /** One condition on each of them alone is enough: keys, addresses and timestamp free of the
      separator. The payload may contain anything. */
  lemma SeparableIsDetermined(t: Transaction, u: Transaction)
    requires Separable(t) && Separable(u) && ComputeTxID(t) == ComputeTxID(u)
    ensures Collision(TxCore(t), TxCore(u)) || SameFields(t, u)
  {
    if TxCore(t) == TxCore(u) {
      var t5 := Decimal(t.amount) + "|" + (Decimal(t.nonce) + "|" + (t.payload + "|" + t.timestamp));
      var u5 := Decimal(u.amount) + "|" + (Decimal(u.nonce) + "|" + (u.payload + "|" + u.timestamp));
      var t4, u4 := t.toAddress + "|" + t5, u.toAddress + "|" + u5;
      var t3, u3 := t.fromAddress + "|" + t4, u.fromAddress + "|" + u4;
      var t2, u2 := t.receiverPublicKey + "|" + t3, u.receiverPublicKey + "|" + u3;
      SplitFirstBar(t.senderPublicKey, t2, u.senderPublicKey, u2);
      SplitFirstBar(t.receiverPublicKey, t3, u.receiverPublicKey, u3);
      SplitFirstBar(t.fromAddress, t4, u.fromAddress, u4);
      SplitFirstBar(t.toAddress, t5, u.toAddress, u5);
      CoreTailDeterminesFields(t, u);
    }
  }

  /** Nothing keeps the separator out of an address. A transfer of x to someone, with nonce y and a
      payload that starts with a number z, and a transfer of y to a longer address, with nonce z, are
      one text: they have one identifier, and what was signed for one verifies for the other. */
  lemma OneSignatureTwoTransfers(t: Transaction, x: u64, y: u64, z: u64, rest: string)
    requires y > 0 && t.amount == x && t.nonce == y && t.payload == Decimal(z) + "|" + rest
    requires Verify(t)
    ensures var u := t.(toAddress := t.toAddress + "|" + Decimal(x), amount := y, nonce := z, payload := rest);
            TxCore(u) == TxCore(t) && Verify(u) && !SameFields(t, u)
  {
    var u := t.(toAddress := t.toAddress + "|" + Decimal(x), amount := y, nonce := z, payload := rest);
    BarsAssociate(t.toAddress, Decimal(x), Decimal(y), Decimal(z), rest, t.timestamp);
    assert |u.toAddress| > |t.toAddress|;
  }

  lemma BarsAssociate(to: string, x: string, y: string, z: string, rest: string, time: string)
    ensures to + "|" + (x + "|" + (y + "|" + ((z + "|" + rest) + "|" + time)))
         == (to + "|" + x) + "|" + (y + "|" + (z + "|" + (rest + "|" + time)))
  {
  }

  // ----- JSON -----

  /** A JSON object read as a transaction: any member may be missing. */
  datatype TxJson = TxJson(
    txID: Option<string>,
    senderPublicKey: Option<string>,
    receiverPublicKey: Option<string>,
    fromAddress: Option<string>,
    toAddress: Option<string>,
    amount: Option<u64>,
    nonce: Option<u64>,
    payload: Option<string>,
    timestamp: Option<string>,
    digitalSignature: Option<string>)

  function Or<T>(o: Option<T>, default: T): T {
    match o case Some(v) => v case None => default
  }

  function TxToJson(tx: Transaction): TxJson {
    TxJson(Some(tx.txID), Some(tx.senderPublicKey), Some(tx.receiverPublicKey), Some(tx.fromAddress),
           Some(tx.toAddress), Some(tx.amount), Some(tx.nonce), Some(tx.payload), Some(tx.timestamp),
           Some(tx.digitalSignature))
  }

  /** Decoding fills in what older chain entries left out. */
  function TxFromJson(j: TxJson): Transaction {
    Normalise(Transaction(Or(j.txID, ""), Or(j.senderPublicKey, ""), Or(j.receiverPublicKey, ""),
                          Or(j.fromAddress, ""), Or(j.toAddress, ""), Or(j.amount, 0), Or(j.nonce, 0),
                          Or(j.payload, ""), Or(j.timestamp, ""), Or(j.digitalSignature, "")))
  }

  function Normalise(tx: Transaction): Transaction {
    var tx1 := if tx.fromAddress == "" && tx.senderPublicKey != "" && !IsCoinbase(tx)
      then tx.(fromAddress := DeriveAddress(tx.senderPublicKey)) else tx;
    var tx2 := if tx1.toAddress == "" && tx1.receiverPublicKey != ""
      then tx1.(toAddress := DeriveAddress(tx1.receiverPublicKey)) else tx1;
    if tx2.amount == 0 && IsCoinbase(tx2) then tx2.(amount := 50) else tx2
  }

  /** Decoding has nothing to fill in. */
  predicate IsNormal(tx: Transaction) {
    && (tx.fromAddress == "" ==> tx.senderPublicKey == "" || IsCoinbase(tx))
    && (tx.toAddress == "" ==> tx.receiverPublicKey == "")
    && (tx.amount == 0 ==> !IsCoinbase(tx))
  }

  /** Whatever was received decodes to a normal transaction. */
  lemma DecodedIsNormal(j: TxJson)
    ensures IsNormal(TxFromJson(j))
  {
    assert forall key :: |DeriveAddress(key)| == 44;
  }

  /** Encoding and decoding returns the transaction exactly when it is normal. */
  lemma TxRoundTrip(tx: Transaction)
    ensures TxFromJson(TxToJson(tx)) == tx <==> IsNormal(tx)
    ensures TxFromJson(TxToJson(TxFromJson(TxToJson(tx)))) == TxFromJson(TxToJson(tx))
  {
    assert |DeriveAddress(tx.senderPublicKey)| == 44 && |DeriveAddress(tx.receiverPublicKey)| == 44;
  }

  function FirstOf(x: string, otherwise: string): string {
    if x != "" then x else otherwise
  }

  /** What decoding fills in: members that are missing read as empty, a transfer without a sender address
      gets the one of its key, one without a receiver address that of the receiver's key, and a reward of
      nothing becomes 50; everything else is taken as it is. */
  lemma DecodedFields(j: TxJson)
    ensures var tx, coinbase := TxFromJson(j), j.senderPublicKey == Some("COINBASE");
            var from, to := Or(j.fromAddress, ""), Or(j.toAddress, "");
            var key, receiver := Or(j.senderPublicKey, ""), Or(j.receiverPublicKey, "");
      && tx.txID == Or(j.txID, "") && tx.senderPublicKey == key && tx.receiverPublicKey == receiver
      && tx.fromAddress == (if key != "" && !coinbase then FirstOf(from, "PCN_" + Sha256(key)[..40]) else from)
      && tx.toAddress == (if receiver != "" then FirstOf(to, "PCN_" + Sha256(receiver)[..40]) else to)
      && tx.amount == (if coinbase && Or(j.amount, 0) == 0 then 50 else Or(j.amount, 0))
      && tx.nonce == Or(j.nonce, 0) && tx.payload == Or(j.payload, "") && tx.timestamp == Or(j.timestamp, "")
      && tx.digitalSignature == Or(j.digitalSignature, "")
  {
  }

  /** The identifier text, field after field. */
  lemma CoreReads(tx: Transaction)
    ensures TxCore(tx)
         == tx.senderPublicKey + "|" + tx.receiverPublicKey + "|" + tx.fromAddress + "|" + tx.toAddress + "|"
            + Decimal(tx.amount) + "|" + Decimal(tx.nonce) + "|" + tx.payload + "|" + tx.timestamp
  {
    hide Decimal;
    var a, n := Decimal(tx.amount), Decimal(tx.nonce);
    var t1 := tx.payload + "|" + tx.timestamp;
    var t2 := n + "|" + t1;
    var t3 := a + "|" + t2;
    var t4 := tx.toAddress + "|" + t3;
    var t5 := tx.fromAddress + "|" + t4;
    var t6 := tx.receiverPublicKey + "|" + t5;
    Flatten(tx.senderPublicKey + "|", tx.receiverPublicKey, t5);
    Flatten(tx.senderPublicKey + "|" + tx.receiverPublicKey + "|", tx.fromAddress, t4);
    Flatten(tx.senderPublicKey + "|" + tx.receiverPublicKey + "|" + tx.fromAddress + "|", tx.toAddress, t3);
    var front := tx.senderPublicKey + "|" + tx.receiverPublicKey + "|" + tx.fromAddress + "|" + tx.toAddress + "|";
    Flatten(front, a, t2);
    Flatten(front + a + "|", n, t1);
    Flatten(front + a + "|" + n + "|", tx.payload, tx.timestamp);
  }

  lemma Flatten(front: string, x: string, rest: string)
    ensures front + (x + "|" + rest) == front + x + "|" + rest
  {
  }
}
