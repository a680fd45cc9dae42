/** What a signature covers, and exactly which bytes decode to which transaction. */
module WalletPreimage {
  import opened Basics
  import opened Numbers
  import opened Rlp
  import opened Wallet
  import opened WalletProofs

  // ---------------------------------------------------------------- what is signed

  /** The same transaction type. */
  predicate SameType(a: Tx, b: Tx) {
    (a.Legacy? <==> b.Legacy?) && (a.EIP2930? <==> b.EIP2930?) && (a.EIP1559? <==> b.EIP1559?)
  }

  /** Equal in every field a chain sees; the wire carries integers without sign, and nil as zero. */
  predicate SameFields(a: Tx, b: Tx) {
    && SameType(a, b)
    && Magnitude(a.chainID) == Magnitude(b.chainID) && a.nonce == b.nonce && a.gasLimit == b.gasLimit
    && a.to == b.to && Magnitude(a.val) == Magnitude(b.val) && a.data == b.data
    && (!a.EIP1559? ==> Magnitude(a.gasPrice) == Magnitude(b.gasPrice))
    && (a.EIP1559? ==> Magnitude(a.maxPriorityFeePerGas) == Magnitude(b.maxPriorityFeePerGas)
                       && Magnitude(a.maxFeePerGas) == Magnitude(b.maxFeePerGas))
    && (!a.Legacy? ==> a.accessList == b.accessList)
  }

  lemma SameUint(m: nat, n: nat)
    requires ToBE(m) == ToBE(n)
    ensures m == n
  {
    FromToBE(m);
    FromToBE(n);
  }

  lemma SameEntries(a: seq<AccessListEntry>, b: seq<AccessListEntry>)
    requires AccessListItem(a) == AccessListItem(b)
    ensures a == b
  {
    hide AsEntries, EntryItems;
    WrittenEntriesDecode(a);
    WrittenEntriesDecode(b);
  }

  /** The layout holds every field: equal layouts of one type are equal transactions, but for the
      chain ID of a legacy one. */
  lemma LayoutBinds(a: Tx, b: Tx)
    requires SameType(a, b) && Layout(a) == Layout(b)
    ensures a.nonce == b.nonce && a.gasLimit == b.gasLimit && a.to == b.to && a.data == b.data
    ensures Magnitude(a.val) == Magnitude(b.val)
    ensures a.Legacy? || SameFields(a, b)
    ensures a.Legacy? ==> Magnitude(a.gasPrice) == Magnitude(b.gasPrice)
  {
    hide ToBE, AccessListItem;
    var x, y := Layout(a), Layout(b);
    if a.Legacy? {
      assert x[0] == y[0] && x[1] == y[1] && x[2] == y[2] && x[3] == y[3] && x[4] == y[4] && x[5] == y[5];
      SameUint(Magnitude(a.gasPrice), Magnitude(b.gasPrice));
    } else {
      SameUint(Magnitude(a.chainID), Magnitude(b.chainID));
      assert x[|x| - 1] == y[|y| - 1];
      SameEntries(a.accessList, b.accessList);
      if a.EIP2930? {
        assert x[0] == y[0] && x[1] == y[1] && x[2] == y[2] && x[3] == y[3] && x[4] == y[4] && x[5] == y[5] && x[6] == y[6];
        SameUint(Magnitude(a.gasPrice), Magnitude(b.gasPrice));
      } else {
        assert x[0] == y[0] && x[1] == y[1] && x[2] == y[2] && x[3] == y[3] && x[4] == y[4] && x[5] == y[5] && x[6] == y[6] && x[7] == y[7];
        SameUint(Magnitude(a.maxPriorityFeePerGas), Magnitude(b.maxPriorityFeePerGas));
        SameUint(Magnitude(a.maxFeePerGas), Magnitude(b.maxFeePerGas));
      }
    }
    SameUint(a.nonce, b.nonce);
    SameUint(a.gasLimit, b.gasLimit);
    SameUint(Magnitude(a.val), Magnitude(b.val));
  }

  /** The items under the signature: a legacy transaction for a chain signs the chain ID and two
      zeros after its fields (EIP-155). */
  function SignedItems(tx: Tx): seq<Item> {
    Layout(tx) + if tx.Legacy? && tx.chainID.Some? then [Str(ToBE(Magnitude(tx.chainID))), Str([]), Str([])] else []
  }

  lemma PreimageShape(tx: Tx)
    ensures SigningPreimage(tx) == TypePrefix(tx) + Encode(List(SignedItems(tx)))
  {
    hide Encode;
    assert ToBE(0) == [];
    assert Layout(tx) + [] == Layout(tx);
    var e := Encode(List(SignedItems(tx)));
    assert [] + e == e;
  }

  /** The first byte tells the types apart. */
  lemma PreimageType(tx: Tx)
    requires |SigningPreimage(tx)| < TWO_TO_64 / 2
    ensures var p := SigningPreimage(tx);
            && |p| > 0 && (tx.Legacy? <==> p[0] >= 0xc0) && (tx.EIP2930? <==> p[0] == 1) && (tx.EIP1559? <==> p[0] == 2)
            && p[if tx.Legacy? then 0 else 1..] == Encode(List(SignedItems(tx)))
  {
    hide Encode, SigningPreimage, SignedItems, EncodeAll;
    PreimageShape(tx);
    ListEncoding(SignedItems(tx));
    ListFirstByte(SignedItems(tx));
  }

  /** Replay protection: two transactions with one signing preimage have the same type, the same
      fields and the same chain ID, of whatever types and chains they are. */
  lemma PreimageBinds(a: Tx, b: Tx)
    requires SigningPreimage(a) == SigningPreimage(b) && |SigningPreimage(a)| < TWO_TO_64 / 2
    ensures SameFields(a, b) && Layout(a) == Layout(b)
    ensures a.Legacy? ==> (a.chainID.Some? <==> b.chainID.Some?)
  {
    hide Encode, SigningPreimage, SignedItems, Layout;
    PreimageType(a);
    PreimageType(b);
    EncodeInjective(List(SignedItems(a)), List(SignedItems(b)));
    ItemsBind(a, b);
    LayoutBinds(a, b);
  }

  lemma ItemsBind(a: Tx, b: Tx)
    requires SameType(a, b) && SignedItems(a) == SignedItems(b)
    ensures Layout(a) == Layout(b)
    ensures a.Legacy? ==> (a.chainID.Some? <==> b.chainID.Some?) && Magnitude(a.chainID) == Magnitude(b.chainID)
  {
    hide Layout, ToBE;
    LayoutLength(a);
    LayoutLength(b);
    var x, y, n := SignedItems(a), SignedItems(b), |Layout(a)|;
    assert x[..n] == Layout(a) && y[..n] == Layout(b);
    if a.Legacy? && |x| == 9 {
      assert x[6] == y[6];
      SameUint(Magnitude(a.chainID), Magnitude(b.chainID));
    }
  }

  /** The preimage read back: under its type byte, the fields in wire order; for a legacy transaction
      with a chain ID nine items, of which the seventh reads as the chain ID and the last two as zero. */
  lemma PreimageDecodes(tx: Tx)
    requires |Encode(List(SignedItems(tx)))| <= 10485760
    ensures var body := if tx.Legacy? then SigningPreimage(tx) else SigningPreimage(tx)[1..];
            var d := Decode(body);
            && d.Ok? && d.value.List? && Layout(tx) <= d.value.items
            && (tx.Legacy? && tx.chainID.Some? ==>
                  && |d.value.items| == 9
                  && AsBigInt(d.value.items[6]) == ReadBig(tx.chainID)
                  && AsUint64(d.value.items[7]) == Ok(0) && AsUint64(d.value.items[8]) == Ok(0))
            && (!tx.Legacy? || tx.chainID.None? ==> d.value.items == Layout(tx))
  {
    hide Encode, Decode, Depth, SigningPreimage, Layout;
    PreimageShape(tx);
    var items := SignedItems(tx);
    ItemsDepth(tx);
    DecodeExact(Encode(List(items)), List(items));
    assert [] + Encode(List(items)) == Encode(List(items));
    LayoutLength(tx);
    if tx.Legacy? && tx.chainID.Some? {
      ChainItemsRead(tx, items);
    }
  }

  lemma ChainItemsRead(tx: Tx, items: seq<Item>)
    requires tx.Legacy? && tx.chainID.Some? && items == SignedItems(tx)
    ensures |items| == 9 && AsBigInt(items[6]) == ReadBig(tx.chainID)
    ensures AsUint64(items[7]) == Ok(0) && AsUint64(items[8]) == Ok(0)
  {
    hide ToBE, Pow256, FromBE;
    WrittenBigDecodes(tx.chainID);
    WrittenUintDecodes(0);
    ZeroIsEmpty();
  }

  lemma ZeroIsEmpty()
    ensures ToBE(0) == []
  {
  }

  lemma ItemsDepth(tx: Tx)
    ensures Depth(List(SignedItems(tx))) <= 4
  {
    hide DepthAll, AccessListItem, ToBE;
    if !tx.Legacy? {
      AccessListDepth(tx.accessList);
    }
    DepthAllBound(SignedItems(tx), 3);
  }

  /** Signing and encoding refuse exactly a missing or zero chain ID. */
  lemma ChainIDRequiredExactly(keccak: Hash, tx: Tx, r: Bytes, s: Bytes, v: Bytes, recID: byte)
    ensures SigningHash(keccak, tx) == Err(MissingChainID) <==> tx.chainID == None || tx.chainID == Some(0)
    ensures SigningHash(keccak, tx).Ok? ==> SigningHash(keccak, tx).value == keccak(SigningPreimage(tx))
    ensures EncodeSigned(tx, r, s, v) == Err(MissingChainID) <==> tx.chainID == None || tx.chainID == Some(0)
    ensures AssembleV(tx, recID) == Err(MissingChainID) <==> tx.Legacy? && (tx.chainID == None || tx.chainID == Some(0))
  {
  }

  // ---------------------------------------------------------------- exactly what decodes

  ghost predicate Uint256(n: BigInt) { n.Some? && 0 <= n.value < Pow256(32) }

  /** A signature half on the wire: minimal, above zero and below the order of secp256k1. */
  predicate Scalar(b: Bytes) {
    (b == [] || b[0] != 0) && |b| <= 32
    && 1 <= FromBE(b) <= 0xFFFFFFFFFFFFFFFFFFFFFFFFFFFFFFFEBAAEDCE6AF48A03BBFD25E8CD0364140
  }

  /** Which recovery id and chain ID a legacy v may stand for: 27 and 28 without a chain, and
      35 + 2 * chainID on with one. */
  predicate LegacyV(chainID: BigInt, v: nat, recID: nat) {
    recID <= 1 && if chainID.None? then v == 27 + recID else chainID.value >= 0 && v == 35 + 2 * chainID.value + recID
  }

  /** The recovery id that a decoded v stands for. */
  ghost predicate Parity(d: DecodedTx, recID: nat) {
    if d.tx.Legacy? then (d.v == [] || d.v[0] != 0) && |d.v| <= 32 && LegacyV(d.tx.chainID, FromBE(d.v), recID)
    else recID <= 1 && d.v == (if recID == 0 then [] else [1])
  }

  ghost predicate Integers(tx: Tx) {
    && Uint256(tx.val)
    && (tx.EIP1559? ==> Uint256(tx.maxPriorityFeePerGas) && Uint256(tx.maxFeePerGas))
    && (!tx.EIP1559? ==> Uint256(tx.gasPrice))
    && (!tx.Legacy? ==> Uint256(tx.chainID))
  }

  /** A transaction the decoder can return: integers of 256 bits, scalars, and a sender that public-key
      recovery answers for the 64-byte signature on the preimage under the recovery id v stands for. */
  ghost predicate Genuine(keccak: Hash, recover: Recover, d: DecodedTx, recID: nat) {
    && Integers(d.tx) && Scalar(d.r) && Scalar(d.s) && Parity(d, recID)
    && recover(FixedBE(FromBE(d.r), 32) + FixedBE(FromBE(d.s), 32), keccak(SigningPreimage(d.tx)), recID) == Some(d.sender)
  }

  function WireOf(d: DecodedTx): Bytes {
    Encode(List(Layout(d.tx) + [Str(d.v), Str(d.r), Str(d.s)]))
  }

  lemma FieldRules(n: BigInt, b: Bytes)
    ensures ReadBig(n) == Ok(n) <==> Uint256(n)
    ensures ScalarOk(b) <==> Scalar(b)
  {
    hide FromBE, Pow256;
  }

  lemma LegacyVExactly(chainID: BigInt, v: nat, recID: nat)
    ensures LegacyV(chainID, v, recID) <==> LegacyVOk(v) && LegacyChainID(v) == chainID && LegacyRecID(v) == recID
  {
  }

  lemma ParityExactly(v: Bytes, recID: nat)
    ensures YParity(v) == Ok(recID) <==> recID <= 1 && v == (if recID == 0 then [] else [1])
  {
  }

  /** ecrecoverSender right-aligns each half in 32 bytes. */
  lemma SenderExactly(keccak: Hash, recover: Recover, tx: Tx, r: Bytes, s: Bytes, recID: nat, a: Address)
    requires Scalar(r) && Scalar(s)
    ensures Sender(keccak, recover, tx, r, s, recID) == Ok(a) <==>
            recover(FixedBE(FromBE(r), 32) + FixedBE(FromBE(s), 32), keccak(SigningPreimage(tx)), recID) == Some(a)
    ensures Sender(keccak, recover, tx, r, s, recID) == Err(RecoverFailed) <==>
            recover(FixedBE(FromBE(r), 32) + FixedBE(FromBE(s), 32), keccak(SigningPreimage(tx)), recID) == None
  {
    hide SigningPreimage, FixedBE, FromBE;
    PadIsFixed(r);
    PadIsFixed(s);
  }

  lemma PadIsFixed(b: Bytes)
    requires Minimal(b) && |b| <= 32
    ensures Pad32(b) == FixedBE(FromBE(b), 32)
  {
    hide FromBE, ToBE, FixedBE, Pow256;
    ToFromBE(b);
    FromBEBound(b);
    Pow256Monotone(|b|, 32);
    FixedIsPadded(FromBE(b), 32);
  }

  ghost predicate SomeGenuine(keccak: Hash, recover: Recover, d: DecodedTx) {
    exists recID: nat :: Genuine(keccak, recover, d, recID)
  }

  lemma LegacyExactly(keccak: Hash, recover: Recover, d: DecodedTx)
    requires d.tx.Legacy?
    ensures LegacyFields(keccak, recover, Layout(d.tx) + [Str(d.v), Str(d.r), Str(d.s)]) == Ok(d) <==> SomeGenuine(keccak, recover, d)
  {
    hide AsUint64, AsBigInt, FromBE, ToBE, Pow256, UintItem, BigItem, SigningPreimage, FixedBE, Uint256, Magnitude;
    hide LegacyVOk, LegacyChainID, LegacyRecID, Sender, ScalarOk, Scalar, LegacyV;
    var tx := d.tx;
    WrittenUintDecodes(tx.nonce);
    WrittenUintDecodes(tx.gasLimit);
    WrittenBigDecodes(tx.gasPrice);
    WrittenBigDecodes(tx.val);
    FieldRules(tx.gasPrice, d.r);
    FieldRules(tx.val, d.s);
    var v := FromBE(d.v);
    if LegacyVOk(v) {
      LegacyVExactly(tx.chainID, v, LegacyRecID(v));
      if Scalar(d.r) && Scalar(d.s) {
        SenderExactly(keccak, recover, tx, d.r, d.s, LegacyRecID(v), d.sender);
      }
      if LegacyFields(keccak, recover, Layout(d.tx) + [Str(d.v), Str(d.r), Str(d.s)]) == Ok(d) {
        assert Genuine(keccak, recover, d, LegacyRecID(v));
      }
    }
    forall recID: nat | LegacyV(tx.chainID, v, recID)
      ensures LegacyVOk(v) && LegacyRecID(v) == recID
    {
      LegacyVExactly(tx.chainID, v, recID);
    }
  }

  lemma EIP2930Exactly(keccak: Hash, recover: Recover, d: DecodedTx)
    requires d.tx.EIP2930?
    ensures EIP2930Fields(keccak, recover, Layout(d.tx) + [Str(d.v), Str(d.r), Str(d.s)]) == Ok(d) <==> SomeGenuine(keccak, recover, d)
  {
    hide AsUint64, AsBigInt, AsAddress, ParseAccessList, FromBE, Pow256, Layout, SigningPreimage, FixedBE, Uint256;
    hide Magnitude, YParity, Sender, ScalarOk, Scalar;
    var tx, items := d.tx, Layout(d.tx) + [Str(d.v), Str(d.r), Str(d.s)];
    EIP2930Written(tx, Str(d.v), Str(d.r), Str(d.s), items);
    FieldRules(tx.chainID, d.r);
    FieldRules(tx.gasPrice, d.r);
    FieldRules(tx.val, d.s);
    if YParity(d.v).Ok? {
      ParityExactly(d.v, YParity(d.v).value);
      if Scalar(d.r) && Scalar(d.s) {
        SenderExactly(keccak, recover, tx, d.r, d.s, YParity(d.v).value, d.sender);
      }
      if EIP2930Fields(keccak, recover, items) == Ok(d) {
        assert Genuine(keccak, recover, d, YParity(d.v).value);
      }
    }
    forall recID: nat | Parity(d, recID)
      ensures YParity(d.v) == Ok(recID)
    {
      ParityExactly(d.v, recID);
    }
  }

  lemma EIP1559Exactly(keccak: Hash, recover: Recover, d: DecodedTx)
    requires d.tx.EIP1559?
    ensures EIP1559Fields(keccak, recover, Layout(d.tx) + [Str(d.v), Str(d.r), Str(d.s)]) == Ok(d) <==> SomeGenuine(keccak, recover, d)
  {
    hide AsUint64, AsBigInt, AsAddress, ParseAccessList, FromBE, Pow256, Layout, SigningPreimage, FixedBE, Uint256;
    hide Magnitude, YParity, Sender, ScalarOk, Scalar;
    var tx, items := d.tx, Layout(d.tx) + [Str(d.v), Str(d.r), Str(d.s)];
    EIP1559Written(tx, Str(d.v), Str(d.r), Str(d.s), items);
    FieldRules(tx.chainID, d.r);
    FieldRules(tx.maxPriorityFeePerGas, d.r);
    FieldRules(tx.maxFeePerGas, d.r);
    FieldRules(tx.val, d.s);
    if YParity(d.v).Ok? {
      ParityExactly(d.v, YParity(d.v).value);
      if Scalar(d.r) && Scalar(d.s) {
        SenderExactly(keccak, recover, tx, d.r, d.s, YParity(d.v).value, d.sender);
      }
      if EIP1559Fields(keccak, recover, items) == Ok(d) {
        assert Genuine(keccak, recover, d, YParity(d.v).value);
      }
    }
    forall recID: nat | Parity(d, recID)
      ensures YParity(d.v) == Ok(recID)
    {
      ParityExactly(d.v, recID);
    }
  }

  /** The decoder reads v as it stands on the wire. */
  lemma VerbatimV(d: DecodedTx, recID: nat)
    requires Parity(d, recID)
    ensures VItem(d.tx, d.v) == Str(d.v)
  {
    if !d.tx.Legacy? {
      ToFromBE(d.v);
    }
  }

  lemma FieldsExactly(keccak: Hash, recover: Recover, d: DecodedTx)
    ensures |Layout(d.tx) + [Str(d.v), Str(d.r), Str(d.s)]| == |Layout(d.tx)| + 3
    ensures FieldsByType(keccak, recover, d.tx, Layout(d.tx) + [Str(d.v), Str(d.r), Str(d.s)]) == Ok(d) <==> SomeGenuine(keccak, recover, d)
  {
    hide LegacyFields, EIP2930Fields, EIP1559Fields, Layout, SomeGenuine;
    LayoutLength(d.tx);
    if d.tx.Legacy? {
      LegacyExactly(keccak, recover, d);
    } else if d.tx.EIP2930? {
      EIP2930Exactly(keccak, recover, d);
    } else {
      EIP1559Exactly(keccak, recover, d);
    }
  }

  /** What the decoder accepts is within the size limit, and its v is one that stands for a recovery id. */
  lemma AcceptedIsWire(keccak: Hash, recover: Recover, raw: Bytes, d: DecodedTx)
    requires DecodeTransaction(keccak, recover, raw) == Ok(d)
    ensures raw == TypePrefix(d.tx) + WireOf(d) && |WireOf(d)| <= MAX_INPUT_LEN
    ensures VItem(d.tx, d.v) == Str(d.v)
  {
    hide Encode, DecodeBody, LegacyFields, EIP2930Fields, EIP1559Fields, Layout;
    DecodeRebuilds(keccak, recover, raw);
    if raw[0] >= 0xc0 {
      AcceptedBody(raw, 9);
      LegacyRebuilds(keccak, recover, DecodeBody(raw, 9).value);
      assert [] + WireOf(d) == WireOf(d);
    } else if raw[0] == 0x01 {
      AcceptedBody(raw[1..], 11);
      EIP2930Rebuilds(keccak, recover, DecodeBody(raw[1..], 11).value);
      EIP2930V(keccak, recover, DecodeBody(raw[1..], 11).value);
      assert raw[1..] == WireOf(d);
    } else {
      AcceptedBody(raw[1..], 12);
      EIP1559Rebuilds(keccak, recover, DecodeBody(raw[1..], 12).value);
      EIP1559V(keccak, recover, DecodeBody(raw[1..], 12).value);
      assert raw[1..] == WireOf(d);
    }
  }

  lemma AcceptedBody(body: Bytes, fields: nat)
    requires DecodeBody(body, fields).Ok?
    ensures |body| <= MAX_INPUT_LEN
  {
  }

  lemma ParityMinimal(v: Bytes)
    requires YParity(v).Ok?
    ensures ToBE(FromBE(v)) == v
  {
    ToFromBE(v);
  }

  lemma EIP2930V(keccak: Hash, recover: Recover, items: seq<Item>)
    requires |items| == 11 && EIP2930Fields(keccak, recover, items).Ok?
    ensures var v := EIP2930Fields(keccak, recover, items).value.v; ToBE(FromBE(v)) == v
  {
    hide AsUint64, AsBigInt, AsAddress, ParseAccessList, FromBE, ToBE, Sender, AsScalar;
    ParityMinimal(items[8].b);
  }

  lemma EIP1559V(keccak: Hash, recover: Recover, items: seq<Item>)
    requires |items| == 12 && EIP1559Fields(keccak, recover, items).Ok?
    ensures var v := EIP1559Fields(keccak, recover, items).value.v; ToBE(FromBE(v)) == v
  {
    hide AsUint64, AsBigInt, AsAddress, ParseAccessList, FromBE, ToBE, Sender, AsScalar;
    ParityMinimal(items[9].b);
  }

  /** Exactly one byte string decodes to a transaction, and exactly the genuine ones have one: the type
      byte and the canonical encoding of the fields and the signature, of at most 10 MiB. */
  lemma TransactionExact(keccak: Hash, recover: Recover, raw: Bytes, d: DecodedTx)
    ensures DecodeTransaction(keccak, recover, raw) == Ok(d) <==>
            && raw == TypePrefix(d.tx) + WireOf(d) && |WireOf(d)| <= 10485760
            && exists recID: nat :: Genuine(keccak, recover, d, recID)
  {
    hide Encode, DecodeTransaction, FieldsByType, Layout, Genuine, FromBE;
    FieldsExactly(keccak, recover, d);
    if DecodeTransaction(keccak, recover, raw) == Ok(d) {
      AcceptedIsWire(keccak, recover, raw, d);
      DispatchesOnType(keccak, recover, d.tx, d.r, d.s, d.v);
    }
    if recID: nat :| raw == TypePrefix(d.tx) + WireOf(d) && |WireOf(d)| <= 10485760 && Genuine(keccak, recover, d, recID) {
      GenuineV(keccak, recover, d, recID);
      DispatchesOnType(keccak, recover, d.tx, d.r, d.s, d.v);
    }
  }

  lemma GenuineV(keccak: Hash, recover: Recover, d: DecodedTx, recID: nat)
    requires Genuine(keccak, recover, d, recID)
    ensures VItem(d.tx, d.v) == Str(d.v)
  {
    VerbatimV(d, recID);
  }
}
