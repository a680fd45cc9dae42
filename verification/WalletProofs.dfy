/** The transaction codec is exact: what is accepted rebuilds byte for byte, and what is signed
    decodes back exactly under stated conditions. */
module WalletProofs {
  import opened Basics
  import opened Numbers
  import opened Rlp
  import opened RlpPanic
  import opened Wallet

  // ---------------------------------------------------------------- fields rebuild

  lemma UintRebuilds(v: Item)
    ensures AsUint64(v).Ok? ==> v == UintItem(AsUint64(v).value)
    ensures AsBigInt(v).Ok? ==> v == BigItem(AsBigInt(v).value)
  {
    hide FromBE, ToBE, Pow256;
    if v.Str? && Minimal(v.b) {
      ToFromBE(v.b);
    }
  }

  lemma {:induction false} KeysRebuild(items: seq<Item>)
    requires AsKeys(items).Ok?
    ensures items == KeyItems(AsKeys(items).value)
  {
    if items != [] {
      KeysRebuild(items[..|items| - 1]);
    }
  }

  lemma EntryRebuilds(v: Item)
    requires AsEntry(v).Ok?
    ensures v == EntryItem(AsEntry(v).value)
  {
    KeysRebuild(v.items[1].items);
  }

  lemma {:induction false} EntriesRebuild(items: seq<Item>)
    requires AsEntries(items).Ok?
    ensures items == EntryItems(AsEntries(items).value)
  {
    hide AsEntry, EntryItem;
    if items != [] {
      EntriesRebuild(items[..|items| - 1]);
      EntryRebuilds(items[|items| - 1]);
    }
  }

  lemma AccessListRebuilds(v: Item)
    requires ParseAccessList(v).Ok?
    ensures v == AccessListItem(ParseAccessList(v).value)
  {
    hide AsEntries;
    EntriesRebuild(v.items);
  }

  lemma LegacyRebuilds(keccak: Hash, recover: Recover, items: seq<Item>)
    requires |items| == 9
    ensures var d := LegacyFields(keccak, recover, items);
            d.Ok? ==> d.value.tx.Legacy? && List(items) == SignedItem(d.value.tx, Str(d.value.v), d.value.r, d.value.s)
  {
    hide AsUint64, AsBigInt, FromBE, ToBE, Sender, UintItem, BigItem;
    UintRebuilds(items[0]);
    UintRebuilds(items[1]);
    UintRebuilds(items[2]);
    UintRebuilds(items[4]);
    var d := LegacyFields(keccak, recover, items);
    if d.Ok? {
      assert items == Layout(d.value.tx) + [Str(d.value.v), Str(d.value.r), Str(d.value.s)];
    }
  }

  lemma EIP2930Rebuilds(keccak: Hash, recover: Recover, items: seq<Item>)
    requires |items| == 11
    ensures var d := EIP2930Fields(keccak, recover, items);
            d.Ok? ==> d.value.tx.EIP2930? && List(items) == SignedItem(d.value.tx, Str(d.value.v), d.value.r, d.value.s)
  {
    hide AsUint64, AsBigInt, FromBE, ToBE, Sender, UintItem, BigItem, ParseAccessList, AccessListItem;
    UintRebuilds(items[0]);
    UintRebuilds(items[1]);
    UintRebuilds(items[2]);
    UintRebuilds(items[3]);
    UintRebuilds(items[5]);
    if ParseAccessList(items[7]).Ok? { AccessListRebuilds(items[7]); }
    var d := EIP2930Fields(keccak, recover, items);
    if d.Ok? {
      assert items == Layout(d.value.tx) + [Str(d.value.v), Str(d.value.r), Str(d.value.s)];
    }
  }

  lemma EIP1559Rebuilds(keccak: Hash, recover: Recover, items: seq<Item>)
    requires |items| == 12
    ensures var d := EIP1559Fields(keccak, recover, items);
            d.Ok? ==> d.value.tx.EIP1559? && List(items) == SignedItem(d.value.tx, Str(d.value.v), d.value.r, d.value.s)
  {
    hide AsUint64, AsBigInt, FromBE, ToBE, Sender, UintItem, BigItem, ParseAccessList, AccessListItem;
    UintRebuilds(items[0]);
    UintRebuilds(items[1]);
    UintRebuilds(items[2]);
    UintRebuilds(items[3]);
    UintRebuilds(items[4]);
    UintRebuilds(items[6]);
    if ParseAccessList(items[8]).Ok? { AccessListRebuilds(items[8]); }
    var d := EIP1559Fields(keccak, recover, items);
    if d.Ok? {
      assert items == Layout(d.value.tx) + [Str(d.value.v), Str(d.value.r), Str(d.value.s)];
    }
  }

  lemma BodyIsEncoding(body: Bytes, fields: nat)
    requires DecodeBody(body, fields).Ok?
    ensures body == Encode(List(DecodeBody(body, fields).value))
  {
    hide Encode, Depth;
    DecodeExact(body, Decode(body).value);
  }

  /** Whatever DecodeTransaction accepts is, byte for byte, the type prefix and RLP layout of the
      fields it returned. */
  lemma DecodeRebuilds(keccak: Hash, recover: Recover, raw: Bytes)
    ensures var d := DecodeTransaction(keccak, recover, raw);
            d.Ok? ==> raw == TypePrefix(d.value.tx) + Encode(SignedItem(d.value.tx, Str(d.value.v), d.value.r, d.value.s))
  {
    hide Encode, DecodeBody, LegacyFields, EIP2930Fields, EIP1559Fields, SignedItem;
    if DecodeTransaction(keccak, recover, raw).Ok? {
      if raw[0] >= 0xc0 {
        BodyIsEncoding(raw, 9);
        LegacyRebuilds(keccak, recover, DecodeBody(raw, 9).value);
        assert [] + raw == raw;
      } else if raw[0] == 0x01 {
        BodyIsEncoding(raw[1..], 11);
        EIP2930Rebuilds(keccak, recover, DecodeBody(raw[1..], 11).value);
        assert [0x01] + raw[1..] == raw;
      } else {
        BodyIsEncoding(raw[1..], 12);
        EIP1559Rebuilds(keccak, recover, DecodeBody(raw[1..], 12).value);
        assert [0x02] + raw[1..] == raw;
      }
    }
  }

  // ---------------------------------------------------------------- written fields decode

  const UINT256_LIMIT := Pow256(32)

  lemma WrittenUintDecodes(n: uint64)
    ensures AsUint64(UintItem(n)) == Ok(n)
  {
    hide FromBE, ToBE, Pow256;
    FromToBE(n);
    Pow256Values();
    ToBELength(n, 8);
  }

  lemma WrittenBigDecodes(n: BigInt)
    ensures AsBigInt(BigItem(n)) == if Magnitude(n) < UINT256_LIMIT then Ok(Some(Magnitude(n))) else Err(InvalidField)
  {
    hide FromBE, ToBE, Pow256;
    FromToBE(Magnitude(n));
    ToBELength(Magnitude(n), 32);
  }

  lemma {:induction false} WrittenKeysDecode(keys: seq<Digest>)
    ensures AsKeys(KeyItems(keys)) == Ok(keys)
  {
    if keys != [] {
      var n := |keys| - 1;
      WrittenKeysDecode(keys[..n]);
      assert KeyItems(keys)[..n] == KeyItems(keys[..n]);
      assert keys == keys[..n] + [keys[n]];
    }
  }

  lemma {:induction false} WrittenEntriesDecode(l: seq<AccessListEntry>)
    ensures AsEntries(EntryItems(l)) == Ok(l)
  {
    hide AsKeys;
    if l != [] {
      var n := |l| - 1;
      WrittenEntriesDecode(l[..n]);
      WrittenKeysDecode(l[n].storageKeys);
      assert EntryItems(l)[..n] == EntryItems(l[..n]);
      assert l == l[..n] + [l[n]];
    }
  }

  lemma {:induction false} DepthAllBound(items: seq<Item>, d: nat)
    requires forall i :: 0 <= i < |items| ==> Depth(items[i]) <= d
    ensures DepthAll(items) <= d
  {
    if items != [] {
      DepthAllBound(items[1..], d);
    }
  }

  lemma AccessListDepth(l: seq<AccessListEntry>)
    ensures Depth(AccessListItem(l)) <= 3
  {
    forall i | 0 <= i < |l|
      ensures Depth(EntryItems(l)[i]) <= 2
    {
      DepthAllBound(KeyItems(l[i].storageKeys), 0);
      DepthAllBound(EntryItem(l[i]).items, 1);
    }
    DepthAllBound(EntryItems(l), 2);
  }

  lemma SignedItemDepth(tx: Tx, v: Bytes, r: Bytes, s: Bytes)
    ensures Depth(SignedItem(tx, Str(v), r, s)) <= 4
  {
    hide DepthAll, AccessListItem, ToBE;
    if !tx.Legacy? {
      AccessListDepth(tx.accessList);
    }
    DepthAllBound(Layout(tx) + [Str(v), Str(r), Str(s)], 3);
  }

  // ---------------------------------------------------------------- sign, then decode

  /** nil read as zero. */
  function NilAsZero(n: BigInt): BigInt { if n.None? then Some(0) else n }

  function Normalized(tx: Tx): Tx {
    match tx
    case Legacy(c, nonce, p, g, to, val, data) => Legacy(NilAsZero(c), nonce, NilAsZero(p), g, to, NilAsZero(val), data)
    case EIP2930(c, nonce, p, g, to, val, data, l) =>
      EIP2930(NilAsZero(c), nonce, NilAsZero(p), g, to, NilAsZero(val), data, l)
    case EIP1559(c, nonce, p, f, g, to, val, data, l) =>
      EIP1559(NilAsZero(c), nonce, NilAsZero(p), NilAsZero(f), g, to, NilAsZero(val), data, l)
  }

  predicate Fits(n: BigInt) { n.None? || 0 <= n.value < UINT256_LIMIT }

  /** Every integer field is a uint256, and so is v. */
  predicate InRange(tx: Tx, recID: byte) {
    match tx
    case Legacy(c, _, p, _, _, val, _) =>
      c.Some? && 0 <= c.value && 2 * c.value + recID + 35 < UINT256_LIMIT && Fits(p) && Fits(val)
    case EIP2930(c, _, p, _, _, val, _, _) => Fits(c) && Fits(p) && Fits(val)
    case EIP1559(c, _, p, f, _, _, val, _, _) => Fits(c) && Fits(p) && Fits(f) && Fits(val)
  }

  /** The recovery id a decoded v stands for. */
  function RecIDOf(d: DecodedTx): nat {
    if !d.tx.Legacy? then FromBE(d.v)
    else if LegacyVOk(FromBE(d.v)) then LegacyRecID(FromBE(d.v)) else 4
  }

  /** What public-key recovery answers for a signature on tx. */
  function SignerOf(keccak: Hash, recover: Recover, tx: Tx, r: Bytes, s: Bytes, recID: nat): Option<Address> {
    if |r| > 32 || |s| > 32 || SigningHash(keccak, tx).Err? then None
    else recover(Pad32(r) + Pad32(s), SigningHash(keccak, tx).value, recID)
  }

  /** Decoding returned the signed transaction: same fields, chain ID, signature, recovery id and
      signing preimage, and the sender that recovery answers for it. */
  predicate Recovered(keccak: Hash, recover: Recover, out: Result<DecodedTx, TxError>, tx: Tx, r: Bytes, s: Bytes, recID: byte) {
    && out.Ok? && out.value.tx == Normalized(tx)
    && out.value.r == r && out.value.s == s && RecIDOf(out.value) == recID
    && SigningPreimage(out.value.tx) == SigningPreimage(tx)
    && SignerOf(keccak, recover, tx, r, s, recID) == Some(out.value.sender)
  }

  /** What it takes: integers in range, a recovery id of 0 or 1, minimal scalars below the curve order,
      and a key to recover. */
  predicate Recoverable(keccak: Hash, recover: Recover, tx: Tx, r: Bytes, s: Bytes, recID: byte) {
    && InRange(tx, recID) && recID <= 1 && ScalarOk(r) && ScalarOk(s)
    && SignerOf(keccak, recover, tx, r, s, recID).Some?
  }

  /** Reading nil as zero changes neither the layout nor what is signed. */
  lemma NormalizedSignsAlike(tx: Tx)
    requires tx.chainID.Some?
    ensures Layout(Normalized(tx)) == Layout(tx)
    ensures SigningPreimage(Normalized(tx)) == SigningPreimage(tx)
  {
    hide Encode, ToBE;
    assert forall n: BigInt :: BigItem(NilAsZero(n)) == BigItem(n);
  }

  /** v = 35 + 2 * chainID + recID is inverted exactly for non-negative chain IDs and recovery
      ids 0 and 1; ids 2 and 3 read back as another chain. */
  lemma VInverts(chainID: int, recID: byte)
    ensures var n := Abs(2 * chainID + recID + 35);
            (LegacyVOk(n) && LegacyChainID(n) == Some(chainID) && LegacyRecID(n) == recID) <==>
            (chainID >= 0 && recID <= 1)
  {
  }

  lemma LegacySigned(keccak: Hash, recover: Recover, tx: Tx, r: Bytes, s: Bytes, recID: byte)
    requires tx.Legacy? && HasChainID(tx)
    ensures var v := AssembleV(tx, recID).value;
            Recovered(keccak, recover, LegacyFields(keccak, recover, Layout(tx) + [Str(v), Str(r), Str(s)]), tx, r, s, recID)
            <==> Recoverable(keccak, recover, tx, r, s, recID)
  {
    hide AsUint64, AsBigInt, FromBE, ToBE, Pow256, UintItem, BigItem, Encode, SigningPreimage;
    hide LegacyVOk, LegacyChainID, LegacyRecID, Pad32;
    var n := Abs(2 * tx.chainID.value + recID + 35);
    VInverts(tx.chainID.value, recID);
    FromToBE(n);
    ToBELength(n, 32);
    WrittenUintDecodes(tx.nonce);
    WrittenUintDecodes(tx.gasLimit);
    WrittenBigDecodes(tx.gasPrice);
    WrittenBigDecodes(tx.val);
    NormalizedSignsAlike(tx);
  }

  lemma WrittenParityDecodes(recID: byte)
    ensures YParity(ToBE(recID)) == if recID <= 1 then Ok(recID) else Err(InvalidField)
    ensures FromBE(ToBE(recID)) == recID && FromBE([recID]) == recID
  {
    FromToBE(recID);
    assert [recID][..0] == [];
    if recID > 0 {
      assert ToBE(recID) == ToBE(0) + [recID] == [recID];
    }
  }

  /** What the decoder reads where a big integer was written. */
  function ReadBig(n: BigInt): Result<BigInt, TxError> {
    if Magnitude(n) < UINT256_LIMIT then Ok(Some(Magnitude(n))) else Err(InvalidField)
  }

  /** What it reads in the eight unsigned fields of an EIP-2930 transaction. */
  lemma EIP2930Written(tx: Tx, v: Item, r: Item, s: Item, items: seq<Item>)
    requires tx.EIP2930? && items == Layout(tx) + [v, r, s]
    ensures |items| == 11 && items[8] == v && items[9] == r && items[10] == s
    ensures AsBigInt(items[0]) == ReadBig(tx.chainID) && AsUint64(items[1]) == Ok(tx.nonce)
    ensures AsBigInt(items[2]) == ReadBig(tx.gasPrice) && AsUint64(items[3]) == Ok(tx.gasLimit)
    ensures AsAddress(items[4]) == Ok(tx.to) && AsBigInt(items[5]) == ReadBig(tx.val)
    ensures AsBytes(items[6]) == Ok(tx.data) && ParseAccessList(items[7]) == Ok(tx.accessList)
  {
    hide AsUint64, AsBigInt, ToBE, Pow256, BigItem, AsEntries, EntryItems;
    WrittenUintDecodes(tx.nonce);
    WrittenUintDecodes(tx.gasLimit);
    WrittenBigDecodes(tx.chainID);
    WrittenBigDecodes(tx.gasPrice);
    WrittenBigDecodes(tx.val);
    WrittenEntriesDecode(tx.accessList);
  }

  lemma EIP2930Signed(keccak: Hash, recover: Recover, tx: Tx, r: Bytes, s: Bytes, recID: byte)
    requires tx.EIP2930? && HasChainID(tx)
    ensures Recovered(keccak, recover, EIP2930Fields(keccak, recover, Layout(tx) + [UintItem(recID), Str(r), Str(s)]), tx, r, s, recID)
            <==> Recoverable(keccak, recover, tx, r, s, recID)
  {
    hide AsUint64, AsBigInt, AsAddress, ParseAccessList, FromBE, ToBE, Pow256, Layout, SigningPreimage, YParity, Pad32;
    WrittenParityDecodes(recID);
    EIP2930Written(tx, UintItem(recID), Str(r), Str(s), Layout(tx) + [UintItem(recID), Str(r), Str(s)]);
    NormalizedSignsAlike(tx);
  }

  /** What it reads in the nine unsigned fields of an EIP-1559 transaction. */
  lemma EIP1559Written(tx: Tx, v: Item, r: Item, s: Item, items: seq<Item>)
    requires tx.EIP1559? && items == Layout(tx) + [v, r, s]
    ensures |items| == 12 && items[9] == v && items[10] == r && items[11] == s
    ensures AsBigInt(items[0]) == ReadBig(tx.chainID) && AsUint64(items[1]) == Ok(tx.nonce)
    ensures AsBigInt(items[2]) == ReadBig(tx.maxPriorityFeePerGas) && AsBigInt(items[3]) == ReadBig(tx.maxFeePerGas)
    ensures AsUint64(items[4]) == Ok(tx.gasLimit) && AsAddress(items[5]) == Ok(tx.to)
    ensures AsBigInt(items[6]) == ReadBig(tx.val) && AsBytes(items[7]) == Ok(tx.data)
    ensures ParseAccessList(items[8]) == Ok(tx.accessList)
  {
    hide AsUint64, AsBigInt, ToBE, Pow256, BigItem, AsEntries, EntryItems;
    WrittenUintDecodes(tx.nonce);
    WrittenUintDecodes(tx.gasLimit);
    WrittenBigDecodes(tx.chainID);
    WrittenBigDecodes(tx.maxPriorityFeePerGas);
    WrittenBigDecodes(tx.maxFeePerGas);
    WrittenBigDecodes(tx.val);
    WrittenEntriesDecode(tx.accessList);
  }

  lemma EIP1559Signed(keccak: Hash, recover: Recover, tx: Tx, r: Bytes, s: Bytes, recID: byte)
    requires tx.EIP1559? && HasChainID(tx)
    ensures Recovered(keccak, recover, EIP1559Fields(keccak, recover, Layout(tx) + [UintItem(recID), Str(r), Str(s)]), tx, r, s, recID)
            <==> Recoverable(keccak, recover, tx, r, s, recID)
  {
    hide AsUint64, AsBigInt, AsAddress, ParseAccessList, FromBE, ToBE, Pow256, Layout, SigningPreimage, YParity, Pad32;
    WrittenParityDecodes(recID);
    EIP1559Written(tx, UintItem(recID), Str(r), Str(s), Layout(tx) + [UintItem(recID), Str(r), Str(s)]);
    NormalizedSignsAlike(tx);
  }

  lemma ListFirstByte(items: seq<Item>)
    requires |EncodeAll(items)| < TWO_TO_64
    ensures |Encode(List(items))| > 0 && Encode(List(items))[0] >= 0xc0
  {
    hide ToBE;
    var n := |EncodeAll(items)|;
    if n > 55 {
      LongLengthBytes(n);
    }
  }

  lemma WrittenBodyDecodes(items: seq<Item>)
    requires |Encode(List(items))| <= MAX_INPUT_LEN && Depth(List(items)) <= MAX_NESTING_DEPTH
    ensures DecodeBody(Encode(List(items)), |items|) == Ok(items)
  {
    hide Encode, Depth, Decode;
    DecodeExact(Encode(List(items)), List(items));
  }

  /** The items that go on the wire, with v as written. */
  function WireItems(tx: Tx, v: Bytes, r: Bytes, s: Bytes): seq<Item> {
    Layout(tx) + [VItem(tx, v), Str(r), Str(s)]
  }

  function FieldsByType(keccak: Hash, recover: Recover, tx: Tx, items: seq<Item>): Result<DecodedTx, TxError>
    requires |items| == |Layout(tx)| + 3
  {
    if tx.Legacy? then LegacyFields(keccak, recover, items)
    else if tx.EIP2930? then EIP2930Fields(keccak, recover, items)
    else EIP1559Fields(keccak, recover, items)
  }

  lemma DispatchesOnType(keccak: Hash, recover: Recover, tx: Tx, r: Bytes, s: Bytes, v: Bytes)
    requires |Encode(SignedItem(tx, VItem(tx, v), r, s))| <= MAX_INPUT_LEN
    ensures DecodeTransaction(keccak, recover, TypePrefix(tx) + Encode(SignedItem(tx, VItem(tx, v), r, s)))
         == FieldsByType(keccak, recover, tx, WireItems(tx, v, r, s))
  {
    hide Encode, DecodeBody, LegacyFields, EIP2930Fields, EIP1559Fields, Layout, FromBE, ToBE, Depth;
    LayoutLength(tx);
    var items := WireItems(tx, v, r, s);
    SignedItemDepth(tx, VItem(tx, v).b, r, s);
    ListEncoding(items);
    ListFirstByte(items);
    WrittenBodyDecodes(items);
    var body := Encode(List(items));
    assert [] + body == body && ([0x01] + body)[1..] == body && ([0x02] + body)[1..] == body;
  }

  lemma ListEncoding(items: seq<Item>)
    ensures |EncodeAll(items)| < |Encode(List(items))|
  {
    hide EncodePayload;
    PayloadIsShorter(EncodeAll(items));
  }

  lemma LargeBodyFails(body: Bytes, fields: nat)
    requires |body| > MAX_INPUT_LEN
    ensures DecodeBody(body, fields).Err?
  {
  }

  /** Beyond the size limit nothing decodes, whatever the first byte says. */
  lemma LargeNeverDecodes(keccak: Hash, recover: Recover, tx: Tx, r: Bytes, s: Bytes, v: Bytes)
    requires |Encode(SignedItem(tx, VItem(tx, v), r, s))| > MAX_INPUT_LEN
    ensures DecodeTransaction(keccak, recover, TypePrefix(tx) + Encode(SignedItem(tx, VItem(tx, v), r, s))).Err?
  {
    hide Encode, EncodeAll, DecodeBody, LegacyFields, EIP2930Fields, EIP1559Fields, Layout, FromBE, ToBE;
    var items := WireItems(tx, v, r, s);
    var body := Encode(List(items));
    var raw := TypePrefix(tx) + body;
    if tx.Legacy? {
      assert raw == body;
      ListEncoding(items);
      LargeBodyFails(raw, 9);
      if |EncodeAll(items)| < TWO_TO_64 {
        ListFirstByte(items);
      } else {
        LargeBodyFails(raw[1..], 11);
        LargeBodyFails(raw[1..], 12);
      }
    } else {
      assert raw[1..] == body;
      LargeBodyFails(body, 11);
      LargeBodyFails(body, 12);
    }
  }

  /** Sign, then decode: a signed transaction of any type comes back with every field, the chain
      ID, the signature, the recovery id, the same signing preimage and the recovered sender,
      exactly when it is recoverable and its encoding is within the decoder's size limit. */
  lemma SignedRoundTrip(keccak: Hash, recover: Recover, tx: Tx, r: Bytes, s: Bytes, recID: byte)
    requires HasChainID(tx)
    ensures var v := AssembleV(tx, recID).value;
            var raw := EncodeSigned(tx, r, s, v);
            && raw.Ok?
            && (Recovered(keccak, recover, DecodeTransaction(keccak, recover, raw.value), tx, r, s, recID) <==>
                && Recoverable(keccak, recover, tx, r, s, recID)
                && |Encode(SignedItem(tx, VItem(tx, v), r, s))| <= MAX_INPUT_LEN)
  {
    hide Encode, DecodeTransaction, LegacyFields, EIP2930Fields, EIP1559Fields, Layout, FromBE, ToBE;
    var v := AssembleV(tx, recID).value;
    if |Encode(SignedItem(tx, VItem(tx, v), r, s))| > MAX_INPUT_LEN {
      LargeNeverDecodes(keccak, recover, tx, r, s, v);
    } else {
      SignedFieldsRoundTrip(keccak, recover, tx, r, s, recID);
    }
  }

  lemma SignedFieldsRoundTrip(keccak: Hash, recover: Recover, tx: Tx, r: Bytes, s: Bytes, recID: byte)
    requires HasChainID(tx)
    requires |Encode(SignedItem(tx, VItem(tx, AssembleV(tx, recID).value), r, s))| <= MAX_INPUT_LEN
    ensures var raw := EncodeSigned(tx, r, s, AssembleV(tx, recID).value);
            && raw.Ok?
            && (Recovered(keccak, recover, DecodeTransaction(keccak, recover, raw.value), tx, r, s, recID) <==>
                Recoverable(keccak, recover, tx, r, s, recID))
  {
    hide Encode, DecodeTransaction, LegacyFields, EIP2930Fields, EIP1559Fields, Layout, FromBE, ToBE;
    hide Recovered, Recoverable;
    WrittenParityDecodes(recID);
    DispatchesOnType(keccak, recover, tx, r, s, AssembleV(tx, recID).value);
    if tx.Legacy? {
      LegacySigned(keccak, recover, tx, r, s, recID);
    } else if tx.EIP2930? {
      EIP2930Signed(keccak, recover, tx, r, s, recID);
    } else {
      EIP1559Signed(keccak, recover, tx, r, s, recID);
    }
  }

  lemma LayoutLength(tx: Tx)
    ensures |Layout(tx)| == if tx.Legacy? then 6 else if tx.EIP2930? then 8 else 9
  {
  }

  /** SignTx passes the 32-byte halves of the signature as r and s. Whenever a half starts with a
      zero byte, the transaction it signs is rejected by the decoder: the round trip then fails
      for every transaction and every recovery outcome. */
  lemma LeadingZeroHalfIsRejected(keccak: Hash, recover: Recover, tx: Tx, sig: Bytes, recID: byte)
    requires HasChainID(tx) && |sig| == 64 && (sig[0] == 0 || sig[32] == 0)
    ensures var raw := EncodeSigned(tx, sig[..32], sig[32..], AssembleV(tx, recID).value);
            raw.Ok? && DecodeTransaction(keccak, recover, raw.value).Err?
  {
    hide Encode, DecodeTransaction, FieldsByType, ToBE, FromBE, Layout;
    var v := AssembleV(tx, recID).value;
    if |Encode(SignedItem(tx, VItem(tx, v), sig[..32], sig[32..]))| > MAX_INPUT_LEN {
      LargeNeverDecodes(keccak, recover, tx, sig[..32], sig[32..], v);
    } else {
      DispatchesOnType(keccak, recover, tx, sig[..32], sig[32..], v);
      BadScalarFails(keccak, recover, tx, VItem(tx, v), sig[..32], sig[32..]);
    }
  }

  lemma BadScalarFails(keccak: Hash, recover: Recover, tx: Tx, v: Item, r: Bytes, s: Bytes)
    requires !ScalarOk(r) || !ScalarOk(s)
    ensures FieldsByType(keccak, recover, tx, Layout(tx) + [v, Str(r), Str(s)]).Err?
  {
    hide ScalarOk, AsUint64, AsBigInt, AsAddress, ParseAccessList, YParity, Sender, FromBE, ToBE, AccessListItem;
    var items := Layout(tx) + [v, Str(r), Str(s)];
    assert items[|items| - 2] == Str(r) && items[|items| - 1] == Str(s);
  }

  // ---------------------------------------------------------------- the run-time panic

  /** rlp.Decode slices out of range on this input. */
  ghost predicate DecodePanics(b: Bytes) {
    |b| <= MAX_INPUT_LEN && Stands(b, 0)
  }

  lemma ListFieldErrors(v: Item)
    ensures ParseAccessList(v).Err? ==> ParseAccessList(v).error == InvalidField
  {
    hide AsEntries;
    if v.List? {
      EntriesErrors(v.items);
    }
  }

  /** The field decoders fail on a field or on recovery, and never report a failure of rlp.Decode. */
  predicate FieldError(r: Result<DecodedTx, TxError>) {
    r.Ok? || r.error == InvalidField || r.error == RecoverFailed
  }

  lemma LegacyErrors(keccak: Hash, recover: Recover, items: seq<Item>)
    requires |items| == 9
    ensures FieldError(LegacyFields(keccak, recover, items))
  {
    hide FromBE, IntegerFieldOk, ScalarOk, SigningPreimage, Pad32, ParseAccessList, LegacyVOk;
  }

  lemma EIP2930Errors(keccak: Hash, recover: Recover, items: seq<Item>)
    requires |items| == 11
    ensures FieldError(EIP2930Fields(keccak, recover, items))
  {
    hide FromBE, IntegerFieldOk, ScalarOk, SigningPreimage, Pad32, ParseAccessList, LegacyVOk;
    ListFieldErrors(items[7]);
  }

  lemma EIP1559Errors(keccak: Hash, recover: Recover, items: seq<Item>)
    requires |items| == 12
    ensures FieldError(EIP1559Fields(keccak, recover, items))
  {
    hide FromBE, IntegerFieldOk, ScalarOk, SigningPreimage, Pad32, ParseAccessList, LegacyVOk;
    ListFieldErrors(items[8]);
  }

  lemma {:induction false} KeysErrors(items: seq<Item>)
    ensures AsKeys(items).Err? ==> AsKeys(items).error == InvalidField
  {
    if items != [] {
      KeysErrors(items[..|items| - 1]);
    }
  }

  lemma {:induction false} EntriesErrors(items: seq<Item>)
    ensures AsEntries(items).Err? ==> AsEntries(items).error == InvalidField
  {
    hide AsKeys;
    if items != [] {
      EntriesErrors(items[..|items| - 1]);
      EntryErrors(items[|items| - 1]);
    }
  }

  lemma EntryErrors(v: Item)
    ensures AsEntry(v).Err? ==> AsEntry(v).error == InvalidField
  {
    hide AsKeys;
    if v.List? && |v.items| == 2 && v.items[1].List? {
      KeysErrors(v.items[1].items);
    }
  }

  /** An empty input and an unknown type byte are reported exactly as such. */
  lemma DispatchErrorsExactly(keccak: Hash, recover: Recover, raw: Bytes)
    ensures DecodeTransaction(keccak, recover, raw) == Err(EmptyInput) <==> raw == []
    ensures DecodeTransaction(keccak, recover, raw) == Err(InvalidType) <==> raw != [] && raw[0] < 192 && raw[0] != 1 && raw[0] != 2
  {
    hide Decode, LegacyFields, EIP2930Fields, EIP1559Fields;
    if |raw| > 0 && raw[0] >= 0xc0 {
      if DecodeBody(raw, 9).Ok? { LegacyErrors(keccak, recover, DecodeBody(raw, 9).value); }
    } else if |raw| > 0 && raw[0] == 0x01 {
      if DecodeBody(raw[1..], 11).Ok? { EIP2930Errors(keccak, recover, DecodeBody(raw[1..], 11).value); }
    } else if |raw| > 0 && raw[0] == 0x02 {
      if DecodeBody(raw[1..], 12).Ok? { EIP1559Errors(keccak, recover, DecodeBody(raw[1..], 12).value); }
    }
  }

  lemma BodyPanicsExactly(body: Bytes, fields: nat)
    ensures DecodeBody(body, fields) == Err(DecodeFailed(SliceOutOfRange)) <==> DecodePanics(body)
  {
    hide Decode, Stands;
    DecodePanicsExactly(body);
  }

  /** DecodeTransaction slices out of range exactly when the RLP body its first byte selects does. */
  lemma TransactionPanicsExactly(keccak: Hash, recover: Recover, raw: Bytes)
    ensures DecodeTransaction(keccak, recover, raw) == Err(DecodeFailed(SliceOutOfRange)) <==>
            && |raw| > 0
            && (if raw[0] >= 0xc0 then DecodePanics(raw) else (raw[0] == 0x01 || raw[0] == 0x02) && DecodePanics(raw[1..]))
  {
    hide DecodeBody, DecodePanics, LegacyFields, EIP2930Fields, EIP1559Fields;
    if |raw| > 0 && raw[0] >= 0xc0 {
      BodyPanicsExactly(raw, 9);
      if DecodeBody(raw, 9).Ok? { LegacyErrors(keccak, recover, DecodeBody(raw, 9).value); }
    } else if |raw| > 0 && raw[0] == 0x01 {
      BodyPanicsExactly(raw[1..], 11);
      if DecodeBody(raw[1..], 11).Ok? { EIP2930Errors(keccak, recover, DecodeBody(raw[1..], 11).value); }
    } else if |raw| > 0 && raw[0] == 0x02 {
      BodyPanicsExactly(raw[1..], 12);
      if DecodeBody(raw[1..], 12).Ok? { EIP1559Errors(keccak, recover, DecodeBody(raw[1..], 12).value); }
    }
  }
}
