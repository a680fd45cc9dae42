/** Transactions of chain/wallet: transaction.go (layouts), sign.go (the v field) and decode.go. */
module Wallet {
  import opened Basics
  import opened Numbers
  import opened Rlp

  type Address = a: Bytes | |a| == 20 witness seq(20, i => 0)

  /** *big.Int: nil, or an integer of any sign. */
  type BigInt = Option<int>

  datatype AccessListEntry = AccessListEntry(address: Address, storageKeys: seq<Digest>)

  datatype Tx =
    | Legacy(chainID: BigInt, nonce: uint64, gasPrice: BigInt, gasLimit: uint64,
             to: Option<Address>, val: BigInt, data: Bytes)
    | EIP2930(chainID: BigInt, nonce: uint64, gasPrice: BigInt, gasLimit: uint64,
              to: Option<Address>, val: BigInt, data: Bytes, accessList: seq<AccessListEntry>)
    | EIP1559(chainID: BigInt, nonce: uint64, maxPriorityFeePerGas: BigInt, maxFeePerGas: BigInt, gasLimit: uint64,
              to: Option<Address>, val: BigInt, data: Bytes, accessList: seq<AccessListEntry>)

  /** A decoded transaction: its fields (chainID None before EIP-155), signature and sender. */
  datatype DecodedTx = DecodedTx(tx: Tx, v: Bytes, r: Bytes, s: Bytes, sender: Address)

  datatype TxError =
    | EmptyInput | InvalidType | DecodeFailed(cause: Rlp.Error) | InvalidField | RecoverFailed | MissingChainID

  /** secp256k1 public-key recovery followed by address derivation. */
  type Recover = (Bytes, Digest, nat) -> Option<Address>

  const SECP256K1_N := 0xFFFFFFFFFFFFFFFFFFFFFFFFFFFFFFFEBAAEDCE6AF48A03BBFD25E8CD0364141

  // ---------------------------------------------------------------- layouts

  function Abs(n: int): nat { if n < 0 then -n else n }

  /** big.Int.Bytes writes the magnitude; nil and zero are the empty string. */
  function Magnitude(n: BigInt): nat { if n.None? then 0 else Abs(n.value) }

  function UintItem(n: nat): Item { Str(ToBE(n)) }

  function BigItem(n: BigInt): Item { Str(ToBE(Magnitude(n))) }

  function AddrItem(a: Option<Address>): Item { Str(if a.None? then [] else a.value) }

  function KeyItems(keys: seq<Digest>): (r: seq<Item>)
    ensures |r| == |keys|
  {
    seq(|keys|, i requires 0 <= i < |keys| => Str(keys[i]))
  }

  function EntryItem(e: AccessListEntry): Item { List([Str(e.address), List(KeyItems(e.storageKeys))]) }

  function EntryItems(l: seq<AccessListEntry>): (r: seq<Item>)
    ensures |r| == |l|
  {
    seq(|l|, i requires 0 <= i < |l| => EntryItem(l[i]))
  }

  function AccessListItem(l: seq<AccessListEntry>): Item { List(EntryItems(l)) }

  /** The unsigned fields in wire order; the legacy layout carries the chain ID only in v. */
  function Layout(tx: Tx): seq<Item> {
    match tx
    case Legacy(_, nonce, gasPrice, gasLimit, to, val, data) =>
      [UintItem(nonce), BigItem(gasPrice), UintItem(gasLimit), AddrItem(to), BigItem(val), Str(data)]
    case EIP2930(chainID, nonce, gasPrice, gasLimit, to, val, data, accessList) =>
      [BigItem(chainID), UintItem(nonce), BigItem(gasPrice), UintItem(gasLimit), AddrItem(to), BigItem(val), Str(data),
       AccessListItem(accessList)]
    case EIP1559(chainID, nonce, prio, maxFee, gasLimit, to, val, data, accessList) =>
      [BigItem(chainID), UintItem(nonce), BigItem(prio), BigItem(maxFee), UintItem(gasLimit), AddrItem(to),
       BigItem(val), Str(data), AccessListItem(accessList)]
  }

  /** The EIP-2718 type byte; legacy transactions have none. */
  function TypePrefix(tx: Tx): Bytes {
    match tx
    case Legacy(_, _, _, _, _, _, _) => []
    case EIP2930(_, _, _, _, _, _, _, _) => [0x01]
    case EIP1559(_, _, _, _, _, _, _, _, _) => [0x02]
  }

  /** What is hashed and signed. A legacy transaction without a chain ID is the pre-EIP-155 form. */
  function SigningPreimage(tx: Tx): Bytes {
    if tx.Legacy? && tx.chainID.Some? then Encode(List(Layout(tx) + [BigItem(tx.chainID), UintItem(0), UintItem(0)]))
    else TypePrefix(tx) + Encode(List(Layout(tx)))
  }

  predicate HasChainID(tx: Tx) { tx.chainID.Some? && tx.chainID.value != 0 }

  function SigningHash(keccak: Hash, tx: Tx): Result<Digest, TxError> {
    if !HasChainID(tx) then Err(MissingChainID) else Ok(keccak(SigningPreimage(tx)))
  }

  /** The v field as written: verbatim for legacy, re-normalized as an integer for typed ones. */
  function VItem(tx: Tx, v: Bytes): Item {
    if tx.Legacy? then Str(v) else UintItem(FromBE(v))
  }

  function SignedItem(tx: Tx, v: Item, r: Bytes, s: Bytes): Item {
    List(Layout(tx) + [v, Str(r), Str(s)])
  }

  function EncodeSigned(tx: Tx, r: Bytes, s: Bytes, v: Bytes): Result<Bytes, TxError> {
    if !HasChainID(tx) then Err(MissingChainID)
    else Ok(TypePrefix(tx) + Encode(SignedItem(tx, VItem(tx, v), r, s)))
  }

  /** v = recID + 35 + 2 * chainID for legacy transactions (EIP-155), recID for typed ones. */
  function AssembleV(tx: Tx, recID: byte): Result<Bytes, TxError> {
    if !tx.Legacy? then Ok([recID])
    else if !HasChainID(tx) then Err(MissingChainID)
    else Ok(ToBE(Abs(2 * tx.chainID.value + recID + 35)))
  }

  // ---------------------------------------------------------------- field decoders

  function AsBytes(v: Item): Result<Bytes, TxError> {
    if v.Str? then Ok(v.b) else Err(InvalidField)
  }

  function AsList(v: Item): Result<seq<Item>, TxError> {
    if v.List? then Ok(v.items) else Err(InvalidField)
  }

  /** Minimal big-endian, at most 32 bytes. */
  predicate IntegerFieldOk(b: Bytes) { Minimal(b) && |b| <= 32 }

  function AsBigInt(v: Item): Result<BigInt, TxError> {
    var b :- AsBytes(v);
    if IntegerFieldOk(b) then Ok(Some(FromBE(b))) else Err(InvalidField)
  }

  function AsUint64(v: Item): Result<uint64, TxError> {
    var b :- AsBytes(v);
    if |b| > 8 then Err(InvalidField)
    else if !IntegerFieldOk(b) then Err(InvalidField)
    else
      FromBEBound(b);
      Pow256Values();
      Pow256Monotone(|b|, 8);
      Ok(FromBE(b))
  }

  predicate ScalarOk(b: Bytes) { IntegerFieldOk(b) && 0 < FromBE(b) < SECP256K1_N }

  function AsScalar(v: Item): Result<Bytes, TxError> {
    var b :- AsBytes(v);
    if ScalarOk(b) then Ok(b) else Err(InvalidField)
  }

  function AsAddress(v: Item): Result<Option<Address>, TxError> {
    var b :- AsBytes(v);
    if |b| == 0 then Ok(None)
    else if |b| != 20 then Err(InvalidField)
    else Ok(Some(b))
  }

  function AsKeys(items: seq<Item>): Result<seq<Digest>, TxError> {
    if items == [] then Ok([])
    else
      var init :- AsKeys(items[..|items| - 1]);
      var b :- AsBytes(items[|items| - 1]);
      if |b| != 32 then Err(InvalidField) else Ok(init + [b])
  }

  function AsEntry(v: Item): Result<AccessListEntry, TxError> {
    var entry :- AsList(v);
    if |entry| != 2 then Err(InvalidField)
    else
      var addr :- AsBytes(entry[0]);
      if |addr| != 20 then Err(InvalidField)
      else
        var storage :- AsList(entry[1]);
        var keys :- AsKeys(storage);
        Ok(AccessListEntry(addr, keys))
  }

  function AsEntries(items: seq<Item>): Result<seq<AccessListEntry>, TxError> {
    if items == [] then Ok([])
    else
      var init :- AsEntries(items[..|items| - 1]);
      var e :- AsEntry(items[|items| - 1]);
      Ok(init + [e])
  }

  function ParseAccessList(v: Item): Result<seq<AccessListEntry>, TxError> {
    var items :- AsList(v);
    AsEntries(items)
  }

  function YParity(v: Bytes): Result<nat, TxError> {
    if |v| == 0 then Ok(0)
    else if |v| != 1 then Err(InvalidField)
    else if v[0] == 0 then Err(InvalidField)
    else if v[0] > 1 then Err(InvalidField)
    else Ok(v[0])
  }

  /** Right-aligned in 32 bytes, as ecrecoverSender copies r and s. */
  function Pad32(b: Bytes): Bytes
    requires |b| <= 32
  {
    seq(32 - |b|, i => 0) + b
  }

  function Sender(keccak: Hash, recover: Recover, tx: Tx, r: Bytes, s: Bytes, recID: nat): Result<Address, TxError> {
    if |r| > 32 || |s| > 32 then Err(InvalidField)
    else
      match recover(Pad32(r) + Pad32(s), keccak(SigningPreimage(tx)), recID)
      case Some(a) => Ok(a)
      case None => Err(RecoverFailed)
  }

  // ---------------------------------------------------------------- the decoder

  function DecodeBody(body: Bytes, fields: nat): (r: Result<seq<Item>, TxError>)
    ensures r.Ok? ==> |r.value| == fields
  {
    match Decode(body)
    case Err(e) => Err(DecodeFailed(e))
    case Ok(v) =>
      var items :- AsList(v);
      if |items| != fields then Err(InvalidField) else Ok(items)
  }

  predicate LegacyVOk(v: nat) { v == 27 || v == 28 || v >= 35 }

  /** EIP-155: chainID = (v - 35) / 2 and recID = (v - 35) % 2; 27 and 28 predate it. */
  function LegacyChainID(v: nat): BigInt
    requires LegacyVOk(v)
  {
    if v < 35 then None else Some((v - 35) / 2)
  }

  function LegacyRecID(v: nat): nat
    requires LegacyVOk(v)
  {
    if v < 35 then v - 27 else (v - 35) % 2
  }

  function DecodeLegacy(keccak: Hash, recover: Recover, raw: Bytes): Result<DecodedTx, TxError> {
    var items :- DecodeBody(raw, 9);
    LegacyFields(keccak, recover, items)
  }

  function LegacyFields(keccak: Hash, recover: Recover, items: seq<Item>): Result<DecodedTx, TxError>
    requires |items| == 9
  {
    var nonce :- AsUint64(items[0]);
    var gasPrice :- AsBigInt(items[1]);
    var gasLimit :- AsUint64(items[2]);
    var to :- AsAddress(items[3]);
    var val :- AsBigInt(items[4]);
    var data :- AsBytes(items[5]);
    var v :- AsBytes(items[6]);
    if !IntegerFieldOk(v) then Err(InvalidField)
    else
      var r :- AsScalar(items[7]);
      var s :- AsScalar(items[8]);
      if !LegacyVOk(FromBE(v)) then Err(InvalidField)
      else
        var tx := Legacy(LegacyChainID(FromBE(v)), nonce, gasPrice, gasLimit, to, val, data);
        var sender :- Sender(keccak, recover, tx, r, s, LegacyRecID(FromBE(v)));
        Ok(DecodedTx(tx, v, r, s, sender))
  }

  function DecodeEIP2930(keccak: Hash, recover: Recover, body: Bytes): Result<DecodedTx, TxError> {
    var items :- DecodeBody(body, 11);
    EIP2930Fields(keccak, recover, items)
  }

  function EIP2930Fields(keccak: Hash, recover: Recover, items: seq<Item>): Result<DecodedTx, TxError>
    requires |items| == 11
  {
    var chainID :- AsBigInt(items[0]);
    var nonce :- AsUint64(items[1]);
    var gasPrice :- AsBigInt(items[2]);
    var gasLimit :- AsUint64(items[3]);
    var to :- AsAddress(items[4]);
    var val :- AsBigInt(items[5]);
    var data :- AsBytes(items[6]);
    var accessList :- ParseAccessList(items[7]);
    var v :- AsBytes(items[8]);
    var r :- AsScalar(items[9]);
    var s :- AsScalar(items[10]);
    var tx := EIP2930(chainID, nonce, gasPrice, gasLimit, to, val, data, accessList);
    var recID :- YParity(v);
    var sender :- Sender(keccak, recover, tx, r, s, recID);
    Ok(DecodedTx(tx, v, r, s, sender))
  }

  function DecodeEIP1559(keccak: Hash, recover: Recover, body: Bytes): Result<DecodedTx, TxError> {
    var items :- DecodeBody(body, 12);
    EIP1559Fields(keccak, recover, items)
  }

  function EIP1559Fields(keccak: Hash, recover: Recover, items: seq<Item>): Result<DecodedTx, TxError>
    requires |items| == 12
  {
    var chainID :- AsBigInt(items[0]);
    var nonce :- AsUint64(items[1]);
    var prio :- AsBigInt(items[2]);
    var maxFee :- AsBigInt(items[3]);
    var gasLimit :- AsUint64(items[4]);
    var to :- AsAddress(items[5]);
    var val :- AsBigInt(items[6]);
    var data :- AsBytes(items[7]);
    var accessList :- ParseAccessList(items[8]);
    var v :- AsBytes(items[9]);
    var r :- AsScalar(items[10]);
    var s :- AsScalar(items[11]);
    var tx := EIP1559(chainID, nonce, prio, maxFee, gasLimit, to, val, data, accessList);
    var recID :- YParity(v);
    var sender :- Sender(keccak, recover, tx, r, s, recID);
    Ok(DecodedTx(tx, v, r, s, sender))
  }

  function DecodeTransaction(keccak: Hash, recover: Recover, raw: Bytes): Result<DecodedTx, TxError> {
    if |raw| == 0 then Err(EmptyInput)
    else if raw[0] >= 0xc0 then DecodeLegacy(keccak, recover, raw)
    else if raw[0] == 0x01 then DecodeEIP2930(keccak, recover, raw[1..])
    else if raw[0] == 0x02 then DecodeEIP1559(keccak, recover, raw[1..])
    else Err(InvalidType)
  }

  // ---------------------------------------------------------------- the loops

  /** encodeAccessList: nested loops over entries and storage keys. */
  method EncodeAccessListLoop(l: seq<AccessListEntry>) returns (r: Bytes)
    requires |EncodeAll(EntryItems(l))| < TWO_TO_64
    requires forall i :: 0 <= i < |l| ==> |EncodeAll(EntryItem(l[i]).items)| < TWO_TO_64
    requires forall i :: 0 <= i < |l| ==> |EncodeAll(KeyItems(l[i].storageKeys))| < TWO_TO_64
    ensures r == Encode(AccessListItem(l))
  {
    hide Encode, EncodeAll, EncodePayload, EncodeBytes;
    var items: seq<Bytes> := [];
    for i := 0 to |l|
      invariant |items| == i
      invariant forall k :: 0 <= k < i ==> items[k] == Encode(EntryItems(l)[k])
    {
      var entry := EncodeEntryLoop(l[i]);
      items := items + [entry];
    }
    assert items == Encodings(EntryItems(l));
    ConcatEncodings(EntryItems(l));
    ComposedListIsEncoding(EntryItems(l));
    r := EncodeListLoop(items);
  }

  method EncodeEntryLoop(entry: AccessListEntry) returns (r: Bytes)
    requires |EncodeAll(EntryItem(entry).items)| < TWO_TO_64
    requires |EncodeAll(KeyItems(entry.storageKeys))| < TWO_TO_64
    ensures r == Encode(EntryItem(entry))
  {
    hide EncodeAll, EncodePayload, EncodeBytes;
    var keys := KeyItems(entry.storageKeys);
    var storageItems: seq<Bytes> := [];
    for i := 0 to |entry.storageKeys|
      invariant |storageItems| == i
      invariant forall k :: 0 <= k < i ==> storageItems[k] == Encode(keys[k])
    {
      storageItems := storageItems + [EncodeBytes(entry.storageKeys[i])];
    }
    assert storageItems == Encodings(keys);
    ConcatEncodings(keys);
    ComposedListIsEncoding(keys);
    var storage := EncodeListLoop(storageItems);
    var pair := [EncodeBytes(entry.address), storage];
    assert pair == Encodings(EntryItem(entry).items);
    ConcatEncodings(EntryItem(entry).items);
    ComposedListIsEncoding(EntryItem(entry).items);
    r := EncodeListLoop(pair);
  }

  lemma {:induction false} EntriesFail(items: seq<Item>, i: nat)
    requires i <= |items| && AsEntries(items[..i]).Err?
    ensures AsEntries(items) == AsEntries(items[..i])
    decreases |items| - i
  {
    hide AsEntry;
    if i == |items| {
      assert items[..i] == items;
    } else {
      assert items[..i + 1][..i] == items[..i];
      EntriesFail(items, i + 1);
    }
  }

  lemma {:induction false} KeysFail(items: seq<Item>, i: nat)
    requires i <= |items| && AsKeys(items[..i]).Err?
    ensures AsKeys(items) == AsKeys(items[..i])
    decreases |items| - i
  {
    if i == |items| {
      assert items[..i] == items;
    } else {
      assert items[..i + 1][..i] == items[..i];
      KeysFail(items, i + 1);
    }
  }

  method ParseKeysLoop(items: seq<Item>) returns (r: Result<seq<Digest>, TxError>)
    ensures r == AsKeys(items)
  {
    var keys: seq<Digest> := [];
    for j := 0 to |items|
      invariant AsKeys(items[..j]) == Ok(keys)
    {
      assert items[..j + 1][..j] == items[..j];
      var key := AsBytes(items[j]);
      if key.Err? {
        KeysFail(items, j + 1);
        return Err(key.error);
      }
      if |key.value| != 32 {
        KeysFail(items, j + 1);
        return Err(InvalidField);
      }
      keys := keys + [key.value];
    }
    assert items[..|items|] == items;
    return Ok(keys);
  }

  /** parseAccessList: the accumulating loops return the entries of the recursive reading. */
  method ParseAccessListLoop(v: Item) returns (r: Result<seq<AccessListEntry>, TxError>)
    ensures r == ParseAccessList(v)
  {
    hide AsKeys;
    var list := AsList(v);
    if list.Err? {
      return Err(list.error);
    }
    var entries := list.value;
    var result: seq<AccessListEntry> := [];
    for i := 0 to |entries|
      invariant AsEntries(entries[..i]) == Ok(result)
    {
      assert entries[..i + 1][..i] == entries[..i];
      var e := ParseEntryLoop(entries[i]);
      if e.Err? {
        EntriesFail(entries, i + 1);
        return Err(e.error);
      }
      result := result + [e.value];
    }
    assert entries[..|entries|] == entries;
    return Ok(result);
  }

  method ParseEntryLoop(v: Item) returns (r: Result<AccessListEntry, TxError>)
    ensures r == AsEntry(v)
  {
    var entry := AsList(v);
    if entry.Err? {
      return Err(entry.error);
    }
    if |entry.value| != 2 {
      return Err(InvalidField);
    }
    var addr := AsBytes(entry.value[0]);
    if addr.Err? {
      return Err(addr.error);
    }
    if |addr.value| != 20 {
      return Err(InvalidField);
    }
    var storage := AsList(entry.value[1]);
    if storage.Err? {
      return Err(storage.error);
    }
    var keys := ParseKeysLoop(storage.value);
    if keys.Err? {
      return Err(keys.error);
    }
    return Ok(AccessListEntry(addr.value, keys.value));
  }
}
