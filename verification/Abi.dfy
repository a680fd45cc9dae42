/** Solidity ABI head/tail encoding: chain/abi/encode.go and chain/abi/decode.go. */
module Abi {
  import opened Basics
  import opened Numbers

  const WORD_SIZE := 32
  const INT64_LIMIT := TWO_TO_64 / 2

  type Word = Digest
  type Address = a: Bytes | |a| == 20 witness seq(20, i => 0)

  datatype AbiType =
    | Uint256Type | AddressType | Bytes32Type | BoolType | StringType | BytesType | Uint256ArrayType | AddressArrayType
    | UnknownType(code: int)

  /** A Go value handed to the encoder; nil *big.Int is None. */
  datatype Value =
    | Uint256(n: Option<int>) | Addr(a: Address) | Bytes32(w: Word) | Bool(b: bool) | String(s: Bytes) | ByteString(s: Bytes)
    | Uint256Array(ns: seq<Option<int>>) | AddressArray(addrs: seq<Address>)

  datatype Error =
    | ArgCountMismatch | WrongValueType | Uint256Overflow | UnknownABIType
    | ShortData | BadOffset | BadLength | NonZeroPadding | BadBool

  predicate IsDynamic(t: AbiType) { t.StringType? || t.BytesType? || t.Uint256ArrayType? || t.AddressArrayType? }

  // ---------------------------------------------------------------- words

  function Zeros(n: nat): (r: Bytes)
    ensures |r| == n && forall i :: 0 <= i < n ==> r[i] == 0
  {
    seq(n, i => 0)
  }

  const UINT256_LIMIT := Pow256(32)

  /** Left-padded big-endian; nil is zero. */
  function EncodeUint256(v: Option<int>): Result<Word, Error> {
    if v.None? then Ok(Zeros(32))
    else if v.value < 0 || v.value >= UINT256_LIMIT then Err(Uint256Overflow)
    else
      ToBELength(v.value, 32);
      Ok(Zeros(32 - |ToBE(v.value)|) + ToBE(v.value))
  }

  /** Offsets and lengths: the low eight bytes, zero above. */
  function EncodeUint64Word(n: nat): Word { Zeros(24) + FixedBE(n, 8) }

  function EncodeAddress(a: Address): Word { Zeros(12) + a }

  function EncodeBool(b: bool): Word { Zeros(31) + [if b then 1 else 0] }

  function PaddedLen(n: nat): nat {
    if n == 0 then 0 else if n % WORD_SIZE == 0 then n else n + WORD_SIZE - n % WORD_SIZE
  }

  lemma PaddedLenRounds(n: nat)
    ensures n <= PaddedLen(n) < n + WORD_SIZE && PaddedLen(n) % WORD_SIZE == 0
  {
  }

  function EncodeBytesPayload(data: Bytes): Bytes {
    PaddedLenRounds(|data|);
    EncodeUint64Word(|data|) + data + Zeros(PaddedLen(|data|) - |data|)
  }

  function EncodeUintWords(ns: seq<Option<int>>): Result<Bytes, Error> {
    if ns == [] then Ok([])
    else
      var first :- EncodeUint256(ns[0]);
      var rest :- EncodeUintWords(ns[1..]);
      Ok(first + rest)
  }

  function EncodeAddressWords(addrs: seq<Address>): Bytes {
    if addrs == [] then [] else EncodeAddress(addrs[0]) + EncodeAddressWords(addrs[1..])
  }

  // ---------------------------------------------------------------- encoder

  /** A value's contribution: a head word, or a tail blob referred to by offset. */
  datatype Part = Static(word: Word) | Dynamic(tail: Bytes)

  function EncodeValue(t: AbiType, v: Value): Result<Part, Error> {
    match t
    case Uint256Type =>
      if !v.Uint256? then Err(WrongValueType) else var w :- EncodeUint256(v.n); Ok(Static(w))
    case AddressType => if v.Addr? then Ok(Static(EncodeAddress(v.a))) else Err(WrongValueType)
    case Bytes32Type => if v.Bytes32? then Ok(Static(v.w)) else Err(WrongValueType)
    case BoolType => if v.Bool? then Ok(Static(EncodeBool(v.b))) else Err(WrongValueType)
    case StringType => if v.String? then Ok(Dynamic(EncodeBytesPayload(v.s))) else Err(WrongValueType)
    case BytesType => if v.ByteString? then Ok(Dynamic(EncodeBytesPayload(v.s))) else Err(WrongValueType)
    case Uint256ArrayType =>
      if !v.Uint256Array? then Err(WrongValueType)
      else var words :- EncodeUintWords(v.ns); Ok(Dynamic(EncodeUint64Word(|v.ns|) + words))
    case AddressArrayType =>
      if v.AddressArray? then Ok(Dynamic(EncodeUint64Word(|v.addrs|) + EncodeAddressWords(v.addrs))) else Err(WrongValueType)
    case UnknownType(_) => Err(UnknownABIType)
  }

  function Parts(types: seq<AbiType>, values: seq<Value>): (r: Result<seq<Part>, Error>)
    requires |types| == |values|
    ensures r.Ok? ==> |r.value| == |types|
  {
    if types == [] then Ok([])
    else
      var n := |types| - 1;
      var init :- Parts(types[..n], values[..n]);
      var last :- EncodeValue(types[n], values[n]);
      Ok(init + [last])
  }

  function TailOf(p: Part): Bytes { if p.Dynamic? then p.tail else [] }

  function Tails(parts: seq<Part>): Bytes {
    if parts == [] then [] else Tails(parts[..|parts| - 1]) + TailOf(parts[|parts| - 1])
  }

  function HeadOf(p: Part, offset: nat): Word {
    if p.Dynamic? then EncodeUint64Word(offset) else p.word
  }

  /** Head words; the offset of a dynamic value is the head length plus all earlier tails. */
  function Heads(parts: seq<Part>, headLen: nat): Bytes {
    if parts == [] then []
    else
      var n := |parts| - 1;
      Heads(parts[..n], headLen) + HeadOf(parts[n], headLen + |Tails(parts[..n])|)
  }

  function Assemble(parts: seq<Part>): Bytes { Heads(parts, |parts| * WORD_SIZE) + Tails(parts) }

  function EncodeArgs(types: seq<AbiType>, values: seq<Value>): Result<Bytes, Error> {
    if |types| != |values| then Err(ArgCountMismatch)
    else
      var parts :- Parts(types, values);
      Ok(Assemble(parts))
  }

  // ---------------------------------------------------------------- decoder

  predicate AllZero(b: Bytes) { forall i :: 0 <= i < |b| ==> b[i] == 0 }

  function DecodeAddress(word: Bytes): Result<Address, Error>
    requires |word| == WORD_SIZE
  {
    if AllZero(word[..12]) then Ok(word[12..]) else Err(NonZeroPadding)
  }

  function DecodeBool(word: Bytes): Result<bool, Error>
    requires |word| == WORD_SIZE
  {
    if !AllZero(word[..31]) then Err(NonZeroPadding)
    else if word[31] == 0 then Ok(false)
    else if word[31] == 1 then Ok(true)
    else Err(BadBool)
  }

  function ResolveOffset(data: Bytes, head: Bytes): Result<Bytes, Error> {
    var off := FromBE(head);
    if off >= INT64_LIMIT then Err(BadOffset)
    else if off % WORD_SIZE != 0 then Err(BadOffset)
    else if off > |data| then Err(BadOffset)
    else Ok(data[off..])
  }

  function ReadLength(tail: Bytes): (r: Result<(nat, Bytes), Error>)
    ensures r.Ok? ==> r.value.0 <= |r.value.1|
  {
    if |tail| < WORD_SIZE then Err(ShortData)
    else
      var n := FromBE(tail[..WORD_SIZE]);
      if n >= INT64_LIMIT then Err(BadLength)
      else if n > |tail[WORD_SIZE..]| then Err(ShortData)
      else Ok((n, tail[WORD_SIZE..]))
  }

  function DecodePayload(tail: Bytes): Result<Bytes, Error> {
    var (n, rest) :- ReadLength(tail);
    PaddedLenRounds(n);
    if |rest| < PaddedLen(n) then Err(ShortData)
    else if !AllZero(rest[n..PaddedLen(n)]) then Err(NonZeroPadding)
    else Ok(rest[..n])
  }

  function DecodeUintWords(b: Bytes, n: nat): seq<Option<int>>
    requires |b| >= n * WORD_SIZE
  {
    if n == 0 then [] else [Some(FromBE(b[..WORD_SIZE]))] + DecodeUintWords(b[WORD_SIZE..], n - 1)
  }

  function DecodeAddressWords(b: Bytes, n: nat): Result<seq<Address>, Error>
    requires |b| >= n * WORD_SIZE
  {
    if n == 0 then Ok([])
    else
      var first :- DecodeAddress(b[..WORD_SIZE]);
      var rest :- DecodeAddressWords(b[WORD_SIZE..], n - 1);
      Ok([first] + rest)
  }

  function DecodeTail(t: AbiType, tail: Bytes): Result<Value, Error>
    requires IsDynamic(t)
  {
    if t.StringType? then var s :- DecodePayload(tail); Ok(String(s))
    else if t.BytesType? then var s :- DecodePayload(tail); Ok(ByteString(s))
    else
      var (n, rest) :- ReadLength(tail);
      if |rest| < n * WORD_SIZE then Err(ShortData)
      else if t.Uint256ArrayType? then Ok(Uint256Array(DecodeUintWords(rest, n)))
      else var addrs :- DecodeAddressWords(rest, n); Ok(AddressArray(addrs))
  }

  function DecodeValue(t: AbiType, data: Bytes, head: Bytes): Result<Value, Error>
    requires |head| == WORD_SIZE
  {
    match t
    case Uint256Type => Ok(Uint256(Some(FromBE(head))))
    case AddressType => var a :- DecodeAddress(head); Ok(Addr(a))
    case Bytes32Type => Ok(Bytes32(head))
    case BoolType => var b :- DecodeBool(head); Ok(Bool(b))
    case UnknownType(_) => Err(UnknownABIType)
    case _ => var tail :- ResolveOffset(data, head); DecodeTail(t, tail)
  }

  /** The first i arguments. */
  function DecodeUpTo(types: seq<AbiType>, data: Bytes, i: nat): (r: Result<seq<Value>, Error>)
    requires i <= |types| && |types| * WORD_SIZE <= |data|
    ensures r.Ok? ==> |r.value| == i
  {
    if i == 0 then Ok([])
    else
      var init :- DecodeUpTo(types, data, i - 1);
      var last :- DecodeValue(types[i - 1], data, data[(i - 1) * WORD_SIZE..i * WORD_SIZE]);
      Ok(init + [last])
  }

  function DecodeArgs(types: seq<AbiType>, data: Bytes): Result<seq<Value>, Error> {
    if |data| < |types| * WORD_SIZE then Err(ShortData) else DecodeUpTo(types, data, |types|)
  }

  // ---------------------------------------------------------------- words decode

  lemma {:induction false} LeadingZeros(k: nat, b: Bytes)
    ensures FromBE(Zeros(k) + b) == FromBE(b)
    decreases |b|
  {
    if b == [] {
      assert Zeros(k) + b == Zeros(k);
      AllZeros(k);
    } else {
      var s := Zeros(k) + b;
      assert s[..|s| - 1] == Zeros(k) + b[..|b| - 1];
      LeadingZeros(k, b[..|b| - 1]);
    }
  }

  lemma {:induction false} AllZeros(k: nat)
    ensures FromBE(Zeros(k)) == 0
  {
    if k > 0 {
      assert Zeros(k)[..k - 1] == Zeros(k - 1);
      AllZeros(k - 1);
    }
  }

  lemma UintWordDecodes(v: Option<int>)
    requires EncodeUint256(v).Ok?
    ensures FromBE(EncodeUint256(v).value) == if v.None? then 0 else v.value
  {
    hide FromBE, ToBE, Pow256, Zeros;
    if v.None? {
      AllZeros(32);
    } else {
      LeadingZeros(32 - |ToBE(v.value)|, ToBE(v.value));
      FromToBE(v.value);
    }
  }

  lemma CounterWordDecodes(n: nat)
    requires n < TWO_TO_64
    ensures FromBE(EncodeUint64Word(n)) == n
  {
    hide FromBE, FixedBE, Pow256, Zeros;
    LeadingZeros(24, FixedBE(n, 8));
    Pow256Values();
    FromFixedBE(n, 8);
  }

  // ---------------------------------------------------------------- tails decode

  /** nil reads back as zero. */
  function ReadBack(n: Option<int>): Option<int> { if n.None? then Some(0) else n }

  function ReadBackAll(ns: seq<Option<int>>): (r: seq<Option<int>>)
    ensures |r| == |ns|
  {
    seq(|ns|, i requires 0 <= i < |ns| => ReadBack(ns[i]))
  }

  function Normalized(v: Value): Value {
    match v
    case Uint256(n) => Uint256(ReadBack(n))
    case Uint256Array(ns) => Uint256Array(ReadBackAll(ns))
    case _ => v
  }

  lemma PayloadLength(data: Bytes)
    ensures |EncodeBytesPayload(data)| == WORD_SIZE + PaddedLen(|data|) > |data|
    ensures Aligned(|EncodeBytesPayload(data)|)
  {
    hide PaddedLen, EncodeUint64Word;
    PaddedLenRounds(|data|);
  }

  lemma PayloadDecodes(data: Bytes, rest: Bytes)
    requires |data| < INT64_LIMIT
    ensures DecodePayload(EncodeBytesPayload(data) + rest) == Ok(data)
  {
    hide EncodeUint64Word, FromBE, PaddedLen;
    PaddedLenRounds(|data|);
    CounterWordDecodes(|data|);
    var tail := EncodeBytesPayload(data) + rest;
    assert tail[..32] == EncodeUint64Word(|data|);
    var body := tail[32..];
    assert body[..|data|] == data;
    assert body[|data|..PaddedLen(|data|)] == Zeros(PaddedLen(|data|) - |data|);
  }

  lemma {:induction false} UintWordsDecode(ns: seq<Option<int>>, rest: Bytes)
    requires EncodeUintWords(ns).Ok?
    ensures |EncodeUintWords(ns).value| == |ns| * WORD_SIZE
    ensures DecodeUintWords(EncodeUintWords(ns).value + rest, |ns|) == ReadBackAll(ns)
  {
    hide EncodeUint256, FromBE;
    if ns != [] {
      UintWordsDecode(ns[1..], rest);
      UintWordDecodes(ns[0]);
      var w, words := EncodeUint256(ns[0]).value, EncodeUintWords(ns[1..]).value;
      var b := EncodeUintWords(ns).value + rest;
      assert b[..32] == w && b[32..] == words + rest;
      assert ReadBackAll(ns) == [ReadBack(ns[0])] + ReadBackAll(ns[1..]);
    }
  }

  lemma {:induction false} AddressWordsDecode(addrs: seq<Address>, rest: Bytes)
    ensures |EncodeAddressWords(addrs)| == |addrs| * WORD_SIZE
    ensures DecodeAddressWords(EncodeAddressWords(addrs) + rest, |addrs|) == Ok(addrs)
  {
    hide EncodeAddress, DecodeAddress;
    if addrs != [] {
      AddressWordsDecode(addrs[1..], rest);
      var b := EncodeAddressWords(addrs) + rest;
      assert b[..32] == EncodeAddress(addrs[0]) && b[32..] == EncodeAddressWords(addrs[1..]) + rest;
      AddressDecodes(addrs[0]);
      assert addrs == [addrs[0]] + addrs[1..];
    }
  }

  lemma AddressDecodes(a: Address)
    ensures DecodeAddress(EncodeAddress(a)) == Ok(a)
  {
    assert EncodeAddress(a)[..12] == Zeros(12);
    assert EncodeAddress(a)[12..] == a;
  }

  lemma BoolDecodes(b: bool)
    ensures DecodeBool(EncodeBool(b)) == Ok(b)
  {
    assert EncodeBool(b)[..31] == Zeros(31);
  }

  // ---------------------------------------------------------------- head/tail layout

  lemma {:induction false} HeadsLength(parts: seq<Part>, headLen: nat)
    ensures |Heads(parts, headLen)| == |parts| * WORD_SIZE
  {
    if parts != [] {
      HeadsLength(parts[..|parts| - 1], headLen);
    }
  }

  /** The head word of argument i points past all heads and all earlier tails. */
  lemma {:induction false} HeadAt(parts: seq<Part>, headLen: nat, i: nat)
    requires i < |parts|
    ensures |Heads(parts, headLen)| == |parts| * WORD_SIZE
    ensures Heads(parts, headLen)[i * WORD_SIZE..(i + 1) * WORD_SIZE] == HeadOf(parts[i], headLen + |Tails(parts[..i])|)
    decreases |parts|
  {
    hide HeadOf, Tails;
    var n := |parts| - 1;
    HeadsLength(parts, headLen);
    HeadsLength(parts[..n], headLen);
    if i < n {
      HeadAt(parts[..n], headLen, i);
      assert parts[..n][..i] == parts[..i];
      assert Heads(parts, headLen)[..n * WORD_SIZE] == Heads(parts[..n], headLen);
      Slice(Heads(parts, headLen), n * WORD_SIZE, i * WORD_SIZE, (i + 1) * WORD_SIZE);
    }
  }

  lemma Slice(s: Bytes, n: nat, lo: nat, hi: nat)
    requires lo <= hi <= n <= |s|
    ensures s[lo..hi] == s[..n][lo..hi]
  {
  }

  /** Tail i stands right after the earlier ones. */
  lemma {:induction false} TailAt(parts: seq<Part>, i: nat) returns (rest: Bytes)
    requires i < |parts|
    ensures Tails(parts) == Tails(parts[..i]) + (TailOf(parts[i]) + rest)
    decreases |parts|
  {
    hide TailOf;
    var n := |parts| - 1;
    if i == n {
      rest := [];
      assert TailOf(parts[i]) + rest == TailOf(parts[i]);
    } else {
      var r := TailAt(parts[..n], i);
      assert parts[..n][..i] == parts[..i];
      rest := r + TailOf(parts[n]);
      Regroup(Tails(parts[..i]), TailOf(parts[i]) + r, TailOf(parts[n]));
      Regroup(TailOf(parts[i]), r, TailOf(parts[n]));
    }
  }

  predicate Aligned(n: nat) { n % WORD_SIZE == 0 }

  lemma {:induction false} TailsAligned(parts: seq<Part>)
    requires forall i :: 0 <= i < |parts| ==> Aligned(|TailOf(parts[i])|)
    ensures Aligned(|Tails(parts)|)
  {
    hide TailOf;
    if parts != [] {
      TailsAligned(parts[..|parts| - 1]);
    }
  }

  /** Every tail blob is a whole number of words. */
  lemma TailIsWords(t: AbiType, v: Value)
    requires EncodeValue(t, v).Ok?
    ensures Aligned(|TailOf(EncodeValue(t, v).value)|)
    ensures EncodeValue(t, v).value.Dynamic? <==> IsDynamic(t)
  {
    hide EncodeUint256, EncodeAddress, EncodeUint64Word, EncodeBytesPayload, EncodeUintWords, EncodeAddressWords, EncodeBool;
    match v
    case String(s) => PayloadLength(s);
    case ByteString(s) => PayloadLength(s);
    case Uint256Array(ns) => if t.Uint256ArrayType? { UintWordsDecode(ns, []); }
    case AddressArray(addrs) => AddressWordsDecode(addrs, []);
    case _ =>
  }

  lemma {:induction false} PartAt(types: seq<AbiType>, values: seq<Value>, i: nat)
    requires |types| == |values| && i < |types| && Parts(types, values).Ok?
    ensures EncodeValue(types[i], values[i]) == Ok(Parts(types, values).value[i])
    decreases |types|
  {
    hide EncodeValue;
    var n := |types| - 1;
    if i < n {
      PartAt(types[..n], values[..n], i);
    }
  }

  /** In the assembled data, the word at head i either is the value's word or is an aligned offset,
      in bounds, of its own tail. */
  lemma LayoutPoints(parts: seq<Part>, i: nat) returns (rest: Bytes)
    requires i < |parts| && forall k :: 0 <= k < |parts| ==> Aligned(|TailOf(parts[k])|)
    ensures var data, off := Assemble(parts), |parts| * WORD_SIZE + |Tails(parts[..i])|;
            && |parts| * WORD_SIZE <= |data| && (i + 1) * WORD_SIZE <= |data|
            && data[i * WORD_SIZE..(i + 1) * WORD_SIZE] == HeadOf(parts[i], off)
            && Aligned(off) && off <= |data| && data[off..] == TailOf(parts[i]) + rest
  {
    hide HeadOf, TailOf, Tails, Heads;
    var n := |parts| * WORD_SIZE;
    HeadAt(parts, n, i);
    rest := TailAt(parts, i);
    TailsAligned(parts[..i]);
    var heads, tails, data := Heads(parts, n), Tails(parts), Assemble(parts);
    assert data[..n] == heads;
    Slice(data, n, i * WORD_SIZE, (i + 1) * WORD_SIZE);
    var before := Tails(parts[..i]);
    assert data[n..] == tails;
    assert tails[|before|..] == TailOf(parts[i]) + rest;
    assert data[n + |before|..] == data[n..][|before|..];
  }

  // ---------------------------------------------------------------- round trip

  lemma TailDecodes(t: AbiType, v: Value, rest: Bytes)
    requires IsDynamic(t) && EncodeValue(t, v).Ok?
    requires |TailOf(EncodeValue(t, v).value) + rest| < INT64_LIMIT
    ensures DecodeTail(t, TailOf(EncodeValue(t, v).value) + rest) == Ok(Normalized(v))
  {
    hide EncodeUint64Word, FromBE, DecodePayload, EncodeBytesPayload, DecodeUintWords, DecodeAddressWords;
    match v
    case String(s) =>
      PayloadLength(s);
      PayloadDecodes(s, rest);
    case ByteString(s) =>
      PayloadLength(s);
      PayloadDecodes(s, rest);
    case Uint256Array(ns) =>
      UintWordsDecode(ns, rest);
      ArrayLengthReads(|ns|, EncodeUintWords(ns).value, rest);
    case AddressArray(addrs) =>
      AddressWordsDecode(addrs, rest);
      ArrayLengthReads(|addrs|, EncodeAddressWords(addrs), rest);
    case _ =>
  }

  lemma ArrayLengthReads(n: nat, words: Bytes, rest: Bytes)
    requires |words| == n * WORD_SIZE && |EncodeUint64Word(n) + words + rest| < INT64_LIMIT
    ensures ReadLength(EncodeUint64Word(n) + words + rest) == Ok((n, words + rest))
  {
    hide EncodeUint64Word, FromBE;
    CounterWordDecodes(n);
    var tail := EncodeUint64Word(n) + words + rest;
    assert tail[..32] == EncodeUint64Word(n) && tail[32..] == words + rest;
  }

  lemma StaticDecodes(t: AbiType, v: Value, data: Bytes)
    requires !IsDynamic(t) && EncodeValue(t, v).Ok?
    ensures DecodeValue(t, data, EncodeValue(t, v).value.word) == Ok(Normalized(v))
  {
    hide EncodeUint256, FromBE, DecodeAddress, DecodeBool, EncodeAddress, EncodeBool;
    match v
    case Uint256(n) => UintWordDecodes(n);
    case Addr(a) => AddressDecodes(a);
    case Bool(b) => BoolDecodes(b);
    case _ =>
  }

  lemma DynamicDecodes(t: AbiType, v: Value, data: Bytes, off: nat, rest: Bytes)
    requires IsDynamic(t) && EncodeValue(t, v).Ok?
    requires |data| < INT64_LIMIT && off <= |data| && Aligned(off)
    requires data[off..] == TailOf(EncodeValue(t, v).value) + rest
    ensures DecodeValue(t, data, EncodeUint64Word(off)) == Ok(Normalized(v))
  {
    hide EncodeUint64Word, FromBE, EncodeValue, DecodeTail, TailOf;
    CounterWordDecodes(off);
    TailDecodes(t, v, rest);
  }

  /** nil, or an integer of 256 unsigned bits. */
  predicate IsUint256(n: Option<int>) {
    n.None? || 0 <= n.value < UINT256_LIMIT
  }

  /** A value of the Go type the ABI type calls for, with its integers in range. */
  predicate WellTyped(t: AbiType, v: Value) {
    match t
    case Uint256Type => v.Uint256? && IsUint256(v.n)
    case AddressType => v.Addr?
    case Bytes32Type => v.Bytes32?
    case BoolType => v.Bool?
    case StringType => v.String?
    case BytesType => v.ByteString?
    case Uint256ArrayType => v.Uint256Array? && forall i :: 0 <= i < |v.ns| ==> IsUint256(v.ns[i])
    case AddressArrayType => v.AddressArray?
    case UnknownType(_) => false
  }

  lemma {:induction false} UintWordsOkExactly(ns: seq<Option<int>>)
    ensures EncodeUintWords(ns).Ok? <==> forall i :: 0 <= i < |ns| ==> IsUint256(ns[i])
  {
    hide ToBE, Pow256;
    if ns != [] {
      UintWordsOkExactly(ns[1..]);
      assert forall i :: 0 < i < |ns| ==> ns[i] == ns[1..][i - 1];
    }
  }

  lemma ValueOkExactly(t: AbiType, v: Value)
    ensures EncodeValue(t, v).Ok? <==> WellTyped(t, v)
  {
    hide EncodeUintWords, ToBE, Pow256;
    if t.Uint256ArrayType? && v.Uint256Array? {
      UintWordsOkExactly(v.ns);
    }
  }

  /** The Go type called for. */
  predicate Matches(t: AbiType, v: Value) {
    || (t.Uint256Type? && v.Uint256?) || (t.AddressType? && v.Addr?) || (t.Bytes32Type? && v.Bytes32?)
    || (t.BoolType? && v.Bool?) || (t.StringType? && v.String?) || (t.BytesType? && v.ByteString?)
    || (t.Uint256ArrayType? && v.Uint256Array?) || (t.AddressArrayType? && v.AddressArray?)
  }

  lemma {:induction false} UintWordsOverflow(ns: seq<Option<int>>)
    ensures EncodeUintWords(ns).Err? ==> EncodeUintWords(ns).error == Uint256Overflow
  {
    hide ToBE, Pow256;
    if ns != [] {
      UintWordsOverflow(ns[1..]);
    }
  }

  /** Which error a refused argument gets: an unknown type, a value of another type, or an integer
      out of range. */
  lemma ValueRefusedExactly(t: AbiType, v: Value)
    ensures EncodeValue(t, v) == Err(UnknownABIType) <==> t.UnknownType?
    ensures EncodeValue(t, v) == Err(WrongValueType) <==> !t.UnknownType? && !Matches(t, v)
    ensures EncodeValue(t, v) == Err(Uint256Overflow) <==> Matches(t, v) && !WellTyped(t, v)
  {
    hide EncodeUintWords, ToBE, Pow256;
    if t.Uint256ArrayType? && v.Uint256Array? {
      UintWordsOkExactly(v.ns);
      UintWordsOverflow(v.ns);
    }
  }

  ghost predicate Encodable(types: seq<AbiType>, values: seq<Value>) {
    |types| == |values| && forall i :: 0 <= i < |types| ==> WellTyped(types[i], values[i])
  }

  lemma {:induction false} PartsOkExactly(types: seq<AbiType>, values: seq<Value>)
    requires |types| == |values|
    ensures Parts(types, values).Ok? <==> Encodable(types, values)
  {
    hide EncodeValue, WellTyped;
    if types != [] {
      var n := |types| - 1;
      PartsOkExactly(types[..n], values[..n]);
      ValueOkExactly(types[n], values[n]);
    }
  }

  function NormalizedAll(values: seq<Value>): (r: seq<Value>)
    ensures |r| == |values|
  {
    seq(|values|, i requires 0 <= i < |values| => Normalized(values[i]))
  }

  lemma ArgumentDecodes(types: seq<AbiType>, values: seq<Value>, i: nat)
    requires |types| == |values| && i < |types| && Parts(types, values).Ok?
    requires |Assemble(Parts(types, values).value)| < INT64_LIMIT
    ensures var data := Assemble(Parts(types, values).value);
            && |types| * WORD_SIZE <= |data| && (i + 1) * WORD_SIZE <= |data|
            && DecodeValue(types[i], data, data[i * WORD_SIZE..(i + 1) * WORD_SIZE]) == Ok(Normalized(values[i]))
  {
    hide EncodeValue, Assemble, DecodeValue, Tails, EncodeUint64Word, TailOf, Parts;
    var parts := Parts(types, values).value;
    forall k | 0 <= k < |parts|
      ensures Aligned(|TailOf(parts[k])|)
    {
      PartAt(types, values, k);
      TailIsWords(types[k], values[k]);
    }
    PartAt(types, values, i);
    TailIsWords(types[i], values[i]);
    var rest := LayoutPoints(parts, i);
    var off := |parts| * WORD_SIZE + |Tails(parts[..i])|;
    if IsDynamic(types[i]) {
      DynamicDecodes(types[i], values[i], Assemble(parts), off, rest);
    } else {
      StaticDecodes(types[i], values[i], Assemble(parts));
    }
  }

  lemma {:induction false} PrefixDecodes(types: seq<AbiType>, values: seq<Value>, i: nat)
    requires |types| == |values| && i <= |types| && Parts(types, values).Ok?
    requires |Assemble(Parts(types, values).value)| < INT64_LIMIT
    ensures |types| * WORD_SIZE <= |Assemble(Parts(types, values).value)|
    ensures DecodeUpTo(types, Assemble(Parts(types, values).value), i) == Ok(NormalizedAll(values)[..i])
    decreases i
  {
    hide Assemble, DecodeValue, Parts;
    if i == 0 {
      AssembledLength(Parts(types, values).value);
    } else {
      PrefixDecodes(types, values, i - 1);
      ArgumentDecodes(types, values, i - 1);
      assert NormalizedAll(values)[..i] == NormalizedAll(values)[..i - 1] + [Normalized(values[i - 1])];
    }
  }

  lemma AssembledLength(parts: seq<Part>)
    ensures |Assemble(parts)| >= |parts| * WORD_SIZE
  {
    HeadsLength(parts, |parts| * WORD_SIZE);
  }

  /** ABI round trip: well-typed, in-range arguments encode, and decoding returns them, with nil
      integers read as zero. Anything else is an encoding error. */
  lemma ArgsRoundTrip(types: seq<AbiType>, values: seq<Value>)
    ensures EncodeArgs(types, values).Ok? <==> Encodable(types, values)
    ensures EncodeArgs(types, values).Ok? && |EncodeArgs(types, values).value| < INT64_LIMIT ==>
              DecodeArgs(types, EncodeArgs(types, values).value) == Ok(NormalizedAll(values))
  {
    hide Assemble, EncodeValue, DecodeUpTo, WellTyped;
    if |types| == |values| {
      PartsOkExactly(types, values);
      if Parts(types, values).Ok? && |Assemble(Parts(types, values).value)| < INT64_LIMIT {
        PrefixDecodes(types, values, |types|);
        assert NormalizedAll(values)[..|types|] == NormalizedAll(values);
      }
    }
  }

  // ---------------------------------------------------------------- decoded values are encodable

  lemma {:induction false} DecodedWordsEncode(b: Bytes, n: nat)
    requires |b| >= n * WORD_SIZE
    ensures EncodeUintWords(DecodeUintWords(b, n)).Ok?
    ensures ReadBackAll(DecodeUintWords(b, n)) == DecodeUintWords(b, n)
  {
    hide EncodeUint256, FromBE, Pow256;
    if n > 0 {
      var first, rest := Some(FromBE(b[..WORD_SIZE])), DecodeUintWords(b[WORD_SIZE..], n - 1);
      DecodedWordsEncode(b[WORD_SIZE..], n - 1);
      DecodedWordEncodes(b[..WORD_SIZE]);
      assert DecodeUintWords(b, n) == [first] + rest;
      assert ([first] + rest)[1..] == rest;
      assert ReadBackAll([first] + rest) == [first] + ReadBackAll(rest);
    }
  }

  lemma DecodedWordEncodes(word: Bytes)
    requires |word| == WORD_SIZE
    ensures EncodeUint256(Some(FromBE(word))).Ok?
  {
    hide FromBE, ToBE, Pow256;
    FromBEBound(word);
  }

  lemma DecodedValueEncodes(t: AbiType, data: Bytes, head: Bytes)
    requires |head| == WORD_SIZE && DecodeValue(t, data, head).Ok?
    ensures var v := DecodeValue(t, data, head).value;
            EncodeValue(t, v).Ok? && Normalized(v) == v
  {
    hide FromBE, EncodeUint256, DecodeAddress, DecodeBool, DecodePayload, DecodeAddressWords, EncodeUintWords, DecodeUintWords;
    hide EncodeBytesPayload, EncodeUint64Word, EncodeAddress, EncodeBool;
    if t.Uint256Type? {
      DecodedWordEncodes(head);
    } else if t.Uint256ArrayType? {
      var (n, rest) := ReadLength(ResolveOffset(data, head).value).value;
      DecodedWordsEncode(rest, n);
    }
  }

  lemma {:induction false} DecodedPrefixEncodes(types: seq<AbiType>, data: Bytes, i: nat, k: nat)
    requires k < i <= |types| && |types| * WORD_SIZE <= |data| && DecodeUpTo(types, data, i).Ok?
    ensures var v := DecodeUpTo(types, data, i).value[k];
            EncodeValue(types[k], v).Ok? && Normalized(v) == v
    decreases i
  {
    hide DecodeValue, EncodeValue, Normalized;
    if k == i - 1 {
      DecodedValueEncodes(types[k], data, data[k * WORD_SIZE..(k + 1) * WORD_SIZE]);
    } else {
      DecodedPrefixEncodes(types, data, i - 1, k);
    }
  }

  /** Whatever layout it arrives in, decoded data re-encodes, and the re-encoding decodes to the
      same values. */
  lemma DecodedReencodes(types: seq<AbiType>, data: Bytes)
    requires DecodeArgs(types, data).Ok?
    ensures var vs := DecodeArgs(types, data).value;
            && EncodeArgs(types, vs).Ok?
            && (|EncodeArgs(types, vs).value| < INT64_LIMIT ==> DecodeArgs(types, EncodeArgs(types, vs).value) == Ok(vs))
  {
    hide EncodeArgs, DecodeUpTo, EncodeValue, Normalized;
    var vs := DecodeArgs(types, data).value;
    forall k | 0 <= k < |types|
      ensures WellTyped(types[k], vs[k]) && Normalized(vs[k]) == vs[k]
    {
      DecodedPrefixEncodes(types, data, |types|, k);
      ValueOkExactly(types[k], vs[k]);
    }
    ArgsRoundTrip(types, vs);
    assert NormalizedAll(vs) == vs;
  }

  // ---------------------------------------------------------------- the loops

  /** encodeUint256FromUint64: byte i from the right is v >> (8 * i). */
  method EncodeUint64WordLoop(v: uint64) returns (r: Word)
    ensures r == EncodeUint64Word(v)
  {
    var word := new byte[32](i => 0);
    var shifted: int := v;
    for i := 0 to 8
      invariant shifted >= 0
      invariant word[..24] == Zeros(24)
      invariant FixedBE(v, 8) == FixedBE(shifted, 8 - i) + word[32 - i..]
    {
      ghost var done := word[32 - i..];
      word[31 - i] := shifted % 256;
      assert word[31 - i..] == [shifted % 256] + done;
      assert word[..24] == Zeros(24);
      Regroup(FixedBE(shifted / 256, 7 - i), [shifted % 256], done);
      shifted := shifted / 256;
    }
    assert word[..] == word[..24] + word[24..];
    r := word[..];
  }

  lemma {:induction false} PartsFail(types: seq<AbiType>, values: seq<Value>, i: nat)
    requires |types| == |values| && i <= |types| && Parts(types[..i], values[..i]).Err?
    ensures Parts(types, values) == Parts(types[..i], values[..i])
    decreases |types| - i
  {
    hide EncodeValue;
    if i == |types| {
      assert types[..i] == types && values[..i] == values;
    } else {
      assert types[..i + 1][..i] == types[..i] && values[..i + 1][..i] == values[..i];
      PartsFail(types, values, i + 1);
    }
  }

  /** First pass: one head word or tail blob per argument. */
  method EncodeEach(types: seq<AbiType>, values: seq<Value>) returns (r: Result<seq<Part>, Error>)
    requires |types| == |values|
    ensures r == Parts(types, values)
  {
    hide EncodeValue;
    var parts: seq<Part> := [];
    for i := 0 to |types|
      invariant Parts(types[..i], values[..i]) == Ok(parts)
    {
      assert types[..i + 1][..i] == types[..i] && values[..i + 1][..i] == values[..i];
      var part := EncodeValue(types[i], values[i]);
      if part.Err? {
        PartsFail(types, values, i + 1);
        return Err(part.error);
      }
      parts := parts + [part.value];
    }
    assert types[..|types|] == types && values[..|values|] == values;
    return Ok(parts);
  }

  /** Second pass: each head word, with a running offset to the next tail. */
  method WriteHeads(parts: seq<Part>, headLen: nat) returns (out: Bytes)
    ensures out == Heads(parts, headLen)
  {
    hide EncodeUint64Word;
    out := [];
    var tailOffset := headLen;
    for i := 0 to |parts|
      invariant out == Heads(parts[..i], headLen)
      invariant tailOffset == headLen + |Tails(parts[..i])|
    {
      assert parts[..i + 1][..i] == parts[..i];
      if parts[i].Dynamic? {
        out := out + EncodeUint64Word(tailOffset);
        tailOffset := tailOffset + |parts[i].tail|;
      } else {
        out := out + parts[i].word;
      }
    }
    assert parts[..|parts|] == parts;
  }

  /** EncodeArgs: heads, then the tails appended in order. */
  method EncodeArgsLoop(types: seq<AbiType>, values: seq<Value>) returns (r: Result<Bytes, Error>)
    ensures r == EncodeArgs(types, values)
  {
    hide EncodeValue, Parts, Heads;
    if |types| != |values| {
      return Err(ArgCountMismatch);
    }
    var each := EncodeEach(types, values);
    if each.Err? {
      return Err(each.error);
    }
    var parts := each.value;
    var heads := WriteHeads(parts, |types| * WORD_SIZE);
    var out := heads;
    assert heads + [] == heads;
    for i := 0 to |parts|
      invariant out == heads + Tails(parts[..i])
    {
      assert parts[..i + 1][..i] == parts[..i];
      Regroup(heads, Tails(parts[..i]), TailOf(parts[i]));
      out := out + TailOf(parts[i]);
    }
    assert parts[..|parts|] == parts;
    return Ok(out);
  }

  lemma {:induction false} DecodeFails(types: seq<AbiType>, data: Bytes, i: nat)
    requires i <= |types| && |types| * WORD_SIZE <= |data| && DecodeUpTo(types, data, i).Err?
    ensures DecodeUpTo(types, data, |types|) == DecodeUpTo(types, data, i)
    decreases |types| - i
  {
    hide DecodeValue;
    if i < |types| {
      DecodeFails(types, data, i + 1);
    }
  }

  /** DecodeArgs: the loop over the head words. */
  method DecodeArgsLoop(types: seq<AbiType>, data: Bytes) returns (r: Result<seq<Value>, Error>)
    ensures r == DecodeArgs(types, data)
  {
    hide DecodeValue;
    var headLen := |types| * WORD_SIZE;
    if |data| < headLen {
      return Err(ShortData);
    }
    var out: seq<Value> := [];
    for i := 0 to |types|
      invariant DecodeUpTo(types, data, i) == Ok(out)
    {
      var v := DecodeValue(types[i], data, data[i * WORD_SIZE..(i + 1) * WORD_SIZE]);
      if v.Err? {
        DecodeFails(types, data, i + 1);
        return Err(v.error);
      }
      out := out + [v.value];
    }
    return Ok(out);
  }

  /** encodeUint256Array's element loop. */
  method EncodeUintWordsLoop(ns: seq<Option<int>>) returns (r: Result<Bytes, Error>)
    ensures r == EncodeUintWords(ns)
  {
    hide EncodeUint256;
    var out: Bytes := [];
    ghost var all := EncodeUintWords(ns);
    assert ns[0..] == ns && (all.Ok? ==> out + all.value == all.value);
    for i := 0 to |ns|
      invariant var rest := EncodeUintWords(ns[i..]);
                EncodeUintWords(ns) == if rest.Ok? then Ok(out + rest.value) else rest
    {
      var word := EncodeUint256(ns[i]);
      if word.Err? {
        return Err(word.error);
      }
      assert ns[i..][1..] == ns[i + 1..];
      ghost var rest := EncodeUintWords(ns[i + 1..]);
      if rest.Ok? { Regroup(out, word.value, rest.value); }
      out := out + word.value;
    }
    assert ns[|ns|..] == [] && out + [] == out;
    return Ok(out);
  }

  /** decodeAddressArray's element loop. */
  method DecodeAddressWordsLoop(b: Bytes, n: nat) returns (r: Result<seq<Address>, Error>)
    requires |b| >= n * WORD_SIZE
    ensures r == DecodeAddressWords(b, n)
  {
    hide DecodeAddress;
    var out: seq<Address> := [];
    ghost var all := DecodeAddressWords(b, n);
    assert b[0..] == b && (all.Ok? ==> out + all.value == all.value);
    for i := 0 to n
      invariant var rest := DecodeAddressWords(b[i * WORD_SIZE..], n - i);
                DecodeAddressWords(b, n) == if rest.Ok? then Ok(out + rest.value) else rest
    {
      ghost var left := b[i * WORD_SIZE..];
      assert left[..WORD_SIZE] == b[i * WORD_SIZE..(i + 1) * WORD_SIZE];
      assert left[WORD_SIZE..] == b[(i + 1) * WORD_SIZE..];
      var addr := DecodeAddress(b[i * WORD_SIZE..(i + 1) * WORD_SIZE]);
      if addr.Err? {
        return Err(addr.error);
      }
      ghost var rest := DecodeAddressWords(b[(i + 1) * WORD_SIZE..], n - i - 1);
      if rest.Ok? { Regroup(out, [addr.value], rest.value); }
      out := out + [addr.value];
    }
    assert out + [] == out;
    return Ok(out);
  }
}
