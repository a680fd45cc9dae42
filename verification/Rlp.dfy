/** Recursive Length Prefix serialization of chain/rlp/rlp.go (Yellow Paper, Appendix B). */
module Rlp {
  import opened Basics
  import opened Numbers

  const MAX_INPUT_LEN := 10 * 1024 * 1024
  const MAX_NESTING_DEPTH := 64

  /** A decoded value: a byte string, or a list of values. */
  datatype Item = Str(b: Bytes) | List(items: seq<Item>)

  /** SliceOutOfRange is the run-time panic of an out-of-range slice expression. */
  datatype Error = Truncated | InvalidEncoding | TrailingBytes | InputTooLarge | NestingLimit | SliceOutOfRange

  // ---------------------------------------------------------------- encoder

  function EncodeBytes(b: Bytes): Bytes {
    if |b| == 0 then [0x80]
    else if |b| == 1 && b[0] < 0x80 then [b[0]]
    else if |b| <= 55 then [0x80 + |b|] + b
    else [(0xb7 + |ToBE(|b|)|) % 256] + ToBE(|b|) + b
  }

  function EncodePayload(payload: Bytes): Bytes {
    if |payload| <= 55 then [0xc0 + |payload|] + payload
    else [(0xf7 + |ToBE(|payload|)|) % 256] + ToBE(|payload|) + payload
  }

  function Concat(items: seq<Bytes>): Bytes {
    if items == [] then [] else Concat(items[..|items| - 1]) + items[|items| - 1]
  }

  function EncodeList(items: seq<Bytes>): Bytes { EncodePayload(Concat(items)) }

  /** The canonical encoding of a value. */
  function Encode(v: Item): Bytes
    decreases v, 1
  {
    match v
    case Str(b) => EncodeBytes(b)
    case List(items) => EncodePayload(EncodeAll(items))
  }

  /** The concatenated encodings of a list's elements. */
  function EncodeAll(items: seq<Item>): Bytes
    decreases items, 0
  {
    if items == [] then [] else Encode(items[0]) + EncodeAll(items[1..])
  }

  /** Levels of list nesting. */
  function Depth(v: Item): nat
    decreases v, 1
  {
    match v
    case Str(_) => 0
    case List(items) => 1 + DepthAll(items)
  }

  function DepthAll(items: seq<Item>): nat
    decreases items, 0
  {
    if items == [] then 0
    else
      var d, rest := Depth(items[0]), DepthAll(items[1..]);
      if d > rest then d else rest
  }

  // ---------------------------------------------------------------- decoder

  function DecodeLength(b: Bytes): Result<nat, Error> {
    if |b| == 0 then Err(Truncated)
    else if |b| > 1 && b[0] == 0 then Err(InvalidEncoding)
    else Ok(FromBE(b) % TWO_TO_64)
  }

  /** Where an item's content lies: bytes [off, off + len) of the input. */
  datatype Header = Header(isList: bool, off: nat, len: nat)

  /** The long forms: the sum 1 + lenOfLen + length is taken in uint64, and the slice end in int. */
  function LongHeader(b: Bytes, lenOfLen: nat, isList: bool): (r: Result<Header, Error>)
    ensures r.Ok? ==> 0 < r.value.off && r.value.off + r.value.len <= |b|
  {
    if |b| < 1 + lenOfLen then Err(Truncated)
    else
      var length := DecodeLength(b[1..1 + lenOfLen]);
      if length.Err? then Err(length.error)
      else if length.value <= 55 then Err(InvalidEncoding)
      else if |b| < (1 + lenOfLen + length.value) % TWO_TO_64 then Err(Truncated)
      else
        var signed := if length.value < TWO_TO_64 / 2 then length.value else length.value - TWO_TO_64;
        var end := 1 + lenOfLen + signed;
        if end < 1 + lenOfLen || end > |b| then Err(SliceOutOfRange)
        else Ok(Header(isList, 1 + lenOfLen, signed))
  }

  function DecodeHeader(b: Bytes, depth: nat): (r: Result<Header, Error>)
    ensures r.Ok? ==> r.value.off + r.value.len <= |b|
    ensures r.Ok? ==> 0 < r.value.off || (r.value == Header(false, 0, 1))
    ensures r.Ok? && r.value.isList ==> depth < MAX_NESTING_DEPTH && 0 < r.value.off
  {
    if |b| == 0 then Err(Truncated)
    else
      var prefix := b[0];
      if prefix >= 0xc0 && depth >= MAX_NESTING_DEPTH then Err(NestingLimit)
      else if prefix <= 0x7f then Ok(Header(false, 0, 1))
      else if prefix <= 0xb7 then
        var length := prefix - 0x80;
        if |b| < 1 + length then Err(Truncated)
        else if length == 1 && b[1] < 0x80 then Err(InvalidEncoding)
        else Ok(Header(false, 1, length))
      else if prefix <= 0xbf then LongHeader(b, prefix - 0xb7, false)
      else if prefix <= 0xf7 then
        var length := prefix - 0xc0;
        if |b| < 1 + length then Err(Truncated) else Ok(Header(true, 1, length))
      else LongHeader(b, prefix - 0xf7, true)
  }

  /** One item and the unconsumed remainder. */
  function DecodeItem(b: Bytes, depth: nat): (r: Result<(Item, Bytes), Error>)
    ensures r.Ok? ==> |r.value.1| < |b|
    decreases |b|, 0
  {
    var header := DecodeHeader(b, depth);
    if header.Err? then Err(header.error)
    else
      var Header(isList, off, len) := header.value;
      var payload, rest := b[off..off + len], b[off + len..];
      if !isList then Ok((Str(payload), rest))
      else
        var list := DecodeListItems(payload, depth + 1);
        if list.Err? then Err(list.error) else Ok((List(list.value), rest))
  }

  function DecodeListItems(b: Bytes, depth: nat): Result<seq<Item>, Error>
    decreases |b|, 1
  {
    if |b| == 0 then Ok([])
    else
      var first := DecodeItem(b, depth);
      if first.Err? then Err(first.error)
      else
        var rest := DecodeListItems(first.value.1, depth);
        if rest.Err? then Err(rest.error) else Ok([first.value.0] + rest.value)
  }

  function Decode(b: Bytes): Result<Item, Error> {
    if |b| == 0 then Err(Truncated)
    else if |b| > MAX_INPUT_LEN then Err(InputTooLarge)
    else
      var r := DecodeItem(b, 0);
      if r.Err? then Err(r.error)
      else if |r.value.1| > 0 then Err(TrailingBytes)
      else Ok(r.value.0)
  }

  // ---------------------------------------------------------------- headers are canonical

  lemma LongLengthBytes(n: nat)
    requires 55 < n < TWO_TO_64
    ensures 1 <= |ToBE(n)| <= 8
    ensures DecodeLength(ToBE(n)) == Ok(n)
  {
    FromToBE(n);
    Pow256Values();
    ToBELength(n, 8);
  }

  /** An encoder header is read back, whatever follows. */
  lemma LongHeaderReads(n: nat, isList: bool, payload: Bytes, rest: Bytes, base: int, b: Bytes)
    requires 55 < n == |payload| && base + 8 < 256 && base >= 0
    requires b == [(base + |ToBE(n)|) % 256] + ToBE(n) + payload + rest
    requires |b| < TWO_TO_64 / 2
    ensures 1 <= |ToBE(n)| <= 8 && b[0] == base + |ToBE(n)|
    ensures LongHeader(b, |ToBE(n)|, isList) == Ok(Header(isList, 1 + |ToBE(n)|, n))
    ensures b[1 + |ToBE(n)|..1 + |ToBE(n)| + n] == payload && b[1 + |ToBE(n)| + n..] == rest
  {
    hide ToBE, FromBE;
    LongLengthBytes(n);
    assert b[1..1 + |ToBE(n)|] == ToBE(n);
  }

  lemma StringHeaderReads(p: Bytes, rest: Bytes, depth: nat)
    requires |EncodeBytes(p) + rest| < TWO_TO_64 / 2
    ensures var b := EncodeBytes(p) + rest;
            var r := DecodeHeader(b, depth);
            && r.Ok? && !r.value.isList
            && b[r.value.off..r.value.off + r.value.len] == p
            && b[r.value.off + r.value.len..] == rest
  {
    var b := EncodeBytes(p) + rest;
    if |p| > 55 {
      assert b == [(0xb7 + |ToBE(|p|)|) % 256] + ToBE(|p|) + p + rest;
      LongHeaderReads(|p|, false, p, rest, 0xb7, b);
    } else if |p| == 0 {
      assert b[1..1] == p && b[1..] == rest;
    } else if |p| == 1 && p[0] < 0x80 {
      assert b[0..1] == p && b[1..] == rest;
    } else {
      assert b[1..1 + |p|] == p && b[1 + |p|..] == rest;
    }
  }

  lemma ListHeaderReads(p: Bytes, rest: Bytes, depth: nat)
    requires |EncodePayload(p) + rest| < TWO_TO_64 / 2 && depth < MAX_NESTING_DEPTH
    ensures var b := EncodePayload(p) + rest;
            var r := DecodeHeader(b, depth);
            && r.Ok? && r.value.isList
            && b[r.value.off..r.value.off + r.value.len] == p
            && b[r.value.off + r.value.len..] == rest
  {
    var b := EncodePayload(p) + rest;
    if |p| > 55 {
      assert b == [(0xf7 + |ToBE(|p|)|) % 256] + ToBE(|p|) + p + rest;
      LongHeaderReads(|p|, true, p, rest, 0xf7, b);
    } else {
      assert b[1..1 + |p|] == p && b[1 + |p|..] == rest;
    }
  }

  /** An accepted long header is the one the encoder writes. */
  lemma LongHeaderCanonical(b: Bytes, lenOfLen: nat, isList: bool)
    requires 1 <= lenOfLen <= 8 && LongHeader(b, lenOfLen, isList).Ok?
    ensures var h := LongHeader(b, lenOfLen, isList).value;
            && h.off == 1 + lenOfLen && h.len > 55
            && b[1..1 + lenOfLen] == ToBE(h.len)
  {
    hide ToBE, Pow256;
    var digits := b[1..1 + lenOfLen];
    FromBEBound(digits);
    Pow256Values();
    Pow256Monotone(lenOfLen, 8);
    ToFromBE(digits);
  }

  lemma LongFormCanonical(b: Bytes, base: int, isList: bool)
    requires |b| > 0 && 0 <= base && 1 <= b[0] - base <= 8
    requires LongHeader(b, b[0] - base, isList).Ok?
    ensures var h := LongHeader(b, b[0] - base, isList).value;
            && h.isList == isList && h.len > 55
            && b[..h.off + h.len] == [(base + |ToBE(h.len)|) % 256] + ToBE(h.len) + b[h.off..h.off + h.len]
  {
    hide ToBE, FromBE;
    LongHeaderCanonical(b, b[0] - base, isList);
    var h := LongHeader(b, b[0] - base, isList).value;
    assert b[..h.off] == [b[0]] + b[1..h.off];
    assert b[..h.off + h.len] == b[..h.off] + b[h.off..h.off + h.len];
  }

  /** An accepted header and its payload are what the encoder writes for that payload. */
  lemma HeaderCanonical(b: Bytes, depth: nat)
    requires DecodeHeader(b, depth).Ok?
    ensures var h := DecodeHeader(b, depth).value;
            var payload := b[h.off..h.off + h.len];
            b[..h.off + h.len] == if h.isList then EncodePayload(payload) else EncodeBytes(payload)
  {
    hide ToBE, FromBE, LongHeader;
    var prefix := b[0];
    if 0xb7 < prefix <= 0xbf {
      LongFormCanonical(b, 0xb7, false);
    } else if 0xf7 < prefix {
      LongFormCanonical(b, 0xf7, true);
    } else if prefix > 0x7f {
      ShortFormCanonical(b, DecodeHeader(b, depth).value.len);
    } else {
      assert b[..1] == [prefix] == b[0..1];
    }
  }

  lemma ShortFormCanonical(b: Bytes, len: nat)
    requires 1 + len <= |b| && len <= 55
    ensures b[0] == 0x80 + len && !(len == 1 && b[1] < 0x80) ==> b[..1 + len] == EncodeBytes(b[1..1 + len])
    ensures b[0] == 0xc0 + len ==> b[..1 + len] == EncodePayload(b[1..1 + len])
  {
    hide ToBE;
    var payload := b[1..1 + len];
    assert |payload| == len && (len > 0 ==> payload[0] == b[1]);
    assert b[..1 + len] == [b[0]] + payload;
    assert len == 0 ==> [b[0]] + payload == [b[0]];
  }

  /** A long header that is cut short: its length bytes are not all there, or they are well formed and
      announce more than is there. */
  predicate CutShort(b: Bytes, k: nat)
    requires 1 <= k <= 8
  {
    || |b| < 1 + k
    || (&& (k == 1 || b[1] != 0) && 55 < FromBE(b[1..1 + k]) < TWO_TO_64
        && |b| < (1 + k + FromBE(b[1..1 + k])) % TWO_TO_64)
  }

  /** Which error a header gets. */
  lemma HeaderRefusedExactly(b: Bytes, depth: nat)
    ensures DecodeHeader(b, depth) == Err(NestingLimit) <==> |b| > 0 && b[0] >= 192 && depth >= 64
    ensures DecodeHeader(b, depth) == Err(Truncated) <==>
            || |b| == 0
            || (128 <= b[0] <= 183 && |b| < b[0] - 127)
            || (184 <= b[0] <= 191 && CutShort(b, b[0] - 183))
            || (depth < 64 && 192 <= b[0] <= 247 && |b| < b[0] - 191)
            || (depth < 64 && 248 <= b[0] && CutShort(b, b[0] - 247))
  {
    hide FromBE, LongHeader;
    if |b| > 0 && 184 <= b[0] <= 191 {
      LongTruncated(b, b[0] - 183, false);
    } else if |b| > 0 && 248 <= b[0] {
      LongTruncated(b, b[0] - 247, true);
    }
  }

  lemma LongTruncated(b: Bytes, k: nat, isList: bool)
    requires 1 <= k <= 8
    ensures LongHeader(b, k, isList) == Err(Truncated) <==> CutShort(b, k)
    ensures LongHeader(b, k, isList) != Err(NestingLimit)
  {
    hide FromBE, Pow256;
    if |b| >= 1 + k {
      FromBEBound(b[1..1 + k]);
      Pow256Values();
      Pow256Monotone(k, 8);
    }
  }

  // ---------------------------------------------------------------- the form of an encoding

  /** A payload behind a header: one byte up to 55 bytes of payload, else the least number of length
      bytes, big-endian, behind a byte that counts them. */
  ghost predicate Framed(b: Bytes, payload: Bytes, short: int, long: int) {
    if |payload| <= 55 then |b| == 1 + |payload| && b[0] == short + |payload| && b[1..] == payload
    else
      var k := |b| - |payload| - 1;
      && 1 <= k <= 8 && b[0] == long + k && b[1] != 0 && FromBE(b[1..1 + k]) == |payload| && b[1 + k..] == payload
  }

  /** Appendix B of the Yellow Paper: a byte below 128 stands for itself; other strings are framed
      from 0x80 and 0xb7, lists, as the concatenation of their elements, from 0xc0 and 0xf7. */
  lemma EncodeForm(v: Item)
    requires |Encode(v)| < TWO_TO_64
    ensures match v
            case Str(p) => if |p| == 1 && p[0] <= 127 then Encode(v) == p else Framed(Encode(v), p, 128, 183)
            case List(items) => Framed(Encode(v), Concat(Encodings(items)), 192, 247)
  {
    hide FromBE, ToBE;
    match v
    case Str(p) =>
      if |p| > 55 {
        LongFrame(p, 183);
      }
    case List(items) =>
      ConcatEncodings(items);
      var p := EncodeAll(items);
      if |p| > 55 {
        LongFrame(p, 247);
      }
  }

  lemma LongFrame(p: Bytes, long: nat)
    requires 55 < |p| < TWO_TO_64 && long + 8 < 256
    ensures Framed([(long + |ToBE(|p|)|) % 256] + ToBE(|p|) + p, p, 0, long)
  {
    hide FromBE, ToBE;
    LongLengthBytes(|p|);
    FromToBE(|p|);
    var digits := ToBE(|p|);
    var b := [(long + |digits|) % 256] + digits + p;
    assert b[1..1 + |digits|] == digits && b[1 + |digits|..] == p;
  }

  // ---------------------------------------------------------------- the codec is exact

  /** Decoding inverts encoding, whatever follows the encoding. */
  lemma {:induction false} DecodeEncode(v: Item, rest: Bytes, depth: nat)
    requires |Encode(v) + rest| < TWO_TO_64 / 2
    requires Depth(v) > 0 ==> depth + Depth(v) <= MAX_NESTING_DEPTH
    ensures DecodeItem(Encode(v) + rest, depth) == Ok((v, rest))
    decreases v, 1
  {
    hide ToBE, EncodeBytes, EncodePayload, DecodeHeader;
    match v
    case Str(p) => StringHeaderReads(p, rest, depth);
    case List(items) =>
      ListHeaderReads(EncodeAll(items), rest, depth);
      DecodeEncodeAll(items, depth + 1);
  }

  lemma {:induction false} DecodeEncodeAll(items: seq<Item>, depth: nat)
    requires |EncodeAll(items)| < TWO_TO_64 / 2
    requires depth + DepthAll(items) <= MAX_NESTING_DEPTH
    ensures DecodeListItems(EncodeAll(items), depth) == Ok(items)
    decreases items, 0
  {
    hide ToBE, EncodeBytes, EncodePayload, DecodeHeader;
    if items != [] {
      var rest := EncodeAll(items[1..]);
      DecodeEncode(items[0], rest, depth);
      DecodeEncodeAll(items[1..], depth);
      assert items == [items[0]] + items[1..];
      assert EncodeAll(items) != [] by { EncodeNonEmpty(items[0]); }
    }
  }

  lemma EncodeNonEmpty(v: Item)
    ensures |Encode(v)| > 0
  {
  }

  /** Encoding inverts decoding: whatever is accepted is the canonical encoding of the result,
      within the nesting limit. */
  lemma {:induction false} EncodeDecode(b: Bytes, depth: nat)
    requires DecodeItem(b, depth).Ok?
    ensures var (v, rest) := DecodeItem(b, depth).value;
            b == Encode(v) + rest && (Depth(v) > 0 ==> depth + Depth(v) <= MAX_NESTING_DEPTH)
    decreases |b|, 0
  {
    hide ToBE, EncodeBytes, EncodePayload, DecodeHeader;
    HeaderCanonical(b, depth);
    var h := DecodeHeader(b, depth).value;
    assert b == b[..h.off + h.len] + b[h.off + h.len..];
    if h.isList {
      EncodeDecodeAll(b[h.off..h.off + h.len], depth + 1);
    }
  }

  lemma {:induction false} EncodeDecodeAll(b: Bytes, depth: nat)
    requires depth <= MAX_NESTING_DEPTH
    requires DecodeListItems(b, depth).Ok?
    ensures var items := DecodeListItems(b, depth).value;
            b == EncodeAll(items) && depth + DepthAll(items) <= MAX_NESTING_DEPTH
    decreases |b|, 1
  {
    hide ToBE, EncodeBytes, EncodePayload, DecodeHeader;
    if b != [] {
      EncodeDecode(b, depth);
      EncodeDecodeAll(DecodeItem(b, depth).value.1, depth);
    }
  }

  /** Decode accepts exactly the canonical encodings within the two limits, and returns the value
      encoded. */
  lemma DecodeExact(b: Bytes, v: Item)
    ensures Decode(b) == Ok(v) <==> b == Encode(v) && |b| <= 10485760 && Depth(v) <= 64
  {
    EncodeNonEmpty(v);
    if Decode(b) == Ok(v) {
      EncodeDecode(b, 0);
      assert Encode(v) + [] == Encode(v);
    }
    if b == Encode(v) && |b| <= MAX_INPUT_LEN && Depth(v) <= MAX_NESTING_DEPTH {
      assert b == Encode(v) + [];
      DecodeEncode(v, [], 0);
    }
  }

  /** A canonical encoding within the nesting limit, and bytes after it. */
  ghost predicate Trailed(b: Bytes, v: Item, rest: Bytes) {
    rest != [] && b == Encode(v) + rest && Depth(v) <= 64
  }

  /** Decode reports trailing bytes exactly on a canonical encoding with more bytes behind it, and an
      input as too large exactly above 10 MiB. */
  lemma DecodeRefusedExactly(b: Bytes)
    ensures Decode(b) == Err(InputTooLarge) <==> |b| > 10485760
    ensures Decode(b) == Err(TrailingBytes) <==> |b| <= 10485760 && exists v, rest :: Trailed(b, v, rest)
    ensures |b| == 0 ==> Decode(b) == Err(Truncated)
  {
    hide DecodeItem, Encode, Depth;
    ItemErrors(b, 0);
    if Decode(b) == Err(TrailingBytes) {
      EncodeDecode(b, 0);
      var (v, rest) := DecodeItem(b, 0).value;
      assert Trailed(b, v, rest);
    }
    if v, rest :| |b| <= 10485760 && Trailed(b, v, rest) {
      DecodeEncode(v, rest, 0);
    }
  }

  /** Items never fail with the errors of the whole input. */
  lemma {:induction false} ItemErrors(b: Bytes, depth: nat)
    ensures DecodeItem(b, depth) != Err(InputTooLarge) && DecodeItem(b, depth) != Err(TrailingBytes)
    decreases |b|, 0
  {
    HeaderErrors(b, depth);
    var h := DecodeHeader(b, depth);
    hide DecodeHeader;
    if h.Ok? && h.value.isList {
      ListErrors(b[h.value.off..h.value.off + h.value.len], depth + 1);
    }
  }

  lemma HeaderErrors(b: Bytes, depth: nat)
    ensures DecodeHeader(b, depth) != Err(InputTooLarge) && DecodeHeader(b, depth) != Err(TrailingBytes)
    ensures DecodeHeader(b, depth).Ok? && DecodeHeader(b, depth).value.isList ==> DecodeHeader(b, depth).value.off > 0
  {
    hide FromBE;
  }

  lemma {:induction false} ListErrors(b: Bytes, depth: nat)
    ensures DecodeListItems(b, depth) != Err(InputTooLarge) && DecodeListItems(b, depth) != Err(TrailingBytes)
    decreases |b|, 1
  {
    hide DecodeHeader;
    if b != [] {
      ItemErrors(b, depth);
      var first := DecodeItem(b, depth);
      if first.Ok? {
        ListErrors(first.value.1, depth);
      }
    }
  }

  /** Encodings are prefix-free at any nesting: a stream starts with at most one value. */
  lemma {:induction false} EncodePrefixFree(v: Item, x: Bytes, w: Item, y: Bytes)
    requires Encode(v) + x == Encode(w) + y && |Encode(v) + x| < TWO_TO_64 / 2
    ensures v == w && x == y
    decreases v, 1
  {
    hide EncodeBytes, EncodePayload, DecodeHeader, EncodeAll;
    if v.Str? { StringHeaderReads(v.b, x, 0); } else { ListHeaderReads(EncodeAll(v.items), x, 0); }
    if w.Str? { StringHeaderReads(w.b, y, 0); } else { ListHeaderReads(EncodeAll(w.items), y, 0); }
    if v.List? {
      PayloadIsShorter(EncodeAll(v.items));
      EncodeAllInjective(v.items, w.items);
    }
  }

  lemma PayloadIsShorter(p: Bytes)
    ensures |p| < |EncodePayload(p)|
  {
    hide ToBE;
  }

  lemma {:induction false} EncodeAllInjective(items: seq<Item>, others: seq<Item>)
    requires EncodeAll(items) == EncodeAll(others) && |EncodeAll(items)| < TWO_TO_64 / 2
    ensures items == others
    decreases items, 0
  {
    hide Encode;
    if items != [] { EncodeNonEmpty(items[0]); }
    if others != [] { EncodeNonEmpty(others[0]); }
    if items != [] && others != [] {
      EncodePrefixFree(items[0], EncodeAll(items[1..]), others[0], EncodeAll(others[1..]));
      EncodeAllInjective(items[1..], others[1..]);
      assert items == [items[0]] + items[1..] && others == [others[0]] + others[1..];
    }
  }

  /** No two values share an encoding. */
  lemma EncodeInjective(v: Item, w: Item)
    requires Encode(v) == Encode(w) && |Encode(v)| < TWO_TO_64 / 2
    ensures v == w
  {
    EncodePrefixFree(v, [], w, []);
  }

  // ---------------------------------------------------------------- the wrapping length sum

  /** An eight-byte length so large that 1 + 8 + length wraps around. */
  predicate Wraps(b: Bytes, depth: nat) {
    && |b| >= 9
    && (b[0] == 0xbf || (b[0] == 0xff && depth < MAX_NESTING_DEPTH))
    && FromBE(b[1..9]) >= TWO_TO_64 - 9
  }

  lemma LongHeaderPanicsExactly(b: Bytes, lenOfLen: nat, isList: bool)
    requires |b| < TWO_TO_64 / 2 && 1 <= lenOfLen <= 8
    ensures LongHeader(b, lenOfLen, isList) == Err(SliceOutOfRange) <==>
            lenOfLen == 8 && |b| >= 9 && FromBE(b[1..9]) >= TWO_TO_64 - 9
  {
    hide FromBE, ToBE, Pow256;
    if 1 + lenOfLen <= |b| {
      var digits := b[1..1 + lenOfLen];
      FromBEBound(digits);
      Pow256Values();
      Pow256Monotone(lenOfLen, 8);
      if lenOfLen < 8 {
        Pow256Monotone(lenOfLen, 7);
      } else if digits[0] == 0 {
        LeadingZeroIsSmall(digits);
      }
    }
  }

  /** Header parsing leaves the input exactly when an eight-byte length makes the 64-bit sum
      1 + 8 + length wrap: the truncation test then passes and the slice end is negative. */
  lemma HeaderPanicsExactly(b: Bytes, depth: nat)
    requires |b| < TWO_TO_64 / 2
    ensures DecodeHeader(b, depth) == Err(SliceOutOfRange) <==> Wraps(b, depth)
  {
    hide FromBE, LongHeader;
    if |b| > 0 && 0xb7 < b[0] <= 0xbf {
      LongHeaderPanicsExactly(b, b[0] - 0xb7, false);
    } else if |b| > 0 && 0xf7 < b[0] {
      LongHeaderPanicsExactly(b, b[0] - 0xf7, true);
    }
  }

  lemma LeadingZeroIsSmall(b: Bytes)
    requires |b| == 8 && b[0] == 0
    ensures FromBE(b) < TWO_TO_64 / 256
  {
    hide ToBE;
    Pow256Values();
    LeadingZero(b);
    FromBEBound(b[1..]);
  }

  lemma {:induction false} LeadingZero(b: Bytes)
    requires |b| > 0 && b[0] == 0
    ensures FromBE(b) == FromBE(b[1..])
  {
    if |b| == 1 {
      assert b[..0] == [] && b[1..] == [];
    } else {
      LeadingZero(b[..|b| - 1]);
      assert b[..|b| - 1][1..] == b[1..][..|b| - 2];
    }
  }

  /** "Decode returns an error for every malformed input" fails on this nine-byte one. */
  lemma DecodePanicExample()
    ensures Decode([0xbf] + FixedBE(TWO_TO_64 - 1, 8)) == Err(SliceOutOfRange)
  {
    hide FromBE, ToBE, Pow256;
    var b := [0xbf] + FixedBE(TWO_TO_64 - 1, 8);
    Pow256Values();
    FromFixedBE(TWO_TO_64 - 1, 8);
    assert b[1..9] == FixedBE(TWO_TO_64 - 1, 8);
    HeaderPanicsExactly(b, 0);
  }

  // ---------------------------------------------------------------- the loops

  lemma ConcatSnoc(items: seq<Bytes>, i: nat)
    requires i < |items|
    ensures Concat(items[..i + 1]) == Concat(items[..i]) + items[i]
  {
    assert items[..i + 1][..i] == items[..i];
  }

  lemma {:induction false} ConcatPrefix(items: seq<Bytes>, i: nat)
    requires i <= |items|
    ensures |Concat(items[..i])| <= |Concat(items)|
    decreases |items| - i
  {
    if i < |items| {
      ConcatSnoc(items, i);
      ConcatPrefix(items, i + 1);
    } else {
      assert items[..i] == items;
    }
  }

  function Encodings(items: seq<Item>): (r: seq<Bytes>)
    ensures |r| == |items|
  {
    seq(|items|, i requires 0 <= i < |items| => Encode(items[i]))
  }

  lemma {:induction false} EncodeAllSnoc(items: seq<Item>, v: Item)
    ensures EncodeAll(items + [v]) == EncodeAll(items) + Encode(v)
  {
    hide Encode;
    if items == [] {
      assert [v][1..] == [];
    } else {
      EncodeAllSnoc(items[1..], v);
      assert (items + [v])[1..] == items[1..] + [v];
      Regroup(Encode(items[0]), EncodeAll(items[1..]), Encode(v));
    }
  }

  lemma {:induction false} ConcatEncodings(items: seq<Item>)
    ensures Concat(Encodings(items)) == EncodeAll(items)
  {
    hide Encode, EncodeAll;
    if items == [] {
      assert EncodeAll([]) == [] by { EncodeAllNil(); }
    } else {
      var n := |items| - 1;
      ConcatEncodings(items[..n]);
      EncodeAllSnoc(items[..n], items[n]);
      assert items == items[..n] + [items[n]];
      assert Encodings(items)[..n] == Encodings(items[..n]);
    }
  }

  lemma EncodeAllNil()
    ensures EncodeAll([]) == []
  {
  }

  /** EncodeList composed over encoded items is the encoding of the list of those items. */
  lemma ComposedListIsEncoding(items: seq<Item>)
    ensures EncodeList(Encodings(items)) == Encode(List(items))
  {
    ConcatEncodings(items);
  }

  /** copy(out[off:], item). */
  method CopyInto(out: array<byte>, off: nat, item: Bytes)
    requires off + |item| <= out.Length
    modifies out
    ensures out[..off + |item|] == old(out[..off]) + item
  {
    forall k | 0 <= k < |item| {
      out[off + k] := item[k];
    }
    assert out[..off] == old(out[..off]);
    assert out[off..off + |item|] == item;
    assert out[..off + |item|] == out[..off] + out[off..off + |item|];
  }

  /** Copies every item to its running offset in the output buffer. */
  method CopyItems(items: seq<Bytes>, out: array<byte>, start: nat)
    requires out.Length == start + |Concat(items)|
    modifies out
    ensures out[..] == old(out[..start]) + Concat(items)
  {
    var off := start;
    for i := 0 to |items|
      invariant off == start + |Concat(items[..i])| <= out.Length
      invariant out[..off] == old(out[..start]) + Concat(items[..i])
    {
      ConcatSnoc(items, i);
      ConcatPrefix(items, i + 1);
      CopyInto(out, off, items[i]);
      Regroup(old(out[..start]), Concat(items[..i]), items[i]);
      off := off + |items[i]|;
    }
    assert items[..|items|] == items;
    assert out[..out.Length] == out[..];
  }

  method EncodeListLoop(items: seq<Bytes>) returns (r: Bytes)
    requires |Concat(items)| < TWO_TO_64
    ensures r == EncodeList(items)
  {
    var total := 0;
    for i := 0 to |items|
      invariant total == |Concat(items[..i])|
    {
      ConcatSnoc(items, i);
      total := total + |items[i]|;
    }
    assert items[..|items|] == items;
    if total <= 55 {
      var out := new byte[1 + total](i => 0);
      out[0] := 0xc0 + total;
      CopyItems(items, out, 1);
      assert out[..] == [0xc0 + total] + Concat(items);
      return out[..];
    }
    var lenBytes := UintToBytes(total);
    var n := 1 + |lenBytes|;
    var out := new byte[n + total](i => 0);
    out[0] := (0xf7 + |lenBytes|) % 256;
    assert out[..1] == [out[0]];
    CopyInto(out, 1, lenBytes);
    assert out[..n] == [(0xf7 + |lenBytes|) % 256] + lenBytes;
    CopyItems(items, out, n);
    return out[..];
  }

  /** EncodeUint64: the minimal bytes, then the string form. */
  method EncodeUint64Loop(n: uint64) returns (r: Bytes)
    ensures r == Encode(Str(ToBE(n)))
  {
    if n == 0 {
      return EncodeBytes([]);
    }
    var bytes := UintToBytes(n);
    return EncodeBytes(bytes);
  }

  method DecodeLengthLoop(b: Bytes) returns (r: Result<uint64, Error>)
    requires |b| <= 8
    ensures r == DecodeLength(b)
  {
    if |b| == 0 {
      return Err(Truncated);
    }
    if |b| > 1 && b[0] == 0 {
      return Err(InvalidEncoding);
    }
    var n := AccumulateBE(b);
    return Ok(n);
  }

  method DecodeListItemsLoop(payload: Bytes, depth: nat) returns (r: Result<seq<Item>, Error>)
    ensures r == DecodeListItems(payload, depth)
  {
    hide DecodeItem;
    var items: seq<Item> := [];
    var b := payload;
    ghost var whole := DecodeListItems(payload, depth);
    assert whole.Ok? ==> [] + whole.value == whole.value;
    while |b| > 0
      invariant DecodeListItems(payload, depth)
             == match DecodeListItems(b, depth)
                case Ok(rest) => Ok(items + rest)
                case Err(e) => Err(e)
      decreases |b|
    {
      var first := DecodeItem(b, depth);
      if first.Err? {
        return Err(first.error);
      }
      ghost var tail := DecodeListItems(first.value.1, depth);
      if tail.Ok? {
        Regroup(items, [first.value.0], tail.value);
      }
      items := items + [first.value.0];
      b := first.value.1;
    }
    assert items + [] == items;
    return Ok(items);
  }
}
