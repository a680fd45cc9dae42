/** Exactly which data DecodeArgs accepts, read off the bytes alone. */
module AbiAccepts {
  import opened Basics
  import opened Numbers
  import opened Abi

  predicate ZeroRun(data: Bytes, from: int, to: int) {
    0 <= from <= to <= |data| && forall k :: from <= k < to ==> data[k] == 0
  }

  /** n elements from a position on: bytes under zero padding to whole words, or one word each, an
      address in the last 20 bytes of its word. */
  predicate ElementsOk(t: AbiType, data: Bytes, from: nat, n: nat) {
    if t.StringType? || t.BytesType? then ZeroRun(data, from + n, from + (n + 31) / 32 * 32)
    else
      && from + 32 * n <= |data|
      && (t.AddressArrayType? ==> forall k :: 0 <= k < n ==> ZeroRun(data, from + 32 * k, from + 32 * k + 12))
  }

  /** The argument whose head word starts at a position: a static word with its padding zero, or the
      aligned offset of a length word and as many elements. */
  predicate ArgumentOk(t: AbiType, data: Bytes, at: nat)
    requires at + 32 <= |data|
  {
    if t.Uint256Type? || t.Bytes32Type? then true
    else if t.AddressType? then ZeroRun(data, at, at + 12)
    else if t.BoolType? then ZeroRun(data, at, at + 31) && data[at + 31] <= 1
    else if t.UnknownType? then false
    else
      var off := FromBE(data[at..at + 32]);
      && off % 32 == 0 && off + 32 <= |data| && off < 0x8000_0000_0000_0000
      && FromBE(data[off..off + 32]) < 0x8000_0000_0000_0000
      && ElementsOk(t, data, off + 32, FromBE(data[off..off + 32]))
  }

  lemma StaticExactly(t: AbiType, data: Bytes, at: nat)
    requires at + 32 <= |data| && !IsDynamic(t)
    ensures DecodeValue(t, data, data[at..at + 32]).Ok? <==> ArgumentOk(t, data, at)
  {
    hide FromBE;
    var word := data[at..at + 32];
    ZeroSlice(data, at, at + 12);
    ZeroSlice(data, at, at + 31);
    assert word[..12] == data[at..at + 12] && word[..31] == data[at..at + 31] && word[31] == data[at + 31];
  }

  lemma ZeroSlice(data: Bytes, from: nat, to: nat)
    requires from <= to <= |data|
    ensures AllZero(data[from..to]) <==> ZeroRun(data, from, to)
  {
    if AllZero(data[from..to]) {
      forall k | from <= k < to
        ensures data[k] == 0
      {
        assert data[from..to][k - from] == data[k];
      }
    }
  }

  lemma PaddedIsRounded(n: nat)
    ensures PaddedLen(n) == (n + 31) / 32 * 32
  {
  }

  lemma PayloadExactly(t: AbiType, data: Bytes, off: nat)
    requires off + 32 <= |data| && (t.StringType? || t.BytesType?)
    ensures var n := FromBE(data[off..off + 32]);
            DecodePayload(data[off..]).Ok? <==> n < INT64_LIMIT && ElementsOk(t, data, off + 32, n)
  {
    hide FromBE, PaddedLen;
    var tail, n := data[off..], FromBE(data[off..off + 32]);
    assert tail[..32] == data[off..off + 32];
    PaddedIsRounded(n);
    PaddedLenRounds(n);
    var rest, from := tail[32..], off + 32;
    if |rest| >= PaddedLen(n) {
      assert rest[n..PaddedLen(n)] == data[from + n..from + PaddedLen(n)];
      ZeroSlice(data, from + n, from + PaddedLen(n));
    }
  }

  lemma {:induction false} AddressWordsExactly(data: Bytes, from: nat, n: nat)
    requires from + 32 * n <= |data|
    ensures DecodeAddressWords(data[from..], n).Ok? <==> forall k :: 0 <= k < n ==> ZeroRun(data, from + 32 * k, from + 32 * k + 12)
    decreases n
  {
    if n > 0 {
      var b := data[from..];
      AddressWordsExactly(data, from + 32, n - 1);
      assert b[32..] == data[from + 32..];
      assert b[..32][..12] == data[from..from + 12];
      ZeroSlice(data, from, from + 12);
      FirstAndRest(data, from, n);
    }
  }

  lemma FirstAndRest(data: Bytes, from: nat, n: nat)
    requires n > 0 && from + 32 * n <= |data|
    ensures (forall k :: 0 <= k < n ==> ZeroRun(data, from + 32 * k, from + 32 * k + 12)) <==>
            && ZeroRun(data, from, from + 12)
            && (forall k :: 0 <= k < n - 1 ==> ZeroRun(data, from + 32 + 32 * k, from + 32 + 32 * k + 12))
  {
    hide ZeroRun;
    if forall k :: 0 <= k < n ==> ZeroRun(data, from + 32 * k, from + 32 * k + 12) {
      assert ZeroRun(data, from + 32 * 0, from + 32 * 0 + 12);
      forall k | 0 <= k < n - 1
        ensures ZeroRun(data, from + 32 + 32 * k, from + 32 + 32 * k + 12)
      {
        assert ZeroRun(data, from + 32 * (k + 1), from + 32 * (k + 1) + 12);
      }
    } else {
      var k :| 0 <= k < n && !ZeroRun(data, from + 32 * k, from + 32 * k + 12);
      if k > 0 {
        assert !ZeroRun(data, from + 32 + 32 * (k - 1), from + 32 + 32 * (k - 1) + 12);
      }
    }
  }

  lemma ArrayExactly(t: AbiType, data: Bytes, off: nat)
    requires off + 32 <= |data| && (t.Uint256ArrayType? || t.AddressArrayType?)
    ensures var n := FromBE(data[off..off + 32]);
            DecodeTail(t, data[off..]).Ok? <==> n < INT64_LIMIT && ElementsOk(t, data, off + 32, n)
  {
    hide FromBE, DecodeAddressWords, DecodeUintWords, ZeroRun;
    var tail, n := data[off..], FromBE(data[off..off + 32]);
    assert tail[..32] == data[off..off + 32] && tail[32..] == data[off + 32..];
    if off + 32 + 32 * n <= |data| {
      AddressWordsExactly(data, off + 32, n);
    }
  }

  lemma DynamicExactly(t: AbiType, data: Bytes, at: nat)
    requires at + 32 <= |data| && IsDynamic(t)
    ensures DecodeValue(t, data, data[at..at + 32]).Ok? <==> ArgumentOk(t, data, at)
  {
    hide FromBE, DecodePayload, ElementsOk, ReadLength;
    var off := FromBE(data[at..at + 32]);
    if off + 32 <= |data| {
      if t.StringType? || t.BytesType? {
        PayloadExactly(t, data, off);
      } else {
        ArrayExactly(t, data, off);
      }
    } else if off <= |data| {
      ShortTail(t, data[off..]);
    }
  }

  lemma ShortTail(t: AbiType, tail: Bytes)
    requires |tail| < 32 && IsDynamic(t)
    ensures DecodeTail(t, tail).Err?
  {
  }

  lemma {:induction false} UpToExactly(types: seq<AbiType>, data: Bytes, i: nat)
    requires i <= |types| && |types| * 32 <= |data|
    ensures DecodeUpTo(types, data, i).Ok? <==> forall k :: 0 <= k < i ==> ArgumentOk(types[k], data, 32 * k)
  {
    hide DecodeValue, ArgumentOk;
    if i > 0 {
      UpToExactly(types, data, i - 1);
      var t, at := types[i - 1], 32 * (i - 1);
      if IsDynamic(t) {
        DynamicExactly(t, data, at);
      } else {
        StaticExactly(t, data, at);
      }
    }
  }

  /** DecodeArgs accepts exactly the data whose heads are all there and whose every argument is well
      formed: its padding zero, its offset aligned and inside the data, its length covered. */
  lemma AcceptsExactly(types: seq<AbiType>, data: Bytes)
    ensures DecodeArgs(types, data).Ok? <==>
            32 * |types| <= |data| && forall i :: 0 <= i < |types| ==> ArgumentOk(types[i], data, 32 * i)
  {
    hide ArgumentOk, DecodeUpTo;
    if 32 * |types| <= |data| {
      UpToExactly(types, data, |types|);
    }
  }

  /** Which error each malformed piece gets: a word, an offset, a length, and a padded payload. */
  lemma RefusedPieces(word: Bytes, data: Bytes, tail: Bytes)
    requires |word| == 32
    ensures DecodeAddress(word) == Err(NonZeroPadding) <==> !ZeroRun(word, 0, 12)
    ensures DecodeBool(word) == Err(NonZeroPadding) <==> !ZeroRun(word, 0, 31)
    ensures DecodeBool(word) == Err(BadBool) <==> ZeroRun(word, 0, 31) && word[31] > 1
    ensures ResolveOffset(data, word).Err? ==> ResolveOffset(data, word) == Err(BadOffset)
    ensures ReadLength(tail) == Err(BadLength) <==> |tail| >= 32 && FromBE(tail[..32]) >= 0x8000_0000_0000_0000
    ensures ReadLength(tail) == Err(ShortData) <==>
            |tail| < 32 || (FromBE(tail[..32]) < 0x8000_0000_0000_0000 && FromBE(tail[..32]) > |tail| - 32)
    ensures DecodePayload(tail) == Err(ShortData) <==>
            || ReadLength(tail) == Err(ShortData)
            || (ReadLength(tail).Ok? && |tail| < 32 + (FromBE(tail[..32]) + 31) / 32 * 32)
    ensures DecodePayload(tail) == Err(BadLength) <==> ReadLength(tail) == Err(BadLength)
  {
    hide FromBE, PaddedLen;
    ZeroSlice(word, 0, 12);
    ZeroSlice(word, 0, 31);
    assert word[..12] == word[0..12] && word[..31] == word[0..31];
    if ReadLength(tail).Ok? {
      PaddedIsRounded(FromBE(tail[..32]));
    }
  }
}
