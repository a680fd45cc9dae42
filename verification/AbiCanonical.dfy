/** Exactly which accepted data is the encoder's own: heads that point, in order, at contiguous tails
    with nothing after them. */
module AbiCanonical {
  import opened Basics
  import opened Numbers
  import opened Abi

  /** The bytes a value occupies behind the heads. */
  function TailSize(v: Value): nat {
    match v
    case String(s) => WORD_SIZE + PaddedLen(|s|)
    case ByteString(s) => WORD_SIZE + PaddedLen(|s|)
    case Uint256Array(ns) => WORD_SIZE + |ns| * WORD_SIZE
    case AddressArray(addrs) => WORD_SIZE + |addrs| * WORD_SIZE
    case _ => 0
  }

  /** Where the tail of argument i starts when tails follow the heads without gaps. */
  function TailStart(vs: seq<Value>, i: nat): (r: nat)
    requires i <= |vs|
    ensures r >= |vs| * WORD_SIZE
  {
    if i == 0 then |vs| * WORD_SIZE else TailStart(vs, i - 1) + TailSize(vs[i - 1])
  }

  function HeadWord(data: Bytes, i: nat): (r: Bytes)
    requires (i + 1) * WORD_SIZE <= |data|
    ensures |r| == WORD_SIZE
  {
    data[i * WORD_SIZE..(i + 1) * WORD_SIZE]
  }

  /** The canonical layout of data that decodes to vs. */
  ghost predicate Canonical(types: seq<AbiType>, data: Bytes, vs: seq<Value>)
    requires |types| == |vs| && |types| * WORD_SIZE <= |data|
  {
    && |data| == TailStart(vs, |vs|)
    && forall i :: 0 <= i < |types| && IsDynamic(types[i]) ==> FromBE(HeadWord(data, i)) == TailStart(vs, i)
  }

  // ---------------------------------------------------------------- words re-encode

  lemma ZerosJoin(a: nat, b: nat, s: Bytes)
    ensures Zeros(a) + (Zeros(b) + s) == Zeros(a + b) + s
  {
  }

  lemma UintWordReencodes(word: Bytes)
    requires |word| == WORD_SIZE
    ensures EncodeUint256(Some(FromBE(word))) == Ok(word)
  {
    hide FromBE, ToBE, Pow256, FixedBE;
    FromBEBound(word);
    FixedFromBE(word);
    FixedIsPadded(FromBE(word), 32);
    var n := FromBE(word);
    assert seq(32 - |ToBE(n)|, i => 0) == Zeros(32 - |ToBE(n)|);
  }

  lemma CounterWordReencodes(word: Bytes)
    requires |word| == WORD_SIZE && FromBE(word) < TWO_TO_64
    ensures EncodeUint64Word(FromBE(word)) == word
  {
    hide FromBE, ToBE, Pow256, FixedBE;
    var n := FromBE(word);
    Pow256Values();
    FromBEBound(word);
    FixedFromBE(word);
    FixedIsPadded(n, 32);
    FixedIsPadded(n, 8);
    var digits := ToBE(n);
    assert seq(32 - |digits|, i => 0) == Zeros(32 - |digits|);
    assert seq(8 - |digits|, i => 0) == Zeros(8 - |digits|);
    ZerosJoin(24, 8 - |digits|, digits);
  }

  lemma AddressReencodes(word: Bytes)
    requires |word| == WORD_SIZE && DecodeAddress(word).Ok?
    ensures EncodeAddress(DecodeAddress(word).value) == word
  {
    assert word == word[..12] + word[12..];
    assert word[..12] == Zeros(12);
  }

  lemma BoolReencodes(word: Bytes)
    requires |word| == WORD_SIZE && DecodeBool(word).Ok?
    ensures EncodeBool(DecodeBool(word).value) == word
  {
    assert word == word[..31] + [word[31]];
    assert word[..31] == Zeros(31);
  }

  lemma StaticReencodes(t: AbiType, data: Bytes, head: Bytes)
    requires |head| == WORD_SIZE && !IsDynamic(t) && DecodeValue(t, data, head).Ok?
    ensures EncodeValue(t, DecodeValue(t, data, head).value) == Ok(Static(head))
  {
    hide FromBE, EncodeUint256, EncodeAddress, DecodeAddress, EncodeBool, DecodeBool;
    if t.Uint256Type? {
      UintWordReencodes(head);
    } else if t.AddressType? {
      AddressReencodes(head);
    } else if t.BoolType? {
      BoolReencodes(head);
    }
  }

  // ---------------------------------------------------------------- tails re-encode

  lemma LengthReencodes(tail: Bytes)
    requires ReadLength(tail).Ok?
    ensures tail == EncodeUint64Word(ReadLength(tail).value.0) + ReadLength(tail).value.1
  {
    hide FromBE, EncodeUint64Word;
    CounterWordReencodes(tail[..WORD_SIZE]);
    assert tail == tail[..WORD_SIZE] + tail[WORD_SIZE..];
  }

  lemma PayloadReencodes(tail: Bytes)
    ensures var s := DecodePayload(tail);
            s.Ok? ==>
              && |tail| >= WORD_SIZE + PaddedLen(|s.value|)
              && EncodeBytesPayload(s.value) == tail[..WORD_SIZE + PaddedLen(|s.value|)]
  {
    hide EncodeUint64Word, ReadLength, PaddedLen;
    if DecodePayload(tail).Ok? {
      LengthReencodes(tail);
      var (n, rest) := ReadLength(tail).value;
      PaddedLenRounds(n);
      var padding := rest[n..PaddedLen(n)];
      assert padding == Zeros(PaddedLen(n) - n);
      assert rest[..PaddedLen(n)] == rest[..n] + padding;
      assert tail[..WORD_SIZE + PaddedLen(n)] == EncodeUint64Word(n) + rest[..PaddedLen(n)];
      Regroup(EncodeUint64Word(n), rest[..n], padding);
    }
  }

  lemma {:induction false} UintWordsReencode(b: Bytes, n: nat)
    requires |b| >= n * WORD_SIZE
    ensures EncodeUintWords(DecodeUintWords(b, n)) == Ok(b[..n * WORD_SIZE]) && |DecodeUintWords(b, n)| == n
  {
    hide EncodeUint256, FromBE;
    if n > 0 {
      UintWordsReencode(b[WORD_SIZE..], n - 1);
      UintWordReencodes(b[..WORD_SIZE]);
      var first, rest := Some(FromBE(b[..WORD_SIZE])), DecodeUintWords(b[WORD_SIZE..], n - 1);
      assert ([first] + rest)[1..] == rest;
      assert b[..n * WORD_SIZE] == b[..WORD_SIZE] + b[WORD_SIZE..][..(n - 1) * WORD_SIZE];
    }
  }

  lemma {:induction false} AddressWordsReencode(b: Bytes, n: nat)
    requires |b| >= n * WORD_SIZE && DecodeAddressWords(b, n).Ok?
    ensures var addrs := DecodeAddressWords(b, n).value;
            EncodeAddressWords(addrs) == b[..n * WORD_SIZE] && |addrs| == n
  {
    hide EncodeAddress, DecodeAddress;
    if n > 0 {
      AddressWordsReencode(b[WORD_SIZE..], n - 1);
      AddressReencodes(b[..WORD_SIZE]);
      var rest := DecodeAddressWords(b[WORD_SIZE..], n - 1).value;
      var addrs := DecodeAddressWords(b, n).value;
      assert addrs[1..] == rest;
      assert b[..n * WORD_SIZE] == b[..WORD_SIZE] + b[WORD_SIZE..][..(n - 1) * WORD_SIZE];
    }
  }

  /** A tail that decodes starts with the encoding of its value. */
  lemma TailReencodes(t: AbiType, tail: Bytes)
    requires IsDynamic(t) && DecodeTail(t, tail).Ok?
    ensures var v := DecodeTail(t, tail).value;
            TailSize(v) <= |tail| && EncodeValue(t, v) == Ok(Dynamic(tail[..TailSize(v)]))
  {
    hide EncodeUint64Word, DecodePayload, EncodeBytesPayload, DecodeUintWords, EncodeUintWords;
    hide DecodeAddressWords, EncodeAddressWords, ReadLength, PaddedLen;
    if t.StringType? || t.BytesType? {
      PayloadReencodes(tail);
    } else {
      LengthReencodes(tail);
      var (n, rest) := ReadLength(tail).value;
      assert tail[..WORD_SIZE + n * WORD_SIZE] == EncodeUint64Word(n) + rest[..n * WORD_SIZE];
      if t.Uint256ArrayType? {
        UintWordsReencode(rest, n);
      } else {
        AddressWordsReencode(rest, n);
      }
    }
  }

  /** What one decoded argument re-encodes to: its head word, or the tail its offset points at. */
  lemma ArgumentReencodes(t: AbiType, data: Bytes, head: Bytes)
    requires |head| == WORD_SIZE && DecodeValue(t, data, head).Ok?
    ensures var v := DecodeValue(t, data, head).value;
            if !IsDynamic(t) then TailSize(v) == 0 && EncodeValue(t, v) == Ok(Static(head))
            else
              && FromBE(head) + TailSize(v) <= |data| && FromBE(head) < TWO_TO_64
              && EncodeValue(t, v) == Ok(Dynamic(data[FromBE(head)..FromBE(head) + TailSize(v)]))
  {
    hide FromBE, EncodeValue, DecodeTail, DecodeAddress, DecodeBool;
    if IsDynamic(t) {
      var off := FromBE(head);
      TailReencodes(t, data[off..]);
      var size := TailSize(DecodeValue(t, data, head).value);
      assert data[off..][..size] == data[off..off + size];
    } else {
      StaticReencodes(t, data, head);
    }
  }

  // ---------------------------------------------------------------- the whole layout

  /** parts is what the decoded arguments re-encode to. */
  ghost predicate Reencoded(types: seq<AbiType>, data: Bytes, vs: seq<Value>, parts: seq<Part>) {
    && |types| == |vs| == |parts| && |types| * WORD_SIZE <= |data|
    && forall i :: 0 <= i < |types| ==> PartMatches(types[i], data, HeadWord(data, i), vs[i], parts[i])
  }

  predicate PartMatches(t: AbiType, data: Bytes, head: Bytes, v: Value, part: Part) {
    if !IsDynamic(t) then TailSize(v) == 0 && |head| == WORD_SIZE && part == Static(head)
    else
      && FromBE(head) + TailSize(v) <= |data| && FromBE(head) < TWO_TO_64
      && part == Dynamic(data[FromBE(head)..FromBE(head) + TailSize(v)])
  }

  lemma {:induction false} DecodedAt(types: seq<AbiType>, data: Bytes, i: nat, k: nat)
    requires k < i <= |types| && |types| * WORD_SIZE <= |data| && DecodeUpTo(types, data, i).Ok?
    ensures DecodeValue(types[k], data, HeadWord(data, k)) == Ok(DecodeUpTo(types, data, i).value[k])
    decreases i
  {
    hide DecodeValue;
    if k < i - 1 {
      DecodedAt(types, data, i - 1, k);
    }
  }

  lemma DecodedParts(types: seq<AbiType>, data: Bytes) returns (parts: seq<Part>)
    requires DecodeArgs(types, data).Ok?
    ensures Reencoded(types, data, DecodeArgs(types, data).value, parts)
    ensures EncodeArgs(types, DecodeArgs(types, data).value) == Ok(Assemble(parts))
    ensures forall k :: 0 <= k < |parts| ==> Aligned(|TailOf(parts[k])|)
  {
    hide DecodeValue, EncodeValue, Parts, DecodeUpTo, Assemble, PartMatches, WellTyped;
    var vs := DecodeArgs(types, data).value;
    DecodedReencodes(types, data);
    parts := Parts(types, vs).value;
    forall i | 0 <= i < |types|
      ensures PartMatches(types[i], data, HeadWord(data, i), vs[i], parts[i]) && Aligned(|TailOf(parts[i])|)
    {
      DecodedAt(types, data, |types|, i);
      PartAt(types, vs, i);
      TailIsWords(types[i], vs[i]);
      MatchingPart(types[i], data, HeadWord(data, i), parts[i]);
    }
  }

  lemma MatchingPart(t: AbiType, data: Bytes, head: Bytes, part: Part)
    requires |head| == WORD_SIZE && DecodeValue(t, data, head).Ok?
    requires EncodeValue(t, DecodeValue(t, data, head).value) == Ok(part)
    ensures PartMatches(t, data, head, DecodeValue(t, data, head).value, part)
  {
    hide DecodeValue, EncodeValue, FromBE;
    ArgumentReencodes(t, data, head);
  }

  lemma {:induction false} TailsFill(types: seq<AbiType>, data: Bytes, vs: seq<Value>, parts: seq<Part>, i: nat)
    requires Reencoded(types, data, vs, parts) && i <= |parts|
    ensures |vs| * WORD_SIZE + |Tails(parts[..i])| == TailStart(vs, i)
  {
    hide FromBE, IsDynamic, TailSize;
    if i > 0 {
      TailsFill(types, data, vs, parts, i - 1);
      assert PartMatches(types[i - 1], data, HeadWord(data, i - 1), vs[i - 1], parts[i - 1]);
      assert parts[..i][..i - 1] == parts[..i - 1];
    }
  }

  lemma {:induction false} StartsAscend(vs: seq<Value>, i: nat, j: nat)
    requires i <= j <= |vs|
    ensures TailStart(vs, i) <= TailStart(vs, j)
    decreases j - i
  {
    if i < j {
      StartsAscend(vs, i, j - 1);
    }
  }

  lemma PartOf(types: seq<AbiType>, data: Bytes, vs: seq<Value>, parts: seq<Part>, i: nat)
    requires Reencoded(types, data, vs, parts) && i < |parts|
    ensures |types| == |vs| == |parts| && (i + 1) * WORD_SIZE <= |parts| * WORD_SIZE <= |data|
    ensures PartMatches(types[i], data, HeadWord(data, i), vs[i], parts[i])
  {
    hide PartMatches;
  }

  lemma OffsetOf(types: seq<AbiType>, data: Bytes, vs: seq<Value>, i: nat)
    requires |types| == |vs| && |types| * WORD_SIZE <= |data| && Canonical(types, data, vs) && i < |vs|
    ensures IsDynamic(types[i]) ==> FromBE(HeadWord(data, i)) == TailStart(vs, i)
    ensures TailStart(vs, i + 1) == TailStart(vs, i) + TailSize(vs[i]) <= |data|
  {
    hide FromBE, TailSize, IsDynamic;
    StartsAscend(vs, i + 1, |vs|);
  }

  lemma CanonicalTail(types: seq<AbiType>, data: Bytes, vs: seq<Value>, parts: seq<Part>, i: nat)
    requires Reencoded(types, data, vs, parts) && Canonical(types, data, vs) && i < |parts|
    ensures TailStart(vs, i) <= TailStart(vs, i + 1) <= |data|
    ensures TailOf(parts[i]) == data[TailStart(vs, i)..TailStart(vs, i + 1)]
  {
    hide FromBE, TailSize, IsDynamic, Reencoded, Canonical, TailStart, HeadWord;
    PartOf(types, data, vs, parts, i);
    OffsetOf(types, data, vs, i);
  }

  lemma CanonicalHead(types: seq<AbiType>, data: Bytes, vs: seq<Value>, parts: seq<Part>, i: nat)
    requires Reencoded(types, data, vs, parts) && Canonical(types, data, vs) && i < |parts|
    ensures HeadOf(parts[i], TailStart(vs, i)) == HeadWord(data, i)
  {
    hide FromBE, TailSize, EncodeUint64Word, TailStart, Reencoded, Canonical, HeadWord;
    PartOf(types, data, vs, parts, i);
    OffsetOf(types, data, vs, i);
    if IsDynamic(types[i]) {
      CounterWordReencodes(HeadWord(data, i));
    }
  }

  lemma SnocParts(parts: seq<Part>, i: nat, headLen: nat)
    requires i < |parts|
    ensures Tails(parts[..i + 1]) == Tails(parts[..i]) + TailOf(parts[i])
    ensures Heads(parts[..i + 1], headLen) == Heads(parts[..i], headLen) + HeadOf(parts[i], headLen + |Tails(parts[..i])|)
  {
    hide EncodeUint64Word;
    assert parts[..i + 1][..i] == parts[..i];
  }

  /** In the canonical layout the re-encoded tails are, one after the other, what follows the heads. */
  lemma {:induction false} TailsAreData(types: seq<AbiType>, data: Bytes, vs: seq<Value>, parts: seq<Part>, i: nat)
    requires Reencoded(types, data, vs, parts) && Canonical(types, data, vs) && i <= |parts|
    ensures TailStart(vs, i) <= |data|
    ensures Tails(parts[..i]) == data[|vs| * WORD_SIZE..TailStart(vs, i)]
  {
    hide Reencoded, Canonical, Tails, TailOf, TailStart;
    PartCount(types, data, vs, parts);
    if i == 0 {
      NoParts(parts, vs, data);
    } else {
      TailsAreData(types, data, vs, parts, i - 1);
      CanonicalTail(types, data, vs, parts, i - 1);
      SnocParts(parts, i - 1, 0);
      Adjacent(data, |vs| * WORD_SIZE, TailStart(vs, i - 1), TailStart(vs, i));
    }
  }

  lemma Adjacent(data: Bytes, a: nat, b: nat, c: nat)
    requires a <= b <= c <= |data|
    ensures data[a..b] + data[b..c] == data[a..c]
  {
  }

  lemma NoParts(parts: seq<Part>, vs: seq<Value>, data: Bytes)
    requires |vs| * WORD_SIZE <= |data|
    ensures Tails(parts[..0]) == [] && Heads(parts[..0], |vs| * WORD_SIZE) == []
    ensures TailStart(vs, 0) == |vs| * WORD_SIZE
  {
  }

  lemma {:induction false} HeadsAreData(types: seq<AbiType>, data: Bytes, vs: seq<Value>, parts: seq<Part>, i: nat)
    requires Reencoded(types, data, vs, parts) && Canonical(types, data, vs) && i <= |parts|
    ensures i * WORD_SIZE <= |data| && Heads(parts[..i], |vs| * WORD_SIZE) == data[..i * WORD_SIZE]
  {
    hide Reencoded, Canonical, Heads, HeadOf, TailStart, Tails;
    PartCount(types, data, vs, parts);
    if i == 0 {
      NoParts(parts, vs, data);
    } else {
      HeadsAreData(types, data, vs, parts, i - 1);
      CanonicalHead(types, data, vs, parts, i - 1);
      TailsFill(types, data, vs, parts, i - 1);
      SnocParts(parts, i - 1, |vs| * WORD_SIZE);
      Adjacent(data, 0, (i - 1) * WORD_SIZE, i * WORD_SIZE);
    }
  }

  /** The assembled parts carry canonical offsets. */
  lemma AssembledIsCanonical(types: seq<AbiType>, data: Bytes, vs: seq<Value>, parts: seq<Part>)
    requires Reencoded(types, data, vs, parts) && Assemble(parts) == data && |data| < INT64_LIMIT
    requires forall k :: 0 <= k < |parts| ==> Aligned(|TailOf(parts[k])|)
    ensures Canonical(types, data, vs)
  {
    hide FromBE, TailSize, EncodeUint64Word, Heads, Tails, TailStart, Aligned;
    HeadsLength(parts, |parts| * WORD_SIZE);
    TailsFill(types, data, vs, parts, |parts|);
    assert parts[..|parts|] == parts;
    forall i | 0 <= i < |types| && IsDynamic(types[i])
      ensures FromBE(HeadWord(data, i)) == TailStart(vs, i)
    {
      assert PartMatches(types[i], data, HeadWord(data, i), vs[i], parts[i]);
      var rest := LayoutPoints(parts, i);
      TailsFill(types, data, vs, parts, i);
      CounterWordDecodes(TailStart(vs, i));
    }
  }

  /** Re-encoding decoded data gives it back byte for byte exactly when it is in canonical layout. */
  lemma ReencodesExactly(types: seq<AbiType>, data: Bytes)
    requires DecodeArgs(types, data).Ok? && |data| < INT64_LIMIT
    ensures var vs := DecodeArgs(types, data).value;
            EncodeArgs(types, vs) == Ok(data) <==> Canonical(types, data, vs)
  {
    hide DecodeUpTo, EncodeArgs, Canonical, Heads, Tails, TailStart, Reencoded;
    var vs := DecodeArgs(types, data).value;
    var parts := DecodedParts(types, data);
    PartCount(types, data, vs, parts);
    if Canonical(types, data, vs) {
      CanonicalAssembles(types, data, vs, parts);
    }
    if Assemble(parts) == data {
      AssembledIsCanonical(types, data, vs, parts);
    }
  }

  lemma PartCount(types: seq<AbiType>, data: Bytes, vs: seq<Value>, parts: seq<Part>)
    requires Reencoded(types, data, vs, parts)
    ensures |types| == |vs| == |parts| && |parts| * WORD_SIZE <= |data|
  {
  }

  lemma CanonicalAssembles(types: seq<AbiType>, data: Bytes, vs: seq<Value>, parts: seq<Part>)
    requires Reencoded(types, data, vs, parts) && Canonical(types, data, vs)
    ensures Assemble(parts) == data
  {
    hide Heads, Tails, TailStart, FromBE;
    var n := |parts|;
    HeadsAreData(types, data, vs, parts, n);
    TailsAreData(types, data, vs, parts, n);
    assert parts[..n] == parts;
    assert data == data[..n * WORD_SIZE] + data[n * WORD_SIZE..];
  }
}
