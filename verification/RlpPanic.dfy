/** Exactly when rlp.Decode slices out of range: the inputs on which the 64-bit length sum of some
    reached header wraps. */
module RlpPanic {
  import opened Basics
  import opened Numbers
  import opened Rlp

  /** q is some complete items within the nesting limit, then tail. */
  predicate ItemsThen(q: Bytes, items: seq<Item>, tail: Bytes, depth: nat) {
    q == EncodeAll(items) + tail && tail != [] && depth + DepthAll(items) <= MAX_NESTING_DEPTH
  }

  /** b opens with a list whose payload is some complete items, then tail. */
  ghost predicate Opens(b: Bytes, q: Bytes, items: seq<Item>, tail: Bytes, depth: nat) {
    && depth < MAX_NESTING_DEPTH && ItemsThen(q, items, tail, depth + 1)
    && EncodePayload(q) <= b
  }

  /** The header at the front of b wraps, or the front of b is a list in which, after complete items,
      such a header stands. */
  ghost predicate Stands(b: Bytes, depth: nat)
    decreases |b|
  {
    || Wraps(b, depth)
    || exists q, items, tail :: Opens(b, q, items, tail, depth) && |tail| < |b| && Stands(tail, depth + 1)
  }

  lemma TailIsShorter(b: Bytes, q: Bytes, items: seq<Item>, tail: Bytes, depth: nat)
    requires Opens(b, q, items, tail, depth)
    ensures |tail| <= |q| < |b|
  {
    hide EncodeAll, DepthAll, EncodePayload;
    PayloadIsShorter(q);
  }

  /** The list a byte string opens with is read by its header. */
  lemma OpensWithHeader(b: Bytes, q: Bytes, depth: nat)
    requires EncodePayload(q) <= b && depth < MAX_NESTING_DEPTH && |b| < TWO_TO_64 / 2
    ensures var h := DecodeHeader(b, depth);
            h.Ok? && h.value.isList && b[h.value.off..h.value.off + h.value.len] == q
  {
    hide EncodePayload, DecodeHeader;
    var rest := b[|EncodePayload(q)|..];
    assert b == EncodePayload(q) + rest;
    ListHeaderReads(q, rest, depth);
  }

  lemma {:induction false} ItemPanicsExactly(b: Bytes, depth: nat)
    requires |b| < TWO_TO_64 / 2 && depth <= MAX_NESTING_DEPTH
    ensures DecodeItem(b, depth) == Err(SliceOutOfRange) <==> Stands(b, depth)
    decreases |b|, 0
  {
    hide DecodeHeader, EncodePayload, EncodeAll, DepthAll, DecodeListItems, FromBE;
    HeaderPanicsExactly(b, depth);
    var h := DecodeHeader(b, depth);
    if h.Ok? && h.value.isList {
      var q := b[h.value.off..h.value.off + h.value.len];
      HeaderCanonical(b, depth);
      ItemsPanicExactly(q, depth + 1);
      ListStands(b, q, depth);
    } else {
      forall q, items, tail | Opens(b, q, items, tail, depth)
        ensures false
      {
        OpensWithHeader(b, q, depth);
      }
    }
  }

  /** A list stands when its payload does. */
  lemma ListStands(b: Bytes, q: Bytes, depth: nat)
    requires |b| < TWO_TO_64 / 2 && depth < MAX_NESTING_DEPTH
    requires EncodePayload(q) <= b && !Wraps(b, depth)
    ensures Stands(b, depth) <==> PayloadStands(q, depth + 1)
  {
    hide DecodeHeader, EncodePayload, ItemsThen, Wraps;
    if Stands(b, depth) {
      var p, items, tail :| Opens(b, p, items, tail, depth) && |tail| < |b| && Stands(tail, depth + 1);
      OpensWithHeader(b, p, depth);
      OpensWithHeader(b, q, depth);
      assert ItemsThen(q, items, tail, depth + 1);
    }
    if PayloadStands(q, depth + 1) {
      var items, tail :| ItemsThen(q, items, tail, depth + 1) && Stands(tail, depth + 1);
      assert Opens(b, q, items, tail, depth);
      TailIsShorter(b, q, items, tail, depth);
    }
  }

  ghost predicate PayloadStands(q: Bytes, depth: nat) {
    exists items, tail :: ItemsThen(q, items, tail, depth) && Stands(tail, depth)
  }

  lemma {:induction false} ItemsPanicExactly(q: Bytes, depth: nat)
    requires |q| < TWO_TO_64 / 2 && depth <= MAX_NESTING_DEPTH
    ensures DecodeListItems(q, depth) == Err(SliceOutOfRange) <==> PayloadStands(q, depth)
    decreases |q|, 1
  {
    hide DecodeItem, Stands, ItemsThen;
    if q == [] {
      NothingStands(depth);
    } else {
      ItemPanicsExactly(q, depth);
      var first := DecodeItem(q, depth);
      if first.Ok? {
        ItemsPanicExactly(first.value.1, depth);
        SkipItem(q, depth);
      } else {
        FirstStands(q, depth);
      }
    }
  }

  lemma NothingStands(depth: nat)
    ensures !PayloadStands([], depth)
  {
  }

  /** A failing first item is where the payload stands or falls. */
  lemma FirstStands(q: Bytes, depth: nat)
    requires q != [] && |q| < TWO_TO_64 / 2 && depth <= MAX_NESTING_DEPTH && DecodeItem(q, depth).Err?
    ensures PayloadStands(q, depth) <==> Stands(q, depth)
  {
    hide DecodeItem, Stands, Encode, EncodeAll, DepthAll;
    if Stands(q, depth) {
      NoItems(q, depth);
    }
    if PayloadStands(q, depth) {
      var items, tail :| ItemsThen(q, items, tail, depth) && Stands(tail, depth);
      if items == [] {
        NoItems(q, depth);
        assert EncodeAll([]) + tail == tail by { EncodeAllNil(); }
      } else {
        FirstDecodes(q, items, tail, depth);
      }
    }
  }

  lemma NoItems(q: Bytes, depth: nat)
    requires q != [] && depth <= MAX_NESTING_DEPTH
    ensures ItemsThen(q, [], q, depth)
  {
    assert EncodeAll([]) + q == q;
  }

  lemma FirstDecodes(q: Bytes, items: seq<Item>, tail: Bytes, depth: nat)
    requires items != [] && ItemsThen(q, items, tail, depth) && |q| < TWO_TO_64 / 2
    ensures DecodeItem(q, depth) == Ok((items[0], EncodeAll(items[1..]) + tail))
    ensures ItemsThen(EncodeAll(items[1..]) + tail, items[1..], tail, depth)
  {
    hide DecodeItem, Encode, Depth;
    Regroup(Encode(items[0]), EncodeAll(items[1..]), tail);
    DecodeEncode(items[0], EncodeAll(items[1..]) + tail, depth);
  }

  /** After a first item that decodes, the payload stands where its rest does. */
  lemma SkipItem(q: Bytes, depth: nat)
    requires q != [] && |q| < TWO_TO_64 / 2 && depth <= MAX_NESTING_DEPTH && DecodeItem(q, depth).Ok?
    requires !Stands(q, depth)
    ensures PayloadStands(q, depth) <==> PayloadStands(DecodeItem(q, depth).value.1, depth)
  {
    hide DecodeItem, Stands, ItemsThen;
    var (v, rest) := DecodeItem(q, depth).value;
    if PayloadStands(q, depth) {
      var items, tail :| ItemsThen(q, items, tail, depth) && Stands(tail, depth);
      if items == [] {
        NoItemsTail(q, tail, depth);
      } else {
        FirstDecodes(q, items, tail, depth);
      }
    }
    if PayloadStands(rest, depth) {
      var items, tail :| ItemsThen(rest, items, tail, depth) && Stands(tail, depth);
      OneMoreItem(q, depth, items, tail);
      assert ItemsThen(q, [v] + items, tail, depth);
    }
  }

  lemma NoItemsTail(q: Bytes, tail: Bytes, depth: nat)
    requires ItemsThen(q, [], tail, depth)
    ensures tail == q
  {
  }

  lemma OneMoreItem(q: Bytes, depth: nat, items: seq<Item>, tail: Bytes)
    requires DecodeItem(q, depth).Ok? && depth <= MAX_NESTING_DEPTH
    requires ItemsThen(DecodeItem(q, depth).value.1, items, tail, depth)
    ensures ItemsThen(q, [DecodeItem(q, depth).value.0] + items, tail, depth)
  {
    hide DecodeItem, Encode, Depth;
    EncodeDecode(q, depth);
    var (v, rest) := DecodeItem(q, depth).value;
    assert ([v] + items)[1..] == items;
    Regroup(Encode(v), EncodeAll(items), tail);
  }

  /** Decode slices out of range exactly on the inputs in which a wrapping header stands. */
  lemma DecodePanicsExactly(b: Bytes)
    ensures Decode(b) == Err(SliceOutOfRange) <==> |b| <= MAX_INPUT_LEN && Stands(b, 0)
  {
    hide DecodeItem, Stands;
    if |b| == 0 {
      EmptyDoesNotStand();
    } else if |b| <= MAX_INPUT_LEN {
      ItemPanicsExactly(b, 0);
    }
  }

  lemma EmptyDoesNotStand()
    ensures !Stands([], 0)
  {
  }

  // ---------------------------------------------------------------- a condition on windows

  /** Nine bytes from i on that would be a wrapping header. */
  predicate WindowAt(b: Bytes, i: int) {
    0 <= i && i + 9 <= |b| && (b[i] == 0xbf || b[i] == 0xff) && FromBE(b[i + 1..i + 9]) >= TWO_TO_64 - 9
  }

  ghost predicate HasWindow(b: Bytes) {
    exists i :: WindowAt(b, i)
  }

  lemma WindowInside(a: Bytes, b: Bytes, c: Bytes)
    requires HasWindow(b)
    ensures HasWindow(a + b + c)
  {
    hide FromBE;
    var i :| WindowAt(b, i);
    var k, all := |a| + i, a + b + c;
    assert all[k + 1..k + 9] == b[i + 1..i + 9] && all[k] == b[i];
    assert WindowAt(all, k);
  }

  lemma {:induction false} StandsHasWindow(b: Bytes, depth: nat)
    requires Stands(b, depth)
    ensures HasWindow(b)
    decreases |b|
  {
    hide EncodeAll, DepthAll, EncodePayload, FromBE;
    if Wraps(b, depth) {
      assert WindowAt(b, 0);
    } else {
      var q, items, tail :| Opens(b, q, items, tail, depth) && |tail| < |b| && Stands(tail, depth + 1);
      StandsHasWindow(tail, depth + 1);
      var header := PayloadSuffix(q);
      var rest := b[|EncodePayload(q)|..];
      assert b == (header + EncodeAll(items)) + tail + rest;
      WindowInside(header + EncodeAll(items), tail, rest);
    }
  }

  lemma PayloadSuffix(q: Bytes) returns (header: Bytes)
    ensures EncodePayload(q) == header + q
  {
    hide ToBE;
    header := EncodePayload(q)[..|EncodePayload(q)| - |q|];
  }

  /** Without such a window anywhere, Decode never slices out of range. */
  lemma NoWindowNoPanic(b: Bytes)
    requires !HasWindow(b)
    ensures Decode(b) != Err(SliceOutOfRange)
  {
    hide HasWindow, Stands, Decode;
    DecodePanicsExactly(b);
    if Stands(b, 0) {
      StandsHasWindow(b, 0);
    }
  }

  /** The wrapping header need not be the first: here it stands inside a list. */
  lemma NestedPanicExample()
    ensures Decode([0xc9, 0xbf] + FixedBE(TWO_TO_64 - 1, 8)) == Err(SliceOutOfRange)
  {
    hide Stands, Decode, Wraps;
    var tail := [0xbf] + FixedBE(TWO_TO_64 - 1, 8);
    var b := [0xc9, 0xbf] + FixedBE(TWO_TO_64 - 1, 8);
    NestedStands(tail, b);
    DecodePanicsExactly(b);
  }

  lemma NestedStands(tail: Bytes, b: Bytes)
    requires tail == [0xbf] + FixedBE(TWO_TO_64 - 1, 8) && b == [0xc9, 0xbf] + FixedBE(TWO_TO_64 - 1, 8)
    ensures Stands(b, 0)
  {
    hide FromBE, FixedBE, Stands;
    Pow256Values();
    FromFixedBE(TWO_TO_64 - 1, 8);
    assert tail[1..9] == FixedBE(TWO_TO_64 - 1, 8);
    assert Wraps(tail, 1);
    assert Stands(tail, 1) by { WrapsStands(tail, 1); }
    assert b == [0xc0 + |tail|] + tail;
    NoItems(tail, 1);
    assert Opens(b, tail, [], tail, 0);
    OpensStands(b, tail, [], tail, 0);
  }

  lemma WrapsStands(b: Bytes, depth: nat)
    requires Wraps(b, depth)
    ensures Stands(b, depth)
  {
  }

  lemma OpensStands(b: Bytes, q: Bytes, items: seq<Item>, tail: Bytes, depth: nat)
    requires Opens(b, q, items, tail, depth) && Stands(tail, depth + 1)
    ensures Stands(b, depth)
  {
    TailIsShorter(b, q, items, tail, depth);
  }
}
