/** The CBOR subset of webauthn.py: unsigned and negative integers, byte strings and maps
    with integer keys (sections 3 and 3.1 of RFC 8949). The decoder is a class with a moving
    offset, proved against the function `Decode`; `Decode` in turn is proved to accept
    exactly the encodings of items, in every legal choice of length width. */
module Cbor {
  import opened Prelude

  datatype Value = Int(n: int) | Bytes(data: bytes) | Map(fields: map<int, Value>)

  // ----- Big-endian numbers (struct.unpack ">H", ">I", ">Q") -----

  function FromBigEndian(b: bytes): (n: nat) {
    if b == [] then 0 else FromBigEndian(b[..|b| - 1]) * 256 + Last(b)
  }

  function ToBigEndian(n: nat, width: nat): (b: bytes)
    ensures |b| == width
  {
    if width == 0 then [] else ToBigEndian(n / 256, width - 1) + [n % 256]
  }

  function Pow256(k: nat): (p: nat)
    ensures p > 0
  {
    if k == 0 then 1 else 256 * Pow256(k - 1)
  }

  lemma {:induction false} BigEndianRoundTrip(n: nat, width: nat)
    requires n < Pow256(width)
    ensures FromBigEndian(ToBigEndian(n, width)) == n
  {
    if width > 0 {
      BigEndianRoundTrip(n / 256, width - 1);
      var b := ToBigEndian(n, width);
      assert b[..|b| - 1] == ToBigEndian(n / 256, width - 1);
    }
  }

  lemma {:induction false} BigEndianOnto(b: bytes)
    ensures FromBigEndian(b) < Pow256(|b|)
    ensures ToBigEndian(FromBigEndian(b), |b|) == b
  {
    if b != [] {
      var front, last := b[..|b| - 1], Last(b);
      BigEndianOnto(front);
      var n := FromBigEndian(b);
      assert n / 256 == FromBigEndian(front) && n % 256 == last;
      assert ToBigEndian(n, |b|) == ToBigEndian(n / 256, |front|) + [n % 256];
      assert b == front + [last];
    }
  }

  // ----- The decoder as a function of the buffer and the offset -----

  datatype Parse<+T> = Parsed(value: T, next: nat) | Malformed

  /** Number of bytes that follow the initial byte for a given additional information. */
  function ExtraBytes(info: nat): Option<nat> {
    if info < 24 then Some(0)
    else if info == 24 then Some(1)
    else if info == 25 then Some(2)
    else if info == 26 then Some(4)
    else if info == 27 then Some(8)
    else None
  }

  function ReadBytes(buf: bytes, pos: nat, n: nat): (p: Parse<bytes>)
    requires pos <= |buf|
    ensures p.Parsed? ==> p.next == pos + n <= |buf| && |p.value| == n
  {
    if pos + n > |buf| then Malformed else Parsed(buf[pos..pos + n], pos + n)
  }

  function ReadUint(buf: bytes, pos: nat, info: nat): (p: Parse<nat>)
    requires pos <= |buf|
    ensures p.Parsed? ==> pos <= p.next <= |buf|
  {
    if info < 24 then Parsed(info, pos) else
    match ExtraBytes(info)
    case None => Malformed
    case Some(k) =>
      match ReadBytes(buf, pos, k)
      case Malformed => Malformed
      case Parsed(b, next) => Parsed(FromBigEndian(b), next)
  }

  function Decode(buf: bytes, pos: nat): (p: Parse<Value>)
    requires pos <= |buf|
    ensures p.Parsed? ==> pos < p.next <= |buf|
    decreases |buf| - pos, 0
  {
    if pos == |buf| then Malformed else
    var major, info := buf[pos] / 32, buf[pos] % 32;
    if major !in {0, 1, 2, 5} then Malformed else
    match ReadUint(buf, pos + 1, info)
    case Malformed => Malformed
    case Parsed(n, next) =>
      if major == 0 then Parsed(Int(n), next)
      else if major == 1 then Parsed(Int(-1 - n), next)
      else if major == 2 then
        match ReadBytes(buf, next, n)
        case Malformed => Malformed
        case Parsed(b, end) => Parsed(Bytes(b), end)
      else
        match DecodeEntries(buf, next, n, map[])
        case Malformed => Malformed
        case Parsed(m, end) => Parsed(Map(m), end)
  }

  /** The `for _ in range(length)` loop, from the point where `n` rounds remain. */
  function DecodeEntries(buf: bytes, pos: nat, n: nat, acc: map<int, Value>): (p: Parse<map<int, Value>>)
    requires pos <= |buf|
    ensures p.Parsed? ==> pos <= p.next <= |buf|
    decreases |buf| - pos, 1
  {
    if n == 0 then Parsed(acc, pos) else
    match Decode(buf, pos)
    case Malformed => Malformed
    case Parsed(key, afterKey) =>
      match Decode(buf, afterKey)
      case Malformed => Malformed
      case Parsed(value, afterValue) =>
        if !key.Int? then Malformed
        else DecodeEntries(buf, afterValue, n - 1, acc[key.n := value])
  }

  /** `_decode_cbor_map`: the whole buffer is one item, and the item is a map. */
  function DecodeMap(buf: bytes): Option<map<int, Value>> {
    match Decode(buf, 0)
    case Parsed(Map(m), next) => if next == |buf| then Some(m) else None
    case _ => None
  }

  // ----- Encodings: an item with the length width chosen at each head -----

  datatype Width = Inline | W1 | W2 | W4 | W8

  datatype Item =
    | UIntItem(w: Width, n: nat)
    | NIntItem(w: Width, n: nat)
    | BytesItem(w: Width, data: bytes)
    | MapItem(w: Width, entries: Entries)

  datatype Entries = Nil | Entry(key: Item, value: Item, rest: Entries)

  function WidthBytes(w: Width): nat {
    match w case Inline => 0 case W1 => 1 case W2 => 2 case W4 => 4 case W8 => 8
  }

  function WidthInfo(w: Width): nat
    requires w != Inline
  {
    match w case W1 => 24 case W2 => 25 case W4 => 26 case W8 => 27
  }

  /** Whether the length or number `n` may be written in width `w`; no shortest form is demanded. */
  predicate Fits(w: Width, n: nat) {
    if w == Inline then n < 24 else n < Pow256(WidthBytes(w))
  }

  function Count(es: Entries): nat {
    match es case Nil => 0 case Entry(_, _, rest) => 1 + Count(rest)
  }

  predicate WellFormed(item: Item) {
    match item
    case UIntItem(w, n) => Fits(w, n)
    case NIntItem(w, n) => Fits(w, n)
    case BytesItem(w, data) => Fits(w, |data|)
    case MapItem(w, entries) => Fits(w, Count(entries)) && WellFormedEntries(entries)
  }

  predicate WellFormedEntries(es: Entries) {
    match es
    case Nil => true
    case Entry(key, value, rest) =>
      (key.UIntItem? || key.NIntItem?) && WellFormed(key) && WellFormed(value) && WellFormedEntries(rest)
  }

  function EncodeHead(major: nat, w: Width, n: nat): (b: bytes)
    requires major < 8 && Fits(w, n)
    ensures |b| == 1 + WidthBytes(w)
  {
    if w == Inline then [major * 32 + n]
    else [major * 32 + WidthInfo(w)] + ToBigEndian(n, WidthBytes(w))
  }

  function Encode(item: Item): (b: bytes)
    requires WellFormed(item)
    ensures b != []
  {
    match item
    case UIntItem(w, n) => EncodeHead(0, w, n)
    case NIntItem(w, n) => EncodeHead(1, w, n)
    case BytesItem(w, data) => EncodeHead(2, w, |data|) + data
    case MapItem(w, entries) => EncodeHead(5, w, Count(entries)) + EncodeEntries(entries)
  }

  function EncodeEntries(es: Entries): bytes
    requires WellFormedEntries(es)
  {
    match es
    case Nil => []
    case Entry(key, value, rest) => Encode(key) + Encode(value) + EncodeEntries(rest)
  }

  /** The value an item stands for. In a map the last of several equal keys wins. */
  function Meaning(item: Item): Value
    requires WellFormed(item)
  {
    match item
    case UIntItem(_, n) => Int(n)
    case NIntItem(_, n) => Int(-1 - n)
    case BytesItem(_, data) => Bytes(data)
    case MapItem(_, entries) => Map(MeaningOfEntries(entries, map[]))
  }

  function MeaningOfEntries(es: Entries, acc: map<int, Value>): map<int, Value>
    requires WellFormedEntries(es)
  {
    match es
    case Nil => acc
    case Entry(key, value, rest) => MeaningOfEntries(rest, acc[Meaning(key).n := Meaning(value)])
  }

  // ----- Round trip -----

  /** `s` occurs in `buf` at offset `pos`. */
  predicate At(buf: bytes, pos: nat, s: bytes) {
    pos + |s| <= |buf| && buf[pos..pos + |s|] == s
  }

  lemma AtSplit(buf: bytes, pos: nat, s: bytes, t: bytes)
    requires At(buf, pos, s + t)
    ensures At(buf, pos, s) && At(buf, pos + |s|, t) && pos + |s| + |t| <= |buf|
  {
    var st := buf[pos..pos + |s + t|];
    assert st[..|s|] == s && st[|s|..] == t;
  }

  lemma HeadByte(major: nat, info: nat)
    requires info < 32
    ensures (major * 32 + info) / 32 == major && (major * 32 + info) % 32 == info
  {
  }

  lemma ReadUintOfWidth(buf: bytes, pos: nat, w: Width, n: nat)
    requires w != Inline && Fits(w, n) && At(buf, pos, ToBigEndian(n, WidthBytes(w)))
    ensures ReadUint(buf, pos, WidthInfo(w)) == Parsed(n, pos + WidthBytes(w))
  {
    BigEndianRoundTrip(n, WidthBytes(w));
  }

  /** Reading a head back gives its major type and its number. */
  lemma HeadRoundTrip(buf: bytes, pos: nat, major: nat, w: Width, n: nat)
    requires major < 8 && Fits(w, n) && At(buf, pos, EncodeHead(major, w, n))
    ensures buf[pos] / 32 == major
    ensures ReadUint(buf, pos + 1, buf[pos] % 32) == Parsed(n, pos + 1 + WidthBytes(w))
  {
    var info := if w == Inline then n else WidthInfo(w);
    HeadByte(major, info);
    if w != Inline {
      AtSplit(buf, pos, [major * 32 + info], ToBigEndian(n, WidthBytes(w)));
      ReadUintOfWidth(buf, pos + 1, w, n);
    }
    assert buf[pos] == buf[pos..pos + |EncodeHead(major, w, n)|][0] == major * 32 + info;
  }

  lemma NumberAtEncoding(buf: bytes, pos: nat, w: Width, n: nat)
    requires Fits(w, n)
    ensures At(buf, pos, EncodeHead(0, w, n)) ==> Decode(buf, pos) == Parsed(Int(n), pos + 1 + WidthBytes(w))
    ensures At(buf, pos, EncodeHead(1, w, n)) ==> Decode(buf, pos) == Parsed(Int(-1 - n), pos + 1 + WidthBytes(w))
  {
    if At(buf, pos, EncodeHead(0, w, n)) {
      HeadRoundTrip(buf, pos, 0, w, n);
    }
    if At(buf, pos, EncodeHead(1, w, n)) {
      HeadRoundTrip(buf, pos, 1, w, n);
    }
  }

  lemma BytesAtEncoding(buf: bytes, pos: nat, w: Width, data: bytes)
    requires Fits(w, |data|) && At(buf, pos, EncodeHead(2, w, |data|) + data)
    ensures Decode(buf, pos) == Parsed(Bytes(data), pos + 1 + WidthBytes(w) + |data|)
  {
    hide EncodeHead, ReadUint, Fits, ExtraBytes;
    AtSplit(buf, pos, EncodeHead(2, w, |data|), data);
    HeadRoundTrip(buf, pos, 2, w, |data|);
  }

  lemma MapHeadAtEncoding(buf: bytes, pos: nat, w: Width, n: nat, end: Parse<map<int, Value>>)
    requires Fits(w, n) && At(buf, pos, EncodeHead(5, w, n))
    requires end == DecodeEntries(buf, pos + 1 + WidthBytes(w), n, map[]) && end.Parsed?
    ensures Decode(buf, pos) == Parsed(Map(end.value), end.next)
  {
    HeadRoundTrip(buf, pos, 5, w, n);
  }

  /** Where the encoding of an item stands in a buffer, decoding returns the item's value and
      stops exactly at the end of the encoding, for every item and every width. */
  lemma {:induction false} DecodeAtEncoding(buf: bytes, pos: nat, item: Item)
    requires WellFormed(item) && At(buf, pos, Encode(item))
    ensures Decode(buf, pos) == Parsed(Meaning(item), pos + |Encode(item)|)
    decreases item, 0
  {
    match item
    case UIntItem(w, n) => NumberAtEncoding(buf, pos, w, n);
    case NIntItem(w, n) => NumberAtEncoding(buf, pos, w, n);
    case BytesItem(w, data) => BytesAtEncoding(buf, pos, w, data);
    case MapItem(w, entries) => MapAtEncoding(buf, pos, w, entries);
  }

  lemma {:induction false} MapAtEncoding(buf: bytes, pos: nat, w: Width, entries: Entries)
    requires WellFormed(MapItem(w, entries)) && At(buf, pos, Encode(MapItem(w, entries)))
    ensures Decode(buf, pos)
         == Parsed(Map(MeaningOfEntries(entries, map[])), pos + |Encode(MapItem(w, entries))|)
    decreases entries, 2
  {
    hide Decode;
    hide DecodeEntries;
    var head := EncodeHead(5, w, Count(entries));
    AtSplit(buf, pos, head, EncodeEntries(entries));
    DecodeEntriesAtEncoding(buf, pos + |head|, entries, map[]);
    MapHeadAtEncoding(buf, pos, w, Count(entries), DecodeEntries(buf, pos + |head|, Count(entries), map[]));
  }

  lemma {:induction false} DecodeEntriesAtEncoding(buf: bytes, pos: nat, es: Entries, acc: map<int, Value>)
    requires WellFormedEntries(es) && At(buf, pos, EncodeEntries(es))
    ensures DecodeEntries(buf, pos, Count(es), acc)
         == Parsed(MeaningOfEntries(es, acc), pos + |EncodeEntries(es)|)
    decreases es, 1
  {
    hide *;
    if es == Nil {
      NoRound(buf, pos, acc);
    } else {
      EntryUnfolds(es, acc);
      var k, v, r := Encode(es.key), Encode(es.value), EncodeEntries(es.rest);
      var mid, next := pos + |k|, pos + |k| + |v|;
      AtSplit(buf, pos, k + v, r);
      AtSplit(buf, pos, k, v);
      DecodeAtEncoding(buf, pos, es.key);
      DecodeAtEncoding(buf, mid, es.value);
      OneRound(buf, pos, es, acc);
      DecodeEntriesAtEncoding(buf, next, es.rest, acc[Meaning(es.key).n := Meaning(es.value)]);
    }
  }

  lemma NoRound(buf: bytes, pos: nat, acc: map<int, Value>)
    ensures WellFormedEntries(Nil) && |EncodeEntries(Nil)| == 0 && MeaningOfEntries(Nil, acc) == acc
    ensures Count(Nil) == 0 && (pos <= |buf| ==> DecodeEntries(buf, pos, 0, acc) == Parsed(acc, pos))
    ensures At(buf, pos, EncodeEntries(Nil)) ==> pos <= |buf|
  {
  }

  lemma EntryUnfolds(es: Entries, acc: map<int, Value>)
    requires es.Entry? && WellFormedEntries(es)
    ensures WellFormed(es.key) && WellFormed(es.value) && WellFormedEntries(es.rest) && Meaning(es.key).Int?
    ensures EncodeEntries(es) == Encode(es.key) + Encode(es.value) + EncodeEntries(es.rest)
    ensures MeaningOfEntries(es, acc) == MeaningOfEntries(es.rest, acc[Meaning(es.key).n := Meaning(es.value)])
  {
  }

  /** One round of the entry loop. */
  lemma OneRound(buf: bytes, pos: nat, es: Entries, acc: map<int, Value>)
    requires WellFormedEntries(es) && es.Entry?
    requires var mid := pos + |Encode(es.key)|; var next := mid + |Encode(es.value)|;
      && next <= |buf|
      && Decode(buf, pos) == Parsed(Meaning(es.key), mid)
      && Decode(buf, mid) == Parsed(Meaning(es.value), next)
    ensures DecodeEntries(buf, pos, Count(es), acc)
         == DecodeEntries(buf, pos + |Encode(es.key)| + |Encode(es.value)|, Count(es.rest),
                          acc[Meaning(es.key).n := Meaning(es.value)])
  {
    hide Decode, ReadUint, Encode, EncodeEntries, MeaningOfEntries;
  }

  /** Decoding an encoding followed by any suffix returns the value and leaves the suffix. */
  lemma DecodeEncode(item: Item, suffix: bytes)
    requires WellFormed(item)
    ensures Decode(Encode(item) + suffix, 0) == Parsed(Meaning(item), |Encode(item)|)
  {
    DecodeAtEncoding(Encode(item) + suffix, 0, item);
  }

  // ----- Soundness: nothing but encodings is accepted -----

  function WidthOf(info: nat): (w: Width)
    requires 24 <= info < 28
    ensures w != Inline && WidthInfo(w) == info && ExtraBytes(info) == Some(WidthBytes(w))
  {
    if info == 24 then W1 else if info == 25 then W2 else if info == 26 then W4 else W8
  }

  lemma TailSound(buf: bytes, pos: nat, w: Width)
    requires pos <= |buf| && w != Inline && ReadUint(buf, pos, WidthInfo(w)).Parsed?
    ensures var p := ReadUint(buf, pos, WidthInfo(w));
      && p.next == pos + WidthBytes(w) <= |buf| && Fits(w, p.value)
      && ToBigEndian(p.value, WidthBytes(w)) == buf[pos..p.next]
  {
    hide ToBigEndian, FromBigEndian;
    BigEndianOnto(buf[pos..pos + WidthBytes(w)]);
  }

  lemma InfoOfWidth(buf: bytes, pos: nat, info: nat)
    requires pos <= |buf| && info >= 24 && ReadUint(buf, pos, info).Parsed?
    ensures info < 28
  {
    hide FromBigEndian;
  }

  lemma HeadSound(buf: bytes, pos: nat) returns (w: Width)
    requires pos < |buf| && ReadUint(buf, pos + 1, buf[pos] % 32).Parsed?
    ensures var p := ReadUint(buf, pos + 1, buf[pos] % 32);
      Fits(w, p.value) && EncodeHead(buf[pos] / 32, w, p.value) == buf[pos..p.next]
  {
    var info := buf[pos] % 32;
    if info < 24 {
      w := Inline;
    } else {
      hide ReadUint, WidthOf, Fits, ToBigEndian;
      InfoOfWidth(buf, pos + 1, info);
      w := WidthOf(info);
      TailSound(buf, pos + 1, w);
      var next := ReadUint(buf, pos + 1, info).next;
      assert buf[pos..next] == [buf[pos]] + buf[pos + 1..next];
    }
  }

  /** Whatever the decoder accepts is the encoding of an item with that value: with
      `DecodeEncode`, the decoder accepts exactly the encodings. */
  lemma {:induction false} DecodeSound(buf: bytes, pos: nat) returns (item: Item)
    requires pos <= |buf| && Decode(buf, pos).Parsed?
    ensures WellFormed(item) && Encode(item) == buf[pos..Decode(buf, pos).next]
    ensures Meaning(item) == Decode(buf, pos).value
    decreases |buf| - pos, 0
  {
    var major := buf[pos] / 32;
    var p := ReadUint(buf, pos + 1, buf[pos] % 32);
    var w := HeadSound(buf, pos);
    var end := Decode(buf, pos).next;
    assert buf[pos..end] == buf[pos..p.next] + buf[p.next..end];
    if major == 0 {
      item := UIntItem(w, p.value);
    } else if major == 1 {
      item := NIntItem(w, p.value);
    } else if major == 2 {
      item := BytesItem(w, buf[p.next..end]);
    } else {
      var entries := DecodeEntriesSound(buf, p.next, p.value, map[]);
      item := MapItem(w, entries);
    }
  }

  lemma {:induction false} DecodeEntriesSound(buf: bytes, pos: nat, n: nat, acc: map<int, Value>) returns (es: Entries)
    requires pos <= |buf| && DecodeEntries(buf, pos, n, acc).Parsed?
    ensures WellFormedEntries(es) && Count(es) == n
    ensures EncodeEntries(es) == buf[pos..DecodeEntries(buf, pos, n, acc).next]
    ensures MeaningOfEntries(es, acc) == DecodeEntries(buf, pos, n, acc).value
    decreases |buf| - pos, 1
  {
    hide *;
    if n == 0 {
      es := Nil;
      NoRound(buf, pos, acc);
    } else {
      var end := DecodeEntries(buf, pos, n, acc).next;
      var mid, next := OneRoundAccepted(buf, pos, n, acc);
      var key := DecodeSound(buf, pos);
      var value := DecodeSound(buf, mid);
      var acc' := acc[Decode(buf, pos).value.n := Decode(buf, mid).value];
      var rest := DecodeEntriesSound(buf, next, n - 1, acc');
      es := EntryOf(key, value, rest, acc);
      assert buf[pos..end] == buf[pos..mid] + buf[mid..next] + buf[next..end];
    }
  }

  lemma OneRoundAccepted(buf: bytes, pos: nat, n: nat, acc: map<int, Value>) returns (mid: nat, next: nat)
    requires pos <= |buf| && n > 0 && DecodeEntries(buf, pos, n, acc).Parsed?
    ensures pos < mid < next <= DecodeEntries(buf, pos, n, acc).next <= |buf|
    ensures Decode(buf, pos).Parsed? && Decode(buf, pos).next == mid && Decode(buf, pos).value.Int?
    ensures Decode(buf, mid).Parsed? && Decode(buf, mid).next == next
    ensures DecodeEntries(buf, pos, n, acc)
         == DecodeEntries(buf, next, n - 1, acc[Decode(buf, pos).value.n := Decode(buf, mid).value])
  {
    hide Decode, ReadUint;
    mid := Decode(buf, pos).next;
    next := Decode(buf, mid).next;
  }

  lemma EntryOf(key: Item, value: Item, rest: Entries, acc: map<int, Value>) returns (es: Entries)
    requires WellFormed(key) && WellFormed(value) && WellFormedEntries(rest) && Meaning(key).Int?
    ensures es == Entry(key, value, rest)
    ensures WellFormedEntries(es) && Count(es) == 1 + Count(rest)
    ensures EncodeEntries(es) == Encode(key) + Encode(value) + EncodeEntries(rest)
    ensures MeaningOfEntries(es, acc) == MeaningOfEntries(rest, acc[Meaning(key).n := Meaning(value)])
  {
    es := Entry(key, value, rest);
  }

  /** A buffer is accepted as a map exactly when it is, in full, the encoding of a map. */
  lemma DecodeMapExact(buf: bytes, m: map<int, Value>)
    ensures DecodeMap(buf) == Some(m)
       <==> exists item: Item :: WellFormed(item) && Encode(item) == buf && Meaning(item) == Map(m)
  {
    if DecodeMap(buf) == Some(m) {
      var item := DecodeSound(buf, 0);
      assert buf[0..|buf|] == buf;
    }
    forall item: Item | WellFormed(item) && Encode(item) == buf && Meaning(item) == Map(m)
      ensures DecodeMap(buf) == Some(m)
    {
      assert Encode(item) + [] == buf;
      DecodeEncode(item, []);
    }
  }

  // ----- The decoder object -----

  /** `_CborDecoder`. The ghost counter counts calls of `DecodeItem`. */
  class CborDecoder {
    const buf: bytes
    var offset: nat
    ghost var calls: nat

    ghost predicate Valid()
      reads this
    {
      offset <= |buf|
    }

    constructor (buf: bytes)
      ensures Valid() && this.buf == buf && offset == 0 && calls == 0
    {
      this.buf := buf;
      offset := 0;
      calls := 0;
    }

    method Read(n: nat) returns (p: Option<bytes>)
      requires Valid()
      modifies this`offset
      ensures Valid()
      ensures match ReadBytes(buf, old(offset), n)
        case Parsed(b, next) => p == Some(b) && offset == next
        case Malformed => p == None && offset == old(offset)
    {
      if offset + n > |buf| {
        return None;
      }
      p := Some(buf[offset..offset + n]);
      offset := offset + n;
    }

    method ReadUintAt(info: nat) returns (p: Option<nat>)
      requires Valid()
      modifies this`offset
      ensures Valid()
      ensures match ReadUint(buf, old(offset), info)
        case Parsed(n, next) => p == Some(n) && offset == next
        case Malformed => p == None && offset == old(offset)
    {
      if info < 24 {
        return Some(info);
      }
      match ExtraBytes(info)
      case None => p := None;
      case Some(k) =>
        var b := Read(k);
        p := if b.None? then None else Some(FromBigEndian(b.value));
    }

    /** `decode_item`: the result and the new offset are those of `Decode`. The offset never
        passes the end, and the calls made are at most the bytes consumed, plus the one
        call that raises, so at most |buf| + 1 in a whole decoding. */
    method DecodeItem() returns (p: Option<Value>)
      requires Valid()
      modifies this
      ensures Valid() && offset >= old(offset) && calls > old(calls)
      ensures match Decode(buf, old(offset))
        case Parsed(v, next) => p == Some(v) && offset == next && calls - old(calls) <= offset - old(offset)
        case Malformed => p == None && calls - old(calls) <= offset - old(offset) + 1
      decreases |buf| - offset
    {
      ghost var start := offset;
      calls := calls + 1;
      var first := Read(1);
      if first.None? {
        return None;
      }
      assert first.value[0] == buf[start];
      var major, info := first.value[0] / 32, first.value[0] % 32;
      if major !in {0, 1, 2, 5} {
        return None;
      }
      var n := ReadUintAt(info);
      if n.None? {
        return None;
      }
      if major == 0 {
        return Some(Int(n.value));
      } else if major == 1 {
        var k: int := n.value;
        return Some(Int(-1 - k));
      } else if major == 2 {
        var data := Read(n.value);
        return if data.None? then None else Some(Bytes(data.value));
      }
      var out: map<int, Value> := map[];
      var i := 0;
      ghost var body := offset;
      while i < n.value
        invariant Valid() && i <= n.value && start < body <= offset
        invariant DecodeEntries(buf, body, n.value, map[]) == DecodeEntries(buf, offset, n.value - i, out)
        invariant old(calls) < calls <= old(calls) + offset - start
        decreases n.value - i
      {
        var key := DecodeItem();
        if key.None? {
          return None;
        }
        var value := DecodeItem();
        if value.None? {
          return None;
        }
        if !key.value.Int? {
          return None;
        }
        out := out[key.value.n := value.value];
        i := i + 1;
      }
      return Some(Map(out));
    }
  }

  /** `_decode_cbor_map` with the decoder object: the answer is `DecodeMap`, reached within
      |buf| + 1 calls of `DecodeItem` whatever lengths the buffer claims. */
  method DecodeCborMap(buf: bytes) returns (m: Option<map<int, Value>>, ghost calls: nat)
    ensures m == DecodeMap(buf)
    ensures calls <= |buf| + 1
  {
    var decoder := new CborDecoder(buf);
    var value := decoder.DecodeItem();
    calls := decoder.calls;
    if value.None? || decoder.offset != |buf| || !value.value.Map? {
      return None, calls;
    }
    return Some(value.value.fields), calls;
  }
}
