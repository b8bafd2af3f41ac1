/** The recursive protobuf packer (pb_pack.c). */
module PbPack {
  import opened Words
  import opened Digits

  /** What an item points to: nothing, bytes, or the items of an embedded message. */
  datatype Data = Null | Bytes(bytes: seq<byte>) | Items(items: seq<Item>)

  datatype Item = Item(wtype: byte, field: byte, data: Data, length: byte)

  const ERR_WTYPE: int := -1
  const ERR_FIELD: int := -2
  const ERR_ENCBUF: int := -4

  predicate IsEmbedded(it: Item)
  {
    it.wtype % 8 == 2 && it.wtype >= 0x80
  }

  /** Bytes of a varint item; a length of 0 stands for eight. */
  function Width(it: Item): (n: nat)
    ensures n <= 255
  {
    if it.length == 0 then 8 else it.length
  }

  /** Items the packer passes over without looking at their data. */
  predicate Skipped(it: Item)
  {
    it.wtype % 8 in {3, 4} || (it.data.Null? && it.wtype % 8 <= 5)
  }

  /** Items that leave nothing in the message: those passed over, and varints of value zero. */
  predicate Omitted(it: Item)
    requires Declared(it)
  {
    Skipped(it) || (it.wtype == 0 && Number(it) == 0)
  }

  /** The data are what type and length declare.  Nothing is asked of null data and of types that have none. */
  predicate Declared(it: Item)
    decreases it
  {
    var t := it.wtype % 8;
    if it.data.Null? || t in {3, 4, 6, 7} then true
    else if t == 2 && it.wtype >= 0x80 then
      && it.data.Items? && |it.data.items| == it.length
      && forall i :: 0 <= i < |it.data.items| ==> Declared(it.data.items[i])
    else
      && it.data.Bytes?
      && (t == 0 ==> it.length in {0, 1, 2, 4, 8} && |it.data.bytes| >= if it.length == 0 then 8 else it.length)
      && (t == 1 ==> |it.data.bytes| >= 8)
      && (t == 2 ==> |it.data.bytes| >= it.length)
      && (t == 5 ==> |it.data.bytes| >= 4)
  }

  predicate AllDeclared(items: seq<Item>)
  {
    forall i :: 0 <= i < |items| ==> Declared(items[i])
  }

  // ----- the encoding, with the length of a child computed before it is written

  function Varint(v: nat): (s: seq<byte>)
    ensures |s| >= 1
  {
    if v < 0x80 then [v] else [0x80 + v % 0x80] + Varint(v / 0x80)
  }

  function Header(t: nat, field: nat): seq<byte>
    requires t < 8
  {
    Varint(field * 8 + t)
  }

  datatype Outcome = Done(bytes: seq<byte>) | Failed(code: int)

  function PackItem(it: Item): Outcome
    requires Declared(it)
    decreases it
  {
    var t := it.wtype % 8;
    if t > 5 then Failed(ERR_WTYPE)
    else if Skipped(it) then Done([])
    else if IsEmbedded(it) then
      if it.field == 0 then Failed(ERR_ENCBUF)
      else match Framed(it.data.items)
        case Failed(c) => Failed(c)
        case Done(child) => Done(Header(t, it.field) + child)
    else if it.wtype == 0 && Number(it) == 0 then Done([])
    else if it.field == 0 then Failed(ERR_ENCBUF)
    else Done(Header(t, it.field) + Value(it))
  }

  /** An embedded message with its length in front. */
  function Framed(items: seq<Item>): Outcome
    requires AllDeclared(items)
    decreases items, 1
  {
    match PackAll(items)
    case Failed(c) => Failed(c)
    case Done(child) => Done(Varint(|child|) + child)
  }

  /** The little-endian number of a varint item. */
  function Number(it: Item): (v: dword)
    requires it.data.Bytes? && |it.data.bytes| >= Width(it) && Width(it) <= 8
  {
    SumBound(it.data.bytes, Width(it), 0x100);
    ByteWeights(Width(it));
    Sum(it.data.bytes, Width(it), 0x100)
  }

  lemma {:induction false} ByteWeights(n: nat)
    requires n <= 8
    ensures Weight(0x100, n) <= TWO64
  {
    assert Weight(0x100, 4) == 0x1_0000_0000;
    WeightAdd(0x100, 4, 4);
    WeightMono(0x100, n, 8);
  }

  function Value(it: Item): seq<byte>
    requires Declared(it) && !Skipped(it) && !IsEmbedded(it) && it.wtype % 8 <= 5
  {
    var b := it.data.bytes;
    match it.wtype % 8
    case 0 => if Number(it) == 0 then [] else Varint(Number(it))
    case 1 => b[..8]
    case 2 => Varint(it.length) + b[..it.length]
    case _ => b[..4]
  }

  function PackAll(items: seq<Item>): Outcome
    requires AllDeclared(items)
    decreases items, 0
  {
    if items == [] then Done([])
    else match PackItem(items[0])
      case Failed(c) => Failed(c)
      case Done(b) =>
        match PackAll(items[1..])
        case Failed(c) => Failed(c)
        case Done(r) => Done(b + r)
  }

  /** Bytes the packer touches; more than its result only in front of an error inside an embedded message. */
  function NeedItem(it: Item): nat
    requires Declared(it)
    decreases it, 0
  {
    match PackItem(it)
    case Done(b) => |b|
    case Failed(_) =>
      if IsEmbedded(it) && !Skipped(it) && it.field != 0
      then |Header(it.wtype % 8, it.field)| + NeedFramed(it.data.items)
      else 0
  }

  function NeedFramed(items: seq<Item>): nat
    requires AllDeclared(items)
    decreases items, 2
  {
    match Framed(items)
    case Done(b) => |b|
    case Failed(_) => 1 + NeedAll(items)
  }

  function NeedAll(items: seq<Item>): nat
    requires AllDeclared(items)
    decreases items, 1
  {
    if items == [] then 0
    else match PackItem(items[0])
      case Failed(_) => NeedItem(items[0])
      case Done(b) => |b| + NeedAll(items[1..])
  }

  // ----- varints

  lemma MoreByte(v: nat)
    ensures Or(0x80, And(v, 0x7F)) == 0x80 + v % 0x80
  {
    assert Pow2(7) == 0x80;
    AndMask(v, 7);
    hide And, Or, Pow2;
    DivMod(v, 0x80);
    OrDisjoint(v % 0x80, 0x80, 7);
  }

  /** The groups of seven bits while every byte still has the continuation bit. */
  ghost function Open(v: nat): seq<byte>
  {
    if v == 0 then [] else [0x80 + v % 0x80] + Open(v / 0x80)
  }

  /** The first n groups of seven bits, with the continuation bit on all but the last. */
  ghost function Cut(v: nat, n: nat): (s: seq<byte>)
    ensures |s| == n
  {
    if n == 0 then [] else if n == 1 then [v % 0x80] else [0x80 + v % 0x80] + Cut(v / 0x80, n - 1)
  }

  /** Taking the bit off the last byte of a run of open ones cuts the number off there. */
  lemma {:induction false} CutOpen(v: nat, n: nat)
    requires 0 < n <= |Open(v)|
    ensures Open(v)[n - 1] >= 0x80 && Cut(v, n) == Open(v)[..n - 1] + [Open(v)[n - 1] - 0x80]
  {
    if n > 1 {
      CutOpen(v / 0x80, n - 1);
    }
  }

  /** A number that is not cut off is the varint. */
  lemma {:induction false} CutWhole(v: nat)
    ensures Cut(v, |Varint(v)|) == Varint(v) && (v > 0 ==> |Open(v)| == |Varint(v)|)
  {
    if v >= 0x80 {
      CutWhole(v / 0x80);
    } else {
      DivModUnique(v, 0x80, 0, v);
    }
  }

  lemma ClearedByte(x: byte)
    ensures And(x, 0x7F) == if x >= 0x80 then x - 0x80 else x
  {
    assert Pow2(7) == 0x80;
    AndMask(x, 7);
    hide And, Pow2;
    if x >= 0x80 {
      DivModUnique(x, 0x80, 1, x - 0x80);
    } else {
      DivModUnique(x, 0x80, 0, x);
    }
  }

  /** The loop of pb_pack_varint: groups of seven bits, low ones first. */
  method PutOpen(v: dword, buffer: array<byte>, at: nat, size: nat) returns (r: nat)
    requires at + size <= buffer.Length
    modifies buffer
    ensures r == if size < |Open(v)| then size else |Open(v)|
    ensures buffer[at..at + r] == Open(v)[..r]
    ensures forall k :: 0 <= k < buffer.Length && !(at <= k < at + r) ==> buffer[k] == old(buffer[k])
  {
    hide And, Or;
    var varint: nat := v;
    ghost var w: seq<byte> := [];
    r := 0;
    while r < size && varint > 0
      invariant 0 <= r <= size && |w| == r && Open(v) == w + Open(varint)
      invariant forall k :: 0 <= k < r ==> buffer[at + k] == w[k]
      invariant forall k :: 0 <= k < buffer.Length && !(at <= k < at + r) ==> buffer[k] == old(buffer[k])
      decreases varint
    {
      MoreByte(varint);
      Grow(w, 0x80 + varint % 0x80, Open(varint / 0x80));
      buffer[at + r] := Or(0x80, And(varint, 0x7F));
      w := w + [0x80 + varint % 0x80];
      varint := varint / 0x80;
      r := r + 1;
    }
  }

  lemma Grow(w: seq<byte>, b: byte, rest: seq<byte>)
    ensures w + ([b] + rest) == (w + [b]) + rest
  {
  }

  /** pb_pack_varint: the continuation bit is taken off the last byte at the end.  Nothing is written for zero, and a
      short buffer cuts the number off. */
  method PutVarint(v: dword, buffer: array<byte>, at: nat, size: nat) returns (r: nat)
    requires at + size <= buffer.Length
    modifies buffer
    ensures r == (if v == 0 then 0 else if size < |Varint(v)| then size else |Varint(v)|)
    ensures buffer[at..at + r] == Cut(v, r)
    ensures v > 0 && size >= |Varint(v)| ==> buffer[at..at + r] == Varint(v)
    ensures forall k :: 0 <= k < buffer.Length && !(at <= k < at + r) ==> buffer[k] == old(buffer[k])
  {
    CutWhole(v);
    assert v == 0 ==> |Open(v)| == 0;
    hide And, Or, Varint;
    r := PutOpen(v, buffer, at, size);
    if r == 0 {
      return;
    }
    CutOpen(v, r);
    hide Open, Cut;
    ghost var b := buffer[at..at + r];
    assert b[..r - 1] == Open(v)[..r - 1] && b[r - 1] == Open(v)[r - 1];
    ClearedByte(buffer[at + r - 1]);
    buffer[at + r - 1] := And(buffer[at + r - 1], 0x7F);
    assert buffer[at..at + r] == b[..r - 1] + [buffer[at + r - 1]];
  }

  /** pb_encode_varint: one byte is written without a look at the size. */
  method EncodeVarint(v: dword, buffer: array<byte>, at: nat, size: nat) returns (r: nat)
    requires at + size <= buffer.Length && (v <= 0x7F ==> at < buffer.Length)
    modifies buffer
    ensures r == if v <= 0x7F then 1 else if size < |Varint(v)| then size else |Varint(v)|
    ensures buffer[at..at + r] == Cut(v, r)
    ensures |Varint(v)| <= size ==> r == |Varint(v)| && buffer[at..at + r] == Varint(v)
    ensures forall k :: 0 <= k < buffer.Length && !(at <= k < at + r) ==> buffer[k] == old(buffer[k])
  {
    if v <= 0x7F {
      buffer[at] := v;
      DivModUnique(v, 0x80, 0, v);
      return 1;
    }
    hide Cut, Varint;
    r := PutVarint(v, buffer, at, size);
  }

  /** Field numbers of the protobuf format that are not reserved. */
  predicate FieldNumber(field: nat)
  {
    0 < field <= 0x1FFF_FFFF && !(19000 <= field <= 19999)
  }

  /** pb_encode_header */
  method EncodeHeader(buffer: array<byte>, at: nat, size: nat, wtype: nat, field: word) returns (r: int)
    requires wtype < 8 && at + size <= buffer.Length
    requires FieldNumber(field) && field as int * 8 + wtype < 0x7F ==> at < buffer.Length
    modifies buffer
    ensures if !FieldNumber(field) then r == ERR_FIELD
            else var h := |Header(wtype, field)|;
              && r == (if field as int * 8 + wtype < 0x7F then 1 else if size < h then size else h)
              && buffer[at..at + r] == Cut(field as int * 8 + wtype, r)
    ensures FieldNumber(field) && |Header(wtype, field)| <= size ==>
      r == |Header(wtype, field)| && buffer[at..at + r] == Header(wtype, field)
    ensures forall k :: 0 <= k < buffer.Length && !(at <= k < at + r) ==> buffer[k] == old(buffer[k])
  {
    if field == 0 || field > 0x1FFF_FFFF || (field >= 19000 && field <= 19999) {
      return ERR_FIELD;
    }
    var number: dword := field as int * 8 + wtype;
    if number < 0x7F {
      buffer[at] := number;
      DivModUnique(number, 0x80, 0, number);
      return 1;
    }
    hide Cut, Varint;
    r := PutVarint(number, buffer, at, size);
  }

  // ----- the encoders of single items

  /** pb_varint_is_zero */
  method VarintIsZero(it: Item) returns (r: bool)
    requires it.data.Bytes? && |it.data.bytes| >= Width(it) && Width(it) <= 8
    ensures r <==> it.wtype == 0 && Number(it) == 0
  {
    if it.wtype != 0 {
      return false;
    }
    var len := Width(it);
    SumZero(it.data.bytes, len, 0x100);
    var i := 0;
    while i < len
      invariant 0 <= i <= len && forall k :: 0 <= k < i ==> it.data.bytes[k] == 0
    {
      if it.data.bytes[i] != 0 {
        return false;
      }
      i := i + 1;
    }
    return true;
  }

  method Omits(it: Item) returns (r: bool)
    requires Declared(it) && it.wtype % 8 <= 5
    ensures r <==> Omitted(it)
  {
    if Skipped(it) {
      return true;
    }
    r := false;
    if it.wtype % 8 == 0 {
      r := VarintIsZero(it);
    }
  }

  /** memcpy */
  method Copy(b: seq<byte>, n: nat, buffer: array<byte>, at: nat)
    requires n <= |b| && at + n <= buffer.Length
    modifies buffer
    ensures buffer[at..at + n] == b[..n]
    ensures forall k :: 0 <= k < buffer.Length && !(at <= k < at + n) ==> buffer[k] == old(buffer[k])
  {
    var i := 0;
    while i < n
      invariant 0 <= i <= n && forall k :: 0 <= k < i ==> buffer[at + k] == b[k]
      invariant forall k :: 0 <= k < buffer.Length && !(at <= k < at + i) ==> buffer[k] == old(buffer[k])
    {
      buffer[at + i] := b[i];
      i := i + 1;
    }
  }

  lemma Joined(buffer: array<byte>, p: nat, q: nat, r: nat, a: seq<byte>, b: seq<byte>)
    requires p <= q <= r <= buffer.Length && buffer[p..q] == a && buffer[q..r] == b
    ensures buffer[p..r] == a + b
  {
  }

  /** pb_pack_ld */
  method PutDelimited(d: seq<byte>, length: byte, buffer: array<byte>, at: nat, size: nat) returns (r: nat)
    requires length <= |d| && |Varint(length)| + length <= size && at + size <= buffer.Length
    modifies buffer
    ensures r == |Varint(length)| + length && buffer[at..at + r] == Varint(length) + d[..length]
    ensures forall k :: 0 <= k < buffer.Length && !(at <= k < at + r) ==> buffer[k] == old(buffer[k])
  {
    hide Varint, Cut;
    var n := EncodeVarint(length, buffer, at, size);
    Copy(d, length, buffer, at + n);
    assert buffer[at..at + n] == Varint(length);
    r := n + length;
    Joined(buffer, at, at + n, at + r, Varint(length), d[..length]);
  }

  /** The value of an item that is not an embedded message. */
  method PutValue(it: Item, buffer: array<byte>, at: nat, size: nat) returns (r: nat)
    requires Declared(it) && !Skipped(it) && !IsEmbedded(it) && it.wtype % 8 <= 5
    requires |Value(it)| <= size && at + size <= buffer.Length
    modifies buffer
    ensures r == |Value(it)| && buffer[at..at + r] == Value(it)
    ensures forall k :: 0 <= k < buffer.Length && !(at <= k < at + r) ==> buffer[k] == old(buffer[k])
  {
    hide Varint, Number, Cut;
    var t := it.wtype % 8;
    if t == 0 {
      r := PutVarint(Number(it), buffer, at, size);
    } else if t == 1 {
      Copy(it.data.bytes, 8, buffer, at);
      r := 8;
    } else if t == 2 {
      r := PutDelimited(it.data.bytes, it.length, buffer, at, size);
    } else {
      Copy(it.data.bytes, 4, buffer, at);
      r := 4;
    }
  }

  /** memmove towards higher addresses: the regions may overlap. */
  method MoveUp(buffer: array<byte>, from: nat, to: nat, n: nat)
    requires from <= to && to + n <= buffer.Length
    modifies buffer
    ensures buffer[to..to + n] == old(buffer[from..from + n])
    ensures forall k :: 0 <= k < buffer.Length && !(to <= k < to + n) ==> buffer[k] == old(buffer[k])
  {
    ghost var b := buffer[..];
    var i := n;
    while i > 0
      invariant 0 <= i <= n
      invariant forall k :: to + i <= k < to + n ==> buffer[k] == b[k - to + from]
      invariant forall k :: 0 <= k < buffer.Length && !(to + i <= k < to + n) ==> buffer[k] == b[k]
    {
      i := i - 1;
      buffer[to + i] := buffer[from + i];
    }
  }

  lemma {:induction false} VarintLength(v: nat, n: nat)
    requires v < Weight(0x80, n) && n > 0
    ensures |Varint(v)| <= n
  {
    if v >= 0x80 {
      assert n > 1;
      DivMod(v, 0x80);
      VarintLength(v / 0x80, n - 1);
    }
  }

  /** A length of more than one byte moves the child up. */
  method MakeRoom(buffer: array<byte>, p: nat, e: dword) returns (n: nat)
    requires |Varint(e)| <= 8 && p + |Varint(e)| + e <= buffer.Length
    modifies buffer
    ensures n == |Varint(e)| && buffer[p..p + n] == Varint(e)
    ensures buffer[p + n..p + n + e] == old(buffer[p + 1..p + 1 + e])
    ensures forall k :: 0 <= k < buffer.Length && !(p <= k < p + n + e) ==> buffer[k] == old(buffer[k])
  {
    hide Varint;
    var length := new byte[8];
    n := EncodeVarint(e, length, 0, 8);
    var b := length[..];
    assert b[..n] == length[0..0 + n];
    MoveUp(buffer, p + 1, p + n, e);
    ghost var moved := buffer[p + n..p + n + e];
    Copy(b, n, buffer, p);
    assert buffer[p + n..p + n + e] == moved;
  }

  /** The length goes in front of a child already packed one byte further on. */
  method PlaceLength(buffer: array<byte>, p: nat, e: nat, ghost child: seq<byte>) returns (r: nat)
    requires e == |child| < 0x8000_0000 && p + |Varint(e)| + e <= buffer.Length
    requires buffer[p + 1..p + 1 + e] == child
    modifies buffer
    ensures r == |Varint(e)| + e && buffer[p..p + r] == Varint(e) + child
    ensures forall k :: 0 <= k < buffer.Length && !(p <= k < p + r) ==> buffer[k] == old(buffer[k])
  {
    var n := 1;
    if e > 0x7F {
      assert Weight(0x80, 8) == 0x100_0000_0000_0000;
      VarintLength(e, 8);
      hide Varint, Weight;
      n := MakeRoom(buffer, p, e);
    } else {
      buffer[p] := e;
      assert buffer[p + 1..p + 1 + e] == child;
      assert buffer[p..p + 1] == [buffer[p]] == Varint(e);
    }
    hide Varint;
    r := n + e;
    Joined(buffer, p, p + n, p + r, Varint(e), child);
  }

  // ----- the recursive packer

  /** Without an error the packer touches exactly its result; an error code is negative. */
  lemma {:induction false} NeedDone(items: seq<Item>)
    requires AllDeclared(items)
    ensures match PackAll(items) case Done(b) => NeedAll(items) == |b| case Failed(c) => c < 0
    decreases items
  {
    if items != [] {
      ItemFailed(items[0]);
      NeedDone(items[1..]);
    }
  }

  lemma {:induction false} ItemFailed(it: Item)
    requires Declared(it)
    ensures PackItem(it).Failed? ==> PackItem(it).code < 0
    decreases it
  {
    if IsEmbedded(it) && !Skipped(it) {
      NeedDone(it.data.items);
    }
  }

  /** What is left after the first i items. */
  ghost predicate Reached(items: seq<Item>, i: nat, done: seq<byte>)
    requires AllDeclared(items) && i <= |items|
  {
    && NeedAll(items) == |done| + NeedAll(items[i..])
    && match PackAll(items[i..])
       case Failed(c) => PackAll(items) == Failed(c)
       case Done(rest) => PackAll(items) == Done(done + rest)
  }

  lemma Associate(a: seq<byte>, b: seq<byte>, c: seq<byte>)
    ensures a + (b + c) == (a + b) + c
  {
  }

  lemma Next(items: seq<Item>, i: nat, done: seq<byte>)
    requires AllDeclared(items) && i < |items| && Reached(items, i, done)
    ensures NeedAll(items) >= |done| + NeedItem(items[i])
    ensures match PackItem(items[i])
            case Failed(c) => PackAll(items) == Failed(c)
            case Done(b) => Reached(items, i + 1, done + b)
  {
    assert PackItem(items[i]).Done? ==> NeedItem(items[i]) == |PackItem(items[i]).bytes|;
    hide PackItem, NeedItem, Declared;
    var rest := items[i..];
    assert rest[0] == items[i];
    assert rest[1..] == items[i + 1..];
    match PackItem(items[i])
    case Failed(_) =>
    case Done(b) =>
      assert NeedAll(rest) == |b| + NeedAll(rest[1..]);
      match PackAll(rest[1..])
      case Failed(c) => assert PackAll(rest) == Failed(c);
      case Done(more) =>
        assert PackAll(rest) == Done(b + more);
        Associate(done, b, more);
  }

  /** How the result of a call stands to the encoding: a buffer filled to its last byte is refused. */
  ghost predicate Answers(o: Outcome, need: nat, size: nat, r: int)
  {
    match o
    case Done(b) => |b| == need && r == if 0 < |b| == size then ERR_ENCBUF else |b|
    case Failed(c) => r < 0 && (r == c || (need == size && r == ERR_ENCBUF))
  }

  /** The same for one item, where the call around it does the refusing. */
  ghost predicate Accepts(o: Outcome, need: nat, size: nat, r: int)
  {
    match o
    case Done(b) => |b| == need > 0 && (r == |b| || (|b| == size && r == ERR_ENCBUF))
    case Failed(c) => r < 0 && (r == c || (need == size && r == ERR_ENCBUF))
  }

  method PackPlain(it: Item, buffer: array<byte>, at: nat, size: nat) returns (r: int)
    requires Declared(it) && it.wtype % 8 <= 5 && !Omitted(it) && !IsEmbedded(it)
    requires NeedItem(it) <= size < 0x8000_0000 && at + size <= buffer.Length
    modifies buffer
    ensures Accepts(PackItem(it), NeedItem(it), size, r)
    ensures r >= 0 ==> buffer[at..at + r] == PackItem(it).bytes
    ensures forall k :: 0 <= k < buffer.Length && !(at <= k < at + NeedItem(it)) ==> buffer[k] == old(buffer[k])
  {
    var t := it.wtype % 8;
    PlainParts(it);
    hide PackItem, NeedItem, Declared, Varint;
    var h := EncodeHeader(buffer, at, size, t, it.field);
    if h < 0 {
      return ERR_ENCBUF;
    }
    ghost var head := buffer[at..at + h];
    var n := PutValue(it, buffer, at + h, size - h);
    assert buffer[at..at + h] == head;
    r := h + n;
    Joined(buffer, at, at + h, at + r, head, Value(it));
  }

  lemma PlainParts(it: Item)
    requires Declared(it) && it.wtype % 8 <= 5 && !Omitted(it) && !IsEmbedded(it)
    ensures if it.field == 0 then PackItem(it) == Failed(ERR_ENCBUF) && NeedItem(it) == 0
            else PackItem(it) == Done(Header(it.wtype % 8, it.field) + Value(it))
                 && NeedItem(it) == |Header(it.wtype % 8, it.field)| + |Value(it)|
  {
    hide Number, Varint;
  }

  lemma EmbeddedParts(it: Item)
    requires Declared(it) && IsEmbedded(it) && !Skipped(it)
    ensures var head, child := Header(2, it.field), Framed(it.data.items);
      if it.field == 0 then PackItem(it) == Failed(ERR_ENCBUF) && NeedItem(it) == 0
      else
        && NeedItem(it) == |head| + NeedFramed(it.data.items)
        && PackItem(it) == match child case Failed(c) => child case Done(b) => Done(head + b)
  {
    hide Number, Varint;
  }

  /** The child goes one byte further on, then its length in front of it. */
  method PackChild(items: seq<Item>, buffer: array<byte>, at: nat, size: nat) returns (r: int)
    requires AllDeclared(items) && NeedFramed(items) <= size < 0x8000_0000 && at + size <= buffer.Length
    modifies buffer
    ensures Accepts(Framed(items), NeedFramed(items), size, r)
    ensures r >= 0 ==> buffer[at..at + r] == Framed(items).bytes
    ensures forall k :: 0 <= k < buffer.Length && !(at <= k < at + NeedFramed(items)) ==> buffer[k] == old(buffer[k])
    decreases items, 3
  {
    NeedDone(items);
    hide Varint, PackAll, NeedAll, AllDeclared;
    var e := Pack(items, buffer, at + 1, size - 1);
    if e < 0 {
      return e;
    }
    r := PlaceLength(buffer, at, e, PackAll(items).bytes);
  }

  method PackEmbedded(it: Item, buffer: array<byte>, at: nat, size: nat) returns (r: int)
    requires Declared(it) && IsEmbedded(it) && !Skipped(it)
    requires NeedItem(it) <= size < 0x8000_0000 && at + size <= buffer.Length
    modifies buffer
    ensures Accepts(PackItem(it), NeedItem(it), size, r)
    ensures r >= 0 ==> buffer[at..at + r] == PackItem(it).bytes
    ensures forall k :: 0 <= k < buffer.Length && !(at <= k < at + NeedItem(it)) ==> buffer[k] == old(buffer[k])
    decreases it, 0
  {
    EmbeddedParts(it);
    assert AllDeclared(it.data.items);
    hide PackItem, NeedItem, Declared, Varint, Header, Framed, NeedFramed, AllDeclared;
    var h := EncodeHeader(buffer, at, size, 2, it.field);
    if h <= 0 {
      return ERR_ENCBUF;
    }
    ghost var head := Header(2, it.field);
    assert buffer[at..at + h] == head;
    var n := PackChild(it.data.items, buffer, at + h, size - h);
    if n < 0 {
      return n;
    }
    assert buffer[at..at + h] == head;
    r := h + n;
    Joined(buffer, at, at + h, at + r, head, Framed(it.data.items).bytes);
    assert PackItem(it).bytes == head + Framed(it.data.items).bytes;
  }

  /** The body of the loop of pb_pack for an item that is written behind what is already there. */
  method PackOne(it: Item, buffer: array<byte>, off: nat, packed: nat, size: nat) returns (r: int)
    requires Declared(it) && it.wtype % 8 <= 5 && !Omitted(it)
    requires packed + NeedItem(it) <= size < 0x8000_0000 && off + size <= buffer.Length
    modifies buffer
    ensures Accepts(PackItem(it), NeedItem(it), size - packed, r)
    ensures r >= 0 ==> PackItem(it).Done? && r == |PackItem(it).bytes|
    ensures r >= 0 ==> buffer[off..off + packed + r] == old(buffer[off..off + packed]) + PackItem(it).bytes
    ensures forall k :: 0 <= k < buffer.Length && !(off + packed <= k < off + packed + NeedItem(it)) ==>
                          buffer[k] == old(buffer[k])
    decreases it, 1
  {
    hide NeedItem, PackItem, Declared;
    ghost var done := buffer[off..off + packed];
    if IsEmbedded(it) {
      r := PackEmbedded(it, buffer, off + packed, size - packed);
    } else {
      r := PackPlain(it, buffer, off + packed, size - packed);
    }
    if r >= 0 {
      assert buffer[off..off + packed] == done;
      Joined(buffer, off, off + packed, off + packed + r, done, PackItem(it).bytes);
    }
  }

  lemma ReachedStart(items: seq<Item>)
    requires AllDeclared(items)
    ensures Reached(items, 0, [])
  {
    assert items[0..] == items;
    match PackAll(items)
    case Failed(_) =>
    case Done(b) => assert [] + b == b;
  }

  lemma ReachedEnd(items: seq<Item>, done: seq<byte>)
    requires AllDeclared(items) && Reached(items, |items|, done)
    ensures PackAll(items) == Done(done) && NeedAll(items) == |done|
  {
    assert items[|items|..] == [];
    assert done + [] == done;
  }

  lemma ReachedFull(items: seq<Item>, i: nat, done: seq<byte>, size: nat)
    requires AllDeclared(items) && i <= |items| && Reached(items, i, done)
    requires NeedAll(items) <= size == |done| && size > 0
    ensures Answers(PackAll(items), NeedAll(items), size, ERR_ENCBUF)
  {
    NeedDone(items[i..]);
    NeedDone(items);
  }

  lemma Refused(items: seq<Item>, i: nat, done: seq<byte>, size: nat, r: int)
    requires AllDeclared(items) && i < |items| && Reached(items, i, done) && |done| <= size && NeedAll(items) <= size
    requires r < 0 && Accepts(PackItem(items[i]), NeedItem(items[i]), size - |done|, r)
    ensures Answers(PackAll(items), NeedAll(items), size, r)
  {
    hide PackItem, NeedItem, Declared;
    Next(items, i, done);
    if PackItem(items[i]).Done? {
      ReachedFull(items, i + 1, done + PackItem(items[i]).bytes, size);
    }
  }

  lemma WrongType(it: Item)
    requires Declared(it) && it.wtype % 8 > 5
    ensures PackItem(it) == Failed(ERR_WTYPE)
  {
  }

  lemma Passed(it: Item)
    requires Declared(it) && it.wtype % 8 <= 5 && Omitted(it)
    ensures PackItem(it) == Done([])
  {
    hide Number;
  }

  /** pb_pack: one pass, in place, equal to the encoding that knows every length beforehand. */
  method Pack(items: seq<Item>, buffer: array<byte>, off: nat, size: nat) returns (r: int)
    requires AllDeclared(items) && NeedAll(items) <= size < 0x8000_0000 && off + size <= buffer.Length
    modifies buffer
    ensures Answers(PackAll(items), NeedAll(items), size, r)
    ensures r >= 0 ==> buffer[off..off + r] == PackAll(items).bytes
    ensures forall k :: 0 <= k < buffer.Length && !(off <= k < off + NeedAll(items)) ==> buffer[k] == old(buffer[k])
    decreases items, 2
  {
    var i, packed := 0, 0;
    ghost var done: seq<byte> := [];
    ghost var end := off + NeedAll(items);
    ReachedStart(items);
    assert AllDeclared(items);
    hide Reached, PackAll, NeedAll, PackItem, NeedItem, Declared, Omitted, Varint;
    while i < |items|
      invariant 0 <= i <= |items| && packed == |done| <= size && (packed == size ==> packed == 0)
      invariant Reached(items, i, done) && buffer[off..off + packed] == done
      invariant forall k :: 0 <= k < buffer.Length && !(off <= k < end) ==> buffer[k] == old(buffer[k])
    {
      Next(items, i, done);
      var it := items[i];
      i := i + 1;
      if it.wtype % 8 > 5 {
        WrongType(it);
        return ERR_WTYPE;
      }
      var omitted := Omits(it);
      if omitted {
        Passed(it);
        assert done + [] == done;
        continue;
      }
      var n := PackOne(it, buffer, off, packed, size);
      if n < 0 {
        Refused(items, i - 1, done, size, n);
        return n;
      }
      done := done + PackItem(it).bytes;
      packed := packed + n;
      if packed >= size {
        ReachedFull(items, i, done, size);
        return ERR_ENCBUF;
      }
    }
    ReachedEnd(items, done);
    r := packed;
  }
}
