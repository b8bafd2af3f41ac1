/** A reader of the protobuf wire format, which undoes the packer. */
module PbDecode {
  import opened Words
  import opened Digits
  import opened PbPack

  datatype Option<T> = None | Some(value: T)

  /** One field of a message as it stands on the wire, where an embedded message is bytes like any others. */
  datatype Field =
    | VarintField(number: nat, v: nat)
    | FixedField(number: nat, payload: seq<byte>)
    | DelimitedField(number: nat, payload: seq<byte>)

  function ReadVarint(s: seq<byte>): (r: Option<(nat, seq<byte>)>)
    ensures r.Some? ==> |r.value.1| < |s|
  {
    if s == [] then None
    else if s[0] < 0x80 then Some((s[0] as nat, s[1..]))
    else match ReadVarint(s[1..])
      case None => None
      case Some((v, rest)) => Some((s[0] - 0x80 + 0x80 * v, rest))
  }

  function ReadFixed(number: nat, n: nat, s: seq<byte>): (r: Option<(Field, seq<byte>)>)
    ensures r.Some? ==> |r.value.1| <= |s|
  {
    if |s| < n then None else Some((FixedField(number, s[..n]), s[n..]))
  }

  function ReadDelimited(number: nat, s: seq<byte>): (r: Option<(Field, seq<byte>)>)
    ensures r.Some? ==> |r.value.1| <= |s|
  {
    match ReadVarint(s)
    case None => None
    case Some((n, rest)) => if |rest| < n then None else Some((DelimitedField(number, rest[..n]), rest[n..]))
  }

  function ReadNumber(number: nat, s: seq<byte>): (r: Option<(Field, seq<byte>)>)
    ensures r.Some? ==> |r.value.1| <= |s|
  {
    match ReadVarint(s)
    case None => None
    case Some((v, rest)) => Some((VarintField(number, v), rest))
  }

  function ReadField(s: seq<byte>): (r: Option<(Field, seq<byte>)>)
    ensures r.Some? ==> |r.value.1| < |s|
  {
    match ReadVarint(s)
    case None => None
    case Some((key, rest)) => ReadPayload(key % 8, key / 8, rest)
  }

  function ReadPayload(t: nat, number: nat, s: seq<byte>): (r: Option<(Field, seq<byte>)>)
    ensures r.Some? ==> |r.value.1| <= |s|
  {
    if t == 0 then ReadNumber(number, s)
    else if t == 1 then ReadFixed(number, 8, s)
    else if t == 2 then ReadDelimited(number, s)
    else if t == 5 then ReadFixed(number, 4, s)
    else None
  }

  function Decode(s: seq<byte>): Option<seq<Field>>
    decreases |s|
  {
    if s == [] then Some([])
    else match ReadField(s)
      case None => None
      case Some((f, rest)) =>
        match Decode(rest)
        case None => None
        case Some(more) => Some([f] + more)
  }

  // ----- what the reader gets back

  /** The bytes of a varint item. */
  function VarintBytes(it: Item): (b: seq<byte>)
    requires Declared(it) && it.wtype % 8 == 0 && !it.data.Null?
  {
    it.data.bytes[..if it.length == 0 then 8 else it.length]
  }

  predicate AllZero(b: seq<byte>)
  {
    forall i :: 0 <= i < |b| ==> b[i] == 0
  }

  /** Items that have no place in a message: null data, the types of groups, and varints of which every byte is zero. */
  predicate Absent(it: Item)
    requires Declared(it)
  {
    var t := it.wtype % 8;
    t in {3, 4} || (it.data.Null? && t <= 5) || (it.wtype == 0 && AllZero(VarintBytes(it)))
  }

  /** The bytes b are the number v, least significant byte first. */
  predicate WrittenAs(v: nat, b: seq<byte>)
  {
    v < Weight(0x100, |b|) && forall i :: 0 <= i < |b| ==> b[i] == v / Weight(0x100, i) % 0x100
  }

  /** The field is the item: its number, and its value or the tree below it. */
  predicate Same(f: Field, it: Item)
    requires Declared(it) && !Absent(it)
    decreases it, 0
  {
    && f.number == it.field
    && match it.wtype % 8
       case 0 => f.VarintField? && !it.data.Null? && WrittenAs(f.v, VarintBytes(it))
       case 1 => f.FixedField? && f.payload == it.data.bytes[..8]
       case 2 =>
         && f.DelimitedField?
         && if it.wtype >= 0x80
            then Decode(f.payload).Some? && Recovers(Decode(f.payload).value, it.data.items)
            else f.payload == it.data.bytes[..it.length]
       case 5 => f.FixedField? && f.payload == it.data.bytes[..4]
       case _ => false
  }

  /** The fields are the items in order, without those that are absent. */
  predicate Recovers(fs: seq<Field>, items: seq<Item>)
    requires AllDeclared(items)
    decreases items, 1
  {
    if items == [] then fs == []
    else if Absent(items[0]) then Recovers(fs, items[1..])
    else fs != [] && Same(fs[0], items[0]) && Recovers(fs[1..], items[1..])
  }

  /** A varint of value zero whose type byte is not zero is written all the same: as a key without a value. */
  predicate Stray(it: Item)
    requires Declared(it)
  {
    it.wtype % 8 == 0 && it.wtype != 0 && !it.data.Null? && AllZero(VarintBytes(it))
  }

  /** No stray zero in the item or in the tree below it. */
  predicate CleanItem(it: Item)
    requires Declared(it)
    decreases it, 0
  {
    !Stray(it) && (it.wtype % 8 == 2 && it.wtype >= 0x80 && !it.data.Null? ==> Clean(it.data.items))
  }

  predicate Clean(items: seq<Item>)
    requires AllDeclared(items)
    decreases items, 1
  {
    items == [] || (CleanItem(items[0]) && Clean(items[1..]))
  }

  // ----- the packer's view of an item and the reader's

  /** The number the packer writes is the number in the bytes, eight of them if no length is declared. */
  lemma NumberBytes(it: Item)
    requires Declared(it) && it.wtype % 8 == 0 && !it.data.Null?
    ensures WrittenAs(Number(it), VarintBytes(it)) && (Number(it) == 0 <==> AllZero(VarintBytes(it)))
  {
    var b: seq<int> := VarintBytes(it);
    var n := |b|;
    SumSame(it.data.bytes, b, n, 0x100);
    SumBound(b, n, 0x100);
    SumZero(b, n, 0x100);
    hide Sum, Weight;
    forall i | 0 <= i < n
      ensures b[i] == Number(it) / Weight(0x100, i) % 0x100
    {
      DigitAt(b, i, n, 0x100);
    }
  }

  /** And no other number is. */
  lemma WrittenOnce(v: nat, w: nat, b: seq<byte>)
    requires WrittenAs(v, b) && WrittenAs(w, b)
    ensures v == w
  {
    SumOfDigits(b, v, |b|, 0x100);
    SumOfDigits(b, w, |b|, 0x100);
    SmallMod(v, Weight(0x100, |b|));
    SmallMod(w, Weight(0x100, |b|));
  }

  lemma SmallMod(v: nat, w: nat)
    requires v < w
    ensures v % w == v
  {
    DivModUnique(v, w, 0, v);
  }

  /** The packer leaves out the absent items and no others. */
  lemma OmittedAbsent(it: Item)
    requires Declared(it)
    ensures Omitted(it) <==> Absent(it)
  {
    if it.wtype == 0 && !it.data.Null? {
      NumberBytes(it);
    }
    hide Number;
  }

  lemma StrayNumber(it: Item)
    requires Declared(it)
    ensures Stray(it) <==> it.wtype % 8 == 0 && it.wtype != 0 && !it.data.Null? && Number(it) == 0
  {
    if it.wtype % 8 == 0 && !it.data.Null? {
      NumberBytes(it);
    }
  }

  // ----- reading back what was written

  lemma {:induction false} VarintReadBack(v: nat, rest: seq<byte>)
    ensures ReadVarint(Varint(v) + rest) == Some((v, rest))
  {
    var s := Varint(v) + rest;
    if v < 0x80 {
      assert s[1..] == rest;
    } else {
      DivMod(v, 0x80);
      VarintReadBack(v / 0x80, rest);
      assert s[1..] == Varint(v / 0x80) + rest;
    }
  }

  /** A varint cut off after n groups is the number modulo 128^n. */
  lemma {:induction false} CutReadBack(v: nat, n: nat, rest: seq<byte>)
    requires n > 0
    ensures ReadVarint(Cut(v, n) + rest) == Some((v % Weight(0x80, n) as nat, rest))
  {
    var s := Cut(v, n) + rest;
    if n == 1 {
      assert Weight(0x80, 1) == 0x80 * Weight(0x80, 0) == 0x80;
      assert s[1..] == rest;
    } else {
      CutReadBack(v / 0x80, n - 1, rest);
      assert s[1..] == Cut(v / 0x80, n - 1) + rest;
      LowGroup(v, Weight(0x80, n - 1));
    }
  }

  lemma LowGroup(v: nat, w: nat)
    requires w > 0
    ensures v % (0x80 * w) == v % 0x80 + 0x80 * (v / 0x80 % w)
  {
    DivMod(v / 0x80, w);
    var q, r := v / 0x80 / w, v / 0x80 % w;
    assert q * (0x80 * w) == 0x80 * (q * w);
    DivModUnique(v, 0x80 * w, q, v % 0x80 + 0x80 * r);
  }

  lemma Keys(t: nat, number: nat)
    requires t < 8
    ensures (number * 8 + t) % 8 == t && (number * 8 + t) / 8 == number
  {
  }

  lemma HeaderReadBack(t: nat, field: byte, body: seq<byte>)
    requires t < 8
    ensures ReadField(Header(t, field) + body) == ReadPayload(t, field as nat, body)
  {
    Keys(t, field);
    VarintReadBack(field * 8 + t, body);
    hide ReadVarint, Varint, ReadPayload;
  }

  lemma Split(a: seq<byte>, b: seq<byte>)
    ensures (a + b)[..|a|] == a && (a + b)[|a|..] == b
  {
  }

  lemma DelimitedReadBack(number: nat, b: seq<byte>, rest: seq<byte>)
    ensures ReadDelimited(number, Varint(|b|) + b + rest) == Some((DelimitedField(number, b), rest))
  {
    VarintReadBack(|b|, b + rest);
    Split(b, rest);
    hide ReadVarint, Varint;
    Associate(Varint(|b|), b, rest);
  }

  lemma FixedReadBack(number: nat, b: seq<byte>, rest: seq<byte>)
    ensures ReadFixed(number, |b|, b + rest) == Some((FixedField(number, b), rest))
  {
    Split(b, rest);
  }

  lemma NumberReadBack(it: Item, rest: seq<byte>)
    requires Declared(it) && it.wtype % 8 == 0 && !it.data.Null? && !Stray(it) && !Absent(it)
    ensures var r := ReadNumber(it.field, Value(it) + rest);
      r.Some? && r.value.1 == rest && Same(r.value.0, it)
  {
    hide Number, Varint, ReadVarint, WrittenAs;
    NumberBytes(it);
    VarintReadBack(Number(it), rest);
  }

  lemma PlainReadBack(it: Item, rest: seq<byte>)
    requires Declared(it) && it.wtype % 8 <= 5 && !Absent(it) && !IsEmbedded(it) && it.field != 0 && !Stray(it)
    ensures var r := ReadField(PackItem(it).bytes + rest); r.Some? && r.value.1 == rest && Same(r.value.0, it)
  {
    hide Number, Varint, ReadVarint, ReadField, PackItem, WrittenAs, Omitted, VarintBytes, AllZero;
    OmittedAbsent(it);
    PlainParts(it);
    var t, head, body := it.wtype % 8, Header(it.wtype % 8, it.field), Value(it);
    Associate(head, body, rest);
    HeaderReadBack(t, it.field, body + rest);
    if t == 0 {
      NumberReadBack(it, rest);
    } else if t == 2 {
      DelimitedReadBack(it.field, it.data.bytes[..it.length], rest);
    } else {
      FixedReadBack(it.field, body, rest);
    }
  }

  /** What follows a message item starts with a key, and no key is zero. */
  lemma {:induction false} KeyFollows(items: seq<Item>)
    requires AllDeclared(items) && PackAll(items).Done? && PackAll(items).bytes != []
    ensures ReadVarint(PackAll(items).bytes).Some? && ReadVarint(PackAll(items).bytes).value.0 > 0
  {
    var it, rest := items[0], PackAll(items[1..]).bytes;
    if Omitted(it) {
      Passed(it);
      assert [] + rest == rest;
      KeyFollows(items[1..]);
    } else {
      var t := it.wtype % 8;
      if IsEmbedded(it) {
        EmbeddedParts(it);
      } else {
        PlainParts(it);
      }
      var body := if IsEmbedded(it) then Framed(it.data.items).bytes else Value(it);
      Associate(Header(t, it.field), body, rest);
      VarintReadBack(it.field * 8 + t, body + rest);
    }
  }

  /** A stray zero leaves a key alone, and the reader takes the next key for its value. */
  lemma StrayMisread(it: Item, items: seq<Item>)
    requires Declared(it) && Stray(it) && it.field != 0 && AllDeclared(items) && PackAll(items).Done?
    ensures !Absent(it)
    ensures var r := ReadField(PackItem(it).bytes + PackAll(items).bytes); r.Some? ==> !Same(r.value.0, it)
  {
    hide Number, Varint, ReadVarint, ReadField, PackItem, PackAll, WrittenAs;
    StrayNumber(it);
    OmittedAbsent(it);
    NumberBytes(it);
    PlainParts(it);
    var head, rest := Header(0, it.field), PackAll(items).bytes;
    assert head + [] == head;
    HeaderReadBack(0, it.field, rest);
    NothingRead();
    if rest != [] {
      KeyFollows(items);
      ghost var v := ReadVarint(rest).value.0;
      if WrittenAs(v, VarintBytes(it)) {
        WrittenOnce(v, 0, VarintBytes(it));
      }
    }
  }

  lemma NothingRead()
    ensures ReadVarint([]) == None
  {
  }

  lemma {:induction false} EmbeddedReadBack(it: Item, rest: seq<byte>)
    requires Declared(it) && IsEmbedded(it) && !Skipped(it) && PackItem(it).Done?
    ensures !Absent(it)
    ensures var r := ReadField(PackItem(it).bytes + rest);
      r.Some? && r.value.1 == rest && (Same(r.value.0, it) <==> Clean(it.data.items))
    decreases it, 0
  {
    EmbeddedParts(it);
    DecodesToItems(it.data.items);
    var child := PackAll(it.data.items).bytes;
    var head, body := Header(2, it.field), Varint(|child|) + child;
    hide PackItem, PackAll, Varint, ReadVarint, ReadField, Declared, Decode, Recovers, Clean;
    Associate(head, body, rest);
    HeaderReadBack(2, it.field, body + rest);
    DelimitedReadBack(it.field, child, rest);
  }

  /** What the reader makes of a packed item that is not absent. */
  lemma {:induction false} FieldReadBack(it: Item, items: seq<Item>)
    requires Declared(it) && !Absent(it) && PackItem(it).Done? && AllDeclared(items) && PackAll(items).Done?
    ensures PackItem(it).bytes != []
    ensures var r, rest := ReadField(PackItem(it).bytes + PackAll(items).bytes), PackAll(items).bytes;
      if CleanItem(it) then r.Some? && r.value.1 == rest && Same(r.value.0, it)
      else r.Some? ==> !Same(r.value.0, it)
    decreases it, 1
  {
    hide PackAll, ReadField, Same, Stray, Number, Varint, Omitted;
    NotAbsent(it);
    if IsEmbedded(it) {
      EmbeddedParts(it);
      EmbeddedReadBack(it, PackAll(items).bytes);
    } else if Stray(it) {
      PlainParts(it);
      StrayMisread(it, items);
    } else {
      PlainParts(it);
      PlainReadBack(it, PackAll(items).bytes);
    }
  }

  lemma NotAbsent(it: Item)
    requires Declared(it) && !Absent(it) && PackItem(it).Done?
    ensures !Omitted(it) && !Skipped(it) && it.wtype % 8 <= 5 && it.field != 0
    ensures IsEmbedded(it) ==> !Stray(it)
  {
    OmittedAbsent(it);
    hide Number, Varint;
  }

  lemma FirstDone(items: seq<Item>)
    requires items != [] && AllDeclared(items) && PackAll(items).Done?
    ensures PackItem(items[0]).Done? && PackAll(items[1..]).Done?
    ensures PackAll(items).bytes == PackItem(items[0]).bytes + PackAll(items[1..]).bytes
  {
    hide PackItem;
  }

  lemma DecodeStep(s: seq<byte>)
    requires s != []
    ensures Decode(s) == match ReadField(s)
      case None => None
      case Some((f, rest)) =>
        match Decode(rest)
        case None => None
        case Some(more) => Some([f] + more)
  {
  }

  lemma RecoversStep(fs: seq<Field>, items: seq<Item>)
    requires AllDeclared(items) && items != []
    ensures Recovers(fs, items) <==>
      if Absent(items[0]) then Recovers(fs, items[1..])
      else fs != [] && Same(fs[0], items[0]) && Recovers(fs[1..], items[1..])
  {
  }

  lemma AbsentItem(it: Item)
    requires Declared(it) && Absent(it) && PackItem(it).Done?
    ensures PackItem(it) == Done([]) && CleanItem(it)
  {
    OmittedAbsent(it);
    hide Number;
  }

  /** Reading a packed message gives its items back, down the whole tree, exactly when it holds no stray zero. */
  lemma {:induction false} DecodesToItems(items: seq<Item>)
    requires AllDeclared(items) && PackAll(items).Done?
    ensures var d := Decode(PackAll(items).bytes); (d.Some? && Recovers(d.value, items)) <==> Clean(items)
    decreases items, 1
  {
    if items != [] {
      hide Decode, Absent, Same, Recovers, CleanItem, PackAll, PackItem, ReadField, Declared;
      var it, rest := items[0], PackAll(items[1..]).bytes;
      FirstDone(items);
      DecodesToItems(items[1..]);
      var s := PackItem(it).bytes + rest;
      var d := Decode(s);
      if d.Some? {
        RecoversStep(d.value, items);
      }
      if Absent(it) {
        AbsentItem(it);
        assert s == rest;
      } else {
        FieldReadBack(it, items[1..]);
        DecodeStep(s);
        if d.Some? {
          assert d.value[1..] == Decode(ReadField(s).value.1).value;
        }
      }
    }
  }

  /** An item leaves no bytes in the message exactly when it is absent. */
  lemma AbsentEmpty(it: Item)
    requires Declared(it)
    ensures AllDeclared([it]) && (PackAll([it]) == Done([]) <==> Absent(it))
  {
    hide PackItem, Absent, Declared;
    OneItem(it);
    if PackItem(it).Done? {
      if Absent(it) {
        AbsentItem(it);
      } else {
        FieldReadBack(it, []);
      }
    } else {
      FailedPresent(it);
    }
  }

  lemma OneItem(it: Item)
    requires Declared(it)
    ensures AllDeclared([it]) && PackAll([it]) == PackItem(it)
  {
    hide PackItem;
    assert [it][1..] == [] && [it][0] == it;
    assert PackItem(it).Done? ==> PackItem(it).bytes + [] == PackItem(it).bytes;
  }

  lemma FailedPresent(it: Item)
    requires Declared(it) && PackItem(it).Failed?
    ensures !Absent(it)
  {
    OmittedAbsent(it);
    hide Number;
  }

  /** Items without a fault: a type that exists and, unless they are absent, a field number; in the whole tree. */
  predicate SendableItem(it: Item)
    requires Declared(it)
    decreases it, 0
  {
    && it.wtype % 8 <= 5
    && (Absent(it) || (it.field != 0 && (it.wtype % 8 == 2 && it.wtype >= 0x80 ==> Sendable(it.data.items))))
  }

  predicate Sendable(items: seq<Item>)
    requires AllDeclared(items)
    decreases items, 1
  {
    items == [] || (SendableItem(items[0]) && Sendable(items[1..]))
  }

  /** There is an encoding exactly when no item has a fault. */
  lemma {:induction false} PackSucceeds(items: seq<Item>)
    requires AllDeclared(items)
    ensures PackAll(items).Done? <==> Sendable(items)
    decreases items, 1
  {
    if items != [] {
      hide PackItem, SendableItem;
      ItemSucceeds(items[0]);
      PackSucceeds(items[1..]);
    }
  }

  lemma {:induction false} ItemSucceeds(it: Item)
    requires Declared(it)
    ensures PackItem(it).Done? <==> SendableItem(it)
    decreases it, 0
  {
    hide Number, Varint, Absent, PackAll, Sendable, Declared;
    OmittedAbsent(it);
    if it.wtype % 8 <= 5 && !Absent(it) && IsEmbedded(it) {
      EmbeddedItems(it);
      PackSucceeds(it.data.items);
      EmbeddedParts(it);
    }
  }

  lemma EmbeddedItems(it: Item)
    requires Declared(it) && !Absent(it) && IsEmbedded(it)
    ensures it.data.Items? && !Skipped(it) && AllDeclared(it.data.items)
  {
  }

  /** The items that are not absent. */
  function Present(items: seq<Item>): nat
    requires AllDeclared(items)
  {
    if items == [] then 0 else (if Absent(items[0]) then 0 else 1) + Present(items[1..])
  }

  lemma {:induction false} RecoversCount(fs: seq<Field>, items: seq<Item>)
    requires AllDeclared(items) && Recovers(fs, items)
    ensures |fs| == Present(items)
    decreases |items|
  {
    if items != [] {
      hide Absent, Same;
      RecoversCount(if Absent(items[0]) then fs else fs[1..], items[1..]);
    }
  }

  /** A message without stray zeros has a field for every item that is not absent. */
  lemma FieldCount(items: seq<Item>)
    requires AllDeclared(items) && PackAll(items).Done? && Clean(items)
    ensures var d := Decode(PackAll(items).bytes); d.Some? && |d.value| == Present(items)
  {
    hide PackAll, Decode, Recovers;
    DecodesToItems(items);
    RecoversCount(Decode(PackAll(items).bytes).value, items);
  }

  /** One item of type 0x08 and value zero becomes the message of one byte that no reader accepts. */
  lemma StrayExample()
    ensures var items := [Item(0x08, 1, Bytes([0]), 1)];
      AllDeclared(items) && PackAll(items) == Done([0x08]) && Decode([0x08]) == None
  {
    var it := Item(0x08, 1, Bytes([0]), 1);
    assert [it][1..] == [];
    assert Number(it) == 0;
    PlainParts(it);
    assert Header(0, 1) == [0x08];
    assert [it][0] == it && PackAll([it][1..]) == Done([]);
    HeaderReadBack(0, 1, []);
    assert [0x08 as byte] + [] == [0x08];
  }
}
