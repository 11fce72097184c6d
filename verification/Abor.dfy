/** ABOR: an encoder that patches array sizes into earlier bytes, and its decoder. */
module Abor {
  import opened Arithmetic
  import opened Wrappers

  datatype Tag = U8 | U16 | U32 | U64 | U128 | Bytes | Array

  function Code(tag: Tag): Byte {
    match tag
    case U8 => 1
    case U16 => 2
    case U32 => 3
    case U64 => 4
    case U128 => 5
    case Bytes => 6
    case Array => 7
  }

  function TagOf(v: Byte): (r: Option<Tag>)
    ensures r.Some? ==> Code(r.value) == v
    ensures r.None? ==> forall tag :: Code(tag) != v
  {
    match v
    case 1 => Some(U8)
    case 2 => Some(U16)
    case 3 => Some(U32)
    case 4 => Some(U64)
    case 5 => Some(U128)
    case 6 => Some(Bytes)
    case 7 => Some(Array)
    case _ => None
  }

  /** The number of bytes of an unsigned value. */
  function Width(tag: Tag): nat {
    match tag
    case U8 => 1
    case U16 => 2
    case U32 => 4
    case U64 => 8
    case U128 => 16
    case _ => 0
  }

  /** One more than the largest unsigned value. */
  function Limit(tag: Tag): nat {
    match tag
    case U8 => 0x100
    case U16 => 0x1_0000
    case U32 => 0x1_0000_0000
    case U64 => 0x1_0000_0000_0000_0000
    case U128 => 0x1_0000_0000_0000_0000_0000_0000_0000_0000
    case _ => 1
  }

  lemma LimitIsPower(tag: Tag)
    ensures Limit(tag) == Pow256(Width(tag))
  {
    assert Pow256(0) == 1 && Pow256(1) == 0x100 && Pow256(2) == 0x1_0000;
    assert Pow256(4) == 0x1_0000 * Pow256(2);
    assert Pow256(6) == 0x1_0000 * Pow256(4);
    assert Pow256(8) == 0x1_0000 * Pow256(6);
    assert Pow256(10) == 0x1_0000 * Pow256(8);
    assert Pow256(12) == 0x1_0000 * Pow256(10);
    assert Pow256(14) == 0x1_0000 * Pow256(12);
    assert Pow256(16) == 0x1_0000 * Pow256(14);
  }

  predicate IsNumber(tag: Tag) {
    tag != Bytes && tag != Array
  }

  // ---- The encoder ----

  datatype Hole = Hole(startElement: nat, ofs: nat)

  /** The assertions of the encoder. */
  datatype Panic = TooLong | UnmatchedEnd | TooManyElements | Unfinished

  datatype Encoder = Encoder(data: seq<Byte>, hole: seq<Hole>, currentElement: nat) {
    /** What keeps the subtraction and the patch of `StructEnd` in range. */
    ghost predicate Valid() {
      forall i :: 0 <= i < |hole| ==> hole[i].startElement <= currentElement && hole[i].ofs < |data|
    }

    function PushSlice(s: seq<Byte>): Encoder {
      this.(data := data + s)
    }

    function PushTag(tag: Tag): Encoder {
      PushSlice([Code(tag)])
    }

    function Incr(): Encoder {
      this.(currentElement := currentElement + 1)
    }

    /** Adds an unsigned value in little-endian form. */
    function Number(tag: Tag, u: nat): Encoder {
      PushTag(tag).PushSlice(ToLittleEndian(u, Width(tag))).Incr()
    }

    function Block(bs: seq<Byte>): Result<Encoder, Panic> {
      if |bs| >= 256 then Err(TooLong)
      else Ok(PushTag(Bytes).PushSlice([|bs|]).PushSlice(bs).Incr())
    }

    /** Opens an array whose size is not yet known. */
    function StructStart(): Encoder {
      var d := PushTag(Array);
      var c := d.currentElement + 1;
      Encoder(d.data + [0xfe], d.hole + [Hole(c, |d.data|)], c)
    }

    /** Closes the innermost open array and fills in its size. */
    function StructEnd(): Result<Encoder, Panic>
      requires Valid()
    {
      if hole == [] then Err(UnmatchedEnd)
      else
        var h := hole[|hole| - 1];
        var elements := currentElement - h.startElement;
        if elements >= 256 then Err(TooManyElements)
        else Ok(Encoder(data[h.ofs := elements], hole[..|hole| - 1], currentElement))
    }

    function Finalize(): Result<seq<Byte>, Panic> {
      if hole != [] then Err(Unfinished) else Ok(data)
    }
  }

  const EMPTY := Encoder([], [], 0)

  datatype Call = PutNumber(tag: Tag, value: nat) | PutBlock(bs: seq<Byte>) | Start | End

  /** Numbers fit the method they are passed to. */
  predicate Typed(call: Call) {
    call.PutNumber? ==> IsNumber(call.tag) && call.value < Limit(call.tag)
  }

  function Apply(e: Encoder, call: Call): (r: Result<Encoder, Panic>)
    requires e.Valid()
    ensures r.Ok? ==> r.value.Valid()
  {
    match call
    case PutNumber(tag, value) => Ok(e.Number(tag, value))
    case PutBlock(bs) => e.Block(bs)
    case Start => Ok(e.StructStart())
    case End => e.StructEnd()
  }

  function Run(e: Encoder, calls: seq<Call>): (r: Result<Encoder, Panic>)
    requires e.Valid()
    ensures r.Ok? ==> r.value.Valid()
    decreases calls
  {
    if calls == [] then Ok(e) else
      var next := Apply(e, calls[0]);
      if next.Err? then Err(next.error) else Run(next.value, calls[1..])
  }

  /** A fresh encoder, the calls, and the end. */
  function Encoded(calls: seq<Call>): Result<seq<Byte>, Panic> {
    var e := Run(EMPTY, calls);
    if e.Err? then Err(e.error) else e.value.Finalize()
  }

  // ---- Call trees ----

  datatype Item = Number(tag: Tag, value: nat) | Block(bs: seq<Byte>) | Struct(items: seq<Item>)

  /** The calls that write the items. */
  function Calls(items: seq<Item>): seq<Call> {
    if items == [] then [] else
      (match items[0]
       case Number(tag, value) => [PutNumber(tag, value)]
       case Block(bs) => [PutBlock(bs)]
       case Struct(inner) => [Start] + Calls(inner) + [End])
      + Calls(items[1..])
  }

  /** The items at all depths. */
  function Count(items: seq<Item>): nat {
    if items == [] then 0 else
      1 + (if items[0].Struct? then Count(items[0].items) else 0) + Count(items[1..])
  }

  /** The sizes of the arrays, each before those it contains. */
  function Sizes(items: seq<Item>): seq<nat> {
    if items == [] then [] else
      (if items[0].Struct? then [Count(items[0].items)] + Sizes(items[0].items) else []) + Sizes(items[1..])
  }

  /** The limits of the format: blocks below 256 bytes, arrays below 256 items at all depths. */
  predicate Fits(items: seq<Item>) {
    items == [] ||
    ((match items[0]
      case Number(tag, value) => IsNumber(tag) && value < Limit(tag)
      case Block(bs) => |bs| < 256
      case Struct(inner) => Fits(inner) && Count(inner) < 256)
     && Fits(items[1..]))
  }

  /** The encoding, with every array's size known from the start. */
  function Encoding(items: seq<Item>): seq<Byte>
    requires Fits(items)
  {
    if items == [] then [] else
      (match items[0]
       case Number(tag, value) => [Code(tag)] + ToLittleEndian(value, Width(tag))
       case Block(bs) => [Code(Bytes), |bs|] + bs
       case Struct(inner) => [Code(Array), Count(inner)] + Encoding(inner))
      + Encoding(items[1..])
  }

  lemma {:induction false} RunConcat(e: Encoder, a: seq<Call>, b: seq<Call>)
    requires e.Valid()
    ensures Run(e, a + b) == if Run(e, a).Err? then Run(e, a) else Run(Run(e, a).value, b)
    decreases |a|
  {
    if a == [] {
      assert a + b == b;
    } else {
      assert (a + b)[1..] == a[1..] + b;
      var next := Apply(e, a[0]);
      if next.Ok? {
        RunConcat(next.value, a[1..], b);
      }
    }
  }

  lemma FilledHole(data: seq<Byte>, bytes: seq<Byte>, count: Byte)
    ensures (data + [Code(Array)] + [0xfe] + bytes)[|data| + 1 := count] == data + ([Code(Array), count] + bytes)
  {
  }

  /** Closing an array whose items have been appended and counted. */
  lemma ClosedStruct(e: Encoder, bytes: seq<Byte>, count: nat)
    requires e.Valid() && count < 256
    ensures var s := e.StructStart();
            var filled := Encoder(s.data + bytes, s.hole, s.currentElement + count);
            && filled.Valid()
            && filled.StructEnd()
               == Ok(Encoder(e.data + ([Code(Array), count] + bytes), e.hole, e.currentElement + 1 + count))
  {
    var s := e.StructStart();
    assert s.hole[..|s.hole| - 1] == e.hole;
    FilledHole(e.data, bytes, count);
  }

  lemma RunStruct(e: Encoder, inner: seq<Call>, filled: Encoder, closed: Encoder)
    requires e.Valid() && Run(e.StructStart(), inner) == Ok(filled) && filled.StructEnd() == Ok(closed)
    ensures Run(e, [Start] + inner + [End]) == Ok(closed)
  {
    RunOne(e, Start);
    RunConcat(e, [Start], inner);
    RunConcat(e, [Start] + inner, [End]);
    RunOne(filled, End);
  }

  lemma RunOne(e: Encoder, call: Call)
    requires e.Valid()
    ensures Run(e, [call]) == Apply(e, call)
  {
    assert [call][1..] == [];
  }

  /** Writing items appends their encoding, counts them, and leaves the open arrays alone. */
  lemma {:induction false} RunItems(e: Encoder, items: seq<Item>)
    requires e.Valid() && Fits(items)
    ensures Run(e, Calls(items)) == Ok(Encoder(e.data + Encoding(items), e.hole, e.currentElement + Count(items)))
    decreases items
  {
    if items == [] {
      assert e.data + [] == e.data;
    } else {
      var first, rest := [items[0]], items[1..];
      FirstItem(items);
      RunItem(e, items);
      var next := Run(e, Calls(first)).value;
      RunItems(next, rest);
      RunConcat(e, Calls(first), Calls(rest));
      AppendTwo(e.data, Encoding(first), Encoding(rest));
    }
  }

  lemma FirstItem(items: seq<Item>)
    requires items != []
    ensures Calls(items) == Calls([items[0]]) + Calls(items[1..])
    ensures Count(items) == Count([items[0]]) + Count(items[1..])
    ensures Fits(items) <==> Fits([items[0]]) && Fits(items[1..])
    ensures Fits(items) ==> Encoding(items) == Encoding([items[0]]) + Encoding(items[1..])
  {
    FirstCalls(items);
    FirstFits(items);
    if Fits(items) {
      FirstEncoding(items);
    }
  }

  lemma FirstCalls(items: seq<Item>)
    requires items != []
    ensures Calls(items) == Calls([items[0]]) + Calls(items[1..])
    ensures Count(items) == Count([items[0]]) + Count(items[1..])
  {
    assert [items[0]][1..] == [];
  }

  lemma FirstFits(items: seq<Item>)
    requires items != []
    ensures Fits(items) <==> Fits([items[0]]) && Fits(items[1..])
  {
    assert [items[0]][1..] == [];
  }

  lemma FirstEncoding(items: seq<Item>)
    requires items != [] && Fits(items) && Fits([items[0]])
    ensures Encoding(items) == Encoding([items[0]]) + Encoding(items[1..])
  {
    assert [items[0]][1..] == [];
  }

  /** One item on its own. */
  lemma NumberAlone(tag: Tag, value: nat)
    ensures var items := [Number(tag, value)];
            && Calls(items) == [PutNumber(tag, value)] && Count(items) == 1
            && (Fits(items) <==> IsNumber(tag) && value < Limit(tag))
            && (Fits(items) ==> Encoding(items) == [Code(tag)] + ToLittleEndian(value, Width(tag)))
  {
    var items := [Number(tag, value)];
    assert items[1..] == [];
    assert Calls(items) == [PutNumber(tag, value)] + [];
  }

  lemma BlockAlone(bs: seq<Byte>)
    ensures var items := [Block(bs)];
            && Calls(items) == [PutBlock(bs)] && Count(items) == 1
            && (Fits(items) <==> |bs| < 256)
            && (Fits(items) ==> Encoding(items) == [Code(Bytes), |bs|] + bs)
  {
    var items := [Block(bs)];
    assert items[1..] == [];
    assert Calls(items) == [PutBlock(bs)] + [];
  }

  lemma StructAlone(inner: seq<Item>)
    ensures var items := [Struct(inner)];
            && Calls(items) == [Start] + Calls(inner) + [End] && Count(items) == 1 + Count(inner)
            && (Fits(items) <==> Fits(inner) && Count(inner) < 256)
            && (Fits(items) ==> Encoding(items) == [Code(Array), Count(inner)] + Encoding(inner))
  {
    var items := [Struct(inner)];
    assert items[1..] == [];
    assert Calls(items) == [Start] + Calls(inner) + [End] + [];
  }

  /** The bytes of a number: its tag, and the value with the least significant byte first. */
  lemma EncodedNumber(tag: Tag, value: nat)
    ensures var (code, width) := match tag
              case U8 => (1, 1) case U16 => (2, 2) case U32 => (3, 4) case U64 => (4, 8) case U128 => (5, 16)
              case _ => (0, 0);
            && (Fits([Number(tag, value)]) <==> width > 0 && value < Pow256(width))
            && (width > 0 && value < Pow256(width) ==>
                  var bytes := Encoding([Number(tag, value)]);
                  |bytes| == 1 + width && bytes[0] == code
                  && forall i: nat :: i < width ==> bytes[1 + i] == value / Pow256(i) % 256)
  {
    NumberAlone(tag, value);
    LimitIsPower(tag);
    if Fits([Number(tag, value)]) {
      forall i: nat | i < Width(tag) ensures ToLittleEndian(value, Width(tag))[i] == value / Pow256(i) % 256 {
        LittleEndianAt(value, Width(tag), i);
      }
    }
  }

  /** The bytes of blocks and arrays: their tag, their size and their contents. An array counts the
      items at all depths, so that it holds as many as fit one byte. */
  lemma EncodedComposite(bs: seq<Byte>, inner: seq<Item>)
    ensures Fits([Block(bs)]) <==> |bs| <= 255
    ensures |bs| <= 255 ==> Encoding([Block(bs)]) == [6, |bs|] + bs
    ensures Fits([Struct(inner)]) <==> Fits(inner) && Count(inner) <= 255
    ensures Fits(inner) && Count(inner) <= 255 ==> Encoding([Struct(inner)]) == [7, Count(inner)] + Encoding(inner)
    ensures Count([Struct(inner)]) == 1 + Count(inner) && Count([Block(bs)]) == 1 && Count([]) == 0
  {
    BlockAlone(bs);
    StructAlone(inner);
  }

  lemma RunNumber(e: Encoder, tag: Tag, value: nat)
    requires e.Valid()
    ensures Run(e, [PutNumber(tag, value)])
            == Ok(Encoder(e.data + ([Code(tag)] + ToLittleEndian(value, Width(tag))), e.hole, e.currentElement + 1))
  {
    RunOne(e, PutNumber(tag, value));
    AppendTwo(e.data, [Code(tag)], ToLittleEndian(value, Width(tag)));
  }

  lemma RunBlock(e: Encoder, bs: seq<Byte>)
    requires e.Valid() && |bs| < 256
    ensures Run(e, [PutBlock(bs)]) == Ok(Encoder(e.data + ([Code(Bytes), |bs|] + bs), e.hole, e.currentElement + 1))
  {
    RunOne(e, PutBlock(bs));
    AppendHeader(e.data, Code(Bytes), |bs|, bs);
  }

  lemma AppendHeader(data: seq<Byte>, tag: Byte, size: Byte, bs: seq<Byte>)
    ensures data + [tag] + [size] + bs == data + ([tag, size] + bs)
  {
  }

  lemma AppendTwo(data: seq<Byte>, a: seq<Byte>, b: seq<Byte>)
    ensures data + a + b == data + (a + b)
  {
  }

  lemma {:induction false} RunItem(e: Encoder, items: seq<Item>)
    requires e.Valid() && Fits(items) && items != []
    ensures Fits([items[0]])
    ensures Run(e, Calls([items[0]]))
            == Ok(Encoder(e.data + Encoding([items[0]]), e.hole, e.currentElement + Count([items[0]])))
    decreases items, 1
  {
    FirstFits(items);
    match items[0]
    case Number(tag, value) =>
      NumberAlone(tag, value);
      RunNumber(e, tag, value);
    case Block(bs) =>
      BlockAlone(bs);
      RunBlock(e, bs);
    case Struct(inner) =>
      RunStructItem(e, items, inner);
  }

  lemma {:induction false} RunStructItem(e: Encoder, items: seq<Item>, inner: seq<Item>)
    requires e.Valid() && items != [] && items[0] == Struct(inner) && Fits([Struct(inner)])
    ensures Run(e, Calls([Struct(inner)]))
            == Ok(Encoder(e.data + Encoding([Struct(inner)]), e.hole, e.currentElement + Count([Struct(inner)])))
    decreases items, 0
  {
    var s := e.StructStart();
    StructAlone(inner);
    RunItems(s, inner);
    ClosedStruct(e, Encoding(inner), Count(inner));
    RunStruct(e, Calls(inner), Encoder(s.data + Encoding(inner), s.hole, s.currentElement + Count(inner)),
              Encoder(e.data + ([Code(Array), Count(inner)] + Encoding(inner)), e.hole, e.currentElement + 1 + Count(inner)));
  }

  // ---- Only call trees finish ----

  /** The calls so far: complete items at each level, an open array between levels. */
  function OpenCalls(levels: seq<seq<Item>>): seq<Call>
    requires levels != []
  {
    var last := levels[|levels| - 1];
    if |levels| == 1 then Calls(last) else OpenCalls(levels[..|levels| - 1]) + [Start] + Calls(last)
  }

  function OpenCount(levels: seq<seq<Item>>): nat
    requires levels != []
  {
    var last := levels[|levels| - 1];
    if |levels| == 1 then Count(last) else OpenCount(levels[..|levels| - 1]) + 1 + Count(last)
  }

  /** Each hole remembers the count at which its array was opened. */
  ghost predicate Tracks(hole: seq<Hole>, levels: seq<seq<Item>>) {
    && |levels| == |hole| + 1
    && (hole != [] ==>
          && hole[|hole| - 1].startElement == OpenCount(levels[..|levels| - 1]) + 1
          && Tracks(hole[..|hole| - 1], levels[..|levels| - 1]))
  }

  ghost predicate Represents(e: Encoder, levels: seq<seq<Item>>, calls: seq<Call>) {
    && Tracks(e.hole, levels)
    && (forall i :: 0 <= i < |levels| ==> Fits(levels[i]))
    && e.currentElement == OpenCount(levels)
    && calls == OpenCalls(levels)
  }

  lemma {:induction false} ItemsConcat(a: seq<Item>, b: seq<Item>)
    ensures Calls(a + b) == Calls(a) + Calls(b) && Count(a + b) == Count(a) + Count(b)
    ensures Fits(a + b) <==> Fits(a) && Fits(b)
    decreases |a|
  {
    if a == [] {
      assert a + b == b;
    } else {
      var ab := a + b;
      assert ab[1..] == a[1..] + b && ab[0] == a[0];
      ItemsConcat(a[1..], b);
      FirstItem(a);
      FirstItem(ab);
      AppendTwoCalls(Calls([a[0]]), Calls(a[1..]), Calls(b));
    }
  }

  /** A complete item goes to the innermost level. */
  function Grown(levels: seq<seq<Item>>, item: Item): seq<seq<Item>>
    requires levels != []
  {
    levels[..|levels| - 1] + [levels[|levels| - 1] + [item]]
  }

  lemma GrownRepresents(levels: seq<seq<Item>>, item: Item, hole: seq<Hole>)
    requires levels != [] && Fits([item]) && Tracks(hole, levels)
    requires forall i :: 0 <= i < |levels| ==> Fits(levels[i])
    ensures Tracks(hole, Grown(levels, item))
    ensures forall i :: 0 <= i < |levels| ==> Fits(Grown(levels, item)[i])
    ensures OpenCount(Grown(levels, item)) == OpenCount(levels) + Count([item])
    ensures OpenCalls(Grown(levels, item)) == OpenCalls(levels) + Calls([item])
  {
    var g, front, last := Grown(levels, item), levels[..|levels| - 1], levels[|levels| - 1];
    ItemsConcat(last, [item]);
    assert g[..|g| - 1] == front && g[|g| - 1] == last + [item];
    if front != [] {
      AppendTwoCalls(OpenCalls(front) + [Start], Calls(last), Calls([item]));
    }
  }

  lemma AppendTwoCalls(calls: seq<Call>, a: seq<Call>, b: seq<Call>)
    ensures calls + a + b == calls + (a + b)
  {
  }

  lemma StepRepresents(e: Encoder, levels: seq<seq<Item>>, calls: seq<Call>, call: Call) returns (next: seq<seq<Item>>)
    requires e.Valid() && Represents(e, levels, calls) && Typed(call) && Apply(e, call).Ok?
    ensures Represents(Apply(e, call).value, next, calls + [call])
  {
    match call
    case PutNumber(tag, value) =>
      NumberAlone(tag, value);
      next := AppendItem(e, levels, calls, call, Number(tag, value));
    case PutBlock(bs) =>
      BlockAlone(bs);
      next := AppendItem(e, levels, calls, call, Block(bs));
    case Start =>
      next := OpenLevel(e, levels, calls);
    case End =>
      next := CloseLevel(e, levels, calls);
  }

  lemma AppendItem(e: Encoder, levels: seq<seq<Item>>, calls: seq<Call>, call: Call, item: Item)
    returns (next: seq<seq<Item>>)
    requires e.Valid() && Represents(e, levels, calls) && Apply(e, call).Ok?
    requires Fits([item]) && Calls([item]) == [call] && Count([item]) == 1
    requires Apply(e, call).value.hole == e.hole && Apply(e, call).value.currentElement == e.currentElement + 1
    ensures Represents(Apply(e, call).value, next, calls + [call])
  {
    GrownRepresents(levels, item, e.hole);
    next := Grown(levels, item);
  }

  lemma OpenLevel(e: Encoder, levels: seq<seq<Item>>, calls: seq<Call>) returns (next: seq<seq<Item>>)
    requires e.Valid() && Represents(e, levels, calls)
    ensures Represents(e.StructStart(), next, calls + [Start])
  {
    next := levels + [[]];
    assert next[..|levels|] == levels;
  }

  lemma CloseLevel(e: Encoder, levels: seq<seq<Item>>, calls: seq<Call>) returns (next: seq<seq<Item>>)
    requires e.Valid() && Represents(e, levels, calls) && e.StructEnd().Ok?
    ensures Represents(e.StructEnd().value, next, calls + [End])
  {
    var n := |levels|;
    var inner, outer := levels[n - 1], levels[..n - 1];
    assert Count(inner) == e.currentElement - e.hole[|e.hole| - 1].startElement;
    StructAlone(inner);
    next := Grown(outer, Struct(inner));
    GrownRepresents(outer, Struct(inner), e.hole[..|e.hole| - 1]);
    assert calls + [End] == OpenCalls(outer) + ([Start] + Calls(inner) + [End]);
  }

  lemma {:induction false} RunRepresents(e: Encoder, levels: seq<seq<Item>>, done: seq<Call>, calls: seq<Call>)
    returns (last: seq<seq<Item>>)
    requires e.Valid() && Represents(e, levels, done) && Run(e, calls).Ok?
    requires forall i :: 0 <= i < |calls| ==> Typed(calls[i])
    ensures Represents(Run(e, calls).value, last, done + calls)
    decreases |calls|
  {
    if calls == [] {
      last := levels;
      assert done + calls == done;
    } else {
      var next := StepRepresents(e, levels, done, calls[0]);
      last := RunRepresents(Apply(e, calls[0]).value, next, done + [calls[0]], calls[1..]);
      assert done + [calls[0]] + calls[1..] == done + calls;
    }
  }

  /** The encoder finishes exactly on the call sequences of trees within the limits, and
      then its bytes are the encoding of the tree: no placeholder is left. */
  lemma EncodedExactly(calls: seq<Call>)
    requires forall i :: 0 <= i < |calls| ==> Typed(calls[i])
    ensures Encoded(calls).Ok? <==> exists items :: Fits(items) && Calls(items) == calls
    ensures forall items | Fits(items) && Calls(items) == calls :: Encoded(calls) == Ok(Encoding(items))
  {
    forall items | Fits(items) && Calls(items) == calls
      ensures Encoded(calls) == Ok(Encoding(items))
    {
      RunItems(EMPTY, items);
      assert [] + Encoding(items) == Encoding(items);
    }
    if Encoded(calls).Ok? {
      var levels := RunRepresents(EMPTY, [[]], [], calls);
      assert [] + calls == calls;
      assert Fits(levels[0]) && Calls(levels[0]) == calls;
    }
  }

  // ---- The decoder ----

  datatype DecodeError =
    | EndOfStream
    | StreamTooSmall(want: nat, has: nat)
    | StreamPending(left: nat)
    | TypeUnknown(tag: Byte)
    | TypeMismatch(got: Tag, expected: Tag)

  /** What a call can fail with: an error value, or an index out of bounds. */
  datatype Failure = Failed(error: DecodeError) | OutOfBounds

  /** The bytes a number's reader asks for. A 32-bit number asks for two and takes four. */
  function Wanted(tag: Tag): nat {
    if tag == U32 then 2 else Width(tag)
  }

  /** What checking a tag and `n` bytes after it makes of the input, and what remains. */
  function Header(tag: Tag, n: nat, s: seq<Byte>): (r: (Result<(), Failure>, seq<Byte>))
    ensures |r.1| <= |s|
    ensures r.0.Ok? <==> |s| > n && s[0] == Code(tag)
  {
    if s == [] then (Err(Failed(EndOfStream)), [])
    else if TagOf(s[0]).None? then
      (if |s| == 1 then Err(OutOfBounds) else Err(Failed(TypeUnknown(s[1]))), s[1..])
    else if TagOf(s[0]).value != tag then (Err(Failed(TypeMismatch(TagOf(s[0]).value, tag))), s[1..])
    else if |s| - 1 < n then (Err(Failed(StreamTooSmall(n, |s| - 1))), s[1..])
    else (Ok(()), s[1..])
  }

  function NumberRead(tag: Tag, s: seq<Byte>): (Result<nat, Failure>, seq<Byte>)
    requires IsNumber(tag)
  {
    var (r, rest) := Header(tag, Wanted(tag), s);
    if r.Err? then (Err(r.error), rest)
    else if |rest| < Width(tag) then (Err(OutOfBounds), rest)
    else (Ok(FromLittleEndian(rest[..Width(tag)])), rest[Width(tag)..])
  }

  function ArrayRead(s: seq<Byte>): (Result<nat, Failure>, seq<Byte>) {
    var (r, rest) := Header(Array, 1, s);
    if r.Err? then (Err(r.error), rest) else (Ok(rest[0]), rest[1..])
  }

  function BlockRead(s: seq<Byte>): (Result<seq<Byte>, Failure>, seq<Byte>) {
    var (r, rest) := Header(Bytes, 1, s);
    if r.Err? then (Err(r.error), rest)
    else
      var size := rest[0];
      if |rest| - 1 < size then (Err(Failed(StreamTooSmall(size, |rest| - 1))), rest[1..])
      else (Ok(rest[1..][..size]), rest[1..][size..])
  }

  /** What the call that ends decoding makes of the input left. */
  function Ended(s: seq<Byte>): (r: Result<(), Failure>) {
    if s == [] then Ok(()) else Err(Failed(StreamPending(|s|)))
  }

  class Decoder {
    var slice: seq<Byte>

    constructor (data: seq<Byte>)
      ensures slice == data
    {
      slice := data;
    }

    method Pop() returns (r: Result<Byte, Failure>)
      modifies this
      ensures old(slice) == [] ==> r == Err(Failed(EndOfStream)) && slice == []
      ensures old(slice) != [] ==> r == Ok(old(slice)[0]) && slice == old(slice)[1..]
    {
      if slice != [] {
        r := Ok(slice[0]);
        slice := slice[1..];
      } else {
        r := Err(Failed(EndOfStream));
      }
    }

    method ExpectTag(tag: Tag) returns (r: Result<(), Failure>)
      modifies this
      ensures (r, slice) == Header(tag, 0, old(slice))
    {
      var t := Pop();
      if t.Err? {
        return Err(t.error);
      }
      match TagOf(t.value)
      case None =>
        if slice == [] {
          return Err(OutOfBounds);
        }
        return Err(Failed(TypeUnknown(slice[0])));
      case Some(got) =>
        return if got == tag then Ok(()) else Err(Failed(TypeMismatch(got, tag)));
    }

    method ExpectSize(bytes: nat) returns (r: Result<(), Failure>)
      ensures r == if bytes <= |slice| then Ok(()) else Err(Failed(StreamTooSmall(bytes, |slice|)))
    {
      r := if bytes <= |slice| then Ok(()) else Err(Failed(StreamTooSmall(bytes, |slice|)));
    }

    method ExpectTagSize(tag: Tag, bytes: nat) returns (r: Result<(), Failure>)
      modifies this
      ensures (r, slice) == Header(tag, bytes, old(slice))
    {
      r := ExpectTag(tag);
      if r.Ok? {
        r := ExpectSize(bytes);
      }
    }

    method ReadArray() returns (r: Result<nat, Failure>)
      modifies this
      ensures (r, slice) == ArrayRead(old(slice))
    {
      var header := ExpectTagSize(Array, 1);
      if header.Err? {
        return Err(header.error);
      }
      var size := Pop();
      r := Ok(size.value);
    }

    method ReadNumber(tag: Tag) returns (r: Result<nat, Failure>)
      requires IsNumber(tag)
      modifies this
      ensures (r, slice) == NumberRead(tag, old(slice))
    {
      var header := ExpectTagSize(tag, Wanted(tag));
      if header.Err? {
        return Err(header.error);
      }
      if |slice| < Width(tag) {
        return Err(OutOfBounds);
      }
      r := Ok(FromLittleEndian(slice[..Width(tag)]));
      slice := slice[Width(tag)..];
    }

    method ReadBytes() returns (r: Result<seq<Byte>, Failure>)
      modifies this
      ensures (r, slice) == BlockRead(old(slice))
    {
      var header := ExpectTagSize(Bytes, 1);
      if header.Err? {
        return Err(header.error);
      }
      var size := Pop();
      var available := ExpectSize(size.value);
      if available.Err? {
        return Err(available.error);
      }
      r := Ok(slice[..size.value]);
      slice := slice[size.value..];
    }

    method Finish() returns (r: Result<(), Failure>)
      ensures r == Ended(slice)
    {
      r := if slice == [] then Ok(()) else Err(Failed(StreamPending(|slice|)));
    }
  }

  /** Every reader goes out of bounds when an unknown tag ends the input. The reader of a 32-bit
      number also does so when two or three bytes of the number are left; none does otherwise. */
  lemma ReadsOutOfBounds(tag: Tag, s: seq<Byte>)
    ensures var unknown := |s| == 1 && forall t :: Code(t) != s[0];
            && (ArrayRead(s).0 == Err(OutOfBounds) <==> unknown)
            && (BlockRead(s).0 == Err(OutOfBounds) <==> unknown)
            && (IsNumber(tag) ==>
                  (NumberRead(tag, s).0 == Err(OutOfBounds) <==>
                   unknown || (tag == U32 && |s| in {3, 4} && s[0] == Code(U32))))
  {
    if |s| == 1 && TagOf(s[0]).Some? {
      assert Code(TagOf(s[0]).value) == s[0];
    }
  }

  /** What a reader of a tag and of `wanted` bytes reports when they are not there. An unknown tag is
      reported by the byte after it. */
  ghost predicate Reports<T>(tag: Tag, wanted: nat, s: seq<Byte>, r: Result<T, Failure>) {
    && (s == [] ==> r == Err(Failed(EndOfStream)))
    && (|s| > 1 && !(1 <= s[0] <= 7) ==> r == Err(Failed(TypeUnknown(s[1]))))
    && (forall t :: |s| > 0 && Code(t) == s[0] && t != tag ==> r == Err(Failed(TypeMismatch(t, tag))))
    && (|s| > 0 && Code(tag) == s[0] && |s| - 1 < wanted ==> r == Err(Failed(StreamTooSmall(wanted, |s| - 1))))
  }

  /** What the readers of numbers report. */
  lemma NumberErrors(tag: Tag, s: seq<Byte>)
    requires IsNumber(tag)
    ensures Reports(tag, if tag.U8? then 1 else if tag.U16? || tag.U32? then 2 else if tag.U64? then 8 else 16, s,
                    NumberRead(tag, s).0)
  {
    KnownCodes();
  }

  /** What the readers of arrays and blocks report. The latter also reports contents that are cut
      short. */
  lemma CompositeErrors(s: seq<Byte>)
    ensures Reports(Array, 1, s, ArrayRead(s).0)
    ensures Reports(Bytes, 1, s, BlockRead(s).0)
    ensures |s| > 1 && s[0] == 6 && |s| - 2 < s[1] ==> BlockRead(s).0 == Err(Failed(StreamTooSmall(s[1], |s| - 2)))
  {
    KnownCodes();
  }

  lemma KnownCodes()
    ensures forall v: Byte :: 1 <= v <= 7 <==> TagOf(v).Some?
    ensures forall t :: TagOf(Code(t)) == Some(t)
  {
  }

  // ---- Decoding call by call ----

  /** The sequence of calls a program makes to read a message, as a tree. */
  datatype Shape = OneNumber(tag: Tag) | OneBlock | OneStruct(inner: seq<Shape>)

  function Shapes(items: seq<Item>): (r: seq<Shape>)
    ensures |r| == |items|
  {
    if items == [] then [] else
      [match items[0]
       case Number(tag, _) => OneNumber(tag)
       case Block(_) => OneBlock
       case Struct(inner) => OneStruct(Shapes(inner))]
      + Shapes(items[1..])
  }

  predicate Readable(shapes: seq<Shape>) {
    shapes == [] ||
    ((match shapes[0]
      case OneNumber(tag) => IsNumber(tag)
      case OneBlock => true
      case OneStruct(inner) => Readable(inner))
     && Readable(shapes[1..]))
  }

  /** The values, the array sizes in the order in which they are read, and the input left. */
  datatype Decoded = Decoded(items: seq<Item>, sizes: seq<nat>, rest: seq<Byte>)

  function DecodeOne(shape: Shape, s: seq<Byte>): Result<Decoded, Failure>
    requires Readable([shape])
    decreases shape, 1
  {
    match shape
    case OneNumber(tag) =>
      var (r, rest) := NumberRead(tag, s);
      if r.Err? then Err(r.error) else Ok(Decoded([Number(tag, r.value)], [], rest))
    case OneBlock =>
      var (r, rest) := BlockRead(s);
      if r.Err? then Err(r.error) else Ok(Decoded([Block(r.value)], [], rest))
    case OneStruct(inner) =>
      var (r, rest) := ArrayRead(s);
      if r.Err? then Err(r.error)
      else
        var d := Decode(inner, rest);
        if d.Err? then d else Ok(Decoded([Struct(d.value.items)], [r.value] + d.value.sizes, d.value.rest))
  }

  function Decode(shapes: seq<Shape>, s: seq<Byte>): Result<Decoded, Failure>
    requires Readable(shapes)
    decreases shapes, 0
  {
    if shapes == [] then Ok(Decoded([], [], s)) else
      var first := DecodeOne(shapes[0], s);
      if first.Err? then first
      else
        var more := Decode(shapes[1..], first.value.rest);
        if more.Err? then more
        else Ok(Decoded(first.value.items + more.value.items, first.value.sizes + more.value.sizes, more.value.rest))
  }

  lemma NumberRoundTrip(tag: Tag, value: nat, tail: seq<Byte>)
    requires IsNumber(tag) && value < Limit(tag)
    ensures NumberRead(tag, [Code(tag)] + ToLittleEndian(value, Width(tag)) + tail) == (Ok(value), tail)
  {
    var bytes := ToLittleEndian(value, Width(tag));
    var s := [Code(tag)] + bytes + tail;
    assert s[1..] == bytes + tail;
    LimitIsPower(tag);
    FromToLittleEndian(value, Width(tag));
    assert (bytes + tail)[..Width(tag)] == bytes && (bytes + tail)[Width(tag)..] == tail;
  }

  lemma BlockRoundTrip(bs: seq<Byte>, tail: seq<Byte>)
    requires |bs| < 256
    ensures BlockRead([Code(Bytes), |bs|] + bs + tail) == (Ok(bs), tail)
  {
    var s := [Code(Bytes), |bs|] + bs + tail;
    assert s[1..][1..] == bs + tail;
    assert (bs + tail)[..|bs|] == bs && (bs + tail)[|bs|..] == tail;
  }

  lemma {:induction false} ReadableShapes(items: seq<Item>)
    requires Fits(items)
    ensures Readable(Shapes(items))
    decreases items
  {
    if items != [] {
      ReadableShapes(items[1..]);
      if items[0].Struct? {
        ReadableShapes(items[0].items);
      }
      assert Shapes(items)[1..] == Shapes(items[1..]);
    }
  }

  /** The matching calls read back what was written, with every array's size, and leave
      what follows. */
  lemma {:induction false} DecodeEncoding(items: seq<Item>, tail: seq<Byte>)
    requires Fits(items)
    ensures Readable(Shapes(items))
    ensures Decode(Shapes(items), Encoding(items) + tail) == Ok(Decoded(items, Sizes(items), tail))
    decreases items, 1
  {
    ReadableShapes(items);
    if items == [] {
      assert [] + tail == tail;
    } else {
      var rest := items[1..];
      FirstItem(items);
      AppendTwo(Encoding([items[0]]), Encoding(rest), tail);
      DecodeFirst(items, Encoding(rest) + tail);
      DecodeEncoding(rest, tail);
      assert Shapes(items)[1..] == Shapes(rest);
      assert [items[0]] + rest == items;
      FirstSizes(items);
    }
  }

  lemma FirstSizes(items: seq<Item>)
    requires items != []
    ensures Sizes(items) == Sizes([items[0]]) + Sizes(items[1..])
  {
    assert [items[0]][1..] == [];
  }

  lemma {:induction false} DecodeFirst(items: seq<Item>, tail: seq<Byte>)
    requires items != [] && Fits(items) && Readable(Shapes(items))
    ensures Fits([items[0]]) && Readable([Shapes(items)[0]])
    ensures DecodeOne(Shapes(items)[0], Encoding([items[0]]) + tail) == Ok(Decoded([items[0]], Sizes([items[0]]), tail))
    decreases items, 0
  {
    FirstItem(items);
    assert [items[0]][1..] == [] && [Shapes(items)[0]][1..] == [];
    match items[0]
    case Number(tag, value) =>
      NumberAlone(tag, value);
      NumberRoundTrip(tag, value, tail);
    case Block(bs) =>
      BlockAlone(bs);
      BlockRoundTrip(bs, tail);
    case Struct(inner) =>
      var s := Encoding([items[0]]) + tail;
      StructAlone(inner);
      assert s[1..][1..] == Encoding(inner) + tail;
      DecodeEncoding(inner, tail);
      assert Sizes([items[0]]) == [Count(inner)] + Sizes(inner);
  }

  // ---- Only encodings decode ----

  lemma NumberReadBack(tag: Tag, s: seq<Byte>)
    requires IsNumber(tag) && NumberRead(tag, s).0.Ok?
    ensures var (r, rest) := NumberRead(tag, s);
            r.value < Limit(tag) && s == [Code(tag)] + ToLittleEndian(r.value, Width(tag)) + rest
  {
    var bytes := s[1..][..Width(tag)];
    LimitIsPower(tag);
    ToFromLittleEndian(bytes);
    assert s == [s[0]] + bytes + s[1..][Width(tag)..];
  }

  lemma BlockReadBack(s: seq<Byte>)
    requires BlockRead(s).0.Ok?
    ensures var (r, rest) := BlockRead(s); |r.value| < 256 && s == [Code(Bytes), |r.value|] + r.value + rest
  {
    var size := s[1];
    assert s[1..][1..] == s[1..][1..][..size] + s[1..][1..][size..];
    assert s == [s[0], s[1]] + s[1..][1..];
  }

  /** The number of array sizes depends on the shape alone. */
  lemma {:induction false} DecodeSizes(shapes: seq<Shape>, s: seq<Byte>)
    requires Readable(shapes) && Decode(shapes, s).Ok?
    ensures var d := Decode(shapes, s).value; |d.sizes| == |Sizes(d.items)|
    decreases shapes, 1
  {
    if shapes != [] {
      DecodeOneSizes(shapes, s);
      var first := DecodeOne(shapes[0], s).value;
      var more := Decode(shapes[1..], first.rest).value;
      DecodeSizes(shapes[1..], first.rest);
      FirstSizes(first.items + more.items);
      assert first.items == [first.items[0]] && (first.items + more.items)[1..] == more.items;
    }
  }

  lemma {:induction false} DecodeOneSizes(shapes: seq<Shape>, s: seq<Byte>)
    requires shapes != [] && Readable(shapes) && DecodeOne(shapes[0], s).Ok?
    ensures var d := DecodeOne(shapes[0], s).value; |d.items| == 1 && |d.sizes| == |Sizes(d.items)|
    decreases shapes, 0
  {
    var d := DecodeOne(shapes[0], s).value;
    assert d.items[1..] == [];
    if shapes[0].OneStruct? {
      DecodeSizes(shapes[0].inner, ArrayRead(s).1);
    }
  }

  /** Whatever decodes with the right array sizes is the encoding of what it decodes to. */
  lemma {:induction false} DecodedIsEncoding(shapes: seq<Shape>, s: seq<Byte>)
    requires Readable(shapes) && Decode(shapes, s).Ok?
    requires var d := Decode(shapes, s).value; d.sizes == Sizes(d.items)
    ensures var d := Decode(shapes, s).value;
            Fits(d.items) && Shapes(d.items) == shapes && s == Encoding(d.items) + d.rest
    decreases shapes, 1
  {
    if shapes == [] {
      assert s == [] + s;
    } else {
      var first := DecodeOne(shapes[0], s).value;
      var more := Decode(shapes[1..], first.rest).value;
      var items := first.items + more.items;
      DecodeOneSizes(shapes, s);
      DecodeSizes(shapes[1..], first.rest);
      SplitSizes(first, more);
      DecodedOneIsEncoding(shapes, s);
      DecodedIsEncoding(shapes[1..], first.rest);
      FirstItem(items);
      FirstShape(items);
      AppendTwo(Encoding(first.items), Encoding(more.items), more.rest);
      assert [shapes[0]] + shapes[1..] == shapes;
    }
  }

  lemma SplitSizes(first: Decoded, more: Decoded)
    requires |first.items| == 1 && |first.sizes| == |Sizes(first.items)|
    requires first.sizes + more.sizes == Sizes(first.items + more.items)
    ensures first.sizes == Sizes(first.items) && more.sizes == Sizes(more.items)
    ensures first.items == [(first.items + more.items)[0]] && more.items == (first.items + more.items)[1..]
  {
    var sizes := first.sizes + more.sizes;
    assert first.items == [(first.items + more.items)[0]];
    FirstSizes(first.items + more.items);
    assert first.sizes == sizes[..|first.sizes|] && more.sizes == sizes[|first.sizes|..];
  }

  lemma FirstShape(items: seq<Item>)
    requires items != []
    ensures Shapes(items) == Shapes([items[0]]) + Shapes(items[1..])
  {
    assert [items[0]][1..] == [];
  }

  lemma DecodedNumber(tag: Tag, s: seq<Byte>)
    requires IsNumber(tag) && NumberRead(tag, s).0.Ok?
    ensures var (r, rest) := NumberRead(tag, s);
            var items := [Number(tag, r.value)];
            Fits(items) && Shapes(items) == [OneNumber(tag)] && s == Encoding(items) + rest
  {
    var items := [Number(tag, NumberRead(tag, s).0.value)];
    assert items[1..] == [];
    NumberReadBack(tag, s);
    NumberAlone(tag, items[0].value);
  }

  lemma DecodedBlock(s: seq<Byte>)
    requires BlockRead(s).0.Ok?
    ensures var (r, rest) := BlockRead(s);
            var items := [Block(r.value)];
            Fits(items) && Shapes(items) == [OneBlock] && s == Encoding(items) + rest
  {
    var items := [Block(BlockRead(s).0.value)];
    assert items[1..] == [];
    BlockReadBack(s);
    BlockAlone(items[0].bs);
  }

  lemma {:induction false} DecodedOneIsEncoding(shapes: seq<Shape>, s: seq<Byte>)
    requires shapes != [] && Readable(shapes) && DecodeOne(shapes[0], s).Ok?
    requires var d := DecodeOne(shapes[0], s).value; d.sizes == Sizes(d.items)
    ensures var d := DecodeOne(shapes[0], s).value;
            Fits(d.items) && Shapes(d.items) == [shapes[0]] && s == Encoding(d.items) + d.rest
    decreases shapes, 0
  {
    match shapes[0]
    case OneNumber(tag) =>
      DecodedNumber(tag, s);
    case OneBlock =>
      DecodedBlock(s);
    case OneStruct(inner) =>
      var (size, rest) := ArrayRead(s);
      var nested := Decode(inner, rest).value;
      SizesStruct(nested.items, size.value, nested.sizes);
      DecodedIsEncoding(inner, rest);
      DecodedStruct(nested, s);
  }

  lemma DecodedStruct(nested: Decoded, s: seq<Byte>)
    requires ArrayRead(s).0 == Ok(Count(nested.items)) && Fits(nested.items)
    requires ArrayRead(s).1 == Encoding(nested.items) + nested.rest
    ensures var items := [Struct(nested.items)];
            Fits(items) && Shapes(items) == [OneStruct(Shapes(nested.items))] && s == Encoding(items) + nested.rest
  {
    assert s == [s[0], s[1]] + ArrayRead(s).1;
    EncodingStruct(nested.items);
  }

  lemma SizesStruct(inner: seq<Item>, count: nat, sizes: seq<nat>)
    requires [count] + sizes == Sizes([Struct(inner)])
    ensures count == Count(inner) && sizes == Sizes(inner)
  {
    assert [Struct(inner)][1..] == [];
    assert Sizes([Struct(inner)]) == [Count(inner)] + Sizes(inner);
    assert ([count] + sizes)[1..] == sizes && ([Count(inner)] + Sizes(inner))[1..] == Sizes(inner);
    assert ([count] + sizes)[0] == count;
  }

  lemma EncodingStruct(inner: seq<Item>)
    requires Fits(inner) && Count(inner) < 256
    ensures var items := [Struct(inner)];
            Fits(items) && Shapes(items) == [OneStruct(Shapes(inner))]
            && Encoding(items) == [Code(Array), Count(inner)] + Encoding(inner)
  {
    StructAlone(inner);
    assert [Struct(inner)][1..] == [];
  }

  /** Decoding inverts encoding and nothing else. */
  lemma DecodesExactly(shapes: seq<Shape>, s: seq<Byte>, d: Decoded)
    requires Readable(shapes) && d.sizes == Sizes(d.items)
    ensures Decode(shapes, s) == Ok(d)
            <==> Fits(d.items) && Shapes(d.items) == shapes && s == Encoding(d.items) + d.rest
  {
    if Decode(shapes, s) == Ok(d) {
      DecodedIsEncoding(shapes, s);
    }
    if Fits(d.items) && Shapes(d.items) == shapes && s == Encoding(d.items) + d.rest {
      DecodeEncoding(d.items, d.rest);
    }
  }

  /** Reading a whole message: the calls of a shape, and then the end. */
  function DecodeWhole(shapes: seq<Shape>, s: seq<Byte>): Result<Decoded, Failure>
    requires Readable(shapes)
  {
    var d := Decode(shapes, s);
    if d.Err? then d
    else if Ended(d.value.rest).Err? then Err(Ended(d.value.rest).error)
    else d
  }

  /** A message read to its end, with every array of the size announced, is the encoding of
      exactly the items read. Bytes after an encoding are reported with their number. */
  lemma WholeExactly(shapes: seq<Shape>, s: seq<Byte>, items: seq<Item>)
    requires Readable(shapes)
    ensures DecodeWhole(shapes, s) == Ok(Decoded(items, Sizes(items), []))
            <==> Fits(items) && Shapes(items) == shapes && s == Encoding(items)
    ensures forall tail :: Fits(items) && Shapes(items) == shapes && tail != [] && s == Encoding(items) + tail ==>
              DecodeWhole(shapes, s) == Err(Failed(StreamPending(|tail|)))
  {
    DecodesExactly(shapes, s, Decoded(items, Sizes(items), []));
    if Fits(items) {
      assert Encoding(items) + [] == Encoding(items);
    }
    forall tail | Fits(items) && Shapes(items) == shapes && tail != [] && s == Encoding(items) + tail
      ensures DecodeWhole(shapes, s) == Err(Failed(StreamPending(|tail|)))
    {
      DecodeEncoding(items, tail);
    }
  }

  /** No encoding is a proper prefix of another one of its shape, and none encodes two messages. */
  lemma EncodingIsPrefixFree(a: seq<Item>, b: seq<Item>, tail: seq<Byte>)
    requires Fits(a) && Fits(b) && Shapes(a) == Shapes(b) && Encoding(a) + tail == Encoding(b)
    ensures a == b && tail == []
  {
    DecodeEncoding(a, tail);
    DecodeEncoding(b, []);
    assert Encoding(b) + [] == Encoding(b);
  }
}
