/** A definite-length CBOR encoder in shortest form, and the well-formedness
    scan of RFC 8949 (sections 3 and 4.2.1, appendix C). */
module Cbor {
  import opened Fips180
  import opened DigestTypes
  import opened ByteNumbers

  const TWO_8: nat := 0x100
  const TWO_16: nat := 0x1_0000
  const TWO_32: nat := 0x1_0000_0000

  // ---------- Heads ----------

  /** Major type and argument, with the argument in the fewest bytes. */
  function EncodeHead(major: nat, value: nat): (r: seq<Byte>)
    requires major < 8 && value < TWO_64
    ensures |r| == HeadLength(value)
  {
    if value < 24 then [ToByte(32 * major + value)]
    else if value < TWO_8 then [ToByte(32 * major + 24)] + BigEndian(value, 1)
    else if value < TWO_16 then [ToByte(32 * major + 25)] + BigEndian(value, 2)
    else if value < TWO_32 then [ToByte(32 * major + 26)] + BigEndian(value, 4)
    else [ToByte(32 * major + 27)] + BigEndian(value, 8)
  }

  function HeadLength(value: nat): nat {
    if value < 24 then 1 else if value < TWO_8 then 2 else if value < TWO_16 then 3 else if value < TWO_32 then 5 else 9
  }

  /** Additional information 31 means indefinite length; it carries no argument. */
  datatype Head = Head(major: nat, info: nat, value: nat, length: nat)

  /** Bytes of argument that follow the initial byte. */
  function ArgumentLength(info: nat): nat {
    match info
    case 24 => 1
    case 25 => 2
    case 26 => 4
    case 27 => 8
    case _ => 0
  }

  function DecodeHead(b: seq<Byte>): (r: Option<Head>)
    ensures r.Some? ==> 1 <= r.value.length <= |b| && r.value.major < 8
  {
    if |b| == 0 then None
    else
      var major, info := ToNat(b[0]) / 32, ToNat(b[0]) % 32;
      var n := ArgumentLength(info);
      if 28 <= info <= 30 || 1 + n > |b| then None
      else Some(Head(major, info, if info < 24 then info else FromBigEndian(b[1..1 + n]), 1 + n))
  }

  lemma Powers()
    ensures Pow256(0) == 1 && Pow256(1) == TWO_8 && Pow256(2) == TWO_16 && Pow256(4) == TWO_32 && Pow256(8) == TWO_64
  {
    assert Pow256(3) == 0x100_0000 && Pow256(5) == 0x100_0000_0000;
    assert Pow256(6) == 0x1_0000_0000_0000 && Pow256(7) == 0x100_0000_0000_0000;
  }

  lemma HeadRoundTrip(major: nat, value: nat, rest: seq<Byte>)
    requires major < 8 && value < TWO_64
    ensures var h := DecodeHead(EncodeHead(major, value) + rest);
      && h.Some? && h.value.major == major && h.value.value == value && h.value.info != 31
      && h.value.length == |EncodeHead(major, value)|
      && (value < 24 ==> h.value.info == value)
  {
    hide ToByte, ToNat, Pow256, FromBigEndian, BigEndian, DecodeHead;
    Powers();
    if value < 24 {
      ShortHead(major, value, rest);
    } else if value < TWO_8 {
      LongHead(major, 24, value, 1, rest);
    } else if value < TWO_16 {
      LongHead(major, 25, value, 2, rest);
    } else if value < TWO_32 {
      LongHead(major, 26, value, 4, rest);
    } else {
      LongHead(major, 27, value, 8, rest);
    }
  }

  lemma ShortHead(major: nat, value: nat, rest: seq<Byte>)
    requires major < 8 && value < 24
    ensures DecodeHead([ToByte(32 * major + value)] + rest) == Some(Head(major, value, value, 1))
  {
    hide ToByte, ToNat, FromBigEndian;
    assert ([ToByte(32 * major + value)] + rest)[0] == ToByte(32 * major + value);
  }

  lemma {:induction false} LongHead(major: nat, info: nat, value: nat, n: nat, rest: seq<Byte>)
    requires major < 8 && 24 <= info <= 27 && ArgumentLength(info) == n && value < Pow256(n)
    ensures DecodeHead([ToByte(32 * major + info)] + BigEndian(value, n) + rest)
        == Some(Head(major, info, value, 1 + n))
  {
    hide ToByte, ToNat, Pow256, FromBigEndian, BigEndian;
    var b := [ToByte(32 * major + info)] + BigEndian(value, n) + rest;
    BigEndianRoundTrip(value, n);
    assert b[1..1 + n] == BigEndian(value, n);
    assert b[0] == ToByte(32 * major + info);
  }

  /** No head with the same argument is shorter. */
  lemma HeadIsShortest(b: seq<Byte>)
    requires DecodeHead(b).Some? && DecodeHead(b).value.info != 31
    ensures var h := DecodeHead(b).value;
      h.value < TWO_64 && HeadLength(h.value) <= h.length
  {
    var n := ArgumentLength(ToNat(b[0]) % 32);
    hide ToByte, ToNat, Pow256, FromBigEndian;
    Powers();
    FromBigEndianBound(b[1..1 + n]);
  }

  lemma DecodeHeadPrefix(b: seq<Byte>, rest: seq<Byte>)
    requires DecodeHead(b).Some?
    ensures DecodeHead(b + rest) == DecodeHead(b)
  {
    var n := ArgumentLength(ToNat(b[0]) % 32);
    assert (b + rest)[1..1 + n] == b[1..1 + n];
  }

  // ---------- Well-formedness (appendix C of RFC 8949) ----------

  const BREAK: Byte := 0xff

  /** Section 3.3 of RFC 8949 forbids two-byte simple values below 32; the
      decoder this library uses reads them. */
  datatype Rules = Rfc8949 | Lenient

  /** The length of the well-formed item `b` starts with. */
  function Skip(rules: Rules, b: seq<Byte>): (r: Option<nat>)
    ensures r.Some? ==> 1 <= r.value <= |b|
    decreases |b|, 0
  {
    var head := DecodeHead(b);
    if head.None? then None
    else
      var h := head.value;
      var rest := b[h.length..];
      var body :=
        match h.major
        case 0 => if h.info == 31 then None else Some(0)
        case 1 => if h.info == 31 then None else Some(0)
        case 2 => if h.info == 31 then SkipChunks(rest, 2) else if h.value <= |rest| then Some(h.value) else None
        case 3 => if h.info == 31 then SkipChunks(rest, 3) else if h.value <= |rest| then Some(h.value) else None
        case 4 => if h.info == 31 then SkipUntilBreak(rules, rest, 1) else SkipMany(rules, rest, h.value)
        case 5 => if h.info == 31 then SkipUntilBreak(rules, rest, 2) else SkipMany(rules, rest, 2 * h.value)
        case 6 => if h.info == 31 then None else Skip(rules, rest)
        case _ => if h.info == 31 || (rules == Rfc8949 && h.info == 24 && h.value < 32) then None else Some(0);
      if body.None? then None else Some(h.length + body.value)
  }

  /** `n` items in a row. */
  function SkipMany(rules: Rules, b: seq<Byte>, n: nat): (r: Option<nat>)
    ensures r.Some? ==> r.value <= |b|
    decreases |b|, 1, n
  {
    if n == 0 then Some(0)
    else
      var first := Skip(rules, b);
      if first.None? then None
      else
        var others := SkipMany(rules, b[first.value..], n - 1);
        if others.None? then None else Some(first.value + others.value)
  }

  /** Groups of `step` items up to a break byte. */
  function SkipUntilBreak(rules: Rules, b: seq<Byte>, step: nat): (r: Option<nat>)
    requires step > 0
    ensures r.Some? ==> r.value <= |b|
    decreases |b|, 2
  {
    if |b| == 0 then None
    else if b[0] == BREAK then Some(1)
    else
      var group := SkipMany(rules, b, step);
      if group.None? || group.value == 0 then None
      else
        var others := SkipUntilBreak(rules, b[group.value..], step);
        if others.None? then None else Some(group.value + others.value)
  }

  /** Definite-length strings of one major type up to a break byte. */
  function SkipChunks(b: seq<Byte>, major: nat): (r: Option<nat>)
    ensures r.Some? ==> r.value <= |b|
    decreases |b|
  {
    if |b| == 0 then None
    else if b[0] == BREAK then Some(1)
    else
      var head := DecodeHead(b);
      if head.None? || head.value.major != major || head.value.info == 31
         || head.value.length + head.value.value > |b| then None
      else
        var used := head.value.length + head.value.value;
        var others := SkipChunks(b[used..], major);
        if others.None? then None else Some(used + others.value)
  }

  /** Whether `b` is exactly one well-formed item. */
  predicate IsItem(rules: Rules, b: seq<Byte>) {
    Skip(rules, b) == Some(|b|)
  }

  // ---------- What follows an item does not change how it is read ----------

  lemma {:induction false} SkipPrefix(rules: Rules, b: seq<Byte>, rest: seq<Byte>)
    requires Skip(rules, b).Some?
    ensures Skip(rules, b + rest) == Skip(rules, b)
    decreases |b|, 0
  {
    hide DecodeHead, SkipMany, SkipUntilBreak, SkipChunks;
    DecodeHeadPrefix(b, rest);
    var h := DecodeHead(b).value;
    var body := b[h.length..];
    assert (b + rest)[h.length..] == body + rest;
    if h.info == 31 {
      match h.major
      case 2 => SkipChunksPrefix(body, 2, rest);
      case 3 => SkipChunksPrefix(body, 3, rest);
      case 4 => SkipUntilBreakPrefix(rules, body, 1, rest);
      case 5 => SkipUntilBreakPrefix(rules, body, 2, rest);
      case _ =>
    } else {
      match h.major
      case 4 => SkipManyPrefix(rules, body, h.value, rest);
      case 5 => SkipManyPrefix(rules, body, 2 * h.value, rest);
      case 6 => SkipPrefix(rules, body, rest);
      case _ =>
    }
  }

  lemma {:induction false} SkipManyPrefix(rules: Rules, b: seq<Byte>, n: nat, rest: seq<Byte>)
    requires SkipMany(rules, b, n).Some?
    ensures SkipMany(rules, b + rest, n) == SkipMany(rules, b, n)
    decreases |b|, 1, n
  {
    hide Skip;
    if n > 0 {
      SkipPrefix(rules, b, rest);
      var k := Skip(rules, b).value;
      assert (b + rest)[k..] == b[k..] + rest;
      SkipManyPrefix(rules, b[k..], n - 1, rest);
    }
  }

  lemma {:induction false} SkipUntilBreakPrefix(rules: Rules, b: seq<Byte>, step: nat, rest: seq<Byte>)
    requires step > 0 && SkipUntilBreak(rules, b, step).Some?
    ensures SkipUntilBreak(rules, b + rest, step) == SkipUntilBreak(rules, b, step)
    decreases |b|, 2
  {
    hide SkipMany, Skip;
    if b[0] != BREAK {
      SkipManyPrefix(rules, b, step, rest);
      var k := SkipMany(rules, b, step).value;
      assert (b + rest)[k..] == b[k..] + rest;
      SkipUntilBreakPrefix(rules, b[k..], step, rest);
    }
  }

  lemma {:induction false} SkipChunksPrefix(b: seq<Byte>, major: nat, rest: seq<Byte>)
    requires SkipChunks(b, major).Some?
    ensures SkipChunks(b + rest, major) == SkipChunks(b, major)
    decreases |b|
  {
    hide DecodeHead;
    if b[0] != BREAK {
      DecodeHeadPrefix(b, rest);
      var k := DecodeHead(b).value.length + DecodeHead(b).value.value;
      assert (b + rest)[k..] == b[k..] + rest;
      SkipChunksPrefix(b[k..], major, rest);
    }
  }

  // ---------- An item is read without looking past it ----------

  lemma DecodeHeadCut(b: seq<Byte>, n: nat)
    requires DecodeHead(b).Some? && DecodeHead(b).value.length <= n <= |b|
    ensures DecodeHead(b[..n]) == DecodeHead(b)
  {
    hide ToNat, FromBigEndian;
    var k := ArgumentLength(ToNat(b[0]) % 32);
    assert b[..n][1..1 + k] == b[1..1 + k];
  }

  lemma {:induction false} SkipCut(rules: Rules, b: seq<Byte>, n: nat)
    requires Skip(rules, b).Some? && Skip(rules, b).value <= n <= |b|
    ensures Skip(rules, b[..n]) == Skip(rules, b)
    decreases |b|, 0
  {
    hide DecodeHead, SkipMany, SkipUntilBreak, SkipChunks;
    DecodeHeadCut(b, n);
    var h := DecodeHead(b).value;
    var body, m := b[h.length..], n - h.length;
    assert b[..n][h.length..] == body[..m];
    if h.info == 31 {
      match h.major
      case 2 => SkipChunksCut(body, 2, m);
      case 3 => SkipChunksCut(body, 3, m);
      case 4 => SkipUntilBreakCut(rules, body, 1, m);
      case 5 => SkipUntilBreakCut(rules, body, 2, m);
      case _ =>
    } else {
      match h.major
      case 4 => SkipManyCut(rules, body, h.value, m);
      case 5 => SkipManyCut(rules, body, 2 * h.value, m);
      case 6 => SkipCut(rules, body, m);
      case _ =>
    }
  }

  lemma {:induction false} SkipManyCut(rules: Rules, b: seq<Byte>, count: nat, n: nat)
    requires SkipMany(rules, b, count).Some? && SkipMany(rules, b, count).value <= n <= |b|
    ensures SkipMany(rules, b[..n], count) == SkipMany(rules, b, count)
    decreases |b|, 1, count
  {
    hide Skip;
    if count > 0 {
      SkipCut(rules, b, n);
      var k := Skip(rules, b).value;
      assert b[..n][k..] == b[k..][..n - k];
      SkipManyCut(rules, b[k..], count - 1, n - k);
    }
  }

  lemma {:induction false} SkipUntilBreakCut(rules: Rules, b: seq<Byte>, step: nat, n: nat)
    requires step > 0 && SkipUntilBreak(rules, b, step).Some? && SkipUntilBreak(rules, b, step).value <= n <= |b|
    ensures SkipUntilBreak(rules, b[..n], step) == SkipUntilBreak(rules, b, step)
    decreases |b|, 2
  {
    hide SkipMany, Skip;
    if b[0] != BREAK {
      var k := SkipMany(rules, b, step).value;
      SkipManyCut(rules, b, step, n);
      assert b[..n][k..] == b[k..][..n - k];
      SkipUntilBreakCut(rules, b[k..], step, n - k);
    }
  }

  lemma {:induction false} SkipChunksCut(b: seq<Byte>, major: nat, n: nat)
    requires SkipChunks(b, major).Some? && SkipChunks(b, major).value <= n <= |b|
    ensures SkipChunks(b[..n], major) == SkipChunks(b, major)
    decreases |b|
  {
    hide DecodeHead;
    if b[0] != BREAK {
      var k := DecodeHead(b).value.length + DecodeHead(b).value.value;
      DecodeHeadCut(b, n);
      assert b[..n][k..] == b[k..][..n - k];
      SkipChunksCut(b[k..], major, n - k);
    }
  }

  /** The first bytes of `b` are its leading item exactly when they are an item. */
  lemma {:induction false} LeadingItem(rules: Rules, item: seq<Byte>, rest: seq<Byte>)
    ensures Skip(rules, item + rest) == Some(|item|) <==> IsItem(rules, item)
  {
    if IsItem(rules, item) {
      SkipPrefix(rules, item, rest);
    }
    if Skip(rules, item + rest) == Some(|item|) {
      SkipCut(rules, item + rest, |item|);
      assert (item + rest)[..|item|] == item;
    }
    hide Skip;
  }

  // ---------- The encoder ----------

  datatype Item =
    | Unsigned(n: nat)
    | Negative(n: nat)
    | Bytes(bytes: seq<Byte>)
    | Text(utf8: seq<Byte>)
    | Array(items: seq<Item>)
    | Map(entries: seq<Item>)
    | Tag(tag: nat, content: Item)
    | Simple(n: nat)

  /** Sizes and numbers that fit CBOR's 64-bit arguments; a map has as many
      values as keys; simple values below 24 are false, true, null, undefined. */
  predicate Encodable(item: Item) {
    match item
    case Unsigned(n) => n < TWO_64
    case Negative(n) => n < TWO_64
    case Bytes(bytes) => |bytes| < TWO_64
    case Text(utf8) => |utf8| < TWO_64
    case Array(items) => |items| < TWO_64 && forall i :: 0 <= i < |items| ==> Encodable(items[i])
    case Map(entries) =>
      |entries| < TWO_64 && |entries| % 2 == 0 && forall i :: 0 <= i < |entries| ==> Encodable(entries[i])
    case Tag(tag, content) => tag < TWO_64 && Encodable(content)
    case Simple(n) => n < 24
  }

  function Encode(item: Item): seq<Byte>
    requires Encodable(item)
    decreases item, 0
  {
    match item
    case Unsigned(n) => EncodeHead(0, n)
    case Negative(n) => EncodeHead(1, n)
    case Bytes(bytes) => EncodeHead(2, |bytes|) + bytes
    case Text(utf8) => EncodeHead(3, |utf8|) + utf8
    case Array(items) => EncodeHead(4, |items|) + EncodeAll(items)
    case Map(entries) => EncodeHead(5, |entries| / 2) + EncodeAll(entries)
    case Tag(tag, content) => EncodeHead(6, tag) + Encode(content)
    case Simple(n) => EncodeHead(7, n)
  }

  function EncodeAll(items: seq<Item>): seq<Byte>
    requires forall i :: 0 <= i < |items| ==> Encodable(items[i])
    decreases items, 1
  {
    if |items| == 0 then [] else Encode(items[0]) + EncodeAll(items[1..])
  }

  /** A head and the items it announces. */
  lemma {:induction false} HeadThenItems(rules: Rules, major: nat, value: nat, body: seq<Byte>, n: nat)
    requires (major == 4 && n == value) || (major == 5 && n == 2 * value)
    requires value < TWO_64 && SkipMany(rules, body, n) == Some(|body|)
    ensures IsItem(rules, EncodeHead(major, value) + body)
  {
    hide EncodeHead, DecodeHead;
    HeadRoundTrip(major, value, body);
    BodyAfterHead(major, value, body);
  }

  lemma HeadThenString(rules: Rules, major: nat, body: seq<Byte>)
    requires (major == 2 || major == 3) && |body| < TWO_64
    ensures IsItem(rules, EncodeHead(major, |body|) + body)
  {
    hide EncodeHead, DecodeHead;
    HeadRoundTrip(major, |body|, body);
    BodyAfterHead(major, |body|, body);
  }

  lemma HeadAlone(rules: Rules, major: nat, value: nat)
    requires (major < 2 && value < TWO_64) || (major == 7 && value < 24)
    ensures IsItem(rules, EncodeHead(major, value))
  {
    hide EncodeHead, DecodeHead;
    HeadRoundTrip(major, value, []);
    assert EncodeHead(major, value) + [] == EncodeHead(major, value);
  }

  lemma HeadThenTagged(rules: Rules, tag: nat, body: seq<Byte>)
    requires tag < TWO_64 && IsItem(rules, body)
    ensures IsItem(rules, EncodeHead(6, tag) + body)
  {
    hide EncodeHead, DecodeHead;
    HeadRoundTrip(6, tag, body);
    BodyAfterHead(6, tag, body);
  }

  /** Everything the encoder writes is one well-formed item. */
  lemma {:induction false} EncodeIsItem(rules: Rules, item: Item)
    requires Encodable(item)
    ensures IsItem(rules, Encode(item))
    decreases item, 0
  {
    hide IsItem, EncodeHead;
    match item
    case Unsigned(n) => HeadAlone(rules, 0, n);
    case Negative(n) => HeadAlone(rules, 1, n);
    case Bytes(bytes) => HeadThenString(rules, 2, bytes);
    case Text(utf8) => HeadThenString(rules, 3, utf8);
    case Array(items) =>
      EncodeAllIsItems(rules, items);
      HeadThenItems(rules, 4, |items|, EncodeAll(items), |items|);
    case Map(entries) =>
      EncodeAllIsItems(rules, entries);
      HeadThenItems(rules, 5, |entries| / 2, EncodeAll(entries), |entries|);
    case Tag(tag, content) =>
      EncodeIsItem(rules, content);
      HeadThenTagged(rules, tag, Encode(content));
    case Simple(n) => HeadAlone(rules, 7, n);
  }

  lemma BodyAfterHead(major: nat, value: nat, body: seq<Byte>)
    requires major < 8 && value < TWO_64
    ensures (EncodeHead(major, value) + body)[|EncodeHead(major, value)|..] == body
  {
  }

  lemma {:induction false} EncodeAllIsItems(rules: Rules, items: seq<Item>)
    requires forall i :: 0 <= i < |items| ==> Encodable(items[i])
    ensures SkipMany(rules, EncodeAll(items), |items|) == Some(|EncodeAll(items)|)
    decreases items, 1
  {
    hide Skip, Encode;
    if |items| > 0 {
      var first, others := Encode(items[0]), EncodeAll(items[1..]);
      EncodeIsItem(rules, items[0]);
      SkipPrefix(rules, first, others);
      EncodeAllIsItems(rules, items[1..]);
      assert (first + others)[|first|..] == others;
    }
  }

  /** The raw bytes of `n` items in a row, when they take up all of `b`. */
  function SplitItems(rules: Rules, b: seq<Byte>, n: nat): Option<seq<seq<Byte>>> {
    if n == 0 then (if |b| == 0 then Some([]) else None)
    else
      var first := Skip(rules, b);
      if first.None? then None
      else
        var others := SplitItems(rules, b[first.value..], n - 1);
        if others.None? then None else Some([b[..first.value]] + others.value)
  }

  lemma SplitOne(rules: Rules, item: seq<Byte>, rest: seq<Byte>, n: nat)
    requires IsItem(rules, item)
    ensures SplitItems(rules, item + rest, n + 1)
         == var others := SplitItems(rules, rest, n); if others.None? then None else Some([item] + others.value)
  {
    SkipPrefix(rules, item, rest);
    assert (item + rest)[|item|..] == rest && (item + rest)[..|item|] == item;
  }

  // ---------- Reading items back ----------

  /** The item `b` starts with, of definite length and with one-byte simple
      values, and how many bytes it takes. */
  function Decode(b: seq<Byte>): (r: Option<(Item, nat)>)
    ensures r.Some? ==> 1 <= r.value.1 <= |b|
    decreases |b|, 0
  {
    var head := DecodeHead(b);
    if head.None? || head.value.info == 31 then None
    else
      var h := head.value;
      var rest := b[h.length..];
      match h.major
      case 0 => Some((Unsigned(h.value), h.length))
      case 1 => Some((Negative(h.value), h.length))
      case 2 => if h.value <= |rest| then Some((Bytes(rest[..h.value]), h.length + h.value)) else None
      case 3 => if h.value <= |rest| then Some((Text(rest[..h.value]), h.length + h.value)) else None
      case 4 =>
        var items := DecodeMany(rest, h.value);
        if items.None? then None else Some((Array(items.value.0), h.length + items.value.1))
      case 5 =>
        var entries := DecodeMany(rest, 2 * h.value);
        if entries.None? then None else Some((Map(entries.value.0), h.length + entries.value.1))
      case 6 =>
        var content := Decode(rest);
        if content.None? then None else Some((Tag(h.value, content.value.0), h.length + content.value.1))
      case _ => if h.info < 24 then Some((Simple(h.value), h.length)) else None
  }

  function DecodeMany(b: seq<Byte>, n: nat): (r: Option<(seq<Item>, nat)>)
    ensures r.Some? ==> |r.value.0| == n && r.value.1 <= |b|
    decreases |b|, 1, n
  {
    if n == 0 then Some(([], 0))
    else
      var first := Decode(b);
      if first.None? then None
      else
        var others := DecodeMany(b[first.value.1..], n - 1);
        if others.None? then None else Some(([first.value.0] + others.value.0, first.value.1 + others.value.1))
  }

  /** Reading an item takes exactly the bytes the well-formedness scan skips. */
  lemma {:induction false} DecodeSkips(rules: Rules, b: seq<Byte>)
    requires Decode(b).Some?
    ensures Skip(rules, b) == Some(Decode(b).value.1)
    decreases |b|, 0
  {
    hide DecodeHead, DecodeMany, SkipMany, SkipUntilBreak, SkipChunks;
    var h := DecodeHead(b).value;
    var rest := b[h.length..];
    match h.major
    case 4 => DecodeManySkips(rules, rest, h.value);
    case 5 => DecodeManySkips(rules, rest, 2 * h.value);
    case 6 => DecodeSkips(rules, rest);
    case _ =>
  }

  lemma {:induction false} DecodeManySkips(rules: Rules, b: seq<Byte>, n: nat)
    requires DecodeMany(b, n).Some?
    ensures SkipMany(rules, b, n) == Some(DecodeMany(b, n).value.1)
    decreases |b|, 1, n
  {
    hide Decode, Skip;
    if n > 0 {
      DecodeSkips(rules, b);
      DecodeManySkips(rules, b[Decode(b).value.1..], n - 1);
    }
  }

  /** What the encoder writes reads back as the same item, whatever follows. */
  lemma {:induction false} EncodeRoundTrip(item: Item, rest: seq<Byte>)
    requires Encodable(item)
    ensures Decode(Encode(item) + rest) == Some((item, |Encode(item)|))
    decreases item, 0
  {
    hide Decode, DecodeMany, EncodeHead;
    match item
    case Array(items) =>
      EncodeAllRoundTrip(items, rest);
      ItemsRoundTrip(item, rest);
    case Map(entries) =>
      EncodeAllRoundTrip(entries, rest);
      ItemsRoundTrip(item, rest);
    case Tag(tag, content) =>
      EncodeRoundTrip(content, rest);
      TagRoundTrip(item, rest);
    case _ => FlatRoundTrip(item, rest);
  }

  lemma {:induction false} FlatRoundTrip(item: Item, rest: seq<Byte>)
    requires Encodable(item) && !item.Array? && !item.Map? && !item.Tag?
    ensures Decode(Encode(item) + rest) == Some((item, |Encode(item)|))
  {
    hide EncodeHead, DecodeHead, DecodeMany;
    match item
    case Unsigned(n) => HeadRoundTrip(0, n, rest);
    case Negative(n) => HeadRoundTrip(1, n, rest);
    case Bytes(bytes) => AfterHead(2, |bytes|, bytes, rest);
    case Text(utf8) => AfterHead(3, |utf8|, utf8, rest);
    case Simple(n) => HeadRoundTrip(7, n, rest);
  }

  lemma {:induction false} ItemsRoundTrip(item: Item, rest: seq<Byte>)
    requires Encodable(item) && (item.Array? || item.Map?)
    requires var items := if item.Array? then item.items else item.entries;
      DecodeMany(EncodeAll(items) + rest, |items|) == Some((items, |EncodeAll(items)|))
    ensures Decode(Encode(item) + rest) == Some((item, |Encode(item)|))
  {
    hide EncodeHead, DecodeHead, DecodeMany, EncodeAll;
    if item.Array? {
      AfterHead(4, |item.items|, EncodeAll(item.items), rest);
    } else {
      AfterHead(5, |item.entries| / 2, EncodeAll(item.entries), rest);
    }
  }

  lemma {:induction false} TagRoundTrip(item: Item, rest: seq<Byte>)
    requires Encodable(item) && item.Tag?
    requires Decode(Encode(item.content) + rest) == Some((item.content, |Encode(item.content)|))
    ensures Decode(Encode(item) + rest) == Some((item, |Encode(item)|))
  {
    hide EncodeHead, DecodeHead, DecodeMany;
    AfterHead(6, item.tag, Encode(item.content), rest);
  }

  lemma AfterHead(major: nat, value: nat, body: seq<Byte>, rest: seq<Byte>)
    requires major < 8 && value < TWO_64
    ensures var b := EncodeHead(major, value) + body + rest;
      && DecodeHead(b).Some?
      && var h := DecodeHead(b).value;
         && h.major == major && h.value == value && h.info != 31 && h.length == |EncodeHead(major, value)|
         && b[h.length..] == body + rest && (body + rest)[..|body|] == body
  {
    hide EncodeHead, DecodeHead;
    HeadRoundTrip(major, value, body + rest);
    assert EncodeHead(major, value) + body + rest == EncodeHead(major, value) + (body + rest);
  }

  lemma {:induction false} EncodeAllRoundTrip(items: seq<Item>, rest: seq<Byte>)
    requires forall i :: 0 <= i < |items| ==> Encodable(items[i])
    ensures DecodeMany(EncodeAll(items) + rest, |items|) == Some((items, |EncodeAll(items)|))
    decreases items, 1
  {
    hide Encode, Decode;
    if |items| > 0 {
      var first, others := Encode(items[0]), EncodeAll(items[1..]);
      EncodeRoundTrip(items[0], others + rest);
      EncodeAllRoundTrip(items[1..], rest);
      assert EncodeAll(items) + rest == first + (others + rest);
      assert (first + (others + rest))[|first|..] == others + rest;
      assert items == [items[0]] + items[1..];
    }
  }

  /** The major type of each kind of item is that of section 3.1 of RFC 8949. */
  lemma {:induction false} MajorTypes(item: Item)
    requires Encodable(item)
    ensures DecodeHead(Encode(item)).Some?
    ensures DecodeHead(Encode(item)).value.major
         == match item
            case Unsigned(_) => 0
            case Negative(_) => 1
            case Bytes(_) => 2
            case Text(_) => 3
            case Array(_) => 4
            case Map(_) => 5
            case Tag(_, _) => 6
            case Simple(_) => 7
  {
    hide DecodeHead, EncodeHead;
    match item
    case Unsigned(n) => HeadOnly(0, n);
    case Negative(n) => HeadOnly(1, n);
    case Bytes(bytes) => HeadRoundTrip(2, |bytes|, bytes);
    case Text(utf8) => HeadRoundTrip(3, |utf8|, utf8);
    case Array(items) => HeadRoundTrip(4, |items|, EncodeAll(items));
    case Map(entries) => HeadRoundTrip(5, |entries| / 2, EncodeAll(entries));
    case Tag(tag, content) => HeadRoundTrip(6, tag, Encode(content));
    case Simple(n) => HeadOnly(7, n);
  }

  lemma HeadOnly(major: nat, value: nat)
    requires major < 8 && value < TWO_64
    ensures DecodeHead(EncodeHead(major, value)).Some? && DecodeHead(EncodeHead(major, value)).value.major == major
  {
    hide DecodeHead, EncodeHead;
    HeadRoundTrip(major, value, []);
    assert EncodeHead(major, value) + [] == EncodeHead(major, value);
  }

  // ---------- Encoded data items ----------

  /** A value wrapped as an encoded CBOR data item (section 3.4.5.1 of RFC 8949). */
  function Tag24(innerBytes: seq<Byte>): Item {
    Tag(24, Bytes(innerBytes))
  }

  lemma TaggedBytes(content: seq<Byte>)
    requires |content| < TWO_64
    ensures Encode(Tag24(content)) == [0xd8, 0x18] + (EncodeHead(2, |content|) + content)
  {
    hide EncodeHead;
    TagHead();
  }

  lemma TagHead()
    ensures EncodeHead(6, 24) == [0xd8, 0x18]
  {
    assert BigEndian(24, 1) == [24];
  }

  /** `b` is tag 24 over a byte string with exactly this content, and no shorter
      header could carry its length. */
  predicate IsTaggedBytes(b: seq<Byte>, content: seq<Byte>) {
    && DecodeHead(b) == Some(Head(6, 24, 24, 2))
    && (var h := DecodeHead(b[2..]);
        && h.Some? && h.value.major == 2 && h.value.info != 31 && h.value.value == |content|
        && h.value.length == HeadLength(|content|)
        && b[2 + h.value.length..] == content)
  }

  lemma TaggedBytesRead(content: seq<Byte>)
    requires |content| < TWO_64
    ensures IsTaggedBytes(Encode(Tag24(content)), content)
  {
    hide ToByte, ToNat, FromBigEndian, BigEndian, EncodeHead;
    var head, payload := EncodeHead(2, |content|), Encode(Tag24(content));
    TagHead();
    assert Encode(Bytes(content)) == head + content;
    assert payload == [0xd8, 0x18] + (head + content);
    TagHeadDecodes(payload);
    HeadRoundTrip(2, |content|, content);
    assert payload[2..] == head + content;
    assert payload[2 + |head|..] == content;
    hide DecodeHead;
  }

  lemma TagHeadDecodes(b: seq<Byte>)
    requires |b| >= 2 && b[0] == 0xd8 && b[1] == 0x18
    ensures DecodeHead(b) == Some(Head(6, 24, 24, 2))
  {
    assert b[1..2] == [0x18];
    assert FromBigEndian([]) == 0;
    assert [0x18 as Byte][..0] == [];
    assert FromBigEndian([0x18]) == 24;
  }
}
