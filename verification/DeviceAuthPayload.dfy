/** The hand-built device-authentication payload
    (src/presentation/authentication/mdoc.rs). */
module DeviceAuthPayload {
  import opened Fips180
  import opened DigestTypes
  import opened Cbor
  import opened ByteNumbers

  /** A growing byte vector. */
  class ByteVec {
    var bytes: seq<Byte>

    constructor (bytes: seq<Byte>)
      ensures this.bytes == bytes
    {
      this.bytes := bytes;
    }

    method Push(b: Byte)
      modifies this
      ensures bytes == old(bytes) + [b]
    {
      bytes := bytes + [b];
    }

    method Extend(more: seq<Byte>)
      modifies this
      ensures bytes == old(bytes) + more
    {
      bytes := bytes + more;
    }
  }

  /** The literal first bytes of the header are major type 2 with its length class. */
  lemma ShortHeader(length: nat)
    requires length <= 23
    ensures 0x40 | ToByte(length) == ToByte(32 * 2 + length)
  {
    SetBitSix(ToByte(length));
    ToByteIs(32 * 2 + length, 0x40 | ToByte(length));
  }

  lemma LongHeaders()
    ensures ToByte(32 * 2 + 24) == 0x58 && ToByte(32 * 2 + 25) == 0x59
    ensures ToByte(32 * 2 + 26) == 0x5a && ToByte(32 * 2 + 27) == 0x5b
  {
    ToByteIs(88, 0x58);
    ToByteIs(89, 0x59);
    ToByteIs(90, 0x5a);
    ToByteIs(91, 0x5b);
  }

  lemma {:induction false} OneByte(length: nat)
    requires length <= 0xff
    ensures BigEndian(length, 1) == [ToByte(length)]
  {
    hide ToByte, ToNat;
    assert BigEndian(length / 256, 0) == [];
  }

  method AppendByteStringHeader(output: ByteVec, length: nat)
    requires length < TWO_64
    modifies output
    ensures output.bytes == old(output.bytes) + EncodeHead(2, length)
  {
    hide ToByte, ToNat, BigEndian;
    LongHeaders();
    if length <= 23 {
      ShortHeader(length);
      output.Push(0x40 | ToByte(length));
    } else if length <= 0xff {
      OneByte(length);
      output.Extend([0x58, ToByte(length)]);
    } else if length <= 0xffff {
      output.Push(0x59);
      output.Extend(BigEndian(length, 2));
    } else if length <= 0xffff_ffff {
      output.Push(0x5a);
      output.Extend(BigEndian(length, 4));
    } else {
      output.Push(0x5b);
      output.Extend(BigEndian(length, 8));
    }
  }

  /** "DeviceAuthentication" in UTF-8. */
  const DEVICE_AUTHENTICATION: seq<Byte> :=
    [0x44, 0x65, 0x76, 0x69, 0x63, 0x65, 0x41, 0x75, 0x74, 0x68]
    + [0x65, 0x6e, 0x74, 0x69, 0x63, 0x61, 0x74, 0x69, 0x6f, 0x6e]

  const LABEL: Item := Text(DEVICE_AUTHENTICATION)

  lemma LabelIsAscii()
    ensures IsAscii(DEVICE_AUTHENTICATION, "DeviceAuth" + "entication")
  {
    var first, second: seq<Byte> :=
      [0x44, 0x65, 0x76, 0x69, 0x63, 0x65, 0x41, 0x75, 0x74, 0x68],
      [0x65, 0x6e, 0x74, 0x69, 0x63, 0x61, 0x74, 0x69, 0x6f, 0x6e];
    assert IsAscii(first, "DeviceAuth");
    assert IsAscii(second, "entication");
    AsciiJoins(first, second, "DeviceAuth", "entication");
  }

  lemma LabelEncodable()
    ensures Encodable(LABEL)
  {
  }

  /** The bytes inside the payload's byte string. */
  function RawContent(transcript: seq<Byte>, docType: seq<Byte>, namespaces: seq<Byte>): seq<Byte>
    requires |docType| < TWO_64 && |namespaces| < TWO_64
  {
    [0x84] + Encode(LABEL) + transcript + Encode(Text(docType)) + Encode(Tag24(namespaces))
  }

  function RawPayload(transcript: seq<Byte>, docType: seq<Byte>, namespaces: seq<Byte>): seq<Byte>
    requires |docType| < TWO_64 && |namespaces| < TWO_64
    requires |RawContent(transcript, docType, namespaces)| < TWO_64
  {
    Encode(Tag24(RawContent(transcript, docType, namespaces)))
  }

  method RawDeviceAuthenticationPayload(transcript: seq<Byte>, docType: seq<Byte>, namespaces: seq<Byte>)
    returns (payload: seq<Byte>)
    requires |docType| < TWO_64 && |namespaces| < TWO_64
    requires |RawContent(transcript, docType, namespaces)| < TWO_64
    ensures payload == RawPayload(transcript, docType, namespaces)
  {
    LabelEncodable();
    hide LABEL, Encode, EncodeHead;
    var deviceAuthentication := new ByteVec([0x84]);
    deviceAuthentication.Extend(Encode(LABEL));
    deviceAuthentication.Extend(transcript);
    deviceAuthentication.Extend(Encode(Text(docType)));
    deviceAuthentication.Extend(Encode(Tag24(namespaces)));

    var tagged := new ByteVec([0xd8, 0x18]);
    var content := deviceAuthentication.bytes;
    AppendByteStringHeader(tagged, |content|);
    tagged.Extend(content);
    payload := tagged.bytes;
    assert content == RawContent(transcript, docType, namespaces);
    TaggedBytes(content);
    assert payload == [0xd8, 0x18] + (EncodeHead(2, |content|) + content);
  }

  // ---------- What the payload says ----------

  /** What `cbor::from_slice` accepts: it reads one leading item and does not
      look at what follows. */
  predicate Accepted(rules: Rules, b: seq<Byte>) {
    Skip(rules, b).Some?
  }

  /** Reading the payload back, for any transcript bytes at all: a tag 24, a byte
      string whose header carries the true length in shortest form, and in it an
      array head for four items. Those four are the label, the transcript byte
      for byte, the document type and the namespaces exactly when no bytes follow
      the item the transcript starts with. */
  lemma {:induction false} PayloadReadsBack(rules: Rules, transcript: seq<Byte>, docType: seq<Byte>,
                                            namespaces: seq<Byte>)
    requires |docType| < TWO_64 && |namespaces| < TWO_64
    requires |RawContent(transcript, docType, namespaces)| < TWO_64
    ensures IsItem(Rfc8949, RawPayload(transcript, docType, namespaces))
    ensures IsTaggedBytes(RawPayload(transcript, docType, namespaces), RawContent(transcript, docType, namespaces))
    ensures DecodeHead(RawContent(transcript, docType, namespaces)) == Some(Head(4, 4, 4, 1))
    ensures SplitItems(rules, RawContent(transcript, docType, namespaces)[1..], 4)
         == Some([Encode(LABEL), transcript, Encode(Text(docType)), Encode(Tag24(namespaces))])
       <==> IsItem(rules, transcript)
  {
    hide RawContent, Encode, IsItem, IsTaggedBytes;
    var content := RawContent(transcript, docType, namespaces);
    EncodeIsItem(Rfc8949, Tag24(content));
    TaggedBytesRead(content);
    ContentSplits(rules, transcript, docType, namespaces);
  }

  lemma {:induction false} ContentSplits(rules: Rules, transcript: seq<Byte>, docType: seq<Byte>, namespaces: seq<Byte>)
    requires |docType| < TWO_64 && |namespaces| < TWO_64
    ensures var content := RawContent(transcript, docType, namespaces);
      && DecodeHead(content) == Some(Head(4, 4, 4, 1))
      && (SplitItems(rules, content[1..], 4)
          == Some([Encode(LABEL), transcript, Encode(Text(docType)), Encode(Tag24(namespaces))])
          <==> IsItem(rules, transcript))
  {
    LabelEncodable();
    hide LABEL, Skip, Encode, SplitItems;
    var content := RawContent(transcript, docType, namespaces);
    var a, c, d := Encode(LABEL), Encode(Text(docType)), Encode(Tag24(namespaces));
    EncodeIsItem(rules, LABEL);
    EncodeIsItem(rules, Text(docType));
    EncodeIsItem(rules, Tag24(namespaces));
    assert content[1..] == a + (transcript + (c + (d + [])));
    SplitOne(rules, a, transcript + (c + (d + [])), 3);
    SplitOne(rules, c, d + [], 1);
    SplitOne(rules, d, [], 0);
    SplitNothing(rules);
    assert [c] + ([d] + []) == [c, d];
    assert [a] + ([transcript] + [c, d]) == [a, transcript, c, d];
    if IsItem(rules, transcript) {
      SplitOne(rules, transcript, c + (d + []), 2);
    }
    var others := SplitItems(rules, transcript + (c + (d + [])), 3);
    if others.Some? && [a] + others.value == [a, transcript, c, d] {
      assert ([a] + others.value)[1] == others.value[0];
      SplitLeads(rules, transcript, c + (d + []), 2);
    }
  }

  lemma {:induction false} SplitNothing(rules: Rules)
    ensures SplitItems(rules, [], 0) == Some([])
  {
  }

  /** A piece that a split starts with is an item. */
  lemma SplitLeads(rules: Rules, item: seq<Byte>, rest: seq<Byte>, n: nat)
    requires SplitItems(rules, item + rest, n + 1).Some? && |SplitItems(rules, item + rest, n + 1).value| > 0
    requires SplitItems(rules, item + rest, n + 1).value[0] == item
    ensures IsItem(rules, item)
  {
    LeadingItem(rules, item, rest);
    hide Skip;
    var k := Skip(rules, item + rest).value;
    assert |(item + rest)[..k]| == k;
  }

  lemma SamePayloadSameContent(t1: seq<Byte>, d1: seq<Byte>, n1: seq<Byte>, t2: seq<Byte>, d2: seq<Byte>, n2: seq<Byte>)
    requires |d1| < TWO_64 && |n1| < TWO_64 && |d2| < TWO_64 && |n2| < TWO_64
    requires |RawContent(t1, d1, n1)| < TWO_64 && |RawContent(t2, d2, n2)| < TWO_64
    requires RawPayload(t1, d1, n1) == RawPayload(t2, d2, n2)
    ensures RawContent(t1, d1, n1) == RawContent(t2, d2, n2)
  {
    hide Encode, RawContent;
    Tag24Injective(RawContent(t1, d1, n1), RawContent(t2, d2, n2));
  }

  /** Of two equal payloads, one made from a transcript that is one item: the
      other was made from the same transcript, document type and namespaces
      exactly when its transcript is one item too. */
  lemma PayloadIsInjective(rules: Rules, t1: seq<Byte>, d1: seq<Byte>, n1: seq<Byte>,
                           t2: seq<Byte>, d2: seq<Byte>, n2: seq<Byte>)
    requires |d1| < TWO_64 && |n1| < TWO_64 && |d2| < TWO_64 && |n2| < TWO_64
    requires |RawContent(t1, d1, n1)| < TWO_64 && |RawContent(t2, d2, n2)| < TWO_64
    requires RawPayload(t1, d1, n1) == RawPayload(t2, d2, n2)
    requires IsItem(rules, t1)
    ensures t1 == t2 && d1 == d2 && n1 == n2 <==> IsItem(rules, t2)
  {
    hide Encode, RawContent, RawPayload, SplitItems, IsItem, DecodeHead;
    if IsItem(rules, t2) {
      LabelEncodable();
      SamePayloadSameContent(t1, d1, n1, t2, d2, n2);
      ContentSplits(rules, t1, d1, n1);
      ContentSplits(rules, t2, d2, n2);
      var s1 := [Encode(LABEL), t1, Encode(Text(d1)), Encode(Tag24(n1))];
      var s2 := [Encode(LABEL), t2, Encode(Text(d2)), Encode(Tag24(n2))];
      assert s1 == s2;
      assert s1[1] == s2[1] && s1[2] == s2[2] && s1[3] == s2[3];
      TextInjective(d1, d2);
      Tag24Injective(n1, n2);
    }
  }

  const NULL_ALONE: seq<Byte> := [0xf6]
  const NULL_AND_MORE: seq<Byte> := [0xf6, 0x60, 0xd8, 0x18, 0x46, 0xa0]
  const NAMESPACES_AND_MORE: seq<Byte> := [0xa0, 0x60, 0xd8, 0x18, 0x41, 0xa0]
  const NAMESPACES_ALONE: seq<Byte> := [0xa0]

  /** Bytes after an item are accepted, in the transcript and in the namespaces,
      and make payloads ambiguous: here null on its own, and null followed by
      five more bytes. */
  lemma TrailingBytesAreAmbiguous(rules: Rules)
    ensures IsItem(rules, NULL_ALONE) && Accepted(rules, NULL_AND_MORE) && !IsItem(rules, NULL_AND_MORE)
    ensures Accepted(rules, NAMESPACES_AND_MORE) && Accepted(rules, NAMESPACES_ALONE)
    ensures RawContent(NULL_ALONE, [], NAMESPACES_AND_MORE) == RawContent(NULL_AND_MORE, [], NAMESPACES_ALONE)
    ensures |RawContent(NULL_ALONE, [], NAMESPACES_AND_MORE)| < TWO_64
    ensures RawPayload(NULL_ALONE, [], NAMESPACES_AND_MORE) == RawPayload(NULL_AND_MORE, [], NAMESPACES_ALONE)
  {
    hide Encode, LABEL, Skip;
    NullIsRead(rules, []);
    NullIsRead(rules, NULL_AND_MORE[1..]);
    assert NULL_ALONE == [0xf6] + [] && NULL_AND_MORE == [0xf6] + NULL_AND_MORE[1..];
    EmptyMapIsRead(rules, NAMESPACES_AND_MORE);
    EmptyMapIsRead(rules, NAMESPACES_ALONE);
    SmallTag24(NAMESPACES_AND_MORE, 0x46);
    SmallTag24(NAMESPACES_ALONE, 0x41);
    EmptyText();
    LabelIsShort();
    var first := [0x84] + Encode(LABEL);
    assert NULL_ALONE + [0x60] + ([0xd8, 0x18, 0x46] + NAMESPACES_AND_MORE)
        == NULL_AND_MORE + [0x60] + ([0xd8, 0x18, 0x41] + NAMESPACES_ALONE);
    Regroup(first, NULL_ALONE, [0x60], [0xd8, 0x18, 0x46] + NAMESPACES_AND_MORE);
    Regroup(first, NULL_AND_MORE, [0x60], [0xd8, 0x18, 0x41] + NAMESPACES_ALONE);
  }

  lemma Regroup(a: seq<Byte>, b: seq<Byte>, c: seq<Byte>, d: seq<Byte>)
    ensures a + b + c + d == a + (b + c + d)
  {
  }

  lemma {:induction false} NullIsRead(rules: Rules, rest: seq<Byte>)
    ensures Skip(rules, [0xf6] + rest) == Some(1)
  {
  }

  lemma {:induction false} EmptyMapIsRead(rules: Rules, b: seq<Byte>)
    requires |b| > 0 && b[0] == 0xa0
    ensures Accepted(rules, b)
  {
    assert DecodeHead(b) == Some(Head(5, 0, 0, 1));
  }

  lemma SmallTag24(bytes: seq<Byte>, head: Byte)
    requires |bytes| < 24 && ToNat(head) == 64 + |bytes|
    ensures Encode(Tag24(bytes)) == [0xd8, 0x18, head] + bytes
  {
    hide ToByte, ToNat;
    TaggedBytes(bytes);
    ToByteIs(32 * 2 + |bytes|, head);
  }

  lemma EmptyText()
    ensures Encode(Text([])) == [0x60]
  {
    hide ToByte;
    ToByteIs(96, 0x60);
  }

  lemma LabelIsShort()
    ensures Encodable(LABEL) && |Encode(LABEL)| == 21
  {
    hide ToByte;
  }

  /** The library's own example of a transcript in non-preferred form: an array
      holding null in two bytes. It is one item for the decoder, though not for
      RFC 8949. */
  lemma NonPreferredTranscript()
    ensures IsItem(Lenient, [0x81, 0xf8, 0x16]) && !Accepted(Rfc8949, [0x81, 0xf8, 0x16])
  {
    var b, inner := [0x81 as Byte, 0xf8, 0x16], [0xf8 as Byte, 0x16];
    assert b[1..] == inner && inner[1..2] == [0x16] && inner[2..] == [];
    assert [0x16 as Byte][..0] == [] && FromBigEndian([]) == 0 && FromBigEndian([0x16]) == 22;
    assert DecodeHead(b) == Some(Head(4, 1, 1, 1));
    assert DecodeHead(inner) == Some(Head(7, 24, 22, 2));
    hide DecodeHead, FromBigEndian, ToNat;
    assert SkipMany(Lenient, [], 0) == Some(0);
    assert Skip(Lenient, inner) == Some(2) && Skip(Rfc8949, inner) == None;
    assert SkipMany(Lenient, inner, 1) == Some(2) && SkipMany(Rfc8949, inner, 1) == None;
  }

  lemma TextInjective(x: seq<Byte>, y: seq<Byte>)
    requires |x| < TWO_64 && |y| < TWO_64 && Encode(Text(x)) == Encode(Text(y))
    ensures x == y
  {
    hide EncodeHead, DecodeHead;
    HeadRoundTrip(3, |x|, x);
    HeadRoundTrip(3, |y|, y);
    BodyAfterHead(3, |x|, x);
    BodyAfterHead(3, |y|, y);
  }

  lemma Tag24Injective(x: seq<Byte>, y: seq<Byte>)
    requires |x| < TWO_64 && |y| < TWO_64 && Encode(Tag24(x)) == Encode(Tag24(y))
    ensures x == y
  {
    hide Encode, DecodeHead;
    TaggedBytesRead(x);
    TaggedBytesRead(y);
  }

  /** `device_authentication`: the same structure through the encoder. */
  function TypedPayload(transcript: Item, docType: seq<Byte>, namespaces: seq<Byte>): seq<Byte>
    requires Encodable(transcript) && |docType| < TWO_64 && |namespaces| < TWO_64
    requires |TypedContent(transcript, docType, namespaces)| < TWO_64
  {
    Encode(Tag24(TypedContent(transcript, docType, namespaces)))
  }

  function TypedContent(transcript: Item, docType: seq<Byte>, namespaces: seq<Byte>): seq<Byte>
    requires Encodable(transcript) && |docType| < TWO_64 && |namespaces| < TWO_64
  {
    Encode(Array([LABEL, transcript, Text(docType), Tag24(namespaces)]))
  }

  /** Both paths sign the same bytes exactly when the received transcript is in
      the encoder's own form, whatever those bytes are. */
  lemma {:induction false} RawEqualsTyped(transcript: Item, raw: seq<Byte>, docType: seq<Byte>, namespaces: seq<Byte>)
    requires Encodable(transcript) && |docType| < TWO_64 && |namespaces| < TWO_64
    requires |TypedContent(transcript, docType, namespaces)| < TWO_64
    requires |RawContent(raw, docType, namespaces)| < TWO_64
    ensures RawPayload(raw, docType, namespaces) == TypedPayload(transcript, docType, namespaces)
      <==> raw == Encode(transcript)
  {
    hide Encode;
    TypedContentIsRaw(transcript, docType, namespaces);
    LabelEncodable();
    if RawPayload(raw, docType, namespaces) == TypedPayload(transcript, docType, namespaces) {
      Tag24Injective(RawContent(raw, docType, namespaces), TypedContent(transcript, docType, namespaces));
      var before, after := [0x84] + Encode(LABEL), Encode(Text(docType)) + Encode(Tag24(namespaces));
      assert before + raw + after == RawContent(raw, docType, namespaces);
      assert before + Encode(transcript) + after == RawContent(Encode(transcript), docType, namespaces);
      MiddleIsDetermined(before, raw, Encode(transcript), after);
    }
  }

  lemma MiddleIsDetermined(before: seq<Byte>, x: seq<Byte>, y: seq<Byte>, after: seq<Byte>)
    requires before + x + after == before + y + after
    ensures x == y
  {
    assert |x| == |y|;
    assert (before + x + after)[|before|..|before| + |x|] == x;
    assert (before + y + after)[|before|..|before| + |y|] == y;
  }

  lemma {:induction false} TypedContentIsRaw(transcript: Item, docType: seq<Byte>, namespaces: seq<Byte>)
    requires Encodable(transcript) && |docType| < TWO_64 && |namespaces| < TWO_64
    ensures TypedContent(transcript, docType, namespaces) == RawContent(Encode(transcript), docType, namespaces)
  {
    LabelEncodable();
    hide LABEL, Encode;
    ArrayOfFour(LABEL, transcript, Text(docType), Tag24(namespaces));
  }

  lemma {:induction false} ArrayOfFour(a: Item, b: Item, c: Item, d: Item)
    requires Encodable(a) && Encodable(b) && Encodable(c) && Encodable(d)
    ensures Encodable(Array([a, b, c, d]))
    ensures Encode(Array([a, b, c, d])) == [0x84] + Encode(a) + Encode(b) + Encode(c) + Encode(d)
  {
    hide EncodeHead, EncodeAll;
    ArrayHead();
    EncodeFour(a, b, c, d);
    assert Encode(Array([a, b, c, d])) == EncodeHead(4, 4) + EncodeAll([a, b, c, d]);
  }

  lemma ArrayHead()
    ensures EncodeHead(4, 4) == [0x84]
  {
  }

  lemma {:induction false} EncodeFour(a: Item, b: Item, c: Item, d: Item)
    requires Encodable(a) && Encodable(b) && Encodable(c) && Encodable(d)
    ensures EncodeAll([a, b, c, d]) == Encode(a) + Encode(b) + Encode(c) + Encode(d)
  {
    hide Encode, Encodable;
    assert [a, b, c, d][1..] == [b, c, d];
    assert [b, c, d][1..] == [c, d];
    assert [c, d][1..] == [d];
    assert [d][1..] == [];
    assert EncodeAll([d]) == Encode(d) + [];
    assert EncodeAll([c, d]) == Encode(c) + EncodeAll([d]);
    assert EncodeAll([b, c, d]) == Encode(b) + EncodeAll([c, d]);
    assert EncodeAll([a, b, c, d]) == Encode(a) + EncodeAll([b, c, d]);
  }
}
