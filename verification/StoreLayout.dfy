/**
 The flash store byte by byte.
 */
module StoreLayout {
  import opened Bytes
  import Crc32
  import opened StoreSpec

  lemma AlignIs(n: nat)
    ensures AlignUp(n) % 4 == 0 && n <= AlignUp(n) < n + 4
  {}

  // Magic word, version 1 and two reserved bytes.
  lemma HeaderBytes()
    ensures Header() == [0x53, 0x4B, 0x52, 0x4B, 1, 0, 0, 0]
  {
    U32Digits(0x4B524B53);
    U16Digits(1);
    U16Digits(0);
    hide U32; hide U16;
    assert U32(0x4B524B53) == [0x53, 0x4B, 0x52, 0x4B];
  }

  // The first eight bytes of an entry.
  function Head(tag: Tag, data: seq<byte>): (h: seq<byte>)
    requires |data| <= LEN_MAX
    ensures |h| == 8
  {
    U16(tag.id) + LenBytes(|data|) + U32(Crc32.Crc(data))
  }

  lemma HeadBytes(tag: Tag, data: seq<byte>)
    requires |data| <= LEN_MAX
    ensures var h, n, crc := Head(tag, data), |data|, Crc32.Crc(data);
            && h[0] == (tag.id % 256) as byte && h[1] == (tag.id / 256) as byte
            && Val(h[2]) == n % 256 && Val(h[3]) == n / 256
            && h[4] == (crc % 256) as byte && h[5] == (crc / 0x100 % 256) as byte
            && h[6] == (crc / 0x1_0000 % 256) as byte && h[7] == (crc / 0x100_0000) as byte
  {
    hide U16; hide U32; hide LenBytes; hide Crc32.Crc; hide Val;
    U16Digits(tag.id);
    LenDigits(|data|);
    U32Digits(Crc32.Crc(data));
  }

  lemma HeadFirst(tag: Tag, data: seq<byte>)
    requires |data| <= LEN_MAX
    ensures NewEntry(tag, data) ==
            Head(tag, data) + data + Filler(AlignUp(ENTRY_LEN + |data|) - ENTRY_LEN - |data|)
  {
    hide U16; hide U32; hide LenBytes; hide Crc32.Crc; hide AlignUp;
  }

  // Tag, length and checksum of the data, low byte first, the data, and erased bytes up
  // to a multiple of four.
  lemma EntryBytes(tag: Tag, data: seq<byte>)
    requires |data| <= LEN_MAX
    ensures var e, n, crc := NewEntry(tag, data), |data|, Crc32.Crc(data);
            && |e| % 4 == 0 && 8 + n <= |e| < 8 + n + 4
            && e[0] == (tag.id % 256) as byte && e[1] == (tag.id / 256) as byte
            && Val(e[2]) == n % 256 && Val(e[3]) == n / 256
            && e[4] == (crc % 256) as byte && e[5] == (crc / 0x100 % 256) as byte
            && e[6] == (crc / 0x1_0000 % 256) as byte && e[7] == (crc / 0x100_0000) as byte
            && e[8..8 + n] == data
            && forall i :: 8 + n <= i < |e| ==> e[i] == 0xFF
  {
    hide Crc32.Crc; hide AlignUp; hide Val; hide Head; hide NewEntry;
    AlignIs(ENTRY_LEN + |data|);
    HeadBytes(tag, data);
    HeadFirst(tag, data);
    Sections(Head(tag, data), data, Filler(AlignUp(ENTRY_LEN + |data|) - ENTRY_LEN - |data|));
  }

  lemma Sections(head: seq<byte>, data: seq<byte>, pad: seq<byte>)
    requires |head| == 8
    ensures var e, n := head + data + pad, |data|;
            && (forall i :: 0 <= i < 8 ==> e[i] == head[i]) && e[8..8 + n] == data
            && forall i :: 8 + n <= i < |e| ==> e[i] == pad[i - 8 - n]
  {}

  // A save gives the header, the entries of the other tags as they were and in their
  // order, the new entry, and erased bytes.
  lemma SavedBytes(img: seq<byte>, tag: Tag, data: seq<byte>)
    requires |img| >= HEADER_LEN && |data| <= LEN_MAX && Fits(img, tag, data)
    ensures var kept, e, r := Join(Others(Existing(img), tag)), NewEntry(tag, data), Save(img, tag, data);
            var k := 8 + |kept|;
            && k + |e| <= |r| == |img| && r[..8] == [0x53, 0x4B, 0x52, 0x4B, 1, 0, 0, 0]
            && r[8..k] == kept && r[k..k + |e|] == e
            && forall i :: k + |e| <= i < |r| ==> r[i] == 0xFF
  {
    HeaderBytes();
    hide HeaderValid; hide NewEntry; hide Header; hide AlignUp; hide Others; hide Existing; hide Join;
    var others, e := Others(Existing(img), tag), NewEntry(tag, data);
    JoinSnoc(others, e);
    var kept := Join(others);
    var pad := Filler(|img| - HEADER_LEN - |kept| - |e|);
    assert Save(img, tag, data) == Header() + (kept + e) + pad;
    Parts(Header(), kept, e, pad);
  }

  lemma Parts(head: seq<byte>, kept: seq<byte>, e: seq<byte>, pad: seq<byte>)
    requires |head| == 8
    ensures var r, k := head + (kept + e) + pad, 8 + |kept|;
            && r[..8] == head && r[8..k] == kept && r[k..k + |e|] == e
            && forall i :: k + |e| <= i < |r| ==> r[i] == pad[i - k - |e|]
  {}

  // Of an image without a valid header nothing is kept.
  lemma FirstSave(img: seq<byte>, tag: Tag, data: seq<byte>)
    requires |img| >= HEADER_LEN && !HeaderValid(img) && |data| <= LEN_MAX
    ensures Others(Existing(img), tag) == []
    ensures Fits(img, tag, data) <==> 8 + |NewEntry(tag, data)| <= |img|
  {
    hide HeaderValid; hide NewEntry; hide AlignUp;
  }

  // Nothing is read from a region that does not start with the magic word and version 1.
  lemma NoHeaderNothing(img: seq<byte>)
    requires |img| >= HEADER_LEN
    ensures HeaderValid(img) <==> img[..6] == [0x53, 0x4B, 0x52, 0x4B, 1, 0]
    ensures img[..6] != [0x53, 0x4B, 0x52, 0x4B, 1, 0] ==>
              Contents(img) == map[] && forall tag, len :: Load(img, tag, len) == None
  {
    MagicIs(img[..4]);
    VersionIs(img[4], img[5]);
    hide ToU32; hide ToU16; hide Entries; hide ApplyAll; hide Find;
    assert img[..6] == img[..4] + [img[4], img[5]];
    assert [0x53, 0x4B, 0x52, 0x4B, 1, 0] == [0x53, 0x4B, 0x52, 0x4B] + [1, 0];
  }

  lemma MagicIs(b: seq<byte>)
    requires |b| == 4
    ensures ToU32(b) == 0x4B524B53 <==> b == [0x53, 0x4B, 0x52, 0x4B]
  {
    U32Onto(b);
    U32Digits(0x4B524B53);
    U32RoundTrip(0x4B524B53);
    hide U32; hide ToU32;
    assert U32(0x4B524B53) == [0x53, 0x4B, 0x52, 0x4B];
  }

  lemma VersionIs(lo: byte, hi: byte)
    ensures ToU16(lo, hi) == 1 <==> lo == 1 && hi == 0
  {}

  lemma Fourths(a: nat, b: nat)
    requires a % 4 == 0 && b % 4 == 0
    ensures (a + b) % 4 == 0
  {}

  // Entries begin at multiples of four.
  lemma {:induction false} FoundAligned(img: seq<byte>, pos: nat, tag: Tag)
    requires pos % 4 == 0
    ensures Find(img, pos, tag) >= 0 ==> Find(img, pos, tag) % 4 == 0
    decreases |img| - pos
  {
    hide TagAt; hide LenAt; hide Erased; hide AlignUp;
    if EntryAt(img, pos) {
      AlignIs(ENTRY_LEN + LenAt(img, pos));
      Fourths(pos, SizeAt(img, pos));
      hide EntryAt; hide SizeAt;
      FoundAligned(img, pos + SizeAt(img, pos), tag);
    }
  }
}
