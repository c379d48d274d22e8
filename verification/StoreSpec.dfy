/**
 The flash store as a value: a region image walked entry by entry, what it stores,
 and how a save rebuilds it.
 */
module StoreSpec {
  import opened Bytes
  import Crc32

  const HEADER_LEN := 8  // magic (4), version (2), reserved (2)
  const ENTRY_LEN := 8   // tag (2), length (2), checksum (4)
  const LEN_MAX := 0xFFFF

  datatype Option<+T> = None | Some(value: T)

  // The number an entry is stored under.
  datatype Tag = Tag(id: bv16)

  predicate Erased(tag: Tag) {
    tag.id == 0xFFFF
  }

  function AlignUp(n: nat): nat {
    (n + 3) / 4 * 4
  }

  function Header(): (b: seq<byte>)
    ensures |b| == HEADER_LEN
  {
    U32(0x4B524B53) + U16(1) + U16(0)
  }

  predicate HeaderValid(img: seq<byte>)
    requires |img| >= HEADER_LEN
  {
    ToU32(img[..4]) == 0x4B524B53 && ToU16(img[4], img[5]) == 1
  }

  // ---- The entry at a position ----

  function TagAt(img: seq<byte>, pos: nat): Tag
    requires pos + ENTRY_LEN <= |img|
  {
    Tag(ToU16(img[pos], img[pos + 1]))
  }

  function LenAt(img: seq<byte>, pos: nat): nat
    requires pos + ENTRY_LEN <= |img|
  {
    LenOf(img[pos + 2], img[pos + 3])
  }

  function SizeAt(img: seq<byte>, pos: nat): (n: nat)
    requires pos + ENTRY_LEN <= |img|
    ensures n >= ENTRY_LEN + LenAt(img, pos)
  {
    AlignUp(ENTRY_LEN + LenAt(img, pos))
  }

  predicate EntryAt(img: seq<byte>, pos: nat) {
    pos + ENTRY_LEN <= |img| && !Erased(TagAt(img, pos)) && pos + SizeAt(img, pos) <= |img|
  }

  // ---- Walking an image ----

  // Where the walk from `pos` ends.
  function End(img: seq<byte>, pos: nat): (end: nat)
    ensures end >= pos && (pos <= |img| ==> end <= |img|) && !EntryAt(img, end)
    decreases |img| - pos
  {
    if EntryAt(img, pos) then End(img, pos + SizeAt(img, pos)) else pos
  }

  // The last entry with `tag` on the walk from `pos`, -1 if there is none.
  function Find(img: seq<byte>, pos: nat, tag: Tag): (found: int)
    ensures found == -1 || (pos <= found && EntryAt(img, found) && TagAt(img, found) == tag)
    decreases |img| - pos
  {
    if !EntryAt(img, pos) then -1
    else
      var later := Find(img, pos + SizeAt(img, pos), tag);
      if later >= 0 then later
      else if TagAt(img, pos) == tag then pos
      else -1
  }

  // The entries on the walk from `pos`, each with its header and its padding.
  function Entries(img: seq<byte>, pos: nat): (es: seq<seq<byte>>)
    ensures AllWellFormed(es)
    decreases |img| - pos
  {
    if !EntryAt(img, pos) then []
    else
      var next := pos + SizeAt(img, pos);
      var e := img[pos..next];
      assert e[0] == img[pos] && e[1] == img[pos + 1] && e[2] == img[pos + 2] && e[3] == img[pos + 3];
      [e] + Entries(img, next)
  }

  predicate WellFormed(e: seq<byte>) {
    EntryAt(e, 0) && |e| == SizeAt(e, 0)
  }

  predicate AllWellFormed(es: seq<seq<byte>>) {
    forall i :: 0 <= i < |es| ==> WellFormed(es[i])
  }

  // ---- What an image stores ----

  function Payload(e: seq<byte>): seq<byte>
    requires WellFormed(e)
  {
    e[ENTRY_LEN..ENTRY_LEN + LenAt(e, 0)]
  }

  predicate Intact(e: seq<byte>)
    requires WellFormed(e)
  {
    Crc32.Crc(Payload(e)) == ToU32(e[4..8])
  }

  type Map = map<Tag, seq<byte>>

  // A later entry replaces an earlier one with its tag; a damaged one hides it.
  function Apply(m: Map, e: seq<byte>): Map
    requires WellFormed(e)
  {
    if Intact(e) then m[TagAt(e, 0) := Payload(e)] else m - {TagAt(e, 0)}
  }

  function ApplyAll(m: Map, es: seq<seq<byte>>): Map
    requires AllWellFormed(es)
    decreases |es|
  {
    if es == [] then m else ApplyAll(Apply(m, es[0]), es[1..])
  }

  // The map an image stands for, whatever the image: damaged, foreign or erased.
  function Contents(img: seq<byte>): Map
    requires |img| >= HEADER_LEN
  {
    if HeaderValid(img) then ApplyAll(map[], Entries(img, HEADER_LEN)) else map[]
  }

  // ---- Loading ----

  function Load(img: seq<byte>, tag: Tag, len: nat): Option<seq<byte>>
    requires |img| >= HEADER_LEN
  {
    if !HeaderValid(img) then None
    else
      var pos := Find(img, HEADER_LEN, tag);
      if pos < 0 then None
      else
        var payload := img[pos + ENTRY_LEN..pos + ENTRY_LEN + LenAt(img, pos)];
        if LenAt(img, pos) != len || Crc32.Crc(payload) != ToU32(img[pos + 4..pos + 8]) then None
        else Some(payload)
  }

  // ---- Saving ----

  function Filler(n: nat): (b: seq<byte>)
    ensures |b| == n
  {
    seq(n, _ => 0xFF)
  }

  function NewEntry(tag: Tag, data: seq<byte>): (e: seq<byte>)
    requires |data| <= LEN_MAX
    ensures |e| == AlignUp(ENTRY_LEN + |data|)
  {
    U16(tag.id) + LenBytes(|data|) + U32(Crc32.Crc(data)) + data
    + Filler(AlignUp(ENTRY_LEN + |data|) - ENTRY_LEN - |data|)
  }

  function Others(es: seq<seq<byte>>, tag: Tag): (r: seq<seq<byte>>)
    requires AllWellFormed(es)
    ensures AllWellFormed(r)
  {
    if es == [] then []
    else if TagAt(es[0], 0) != tag then [es[0]] + Others(es[1..], tag)
    else Others(es[1..], tag)
  }

  function Join(es: seq<seq<byte>>): seq<byte> {
    if es == [] then [] else es[0] + Join(es[1..])
  }

  function Existing(img: seq<byte>): (es: seq<seq<byte>>)
    requires |img| >= HEADER_LEN
    ensures AllWellFormed(es)
  {
    if HeaderValid(img) then Entries(img, HEADER_LEN) else []
  }

  function Image(es: seq<seq<byte>>, size: nat): (img: seq<byte>)
    requires HEADER_LEN + |Join(es)| <= size
    ensures |img| == size
  {
    Header() + Join(es) + Filler(size - HEADER_LEN - |Join(es)|)
  }

  predicate Fits(img: seq<byte>, tag: Tag, data: seq<byte>)
    requires |img| >= HEADER_LEN
  {
    HEADER_LEN + |Join(Others(Existing(img), tag))| + AlignUp(ENTRY_LEN + |data|) <= |img|
  }

  lemma {:induction false} JoinSnoc(es: seq<seq<byte>>, e: seq<byte>)
    ensures Join(es + [e]) == Join(es) + e
  {
    if es == [] {
      assert [] + [e] == [e] && [e][1..] == [];
    } else {
      assert (es + [e])[1..] == es[1..] + [e];
      JoinSnoc(es[1..], e);
    }
  }

  // The image after saving `data` under `tag`.
  function Save(img: seq<byte>, tag: Tag, data: seq<byte>): (r: seq<byte>)
    requires |img| >= HEADER_LEN && |data| <= LEN_MAX && Fits(img, tag, data)
    ensures |r| == |img|
  {
    JoinSnoc(Others(Existing(img), tag), NewEntry(tag, data));
    Image(Others(Existing(img), tag) + [NewEntry(tag, data)], |img|)
  }
}
