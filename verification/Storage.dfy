/**
 The flash store as the code runs it: the walk, the rebuild of an image entry by
 entry, and the write of the whole region, proved against StoreSpec.
 */
module Storage {
  import opened Bytes
  import Crc32
  import opened StoreSpec
  import Spec = StoreSpec
  import StoreProofs

  const SECTOR := 4096

  class Storage {
    const region: array<byte>

    ghost predicate Valid() {
      region.Length > 0 && region.Length % SECTOR == 0
    }

    constructor (region: array<byte>)
      requires region.Length > 0 && region.Length % SECTOR == 0
      ensures Valid() && this.region == region
    {
      this.region := region;
    }

    // Find the entry with `tag`; `end` is just after the last entry.
    method FindEntry(tag: Tag) returns (found: int, end: nat)
      requires Valid()
      ensures found == Find(region[..], HEADER_LEN, tag)
      ensures end == End(region[..], HEADER_LEN)
    {
      hide TagAt; hide LenAt; hide SizeAt; hide EntryAt;
      var base := region[..];
      var pos := HEADER_LEN;
      found := -1;
      while pos + ENTRY_LEN <= |base|
        invariant pos <= |base| && -1 <= found
        invariant End(base, pos) == End(base, HEADER_LEN)
        invariant Find(base, HEADER_LEN, tag) ==
                  if Find(base, pos, tag) >= 0 then Find(base, pos, tag) else found
      {
        WalkStep(base, pos, tag);
        if Erased(TagAt(base, pos)) {
          break;
        }
        var next := pos + SizeAt(base, pos);
        if next > |base| {
          break;
        }
        if TagAt(base, pos) == tag {
          found := pos;
        }
        pos := next;
      }
      WalkOver(base, pos, tag);
      end := pos;
    }

    // 0 and the stored bytes, or -1.
    method Load(tag: Tag, len: nat) returns (rc: int, data: seq<byte>)
      requires Valid()
      ensures (rc, data) == match Spec.Load(region[..], tag, len) case Some(d) => (0, d) case None => (-1, [])
    {
      hide HeaderValid; hide Find; hide TagAt; hide LenAt; hide ToU32; hide Crc32.Crc;
      var base := region[..];
      if !HeaderValid(base) {
        return -1, [];
      }
      var pos, end := FindEntry(tag);
      if pos < 0 {
        return -1, [];
      }
      var payload := base[pos + ENTRY_LEN..pos + ENTRY_LEN + LenAt(base, pos)];
      if LenAt(base, pos) != len {
        return -1, [];
      }
      var crc := Crc32.Compute(payload);
      if crc != ToU32(base[pos + 4..pos + 8]) {
        return -1, [];
      }
      return 0, payload;
    }

    // `heap`: the image can be allocated; `flashOk`: the flash can be written.
    method Save(tag: Tag, data: seq<byte>, heap: bool, flashOk: bool) returns (rc: int)
      requires Valid()
      modifies region
      ensures rc == if Accepts(old(region[..]), tag, data) && heap && flashOk then 0 else -1
      ensures region[..] == if rc == 0 then Spec.Save(old(region[..]), tag, data) else old(region[..])
    {
      hide NewEntry; hide Others; hide Join; hide Existing; hide Header;
      hide U16; hide U32; hide LenBytes; hide Crc32.Crc; hide Image;
      if Erased(tag) || |data| > LEN_MAX {
        return -1;
      }
      if !heap {
        return -1;
      }
      var img := new byte[region.Length](_ => 0xFF);
      var pos := CopyOthers(img, tag);
      var size := AlignUp(ENTRY_LEN + |data|);
      if pos + size > region.Length {
        return -1;
      }
      var crc := Crc32.Compute(data);
      ghost var head := img[..pos];
      Put(img, pos, U16(tag.id) + LenBytes(|data|) + U32(crc));
      Put(img, pos + ENTRY_LEN, data);
      ghost var kept := Others(Existing(region[..]), tag);
      JoinSnoc(kept, NewEntry(tag, data));
      Rebuilt(img[..], kept, tag, data);
      if !flashOk {
        return -1;
      }
      Write(img);
      return 0;
    }

    // Header and every other existing entry, at the front of a new image. The
    // write position never passes the read position.
    method CopyOthers(img: array<byte>, tag: Tag) returns (pos: nat)
      requires Valid() && img != region && img.Length == region.Length
      requires forall i :: 0 <= i < img.Length ==> img[i] == 0xFF
      modifies img
      ensures pos <= img.Length
      ensures img[..pos] == Header() + Join(Others(Existing(region[..]), tag))
      ensures forall i :: pos <= i < img.Length ==> img[i] == 0xFF
    {
      hide Header; hide HeaderValid; hide TagAt; hide SizeAt; hide EntryAt; hide Others; hide Join; hide WellFormed;
      hide End; hide Find; hide KeptFrom; hide Existing;
      var base := region[..];
      KeptExisting(base, tag);
      Put(img, 0, Header());
      pos := HEADER_LEN;
      assert img[..pos] == Header();
      if !HeaderValid(base) {
        assert Header() + [] == Header();
        return;
      }
      var none, end := FindEntry(Tag(0xFFFF));
      var src := HEADER_LEN;
      ghost var whole := Header() + KeptFrom(base, HEADER_LEN, tag);
      while src < end
        invariant pos <= src <= end <= |base| && End(base, src) == end
        invariant img[..pos] + KeptFrom(base, src, tag) == whole
        invariant forall i :: pos <= i < img.Length ==> img[i] == 0xFF
      {
        EntryStep(base, src, tag);
        var size := SizeAt(base, src);
        ghost var done, rest := img[..pos], KeptFrom(base, src + size, tag);
        if TagAt(base, src) != tag {
          Put(img, pos, base[src..src + size]);
          pos := pos + size;
          Assoc(done, base[src..src + size], rest);
        }
        src := src + size;
      }
      NothingKept(base, src, tag);
      assert img[..pos] + [] == img[..pos];
    }

    // Erase and program the whole region.
    method Write(img: array<byte>)
      requires img != region && img.Length == region.Length
      modifies region
      ensures region[..] == img[..]
    {
      for i := 0 to region.Length
        invariant forall k :: 0 <= k < i ==> region[k] == 0xFF
        invariant img[..] == old(img[..])
      {
        region[i] := 0xFF;
      }
      for i := 0 to region.Length
        invariant forall k :: 0 <= k < i ==> region[k] == img[k]
        invariant img[..] == old(img[..])
      {
        region[i] := img[i];
      }
    }
  }

  // What a save asks of its arguments and of the room in the region.
  predicate Accepts(img: seq<byte>, tag: Tag, data: seq<byte>)
    requires |img| >= HEADER_LEN
  {
    !Erased(tag) && |data| <= LEN_MAX && Fits(img, tag, data)
  }

  lemma WalkStep(img: seq<byte>, pos: nat, tag: Tag)
    requires pos + ENTRY_LEN <= |img|
    ensures EntryAt(img, pos) == (!Erased(TagAt(img, pos)) && pos + SizeAt(img, pos) <= |img|)
    ensures EntryAt(img, pos) ==>
              var next := pos + SizeAt(img, pos);
              pos < next && End(img, pos) == End(img, next) &&
              Find(img, pos, tag) == if Find(img, next, tag) >= 0 then Find(img, next, tag)
                                     else if TagAt(img, pos) == tag then pos else -1
  {
    hide TagAt; hide LenAt; hide SizeAt; hide Erased;
  }

  lemma WalkOver(img: seq<byte>, pos: nat, tag: Tag)
    requires !EntryAt(img, pos)
    ensures End(img, pos) == pos && Find(img, pos, tag) == -1
  {}

  // What is still to be copied when the walk stands at `pos`.
  function KeptFrom(img: seq<byte>, pos: nat, tag: Tag): seq<byte> {
    Join(Others(Entries(img, pos), tag))
  }

  lemma KeptExisting(img: seq<byte>, tag: Tag)
    requires |img| >= HEADER_LEN
    ensures Join(Others(Existing(img), tag)) == if HeaderValid(img) then KeptFrom(img, HEADER_LEN, tag) else []
  {
    hide HeaderValid; hide Entries;
  }

  lemma NothingKept(img: seq<byte>, pos: nat, tag: Tag)
    requires End(img, pos) == pos
    ensures KeptFrom(img, pos, tag) == []
  {
    hide EntryAt; hide SizeAt; hide TagAt;
  }

  lemma JoinOthersCons(e: seq<byte>, tail: seq<seq<byte>>, tag: Tag)
    requires WellFormed(e) && AllWellFormed(tail)
    ensures AllWellFormed([e] + tail)
    ensures Join(Others([e] + tail, tag)) == (if TagAt(e, 0) != tag then e else []) + Join(Others(tail, tag))
  {
    hide EntryAt; hide SizeAt; hide TagAt;
    var es := [e] + tail;
    assert es[1..] == tail;
    if TagAt(e, 0) != tag {
      var r := [e] + Others(tail, tag);
      assert Others(es, tag) == r && r[1..] == Others(tail, tag);
    }
  }

  lemma EndStep(img: seq<byte>, pos: nat)
    requires pos < End(img, pos)
    ensures EntryAt(img, pos) && End(img, pos) == End(img, pos + SizeAt(img, pos))
  {
    hide EntryAt; hide SizeAt;
  }

  lemma EntriesCons(img: seq<byte>, pos: nat)
    requires EntryAt(img, pos)
    ensures Entries(img, pos) == [img[pos..pos + SizeAt(img, pos)]] + Entries(img, pos + SizeAt(img, pos))
  {
    hide EntryAt; hide SizeAt; hide WellFormed;
  }

  // Before the end there is an entry, and it is copied or left out as a whole.
  lemma EntryStep(img: seq<byte>, pos: nat, tag: Tag)
    requires pos < End(img, pos)
    ensures EntryAt(img, pos)
    ensures var next := pos + SizeAt(img, pos);
            pos < next <= |img| && End(img, next) == End(img, pos) && next <= End(img, pos) &&
            KeptFrom(img, pos, tag) ==
            (if TagAt(img, pos) != tag then img[pos..next] else []) + KeptFrom(img, next, tag)
  {
    hide EntryAt; hide SizeAt; hide TagAt; hide WellFormed; hide End; hide Entries; hide Others; hide Join;
    EndStep(img, pos);
    EntriesCons(img, pos);
    StoreProofs.CutOut(img, pos);
    StoreProofs.EntryGrows(img, pos);
    var next := pos + SizeAt(img, pos);
    JoinOthersCons(img[pos..next], Entries(img, next), tag);
  }

  // The parts written one after the other make the image of the specification.
  lemma Rebuilt(img: seq<byte>, kept: seq<seq<byte>>, tag: Tag, data: seq<byte>)
    requires |data| <= LEN_MAX
    requires var pos := HEADER_LEN + |Join(kept)|;
             var size := AlignUp(ENTRY_LEN + |data|);
             pos + size <= |img| &&
             img[..pos + ENTRY_LEN + |data|] ==
             Header() + Join(kept) + (U16(tag.id) + LenBytes(|data|) + U32(Crc32.Crc(data))) + data &&
             forall i :: pos + ENTRY_LEN + |data| <= i < |img| ==> img[i] == 0xFF
    requires Join(kept + [NewEntry(tag, data)]) == Join(kept) + NewEntry(tag, data)
    ensures img == Image(kept + [NewEntry(tag, data)], |img|)
  {
    hide U16; hide U32; hide LenBytes; hide Crc32.Crc; hide Header; hide Join; hide NewEntry; hide Image; hide AlignUp; hide Filler;
    AlignGrows(ENTRY_LEN + |data|);
    var pad: nat := AlignUp(ENTRY_LEN + |data|) - ENTRY_LEN - |data|;
    var front := Header() + Join(kept);
    var head := U16(tag.id) + LenBytes(|data|) + U32(Crc32.Crc(data));
    Assoc(front, head, data);
    NewEntryIs(tag, data);
    Assemble(img, front, head + data, pad);
    ImageSnoc(kept, NewEntry(tag, data), |img|);
  }

  lemma AlignGrows(n: nat)
    ensures n <= AlignUp(n)
  {}

  lemma NewEntryIs(tag: Tag, data: seq<byte>)
    requires |data| <= LEN_MAX
    ensures NewEntry(tag, data) ==
            U16(tag.id) + LenBytes(|data|) + U32(Crc32.Crc(data)) + data
            + Filler(AlignUp(ENTRY_LEN + |data|) - ENTRY_LEN - |data|)
  {}

  lemma ImageSnoc(kept: seq<seq<byte>>, e: seq<byte>, size: nat)
    requires Join(kept + [e]) == Join(kept) + e && HEADER_LEN + |Join(kept)| + |e| <= size
    ensures Image(kept + [e], size) ==
            Header() + Join(kept) + e + Filler(size - |Header() + Join(kept)| - |e|)
  {
    hide Header; hide Join;
    Assoc(Header(), Join(kept), e);
  }

  lemma Assemble(img: seq<byte>, front: seq<byte>, entry: seq<byte>, pad: nat)
    requires var used := |front| + |entry|;
             used + pad <= |img| && img[..used] == front + entry &&
             forall i :: used <= i < |img| ==> img[i] == 0xFF
    ensures img == front + (entry + Filler(pad)) + Filler(|img| - |front| - |entry| - pad)
  {
    var r := front + (entry + Filler(pad)) + Filler(|img| - |front| - |entry| - pad);
    forall i | 0 <= i < |img| ensures img[i] == r[i] {
      if i < |front| + |entry| {
        assert img[i] == img[..|front| + |entry|][i];
      }
    }
  }
}
