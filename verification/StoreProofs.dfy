/**
 The flash store refines a map from tags to data, on every image.
 */
module StoreProofs {
  import opened Bytes
  import Crc32
  import opened StoreSpec

  function Lookup(m: Map, tag: Tag): Option<seq<byte>> {
    if tag in m then Some(m[tag]) else None
  }

  // ---- Loading looks the tag up ----

  function ValueAt(img: seq<byte>, pos: nat): Option<seq<byte>>
    requires EntryAt(img, pos)
  {
    var payload := img[pos + ENTRY_LEN..pos + ENTRY_LEN + LenAt(img, pos)];
    if Crc32.Crc(payload) == ToU32(img[pos + 4..pos + 8]) then Some(payload) else None
  }

  // An entry taken out of the image reads as it does in place.
  lemma CutOut(img: seq<byte>, pos: nat)
    requires EntryAt(img, pos)
    ensures var e := img[pos..pos + SizeAt(img, pos)];
            WellFormed(e) && TagAt(e, 0) == TagAt(img, pos) && LenAt(e, 0) == LenAt(img, pos) &&
            ValueAt(img, pos) == if Intact(e) then Some(Payload(e)) else None
  {
    hide Crc32.Crc; hide ToU16; hide ToU32; hide LenOf;
    var e := img[pos..pos + SizeAt(img, pos)];
    assert e[0] == img[pos] && e[1] == img[pos + 1] && e[2] == img[pos + 2] && e[3] == img[pos + 3];
    SliceOfSlice(img, pos, pos + SizeAt(img, pos), 4, 8);
    SliceOfSlice(img, pos, pos + SizeAt(img, pos), ENTRY_LEN, ENTRY_LEN + LenAt(img, pos));
  }

  lemma ApplyLookup(m: Map, e: seq<byte>, tag: Tag)
    requires WellFormed(e)
    ensures Lookup(Apply(m, e), tag) ==
            if TagAt(e, 0) != tag then Lookup(m, tag) else if Intact(e) then Some(Payload(e)) else None
  {
    hide TagAt; hide Intact; hide Payload; hide EntryAt; hide SizeAt;
    var t := TagAt(e, 0);
    if Intact(e) {
      MapPut(m, t, Payload(e), tag);
    } else {
      MapDrop(m, t, tag);
    }
  }

  lemma MapPut(m: Map, t: Tag, v: seq<byte>, tag: Tag)
    ensures Lookup(m[t := v], tag) == if t == tag then Some(v) else Lookup(m, tag)
  {}

  lemma MapDrop(m: Map, t: Tag, tag: Tag)
    ensures Lookup(m - {t}, tag) == if t == tag then None else Lookup(m, tag)
  {}

  lemma WalkStep(img: seq<byte>, pos: nat, m: Map)
    requires EntryAt(img, pos)
    ensures var next := pos + SizeAt(img, pos);
            pos < next <= |img| && WellFormed(img[pos..next]) &&
            ApplyAll(m, Entries(img, pos)) == ApplyAll(Apply(m, img[pos..next]), Entries(img, next))
  {
    hide EntryAt; hide SizeAt; hide Apply; hide WellFormed; hide TagAt; hide LenAt; hide Intact; hide ValueAt;
    hide Entries; hide ApplyAll;
    EntryGrows(img, pos);
    CutOut(img, pos);
    EntriesStep(img, pos);
    var next := pos + SizeAt(img, pos);
    ApplyCons(m, img[pos..next], Entries(img, next));
  }

  lemma EntriesStep(img: seq<byte>, pos: nat)
    requires EntryAt(img, pos)
    ensures pos + SizeAt(img, pos) <= |img|
    ensures var next := pos + SizeAt(img, pos);
            Entries(img, pos) == [img[pos..next]] + Entries(img, next)
  {
    EntryGrows(img, pos);
    hide EntryAt; hide SizeAt; hide WellFormed;
  }

  lemma ApplyCons(m: Map, e: seq<byte>, es: seq<seq<byte>>)
    requires WellFormed(e) && AllWellFormed(es)
    ensures AllWellFormed([e] + es) && ApplyAll(m, [e] + es) == ApplyAll(Apply(m, e), es)
  {
    hide WellFormed; hide Apply;
    assert ([e] + es)[1..] == es;
  }

  lemma FindStep(img: seq<byte>, pos: nat, tag: Tag)
    ensures Find(img, pos, tag) ==
            if !EntryAt(img, pos) then -1
            else
              var later := Find(img, pos + SizeAt(img, pos), tag);
              if later >= 0 then later else if TagAt(img, pos) == tag then pos else -1
  {
    hide EntryAt; hide SizeAt; hide TagAt;
  }

  lemma {:induction false} FindIsLookup(img: seq<byte>, pos: nat, tag: Tag, m: Map)
    ensures var p := Find(img, pos, tag);
            Lookup(ApplyAll(m, Entries(img, pos)), tag) == if p < 0 then Lookup(m, tag) else ValueAt(img, p)
    decreases |img| - pos
  {
    FindStep(img, pos, tag);
    hide EntryAt; hide SizeAt; hide TagAt; hide Intact; hide Payload; hide WellFormed; hide ValueAt; hide Lookup;
    hide Find; hide Apply;
    if EntryAt(img, pos) {
      WalkStep(img, pos, m);
      CutOut(img, pos);
      var next := pos + SizeAt(img, pos);
      var e := img[pos..next];
      ApplyLookup(m, e, tag);
      FindIsLookup(img, next, tag, Apply(m, e));
    }
  }

  lemma EntryGrows(img: seq<byte>, pos: nat)
    requires EntryAt(img, pos)
    ensures pos < pos + SizeAt(img, pos) <= |img|
  {}

  lemma LoadIsFind(img: seq<byte>, tag: Tag, len: nat)
    requires |img| >= HEADER_LEN
    ensures var p := Find(img, HEADER_LEN, tag);
            Load(img, tag, len) ==
            if HeaderValid(img) && p >= 0 && LenAt(img, p) == len then ValueAt(img, p) else None
  {
    hide Find; hide HeaderValid; hide LenAt; hide TagAt; hide Crc32.Crc; hide ToU32; hide SizeAt;
  }

  lemma ValueLength(img: seq<byte>, pos: nat)
    requires EntryAt(img, pos) && ValueAt(img, pos).Some?
    ensures |ValueAt(img, pos).value| == LenAt(img, pos)
  {
    hide LenAt; hide TagAt; hide Crc32.Crc; hide ToU32; hide SizeAt;
  }

  // Loading with the right length gives what the map has under the tag, and
  // nothing else does.
  lemma LoadIsLookup(img: seq<byte>, tag: Tag, len: nat)
    requires |img| >= HEADER_LEN
    ensures Load(img, tag, len) ==
            if tag in Contents(img) && |Contents(img)[tag]| == len then Some(Contents(img)[tag]) else None
  {
    hide Find; hide Entries; hide ApplyAll; hide HeaderValid; hide Load; hide LenAt; hide ValueAt; hide EntryAt; hide TagAt;
    var p := Find(img, HEADER_LEN, tag);
    FindIsLookup(img, HEADER_LEN, tag, map[]);
    LoadIsFind(img, tag, len);
    if p >= 0 && ValueAt(img, p).Some? {
      ValueLength(img, p);
    }
  }

  // ---- Rebuilding the image ----

  lemma {:induction false} ApplyAllSplit(m: Map, a: seq<seq<byte>>, b: seq<seq<byte>>)
    requires AllWellFormed(a) && AllWellFormed(b)
    ensures AllWellFormed(a + b)
    ensures ApplyAll(m, a + b) == ApplyAll(ApplyAll(m, a), b)
    decreases |a|
  {
    hide WellFormed; hide Apply;
    if a == [] {
      assert a + b == b;
    } else {
      assert (a + b)[1..] == a[1..] + b;
      ApplyAllSplit(Apply(m, a[0]), a[1..], b);
    }
  }

  lemma ApplyForgets(m: Map, e: seq<byte>, tag: Tag)
    requires WellFormed(e)
    ensures if TagAt(e, 0) == tag then Apply(m, e) - {tag} == m - {tag}
            else Apply(m - {tag}, e) == Apply(m, e) - {tag}
  {
    hide TagAt; hide Intact; hide Payload; hide EntryAt; hide SizeAt;
  }

  // Leaving a tag's entries out removes the tag and changes nothing else.
  lemma {:induction false} OthersForget(m: Map, es: seq<seq<byte>>, tag: Tag)
    requires AllWellFormed(es)
    ensures ApplyAll(m - {tag}, Others(es, tag)) == ApplyAll(m, es) - {tag}
    decreases |es|
  {
    hide TagAt; hide Apply; hide SizeAt;
    if es != [] {
      ApplyForgets(m, es[0], tag);
      OthersForget(Apply(m, es[0]), es[1..], tag);
      if TagAt(es[0], 0) != tag {
        assert Others(es, tag)[1..] == Others(es[1..], tag);
      }
    }
  }

  lemma NewEntryReads(tag: Tag, data: seq<byte>)
    requires !Erased(tag) && |data| <= LEN_MAX
    ensures var e := NewEntry(tag, data);
            WellFormed(e) && TagAt(e, 0) == tag && Payload(e) == data && Intact(e)
  {
    U16RoundTrip(tag.id);
    U32RoundTrip(Crc32.Crc(data));
    hide Crc32.Crc; hide U16; hide U32; hide ToU16; hide ToU32; hide LenBytes; hide LenOf; hide Erased;
    var e := NewEntry(tag, data);
    assert e[0] == U16(tag.id)[0] && e[1] == U16(tag.id)[1];
    assert e[2] == LenBytes(|data|)[0] && e[3] == LenBytes(|data|)[1];
    assert LenAt(e, 0) == |data|;
    assert e[4..8] == U32(Crc32.Crc(data));
    assert e[ENTRY_LEN..ENTRY_LEN + |data|] == data;
  }

  lemma ErasedFiller()
    ensures Erased(Tag(ToU16(0xFF, 0xFF)))
  {}

  // An entry at a position of a larger image.
  lemma EntryInside(img: seq<byte>, pos: nat, e: seq<byte>)
    requires WellFormed(e) && pos + |e| <= |img| && img[pos..pos + |e|] == e
    ensures EntryAt(img, pos) && SizeAt(img, pos) == |e|
  {
    hide ToU16; hide LenOf; hide Erased;
    assert img[pos] == e[0] && img[pos + 1] == e[1] && img[pos + 2] == e[2] && img[pos + 3] == e[3];
  }

  // Walking a rebuilt image finds exactly the entries put into it.
  lemma {:induction false} WalkFinds(pre: seq<byte>, es: seq<seq<byte>>, n: nat)
    requires AllWellFormed(es)
    ensures Entries(pre + Join(es) + Filler(n), |pre|) == es
    decreases |es|
  {
    hide WellFormed; hide EntryAt; hide SizeAt;
    var img := pre + Join(es) + Filler(n);
    if es == [] {
      FillerEnds(pre, n);
      assert img == pre + Filler(n);
    } else {
      var e := es[0];
      Assoc(pre, e, Join(es[1..]));
      assert img[|pre|..|pre| + |e|] == e;
      EntryInside(img, |pre|, e);
      WalkFinds(pre + e, es[1..], n);
    }
  }

  lemma FillerEnds(pre: seq<byte>, n: nat)
    ensures !EntryAt(pre + Filler(n), |pre|)
  {
    hide ToU16; hide LenOf; hide Erased;
    ErasedFiller();
  }

  lemma HeaderReads(rest: seq<byte>)
    ensures HeaderValid(Header() + rest)
  {
    U32RoundTrip(0x4B524B53);
    U16RoundTrip(1);
    hide U32; hide U16; hide ToU32; hide ToU16;
    var img := Header() + rest;
    assert img[..4] == U32(0x4B524B53);
    assert img[4] == U16(1)[0] && img[5] == U16(1)[1];
  }

  lemma ImageStores(es: seq<seq<byte>>, size: nat)
    requires AllWellFormed(es) && HEADER_LEN + |Join(es)| <= size
    ensures Contents(Image(es, size)) == ApplyAll(map[], es)
  {
    hide Entries; hide HeaderValid; hide WellFormed; hide Header;
    var n := size - HEADER_LEN - |Join(es)|;
    WalkFinds(Header(), es, n);
    assert Image(es, size) == Header() + (Join(es) + Filler(n));
    HeaderReads(Join(es) + Filler(n));
  }

  // Whatever the image was, saving stores the data under the tag, and every other
  // tag keeps what it had.
  lemma SaveRefinesMap(img: seq<byte>, tag: Tag, data: seq<byte>)
    requires |img| >= HEADER_LEN && !Erased(tag) && |data| <= LEN_MAX && Fits(img, tag, data)
    ensures Contents(Save(img, tag, data)) == Contents(img)[tag := data]
  {
    hide WellFormed; hide NewEntry; hide Entries; hide Intact; hide Payload; hide TagAt; hide Crc32.Crc; hide HeaderValid;
    var es, e := Existing(img), NewEntry(tag, data);
    var others := Others(es, tag);
    NewEntryReads(tag, data);
    JoinSnoc(others, e);
    ImageStores(others + [e], |img|);
    ApplyAllSplit(map[], others, [e]);
    OthersForget(map[], es, tag);
    var nothing: Map := map[];
    assert nothing - {tag} == nothing;
    assert [e][1..] == [];
    var m := ApplyAll(map[], others);
    assert ApplyAll(m, [e]) == Apply(m, e);
    assert ApplyAll(map[], es) == Contents(img);
    assert (Contents(img) - {tag})[tag := data] == Contents(img)[tag := data];
  }

  // As loads see it: the saved data comes back, every other load is as before.
  lemma SaveThenLoad(img: seq<byte>, tag: Tag, data: seq<byte>, other: Tag, len: nat)
    requires |img| >= HEADER_LEN && !Erased(tag) && |data| <= LEN_MAX && Fits(img, tag, data)
    ensures Load(Save(img, tag, data), tag, |data|) == Some(data)
    ensures other != tag ==> Load(Save(img, tag, data), other, len) == Load(img, other, len)
  {
    hide Load; hide Save; hide Contents; hide Fits; hide Erased;
    SaveRefinesMap(img, tag, data);
    var saved := Save(img, tag, data);
    LoadIsLookup(saved, tag, |data|);
    LoadIsLookup(saved, other, len);
    LoadIsLookup(img, other, len);
    MapPut(Contents(img), tag, data, tag);
    MapPut(Contents(img), tag, data, other);
  }

  // ---- Room ----

  // The kept entries take the room of all entries less that of any entry left out.
  lemma {:induction false} OthersLength(img: seq<byte>, pos: nat, tag: Tag)
    ensures |Join(Entries(img, pos))| == End(img, pos) - pos
    ensures var p := Find(img, pos, tag);
            |Join(Others(Entries(img, pos), tag))| + (if p >= 0 then SizeAt(img, p) else 0) <= End(img, pos) - pos
    decreases |img| - pos
  {
    FindStep(img, pos, tag);
    hide EntryAt; hide SizeAt; hide TagAt; hide WellFormed; hide Find;
    if EntryAt(img, pos) {
      CutOut(img, pos);
      EntryGrows(img, pos);
      var next := pos + SizeAt(img, pos);
      var e, tail := img[pos..next], Entries(img, next);
      assert Entries(img, pos)[1..] == tail;
      OthersLength(img, next, tag);
      if TagAt(img, pos) != tag {
        assert Others(Entries(img, pos), tag)[1..] == Others(tail, tag);
      }
    }
  }

  // Data of a length that is already stored under its tag always fits again.
  lemma RewriteFits(img: seq<byte>, tag: Tag, data: seq<byte>)
    requires |img| >= HEADER_LEN && Load(img, tag, |data|).Some?
    ensures Fits(img, tag, data)
  {
    LoadIsFind(img, tag, |data|);
    OthersLength(img, HEADER_LEN, tag);
    hide HeaderValid; hide Find; hide EntryAt; hide LenAt; hide Entries; hide Others; hide Join; hide ValueAt; hide End;
  }

  // ---- Damage ----

  lemma SameHeader(a: seq<byte>, b: seq<byte>, pos: nat)
    requires |a| == |b| && pos + ENTRY_LEN <= |a|
    requires forall i :: pos <= i < pos + ENTRY_LEN ==> a[i] == b[i]
    ensures TagAt(a, pos) == TagAt(b, pos) && LenAt(a, pos) == LenAt(b, pos)
    ensures SizeAt(a, pos) == SizeAt(b, pos) && EntryAt(a, pos) == EntryAt(b, pos)
    ensures a[pos + 4..pos + 8] == b[pos + 4..pos + 8]
  {
    hide ToU16; hide LenOf; hide Erased; hide AlignUp;
  }

  lemma NoRoom(img: seq<byte>, pos: nat)
    requires pos + ENTRY_LEN > |img|
    ensures !EntryAt(img, pos)
  {}

  // The walk over two images that agree from a position on.
  lemma {:induction false} FindSameTail(a: seq<byte>, b: seq<byte>, pos: nat, tag: Tag)
    requires |a| == |b| && forall i :: pos <= i < |a| ==> a[i] == b[i]
    ensures Find(a, pos, tag) == Find(b, pos, tag)
    decreases |a| - pos
  {
    hide EntryAt; hide TagAt; hide LenAt; hide SizeAt; hide Find;
    FindStep(a, pos, tag);
    FindStep(b, pos, tag);
    if pos + ENTRY_LEN <= |a| {
      SameHeader(a, b, pos);
      if EntryAt(a, pos) {
        EntryGrows(a, pos);
        FindSameTail(a, b, pos + SizeAt(a, pos), tag);
      }
    } else {
      NoRoom(a, pos);
      NoRoom(b, pos);
    }
  }

  // Changing only the payload of the entry that a walk finds leads the walk to
  // the same entry.
  lemma {:induction false} FindDespiteDamage(a: seq<byte>, b: seq<byte>, pos: nat, tag: Tag)
    requires |a| == |b| && Find(a, pos, tag) >= 0
    requires var p := Find(a, pos, tag);
             forall i :: 0 <= i < |a| && !(p + ENTRY_LEN <= i < p + ENTRY_LEN + LenAt(a, p)) ==> a[i] == b[i]
    ensures Find(b, pos, tag) == Find(a, pos, tag)
    decreases |a| - pos
  {
    hide EntryAt; hide TagAt; hide LenAt; hide SizeAt; hide Find;
    var p := Find(a, pos, tag);
    FindStep(a, pos, tag);
    FindStep(b, pos, tag);
    EntryGrows(a, pos);
    EntryHasRoom(a, pos);
    SameHeader(a, b, pos);
    var next := pos + SizeAt(a, pos);
    if Find(a, next, tag) >= 0 {
      FindDespiteDamage(a, b, next, tag);
    } else {
      FindSameTail(a, b, next, tag);
    }
  }

  lemma EntryHasRoom(img: seq<byte>, pos: nat)
    requires EntryAt(img, pos)
    ensures pos + ENTRY_LEN <= |img|
  {}

  // Damage within 4 consecutive payload bytes of the entry a load would return
  // makes every load of that tag fail.
  lemma DamageIsSeen(a: seq<byte>, b: seq<byte>, tag: Tag, len: nat, at: nat)
    requires |a| == |b| && |a| >= HEADER_LEN && a != b && Load(a, tag, len).Some?
    requires var p := Find(a, HEADER_LEN, tag) + ENTRY_LEN;
             p <= at && forall i :: 0 <= i < |a| && !(at <= i < at + 4 && i < p + len) ==> a[i] == b[i]
    ensures forall n :: Load(b, tag, n) == None
  {
    hide Find; hide EntryAt; hide TagAt; hide LenAt; hide SizeAt; hide Load; hide ValueAt;
    var p := Find(a, HEADER_LEN, tag);
    LoadIsFind(a, tag, len);
    FindDespiteDamage(a, b, HEADER_LEN, tag);
    EntryHasRoom(a, p);
    SameHeader(a, b, p);
    ValueDamaged(a, b, p, at);
    forall n
      ensures Load(b, tag, n) == None
    {
      LoadIsFind(b, tag, n);
    }
  }

  lemma ValueDamaged(a: seq<byte>, b: seq<byte>, p: nat, at: nat)
    requires |a| == |b| && a != b && EntryAt(a, p) && EntryAt(b, p) && ValueAt(a, p).Some?
    requires LenAt(a, p) == LenAt(b, p) && a[p + 4..p + 8] == b[p + 4..p + 8]
    requires p + ENTRY_LEN <= at
    requires forall i :: 0 <= i < |a| && !(at <= i < at + 4 && i < p + ENTRY_LEN + LenAt(a, p)) ==> a[i] == b[i]
    ensures ValueAt(b, p) == None
  {
    hide TagAt; hide LenAt; hide SizeAt; hide Crc32.Crc; hide ToU32;
    var from := p + ENTRY_LEN;
    var x, y := a[from..from + LenAt(a, p)], b[from..from + LenAt(a, p)];
    var i :| 0 <= i < |a| && a[i] != b[i];
    assert x[i - from] != y[i - from];
    Crc32.FourBytesDetected(x, y, at - from);
  }
}
