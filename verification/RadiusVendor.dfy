/** The vendor attribute enumerator of RADIUS messages (radius_message.c): attributes inside of
    Vendor-Specific attributes. */
module RadiusVendor {
  import opened Bytes
  import opened Lists
  import opened RadiusMessage
  import opened RadiusBuilding

  datatype VendorAttr = VendorAttr(vendor: U32, attr: Attr)

  // ---------------------------------------------------------------- specification

  function Tagged(vendor: U32, attrs: seq<Attr>): (r: seq<VendorAttr>)
    ensures |r| == |attrs| && forall i | 0 <= i < |r| :: r[i] == VendorAttr(vendor, attrs[i])
  {
    seq(|attrs|, i requires 0 <= i < |attrs| => VendorAttr(vendor, attrs[i]))
  }

  /** The attributes inside of one attribute */
  function Inside(a: Attr): seq<VendorAttr> {
    if a.kind == VENDOR_SPECIFIC && |a.value| >= 4 then Tagged(FromBe32(a.value[..4]), Split(a.value[4..])) else []
  }

  /** All of them, in the order of the message */
  function InsideAll(attrs: seq<Attr>): seq<VendorAttr> {
    if attrs == [] then [] else Inside(attrs[0]) + InsideAll(attrs[1..])
  }

  // ---------------------------------------------------------------- byte by byte

  /** Attributes one after the other: type, length with these two bytes, value */
  ghost function Laid(attrs: seq<Attr>): seq<Byte>
    requires Short(attrs)
  {
    if attrs == [] then []
    else
      assert attrs[0] in attrs;
      [attrs[0].kind, |attrs[0].value| + 2] + attrs[0].value + Laid(attrs[1..])
  }

  /** No attribute lies within these bytes. */
  ghost predicate Broken(s: seq<Byte>) { |s| < 2 || s[1] < 2 || s[1] as int > |s| }

  lemma {:induction false} SplitExactly(attrs: seq<Attr>, rest: seq<Byte>)
    requires Short(attrs) && Broken(rest)
    ensures Split(Laid(attrs) + rest) == attrs
    decreases |attrs|
  {
    if attrs == [] {
      assert [] + rest == rest;
    } else {
      var a, s := attrs[0], Laid(attrs) + rest;
      assert a in attrs;
      FirstLaid(a, Laid(attrs[1..]), rest);
      SplitExactly(attrs[1..], rest);
    }
  }

  lemma FirstLaid(a: Attr, tail: seq<Byte>, rest: seq<Byte>)
    requires |a.value| <= MAX_ATTRIBUTE
    ensures var s := [a.kind, (|a.value| + 2) as Byte] + a.value + tail + rest;
            HasAttr(s) && s[0] == a.kind && s[2..s[1]] == a.value && s[s[1]..] == tail + rest
  {
  }

  /** All bytes are whole attributes and then something else. */
  lemma {:induction false} EverySplit(s: seq<Byte>) returns (attrs: seq<Attr>, rest: seq<Byte>)
    ensures Short(attrs) && Broken(rest) && s == Laid(attrs) + rest
    decreases |s|
  {
    if Broken(s) {
      attrs, rest := [], s;
    } else {
      var n: nat := s[1];
      var a, tail := Attr(s[0], s[2..n]), s[n..];
      var attrs1;
      attrs1, rest := EverySplit(tail);
      attrs := [a] + attrs1;
      assert attrs[1..] == attrs1;
      assert s == [s[0], s[1]] + a.value + (Laid(attrs1) + rest);
    }
  }

  /** Section 5.26 of RFC 2865: the vendor in network byte order, and then its attributes */
  lemma InsideExactly(a: Attr, vendor: seq<Byte>, attrs: seq<Attr>, rest: seq<Byte>)
    requires |vendor| == 4 && Short(attrs) && Broken(rest) && a.value == vendor + (Laid(attrs) + rest)
    ensures if a.kind != 26 then Inside(a) == []
            else |Inside(a)| == |attrs| && forall i | 0 <= i < |attrs| ::
                   Inside(a)[i].vendor == Number(vendor) && Inside(a)[i].attr == attrs[i]
  {
    SplitExactly(attrs, rest);
    assert a.value[..4] == vendor && a.value[4..] == Laid(attrs) + rest;
    NumberOfFour(vendor);
  }

  // ---------------------------------------------------------------- what is packed comes back

  datatype Group = Group(vendor: U32, attrs: seq<Attr>)

  ghost predicate Short(attrs: seq<Attr>) { forall a | a in attrs :: |a.value| <= MAX_ATTRIBUTE }

  ghost function EncodeAll(attrs: seq<Attr>): seq<Byte>
    requires Short(attrs)
  {
    if attrs == [] then [] else EncodeAll(attrs[..|attrs| - 1]) + Encode(attrs[|attrs| - 1])
  }

  lemma {:induction false} EncodeAllSplits(attrs: seq<Attr>)
    requires Short(attrs)
    ensures Whole(EncodeAll(attrs)) && Split(EncodeAll(attrs)) == attrs
  {
    if attrs != [] {
      var n := |attrs| - 1;
      EncodeAllSplits(attrs[..n]);
      SplitAppend(EncodeAll(attrs[..n]), attrs[n]);
      assert attrs == attrs[..n] + [attrs[n]];
    }
  }

  /** A Vendor-Specific attribute that holds several attributes of one vendor */
  ghost function Packed(g: Group): Attr
    requires Short(g.attrs)
  {
    Attr(VENDOR_SPECIFIC, Be32(g.vendor) + EncodeAll(g.attrs))
  }

  lemma PackedInside(g: Group)
    requires Short(g.attrs)
    ensures Inside(Packed(g)) == Tagged(g.vendor, g.attrs)
  {
    var v := Packed(g).value;
    EncodeAllSplits(g.attrs);
    Be32RoundTrip(g.vendor, []);
    assert v[..4] == Be32(g.vendor) + [] && v[4..] == EncodeAll(g.attrs);
  }

  /** One add to a message: a group of vendor attributes, or any attribute whatever, a password or a
      malformed Vendor-Specific attribute too */
  datatype Item = Vendor(g: Group) | Other(a: Attr)

  ghost predicate Proper(i: Item) { i.Vendor? ==> Short(i.g.attrs) && |Packed(i.g).value| <= MAX_ATTRIBUTE }

  ghost predicate AllProper(items: seq<Item>) { forall i | i in items :: Proper(i) }

  ghost function AttrOf(i: Item): Attr
    requires Proper(i)
  {
    if i.Vendor? then Packed(i.g) else i.a
  }

  ghost function Attrs(items: seq<Item>): seq<Attr>
    requires AllProper(items)
  {
    if items == [] then []
    else
      assert items[0] in items;
      [AttrOf(items[0])] + Attrs(items[1..])
  }

  /** A group yields its attributes; anything else what is found in it by itself, cut to 253 bytes */
  ghost function ExpectedOf(i: Item): seq<VendorAttr> {
    if i.Vendor? then Tagged(i.g.vendor, i.g.attrs) else Inside(CutAttr(i.a))
  }

  ghost function Expected(items: seq<Item>): seq<VendorAttr> {
    if items == [] then []
    else ExpectedOf(items[0]) + Expected(items[1..])
  }

  lemma ItemInside(i: Item)
    requires Proper(i)
    ensures Inside(CutAttr(AttrOf(i))) == ExpectedOf(i)
  {
    if i.Vendor? {
      assert CutAttr(Packed(i.g)) == Packed(i.g);
      PackedInside(i.g);
    }
  }

  /** A password that is kept back holds no vendor attributes. */
  lemma KeptStep(password: seq<Byte>, a: Attr, rest: seq<Attr>)
    ensures var now := if Defers(password, a.kind) then NullPadded(a.value) else password;
            InsideAll(Kept(password, [a] + rest)) == Inside(CutAttr(a)) + InsideAll(Kept(now, rest))
  {
    assert ([a] + rest)[1..] == rest;
    if Defers(password, a.kind) {
      assert Inside(CutAttr(a)) == [];
    } else {
      var kept := Kept(password, [a] + rest);
      assert kept[0] == CutAttr(a) && kept[1..] == Kept(password, rest);
    }
  }

  lemma {:induction false} ItemsInside(password: seq<Byte>, items: seq<Item>)
    requires AllProper(items)
    ensures InsideAll(Kept(password, Attrs(items))) == Expected(items)
    decreases items
  {
    if items != [] {
      assert items[0] in items;
      var a := AttrOf(items[0]);
      ItemInside(items[0]);
      KeptStep(password, a, Attrs(items[1..]));
      ItemsInside(if Defers(password, a.kind) then NullPadded(a.value) else password, items[1..]);
    }
  }

  /** Whatever is added in between, the vendor attributes of a message come back in order, each with
      its vendor, and nothing that stands elsewhere has a part in what one attribute yields. */
  lemma VendorAttrsComeBack(code: Byte, items: seq<Item>)
    requires AllProper(items) && HEADER + TotalSize(Kept([], Attrs(items))) < 0x1_0000
    ensures |Create(code)| == HEADER
    ensures var m := AddAll(Create(code), [], Attrs(items)).0;
            SoundAt(m, HEADER) && InsideAll(Split(Body(m))) == Expected(items)
  {
    var m := Create(code);
    assert |m| == HEADER + |m[HEADER..]|;
    AddAllKeeps(m, [], Attrs(items));
    assert Split(Body(m)) + Kept([], Attrs(items)) == Kept([], Attrs(items));
    ItemsInside([], items);
  }

  lemma TaggedCons(vendor: U32, a: Attr, attrs: seq<Attr>)
    ensures Tagged(vendor, [a] + attrs) == [VendorAttr(vendor, a)] + Tagged(vendor, attrs)
  {
  }

  lemma TaggedStep(vendor: U32, s: seq<Byte>, rest: seq<VendorAttr>)
    requires HasAttr(s)
    ensures Tagged(vendor, Split(s)) + rest
            == [VendorAttr(vendor, Attr(s[0], s[2..s[1]]))] + (Tagged(vendor, Split(s[s[1]..])) + rest)
  {
    var a, attrs := Attr(s[0], s[2..s[1]]), Split(s[s[1]..]);
    TaggedCons(vendor, a, attrs);
    Assoc([VendorAttr(vendor, a)], Tagged(vendor, attrs), rest);
  }

  // ---------------------------------------------------------------- implementation

  class VendorEnumerator {
    const inner: Enumerator
    var vendor: U32
    /** what is left of the current Vendor-Specific attribute */
    var reader: Option<seq<Byte>>

    ghost predicate Valid()
      reads this, inner
    {
      inner.Valid() && SoundAt(inner.msg, inner.next)
    }

    /** What is still to come */
    ghost function Left(): seq<VendorAttr>
      reads this, inner
    {
      (if reader.Some? then Tagged(vendor, Split(reader.value)) else []) + InsideAll(AttrsAt(inner.msg, inner.next))
    }

    constructor (msg: seq<Byte>)
      requires WellFormed(msg) && SoundAt(msg, HEADER)
      ensures Valid() && Left() == InsideAll(Split(Body(msg))) && fresh(inner)
    {
      inner := new Enumerator(msg);
      vendor, reader := 0, None;
      new;
      AttrsAtIsSplit(msg, HEADER);
    }

    /** Reads the next attribute from the current Vendor-Specific one. */
    method ReadNext() returns (ok: bool, next: VendorAttr)
      requires Valid() && reader.Some?
      modifies `reader
      ensures Valid()
      ensures ok ==> old(Left()) == [next] + Left()
      ensures !ok ==> reader.None? && Left() == old(Left())
    {
      var s := reader.value;
      ghost var rest := InsideAll(AttrsAt(inner.msg, inner.next));
      if |s| >= 2 && s[1] >= 2 && s[1] as int - 2 <= |s| - 2 {
        TaggedStep(vendor, s, rest);
        next := VendorAttr(vendor, Attr(s[0], s[2..s[1]]));
        reader := Some(s[s[1]..]);
        return true, next;
      }
      reader := None;
      assert Tagged(vendor, Split(s)) + rest == rest;
      return false, VendorAttr(0, Attr(0, []));
    }

    /** Moves on to the next attribute of the message. */
    method NextAttribute() returns (more: bool)
      requires Valid() && reader.None?
      modifies this, inner
      ensures Valid() && Left() == old(Left())
      ensures more ==> inner.left < old(inner.left)
      ensures !more ==> Left() == []
    {
      ghost var attrs := AttrsAt(inner.msg, inner.next);
      NextAttr(inner.msg, inner.next);
      var kind, at, len;
      more, kind, at, len := inner.Enumerate();
      if !more {
        return;
      }
      var data := inner.msg[at..at + len];
      assert attrs[0] == Attr(kind, data) && attrs[1..] == AttrsAt(inner.msg, inner.next);
      if kind == VENDOR_SPECIFIC && len >= 4 {
        vendor, reader := FromBe32(data[..4]), Some(data[4..]);
      }
    }

    /** vendor_enumerate */
    method Enumerate() returns (ok: bool, next: VendorAttr)
      requires Valid()
      modifies this, inner
      ensures Valid()
      ensures ok <==> old(Left()) != []
      ensures ok ==> old(Left()) == [next] + Left()
    {
      next := VendorAttr(0, Attr(0, []));
      while true
        invariant Valid() && Left() == old(Left())
        decreases inner.left
      {
        if reader.Some? {
          ok, next := ReadNext();
          if ok {
            return;
          }
        }
        var more := NextAttribute();
        if !more {
          return false, next;
        }
      }
    }
  }
}
