/** lk_decode_buffer and its helpers: a reader whose offset advances while classes are installed. */
module PackageDecoder {
  import opened Bytes
  import opened Package

  /** The buffer holds w at p. */
  predicate Holds(file: seq<byte>, p: nat, w: seq<byte>) {
    p + |w| <= |file| && file[p..p + |w|] == w
  }

  lemma HoldsParts(file: seq<byte>, p: nat, a: seq<byte>, b: seq<byte>)
    requires Holds(file, p, a + b)
    ensures Holds(file, p, a) && Holds(file, p + |a|, b)
    ensures a != [] ==> file[p] == a[0]
  {
    var w := file[p..p + |a + b|];
    assert file[p..p + |a|] == w[..|a|] == (a + b)[..|a|];
    assert file[p + |a|..p + |a| + |b|] == w[|a|..] == (a + b)[|a|..];
  }

  /** One TLV of the outer sequence. */
  datatype Item = Entry(tag: byte, value: seq<byte>) | Object(c: Class)

  predicate ValidItem(i: Item) {
    match i
    case Entry(t, v) => (t == ASN_TAG_OCTSTRING || t == ASN_TAG_INTEGER) && |v| < 0x1_0000
    case Object(c) => ValidClass(c) && |ClassValue(c)| < 0x1_0000
  }

  /** The decoder gets to the end of it. */
  predicate Complete(i: Item) {
    i.Object? ==> AllNamed(i.c)
  }

  predicate ValidItems(items: seq<Item>) {
    forall k :: 0 <= k < |items| ==> ValidItem(items[k])
  }

  function ItemBytes(i: Item): (b: seq<byte>)
    requires ValidItem(i)
    ensures |b| > 0
  {
    match i
    case Entry(t, v) => Tlv(t, v)
    case Object(c) => ClassTlv(c)
  }

  function ItemsBytes(items: seq<Item>): seq<byte>
    requires ValidItems(items)
  {
    if items == [] then [] else ItemBytes(items[0]) + ItemsBytes(items[1..])
  }

  /** The classes the decoder installs for some items. */
  function Installed(items: seq<Item>): seq<Class> {
    if items == [] then [] else InstalledBy(items[0]) + Installed(items[1..])
  }

  function InstalledBy(i: Item): seq<Class> {
    if i.Object? then ReturnedClasses([i.c]) else []
  }

  lemma {:induction false} Joined(a: seq<Item>, b: seq<Item>)
    requires ValidItems(a) && ValidItems(b)
    ensures ValidItems(a + b) && ItemsBytes(a + b) == ItemsBytes(a) + ItemsBytes(b)
    ensures Installed(a + b) == Installed(a) + Installed(b)
  {
    hide ItemBytes, ValidItem, InstalledBy;
    if a == [] {
      assert a + b == b;
    } else {
      assert (a + b)[0] == a[0] && (a + b)[1..] == a[1..] + b;
      Joined(a[1..], b);
    }
  }

  /** The items of pk_flush_entries for one method, and for a list of them. */
  function MethodItems(m: Method): seq<Item> {
    var offset: seq<byte> := [m.offset / 0x100, m.offset % 0x100];
    (if m.alias == [] then [] else [Entry(ASN_TAG_OCTSTRING, offset + m.alias)]) +
    (if m.event == NO_EVENT then [] else [Entry(ASN_TAG_INTEGER, offset + [m.event])])
  }

  function MethodsItems(ms: seq<Method>): seq<Item> {
    if ms == [] then [] else MethodsItems(ms[..|ms| - 1]) + MethodItems(ms[|ms| - 1])
  }

  function EntryItems(cs: seq<Class>): seq<Item> {
    if cs == [] then [] else EntryItems(cs[..|cs| - 1]) + MethodsItems(cs[|cs| - 1].methods)
  }

  function ObjectItems(cs: seq<Class>): seq<Item> {
    seq(|cs|, k requires 0 <= k < |cs| => Object(cs[k]))
  }

  lemma OneItem(i: Item)
    requires ValidItem(i)
    ensures ValidItems([i]) && ItemsBytes([i]) == ItemBytes(i)
    ensures Installed([i]) == if i.Object? then ReturnedClasses([i.c]) else []
  {
  }

  lemma MethodItemsAre(m: Method)
    requires ValidMethod(m)
    ensures ValidItems(MethodItems(m)) && ItemsBytes(MethodItems(m)) == MethodEntries(m)
    ensures Installed(MethodItems(m)) == []
  {
    hide Tlv, LengthBytes, Installed, ItemsBytes, ReturnedClasses;
    NoItems();
    var offset: seq<byte> := [m.offset / 0x100, m.offset % 0x100];
    var a, e := Entry(ASN_TAG_OCTSTRING, offset + m.alias), Entry(ASN_TAG_INTEGER, offset + [m.event]);
    OneItem(a);
    OneItem(e);
    var menu := if m.alias == [] then [] else [a];
    var events := if m.event == NO_EVENT then [] else [e];
    Joined(menu, events);
  }

  lemma {:induction false} MethodsItemsAre(ms: seq<Method>)
    requires ValidMethods(ms)
    ensures ValidItems(MethodsItems(ms)) && ItemsBytes(MethodsItems(ms)) == MethodsEntries(ms)
    ensures Installed(MethodsItems(ms)) == []
  {
    hide Installed, ItemsBytes, MethodItems, MethodEntries;
    NoItems();
    if ms != [] {
      var n := |ms| - 1;
      MethodsItemsAre(ms[..n]);
      MethodItemsAre(ms[n]);
      Joined(MethodsItems(ms[..n]), MethodItems(ms[n]));
    }
  }

  lemma NoItems()
    ensures ItemsBytes([]) == [] && Installed([]) == []
  {
  }

  lemma {:induction false} EntryItemsAre(cs: seq<Class>)
    requires ValidClasses(cs)
    ensures ValidItems(EntryItems(cs)) && ItemsBytes(EntryItems(cs)) == Entries(cs) && Installed(EntryItems(cs)) == []
  {
    hide ItemsBytes, Installed, MethodsEntries, MethodsItems;
    NoItems();
    if cs != [] {
      var n := |cs| - 1;
      assert ValidClass(cs[n]);
      EntryItemsAre(cs[..n]);
      MethodsItemsAre(cs[n].methods);
      Joined(EntryItems(cs[..n]), MethodsItems(cs[n].methods));
    }
  }

  lemma {:induction false} ObjectItemsAre(cs: seq<Class>)
    requires ValidClasses(cs)
    ensures ValidItems(ObjectItems(cs)) && ItemsBytes(ObjectItems(cs)) == ClassTlvs(cs)
    ensures Installed(ObjectItems(cs)) == ReturnedClasses(cs)
  {
    hide ItemsBytes, Installed, ClassTlv, ReturnedMethods, ClassValue;
    NoItems();
    if cs == [] {
      assert ObjectItems(cs) == [] && ReturnedClasses(cs) == [];
    } else {
      var n := |cs| - 1;
      ObjectItemsAre(cs[..n]);
      OneItem(Object(cs[n]));
      Joined(ObjectItems(cs[..n]), [Object(cs[n])]);
      assert ObjectItems(cs) == ObjectItems(cs[..n]) + [Object(cs[n])];
      assert ReturnedClasses(cs) == ReturnedClasses(cs[..n]) + ReturnedClasses([cs[n]]);
    }
  }

  function Items(cs: seq<Class>): seq<Item> {
    EntryItems(cs) + ObjectItems(cs)
  }

  /** The outer sequence as the decoder sees it: entries to skip, then the classes in order. */
  lemma ItemsAre(cs: seq<Class>)
    requires ValidClasses(cs)
    ensures ValidItems(Items(cs)) && ItemsBytes(Items(cs)) == Header(cs) && Installed(Items(cs)) == ReturnedClasses(cs)
  {
    EntryItemsAre(cs);
    ObjectItemsAre(cs);
    Joined(EntryItems(cs), ObjectItems(cs));
  }

  lemma InstalledNext(items: seq<Item>, k: nat)
    requires ValidItems(items) && k < |items|
    ensures Installed(items[..k + 1]) == Installed(items[..k]) + InstalledBy(items[k])
  {
    hide Installed, ItemsBytes, InstalledBy, ItemBytes;
    OneInstalled(items[k]);
    assert items[..k + 1] == items[..k] + [items[k]];
    Joined(items[..k], [items[k]]);
  }

  lemma OneInstalled(i: Item)
    ensures Installed([i]) == InstalledBy(i)
  {
  }

  lemma {:induction false} EntriesAreEntries(ms: seq<Method>)
    ensures forall i <- MethodsItems(ms) :: i.Entry?
  {
    if ms != [] { EntriesAreEntries(ms[..|ms| - 1]); }
  }

  lemma {:induction false} EntryItemsAreEntries(cs: seq<Class>)
    ensures forall i <- EntryItems(cs) :: i.Entry?
  {
    if cs != [] {
      EntryItemsAreEntries(cs[..|cs| - 1]);
      EntriesAreEntries(cs[|cs| - 1].methods);
    }
  }

  lemma AllComplete(cs: seq<Class>)
    requires forall k :: 0 <= k < |cs| ==> AllNamed(cs[k])
    ensures forall k :: 0 <= k < |Items(cs)| ==> Complete(Items(cs)[k])
  {
    hide EntryItems, AllNamed;
    EntryItemsAreEntries(cs);
    forall k | 0 <= k < |Items(cs)|
      ensures Complete(Items(cs)[k])
    {
      var n := |EntryItems(cs)|;
      if k < n {
        assert Items(cs)[k] in EntryItems(cs);
      } else {
        assert Items(cs)[k] == Object(cs[k - n]);
      }
    }
  }

  /** The methods from number k on lie at p: either none is left or method k comes first. */
  lemma MethodsLeft(file: seq<byte>, p: nat, ms: seq<Method>, k: nat)
    requires ValidMethods(ms) && k <= |ms| && Holds(file, p, MethodTlvs(ms[k..]))
    ensures k == |ms| ==> MethodTlvs(ms[k..]) == []
    ensures k < |ms| ==>
              && ValidMethod(ms[k]) && Holds(file, p, MethodTlv(ms[k]))
              && Holds(file, p + |MethodTlv(ms[k])|, MethodTlvs(ms[k + 1..]))
              && |MethodTlvs(ms[k..])| == |MethodTlv(ms[k])| + |MethodTlvs(ms[k + 1..])|
  {
    hide Holds, MethodTlv;
    if k < |ms| {
      MethodTlvsHead(ms[k..]);
      assert ms[k..][1..] == ms[k + 1..];
      HoldsParts(file, p, MethodTlv(ms[k]), MethodTlvs(ms[k + 1..]));
    }
  }

  lemma MethodReturned(ms: seq<Method>, k: nat)
    requires k < |ms|
    ensures ReturnedMethods(ms[..k]) + [Returned(ms[k])] == ReturnedMethods(ms[..k + 1])
    ensures ReturnedMethods(ms[..0]) == [] && ReturnedMethods(ms[..|ms|]) == ReturnedMethods(ms)
  {
  }

  lemma MethodValueParts(m: Method)
    ensures var v := MethodValue(m);
            && v == v[..2] + v[2..] && v[2..] == v[2..3] + v[3..]
            && v[2..3][0] == m.numargs && v[3..] == m.name
            && Returned(m) == Method(m.name, m.numargs, Load16(v[..2], 0), NO_EVENT, [])
  {
  }

  lemma ShortLength(m: Method)
    ensures m.name == [] ==> |LengthBytes(|MethodValue(m)|)| == 1
  {
  }

  /** The scratch buffer, with a name and a NUL put in front, reads as that name. */
  lemma ScratchHolds(name: seq<byte>, scratch: seq<byte>)
    requires |scratch| == NAME_SIZE && |name| < NAME_SIZE && 0 !in name
    ensures var buf := (name + scratch[|name|..])[|name| := 0]; |buf| == NAME_SIZE && CString(buf) == name
  {
    hide CString;
    var buf := (name + scratch[|name|..])[|name| := 0];
    assert buf == name + buf[|name|..];
    CStringOf(name, buf[|name|..]);
  }

  /** What has been heard of a class when k methods are in and the next one has no name or is missing. */
  lemma HeardUpTo(c: Class, k: nat)
    requires k <= |c.methods| && forall j :: 0 <= j < k ==> c.methods[j].name != []
    requires k == |c.methods| || c.methods[k].name == []
    ensures Heard(c) == Class(c.name, ReturnedMethods(c.methods[..k])) && (AllNamed(c) <==> k == |c.methods|)
  {
    assert Named(c.methods) == k;
  }

  /** An item is a TLV. */
  lemma ItemIsTlv(i: Item) returns (t: byte, v: seq<byte>)
    requires ValidItem(i)
    ensures |v| < 0x1_0000 && ItemBytes(i) == Tlv(t, v) && |ItemBytes(i)| == 1 + |LengthBytes(|v|)| + |v|
    ensures i.Object? ==> t % 0x20 == ASN_TAG_SEQ && v == ClassValue(i.c) && ValidClass(i.c)
    ensures !i.Object? ==> t == ASN_TAG_OCTSTRING || t == ASN_TAG_INTEGER
    ensures Complete(i) <==> (i.Object? ==> AllNamed(i.c))
    ensures Complete(i) ==> InstalledBy(i) == if i.Object? then [Heard(i.c)] else []
  {
    hide ClassValue, ReturnedMethods, AllNamed;
    match i
    case Entry(w, b) => t, v := w, b;
    case Object(c) => t, v := ASN_TAG_SEQ + ASN_TAG_CONSTRUCTED, ClassValue(c); HeardIfNamed(c);
  }

  lemma HeardIfNamed(c: Class)
    ensures AllNamed(c) ==> ReturnedClasses([c]) == [Heard(c)]
  {
    if AllNamed(c) {
      assert c.methods[..Named(c.methods)] == c.methods;
    }
  }

  lemma ItemsLeft(file: seq<byte>, p: nat, items: seq<Item>, k: nat)
    requires ValidItems(items) && k <= |items| && Holds(file, p, ItemsBytes(items[k..]))
    ensures k == |items| ==> ItemsBytes(items[k..]) == [] && Installed(items[k..]) == []
    ensures k < |items| ==>
              && ValidItem(items[k]) && Holds(file, p, ItemBytes(items[k]))
              && Holds(file, p + |ItemBytes(items[k])|, ItemsBytes(items[k + 1..]))
              && |ItemsBytes(items[k..])| == |ItemBytes(items[k])| + |ItemsBytes(items[k + 1..])|
              && Installed(items[k..]) == InstalledBy(items[k]) + Installed(items[k + 1..])
  {
    hide Holds, ItemBytes, ValidItem;
    if k < |items| {
      assert items[k..][1..] == items[k + 1..];
      HoldsParts(file, p, ItemBytes(items[k]), ItemsBytes(items[k + 1..]));
    }
  }

  predicate HasLength(file: seq<byte>, p: nat) {
    p < |file| && (file[p] >= 0x80 ==> p + 2 < |file|)
  }

  /** The length that starts at p, and how many bytes it takes. */
  function LengthAt(file: seq<byte>, p: nat): word
    requires HasLength(file, p)
  {
    if file[p] >= 0x80 then Word(file, p + 1) else file[p]
  }

  function LengthSize(file: seq<byte>, p: nat): nat
    requires HasLength(file, p)
  {
    if file[p] >= 0x80 then 3 else 1
  }

  /** Lengths that the encoder writes are read back. */
  lemma LengthIsRead(file: seq<byte>, p: nat, n: word)
    requires Holds(file, p, LengthBytes(n))
    ensures HasLength(file, p) && LengthAt(file, p) == n && LengthSize(file, p) == |LengthBytes(n)|
  {
    var w := file[p..p + |LengthBytes(n)|];
    assert w[0] == file[p] && (n >= 127 ==> w[1] == file[p + 1] && w[2] == file[p + 2]);
  }

  const NAME_SIZE := 256

  /** lk_context together with the list _pk_iroot. */
  class Decoder {
    const file: seq<byte>
    var offset: nat
    var classes: seq<Class>

    constructor (file: seq<byte>)
      ensures this.file == file && classes == []
    {
      this.file, offset, classes := file, 0, [];
    }

    /** lk_read */
    method Read(size: nat) returns (b: seq<byte>)
      modifies `offset
      ensures old(offset) >= |file| ==> b == []
      ensures old(offset) < |file| ==>
                b == file[old(offset)..if old(offset) + size > |file| then |file| else old(offset) + size]
      ensures offset == old(offset) + |b|
    {
      if offset >= |file| {
        return [];
      }
      var n := if offset + size > |file| then |file| - offset else size;
      b := file[offset..offset + n];
      offset := offset + n;
    }

    /** lk_read where w is what comes next. */
    method ReadNext(size: nat, ghost w: seq<byte>) returns (b: seq<byte>)
      requires Holds(file, offset, w) && |w| == size
      modifies `offset
      ensures b == w && offset == old(offset) + size
    {
      b := Read(size);
    }

    /** The length octets of a TLV: whatever the high bit announces, two bytes follow it. */
    method ReadLength() returns (l: word)
      requires HasLength(file, offset)
      modifies `offset
      ensures l == LengthAt(file, old(offset)) && offset == old(offset) + LengthSize(file, old(offset))
    {
      var t := Read(1);
      if t[0] >= 0x80 {
        var b := Read(2);
        l := EndSwap16(Load16(b, 0));
      } else {
        l := t[0];
      }
    }

    /** The class name: installs a class and leaves the name in the scratch buffer. */
    method DecodeName(ghost name: seq<byte>, scratch: seq<byte>) returns (buf: seq<byte>)
      requires |scratch| == NAME_SIZE && scratch == seq(NAME_SIZE, _ => 0)
      requires |name| < 0x100 && 0 !in name && Holds(file, offset, LengthBytes(|name|) + name)
      modifies this
      ensures offset == old(offset) + |LengthBytes(|name|) + name|
      ensures classes == old(classes) + [Class(name, [])]
      ensures |buf| == NAME_SIZE
    {
      HoldsParts(file, offset, LengthBytes(|name|), name);
      LengthIsRead(file, offset, |name|);
      var l := ReadLength();
      var b := ReadNext(l, name);
      buf := b + scratch[l..];
      CStringOf(name, scratch[l..]);
      classes := classes + [Class(CString(buf), [])];
    }

    /** A method: registered with the class installed last, unless its name is empty. */
    method DecodeMethod(ghost m: Method, scratch: seq<byte>) returns (named: bool, buf: seq<byte>)
      requires |scratch| == NAME_SIZE && ValidMethod(m)
      requires Holds(file, offset, LengthBytes(|MethodValue(m)|) + MethodValue(m))
      requires classes != []
      modifies this
      ensures named <==> m.name != []
      ensures offset == old(offset) + if named then |LengthBytes(|MethodValue(m)|) + MethodValue(m)| else 1
      ensures var n := |old(classes)| - 1;
              if named
              then classes == old(classes)[n := old(classes)[n].(methods := old(classes)[n].methods + [Returned(m)])]
              else classes == old(classes)
      ensures |buf| == NAME_SIZE
    {
      hide Holds, CString, MethodValue, Returned, LengthBytes;
      ghost var v := MethodValue(m);
      MethodValueParts(m);
      ShortLength(m);
      HoldsParts(file, offset, LengthBytes(|v|), v);
      named, buf := true, scratch;
      LengthIsRead(file, offset, |v|);
      var l := ReadLength();
      if l <= 3 {
        named := false;
        return;
      }
      buf := DecodeNamed(m, scratch, l);
    }

    /** The rest of a method value of l bytes whose name is not empty. */
    method DecodeNamed(ghost m: Method, scratch: seq<byte>, l: nat) returns (buf: seq<byte>)
      requires |scratch| == NAME_SIZE && ValidMethod(m) && m.name != []
      requires l == |MethodValue(m)| && Holds(file, offset, MethodValue(m)) && classes != []
      modifies this
      ensures offset == old(offset) + l && |buf| == NAME_SIZE
      ensures var n := |old(classes)| - 1;
              classes == old(classes)[n := old(classes)[n].(methods := old(classes)[n].methods + [Returned(m)])]
    {
      hide Holds, CString, MethodValue, Returned;
      ghost var v := MethodValue(m);
      MethodValueParts(m);
      HoldsParts(file, offset, v[..2], v[2..]);
      HoldsParts(file, offset + 2, v[2..3], v[3..]);
      var mOffset := ReadNext(2, v[..2]);
      var numargs := ReadNext(1, v[2..3]);
      var name := ReadNext(l - 3, v[3..]);
      buf := (name + scratch[l - 3..])[l - 3 := 0];
      ScratchHolds(m.name, scratch);
      var pkm := Method(CString(buf), numargs[0], Load16(mOffset, 0), NO_EVENT, []);
      assert pkm == Returned(m);
      RegisterMethod(pkm);
    }

    /** pk_register_method for the class installed last. */
    method RegisterMethod(pkm: Method)
      requires classes != []
      modifies `classes
      ensures var n := |old(classes)| - 1;
              classes == old(classes)[n := old(classes)[n].(methods := old(classes)[n].methods + [pkm])]
    {
      var n := |classes| - 1;
      classes := classes[n := classes[n].(methods := classes[n].methods + [pkm])];
    }

    /** The tag of the TLV that comes next. */
    method ReadTag(ghost t: byte, ghost v: seq<byte>) returns (tag: byte)
      requires |v| < 0x1_0000 && Holds(file, offset, Tlv(t, v))
      modifies `offset
      ensures tag == t && offset == old(offset) + 1 && Holds(file, offset, LengthBytes(|v|) + v)
    {
      hide Holds, LengthBytes;
      assert Tlv(t, v) == [t] + (LengthBytes(|v|) + v);
      HoldsParts(file, offset, [t], LengthBytes(|v|) + v);
      var b := ReadNext(1, [t]);
      tag := b[0];
    }

    /** lk_decode_class_header_buffer: a method without a name ends it, behind the length of that method. */
    method DecodeClassHeader(start: nat, length: word, ghost c: Class) returns (off: nat)
      requires ValidClass(c) && length == |ClassValue(c)| && Holds(file, start, ClassValue(c))
      modifies this
      ensures off == offset <= start + length && (off == start + length <==> AllNamed(c))
      ensures classes == old(classes) + [Heard(c)]
    {
      hide Holds, LengthBytes, MethodTlvs, MethodValue, ValidMethod, ReturnedMethods, Returned, Heard, AllNamed, Named;
      ghost var ms, before := c.methods, classes;
      ghost var k: nat, named := 0, false;
      ghost var tag: byte, v: seq<byte> := ASN_TAG_IA5STRING, c.name;
      HoldsParts(file, start, Tlv(tag, v), MethodTlvs(ms));
      assert ms[0..] == ms;
      var end := start + length;
      var buf := seq(NAME_SIZE, _ => 0);
      ghost var zeros := buf;
      offset := start;
      while offset < end
        invariant |buf| == NAME_SIZE && k <= |ms| && forall j :: 0 <= j < k ==> ms[j].name != []
        invariant !named ==> offset == start && classes == before && buf == zeros && k == 0
        invariant !named ==> tag == ASN_TAG_IA5STRING && v == c.name
        invariant named ==> offset + |MethodTlvs(ms[k..])| == end && Holds(file, offset, MethodTlvs(ms[k..]))
        invariant named ==> classes == before + [Class(c.name, ReturnedMethods(ms[..k]))]
        decreases end - offset
      {
        if named {
          MethodsLeft(file, offset, ms, k);
          MethodReturned(ms, k);
          tag, v := ASN_TAG_OCTSTRING, MethodValue(ms[k]);
        }
        var t := ReadTag(tag, v);
        if t % 0x20 == ASN_TAG_IA5STRING {
          buf := DecodeName(c.name, buf);
          named := true;
        } else if t % 0x20 == ASN_TAG_OCTSTRING {
          var known;
          known, buf := DecodeMethod(ms[k], buf);
          if !known {
            HeardUpTo(c, k);
            return offset;
          }
          k := k + 1;
        } else {
          assert false;
        }
      }
      MethodsLeft(file, offset, ms, k);
      HeardUpTo(c, k);
      off := offset;
    }

    /** lk_decode_class_seq_buffer */
    method DecodeClassSeq(start: nat, ghost item: Item) returns (off: nat)
      requires ValidItem(item) && Holds(file, start, ItemBytes(item))
      modifies this
      ensures off <= start + |ItemBytes(item)| && (off == start + |ItemBytes(item)| <==> Complete(item))
      ensures classes == old(classes) + if item.Object? then [Heard(item.c)] else []
      ensures Complete(item) ==> classes == old(classes) + InstalledBy(item)
    {
      hide Holds, LengthBytes, ClassValue, ValidClass, ItemBytes, InstalledBy, Complete, Heard, AllNamed, Tlv;
      ghost var tag, v := ItemIsTlv(item);
      offset := start;
      var t := ReadTag(tag, v);
      HoldsParts(file, offset, LengthBytes(|v|), v);
      if t % 0x20 == ASN_TAG_SEQ {
        LengthIsRead(file, offset, |v|);
        var l := ReadLength();
        off := DecodeClassHeader(offset, l, item.c);
      } else if t % 0x20 == ASN_TAG_OCTSTRING || t % 0x20 == ASN_TAG_INTEGER {
        LengthIsRead(file, offset, |v|);
        var l := ReadLength();
        off := offset + l;
      } else {
        assert false;
      }
    }

    /** The first lines of lk_decode_header_seq_buffer: where the items of the outer sequence start and end. */
    method OpenHeader(start: nat, ghost v: seq<byte>) returns (off: nat, end: nat)
      requires |v| < 0x1_0000 && Holds(file, start, Tlv(ASN_TAG_SEQ + ASN_TAG_CONSTRUCTED, v))
      modifies `offset
      ensures off == start + 1 + |LengthBytes(|v|)| && end == off + |v| && Holds(file, off, v)
    {
      hide Holds, LengthBytes;
      offset := start;
      var t := ReadTag(ASN_TAG_SEQ + ASN_TAG_CONSTRUCTED, v);
      HoldsParts(file, offset, LengthBytes(|v|), v);
      if t % 0x20 == ASN_TAG_SEQ {
        LengthIsRead(file, offset, |v|);
        var l := ReadLength();
        off := offset;
        end := off + l;
      } else {
        assert false;
      }
    }

    /** lk_decode_header_seq_buffer */
    method DecodeHeaderSeq(start: nat, ghost items: seq<Item>) returns (off: nat)
      requires ValidItems(items) && |ItemsBytes(items)| < 0x1_0000
      requires forall k :: 0 <= k < |items| ==> Complete(items[k])
      requires Holds(file, start, Tlv(ASN_TAG_SEQ + ASN_TAG_CONSTRUCTED, ItemsBytes(items)))
      modifies this
      ensures off == start + |Tlv(ASN_TAG_SEQ + ASN_TAG_CONSTRUCTED, ItemsBytes(items))|
      ensures classes == old(classes) + Installed(items)
    {
      hide Holds, LengthBytes, ItemBytes, ItemsBytes, Installed, InstalledBy, ValidItem;
      ghost var v := ItemsBytes(items);
      var end;
      off, end := OpenHeader(start, v);
      ghost var k: nat, before := 0, classes;
      assert items[0..] == items;
      while off < end
        invariant k <= |items| && off + |ItemsBytes(items[k..])| == end && Holds(file, off, ItemsBytes(items[k..]))
        invariant classes + Installed(items[k..]) == before + Installed(items)
        decreases end - off
      {
        ItemsLeft(file, off, items, k);
        ghost var sofar := classes;
        off := DecodeClassSeq(off, items[k]);
        assert classes + Installed(items[k + 1..]) == sofar + (InstalledBy(items[k]) + Installed(items[k + 1..]));
        k := k + 1;
      }
      ItemsLeft(file, off, items, k);
    }

    /** The first n turns of that loop, the last of which may be at a class with a nameless method. */
    method HeaderTurns(start: nat, n: nat, ghost items: seq<Item>) returns (off: nat)
      requires ValidItems(items) && 1 <= n <= |items| && Holds(file, start, ItemsBytes(items))
      requires forall k :: 0 <= k < n - 1 ==> Complete(items[k])
      modifies this
      ensures var last := items[n - 1];
              classes == old(classes) + Installed(items[..n - 1]) + if last.Object? then [Heard(last.c)] else []
    {
      hide Holds, LengthBytes, ItemBytes, ItemsBytes, Installed, InstalledBy, ValidItem, Heard, Complete;
      off := start;
      ghost var before := classes;
      assert items[0..] == items && items[..0] == [];
      NoItems();
      for k := 0 to n - 1
        invariant Holds(file, off, ItemsBytes(items[k..])) && classes == before + Installed(items[..k])
      {
        ItemsLeft(file, off, items, k);
        InstalledNext(items, k);
        off := DecodeClassSeq(off, items[k]);
      }
      ItemsLeft(file, off, items, n - 1);
      off := DecodeClassSeq(off, items[n - 1]);
    }

    /** lk_decode_data_seq_buffer */
    method DecodeDataSeq(start: nat, ghost codes: seq<byte>) returns (codebase: seq<byte>)
      requires |codes| < 0x1_0000 && Holds(file, start, Tlv(ASN_TAG_BMPSTRING, codes))
      modifies `offset
      ensures codebase == codes
    {
      hide Holds, LengthBytes;
      offset := start;
      var t := ReadTag(ASN_TAG_BMPSTRING, codes);
      HoldsParts(file, offset, LengthBytes(|codes|), codes);
      if t % 0x20 == ASN_TAG_BMPSTRING {
        LengthIsRead(file, offset, |codes|);
        var l := ReadLength();
        codebase := ReadNext(l, codes);
      } else {
        assert false;
      }
    }

    /** lk_decode_buffer of a package file that fits a 16-bit length. */
    method DecodeBuffer(ghost cs: seq<Class>, ghost codes: seq<byte>) returns (codebase: seq<byte>)
      requires ValidClasses(cs) && |Header(cs)| < 0x1_0000 && |codes| < 0x1_0000
      requires forall k :: 0 <= k < |cs| ==> AllNamed(cs[k])
      requires file == File(cs, codes) && |file| < 0x1_0000
      modifies this
      ensures codebase == codes && classes == ReturnedClasses(cs)
    {
      hide Holds, LengthBytes, Header, Items, Installed, ItemsBytes, ReturnedClasses, ValidClasses, AllNamed, Complete;
      ghost var v := Header(cs);
      ghost var outer := Tlv(ASN_TAG_SEQ + ASN_TAG_CONSTRUCTED, v);
      ItemsAre(cs);
      AllComplete(cs);
      WholeFile();
      HoldsParts(file, 0, outer, Tlv(ASN_TAG_BMPSTRING, codes));
      classes := [];
      offset := 0;
      var t := ReadTag(ASN_TAG_SEQ + ASN_TAG_CONSTRUCTED, v);
      HoldsParts(file, offset, LengthBytes(|v|), v);
      var off := 0;
      if t % 0x20 == ASN_TAG_SEQ {
        LengthIsRead(file, offset, |v|);
        var l := ReadLength();
        off := offset + l;
      }
      if off != 0 {
        codebase := DecodeDataSeq(off, codes);
      }
      off := DecodeHeaderSeq(0, Items(cs));
    }

    lemma WholeFile()
      ensures Holds(file, 0, file)
    {
    }
  }
}
