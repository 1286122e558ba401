/** What the decoder makes of the encoder's output. */
module PackageRoundTrip {
  import opened Bytes
  import opened Package
  import opened PackageEncoder
  import opened PackageDecoder

  /** Encoding and decoding classes without empty method names returns them in order, and the code with them. */
  method RoundTrip(cs: seq<Class>, codes: seq<byte>) returns (classes: seq<Class>, codebase: seq<byte>)
    requires ValidClasses(cs) && |Header(cs)| + 8 <= BUFFER_SIZE && |codes| < 0x1_0000
    requires |File(cs, codes)| < 0x1_0000
    requires forall k :: 0 <= k < |cs| ==> AllNamed(cs[k])
    ensures codebase == codes && |classes| == |cs|
    ensures forall k :: 0 <= k < |cs| ==> classes[k].name == cs[k].name && |classes[k].methods| == |cs[k].methods|
    ensures forall k, j :: 0 <= k < |cs| && 0 <= j < |cs[k].methods| ==>
      var m, r := cs[k].methods[j], classes[k].methods[j];
      r == Method(m.name, m.numargs, EndSwap16(m.offset), NO_EVENT, [])
  {
    hide Header, File, ValidClasses, AllNamed;
    var encoder := new Encoder();
    var size := encoder.FlushFile(cs, codes);
    var decoder := new Decoder(encoder.buffer[..size]);
    codebase := decoder.DecodeBuffer(cs, codes);
    classes := decoder.classes;
  }

  /** An offset comes back right if and only if its two bytes are equal; 1 comes back as 256. */
  lemma OffsetComesBack(m: Method)
    ensures Returned(m).offset == m.offset <==> m.offset / 0x100 == m.offset % 0x100
    ensures m.offset == 1 ==> Returned(m).offset == 0x100
  {
    EndSwap16Fixed(m.offset);
  }

  /**
    One class, encoded and decoded: its methods come back up to the first one without a name, and the
    decoder gets to the end of the class if and only if there is none.
    */
  method ClassRoundTrip(c: Class) returns (d: Class, size: nat, off: nat)
    requires ValidClass(c) && |ClassValue(c)| < 0x1_0000 && |ClassTlv(c)| + 2 <= BUFFER_SIZE
    ensures d.name == c.name && |d.methods| <= |c.methods|
    ensures forall k :: 0 <= k < |d.methods| ==> c.methods[k].name != [] && d.methods[k] == Returned(c.methods[k])
    ensures |d.methods| < |c.methods| ==> c.methods[|d.methods|].name == []
    ensures size == |ClassTlv(c)| && (off == size <==> forall m <- c.methods :: m.name != [])
  {
    hide ClassTlv, ClassValue, ValidClass;
    var encoder := new Encoder();
    size := encoder.FlushClass(c, 0);
    var decoder := new Decoder(encoder.buffer[..size]);
    assert encoder.buffer[0..size] == encoder.buffer[..size] == decoder.file[0..];
    off := decoder.DecodeClassSeq(0, Object(c));
    d := decoder.classes[0];
  }

  /**
    A package whose first class with a nameless method is class k: when the decoder has been through
    class k, the classes before it are back, and class k is installed without its nameless method and
    what follows that.
    */
  method NamelessPackage(cs: seq<Class>, k: nat) returns (classes: seq<Class>)
    requires ValidClasses(cs) && |Header(cs)| + 8 <= BUFFER_SIZE
    requires k < |cs| && (forall j :: 0 <= j < k ==> AllNamed(cs[j])) && !AllNamed(cs[k])
    ensures |classes| == k + 1 && classes[..k] == ReturnedClasses(cs[..k])
    ensures classes[k] == Heard(cs[k]) && |classes[k].methods| < |cs[k].methods|
  {
    hide *;
    HeaderFits(cs);
    var encoder := new Encoder();
    var size := encoder.FlushRoot(cs);
    var decoder := new Decoder(encoder.buffer[..size]);
    decoder.WholeFile();
    ItemsAre(cs);
    UpToClass(cs, k);
    HeardIsShort(cs[k]);
    ghost var items := Items(cs);
    var off, end := decoder.OpenHeader(0, Header(cs));
    off := decoder.HeaderTurns(off, |EntryItems(cs)| + k + 1, items);
    classes := decoder.classes;
    Behind(classes, ReturnedClasses(cs[..k]), Heard(cs[k]));
  }

  lemma HeaderFits(cs: seq<Class>)
    requires ValidClasses(cs) && |Header(cs)| + 8 <= BUFFER_SIZE
    ensures |Header(cs)| < 0x1_0000
  {
    hide Header;
  }

  lemma Behind<T>(a: seq<T>, b: seq<T>, x: T)
    requires a == b + [x]
    ensures |a| == |b| + 1 && a[..|b|] == b && a[|b|] == x
  {
  }

  /** What stands in front of class k in the outer sequence. */
  function Front(cs: seq<Class>, k: nat): seq<Item>
    requires k <= |cs|
  {
    EntryItems(cs) + ObjectItems(cs[..k])
  }

  lemma FrontOfItems(cs: seq<Class>, k: nat)
    requires k < |cs|
    ensures var n := |EntryItems(cs)| + k;
      n < |Items(cs)| && Items(cs)[n] == Object(cs[k]) && Items(cs)[..n] == Front(cs, k)
  {
    hide EntryItems;
    assert ObjectItems(cs)[..k] == ObjectItems(cs[..k]);
  }

  lemma FrontIsComplete(cs: seq<Class>, k: nat)
    requires k <= |cs| && forall j :: 0 <= j < k ==> AllNamed(cs[j])
    ensures forall i <- Front(cs, k) :: Complete(i)
  {
    hide EntryItems, AllNamed;
    EntryItemsAreEntries(cs);
    forall i | i in Front(cs, k)
      ensures Complete(i)
    {
      if i !in EntryItems(cs) {
        assert i in ObjectItems(cs[..k]);
      }
    }
  }

  lemma FrontInstalls(cs: seq<Class>, k: nat)
    requires ValidClasses(cs) && k <= |cs|
    ensures Installed(Front(cs, k)) == ReturnedClasses(cs[..k]) && |ReturnedClasses(cs[..k])| == k
  {
    hide Installed, EntryItems, ObjectItems, ReturnedClasses, ItemsBytes, ValidClass, ClassValue;
    EntryItemsAre(cs);
    ObjectItemsAre(cs[..k]);
    Joined(EntryItems(cs), ObjectItems(cs[..k]));
  }

  /** The items in front of class k are complete and install the classes before it. */
  lemma UpToClass(cs: seq<Class>, k: nat)
    requires ValidClasses(cs) && k < |cs| && forall j :: 0 <= j < k ==> AllNamed(cs[j])
    ensures var n := |EntryItems(cs)| + k;
      && n < |Items(cs)| && Items(cs)[n] == Object(cs[k]) && Installed(Items(cs)[..n]) == ReturnedClasses(cs[..k])
      && forall j :: 0 <= j < n ==> Complete(Items(cs)[j])
    ensures |ReturnedClasses(cs[..k])| == k
  {
    hide *;
    var n, items := |EntryItems(cs)| + k, Items(cs);
    FrontOfItems(cs, k);
    FrontIsComplete(cs, k);
    FrontInstalls(cs, k);
    forall j | 0 <= j < n
      ensures Complete(items[j])
    {
      assert items[..n][j] in Front(cs, k);
    }
  }

  lemma HeardIsShort(c: Class)
    ensures !AllNamed(c) ==> |Heard(c).methods| < |c.methods|
  {
  }

  /** A class of two methods that comes back with none, because its first method has no name. */
  lemma NamelessMethod() returns (c: Class)
    ensures ValidClass(c) && |c.methods| == 2 && c.methods[1].name != []
    ensures Heard(c) == Class(c.name, [])
  {
    c := Class([65], [Method([], 0, 3, NO_EVENT, []), Method([66], 0, 9, NO_EVENT, [])]);
    assert Named(c.methods) == 0;
    assert c.methods[..0] == [];
    assert ReturnedMethods([]) == [];
  }
}
