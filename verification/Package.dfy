/** The package format: classes and their methods as nested BER TLVs (section 8.1.3 of X.690). */
module Package {
  import opened Bytes

  const ASN_TAG_INTEGER := 2
  const ASN_TAG_OCTSTRING := 4
  const ASN_TAG_SEQ := 16
  const ASN_TAG_IA5STRING := 22
  const ASN_TAG_BMPSTRING := 30
  const ASN_TAG_CONSTRUCTED := 0x20
  const NO_EVENT := 0xFF

  /** pk_method; `offset` is relative to the class module, `event` and `alias` name its event and menu entry. */
  datatype Method = Method(name: seq<byte>, numargs: byte, offset: word, event: byte, alias: seq<byte>)

  /** pk_class with its list of properties. */
  datatype Class = Class(name: seq<byte>, methods: seq<Method>)

  /** Names are C strings in the 256 bytes of a record; methods also fit the encoder's 255-byte scratch buffer. */
  predicate ValidMethod(m: Method) {
    |m.name| <= 252 && 0 !in m.name && |m.alias| < 32
  }

  predicate ValidMethods(ms: seq<Method>) {
    forall k :: 0 <= k < |ms| ==> ValidMethod(ms[k])
  }

  predicate ValidClass(c: Class) {
    |c.name| < 0x100 && 0 !in c.name && ValidMethods(c.methods)
  }

  // ---------- what the encoder writes ----------

  /** Length octets of pk_push_tlv: short below 127, otherwise 0x82 and two bytes. */
  function LengthBytes(l: word): (b: seq<byte>)
    ensures |b| == if l < 127 then 1 else 3
  {
    if l < 127 then [l] else [0x82, l / 0x100, l % 0x100]
  }

  function Tlv(t: byte, v: seq<byte>): (b: seq<byte>)
    requires |v| < 0x1_0000
    ensures |b| == |v| + if |v| < 127 then 2 else 4
  {
    [t] + LengthBytes(|v|) + v
  }

  function MethodValue(m: Method): (b: seq<byte>)
    ensures |b| == |m.name| + 3
  {
    [m.offset / 0x100, m.offset % 0x100, m.numargs] + m.name
  }

  function MethodTlv(m: Method): seq<byte>
    requires ValidMethod(m)
  {
    Tlv(ASN_TAG_OCTSTRING, MethodValue(m))
  }

  function MethodTlvs(ms: seq<Method>): seq<byte>
    requires ValidMethods(ms)
  {
    if ms == [] then [] else MethodTlvs(ms[..|ms| - 1]) + MethodTlv(ms[|ms| - 1])
  }

  function ClassValue(c: Class): seq<byte>
    requires ValidClass(c)
  {
    Tlv(ASN_TAG_IA5STRING, c.name) + MethodTlvs(c.methods)
  }

  /** Every class fits into the two length bytes. */
  predicate ValidClasses(cs: seq<Class>) {
    forall k :: 0 <= k < |cs| ==> ValidClass(cs[k]) && |ClassValue(cs[k])| < 0x1_0000
  }

  function ClassTlv(c: Class): seq<byte>
    requires ValidClass(c) && |ClassValue(c)| < 0x1_0000
  {
    Tlv(ASN_TAG_SEQ + ASN_TAG_CONSTRUCTED, ClassValue(c))
  }

  function ClassTlvs(cs: seq<Class>): seq<byte>
    requires ValidClasses(cs)
  {
    if cs == [] then [] else ClassTlvs(cs[..|cs| - 1]) + ClassTlv(cs[|cs| - 1])
  }

  /** Menu and event entries of a method. */
  function MethodEntries(m: Method): seq<byte>
    requires ValidMethod(m)
  {
    var offset: seq<byte> := [m.offset / 0x100, m.offset % 0x100];
    (if m.alias == [] then [] else Tlv(ASN_TAG_OCTSTRING, offset + m.alias)) +
    (if m.event == NO_EVENT then [] else Tlv(ASN_TAG_INTEGER, offset + [m.event]))
  }

  function MethodsEntries(ms: seq<Method>): seq<byte>
    requires ValidMethods(ms)
  {
    if ms == [] then [] else MethodsEntries(ms[..|ms| - 1]) + MethodEntries(ms[|ms| - 1])
  }

  function Entries(cs: seq<Class>): seq<byte>
    requires ValidClasses(cs)
  {
    if cs == [] then [] else Entries(cs[..|cs| - 1]) + MethodsEntries(cs[|cs| - 1].methods)
  }

  /** All that pk_flush_root puts into the outer sequence, small enough for the package buffer. */
  function Header(cs: seq<Class>): seq<byte>
    requires ValidClasses(cs)
  {
    Entries(cs) + ClassTlvs(cs)
  }

  /** The package file: the header and the code. */
  function File(cs: seq<Class>, codes: seq<byte>): seq<byte>
    requires ValidClasses(cs) && |Header(cs)| < 0x1_0000 && |codes| < 0x1_0000
  {
    Tlv(ASN_TAG_SEQ + ASN_TAG_CONSTRUCTED, Header(cs)) + Tlv(ASN_TAG_BMPSTRING, codes)
  }

  // ---------- what the bytes say ----------

  /** Length octets are the definite form of section 8.1.3 of X.690. */
  lemma LengthIsDefinite(l: word)
    ensures OctetsOf(LengthBytes(l)) == |LengthBytes(l)| && DefiniteLength(LengthBytes(l)) == l
  {
    hide OctetsOf, DefiniteLength;
    if l < 127 { SingleOctet(l); } else { TwoOctets(l / 0x100, l % 0x100); }
  }

  /** A TLV is its tag, the length octets of its value, and the value. */
  lemma TlvReads(t: byte, v: seq<byte>)
    requires |v| < 0x1_0000
    ensures var b := Tlv(t, v);
      && b[0] == t && 1 + OctetsOf(b[1..]) <= |b|
      && DefiniteLength(b[1..]) == |v| && b[1 + OctetsOf(b[1..])..] == v
  {
    hide DefiniteLength;
    var b, l := Tlv(t, v), LengthBytes(|v|);
    LengthIsDefinite(|v|);
    assert b[1..] == l + v && b[1] == l[0];
    SameLength(l, v);
  }

  /** What follows the length octets does not matter. */
  lemma SameLength(l: seq<byte>, v: seq<byte>)
    requires l != [] && OctetsOf(l) == |l|
    ensures OctetsOf(l + v) == |l| && DefiniteLength(l + v) == DefiniteLength(l)
  {
    assert (l + v)[1..|l|] == l[1..|l|];
  }

  /** A method is its offset, highest byte first, its argument count and its name. */
  lemma MethodReads(m: Method)
    ensures var v := MethodValue(m); BigEndian(v[..2]) == m.offset && v[2] == m.numargs && v[3..] == m.name
  {
    OffsetReads(m.offset, MethodValue(m));
  }

  lemma OffsetReads(offset: word, v: seq<byte>)
    requires |v| >= 2 && v[0] == offset / 0x100 && v[1] == offset % 0x100
    ensures BigEndian(v[..2]) == offset
  {
    assert v[..2][..1] == [v[0]];
    assert BigEndian([v[0]]) == 0x100 * BigEndian([]) + v[0];
  }

  /**
    The entries of a method are one for its alias and one for its event, each if there is one: offset and alias
    in an octet string, offset and event in an integer.
    */
  lemma EntriesRead(m: Method) returns (menu: seq<byte>, event: seq<byte>)
    requires ValidMethod(m)
    ensures |menu| == 2 + |m.alias| < 127 && BigEndian(menu[..2]) == m.offset && menu[2..] == m.alias
    ensures |event| == 3 && BigEndian(event[..2]) == m.offset && event[2] == m.event
    ensures MethodEntries(m) == (if m.alias == [] then [] else Tlv(ASN_TAG_OCTSTRING, menu))
                              + (if m.event == NO_EVENT then [] else Tlv(ASN_TAG_INTEGER, event))
  {
    var offset: seq<byte> := [m.offset / 0x100, m.offset % 0x100];
    menu, event := offset + m.alias, offset + [m.event];
    OffsetReads(m.offset, menu);
    OffsetReads(m.offset, event);
  }

  lemma MethodTlvsUnfold(ms: seq<Method>, k: nat)
    requires ValidMethods(ms) && k < |ms|
    ensures MethodTlvs(ms[..k + 1]) == MethodTlvs(ms[..k]) + MethodTlv(ms[k])
    ensures MethodsEntries(ms[..k + 1]) == MethodsEntries(ms[..k]) + MethodEntries(ms[k])
  {
    assert ms[..k + 1][..k] == ms[..k];
  }

  lemma {:induction false} MethodTlvsGrow(ms: seq<Method>, k: nat)
    requires ValidMethods(ms) && k <= |ms|
    ensures |MethodTlvs(ms[..k])| <= |MethodTlvs(ms)|
    ensures |MethodsEntries(ms[..k])| <= |MethodsEntries(ms)|
    decreases |ms| - k
  {
    if k < |ms| {
      MethodTlvsGrow(ms, k + 1);
      MethodTlvsUnfold(ms, k);
    } else {
      assert ms[..k] == ms;
    }
  }

  lemma {:induction false} MethodTlvsHead(ms: seq<Method>)
    requires ValidMethods(ms) && ms != []
    ensures MethodTlvs(ms) == MethodTlv(ms[0]) + MethodTlvs(ms[1..])
  {
    hide MethodTlvs, MethodTlv, ValidMethod, MethodsEntries, MethodEntries;
    var n := |ms| - 1;
    MethodTlvsUnfold(ms, n);
    assert ms[..n + 1] == ms;
    if n > 0 {
      MethodTlvsHead(ms[..n]);
      MethodTlvsUnfold(ms[1..], n - 1);
      assert ms[..n][1..] == ms[1..][..n - 1] && ms[1..][..n] == ms[1..];
    } else {
      NoTlvs();
      assert ms[..n] == [] && ms[1..] == [];
    }
  }

  lemma NoTlvs()
    ensures MethodTlvs([]) == [] && ClassTlvs([]) == [] && MethodsEntries([]) == [] && Entries([]) == []
  {
  }

  lemma ClassTlvsUnfold(cs: seq<Class>, k: nat)
    requires ValidClasses(cs) && k < |cs|
    ensures ClassTlvs(cs[..k + 1]) == ClassTlvs(cs[..k]) + ClassTlv(cs[k])
    ensures Entries(cs[..k + 1]) == Entries(cs[..k]) + MethodsEntries(cs[k].methods)
  {
    assert cs[..k + 1][..k] == cs[..k];
  }

  lemma {:induction false} ClassTlvsGrow(cs: seq<Class>, k: nat)
    requires ValidClasses(cs) && k <= |cs|
    ensures |ClassTlvs(cs[..k])| <= |ClassTlvs(cs)|
    ensures |Entries(cs[..k])| <= |Entries(cs)|
    decreases |cs| - k
  {
    if k < |cs| {
      ClassTlvsGrow(cs, k + 1);
      ClassTlvsUnfold(cs, k);
    } else {
      assert cs[..k] == cs;
    }
  }

  // ---------- what comes back ----------

  /** The decoder loads the offset without swapping its bytes and does not keep entries. */
  function Returned(m: Method): Method {
    Method(m.name, m.numargs, EndSwap16(m.offset), NO_EVENT, [])
  }

  function ReturnedMethods(ms: seq<Method>): (rs: seq<Method>)
    ensures |rs| == |ms|
  {
    seq(|ms|, k requires 0 <= k < |ms| => Returned(ms[k]))
  }

  function ReturnedClasses(cs: seq<Class>): (rs: seq<Class>)
    ensures |rs| == |cs|
  {
    seq(|cs|, k requires 0 <= k < |cs| => Class(cs[k].name, ReturnedMethods(cs[k].methods)))
  }

  /** How many methods come before the first one whose name is empty. */
  function Named(ms: seq<Method>): (k: nat)
    ensures k <= |ms| && forall j :: 0 <= j < k ==> ms[j].name != []
    ensures k < |ms| ==> ms[k].name == []
  {
    if ms == [] || ms[0].name == [] then 0 else 1 + Named(ms[1..])
  }

  /** No method name is empty. */
  predicate AllNamed(c: Class) {
    Named(c.methods) == |c.methods|
  }

  /** What the decoder installs for a class: its methods up to the first one whose name is empty. */
  function Heard(c: Class): Class {
    Class(c.name, ReturnedMethods(c.methods[..Named(c.methods)]))
  }

  /** strcpy: the bytes before the first NUL. */
  function CString(b: seq<byte>): (s: seq<byte>) {
    if b == [] || b[0] == 0 then [] else [b[0]] + CString(b[1..])
  }

  lemma {:induction false} CStringOf(s: seq<byte>, rest: seq<byte>)
    requires 0 !in s && (rest == [] || rest[0] == 0)
    ensures CString(s + rest) == s
  {
    if s == [] {
      assert s + rest == rest;
    } else {
      assert (s + rest)[1..] == s[1..] + rest;
      CStringOf(s[1..], rest);
    }
  }
}
