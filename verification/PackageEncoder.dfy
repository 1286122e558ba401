/** pk_flush_root and its helpers: the package is built in one buffer, values moved behind their headers. */
module PackageEncoder {
  import opened Bytes
  import opened Package

  class Encoder {
    const buffer: array<byte>     // _pkg_buffer

    constructor ()
      ensures fresh(buffer) && buffer.Length == BUFFER_SIZE
    {
      buffer := new byte[BUFFER_SIZE];
    }

    /** Tag and length of pk_push_tlv. */
    method PushHeader(t: byte, l: word, p: nat) returns (sz: nat)
      requires p + |LengthBytes(l)| < buffer.Length
      modifies buffer
      ensures sz == 1 + |LengthBytes(l)| && buffer[p..p + sz] == [t] + LengthBytes(l)
      ensures buffer[..p] == old(buffer[..p]) && buffer[p + sz..] == old(buffer[p + sz..])
    {
      buffer[p] := t;
      if l < 127 {
        buffer[p + 1] := l;
        sz := 2;
      } else {
        buffer[p + 1], buffer[p + 2], buffer[p + 3] := 0x82, l / 0x100, l % 0x100;
        sz := 4;
      }
    }

    /** pk_push_tlv with a value outside the package buffer. */
    method PushTlv(t: byte, v: seq<byte>, p: nat) returns (sz: nat)
      requires |v| < 0x1_0000 && p + |Tlv(t, v)| <= buffer.Length
      modifies buffer
      ensures sz == |Tlv(t, v)| && buffer[..p + sz] == old(buffer[..p]) + Tlv(t, v)
    {
      hide LengthBytes;
      ghost var front := buffer[..p];
      sz := PushHeader(t, |v|, p);
      Joins(buffer[..], front, p + sz, [t] + LengthBytes(|v|));
      CopyIn(buffer, p + sz, v);
      sz := sz + |v|;
      assert buffer[..p + sz] == (front + ([t] + LengthBytes(|v|))) + v;
    }

    /** pk_push_tlv with a value at src in the package buffer, behind the place of its header. */
    method WrapTlv(t: byte, l: word, src: nat, p: nat) returns (sz: nat)
      requires p + 1 + |LengthBytes(l)| <= src && src + l <= buffer.Length
      modifies buffer
      ensures sz == 1 + |LengthBytes(l)| + l
      ensures buffer[..p + sz] == old(buffer[..p]) + Tlv(t, old(buffer[src..src + l]))
    {
      hide LengthBytes, Moved;
      ghost var front, v := buffer[..p], buffer[src..src + l];
      ghost var was := buffer[..];
      sz := PushHeader(t, l, p);
      ghost var b := buffer[..];
      BehindHeader(was, b, p + sz, src, l);
      Joins(b, front, p + sz, [t] + LengthBytes(l));
      MoveDown(buffer, p + sz, src, l);
      MovedSlices(b, p + sz, src, l, l);
      Joins(buffer[..], front + ([t] + LengthBytes(l)), p + sz + l, v);
      sz := sz + l;
      assert buffer[..p + sz] == (front + ([t] + LengthBytes(l))) + v;
    }

    /** Bytes behind a header stay as they were. */
    lemma BehindHeader(was: seq<byte>, b: seq<byte>, q: nat, src: nat, l: nat)
      requires q <= src && src + l <= |b| == |was| && b[q..] == was[q..]
      ensures b[src..src + l] == was[src..src + l]
    {
      SameSuffix(was, b, q, src);
      assert b[src..src + l] == b[src..][..l] && was[src..src + l] == was[src..][..l];
    }

    lemma Joins(b: seq<byte>, front: seq<byte>, n: nat, v: seq<byte>)
      requires |front| + |v| == n <= |b| && b[..|front|] == front && b[|front|..n] == v
      ensures b[..n] == front + v
    {
    }

    /** The scratch bytes at the head of a method or entry value. */
    function OffsetBytes(offset: word): (b: seq<byte>)
      ensures b == [offset / 0x100, offset % 0x100]
    {
      var swapped := EndSwap16(offset);
      [swapped % 0x100, swapped / 0x100]
    }

    /** pk_flush_objects for a list of methods; `buffer + sz + 2` of the original is p + sz here. */
    method FlushMethods(ms: seq<Method>, p: nat) returns (sz: nat)
      requires ValidMethods(ms) && p + |MethodTlvs(ms)| <= buffer.Length
      modifies buffer
      ensures sz == |MethodTlvs(ms)| && buffer[..p + sz] == old(buffer[..p]) + MethodTlvs(ms)
    {
      hide Tlv, LengthBytes, MethodTlvs, MethodsEntries, MethodEntries;
      ghost var front := buffer[..p];
      NoTlvs();
      sz := 0;
      for k := 0 to |ms|
        invariant sz == |MethodTlvs(ms[..k])| && p + sz <= buffer.Length
        invariant buffer[..p + sz] == front + MethodTlvs(ms[..k])
      {
        MethodTlvsUnfold(ms, k);
        MethodTlvsGrow(ms, k + 1);
        var d := OffsetBytes(ms[k].offset) + [ms[k].numargs] + ms[k].name;
        assert d == MethodValue(ms[k]);
        var n := PushTlv(ASN_TAG_OCTSTRING, d, p + sz);
        Regroup(front, MethodTlvs(ms[..k]), MethodTlv(ms[k]));
        sz := sz + n;
      }
      assert ms[..|ms|] == ms;
    }

    /** pk_flush_objects for a list of classes. */
    method FlushClasses(cs: seq<Class>, p: nat) returns (sz: nat)
      requires ValidClasses(cs) && p + |ClassTlvs(cs)| + 2 <= buffer.Length
      modifies buffer
      ensures sz == |ClassTlvs(cs)| && buffer[..p + sz] == old(buffer[..p]) + ClassTlvs(cs)
    {
      hide Tlv, LengthBytes, ClassTlvs, ClassTlv, ClassValue, MethodTlvs, Entries, MethodsEntries;
      ghost var front := buffer[..p];
      NoTlvs();
      sz := 0;
      for k := 0 to |cs|
        invariant sz == |ClassTlvs(cs[..k])| && p + sz + 2 <= buffer.Length
        invariant buffer[..p + sz] == front + ClassTlvs(cs[..k])
      {
        ClassTlvsUnfold(cs, k);
        ClassTlvsGrow(cs, k + 1);
        var n := FlushClass(cs[k], p + sz);
        Regroup(front, ClassTlvs(cs[..k]), ClassTlv(cs[k]));
        sz := sz + n;
      }
      assert cs[..|cs|] == cs;
    }

    /** The class case: name and methods four bytes ahead, then the header in front of them. */
    method FlushClass(c: Class, p: nat) returns (sz: nat)
      requires ValidClass(c) && |ClassValue(c)| < 0x1_0000 && p + |ClassTlv(c)| + 2 <= buffer.Length
      modifies buffer
      ensures sz == |ClassTlv(c)| && buffer[..p + sz] == old(buffer[..p]) + ClassTlv(c)
    {
      hide MethodTlvs, Tlv, LengthBytes, ValidMethods;
      ghost var ahead := buffer[..p + 4];
      var csz := PushTlv(ASN_TAG_IA5STRING, c.name, p + 4);
      var dsz := FlushMethods(c.methods, p + 4 + csz);
      csz := csz + dsz;
      Regroup(ahead, Tlv(ASN_TAG_IA5STRING, c.name), MethodTlvs(c.methods));
      Ahead(buffer[..], ahead, p, ClassValue(c));
      sz := WrapTlv(ASN_TAG_SEQ + ASN_TAG_CONSTRUCTED, csz, p + 4, p);
    }

    /** pk_flush_entries for one method: its menu entry, then its event entry. */
    method FlushMethodEntries(m: Method, p: nat) returns (sz: nat)
      requires ValidMethod(m) && p + |MethodEntries(m)| <= buffer.Length
      modifies buffer
      ensures sz == |MethodEntries(m)| && buffer[..p + sz] == old(buffer[..p]) + MethodEntries(m)
    {
      hide Tlv, LengthBytes;
      ghost var front := buffer[..p];
      sz := 0;
      ghost var menu, event := [], [];
      if m.alias != [] {
        menu := Tlv(ASN_TAG_OCTSTRING, OffsetBytes(m.offset) + m.alias);
        sz := PushTlv(ASN_TAG_OCTSTRING, OffsetBytes(m.offset) + m.alias, p);
      }
      if m.event != NO_EVENT {
        event := Tlv(ASN_TAG_INTEGER, OffsetBytes(m.offset) + [m.event]);
        var n := PushTlv(ASN_TAG_INTEGER, OffsetBytes(m.offset) + [m.event], p + sz);
        sz := sz + n;
      }
      Regroup(front, menu, event);
      assert MethodEntries(m) == menu + event;
    }

    /** pk_flush_entries for a list of methods. */
    method FlushMethodsEntries(ms: seq<Method>, p: nat) returns (sz: nat)
      requires ValidMethods(ms) && p + |MethodsEntries(ms)| <= buffer.Length
      modifies buffer
      ensures sz == |MethodsEntries(ms)| && buffer[..p + sz] == old(buffer[..p]) + MethodsEntries(ms)
    {
      hide MethodEntries, MethodsEntries, MethodTlvs, MethodTlv;
      ghost var front := buffer[..p];
      NoTlvs();
      sz := 0;
      for k := 0 to |ms|
        invariant sz == |MethodsEntries(ms[..k])| && p + sz <= buffer.Length
        invariant buffer[..p + sz] == front + MethodsEntries(ms[..k])
      {
        MethodTlvsUnfold(ms, k);
        MethodTlvsGrow(ms, k + 1);
        var n := FlushMethodEntries(ms[k], p + sz);
        Regroup(front, MethodsEntries(ms[..k]), MethodEntries(ms[k]));
        sz := sz + n;
      }
      assert ms[..|ms|] == ms;
    }

    /** pk_flush_entries for a list of classes. */
    method FlushEntries(cs: seq<Class>, p: nat) returns (sz: nat)
      requires ValidClasses(cs) && p + |Entries(cs)| <= buffer.Length
      modifies buffer
      ensures sz == |Entries(cs)| && buffer[..p + sz] == old(buffer[..p]) + Entries(cs)
    {
      hide MethodsEntries, Entries, Tlv, LengthBytes, ClassTlvs, ClassTlv, ClassValue;
      ghost var front := buffer[..p];
      NoTlvs();
      sz := 0;
      for k := 0 to |cs|
        invariant sz == |Entries(cs[..k])| && p + sz <= buffer.Length
        invariant buffer[..p + sz] == front + Entries(cs[..k])
      {
        ClassTlvsUnfold(cs, k);
        ClassTlvsGrow(cs, k + 1);
        var n := FlushMethodsEntries(cs[k].methods, p + sz);
        Regroup(front, Entries(cs[..k]), MethodsEntries(cs[k].methods));
        sz := sz + n;
      }
      assert cs[..|cs|] == cs;
    }

    /** pk_flush_root */
    method FlushRoot(cs: seq<Class>) returns (sz: nat)
      requires buffer.Length == BUFFER_SIZE && ValidClasses(cs) && |Header(cs)| + 8 <= BUFFER_SIZE
      modifies buffer
      ensures sz == |Tlv(ASN_TAG_SEQ + ASN_TAG_CONSTRUCTED, Header(cs))|
      ensures buffer[..sz] == Tlv(ASN_TAG_SEQ + ASN_TAG_CONSTRUCTED, Header(cs))
    {
      hide Tlv, LengthBytes, Entries, ClassTlvs, ValidClasses;
      ghost var ahead := buffer[..6];
      var csz := FlushEntries(cs, 6);
      var dsz := FlushClasses(cs, csz + 6);
      csz := csz + dsz;
      Regroup(ahead, Entries(cs), ClassTlvs(cs));
      Ahead(buffer[..], ahead, 2, Header(cs));
      sz := WrapTlv(ASN_TAG_SEQ + ASN_TAG_CONSTRUCTED, csz, 6, 0);
      assert buffer[..0] == [];
    }

    /** pk_file_flush, up to what it hands to fwrite. */
    method FlushFile(cs: seq<Class>, codes: seq<byte>) returns (size: nat)
      requires buffer.Length == BUFFER_SIZE && ValidClasses(cs) && |Header(cs)| + 8 <= BUFFER_SIZE
      requires |codes| < 0x1_0000 && |File(cs, codes)| <= BUFFER_SIZE
      modifies buffer
      ensures size == |File(cs, codes)| && buffer[..size] == File(cs, codes)
    {
      hide Tlv, LengthBytes, Entries, ClassTlvs, ValidClasses, Header;
      size := FlushRoot(cs);
      var n := PushTlv(ASN_TAG_BMPSTRING, codes, size);
      size := size + n;
    }

    lemma Regroup(a: seq<byte>, b: seq<byte>, c: seq<byte>)
      ensures a + b + c == a + (b + c)
    {
    }

    /** A value v written behind `ahead` lies four bytes behind p, and what was in front of p is still there. */
    lemma Ahead(b: seq<byte>, ahead: seq<byte>, p: nat, v: seq<byte>)
      requires |ahead| == p + 4 && |ahead| + |v| <= |b| && b[..|ahead| + |v|] == ahead + v
      ensures b[p + 4..p + 4 + |v|] == v && b[..p] == ahead[..p]
    {
      var n := |ahead| + |v|;
      assert b[p + 4..n] == b[..n][p + 4..] && b[..p] == b[..n][..p];
    }
  }
}
