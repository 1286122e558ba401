/** The constant pool of il_streamer.c and the constant loader of vm_stack.c. */
module ConstantPool {
  import opened Bytes

  const VA_OBJECT_MAX_SIZE := 0x1000

  /** The length prefix is_push_constant chooses. */
  function Prefix(n: nat): seq<byte> {
    if n < 0x80 then [n] else if n < 0x100 then [0x81, n] else [0x82, n / 0x100 % 0x100, n % 0x100]
  }

  lemma PrefixIsShort(n: nat)
    ensures 1 <= |Prefix(n)| <= 3
  {
  }

  /** The prefix is the definite form of section 8.1.3 of X.690. */
  lemma PrefixIsDefinite(n: nat)
    requires n < 0x1_0000
    ensures OctetsOf(Prefix(n)) == |Prefix(n)| && DefiniteLength(Prefix(n)) == n
  {
    hide OctetsOf, DefiniteLength;
    if n < 0x80 {
      SingleOctet(n);
    } else if n < 0x100 {
      OneOctet(n);
    } else {
      TwoOctets(n / 0x100 % 0x100, n % 0x100);
    }
  }

  type Value = seq<byte>

  function Entry(v: Value): seq<byte> {
    Prefix(|v|) + v
  }

  /** The pool after the values vs were pushed in this order. */
  function Contents(vs: seq<Value>): seq<byte> {
    if vs == [] then [] else Contents(vs[..|vs| - 1]) + Entry(vs[|vs| - 1])
  }

  /** Where value k starts. */
  function Offset(vs: seq<Value>, k: nat): nat
    requires k <= |vs|
  {
    |Contents(vs[..k])|
  }

  lemma {:induction false} EntryAt(vs: seq<Value>, k: nat)
    requires k < |vs|
    ensures var o := Offset(vs, k);
            && o + |Entry(vs[k])| == Offset(vs, k + 1) <= |Contents(vs)|
            && Contents(vs)[o..o + |Entry(vs[k])|] == Entry(vs[k])
  {
    hide Contents, Entry;
    var n := |vs| - 1;
    LastEntry(vs);
    LastEntry(vs[..k + 1]);
    assert vs[..k + 1][..k] == vs[..k];
    if k < n {
      EntryAt(vs[..n], k);
      assert vs[..n][..k] == vs[..k] && vs[..n][..k + 1] == vs[..k + 1];
      Within(Contents(vs[..n]), Entry(vs[n]), Offset(vs, k), |Entry(vs[k])|);
    } else {
      assert vs[..k + 1] == vs;
    }
  }

  lemma LastEntry(vs: seq<Value>)
    requires vs != []
    ensures Contents(vs) == Contents(vs[..|vs| - 1]) + Entry(vs[|vs| - 1])
  {
  }

  lemma Within<T>(c: seq<T>, e: seq<T>, o: nat, n: nat)
    requires o + n <= |c|
    ensures (c + e)[o..o + n] == c[o..o + n]
  {
  }

  lemma Spliced<T>(c: seq<T>, d: seq<T>, e: seq<T>, o: nat, v: seq<T>)
    requires o + |v| <= |c| && d == c[..o] + v + c[o + |v|..]
    ensures (c + e)[o..o + |v|] == c[o..o + |v|]
    ensures d + e == (c + e)[..o] + v + (c + e)[o + |v|..]
  {
    assert (c + e)[..o] == c[..o] && (c + e)[o + |v|..] == c[o + |v|..] + e;
  }

  /** Replacing a value by one of the same length changes the bytes of that value only. */
  lemma {:induction false} ReplacedValue(vs: seq<Value>, k: nat, v: Value)
    requires k < |vs| && |v| == |vs[k]|
    ensures var o, c := Offset(vs, k) + |Prefix(|v|)|, Contents(vs);
            && o + |v| <= |c| && c[o..o + |v|] == vs[k]
            && Contents(vs[k := v]) == c[..o] + v + c[o + |v|..]
  {
    hide Prefix, Entry, Contents;
    var n := |vs| - 1;
    var init := vs[..n];
    LastEntry(vs);
    LastEntry(vs[k := v]);
    var o, c := Offset(vs, k) + |Prefix(|v|)|, Contents(init);
    if k < n {
      ReplacedValue(init, k, v);
      assert init[..k] == vs[..k];
      assert vs[k := v][..n] == init[k := v];
      Spliced(c, Contents(init[k := v]), Entry(vs[n]), o, v);
    } else {
      LastReplaced(vs, v);
      assert init == vs[..k];
    }
  }

  lemma LastReplaced(vs: seq<Value>, v: Value)
    requires vs != [] && |v| == |vs[|vs| - 1]|
    ensures var n, c := |vs| - 1, Contents(vs);
            var o := |Contents(vs[..n])| + |Prefix(|v|)|;
            && o + |v| == |c| && c[o..o + |v|] == vs[n]
            && Contents(vs[n := v]) == c[..o] + v + c[o + |v|..]
  {
    hide Prefix, Contents;
    var n := |vs| - 1;
    LastEntry(vs);
    LastEntry(vs[n := v]);
    var front := Contents(vs[..n]) + Prefix(|v|);
    assert vs[n := v][..n] == vs[..n];
    assert Contents(vs) == front + vs[n];
    assert Contents(vs[n := v]) == front + v;
  }

  /** Replacing values by values of the same length moves nothing. */
  lemma {:induction false} SameOffsets(vs: seq<Value>, ws: seq<Value>, k: nat)
    requires |vs| == |ws| && k <= |vs|
    requires forall j :: 0 <= j < |vs| ==> |vs[j]| == |ws[j]|
    ensures Offset(vs, k) == Offset(ws, k)
  {
    if k > 0 {
      SameOffsets(vs, ws, k - 1);
      assert vs[..k][..k - 1] == vs[..k - 1] && ws[..k][..k - 1] == ws[..k - 1];
    }
  }

  // ---------- vm_load_constant ----------

  datatype Loaded = OutOfBounds | Loaded(value: seq<byte>)

  /** vm_fetch of one byte; what lies behind the image is arbitrary but fixed. */
  function Fetch(image: seq<byte>, p: nat): byte {
    if p < |image| then image[p] else 0
  }

  function FetchAll(image: seq<byte>, p: nat, n: nat): seq<byte> {
    seq<byte>(n, q requires 0 <= q => Fetch(image, p + q))
  }

  /** The length at the head of an entry, and how many bytes it takes there. */
  function StoredLength(image: seq<byte>, offset: nat): nat {
    var first := Fetch(image, offset);
    if first < 0x80 then first as int
    else if first % 0x10 == 1 then Fetch(image, offset + 1) as int
    else if first % 0x10 == 2 then 0x100 * Fetch(image, offset + 1) as int + Fetch(image, offset + 2) as int
    else 0
  }

  function LengthBytes(image: seq<byte>, offset: nat): nat {
    var first := Fetch(image, offset);
    if first < 0x80 then 1 else if first % 0x10 == 1 then 2 else if first % 0x10 == 2 then 3 else 0
  }

  function LoadConstant(image: seq<byte>, offset: nat): Loaded {
    var len := StoredLength(image, offset);
    if len > VA_OBJECT_MAX_SIZE then OutOfBounds else Loaded(FetchAll(image, offset + LengthBytes(image, offset), len))
  }

  lemma FetchesEntry(image: seq<byte>, offset: nat, e: seq<byte>)
    requires offset + |e| <= |image| && image[offset..offset + |e|] == e
    ensures forall q :: 0 <= q < |e| ==> Fetch(image, offset + q) == e[q]
  {
    assert forall q :: 0 <= q < |e| ==> image[offset..offset + |e|][q] == e[q];
  }

  /** An entry that lies in the image is loaded with exactly the bytes pushed, up to the object limit. */
  lemma LoadsWhatWasPushed(image: seq<byte>, offset: nat, v: Value)
    requires |v| < 0x1_0000 && offset + |Entry(v)| <= |image| && image[offset..offset + |Entry(v)|] == Entry(v)
    ensures LoadConstant(image, offset) == if |v| <= VA_OBJECT_MAX_SIZE then Loaded(v) else OutOfBounds
  {
    var e, n := Entry(v), |Prefix(|v|)|;
    FetchesEntry(image, offset, e);
    if n > 1 {
      assert Fetch(image, offset + 1) == e[1];
    }
    if n > 2 {
      assert Fetch(image, offset + 2) == e[2];
    }
    assert Fetch(image, offset + 0) == e[0];
    assert FetchAll(image, offset + n, |v|) == v by {
      forall q | 0 <= q < |v| ensures FetchAll(image, offset + n, |v|)[q] == v[q] {
        assert Fetch(image, offset + (n + q)) == e[n + q];
      }
    }
  }

  class Pool {
    const data: array<byte>     // _istream_data_buffer
    var cpindex: nat
    ghost var values: seq<Value>

    ghost predicate Valid()
      reads this, data
    {
      data.Length == BUFFER_SIZE && cpindex <= BUFFER_SIZE && data[..cpindex] == Contents(values)
    }

    constructor ()
      ensures Valid() && values == [] && fresh(data)
    {
      data := new byte[BUFFER_SIZE];
      cpindex, values := 0, [];
    }

    /** The length bytes of is_push_constant. */
    method PushLength(size: word)
      requires cpindex + |Prefix(size)| <= data.Length
      modifies data, `cpindex
      ensures cpindex == old(cpindex) + |Prefix(size)|
      ensures data[..cpindex] == old(data[..cpindex]) + Prefix(size)
    {
      if size < 128 {
        data[cpindex] := size;
        cpindex := cpindex + 1;
      } else if size < 256 {
        data[cpindex], data[cpindex + 1] := 0x81, size;
        cpindex := cpindex + 2;
      } else {
        data[cpindex], data[cpindex + 1], data[cpindex + 2] := 0x82, size / 0x100, size % 0x100;
        cpindex := cpindex + 3;
      }
    }

    /** is_push_constant */
    method PushConstant(value: Value) returns (offset: word)
      requires Valid() && |value| < 0x1_0000 && cpindex + |Entry(value)| <= BUFFER_SIZE
      modifies this, data
      ensures Valid() && values == old(values) + [value]
      ensures offset == old(cpindex) == Offset(values, |old(values)|)
    {
      hide Contents, Prefix;
      ghost var front := data[..cpindex];
      assert (values + [value])[..|values|] == values;
      values := values + [value];
      LastEntry(values);
      assert Contents(values) == (front + Prefix(|value|)) + value;
      PrefixIsShort(|value|);
      offset := cpindex;
      PushLength(|value|);
      CopyIn(data, cpindex, value);
      cpindex := cpindex + |value|;
    }

    /** Every offset ever returned still decodes to the bytes pushed. */
    lemma EveryConstantLoads(k: nat)
      requires Valid() && k < |values|
      ensures LoadConstant(data[..cpindex], Offset(values, k)) ==
              if |values[k]| <= VA_OBJECT_MAX_SIZE then Loaded(values[k]) else OutOfBounds
    {
      EntryAt(values, k);
      LoadsWhatWasPushed(data[..cpindex], Offset(values, k), values[k]);
    }
  }
}
