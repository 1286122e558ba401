/** Two-pass assembly of jumps and labels: what the one-pass code generator has to agree with. */
module Assembly {
  import opened Bytes
  import opened Wrappers

  /** What the semantic routines ask the code generator for. */
  datatype Request = Jump(ins: byte, target: string) | Label(name: string) | Other(bytes: seq<byte>)

  function Size(rs: seq<Request>): nat {
    if rs == [] then 0
    else Size(rs[..|rs| - 1]) + match rs[|rs| - 1]
                                case Jump(_, _) => 3
                                case Label(_) => 0
                                case Other(b) => |b|
  }

  /** First pass: the offset of the first definition of a label. */
  function Address(rs: seq<Request>, l: string): Option<nat> {
    if rs == [] then None
    else
      var init := rs[..|rs| - 1];
      var a := Address(init, l);
      if a == None && rs[|rs| - 1] == Label(l) then Some(Size(init)) else a
  }

  /** The operand of a jump to l: undefined labels count as 0xFFFFFFFF, cut to 16 bits. */
  function Operand(rs: seq<Request>, l: string): word {
    match Address(rs, l)
    case None => 0xFFFF
    case Some(a) => Wrap16(a)
  }

  function Encoding(all: seq<Request>, r: Request): (b: seq<byte>) {
    match r
    case Jump(ins, l) => [ins, Operand(all, l) / 0x100, Operand(all, l) % 0x100]
    case Label(_) => []
    case Other(b) => b
  }

  /** Second pass: the bytes of rs when all labels of `all` are known. */
  function Assemble(all: seq<Request>, rs: seq<Request>): (b: seq<byte>)
    ensures |b| == Size(rs)
  {
    if rs == [] then [] else Assemble(all, rs[..|rs| - 1]) + Encoding(all, rs[|rs| - 1])
  }

  lemma SizeOfPrefix(rs: seq<Request>, k: nat)
    requires k <= |rs|
    ensures Size(rs[..k]) <= Size(rs)
  {
    if k < |rs| {
      assert rs[..|rs| - 1][..k] == rs[..k];
      SizeOfPrefix(rs[..|rs| - 1], k);
    } else {
      assert rs[..k] == rs;
    }
  }

  /** Assembly only looks at the addresses. */
  lemma {:induction false} SameAddresses(a: seq<Request>, b: seq<Request>, rs: seq<Request>)
    requires forall l :: Operand(a, l) == Operand(b, l)
    ensures Assemble(a, rs) == Assemble(b, rs)
  {
    if rs != [] {
      SameAddresses(a, b, rs[..|rs| - 1]);
    }
  }

  /** The address of a label is the offset of its first definition. */
  lemma {:induction false} FirstDefinition(rs: seq<Request>, l: string, d: nat)
    requires d <= |rs| && Label(l) !in rs[..d] && (d < |rs| ==> rs[d] == Label(l))
    ensures Address(rs, l) == if d < |rs| then Some(Size(rs[..d])) else None
  {
    if rs != [] {
      var n := |rs| - 1;
      if d <= n {
        assert rs[..n][..d] == rs[..d];
        FirstDefinition(rs[..n], l, d);
      } else {
        assert rs[n] in rs[..d] && rs[..n][..n] == rs[..n] && rs[..d] == rs;
        FirstDefinition(rs[..n], l, n);
      }
    }
  }

  /** Where the encoding of request k ends up. */
  lemma {:induction false} AssembledAt(all: seq<Request>, rs: seq<Request>, k: nat)
    requires k < |rs|
    ensures var o, e := Size(rs[..k]), Encoding(all, rs[k]);
            o + |e| <= Size(rs) && Assemble(all, rs)[o..o + |e|] == e
  {
    hide Size, Assemble, Encoding;
    var n := |rs| - 1;
    var init := rs[..n];
    LastAssembled(all, rs);
    if k < n {
      AssembledAt(all, init, k);
      assert init[..k] == rs[..k] && init[k] == rs[k];
      var o, e := Size(rs[..k]), Encoding(all, rs[k]);
      assert Assemble(all, rs)[o..o + |e|] == Assemble(all, init)[o..o + |e|];
    }
  }

  lemma LastAssembled(all: seq<Request>, rs: seq<Request>)
    requires rs != []
    ensures var init, e := rs[..|rs| - 1], Encoding(all, rs[|rs| - 1]);
            Size(rs) == Size(init) + |e| && Assemble(all, rs) == Assemble(all, init) + e
  {
  }

  /** A jump encodes the offset of the first definition of its label, before or after it. */
  lemma JumpsReachLabels(rs: seq<Request>, j: nat, d: nat)
    requires j < |rs| && rs[j].Jump?
    requires d < |rs| && rs[d] == Label(rs[j].target) && rs[d] !in rs[..d]
    ensures var b, o := Assemble(rs, rs), Size(rs[..j]);
            o + 3 <= |b| && b[o] == rs[j].ins && Word(b, o + 1) == Wrap16(Size(rs[..d]))
  {
    var b, o, e := Assemble(rs, rs), Size(rs[..j]), Encoding(rs, rs[j]);
    FirstDefinition(rs, rs[j].target, d);
    AssembledAt(rs, rs, j);
    assert b[o] == e[0] && b[o + 1] == e[1] && b[o + 2] == e[2];
  }

  /** The bytes of other requests are emitted as given. */
  lemma OthersAreKept(rs: seq<Request>, k: nat)
    requires k < |rs| && rs[k].Other?
    ensures var o := Size(rs[..k]);
            o + |rs[k].bytes| <= Size(rs) && Assemble(rs, rs)[o..o + |rs[k].bytes|] == rs[k].bytes
  {
    AssembledAt(rs, rs, k);
  }

  // ---------- backpatching ----------

  /** jmprec: instruction `ins` at `offset` waits for its label. */
  datatype JmpRec = JmpRec(ins: byte, offset: nat)

  /** The jumps to l, in order. */
  function JumpsTo(rs: seq<Request>, l: string): seq<JmpRec> {
    if rs == [] then []
    else
      var init := rs[..|rs| - 1];
      JumpsTo(init, l) +
      match rs[|rs| - 1]
      case Jump(ins, target) => if target == l then [JmpRec(ins, Size(init))] else []
      case _ => []
  }

  /** The code after is_gencode was called again for every record of the list. */
  function Backpatched(b: seq<byte>, list: seq<JmpRec>, v: word): (c: seq<byte>)
    ensures |c| == |b|
  {
    if list == [] then b
    else
      var r := list[|list| - 1];
      var c := Backpatched(b, list[..|list| - 1], v);
      if r.offset + 2 < |b| then WithWord(c[r.offset := r.ins], r.offset + 1, v) else c
  }

  lemma {:induction false} JumpsInside(rs: seq<Request>, l: string)
    ensures forall r <- JumpsTo(rs, l) :: r.offset + 3 <= Size(rs)
  {
    if rs != [] {
      JumpsInside(rs[..|rs| - 1], l);
    }
  }

  lemma {:induction false} SomeJump(rs: seq<Request>, l: string)
    ensures JumpsTo(rs, l) != [] <==> exists j :: 0 <= j < |rs| && rs[j].Jump? && rs[j].target == l
  {
    if rs != [] {
      var n := |rs| - 1;
      SomeJump(rs[..n], l);
      if j :| 0 <= j < |rs| && rs[j].Jump? && rs[j].target == l && j < n {
        assert rs[..n][j] == rs[j];
      }
      if j :| 0 <= j < n && rs[..n][j].Jump? && rs[..n][j].target == l {
        assert rs[j] == rs[..n][j];
      }
    }
  }

  lemma {:induction false} BackpatchedFront(b: seq<byte>, c: seq<byte>, list: seq<JmpRec>, v: word)
    requires forall r <- list :: r.offset + 3 <= |b|
    ensures Backpatched(b + c, list, v) == Backpatched(b, list, v) + c
  {
    if list != [] {
      var r := list[|list| - 1];
      assert r in list;
      BackpatchedFront(b, c, list[..|list| - 1], v);
      var d := Backpatched(b, list[..|list| - 1], v);
      assert (d + c)[r.offset := r.ins] == d[r.offset := r.ins] + c;
      assert WithWord(d[r.offset := r.ins] + c, r.offset + 1, v) == WithWord(d[r.offset := r.ins], r.offset + 1, v) + c;
    }
  }

  /** Backpatching all jumps to l is assembling again with l known: no other byte changes. */
  lemma {:induction false} BackpatchingReassembles(a: seq<Request>, b: seq<Request>, l: string, rs: seq<Request>)
    requires forall k :: k != l ==> Operand(a, k) == Operand(b, k)
    ensures Backpatched(Assemble(a, rs), JumpsTo(rs, l), Operand(b, l)) == Assemble(b, rs)
  {
    hide Size, Assemble, Encoding, Operand, JumpsTo, Backpatched;
    if rs == [] {
      NothingToBackpatch(a, b, l);
    } else {
      var init, last := rs[..|rs| - 1], rs[|rs| - 1];
      BackpatchingReassembles(a, b, l, init);
      JumpsInside(init, l);
      var v, jumps, front := Operand(b, l), JumpsTo(init, l), Assemble(a, init);
      LastAssembled(a, rs);
      LastAssembled(b, rs);
      BackpatchedFront(front, Encoding(a, last), jumps, v);
      LastBackpatched(a, b, l, rs, front);
    }
  }

  lemma NothingToBackpatch(a: seq<Request>, b: seq<Request>, l: string)
    ensures Backpatched(Assemble(a, []), JumpsTo([], l), Operand(b, l)) == Assemble(b, [])
  {
  }

  /** The last request adds a jump to l, whose bytes are written over, or encodes alike in both assemblies. */
  lemma LastBackpatched(a: seq<Request>, b: seq<Request>, l: string, rs: seq<Request>, front: seq<byte>)
    requires rs != [] && forall k :: k != l ==> Operand(a, k) == Operand(b, k)
    requires |front| == Size(rs[..|rs| - 1])
    requires var init, e, v := rs[..|rs| - 1], Encoding(a, rs[|rs| - 1]), Operand(b, l);
             Backpatched(front + e, JumpsTo(init, l), v) == Backpatched(front, JumpsTo(init, l), v) + e
    ensures var init, e, v := rs[..|rs| - 1], Encoding(a, rs[|rs| - 1]), Operand(b, l);
            Backpatched(front + e, JumpsTo(rs, l), v)
            == Backpatched(front, JumpsTo(init, l), v) + Encoding(b, rs[|rs| - 1])
  {
    hide Size, Operand, Backpatched, Assemble, WithWord;
    var init, last := rs[..|rs| - 1], rs[|rs| - 1];
    var jumps, e, v := JumpsTo(init, l), Encoding(a, last), Operand(b, l);
    if last.Jump? && last.target == l {
      OneMoreBackpatched(front + e, jumps, JmpRec(last.ins, |front|), v);
      JumpRewritten(Backpatched(front, jumps, v), last.ins, e, v);
    } else {
      assert JumpsTo(rs, l) == jumps;
      assert Encoding(a, last) == Encoding(b, last);
    }
  }

  lemma OneMoreBackpatched(b: seq<byte>, list: seq<JmpRec>, r: JmpRec, v: word)
    requires r.offset + 2 < |b|
    ensures Backpatched(b, list + [r], v) == WithWord(Backpatched(b, list, v)[r.offset := r.ins], r.offset + 1, v)
  {
    assert (list + [r])[..|list|] == list;
  }

  /** Writing over the three bytes of a jump. */
  lemma JumpRewritten(front: seq<byte>, ins: byte, e: seq<byte>, v: word)
    requires |e| == 3
    ensures WithWord((front + e)[|front| := ins], |front| + 1, v) == front + [ins, v / 0x100, v % 0x100]
  {
  }
}
