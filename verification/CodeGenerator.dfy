/** One-pass code generation with backpatching: sem_proto.c over the symbol table of sym_table.c. */
module CodeGenerator {
  import opened Bytes
  import opened Wrappers
  import opened Assembly

  const SYM_TYPE_LABEL: bv8 := 0x08
  const SYM_UNDEFINED := 0xFFFF_FFFF

  /** symrec: `list` holds the jumps waiting for a label. */
  datatype Symbol = Symbol(kind: bv8, name: string, offset: nat, list: seq<JmpRec>)

  /** The test of st_sym_select. */
  predicate Matches(s: Symbol, kind: bv8, name: string) {
    (s.kind & 0x7F) & (kind & 0x7F) != 0 && s.name == name
  }

  /** Position of the first matching record; |syms| if there is none. */
  function Lookup(syms: seq<Symbol>, kind: bv8, name: string): (i: nat)
    ensures i <= |syms|
    ensures i < |syms| ==> Matches(syms[i], kind, name)
    ensures forall k :: 0 <= k < i ==> !Matches(syms[k], kind, name)
  {
    if syms == [] then 0
    else
      var i := Lookup(syms[..|syms| - 1], kind, name);
      if i < |syms| - 1 || Matches(syms[|syms| - 1], kind, name) then i else |syms|
  }

  lemma LookupIs(syms: seq<Symbol>, kind: bv8, name: string, i: nat)
    requires i <= |syms|
    requires i < |syms| ==> Matches(syms[i], kind, name)
    requires forall k :: 0 <= k < i ==> !Matches(syms[k], kind, name)
    ensures Lookup(syms, kind, name) == i
  {
  }

  /** What the table must hold for label l once the requests of `log` have been served. */
  predicate Entered(syms: seq<Symbol>, log: seq<Request>, l: string) {
    var i := Lookup(syms, SYM_TYPE_LABEL, l);
    if i == |syms| then Address(log, l) == None && JumpsTo(log, l) == []
    else
      match Address(log, l)
      case None => syms[i].offset == SYM_UNDEFINED && syms[i].list == JumpsTo(log, l)
      case Some(a) => syms[i].offset == a && syms[i].list == []
  }

  /** Changing the record of l, or appending one, leaves all other labels alone. */
  lemma OtherEntries(syms: seq<Symbol>, syms': seq<Symbol>, i: nat, l: string, k: string)
    requires k != l && i <= |syms| && |syms'| == (if i < |syms| then |syms| else |syms| + 1)
    requires i < |syms| ==> syms[i].name == l
    requires syms'[i].name == l
    requires forall j :: 0 <= j < |syms| && j != i ==> syms'[j] == syms[j]
    ensures var n, n' := Lookup(syms, SYM_TYPE_LABEL, k), Lookup(syms', SYM_TYPE_LABEL, k);
            if n == |syms| then n' == |syms'| else n' == n && syms'[n] == syms[n]
  {
    var n := Lookup(syms, SYM_TYPE_LABEL, k);
    LookupIs(syms', SYM_TYPE_LABEL, k, if n == |syms| then |syms'| else n);
  }

  ghost predicate AllEntered(syms: seq<Symbol>, log: seq<Request>) {
    forall l: string :: Entered(syms, log, l)
  }

  lemma EntryOf(syms: seq<Symbol>, log: seq<Request>, l: string)
    requires AllEntered(syms, log)
    ensures Entered(syms, log, l)
  {
  }

  lemma {:induction false} AddressInside(rs: seq<Request>, l: string)
    ensures Address(rs, l).Some? ==> Address(rs, l).value <= Size(rs)
  {
    if rs != [] {
      AddressInside(rs[..|rs| - 1], l);
    }
  }

  /** The table after a request for label l: record i (appended if there was none) is now `rec`. */
  function Recorded(syms: seq<Symbol>, l: string, rec: Symbol): seq<Symbol> {
    var i := Lookup(syms, SYM_TYPE_LABEL, l);
    if i == |syms| then syms + [rec] else syms[i := rec]
  }

  lemma RecordedEnters(syms: seq<Symbol>, log: seq<Request>, r: Request, l: string, rec: Symbol)
    requires AllEntered(syms, log)
    requires r == Label(l) || (r.Jump? && r.target == l)
    requires Matches(rec, SYM_TYPE_LABEL, l)
    requires match Address(log + [r], l)
             case None => rec.offset == SYM_UNDEFINED && rec.list == JumpsTo(log + [r], l)
             case Some(a) => rec.offset == a && rec.list == []
    ensures AllEntered(Recorded(syms, l, rec), log + [r])
  {
    var rs := log + [r];
    assert rs[..|rs| - 1] == log;
    var i, syms' := Lookup(syms, SYM_TYPE_LABEL, l), Recorded(syms, l, rec);
    LookupIs(syms', SYM_TYPE_LABEL, l, i);
    forall k: string ensures Entered(syms', rs, k) {
      assert Entered(syms, log, k);
      if k != l {
        OtherEntries(syms, syms', i, l, k);
        assert Address(rs, k) == Address(log, k) && JumpsTo(rs, k) == JumpsTo(log, k);
      }
    }
  }

  lemma UnrelatedEnters(syms: seq<Symbol>, log: seq<Request>, r: Request)
    requires AllEntered(syms, log) && (r.Other? || (r.Label? && Address(log, r.name).Some?))
    ensures AllEntered(syms, log + [r])
  {
    var rs := log + [r];
    assert rs[..|rs| - 1] == log;
    forall k: string ensures Entered(syms, rs, k) {
      assert Entered(syms, log, k);
      assert Address(rs, k) == Address(log, k) && JumpsTo(rs, k) == JumpsTo(log, k);
    }
  }

  /** Unless it defines a label, a request leaves the bytes so far alone. */
  lemma AppendingAssembles(log: seq<Request>, r: Request)
    requires r.Label? ==> Address(log, r.name).Some?
    ensures var rs := log + [r];
            && Assemble(rs, rs) == Assemble(log, log) + Encoding(rs, r)
            && Size(rs) == Size(log) + |Encoding(rs, r)|
            && forall l :: Address(rs, l) == Address(log, l)
  {
    var rs := log + [r];
    assert rs[..|rs| - 1] == log;
    SameAddresses(log, rs, log);
  }

  /** The first definition of a label gives it the current offset and changes no other address. */
  lemma NewAddress(log: seq<Request>, l: string)
    ensures var rs := log + [Label(l)];
            && Assemble(rs, rs) == Assemble(rs, log) && Size(rs) == Size(log)
            && JumpsTo(rs, l) == JumpsTo(log, l)
            && Address(rs, l) == (if Address(log, l) == None then Some(Size(log)) else Address(log, l))
            && forall k :: k != l ==> Operand(rs, k) == Operand(log, k)
  {
    var rs := log + [Label(l)];
    assert rs[..|log|] == log;
  }

  lemma NothingEncoded(rs: seq<Request>, l: string)
    ensures Encoding(rs, Label(l)) == []
  {
  }

  lemma JumpEncoded(rs: seq<Request>, ins: byte, l: string)
    ensures Encoding(rs, Jump(ins, l)) == [ins, Operand(rs, l) / 0x100, Operand(rs, l) % 0x100]
  {
  }

  lemma JumpWaits(log: seq<Request>, ins: byte, l: string)
    ensures JumpsTo(log + [Jump(ins, l)], l) == JumpsTo(log, l) + [JmpRec(ins, Size(log))]
  {
    assert (log + [Jump(ins, l)])[..|log|] == log;
  }

  /** What is_gencode writes for a three-byte instruction. */
  function Coded(b: seq<byte>, offset: nat, ins: byte, v: word): (c: seq<byte>)
    requires offset + 3 <= |b|
    ensures |c| == |b|
  {
    WithWord(b[offset := ins], offset + 1, v)
  }

  lemma CodedAtEnd(b: seq<byte>, offset: nat, ins: byte, v: word)
    requires offset + 3 <= |b|
    ensures Coded(b, offset, ins, v)[..offset + 3] == b[..offset] + [ins, v / 0x100, v % 0x100]
  {
  }

  lemma CodedInside(b: seq<byte>, offset: nat, ins: byte, v: word, n: nat)
    requires offset + 3 <= n <= |b|
    ensures Coded(b, offset, ins, v)[..n] == Coded(b[..n], offset, ins, v)
  {
  }

  lemma BackpatchedUnfolds(b: seq<byte>, list: seq<JmpRec>, k: nat, v: word)
    requires k < |list| && list[k].offset + 3 <= |b|
    ensures Backpatched(b, list[..k + 1], v) == Coded(Backpatched(b, list[..k], v), list[k].offset, list[k].ins, v)
  {
    assert list[..k + 1][..k] == list[..k];
  }

  class CodeGenerator {
    const code: array<byte>
    var current: nat
    var codeSize: nat
    var syms: seq<Symbol>
    ghost var log: seq<Request>

    ghost predicate Valid()
      reads this, code
    {
      && code.Length == BUFFER_SIZE
      && current == codeSize == Size(log) <= BUFFER_SIZE
      && code[..current] == Assemble(log, log)
      && AllEntered(syms, log)
    }

    /** The jumps still waiting for label l. */
    ghost function Pending(l: string): seq<JmpRec>
      reads this
    {
      var i := Lookup(syms, SYM_TYPE_LABEL, l);
      if i == |syms| then [] else syms[i].list
    }

    constructor ()
      ensures Valid() && log == [] && fresh(code)
    {
      code := new byte[BUFFER_SIZE];
      current, codeSize, syms, log := 0, 0, [], [];
    }

    /** st_sym_select */
    method Select(kind: bv8, name: string) returns (i: nat)
      ensures i == Lookup(syms, kind, name)
    {
      i := 0;
      while i < |syms|
        invariant i <= |syms|
        invariant forall k :: 0 <= k < i ==> !Matches(syms[k], kind, name)
      {
        if Matches(syms[i], kind, name) {
          break;
        }
        i := i + 1;
      }
      LookupIs(syms, kind, name, i);
    }

    /** is_gencode for an instruction with a 16-bit operand. */
    method GenCode(offset: nat, ins: byte, value: nat)
      requires offset + 3 <= code.Length
      modifies code, `codeSize
      ensures code[..] == Coded(old(code[..]), offset, ins, Wrap16(value))
      ensures codeSize == if offset + 3 > old(codeSize) then offset + 3 else old(codeSize)
    {
      code[offset] := ins;
      StoreWord(code, offset + 1, Wrap16(value));
      if offset + 3 > codeSize {
        codeSize := offset + 3;
      }
    }

    /** Instructions without labels. */
    method Emit(bytes: seq<byte>)
      requires Valid() && current + |bytes| <= BUFFER_SIZE
      modifies this, code
      ensures Valid() && log == old(log) + [Other(bytes)]
    {
      hide AllEntered, Assemble, Size, Address;
      AppendingAssembles(log, Other(bytes));
      UnrelatedEnters(syms, log, Other(bytes));
      CopyIn(code, current, bytes);
      current := current + |bytes|;
      codeSize := current;
      log := log + [Other(bytes)];
    }

    /** sp_jump_to */
    method JumpTo(ins: byte, target: string)
      requires Valid() && current + 3 <= BUFFER_SIZE
      modifies this, code
      ensures Valid() && log == old(log) + [Jump(ins, target)]
    {
      hide AllEntered, Assemble, Size, Address, JumpsTo, Coded, Encoding;
      ghost var was, request := syms, Jump(ins, target);
      AppendingAssembles(log, request);
      AddressInside(log, target);
      EntryOf(syms, log, target);
      JumpWaits(log, ins, target);
      JumpEncoded(log + [request], ins, target);
      var i := Select(SYM_TYPE_LABEL, target);
      if i == |syms| {
        syms := syms + [Symbol(SYM_TYPE_LABEL, target, SYM_UNDEFINED, [])];
      }
      if syms[i].offset == SYM_UNDEFINED {
        syms := syms[i := syms[i].(list := syms[i].list + [JmpRec(ins, current)])];
      }
      assert syms == Recorded(was, target, syms[i]);
      RecordedEnters(was, log, request, target, syms[i]);
      ghost var before, v := code[..], Wrap16(syms[i].offset);
      CodedAtEnd(before, current, ins, v);
      GenCode(current, ins, syms[i].offset);
      current := current + 3;
      log := log + [request];
    }

    /** The loop of sp_new_label over the list of waiting jumps. */
    method BackpatchAll(waiting: seq<JmpRec>, value: nat)
      requires current == codeSize <= code.Length
      requires forall r <- waiting :: r.offset + 3 <= current
      modifies code, `codeSize
      ensures codeSize == current
      ensures code[..current] == Backpatched(old(code[..current]), waiting, Wrap16(value))
    {
      ghost var front := code[..current];
      for k := 0 to |waiting|
        invariant code[..current] == Backpatched(front, waiting[..k], Wrap16(value))
        invariant codeSize == current
      {
        var r := waiting[k];
        assert r in waiting;
        ghost var b := code[..];
        BackpatchedUnfolds(front, waiting, k, Wrap16(value));
        CodedInside(b, r.offset, r.ins, Wrap16(value), current);
        hide Backpatched, Coded;
        GenCode(r.offset, r.ins, value);
      }
      assert waiting[..|waiting|] == waiting;
    }

    /** sp_new_label; `ok` is false where it reports SP_ERR_MULTI_LABEL. */
    method NewLabel(name: string) returns (ok: bool)
      requires Valid()
      modifies this, code
      ensures Valid() && log == old(log) + [Label(name)]
      ensures ok == (Address(old(log), name) == None)
      ensures !ok ==> code[..] == old(code[..]) && syms == old(syms)
    {
      hide AllEntered, Assemble, Size, Address, JumpsTo, Backpatched, Encoding;
      ghost var was, request := syms, Label(name);
      ghost var rs := log + [request];
      NewAddress(log, name);
      AddressInside(log, name);
      EntryOf(syms, log, name);
      var i := Select(SYM_TYPE_LABEL, name);
      var waiting: seq<JmpRec> := [];
      if i < |syms| {
        if syms[i].offset != SYM_UNDEFINED {
          NothingEncoded(rs, name);
          AppendingAssembles(log, request);
          UnrelatedEnters(syms, log, request);
          log := rs;
          return false;
        }
        waiting := syms[i].list;
        syms := syms[i := syms[i].(offset := current)];
      } else {
        syms := syms + [Symbol(SYM_TYPE_LABEL, name, current, [])];
      }
      assert waiting == JumpsTo(log, name);
      JumpsInside(log, name);
      BackpatchingReassembles(log, rs, name, log);
      ghost var front := code[..current];
      BackpatchAll(waiting, syms[i].offset);
      syms := syms[i := syms[i].(list := [])];
      assert syms == Recorded(was, name, syms[i]);
      RecordedEnters(was, log, request, name, syms[i]);
      log := rs;
      return true;
    }

    /** After any sequence of calls: a label is waited for if and only if it was jumped to and is not yet defined. */
    lemma PendingIffUndefined(l: string)
      requires Valid()
      ensures Pending(l) != []
         <==> Label(l) !in log && exists j :: 0 <= j < |log| && log[j].Jump? && log[j].target == l
    {
      assert Entered(syms, log, l);
      SomeJump(log, l);
      var d := 0;
      while d < |log| && log[d] != Label(l)
        invariant d <= |log| && Label(l) !in log[..d]
      {
        d := d + 1;
      }
      FirstDefinition(log, l, d);
      assert Label(l) in log <==> d < |log|;
    }

    /** After any sequence of calls: jump j to a label first defined by request d holds that label's offset. */
    lemma JumpsAreResolved(j: nat, d: nat)
      requires Valid()
      requires j < |log| && log[j].Jump?
      requires d < |log| && log[d] == Label(log[j].target) && log[d] !in log[..d]
      ensures var o := Size(log[..j]);
              o + 3 <= current && code[o] == log[j].ins && Word(code[..], o + 1) == Wrap16(Size(log[..d]))
    {
      JumpsReachLabels(log, j, d);
      var o := Size(log[..j]);
      assert code[o] == code[..current][o] && code[o + 1] == code[..current][o + 1];
      assert code[o + 2] == code[..current][o + 2];
    }
  }
}
