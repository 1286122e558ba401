/** vm_decode of vm_stack.c as a machine on values: two stacks, reference counts and call frames. */
module StackMachine {
  import opened Bytes
  import opened Wrappers

  const VM_MAX_STACK_SIZE := 64
  const VM_MAGIC := 0x80

  /** What a pointer-sized slot can hold: nothing, an object, or a saved package or return address. */
  datatype Slot = Null | Ref(id: nat) | Raw(value: nat)

  /**
    `base` is vm_stacks[..bp]; `stack` is vm_stacks[sp + 1..], top first. `mgc` gives each object's
    mgc_refcount byte; objects are numbered in order of creation.
    */
  datatype Machine = Machine(base: seq<Slot>, stack: seq<Slot>, pc: word, pkg: nat, mgc: seq<byte>, running: bool)

  /** Decoded instructions. Object contents are not modelled: outcomes that depend on them are operands. */
  datatype Ins =
    | ObjPush(index: byte)
    | ObjPop(index: byte)
    | ObjStore(index: byte)
    | ObjConst                              // also OBJNEW
    | ObjDup
    | ObjDel
    | Operation(pops: nat)                  // arithmetic, logic, compare: 2; NOT, OBJSZ: 1; OBJSUB: 3
    | JFalse(taken: bool, rel: word)
    | Jmp(rel: word)
    | SCtx(n: byte)
    | RCtx(n: byte)
    | Call(rel: word)
    | ExtCall(pkg: nat, rel: word)          // class and method already resolved
    | Ret

  // ---------- primitives ----------

  function Bump(m: Machine, s: Slot, delta: int): (e: Machine)
    requires s.Ref? ==> s.id < |m.mgc|
    ensures e == m.(mgc := e.mgc) && |e.mgc| == |m.mgc|
  {
    if s.Ref? then m.(mgc := m.mgc[s.id := (m.mgc[s.id] as int + delta) % 0x100]) else m
  }

  /** vm_create_object */
  function Create(m: Machine): Machine {
    m.(mgc := m.mgc + [VM_MAGIC + 1])
  }

  function Newest(m: Machine): Slot
    requires m.mgc != []
  {
    Ref(|m.mgc| - 1)
  }

  function Push(m: Machine, s: Slot): Machine {
    m.(stack := [s] + m.stack)
  }

  function PushBase(m: Machine, s: Slot): Machine {
    m.(base := m.base + [s])
  }

  /** vm_pop_stack_arc */
  function PopArc(m: Machine): Machine
    requires m.stack != [] && (m.stack[0].Ref? ==> m.stack[0].id < |m.mgc|)
  {
    Bump(m, m.stack[0], -1).(stack := m.stack[1..])
  }

  function PopMany(m: Machine, n: nat): (e: Machine)
    requires Operands(m, n)
    ensures e == m.(stack := m.stack[n..], mgc := e.mgc) && |e.mgc| == |m.mgc|
    decreases n
  {
    if n == 0 then m else PopMany(PopArc(m), n - 1)
  }

  /** vmd_store_variable */
  function Store(m: Machine, v: nat, obj: Slot): (e: Machine)
    requires v < |m.base| && (m.base[v].Ref? ==> m.base[v].id < |m.mgc|) && (obj.Ref? ==> obj.id < |m.mgc|)
    ensures e == m.(base := m.base[v := obj], mgc := e.mgc) && |e.mgc| == |m.mgc|
  {
    if m.base[v] == obj then m
    else Bump(Bump(m, m.base[v], -1).(base := m.base[v := obj]), obj, 1)
  }

  /** The loop of SCTX. */
  function Enter(m: Machine, n: nat): Machine
    decreases n
  {
    if n == 0 then m else Enter(PushBase(Create(m), Ref(|m.mgc|)), n - 1)
  }

  /** One turn of the loop of RCTX: the popped slot is refilled with a new object, outside the live slots. */
  function LeaveOne(m: Machine): Machine
    requires m.base != [] && (m.base[|m.base| - 1].Ref? ==> m.base[|m.base| - 1].id < |m.mgc|)
  {
    Bump(Create(m), m.base[|m.base| - 1], -1).(base := m.base[..|m.base| - 1])
  }

  function Leave(m: Machine, n: nat): Machine
    requires Locals(m, n)
    decreases n
  {
    if n == 0 then m else Leave(LeaveOne(m), n - 1)
  }

  // ---------- what the code takes for granted ----------

  /** The top n stack slots hold objects. */
  predicate Operands(m: Machine, n: nat) {
    n <= |m.stack| && forall k :: 0 <= k < n ==> m.stack[k].Ref? && m.stack[k].id < |m.mgc|
  }

  /** The top n base slots are variables, not saved addresses. */
  predicate Locals(m: Machine, n: nat) {
    n <= |m.base| && forall k :: |m.base| - n <= k < |m.base| ==> Variable(m, m.base[k])
  }

  predicate Variable(m: Machine, s: Slot) {
    !s.Raw? && (s.Ref? ==> s.id < |m.mgc|)
  }

  /** Free slots between the two stacks. */
  function Room(m: Machine): int {
    VM_MAX_STACK_SIZE - |m.base| - |m.stack|
  }

  /** Position of the variable with this operand byte: vm_get_base(index + 1). */
  function VarAt(m: Machine, index: byte): int {
    |m.base| - 1 - index
  }

  predicate Ready(m: Machine, i: Ins) {
    && m.running
    && match i
       case ObjPush(x) => VarAt(m, x) >= 0 && Variable(m, m.base[VarAt(m, x)]) && Room(m) >= 1
       case ObjPop(x) =>
         VarAt(m, x) >= 0 && Variable(m, m.base[VarAt(m, x)]) && m.stack != [] && Variable(m, m.stack[0])
       case ObjStore(x) =>
         VarAt(m, x) >= 0 && Variable(m, m.base[VarAt(m, x)]) && m.stack != [] && Variable(m, m.stack[0])
       case ObjConst => Room(m) >= 1
       case ObjDup => Operands(m, 1) && Room(m) >= 1
       case ObjDel => m.stack != [] && Variable(m, m.stack[0])
       case Operation(n) => 1 <= n <= 3 && Operands(m, n)
       case JFalse(_, _) => Operands(m, 1)
       case Jmp(_) => true
       case SCtx(n) => Room(m) >= n
       case RCtx(n) => Locals(m, n)
       case Call(_) => Room(m) >= 2
       case ExtCall(_, _) => Operands(m, 1) && Room(m) >= 1
       case Ret => |m.base| >= 2 && m.base[|m.base| - 1].Raw? && m.base[|m.base| - 2].Raw?
  }

  // ---------- one instruction ----------

  function Goto(m: Machine, rel: int): Machine {
    m.(pc := Wrap16(m.pc + rel))
  }

  /** The switch of vm_decode. */
  function Effect(m: Machine, i: Ins): Machine
    requires Ready(m, i)
  {
    match i
    case ObjPush(x) => var s := m.base[VarAt(m, x)]; Goto(Push(Bump(m, s, 1), s), 2)
    case ObjPop(x) => Goto(Store(PopArc(m), VarAt(m, x), m.stack[0]), 2)
    case ObjStore(x) => Goto(Store(m, VarAt(m, x), m.stack[0]), 2)
    case ObjConst => Goto(Push(Bump(Bump(Create(m), Ref(|m.mgc|), -1), Ref(|m.mgc|), 1), Ref(|m.mgc|)), 3)
    case ObjDup => Goto(Push(Create(m), Ref(|m.mgc|)), 1)
    case ObjDel => Goto(PopArc(m), 1)
    case Operation(n) => Goto(Push(Create(PopMany(m, n)), Ref(|m.mgc|)), 1)
    case JFalse(taken, rel) => Goto(PopArc(m), if taken then rel as int else 3)
    case Jmp(rel) => Goto(m, rel)
    case SCtx(n) => Goto(Enter(m, n), 2)
    case RCtx(n) => Goto(Leave(m, n), 2)
    case Call(rel) => Goto(PushBase(PushBase(m, Raw(m.pkg)), Raw(m.pc + 3)), rel)
    case ExtCall(pkg, rel) =>
      var c := Create(PopArc(m));           // the method name constant, dropped with count 0
      Goto(PushBase(PushBase(Bump(c, Newest(c), -1), Raw(m.pkg)), Raw(m.pc + 3)), rel).(pkg := pkg)
    case Ret =>
      var n := |m.base|;
      m.(base := m.base[..n - 2], pc := Wrap16(m.base[n - 1].value), pkg := m.base[n - 2].value)
  }

  /** One turn of vm_decode: the overflow check bp >= sp comes after the instruction. */
  function Step(m: Machine, i: Ins): Machine
    requires Ready(m, i)
  {
    var e := Effect(m, i);
    if Room(e) <= 1 then e.(running := false) else e
  }

  // ---------- reference counts ----------

  /** The live slots: below bp or above sp. */
  function Held(m: Machine): multiset<Slot> {
    multiset(m.base) + multiset(m.stack)
  }

  /** Object id's byte is its magic plus the number of live slots that hold it. */
  ghost predicate ExactFor(m: Machine, id: nat) {
    Held(m)[Ref(id)] > 0 ==> id < |m.mgc| && m.mgc[id] == VM_MAGIC + Held(m)[Ref(id)]
  }

  ghost predicate Fits(m: Machine) {
    |m.base| + |m.stack| <= VM_MAX_STACK_SIZE
  }

  ghost predicate Counted(m: Machine) {
    forall id :: ExactFor(m, id)
  }

  ghost predicate Exact(m: Machine) {
    Fits(m) && Counted(m)
  }

  /** How often slot s is object id: 0 or 1. */
  function Is(s: Slot, id: nat): nat {
    if s == Ref(id) then 1 else 0
  }

  /** A slot lets go of s and the count of s drops. */
  lemma DropsOne(m: Machine, e: Machine, s: Slot)
    requires Exact(m) && Fits(e) && Variable(m, s) && e.mgc == Bump(m, s, -1).mgc
    requires forall id :: Held(m)[Ref(id)] == Held(e)[Ref(id)] + Is(s, id)
    ensures Exact(e)
  {
    forall id
      ensures ExactFor(e, id)
    {
      assert ExactFor(m, id);
      assert Held(m)[Ref(id)] <= |Held(m)|;
    }
  }

  /** Another slot gets hold of s, which some slot holds already, and the count of s rises. */
  lemma TakesOne(m: Machine, e: Machine, s: Slot)
    requires Exact(m) && Fits(e) && Variable(m, s) && e.mgc == Bump(m, s, 1).mgc
    requires s in Held(m)
    requires forall id :: Held(e)[Ref(id)] == Held(m)[Ref(id)] + Is(s, id)
    ensures Exact(e)
  {
    forall id
      ensures ExactFor(e, id)
    {
      assert ExactFor(m, id);
      assert Held(e)[Ref(id)] <= |Held(e)|;
    }
  }

  /** A slot gets a new object. */
  lemma TakesNew(m: Machine, e: Machine)
    requires Exact(m) && Fits(e) && e.mgc == Create(m).mgc
    requires forall id :: Held(e)[Ref(id)] == Held(m)[Ref(id)] + Is(Ref(|m.mgc|), id)
    ensures Exact(e)
  {
    forall id
      ensures ExactFor(e, id)
    {
      assert ExactFor(m, id);
    }
  }

  lemma PopArcKeeps(m: Machine)
    requires Exact(m) && m.stack != [] && Variable(m, m.stack[0])
    ensures Exact(PopArc(m))
  {
    var e := PopArc(m);
    assert m.stack == [m.stack[0]] + e.stack;
    DropsOne(m, e, m.stack[0]);
  }

  lemma {:induction false} PopManyKeeps(m: Machine, n: nat)
    requires Exact(m) && Operands(m, n)
    ensures Exact(PopMany(m, n)) && Room(PopMany(m, n)) == Room(m) + n && |PopMany(m, n).mgc| == |m.mgc|
    decreases n
  {
    if n > 0 {
      PopArcKeeps(m);
      PopManyKeeps(PopArc(m), n - 1);
    }
  }

  lemma PushCreatedKeeps(m: Machine)
    requires Exact(m) && Room(m) >= 1
    ensures Exact(Push(Create(m), Ref(|m.mgc|)))
  {
    TakesNew(m, Push(Create(m), Ref(|m.mgc|)));
  }

  lemma PushCopyKeeps(m: Machine, v: nat)
    requires Exact(m) && v < |m.base| && Variable(m, m.base[v]) && Room(m) >= 1
    ensures Exact(Push(Bump(m, m.base[v], 1), m.base[v]))
  {
    var s := m.base[v];
    assert s in m.base;
    TakesOne(m, Push(Bump(m, s, 1), s), s);
  }

  /** Overwriting a variable with an object that some slot holds. */
  lemma StoreKeeps(m: Machine, v: nat, obj: Slot)
    requires Exact(m) && v < |m.base| && Variable(m, m.base[v]) && Variable(m, obj) && obj in m.stack
    ensures Exact(Store(m, v, obj))
  {
    hide Counted, ExactFor;
    if m.base[v] != obj {
      var d := Bump(m, m.base[v], -1).(base := m.base[v := Null]);
      ClearKeeps(m, v);
      assert d.base[v := obj] == m.base[v := obj];
      FillKeeps(d, v, obj);
    }
  }

  /** An empty variable gets an object that some slot of the operand stack holds. */
  lemma FillKeeps(d: Machine, v: nat, obj: Slot)
    requires Exact(d) && v < |d.base| && d.base[v] == Null && Variable(d, obj) && obj in d.stack
    ensures Exact(Bump(d.(base := d.base[v := obj]), obj, 1))
  {
    hide Counted, ExactFor;
    assert multiset(d.base[v := obj]) == multiset(d.base) - multiset{Null} + multiset{obj};
    TakesOne(d, Bump(d.(base := d.base[v := obj]), obj, 1), obj);
  }

  /** Clearing a variable drops one reference. */
  lemma ClearKeeps(m: Machine, v: nat)
    requires Exact(m) && v < |m.base| && Variable(m, m.base[v])
    ensures Exact(Bump(m, m.base[v], -1).(base := m.base[v := Null]))
  {
    hide Counted, ExactFor;
    var old' := m.base[v];
    assert multiset(m.base[v := Null]) == multiset(m.base) - multiset{old'} + multiset{Null};
    assert old' in m.base;
    DropsOne(m, Bump(m, old', -1).(base := m.base[v := Null]), old');
  }

  lemma PopStoreCounts(m: Machine, v: nat)
    requires m.stack != [] && Variable(m, m.stack[0])
    requires v < |m.base| && Variable(m, m.base[v]) && m.base[v] != m.stack[0]
    ensures Store(PopArc(m), v, m.stack[0]).mgc == Bump(m, m.base[v], -1).mgc
  {
  }

  /** Popping into a variable: the count of the popped object drops, possibly to none, and rises again. */
  lemma PopStoreKeeps(m: Machine, v: nat)
    requires Exact(m) && m.stack != [] && Variable(m, m.stack[0]) && v < |m.base| && Variable(m, m.base[v])
    ensures Exact(Store(PopArc(m), v, m.stack[0]))
  {
    hide Counted;
    var obj, old' := m.stack[0], m.base[v];
    var e := Store(PopArc(m), v, obj);
    if old' == obj {
      PopArcKeeps(m);
    } else {
      assert old' in m.base;
      assert multiset(m.base[v := obj]) == multiset(m.base) - multiset{old'} + multiset{obj};
      assert m.stack == [obj] + m.stack[1..];
      PopStoreCounts(m, v);
      DropsOne(m, e, old');
    }
  }

  lemma {:induction false} EnterKeeps(m: Machine, n: nat)
    requires Exact(m) && Room(m) >= n
    ensures Exact(Enter(m, n))
    decreases n
  {
    if n > 0 {
      var e := PushBase(Create(m), Ref(|m.mgc|));
      TakesNew(m, e);
      EnterKeeps(e, n - 1);
    }
  }

  lemma {:induction false} LeaveKeeps(m: Machine, n: nat)
    requires Exact(m) && Locals(m, n)
    ensures Exact(Leave(m, n))
    decreases n
  {
    hide Exact;
    if n > 0 {
      LeaveOneKeeps(m);
      LeaveKeeps(LeaveOne(m), n - 1);
    }
  }

  lemma LeaveOneKeeps(m: Machine)
    requires Exact(m) && Locals(m, 1)
    ensures Exact(LeaveOne(m))
  {
    hide Counted;
    var k := |m.base| - 1;
    assert m.base == m.base[..k] + [m.base[k]];
    CreateKeeps(m);
    DropsOne(Create(m), LeaveOne(m), m.base[k]);
  }

  /** A new object that no slot holds yet. */
  lemma CreateKeeps(m: Machine)
    requires Exact(m)
    ensures Exact(Create(m)) && Held(Create(m)) == Held(m)
  {
    assert forall id :: ExactFor(m, id) ==> ExactFor(Create(m), id);
  }

  lemma SameReferences(m: Machine, e: Machine)
    requires Exact(m) && Fits(e) && e.mgc == m.mgc
    requires forall id :: Held(e)[Ref(id)] == Held(m)[Ref(id)]
    ensures Exact(e)
  {
    forall id
      ensures ExactFor(e, id)
    {
      assert ExactFor(m, id);
    }
  }

  lemma CallKeeps(m: Machine)
    requires Exact(m) && Room(m) >= 2
    ensures forall a, b :: Exact(PushBase(PushBase(m, Raw(a)), Raw(b)))
  {
    hide Counted;
    forall a, b
      ensures Exact(PushBase(PushBase(m, Raw(a)), Raw(b)))
    {
      SameReferences(m, PushBase(PushBase(m, Raw(a)), Raw(b)));
    }
  }

  /** The constant of EXTCALL is created and dropped outside the live slots. */
  lemma ScratchKeeps(m: Machine)
    requires Exact(m)
    ensures Exact(Bump(Create(m), Ref(|m.mgc|), -1))
  {
    var c := Bump(Create(m), Ref(|m.mgc|), -1);
    assert forall id :: ExactFor(m, id) ==> ExactFor(c, id);
  }

  lemma RetKeeps(m: Machine)
    requires Exact(m) && Ready(m, Ret)
    ensures Exact(Effect(m, Ret))
  {
    hide Counted;
    var n := |m.base|;
    var b := m.base[..n - 2];
    assert m.base == b + [m.base[n - 2]] + [m.base[n - 1]];
    assert forall id :: multiset(m.base)[Ref(id)] == multiset(b)[Ref(id)];
    SameReferences(m, Effect(m, Ret));
  }

  lemma VariableKeeps(m: Machine, i: Ins)
    requires Exact(m) && Ready(m, i) && (i.ObjPush? || i.ObjPop? || i.ObjStore?)
    ensures Exact(Effect(m, i))
  {
    hide Exact, Store, Bump;
    var v, e := VarAt(m, i.index), Effect(m, i);
    match i
    case ObjPush(_) => PushCopyKeeps(m, v); JumpKeeps(Push(Bump(m, m.base[v], 1), m.base[v]), e);
    case ObjPop(_) => PopStoreKeeps(m, v); JumpKeeps(Store(PopArc(m), v, m.stack[0]), e);
    case ObjStore(_) => StoreKeeps(m, v, m.stack[0]); JumpKeeps(Store(m, v, m.stack[0]), e);
  }

  lemma ConstantKeeps(m: Machine)
    requires Exact(m) && Ready(m, ObjConst)
    ensures Exact(Effect(m, ObjConst))
  {
    hide Exact;
    PushCreatedKeeps(m);
    var r := Ref(|m.mgc|);
    assert Bump(Bump(Create(m), r, -1), r, 1).mgc == Create(m).mgc;
    JumpKeeps(Push(Create(m), r), Effect(m, ObjConst));
  }

  lemma NoLessThanFull(m: Machine)
    requires Exact(m)
    ensures Room(m) >= 0
  {
  }

  lemma OperandKeeps(m: Machine, i: Ins)
    requires Exact(m) && Ready(m, i) && (i.ObjDup? || i.ObjDel? || i.Operation? || i.JFalse? || i.Jmp?)
    ensures Exact(Effect(m, i))
  {
    hide Exact, PopMany, Bump;
    var e := Effect(m, i);
    match i
    case ObjDup => PushCreatedKeeps(m); JumpKeeps(Push(Create(m), Ref(|m.mgc|)), e);
    case ObjDel => PopArcKeeps(m); JumpKeeps(PopArc(m), e);
    case Operation(n) =>
      PopManyKeeps(m, n);
      NoLessThanFull(m);
      var p := PopMany(m, n);
      PushCreatedKeeps(p);
      JumpKeeps(Push(Create(p), Ref(|p.mgc|)), e);
    case JFalse(_, _) => PopArcKeeps(m); JumpKeeps(PopArc(m), e);
    case Jmp(_) => JumpKeeps(m, e);
  }

  lemma ExternalCallKeeps(m: Machine, pkg: nat, rel: word)
    requires Exact(m) && Ready(m, ExtCall(pkg, rel))
    ensures Exact(Effect(m, ExtCall(pkg, rel)))
  {
    hide Exact, Bump, Held;
    var p := PopArc(m);
    var c := Create(p);
    var d := Bump(c, Newest(c), -1);
    PopArcKeeps(m);
    ScratchKeeps(p);
    assert Room(d) == Room(m) + 1;
    CallKeeps(d);
    JumpKeeps(PushBase(PushBase(d, Raw(m.pkg)), Raw(m.pc + 3)), Effect(m, ExtCall(pkg, rel)));
  }

  lemma FrameKeeps(m: Machine, i: Ins)
    requires Exact(m) && Ready(m, i) && (i.SCtx? || i.RCtx? || i.Call? || i.ExtCall? || i.Ret?)
    ensures Exact(Effect(m, i))
  {
    hide Exact, Enter, Leave;
    var e := Effect(m, i);
    match i
    case SCtx(n) => EnterKeeps(m, n); JumpKeeps(Enter(m, n), e);
    case RCtx(n) => LeaveKeeps(m, n); JumpKeeps(Leave(m, n), e);
    case Call(_) =>
      CallKeeps(m);
      JumpKeeps(PushBase(PushBase(m, Raw(m.pkg)), Raw(m.pc + 3)), e);
    case ExtCall(pkg, rel) => ExternalCallKeeps(m, pkg, rel);
    case Ret => RetKeeps(m);
  }

  /** Reference counting is exact: no instruction miscounts an object that a live slot holds. */
  lemma StepKeepsExact(m: Machine, i: Ins)
    requires Exact(m) && Ready(m, i)
    ensures Exact(Step(m, i))
  {
    hide Exact, Effect, Ready;
    if i.ObjPush? || i.ObjPop? || i.ObjStore? {
      VariableKeeps(m, i);
    } else if i.ObjConst? {
      ConstantKeeps(m);
    } else if i.SCtx? || i.RCtx? || i.Call? || i.ExtCall? || i.Ret? {
      FrameKeeps(m, i);
    } else {
      OperandKeeps(m, i);
    }
    JumpKeeps(Effect(m, i), Step(m, i));
  }

  /** Exactness does not depend on pc, package or state. */
  lemma JumpKeeps(m: Machine, e: Machine)
    requires Exact(m) && e.base == m.base && e.stack == m.stack && e.mgc == m.mgc
    ensures Exact(e)
  {
    assert Held(e) == Held(m);
    SameReferences(m, e);
  }

  /**
    In an exact machine the byte of a held object splits into an intact magic and the number of
    holders exactly while there are at most 15 of them.
    */
  lemma NibblesAreIntact(m: Machine, id: nat)
    requires Exact(m) && Held(m)[Ref(id)] > 0
    ensures id < |m.mgc|
    ensures m.mgc[id] / 0x10 * 0x10 == VM_MAGIC && m.mgc[id] % 0x10 == Held(m)[Ref(id)] <==> Held(m)[Ref(id)] <= 15
  {
    assert ExactFor(m, id);
    assert Held(m)[Ref(id)] <= |Held(m)|;
  }

  // ---------- runs ----------

  function Try(o: Option<Machine>, i: Ins): Option<Machine> {
    if o.Some? && Ready(o.value, i) then Some(Step(o.value, i)) else None
  }

  /** The machine that a run of instructions leads to, if no step of it goes wrong. */
  function Run(o: Option<Machine>, instructions: seq<Ins>): Option<Machine>
    decreases |instructions|
  {
    if instructions == [] then o else Run(Try(o, instructions[0]), instructions[1..])
  }

  lemma {:induction false} NothingRuns(instructions: seq<Ins>)
    ensures Run(None, instructions) == None
    decreases |instructions|
  {
    if instructions != [] { NothingRuns(instructions[1..]); }
  }

  /** Reference counts are exact after every run. */
  lemma {:induction false} RunKeepsExact(m: Machine, instructions: seq<Ins>)
    requires Exact(m) && Run(Some(m), instructions).Some?
    ensures Exact(Run(Some(m), instructions).value)
    decreases |instructions|
  {
    hide Exact, Step, Ready;
    if instructions != [] {
      var i := instructions[0];
      if Ready(m, i) {
        StepKeepsExact(m, i);
        RunKeepsExact(Step(m, i), instructions[1..]);
      } else {
        NothingRuns(instructions[1..]);
      }
    }
  }

  // ---------- a run that breaks the shared byte ----------

  /** vm_decode as it starts at the offset of `main`, with the two base slots it pushes. */
  function Start(pkg: nat, main: word): Machine {
    Machine([Raw(0), Raw(0xFFFF)], [], main, pkg, [], true)
  }

  function Times<T>(n: nat, x: T): seq<T> {
    if n == 0 then [] else [x] + Times(n - 1, x)
  }

  /** After SCTX 1 and k times OBJPUSH 0. */
  function Pushed(pkg: nat, main: word, k: nat): Machine
    requires k <= 15
  {
    Machine([Raw(0), Raw(0xFFFF), Ref(0)], Times(k, Ref(0)), Wrap16(main + 2 + 2 * k), pkg, [VM_MAGIC + 1 + k], true)
  }

  lemma TimesLength<T>(n: nat, x: T)
    ensures |Times(n, x)| == n
  {
  }

  lemma OnePush(pkg: nat, main: word, k: nat)
    requires k < 15
    ensures Try(Some(Pushed(pkg, main, k)), ObjPush(0)) == Some(Pushed(pkg, main, k + 1))
  {
    TimesLength(k, Ref(0));
    var e := Effect(Pushed(pkg, main, k), ObjPush(0));
    assert e.stack == Pushed(pkg, main, k + 1).stack && e.mgc == Pushed(pkg, main, k + 1).mgc;
  }

  lemma {:induction false} MorePushes(pkg: nat, main: word, k: nat, n: nat)
    requires k + n <= 15
    ensures Run(Some(Pushed(pkg, main, k)), Times(n, ObjPush(0))) == Some(Pushed(pkg, main, k + n))
    decreases n
  {
    hide Try, Pushed;
    if n > 0 {
      OnePush(pkg, main, k);
      assert Times(n, ObjPush(0))[1..] == Times(n - 1, ObjPush(0));
      MorePushes(pkg, main, k + 1, n - 1);
    }
  }

  lemma OpensContext(pkg: nat, main: word)
    ensures Try(Some(Start(pkg, main)), SCtx(1)) == Some(Pushed(pkg, main, 0))
  {
    var start := Start(pkg, main);
    var e := PushBase(Create(start), Ref(0));
    assert e == Enter(e, 0) == Enter(start, 1);
    assert e.base == Pushed(pkg, main, 0).base && e.mgc == Pushed(pkg, main, 0).mgc;
  }

  lemma StartIsExact(pkg: nat, main: word)
    ensures Exact(Start(pkg, main))
  {
    assert forall id :: ExactFor(Start(pkg, main), id);
  }

  /** From the machine's start SCTX 1 and n times OBJPUSH 0 give one object n + 1 holders. */
  lemma ManyHolders(pkg: nat, main: word, n: nat)
    requires n <= 15
    ensures var m := Pushed(pkg, main, n);
      && Run(Some(Start(pkg, main)), [SCtx(1)] + Times(n, ObjPush(0))) == Some(m)
      && Exact(Start(pkg, main)) && Exact(m) && Held(m)[Ref(0)] == n + 1
  {
    hide Try, Times, Exact, Start;
    var m, pushes := Pushed(pkg, main, n), Times(n, ObjPush(0));
    StartIsExact(pkg, main);
    OpensContext(pkg, main);
    assert ([SCtx(1)] + pushes)[0] == SCtx(1) && ([SCtx(1)] + pushes)[1..] == pushes;
    MorePushes(pkg, main, 0, n);
    RunKeepsExact(Start(pkg, main), [SCtx(1)] + pushes);
    CountIs(m, 0);
  }

  /** Sixteen slots hold one object: its count reads 0 and its magic is no longer VM_MAGIC. */
  lemma SixteenHolders(pkg: nat, main: word) returns (m: Machine)
    ensures Exact(Start(pkg, main)) && Run(Some(Start(pkg, main)), [SCtx(1)] + Times(15, ObjPush(0))) == Some(m)
    ensures Held(m)[Ref(0)] == 16 && m.mgc == [0x90]
    ensures m.mgc[0] / 0x10 * 0x10 != VM_MAGIC && m.mgc[0] % 0x10 == 0
  {
    hide Try, Times, Exact, Start, Run, Held;
    m := Pushed(pkg, main, 15);
    ManyHolders(pkg, main, 15);
  }

  lemma CountIs(m: Machine, id: nat)
    requires Exact(m) && Ref(id) in m.base
    ensures id < |m.mgc| && m.mgc[id] == VM_MAGIC + Held(m)[Ref(id)]
  {
    assert ExactFor(m, id);
  }

  // ---------- call frames ----------

  /** A balanced run: straight steps, and calls of functions that open with SCTX n and close with RCTX n and RET. */
  datatype Balanced =
    | Done
    | Then(i: Ins, rest: Balanced)
    | Enclosed(call: Ins, n: byte, body: Balanced, rest: Balanced)

  /** Variable indices are below n, the number of variables of the enclosing function, at every depth. */
  ghost predicate Scoped(r: Balanced, n: nat) {
    match r
    case Done => true
    case Then(i, rest) =>
      && !i.SCtx? && !i.RCtx? && !i.Call? && !i.ExtCall? && !i.Ret?
      && (i.ObjPush? || i.ObjPop? || i.ObjStore? ==> i.index as int < n)
      && Scoped(rest, n)
    case Enclosed(call, k, body, rest) =>
      (call.Call? || call.ExtCall?) && Scoped(body, k) && Scoped(rest, n)
  }

  /** The machine a balanced run leads to, if no step of it goes wrong. */
  function RunOf(o: Option<Machine>, r: Balanced): Option<Machine>
    decreases r
  {
    match r
    case Done => o
    case Then(i, rest) => RunOf(Try(o, i), rest)
    case Enclosed(call, n, body, rest) =>
      RunOf(Try(Try(RunOf(Try(Try(o, call), SCtx(n)), body), RCtx(n)), Ret), rest)
  }

  /** Two machines in the same function invocation: bp, package and all slots below its n variables agree. */
  ghost predicate SameFrame(m: Machine, e: Machine, n: nat) {
    && n <= |m.base| == |e.base| && e.pkg == m.pkg
    && e.base[..|e.base| - n] == m.base[..|m.base| - n]
  }

  lemma {:induction false} EnterGrows(m: Machine, n: nat)
    ensures var e := Enter(m, n);
      |e.base| == |m.base| + n && e.base[..|m.base|] == m.base && e.pkg == m.pkg && e.pc == m.pc
    decreases n
  {
    if n > 0 {
      var e := PushBase(Create(m), Ref(|m.mgc|));
      EnterGrows(e, n - 1);
      assert Enter(e, n - 1).base[..|m.base|] == Enter(e, n - 1).base[..|e.base|][..|m.base|];
    }
  }

  lemma {:induction false} LeaveShrinks(m: Machine, n: nat)
    requires Locals(m, n)
    ensures var e := Leave(m, n); e.base == m.base[..|m.base| - n] && e.pkg == m.pkg && e.pc == m.pc
    decreases n
  {
    if n > 0 {
      LeaveShrinks(LeaveOne(m), n - 1);
    }
  }

  lemma {:induction false} PopManyFrame(m: Machine, n: nat)
    requires Operands(m, n)
    ensures PopMany(m, n).base == m.base && PopMany(m, n).pkg == m.pkg
    decreases n
  {
    if n > 0 { PopManyFrame(PopArc(m), n - 1); }
  }

  lemma PlainStepFrame(m: Machine, i: Ins, n: nat)
    requires Ready(m, i) && Scoped(Then(i, Done), n) && n <= |m.base|
    ensures SameFrame(m, Step(m, i), n)
  {
    if i.Operation? { PopManyFrame(m, i.pops); }
  }

  lemma FrameComposes(a: Machine, b: Machine, c: Machine, n: nat)
    requires SameFrame(a, b, n) && SameFrame(b, c, n)
    ensures SameFrame(a, c, n)
  {
  }

  /**
    A call comes back: after CALL or EXTCALL, SCTX n, a balanced body, RCTX n and RET the machine is
    at the instruction behind the call with bp, package and every base slot as before.
    */
  lemma {:induction false} CallReturns(m: Machine, call: Ins, n: byte, body: Balanced) returns (e: Machine)
    requires call.Call? || call.ExtCall?
    requires Scoped(body, n)
    requires RunOf(Some(m), Enclosed(call, n, body, Done)).Some?
    ensures RunOf(Some(m), Enclosed(call, n, body, Done)) == Some(e)
    ensures e.base == m.base && e.pkg == m.pkg && e.pc == Wrap16(m.pc + 3)
    decreases body, 1
  {
    hide Ready, Step, Scoped;
    var a := Try(Some(m), call);
    var b := Try(a, SCtx(n));
    var c := RunOf(b, body);
    var d := Try(c, RCtx(n));
    NoneStaysNone(body);
    CallSaves(m, call);
    ContextGrows(a.value, n);
    BalancedFrame(b.value, body, n as int);
    ContextShrinks(c.value, n);
    assert d.value.base == c.value.base[..|a.value.base|] == b.value.base[..|a.value.base|] == a.value.base;
    ReturnRestores(d.value);
    e := Try(d, Ret).value;
    assert e.base == a.value.base[..|m.base|] == m.base;
  }

  lemma CallSaves(m: Machine, call: Ins)
    requires (call.Call? || call.ExtCall?) && Ready(m, call)
    ensures Step(m, call).base == m.base + [Raw(m.pkg), Raw(m.pc + 3)]
  {
  }

  lemma ContextGrows(m: Machine, n: byte)
    requires Ready(m, SCtx(n))
    ensures var e := Step(m, SCtx(n)); |e.base| == |m.base| + n as int && e.base[..|m.base|] == m.base && e.pkg == m.pkg
  {
    EnterGrows(m, n as int);
  }

  lemma ContextShrinks(m: Machine, n: byte)
    requires Ready(m, RCtx(n))
    ensures n as int <= |m.base|
    ensures var e := Step(m, RCtx(n)); e.base == m.base[..|m.base| - n as int] && e.pkg == m.pkg
  {
    LeaveShrinks(m, n as int);
  }

  lemma ReturnRestores(m: Machine)
    requires Ready(m, Ret)
    ensures var n, e := |m.base|, Step(m, Ret);
            && n >= 2 && m.base[n - 1].Raw? && m.base[n - 2].Raw? && e.base == m.base[..n - 2]
            && e.pc == Wrap16(m.base[n - 1].value) && e.pkg == m.base[n - 2].value
  {
  }

  lemma {:induction false} NoneStaysNone(r: Balanced)
    ensures RunOf(None, r) == None
    decreases r
  {
    match r
    case Done =>
    case Then(_, rest) => NoneStaysNone(rest);
    case Enclosed(_, _, body, rest) => NoneStaysNone(body); NoneStaysNone(rest);
  }

  /** A balanced run stays in its frame. */
  lemma {:induction false} BalancedFrame(m: Machine, r: Balanced, n: nat)
    requires Scoped(r, n) && n <= |m.base| && RunOf(Some(m), r).Some?
    ensures SameFrame(m, RunOf(Some(m), r).value, n)
    decreases r, 0
  {
    match r
    case Done =>
    case Then(i, rest) =>
      NoneStaysNone(rest);
      PlainStepFrame(m, i, n);
      var e := Step(m, i);
      BalancedFrame(e, rest, n);
      FrameComposes(m, e, RunOf(Some(m), r).value, n);
    case Enclosed(call, k, body, rest) =>
      NoneStaysNone(rest);
      var e := CallReturns(m, call, k, body);
      assert RunOf(Some(m), r) == RunOf(Some(e), rest);
      BalancedFrame(e, rest, n);
  }

  /** The instructions of a balanced run in the order they execute. */
  function Flat(r: Balanced): seq<Ins> {
    match r
    case Done => []
    case Then(i, rest) => [i] + Flat(rest)
    case Enclosed(call, n, body, rest) => [call, SCtx(n)] + (Flat(body) + ([RCtx(n), Ret] + Flat(rest)))
  }

  lemma {:induction false} RunsCompose(o: Option<Machine>, a: seq<Ins>, b: seq<Ins>)
    ensures Run(o, a + b) == Run(Run(o, a), b)
    decreases |a|
  {
    hide Try;
    if a == [] {
      assert a + b == b;
    } else {
      assert (a + b)[1..] == a[1..] + b;
      RunsCompose(Try(o, a[0]), a[1..], b);
    }
  }

  /** A balanced run is a run. */
  lemma {:induction false} BalancedIsRun(o: Option<Machine>, r: Balanced)
    ensures RunOf(o, r) == Run(o, Flat(r))
    decreases r
  {
    hide Try;
    match r
    case Done =>
    case Then(i, rest) =>
      assert Flat(r)[1..] == Flat(rest);
      BalancedIsRun(Try(o, i), rest);
    case Enclosed(call, n, body, rest) =>
      var b := Try(Try(o, call), SCtx(n));
      TwoSteps(o, call, SCtx(n), Flat(body) + ([RCtx(n), Ret] + Flat(rest)));
      RunsCompose(b, Flat(body), [RCtx(n), Ret] + Flat(rest));
      BalancedIsRun(b, body);
      TwoSteps(RunOf(b, body), RCtx(n), Ret, Flat(rest));
      BalancedIsRun(Try(Try(RunOf(b, body), RCtx(n)), Ret), rest);
  }

  lemma TwoSteps(o: Option<Machine>, i: Ins, j: Ins, rest: seq<Ins>)
    ensures Run(o, [i, j] + rest) == Run(Try(Try(o, i), j), rest)
  {
    hide Try;
    assert ([i, j] + rest)[1..] == [j] + rest && ([j] + rest)[1..] == rest;
  }
}
