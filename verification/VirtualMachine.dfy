/** vm_decode of vm_stack.c in place: both stacks live in one array and grow towards each other. */
module VirtualMachine {
  import opened Bytes
  import opened StackMachine

  class Vm {
    const slots: array<Slot>      // vm_stacks
    var sp: int
    var bp: nat
    var pc: word
    var package: nat              // base_address
    var mgc: seq<byte>            // the mgc_refcount byte of every object made so far
    var running: bool             // vm_state == VM_STATE_RUN

    predicate InBounds()
      reads this
    {
      slots.Length == VM_MAX_STACK_SIZE && bp <= sp + 1 <= VM_MAX_STACK_SIZE
    }

    /** Between two instructions of a running machine the stacks have not met. */
    predicate Valid()
      reads this
    {
      InBounds() && (running ==> bp < sp)
    }

    /** The machine this object represents; what lies between bp and sp is not part of it. */
    function View(): Machine
      reads this, slots
      requires InBounds()
    {
      Machine(slots[..bp], slots[sp + 1..], pc, package, mgc, running)
    }

    /** vm_init and the two base slots that vm_decode pushes before it starts. */
    constructor (codebase: nat, start: word)
      ensures Valid() && fresh(slots)
      ensures View() == Start(codebase, start)
      ensures Exact(View())
    {
      slots := new Slot[VM_MAX_STACK_SIZE](i => if i == 1 then Raw(0xFFFF) else if i == 0 then Raw(0) else Null);
      sp, bp := VM_MAX_STACK_SIZE - 1, 2;
      pc, package, mgc, running := start, codebase, [], true;
    }

    /** obj->mgc_refcount += delta, if there is an object */
    method AddCount(s: Slot, delta: int)
      requires InBounds() && (s.Ref? ==> s.id < |mgc|)
      modifies this`mgc
      ensures View() == Bump(old(View()), s, delta)
    {
      if s.Ref? {
        mgc := mgc[s.id := (mgc[s.id] as int + delta) % 0x100];
      }
    }

    /** vm_create_object */
    method CreateObject() returns (s: Slot)
      requires InBounds()
      modifies this`mgc
      ensures View() == Create(old(View())) && s == Ref(|old(mgc)|)
    {
      s := Ref(|mgc|);
      mgc := mgc + [VM_MAGIC + 1];
    }

    method PushStack(s: Slot)
      requires InBounds() && Room(View()) >= 1
      modifies this`sp, slots
      ensures InBounds() && View() == Push(old(View()), s)
    {
      slots[sp] := s;
      sp := sp - 1;
    }

    method PushBase(s: Slot)
      requires InBounds() && Room(View()) >= 1
      modifies this`bp, slots
      ensures InBounds() && View() == StackMachine.PushBase(old(View()), s)
    {
      slots[bp] := s;
      bp := bp + 1;
    }

    /** vm_pop_stack_arc */
    method PopStackArc() returns (obj: Slot)
      requires InBounds() && View().stack != [] && Variable(View(), View().stack[0])
      modifies this`sp, this`mgc, slots
      ensures InBounds() && obj == old(View()).stack[0] && View() == PopArc(old(View()))
    {
      sp := sp + 1;
      obj := slots[sp];
      slots[sp] := Null;
      AddCount(obj, -1);
    }

    method PopBase() returns (s: Slot)
      requires InBounds() && bp > 0
      modifies this`bp
      ensures InBounds() && s == old(View()).base[old(bp) - 1]
      ensures View() == old(View()).(base := old(View()).base[..old(bp) - 1])
    {
      bp := bp - 1;
      s := slots[bp];
    }

    /** vmd_store_variable */
    method StoreVariable(index: byte, obj: Slot)
      requires InBounds() && VarAt(View(), index) >= 0
      requires Variable(View(), View().base[VarAt(View(), index)]) && Variable(View(), obj)
      modifies this`mgc, slots
      ensures InBounds() && View() == Store(old(View()), VarAt(old(View()), index), obj)
    {
      var v := bp - (index as int + 1);
      if slots[v] != obj {
        var op1 := slots[v];
        AddCount(op1, -1);
        ghost var m := View();
        slots[v] := obj;
        assert View() == m.(base := m.base[v := obj]);
        AddCount(obj, 1);
      }
    }

    /** The loop of SCTX. */
    method EnterContext(n: byte)
      requires InBounds() && Room(View()) >= n as int
      modifies this`bp, this`mgc, slots
      ensures InBounds() && View() == Enter(old(View()), n as int)
    {
      ghost var m := View();
      for psw := 0 to n as int
        invariant InBounds() && Room(View()) >= n as int - psw
        invariant Enter(View(), n as int - psw) == Enter(m, n as int)
        invariant sp == old(sp) && pc == old(pc) && package == old(package) && running == old(running)
      {
        var obj := CreateObject();
        PushBase(obj);
      }
    }

    /** One turn of the loop of RCTX. */
    method LeaveOne()
      requires InBounds() && Locals(View(), 1)
      modifies this`bp, this`mgc, slots
      ensures InBounds() && View() == StackMachine.LeaveOne(old(View()))
    {
      var obj := PopBase();
      var fill := CreateObject();
      slots[bp] := fill;
      AddCount(obj, -1);
    }

    /** The loop of RCTX. */
    method LeaveContext(n: byte)
      requires InBounds() && Locals(View(), n as int)
      modifies this`bp, this`mgc, slots
      ensures InBounds() && View() == Leave(old(View()), n as int)
    {
      ghost var m := View();
      for psw := 0 to n as int
        invariant InBounds() && Locals(View(), n as int - psw)
        invariant Leave(View(), n as int - psw) == Leave(m, n as int)
        invariant sp == old(sp) && pc == old(pc) && package == old(package) && running == old(running)
      {
        LeaveOne();
      }
    }

    /** The pops of an operation. */
    method PopOperands(pops: nat)
      requires InBounds() && Operands(View(), pops)
      modifies this`sp, this`mgc, slots
      ensures InBounds() && View() == PopMany(old(View()), pops)
    {
      ghost var m := View();
      for k := 0 to pops
        invariant InBounds() && Operands(View(), pops - k)
        invariant PopMany(View(), pops - k) == PopMany(m, pops)
      {
        var obj := PopStackArc();
      }
    }

    /** The pops of an operation, then its result. */
    method Operate(pops: nat)
      requires InBounds() && 1 <= pops && Operands(View(), pops)
      modifies this`sp, this`mgc, slots
      ensures InBounds()
      ensures View() == var p := PopMany(old(View()), pops); Push(Create(p), Ref(|p.mgc|))
    {
      PopManyRoom(View(), pops);
      hide PopMany;
      PopOperands(pops);
      var obj := CreateObject();
      PushStack(obj);
    }

    lemma PopManyRoom(m: Machine, pops: nat)
      requires Operands(m, pops)
      ensures Room(PopMany(m, pops)) == Room(m) + pops
      decreases pops
    {
      if pops > 0 {
        PopManyRoom(PopArc(m), pops - 1);
      }
    }

    /** CALL: save package and return address, then jump. */
    method EnterCall(newPackage: nat, rel: word)
      requires InBounds() && Room(View()) >= 2
      modifies this`bp, this`pc, this`package, slots
      ensures InBounds()
      ensures View() == var m := old(View());
        Goto(StackMachine.PushBase(StackMachine.PushBase(m, Raw(m.pkg)), Raw(m.pc + 3)), rel).(pkg := newPackage)
    {
      PushBase(Raw(package));
      PushBase(Raw(pc + 3));
      package := newPackage;
      pc := Wrap16(rel + pc);
    }

    /** OBJPUSH */
    method PushVariable(x: byte)
      requires Valid() && Ready(View(), ObjPush(x))
      modifies this, slots
      ensures InBounds() && View() == Effect(old(View()), ObjPush(x))
    {
      hide Bump, Wrap16;
      var obj := slots[bp - (x as int + 1)];
      AddCount(obj, 1);
      PushStack(obj);
      pc := Wrap16(pc + 2);
    }

    /** OBJPOP */
    method PopVariable(x: byte)
      requires Valid() && Ready(View(), ObjPop(x))
      modifies this, slots
      ensures InBounds() && View() == Effect(old(View()), ObjPop(x))
    {
      hide Store, Bump, Wrap16;
      ghost var m := View();
      var obj := PopStackArc();
      StoreVariable(x, obj);
      ghost var e := Store(PopArc(m), VarAt(m, x), m.stack[0]);
      assert View() == e;
      pc := Wrap16(pc + 2);
      assert View() == Goto(e, 2);
    }

    /** OBJSTORE */
    method CopyVariable(x: byte)
      requires Valid() && Ready(View(), ObjStore(x))
      modifies this, slots
      ensures InBounds() && View() == Effect(old(View()), ObjStore(x))
    {
      hide Store, Bump, Wrap16;
      StoreVariable(x, slots[sp + 1]);
      pc := Wrap16(pc + 2);
    }

    /** The cases that push a new object. */
    method SwitchConstant(i: Ins)
      requires Valid() && Ready(View(), i) && (i.ObjConst? || i.ObjDup?)
      modifies this, slots
      ensures InBounds() && View() == Effect(old(View()), i)
    {
      hide Bump;
      match i {
        case ObjConst =>
          var obj := CreateObject();
          AddCount(obj, -1);
          AddCount(obj, 1);
          PushStack(obj);
          pc := Wrap16(pc + 3);
        case ObjDup =>
          var obj := CreateObject();
          PushStack(obj);
          pc := Wrap16(pc + 1);
      }
    }

    /** The other cases that only touch the operand stack. */
    method SwitchOperand(i: Ins)
      requires Valid() && Ready(View(), i) && (i.ObjDel? || i.Operation? || i.JFalse? || i.Jmp?)
      modifies this, slots
      ensures InBounds() && View() == Effect(old(View()), i)
    {
      hide PopMany, Bump;
      match i {
        case ObjDel =>
          var obj := PopStackArc();
          pc := Wrap16(pc + 1);
        case Operation(n) =>
          Operate(n);
          pc := Wrap16(pc + 1);
        case JFalse(taken, rel) =>
          var op1 := PopStackArc();
          pc := Wrap16((if taken then rel as int else 3) + pc);
        case Jmp(rel) =>
          pc := Wrap16(rel + pc);
      }
    }

    /** The cases that build and take down a function's variables. */
    method SwitchContext(i: Ins)
      requires Valid() && Ready(View(), i) && (i.SCtx? || i.RCtx?)
      modifies this, slots
      ensures InBounds() && View() == Effect(old(View()), i)
    {
      hide Enter, Leave;
      match i {
        case SCtx(n) =>
          EnterContext(n);
          pc := Wrap16(pc + 2);
        case RCtx(n) =>
          LeaveContext(n);
          pc := Wrap16(pc + 2);
      }
    }

    /** RET: restore return address and package. */
    method LeaveCall()
      requires Valid() && Ready(View(), Ret)
      modifies this, slots
      ensures InBounds() && View() == Effect(old(View()), Ret)
    {
      var address := PopBase();
      pc := Wrap16(address.value);
      var saved := PopBase();
      package := saved.value;
    }

    /** CALL */
    method InternalCall(rel: word)
      requires Valid() && Ready(View(), Call(rel))
      modifies this, slots
      ensures InBounds() && View() == Effect(old(View()), Call(rel))
    {
      EnterCall(package, rel);
    }

    /** EXTCALL: the class instance and the method's name are dropped before the call. */
    method ExternalCall(newPackage: nat, rel: word)
      requires Valid() && Ready(View(), ExtCall(newPackage, rel))
      modifies this, slots
      ensures InBounds() && View() == Effect(old(View()), ExtCall(newPackage, rel))
    {
      hide Bump, Wrap16;
      var op1 := PopStackArc();
      var name := CreateObject();
      AddCount(name, -1);
      EnterCall(newPackage, rel);
    }

    /** The switch of vm_decode. */
    method Switch(i: Ins)
      requires Valid() && Ready(View(), i)
      modifies this, slots
      ensures InBounds() && View() == Effect(old(View()), i)
    {
      hide Effect;
      match i {
        case ObjPush(x) => PushVariable(x);
        case ObjPop(x) => PopVariable(x);
        case ObjStore(x) => CopyVariable(x);
        case ObjConst => SwitchConstant(i);
        case ObjDup => SwitchConstant(i);
        case ObjDel => SwitchOperand(i);
        case Operation(_) => SwitchOperand(i);
        case JFalse(_, _) => SwitchOperand(i);
        case Jmp(_) => SwitchOperand(i);
        case SCtx(_) => SwitchContext(i);
        case RCtx(_) => SwitchContext(i);
        case Call(rel) => InternalCall(rel);
        case ExtCall(newPackage, rel) => ExternalCall(newPackage, rel);
        case Ret => LeaveCall();
      }
    }

    /** One turn of the vm_decode loop. */
    method Execute(i: Ins)
      requires Valid() && Ready(View(), i)
      modifies this, slots
      ensures Valid() && View() == Step(old(View()), i)
      ensures old(Exact(View())) ==> Exact(View())
    {
      hide Effect, Exact, Ready;
      ghost var m := View();
      Switch(i);
      if bp >= sp {
        running := false;
      }
      if Exact(m) { StepKeepsExact(m, i); }
    }
  }
}
