/** Passing arguments in fields (lib/actions.c): destinations are saved on a
  * stack, all sources are assigned at once, and later the destinations are
  * restored. */
module StackArgs {
  import opened Bits

  // ----- fields, stack and actions

  /** A field occupies bits [start, start + width) of the packet's metadata;
    * fields may overlap, as the registers do. */
  datatype Field = Field(id: nat, start: nat, width: nat)

  datatype Subfield = Subfield(field: Field, ofs: nat, width: nat)

  datatype Op = Push(sub: Subfield) | Pop(sub: Subfield)

  /** The bits that are 1, and the stack with its top at the end. */
  datatype State = State(mem: Bits, stack: seq<Bits>)

  function Whole(f: Field): (r: Subfield) {
    Subfield(f, 0, f.width)
  }

  predicate Covers(s: Subfield, x: nat) {
    s.field.start + s.ofs <= x < s.field.start + s.ofs + s.width
  }

  function Get(mem: Bits, s: Subfield): (r: Bits)
    ensures forall i :: i in r <==> 0 <= i < s.width && s.field.start + s.ofs + i in mem
  {
    set i | i in Range(0, s.width) && s.field.start + s.ofs + i in mem
  }

  predicate HasAt(v: Bits, lo: nat, x: nat) {
    lo <= x && x - lo in v
  }

  function Set(mem: Bits, s: Subfield, v: Bits): (r: Bits)
    ensures forall x: nat :: x in r <==> if Covers(s, x) then x - (s.field.start + s.ofs) in v else x in mem
  {
    var lo := s.field.start + s.ofs;
    (mem - Range(lo, lo + s.width)) + (set x | x in Range(lo, lo + s.width) && HasAt(v, lo, x))
  }

  /** Popping an empty stack does nothing. */
  function Step(s: State, op: Op): (r: State) {
    match op
    case Push(sub) => s.(stack := s.stack + [Get(s.mem, sub)])
    case Pop(sub) =>
      if s.stack == [] then s
      else State(Set(s.mem, sub, s.stack[|s.stack| - 1]), s.stack[..|s.stack| - 1])
  }

  function Exec(ops: seq<Op>, s: State): (r: State) {
    if ops == [] then s else Step(Exec(ops[..|ops| - 1], s), ops[|ops| - 1])
  }

  lemma {:induction false} ExecConcat(a: seq<Op>, b: seq<Op>, s: State)
    ensures Exec(a + b, s) == Exec(b, Exec(a, s))
    decreases |b|
  {
    if b == [] {
      assert a + b == a;
    } else {
      assert (a + b)[..|a + b| - 1] == a + b[..|b| - 1];
      ExecConcat(a, b[..|b| - 1], s);
    }
  }

  // ----- the encoding

  datatype Arg = Arg(src: Subfield, dst: Field)

  /** An argument whose source is its destination is left alone. */
  predicate Moves(a: Arg) {
    a.src.field.id != a.dst.id
  }

  /** Widths agree, and an id stands for one field. */
  ghost predicate ArgOk(a: Arg) {
    && a.src.width == a.dst.width && a.src.ofs + a.src.width <= a.src.field.width
    && (a.src.field.id == a.dst.id ==> a.src.field == a.dst)
  }

  function Saves(args: seq<Arg>): (r: seq<Op>) {
    if args == [] then []
    else (if Moves(args[0]) then [Push(Whole(args[0].dst))] else []) + Saves(args[1..])
  }

  function Sources(args: seq<Arg>): (r: seq<Op>) {
    if args == [] then []
    else Sources(args[1..]) + (if Moves(args[0]) then [Push(args[0].src)] else [])
  }

  function Loads(args: seq<Arg>): (r: seq<Op>) {
    if args == [] then []
    else (if Moves(args[0]) then [Pop(Whole(args[0].dst))] else []) + Loads(args[1..])
  }

  function Restores(args: seq<Arg>): (r: seq<Op>) {
    if args == [] then []
    else Restores(args[1..]) + (if Moves(args[0]) then [Pop(Whole(args[0].dst))] else [])
  }

  lemma {:induction false} AppendArg(args: seq<Arg>, a: Arg)
    ensures Saves(args + [a]) == Saves(args) + Saves([a])
    ensures Loads(args + [a]) == Loads(args) + Loads([a])
  {
    if args == [] {
      assert args + [a] == [a];
    } else {
      assert (args + [a])[0] == args[0] && (args + [a])[1..] == args[1..] + [a];
      AppendArg(args[1..], a);
    }
  }

  /** encode_setup_args() */
  method EncodeSetup(args: seq<Arg>) returns (ops: seq<Op>)
    requires forall a :: a in args ==> a.src.width == a.dst.width
    ensures ops == Saves(args) + Sources(args) + Loads(args)
  {
    ops := [];
    for i := 0 to |args|
      invariant ops == Saves(args[..i])
    {
      assert args[..i + 1] == args[..i] + [args[i]];
      AppendArg(args[..i], args[i]);
      if Moves(args[i]) {
        ops := ops + [Push(Whole(args[i].dst))];
      }
    }
    assert args[..|args|] == args;
    for i := |args| downto 0
      invariant ops == Saves(args) + Sources(args[i..])
    {
      assert args[i..][1..] == args[i + 1..];
      if Moves(args[i]) {
        ops := ops + [Push(args[i].src)];
      }
    }
    assert args[0..] == args;
    for i := 0 to |args|
      invariant ops == Saves(args) + Sources(args) + Loads(args[..i])
    {
      assert args[..i + 1] == args[..i] + [args[i]];
      AppendArg(args[..i], args[i]);
      if Moves(args[i]) {
        ops := ops + [Pop(Whole(args[i].dst))];
      }
    }
  }

  /** encode_restore_args() */
  method EncodeRestore(args: seq<Arg>) returns (ops: seq<Op>)
    ensures ops == Restores(args)
  {
    ops := [];
    for i := |args| downto 0
      invariant ops == Restores(args[i..])
    {
      assert args[i..][1..] == args[i + 1..];
      if Moves(args[i]) {
        ops := ops + [Pop(Whole(args[i].dst))];
      }
    }
    assert args[0..] == args;
  }

  // ----- what the encoding does

  /** The saved values, the last argument's on top. */
  function Saved(args: seq<Arg>, mem: Bits): (r: seq<Bits>) {
    if args == [] then []
    else (if Moves(args[0]) then [Get(mem, Whole(args[0].dst))] else []) + Saved(args[1..], mem)
  }

  /** The source values, the first argument's on top. */
  function Pushed(args: seq<Arg>, mem: Bits): (r: seq<Bits>) {
    if args == [] then []
    else Pushed(args[1..], mem) + (if Moves(args[0]) then [Get(mem, args[0].src)] else [])
  }

  function Loaded(args: seq<Arg>, from: Bits, mem: Bits): (r: Bits) {
    if args == [] then mem
    else Loaded(args[1..], from, if Moves(args[0]) then Set(mem, Whole(args[0].dst), Get(from, args[0].src)) else mem)
  }

  function Restored(args: seq<Arg>, from: Bits, mem: Bits): (r: Bits) {
    if args == [] then mem
    else
      var rest := Restored(args[1..], from, mem);
      if Moves(args[0]) then Set(rest, Whole(args[0].dst), Get(from, Whole(args[0].dst))) else rest
  }

  lemma {:induction false} ExecSaves(args: seq<Arg>, s: State)
    ensures Exec(Saves(args), s) == State(s.mem, s.stack + Saved(args, s.mem))
    decreases |args|
  {
    if args == [] {
      assert s.stack + [] == s.stack;
    } else {
      var first := if Moves(args[0]) then [Push(Whole(args[0].dst))] else [];
      var here := if Moves(args[0]) then [Get(s.mem, Whole(args[0].dst))] else [];
      assert Saves(args) == first + Saves(args[1..]);
      ExecConcat(first, Saves(args[1..]), s);
      assert Exec(first, s) == State(s.mem, s.stack + here) by {
        if Moves(args[0]) {
          ExecOne(first[0], s);
        } else {
          assert s.stack + [] == s.stack;
        }
      }
      ExecSaves(args[1..], State(s.mem, s.stack + here));
      assert (s.stack + here) + Saved(args[1..], s.mem) == s.stack + (here + Saved(args[1..], s.mem));
    }
  }

  lemma ExecOne(op: Op, s: State)
    ensures Exec([op], s) == Step(s, op)
  {
    assert [op][..0] == [];
    assert Exec([], s) == s;
  }

  lemma {:induction false} ExecSources(args: seq<Arg>, s: State)
    ensures Exec(Sources(args), s) == State(s.mem, s.stack + Pushed(args, s.mem))
    decreases |args|
  {
    if args == [] {
      assert s.stack + [] == s.stack;
    } else {
      var last := if Moves(args[0]) then [Push(args[0].src)] else [];
      ExecConcat(Sources(args[1..]), last, s);
      ExecSources(args[1..], s);
      var s1 := Exec(Sources(args[1..]), s);
      if Moves(args[0]) {
        ExecOne(last[0], s1);
      }
      assert Exec(last, s1).stack == s.stack + Pushed(args, s.mem);
    }
  }

  lemma {:induction false} ExecLoads(args: seq<Arg>, from: Bits, mem: Bits, stack: seq<Bits>)
    ensures Exec(Loads(args), State(mem, stack + Pushed(args, from))) == State(Loaded(args, from, mem), stack)
    decreases |args|
  {
    var s := State(mem, stack + Pushed(args, from));
    if args == [] {
      assert stack + [] == stack;
    } else {
      var first := if Moves(args[0]) then [Pop(Whole(args[0].dst))] else [];
      ExecConcat(first, Loads(args[1..]), s);
      var s1 := Exec(first, s);
      var mem1 := if Moves(args[0]) then Set(mem, Whole(args[0].dst), Get(from, args[0].src)) else mem;
      if Moves(args[0]) {
        ExecOne(first[0], s);
        assert s.stack == (stack + Pushed(args[1..], from)) + [Get(from, args[0].src)];
      } else {
        assert Pushed(args, from) == Pushed(args[1..], from);
      }
      assert s1 == State(mem1, stack + Pushed(args[1..], from));
      ExecLoads(args[1..], from, mem1, stack);
    }
  }

  lemma {:induction false} ExecRestores(args: seq<Arg>, from: Bits, mem: Bits, stack: seq<Bits>)
    ensures Exec(Restores(args), State(mem, stack + Saved(args, from))) == State(Restored(args, from, mem), stack)
    decreases |args|
  {
    var s := State(mem, stack + Saved(args, from));
    if args == [] {
      assert stack + [] == stack;
    } else {
      var here := if Moves(args[0]) then [Get(from, Whole(args[0].dst))] else [];
      var last := if Moves(args[0]) then [Pop(Whole(args[0].dst))] else [];
      ExecConcat(Restores(args[1..]), last, s);
      assert s.stack == (stack + here) + Saved(args[1..], from);
      ExecRestores(args[1..], from, mem, stack + here);
      var s1 := State(Restored(args[1..], from, mem), stack + here);
      if Moves(args[0]) {
        ExecOne(last[0], s1);
        assert s1.stack[..|s1.stack| - 1] == stack;
      } else {
        assert stack + here == stack;
      }
    }
  }

  // ----- what that means for each bit

  /** Bit 'x' is in a destination that is moved to. */
  ghost predicate Written(args: seq<Arg>, x: nat) {
    exists a :: a in args && Moves(a) && Covers(Whole(a.dst), x)
  }

  ghost predicate Disjoint(args: seq<Arg>) {
    forall i, j, x :: 0 <= i < j < |args| && Covers(Whole(args[i].dst), x) ==> !Covers(Whole(args[j].dst), x)
  }

  /** Every saved destination gets back what it held; nothing else changes. */
  lemma {:induction false} RestoredAt(args: seq<Arg>, from: Bits, mem: Bits, x: nat)
    ensures x in Restored(args, from, mem) <==> if Written(args, x) then x in from else x in mem
  {
    if args != [] {
      assert args == [args[0]] + args[1..];
      RestoredAt(args[1..], from, mem, x);
      assert Written(args, x) <==> (Moves(args[0]) && Covers(Whole(args[0].dst), x)) || Written(args[1..], x);
    }
  }

  lemma {:induction false} LoadedElsewhere(args: seq<Arg>, from: Bits, mem: Bits, x: nat)
    requires !Written(args, x)
    ensures x in Loaded(args, from, mem) <==> x in mem
  {
    if args != [] {
      assert args == [args[0]] + args[1..];
      forall a | a in args[1..] ensures !(Moves(a) && Covers(Whole(a.dst), x)) { assert a in args; }
      assert args[0] in args;
      LoadedElsewhere(args[1..], from,
                      if Moves(args[0]) then Set(mem, Whole(args[0].dst), Get(from, args[0].src)) else mem, x);
    }
  }

  /** The bit of the source that belongs to bit 'x' of the destination. */
  function SourceBit(a: Arg, x: nat): (r: nat)
    requires Covers(Whole(a.dst), x)
  {
    x - a.dst.start + a.src.field.start + a.src.ofs
  }

  lemma {:induction false} LoadedAt(args: seq<Arg>, from: Bits, mem: Bits, i: nat, x: nat)
    requires Disjoint(args) && i < |args| && Moves(args[i]) && args[i].src.width == args[i].dst.width
    requires Covers(Whole(args[i].dst), x)
    ensures x in Loaded(args, from, mem) <==> SourceBit(args[i], x) in from
    decreases |args|
  {
    var mem1 := if Moves(args[0]) then Set(mem, Whole(args[0].dst), Get(from, args[0].src)) else mem;
    if i == 0 {
      forall a | a in args[1..] ensures !Covers(Whole(a.dst), x) {
        var j :| 0 <= j < |args[1..]| && args[1..][j] == a;
        assert args[j + 1] == a;
      }
      LoadedElsewhere(args[1..], from, mem1, x);
    } else {
      assert Disjoint(args[1..]) by {
        forall k, j, y | 0 <= k < j < |args[1..]| && Covers(Whole(args[1..][k].dst), y)
          ensures !Covers(Whole(args[1..][j].dst), y) {
          assert args[k + 1] == args[1..][k] && args[j + 1] == args[1..][j];
        }
      }
      LoadedAt(args[1..], from, mem1, i - 1, x);
    }
  }

  /** Setting up arguments assigns all of them at once: each destination holds
    * what its source held before, even where sources and destinations overlap,
    * and no other bit changes.  The old destinations are on the stack. */
  lemma SetupAssigns(args: seq<Arg>, s: State)
    requires Disjoint(args) && forall a :: a in args ==> ArgOk(a)
    ensures var t := Exec(Saves(args) + Sources(args) + Loads(args), s);
            && t.stack == s.stack + Saved(args, s.mem)
            && (forall a, x :: a in args && Covers(Whole(a.dst), x) ==> (x in t.mem <==> SourceBit(a, x) in s.mem))
            && (forall x :: !Written(args, x) ==> (x in t.mem <==> x in s.mem))
  {
    ExecSetup(args, s);
    var mem := Loaded(args, s.mem, s.mem);
    forall a, x | a in args && Covers(Whole(a.dst), x) ensures x in mem <==> SourceBit(a, x) in s.mem {
      var i: nat :| i < |args| && args[i] == a;
      assert ArgOk(a);
      if Moves(a) {
        LoadedAt(args, s.mem, s.mem, i, x);
      } else {
        assert a.src.ofs == 0;
        UnmovedNotWritten(args, i, x);
        LoadedElsewhere(args, s.mem, s.mem, x);
      }
    }
    forall x | !Written(args, x) ensures x in mem <==> x in s.mem {
      LoadedElsewhere(args, s.mem, s.mem, x);
    }
  }

  lemma UnmovedNotWritten(args: seq<Arg>, i: nat, x: nat)
    requires Disjoint(args) && i < |args| && !Moves(args[i]) && Covers(Whole(args[i].dst), x)
    ensures !Written(args, x)
  {
    forall a | a in args && Covers(Whole(a.dst), x) ensures a == args[i] {
      var j :| 0 <= j < |args| && args[j] == a;
      assert i == j;
    }
  }

  lemma ExecSetup(args: seq<Arg>, s: State)
    ensures Exec(Saves(args) + Sources(args) + Loads(args), s) ==
            State(Loaded(args, s.mem, s.mem), s.stack + Saved(args, s.mem))
  {
    ExecConcat(Saves(args) + Sources(args), Loads(args), s);
    ExecConcat(Saves(args), Sources(args), s);
    ExecSaves(args, s);
    var s1 := Exec(Saves(args), s);
    ExecSources(args, s1);
    ExecLoads(args, s.mem, s.mem, s1.stack);
  }

  /** After any body that leaves the stack as it found it, whatever it did to the
    * fields, restoring gives every saved destination its entry value, keeps all
    * other bits, and leaves the stack as it was before the setup. */
  lemma RestoreUndoes(args: seq<Arg>, s: State, after: Bits)
    ensures var t := Exec(Saves(args) + Sources(args) + Loads(args), s);
            var u := Exec(Restores(args), t.(mem := after));
            && u.stack == s.stack
            && forall x :: x in u.mem <==> if Written(args, x) then x in s.mem else x in after
  {
    ExecSetup(args, s);
    ExecRestores(args, s.mem, after, s.stack);
    forall x ensures x in Restored(args, s.mem, after) <==> if Written(args, x) then x in s.mem else x in after {
      RestoredAt(args, s.mem, after, x);
    }
  }
}
