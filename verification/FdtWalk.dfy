/** The walk as it runs: a fixed array of open nodes, one pass over the bytes, regions into the caller's slice. */
module FdtWalk {
  import opened Common
  import opened Buffers
  import opened Fdt

  /** A node's state; `reg` is where its value lies in the structure block. */
  datatype Slot = Slot(addressCells: u32, sizeCells: u32, isMemory: bool, isReservedRoot: bool, inReserved: bool,
                       reg: Option<(nat, nat)>)

  const EMPTY := Slot(2, 1, false, false, false, None)

  /** What a slot says, with the value its `reg` points at. */
  function Meaning(structure: seq<byte>, s: Slot): Level
  {
    Level(s.addressCells, s.sizeCells, s.isMemory, s.isReservedRoot, s.inReserved,
          if s.reg.Some? && s.reg.value.0 + s.reg.value.1 <= |structure|
          then Some(structure[s.reg.value.0..s.reg.value.0 + s.reg.value.1]) else None)
  }

  class NodeStack {
    const structure: seq<byte>
    const levels: array<Slot>
    var depth: nat

    ghost predicate Valid()
      reads this, levels
    {
      levels.Length == MAX_DEPTH && depth <= MAX_DEPTH
    }

    /** The open nodes, outermost first. */
    ghost function Stack(): (s: seq<Level>)
      requires Valid()
      reads this, levels
      ensures |s| == depth
    {
      seq(depth, i requires 0 <= i < depth && Valid() reads this, levels => Meaning(structure, levels[i]))
    }

    constructor (structure: seq<byte>)
      ensures Valid() && fresh(levels) && Stack() == [] && this.structure == structure
    {
      this.structure := structure;
      levels := new Slot[MAX_DEPTH](_ => EMPTY);
      depth := 0;
    }

    /** What a closed node's `reg` is read with. */
    method CellsInForce() returns (addressCells: u32, sizeCells: u32)
      requires Valid()
      ensures addressCells == Top(Stack()).addressCells && sizeCells == Top(Stack()).sizeCells
    {
      if depth == 0 {
        return 2, 1;
      }
      return levels[depth - 1].addressCells, levels[depth - 1].sizeCells;
    }

    method Enter(name: Name) returns (r: Result<()>)
      requires Valid()
      modifies this, levels
      ensures Valid() && (r.Err? <==> old(depth) == MAX_DEPTH) && (r.Err? ==> r.error == Malformed)
      ensures r.Ok? ==> Stack() == old(Stack()) + [Inherit(Top(old(Stack())), name)]
    {
      if depth == MAX_DEPTH {
        return Err(Malformed);
      }
      var slot := EMPTY;
      if depth > 0 {
        var parent := levels[depth - 1];
        slot := slot.(addressCells := parent.addressCells, sizeCells := parent.sizeCells, inReserved := parent.inReserved);
      }
      if name == Ascii("reserved-memory") {
        slot := slot.(isReservedRoot := true, inReserved := true);
      }
      ghost var before := Stack();
      levels[depth] := slot;
      depth := depth + 1;
      assert Stack() == before + [Meaning(structure, slot)];
      return Ok(());
    }

    method Leave() returns (r: Result<Slot>)
      requires Valid()
      modifies this
      ensures Valid() && (r.Err? <==> old(depth) == 0) && (r.Err? ==> r.error == Malformed)
      ensures r.Ok? ==> old(Stack()) == Stack() + [Meaning(structure, r.value)]
    {
      if depth == 0 {
        return Err(Malformed);
      }
      ghost var before := Stack();
      depth := depth - 1;
      assert before == Stack() + [Meaning(structure, levels[depth])];
      return Ok(levels[depth]);
    }

    method Property(name: Name, value: seq<byte>, at: nat, len: nat) returns (r: Result<()>)
      requires Valid() && at + len <= |structure| && structure[at..at + len] == value
      modifies levels
      ensures Valid()
      ensures var step := StepToken(Prop(name, value), old(Stack()), [], 0);
              if step.Err? then r == Err(step.error) else r.Ok? && Stack() == step.value.0
    {
      if depth == 0 {
        return Err(Malformed);
      }
      ghost var before := Stack();
      var slot := levels[depth - 1];
      if name == Ascii("#address-cells") {
        if |value| < 4 {
          return Err(Truncated);
        }
        slot := slot.(addressCells := Word32(value, 0));
      } else if name == Ascii("#size-cells") {
        if |value| < 4 {
          return Err(Truncated);
        }
        slot := slot.(sizeCells := Word32(value, 0));
      } else if name == Ascii("device_type") {
        slot := slot.(isMemory := value == Ascii("memory") + [0]);
      } else if name == Ascii("reg") {
        slot := slot.(reg := Some((at, len)));
      }
      levels[depth - 1] := slot;
      assert Stack() == before[depth - 1 := Meaning(structure, slot)];
      return Ok(());
    }
  }

  /** `read_reg`: one region per entry, into the caller's slice after those already there. */
  method FillRegions(reg: seq<byte>, ac: u32, sc: u32, kind: RegionKind, out: array<Region>, filled: nat)
    returns (r: Result<nat>)
    requires filled <= out.Length
    modifies out
    ensures var spec := ReadReg(reg, ac, sc, kind, old(out[..filled]), out.Length);
            if spec.Err? then r == Err(spec.error)
            else r.Ok? && filled <= r.value <= out.Length && out[..r.value] == spec.value
  {
    hide Regions, Cells;
    if ac == 0 || ac > 2 || sc == 0 || sc > 2 {
      return Err(UnsupportedCellCount);
    }
    var stride := 4 * (ac + sc);
    if |reg| % stride != 0 {
      return Err(Malformed);
    }
    ghost var start := out[..filled];
    var n, i := filled, 0;
    assert reg[0..] == reg;
    while i + stride <= |reg|
      invariant 0 <= i <= |reg| && filled <= n <= out.Length && |reg[i..]| % stride == 0
      invariant Regions(reg, ac, sc, kind, start, out.Length) == Regions(reg[i..], ac, sc, kind, out[..n], out.Length)
    {
      var entry := reg[i..i + stride];
      if n >= out.Length {
        RegionsFull(reg[i..], ac, sc, kind, out[..n], out.Length);
        return Err(TooManyRegions);
      }
      RegionsStep(reg, i, ac, sc, kind, out[..n], out.Length);
      ghost var before := out[..n];
      out[n] := Region(Cells(entry, 0, ac), Cells(entry, 4 * ac, sc), kind);
      assert out[..n + 1] == before + [out[n]];
      n := n + 1;
      i := i + stride;
    }
    RegionsDone(reg[i..], ac, sc, kind, out[..n], out.Length);
    return Ok(n);
  }

  lemma RegionsDone(reg: seq<byte>, ac: nat, sc: nat, kind: RegionKind, out: seq<Region>, cap: nat)
    requires 1 <= ac <= 2 && 1 <= sc <= 2 && |reg| % (4 * (ac + sc)) == 0 && |reg| < 4 * (ac + sc)
    ensures Regions(reg, ac, sc, kind, out, cap) == Ok(out)
  {}

  lemma RegionsFull(reg: seq<byte>, ac: nat, sc: nat, kind: RegionKind, out: seq<Region>, cap: nat)
    requires 1 <= ac <= 2 && 1 <= sc <= 2 && |reg| % (4 * (ac + sc)) == 0 && |reg| >= 4 * (ac + sc) && |out| >= cap
    ensures Regions(reg, ac, sc, kind, out, cap) == Err(TooManyRegions)
  {}

  lemma RegionsStep(reg: seq<byte>, i: nat, ac: nat, sc: nat, kind: RegionKind, out: seq<Region>, cap: nat)
    requires 1 <= ac <= 2 && 1 <= sc <= 2 && i <= |reg| && |reg[i..]| % (4 * (ac + sc)) == 0
    requires i + 4 * (ac + sc) <= |reg| && |out| < cap
    ensures var stride := 4 * (ac + sc);
            var entry := reg[i..i + stride];
            && |reg[i + stride..]| % stride == 0
            && Regions(reg[i..], ac, sc, kind, out, cap) ==
               Regions(reg[i + stride..], ac, sc, kind, out + [Region(Cells(entry, 0, ac), Cells(entry, 4 * ac, sc), kind)], cap)
  {
    var stride := 4 * (ac + sc);
    StrideLess(|reg[i..]|, stride);
    assert reg[i..][stride..] == reg[i + stride..];
    var entry := reg[i..i + stride];
    assert forall k :: 0 <= k < stride ==> entry[k] == reg[i..][k];
    assert Cells(reg[i..], 0, ac) == Cells(entry, 0, ac) && Cells(reg[i..], 4 * ac, sc) == Cells(entry, 4 * ac, sc);
  }

  /**
   `memory_regions`: on any bytes whatever the walk ends with a result, and it is the one
   the walk over tokens defines.
   */
  method MemoryRegions(structure: seq<byte>, strings: seq<byte>, out: array<Region>) returns (r: Result<nat>)
    modifies out
    ensures var spec := Walk(structure, strings, 0, [], [], out.Length);
            if spec.Err? then r == Err(spec.error)
            else r.Ok? && r.value <= out.Length && out[..r.value] == spec.value
  {
    hide *;
    var walk := new NodeStack(structure);
    var at: nat, filled: nat := 0, 0;
    assert out[..0] == [];
    while true
      invariant walk.Valid() && fresh(walk) && fresh(walk.levels) && walk.structure == structure && filled <= out.Length
      invariant Walk(structure, strings, 0, [], [], out.Length) ==
                Walk(structure, strings, at, walk.Stack(), out[..filled], out.Length)
      decreases |structure| - at
    {
      var next := NextToken(structure, strings, at);
      WalkStep(structure, strings, at, walk.Stack(), out[..filled], out.Length);
      match next.0 {
      case Bad(e) => return Err(e);
      case Fin =>
        if walk.depth == 0 {
          return Ok(filled);
        }
        return Err(Malformed);
      case Nop => {}
      case Begin(name) =>
        ghost var stack := walk.Stack();
        StepFacts(next.0, stack, out[..filled], out.Length);
        var entered := walk.Enter(name);
        if entered.Err? {
          return Err(entered.error);
        }
      case End =>
        ghost var stack := walk.Stack();
        StepFacts(next.0, stack, out[..filled], out.Length);
        var left := walk.Leave();
        if left.Err? {
          return Err(left.error);
        }
        var ac, sc := walk.CellsInForce();
        var closed := CloseNode(structure, left.value, ac, sc, out, filled, walk.Stack());
        if closed.Err? {
          return Err(closed.error);
        }
        filled := closed.value;
      case Prop(name, value) =>
        ghost var stack := walk.Stack();
        PropFacts(structure, strings, at, name, value, stack, out[..filled], out.Length);
        var set_ := walk.Property(name, value, next.1, |value|);
        if set_.Err? {
          return Err(set_.error);
        }
      }
      at := next.2;
    }
  }

  /** A node that describes memory adds its regions as it closes. */
  method CloseNode(structure: seq<byte>, s: Slot, ac: u32, sc: u32, out: array<Region>, filled: nat, ghost stack: seq<Level>)
    returns (r: Result<nat>)
    requires filled <= out.Length && ac == Top(stack).addressCells && sc == Top(stack).sizeCells
    modifies out
    ensures var spec := Close(Meaning(structure, s), Top(stack), old(out[..filled]), out.Length);
            if spec.Err? then r == Err(spec.error)
            else r.Ok? && filled <= r.value <= out.Length && out[..r.value] == spec.value
  {
    var kind := if s.isMemory then Some(Usable) else if s.inReserved && !s.isReservedRoot then Some(Reserved) else None;
    if kind.Some? && s.reg.Some? {
      var (at, len) := s.reg.value;
      if at + len <= |structure| {
        r := FillRegions(structure[at..at + len], ac, sc, kind.value, out, filled);
        return;
      }
    }
    return Ok(filled);
  }

  lemma WalkStep(structure: seq<byte>, strings: seq<byte>, at: nat, stack: seq<Level>, out: seq<Region>, cap: nat)
    ensures var next := NextToken(structure, strings, at);
            && (next.0.Bad? ==> Walk(structure, strings, at, stack, out, cap) == Err(next.0.error))
            && (next.0.Fin? ==> Walk(structure, strings, at, stack, out, cap) == if stack == [] then Ok(out) else Err(Malformed))
            && (!next.0.Bad? && !next.0.Fin? ==>
                  && at + 4 <= next.2 && at + 4 <= |structure|
                  && var r := StepToken(next.0, stack, out, cap);
                     Walk(structure, strings, at, stack, out, cap) ==
                     if r.Err? then Err(r.error) else Walk(structure, strings, next.2, r.value.0, r.value.1, cap))
            && (next.0.Nop? ==> StepToken(next.0, stack, out, cap) == Ok((stack, out)))
  {}

  lemma StepFacts(t: Token, stack: seq<Level>, out: seq<Region>, cap: nat)
    requires t.Begin? || t.End?
    ensures var r := StepToken(t, stack, out, cap);
            if t.Begin? then r == if |stack| == MAX_DEPTH then Err(Malformed) else Ok((stack + [Inherit(Top(stack), t.name)], out))
            else if stack == [] then r == Err(Malformed)
            else
              var rest := stack[..|stack| - 1];
              var closed := Close(stack[|stack| - 1], Top(rest), out, cap);
              r == if closed.Err? then Err(closed.error) else Ok((rest, closed.value))
  {}

  lemma PropFacts(structure: seq<byte>, strings: seq<byte>, at: nat, name: Name, value: seq<byte>, stack: seq<Level>,
                  out: seq<Region>, cap: nat)
    requires NextToken(structure, strings, at).0 == Prop(name, value)
    ensures var next := NextToken(structure, strings, at);
            next.1 + |value| <= |structure| && structure[next.1..next.1 + |value|] == value
    ensures var a, b := StepToken(Prop(name, value), stack, out, cap), StepToken(Prop(name, value), stack, [], 0);
            if b.Err? then a == Err(b.error) else a == Ok((b.value.0, out))
  {}
}
