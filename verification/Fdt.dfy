/**
 The flattened device tree: a structure block of tokens, and what its memory regions are,
 defined by recursion on the tree the tokens flatten.
 */
module Fdt {
  import opened Common
  import opened Buffers

  datatype Error = Truncated | Malformed | UnsupportedCellCount | TooManyRegions

  datatype Result<+T> = Ok(value: T) | Err(error: Error)

  datatype RegionKind = Usable | Reserved

  datatype Region = Region(base: u64, len: u64, kind: RegionKind)

  type Name = seq<byte>

  const MAX_DEPTH := 24

  // ----- fields -----

  function Be64(b: seq<byte>, at: nat): u64
    requires at + 8 <= |b|
  {
    0x1_0000_0000 * (Word32(b, at) as int) + Word32(b, at + 4) as int
  }

  /** How far the next NUL is, if there is one. */
  function StringLen(b: seq<byte>, at: nat): Option<nat>
    decreases |b| - at
  {
    if at >= |b| then None
    else if b[at] == 0 then Some(0)
    else
      match StringLen(b, at + 1)
      case None => None
      case Some(n) => Some(n + 1)
  }

  lemma {:induction false} StringInside(b: seq<byte>, at: nat)
    ensures StringLen(b, at).Some? ==> at + StringLen(b, at).value < |b|
    decreases |b| - at
  {
    if at < |b| && b[at] != 0 {
      StringInside(b, at + 1);
    }
  }

  /** The NUL-terminated string at `at`, without its terminator. */
  function CStr(b: seq<byte>, at: nat): Result<Name>
  {
    StringInside(b, at);
    if at > |b| then Err(Truncated)
    else
      match StringLen(b, at)
      case None => Err(Malformed)
      case Some(n) => Ok(b[at..at + n])
  }

  function Align4(v: nat): (r: nat)
    ensures v <= r < v + 4 && r % 4 == 0
  {
    (v + 3) / 4 * 4
  }

  // ----- tokens -----

  datatype Token = Begin(name: Name) | End | Prop(name: Name, value: seq<byte>) | Nop | Fin | Bad(error: Error)

  /** The token at `at`, where a property's value lies, and where the next token is. */
  function NextToken(structure: seq<byte>, strings: seq<byte>, at: nat): (r: (Token, nat, nat))
    ensures r.0 != Bad(Truncated) && !r.0.Bad? ==> r.2 >= at + 4
  {
    if at + 4 > |structure| then (Bad(Truncated), 0, at)
    else
      var tag := Word32(structure, at);
      if tag == 1 then
        match CStr(structure, at + 4)
        case Err(e) => (Bad(e), 0, at)
        case Ok(name) => (Begin(name), 0, Align4(at + 4 + |name| + 1))
      else if tag == 2 then (End, 0, at + 4)
      else if tag == 3 then
        if at + 12 > |structure| then (Bad(Truncated), 0, at)
        else
          var len, nameAt := Word32(structure, at + 4), Word32(structure, at + 8);
          if at + 12 + len > |structure| then (Bad(Truncated), 0, at)
          else
            match CStr(strings, nameAt)
            case Err(e) => (Bad(e), 0, at)
            case Ok(name) => (Prop(name, structure[at + 12..at + 12 + len]), at + 12, Align4(at + 12 + len))
      else if tag == 4 then (Nop, 0, at + 4)
      else if tag == 9 then (Fin, 0, at + 4)
      else (Bad(Malformed), 0, at)
  }

  // ----- levels -----

  function Ascii(s: string): seq<byte> { seq(|s|, i requires 0 <= i < |s| => (s[i] as int) % 256) }

  /** What a node has said so far; `reg` is the property's value. */
  datatype Level = Level(addressCells: u32, sizeCells: u32, isMemory: bool, isReservedRoot: bool, inReserved: bool,
                         reg: Option<seq<byte>>)

  const ROOT := Level(2, 1, false, false, false, None)

  /** A node starts with its parent's cell counts, as the walk hands them down. */
  function Inherit(parent: Level, name: Name): Level
  {
    var reserved := name == Ascii("reserved-memory");
    Level(parent.addressCells, parent.sizeCells, false, reserved, parent.inReserved || reserved, None)
  }

  function SetProperty(level: Level, name: Name, value: seq<byte>): Result<Level>
  {
    if name == Ascii("#address-cells") then
      if |value| < 4 then Err(Truncated) else Ok(level.(addressCells := Word32(value, 0)))
    else if name == Ascii("#size-cells") then
      if |value| < 4 then Err(Truncated) else Ok(level.(sizeCells := Word32(value, 0)))
    else if name == Ascii("device_type") then Ok(level.(isMemory := value == Ascii("memory") + [0]))
    else if name == Ascii("reg") then Ok(level.(reg := Some(value)))
    else Ok(level)
  }

  /** What kind of region a node's `reg` describes, if any. */
  function Contributes(level: Level): Option<RegionKind>
  {
    if level.isMemory then Some(Usable)
    else if level.inReserved && !level.isReservedRoot then Some(Reserved)
    else None
  }

  // ----- reg -----

  function Cells(b: seq<byte>, at: nat, cells: nat): u64
    requires (cells == 1 || cells == 2) && at + 4 * cells <= |b|
  {
    if cells == 1 then Word32(b, at) else Be64(b, at)
  }

  /** The regions of a `reg` value, after those there are, within `cap`. */
  function Regions(reg: seq<byte>, ac: nat, sc: nat, kind: RegionKind, out: seq<Region>, cap: nat): Result<seq<Region>>
    requires 1 <= ac <= 2 && 1 <= sc <= 2 && |reg| % (4 * (ac + sc)) == 0
    decreases |reg|
  {
    var stride := 4 * (ac + sc);
    if |reg| < stride then Ok(out)
    else if |out| >= cap then Err(TooManyRegions)
    else
      StrideLess(|reg|, stride);
      Regions(reg[stride..], ac, sc, kind, out + [Region(Cells(reg, 0, ac), Cells(reg, 4 * ac, sc), kind)], cap)
  }

  lemma StrideLess(n: nat, stride: nat)
    requires stride in {8, 12, 16} && n % stride == 0 && n >= stride
    ensures (n - stride) % stride == 0
  {
    if stride == 8 {
      assert (n - 8) % 8 == 0;
    } else if stride == 12 {
      assert (n - 12) % 12 == 0;
    } else {
      assert (n - 16) % 16 == 0;
    }
  }

  function ReadReg(reg: seq<byte>, ac: u32, sc: u32, kind: RegionKind, out: seq<Region>, cap: nat): Result<seq<Region>>
  {
    if ac == 0 || ac > 2 || sc == 0 || sc > 2 then Err(UnsupportedCellCount)
    else if |reg| % (4 * (ac + sc)) != 0 then Err(Malformed)
    else Regions(reg, ac, sc, kind, out, cap)
  }

  /** A node closes: its `reg`, read with its parent's cell counts, joins the map. */
  function Close(level: Level, parent: Level, out: seq<Region>, cap: nat): Result<seq<Region>>
  {
    if Contributes(level).Some? && level.reg.Some? then
      ReadReg(level.reg.value, parent.addressCells, parent.sizeCells, Contributes(level).value, out, cap)
    else Ok(out)
  }

  // ----- the tree -----

  /** A node's contents in the order they stand: properties and subnodes. */
  datatype Item = P(name: Name, value: seq<byte>) | N(name: Name, items: seq<Item>)

  /** The memory regions of a run of items, by recursion on the tree: subnodes first, then the node itself. */
  function Map(items: seq<Item>, level: Level, out: seq<Region>, cap: nat): Result<(Level, seq<Region>)>
    decreases items
  {
    if items == [] then Ok((level, out))
    else
      match items[0]
      case P(name, value) =>
        var set_ := SetProperty(level, name, value);
        if set_.Err? then Err(set_.error) else Map(items[1..], set_.value, out, cap)
      case N(name, sub) =>
        assert items[0] in items;
        var inner := Map(sub, Inherit(level, name), out, cap);
        if inner.Err? then Err(inner.error)
        else
          var closed := Close(inner.value.0, level, inner.value.1, cap);
          if closed.Err? then Err(closed.error) else Map(items[1..], level, closed.value, cap)
  }

  /** The tokens of a run of items. */
  function Flat(items: seq<Item>): seq<Token>
    decreases items
  {
    if items == [] then []
    else
      match items[0]
      case P(name, value) => [Prop(name, value)] + Flat(items[1..])
      case N(name, sub) => [Begin(name)] + Flat(sub) + [End] + Flat(items[1..])
  }

  function Depth(items: seq<Item>): nat
    decreases items
  {
    if items == [] then 0
    else
      var rest := Depth(items[1..]);
      match items[0]
      case P(_, _) => rest
      case N(_, sub) => if 1 + Depth(sub) >= rest then 1 + Depth(sub) else rest
  }

  // ----- the walk over tokens -----

  /** The node whose properties are being read: the top of the stack, or the root's defaults. */
  function Top(stack: seq<Level>): Level { if stack == [] then ROOT else stack[|stack| - 1] }

  /** What one token does to the stack of open nodes and the regions found. */
  function StepToken(t: Token, stack: seq<Level>, out: seq<Region>, cap: nat): Result<(seq<Level>, seq<Region>)>
  {
    match t
    case Begin(name) =>
      if |stack| == MAX_DEPTH then Err(Malformed) else Ok((stack + [Inherit(Top(stack), name)], out))
    case End =>
      if stack == [] then Err(Malformed)
      else
        var rest := stack[..|stack| - 1];
        var closed := Close(Top(stack), Top(rest), out, cap);
        if closed.Err? then Err(closed.error) else Ok((rest, closed.value))
    case Prop(name, value) =>
      if stack == [] then Err(Malformed)
      else
        var set_ := SetProperty(Top(stack), name, value);
        if set_.Err? then Err(set_.error) else Ok((stack[|stack| - 1 := set_.value], out))
    case Nop => Ok((stack, out))
    case Fin => Ok((stack, out))
    case Bad(e) => Err(e)
  }

  function Run(toks: seq<Token>, stack: seq<Level>, out: seq<Region>, cap: nat): Result<(seq<Level>, seq<Region>)>
    decreases |toks|
  {
    if toks == [] then Ok((stack, out))
    else
      var r := StepToken(toks[0], stack, out, cap);
      if r.Err? then Err(r.error) else Run(toks[1..], r.value.0, r.value.1, cap)
  }

  /** The whole walk over bytes, from `at`. */
  function Walk(structure: seq<byte>, strings: seq<byte>, at: nat, stack: seq<Level>, out: seq<Region>, cap: nat): Result<seq<Region>>
    decreases |structure| - at
  {
    var next := NextToken(structure, strings, at);
    if next.0.Bad? then Err(next.0.error)
    else if next.0.Fin? then (if stack == [] then Ok(out) else Err(Malformed))
    else
      var r := StepToken(next.0, stack, out, cap);
      if r.Err? then Err(r.error) else Walk(structure, strings, next.2, r.value.0, r.value.1, cap)
  }

  /** The tokens of a tree run as the recursion on the tree does. */
  lemma {:induction false} FlatRuns(items: seq<Item>, level: Level, rest: seq<Level>, out: seq<Region>, cap: nat, more: seq<Token>)
    requires |rest| + 1 + Depth(items) <= MAX_DEPTH
    ensures Run(Flat(items) + more, rest + [level], out, cap) ==
            var r := Map(items, level, out, cap);
            if r.Err? then Err(r.error) else Run(more, rest + [r.value.0], r.value.1, cap)
    decreases items
  {
    if items == [] {
      assert Flat(items) + more == more;
    } else {
      match items[0]
      case P(name, value) => {
        PropRuns(items, level, rest, out, cap, more);
        if SetProperty(level, name, value).Ok? {
          FlatRuns(items[1..], SetProperty(level, name, value).value, rest, out, cap, more);
        }
      }
      case N(name, sub) => {
        assert items[0] in items;
        var after := [End] + (Flat(items[1..]) + more);
        var stack := rest + [level];
        FlatRuns(sub, Inherit(level, name), stack, out, cap, after);
        BeginRuns(items, level, rest, out, cap, more);
        var inner := Map(sub, Inherit(level, name), out, cap);
        if inner.Ok? {
          EndRuns(items[1..], inner.value.0, level, rest, inner.value.1, cap, more);
          var closed := Close(inner.value.0, level, inner.value.1, cap);
          if closed.Ok? {
            FlatRuns(items[1..], level, rest, closed.value, cap, more);
          }
        }
      }
    }
  }

  lemma PropRuns(items: seq<Item>, level: Level, rest: seq<Level>, out: seq<Region>, cap: nat, more: seq<Token>)
    requires items != [] && items[0].P?
    ensures Run(Flat(items) + more, rest + [level], out, cap) ==
            var r := SetProperty(level, items[0].name, items[0].value);
            if r.Err? then Err(r.error) else Run(Flat(items[1..]) + more, rest + [r.value], out, cap)
  {
    hide *;
    FlatProp(items);
    assert (Flat(items) + more)[1..] == Flat(items[1..]) + more;
    StepProp(level, rest, items[0].name, items[0].value, out, cap);
    RunStep(Flat(items) + more, rest + [level], out, cap);
  }

  lemma FlatProp(items: seq<Item>)
    requires items != [] && items[0].P?
    ensures Flat(items) == [Prop(items[0].name, items[0].value)] + Flat(items[1..])
  {}

  lemma StepProp(level: Level, rest: seq<Level>, name: Name, value: seq<byte>, out: seq<Region>, cap: nat)
    ensures StepToken(Prop(name, value), rest + [level], out, cap) ==
            var r := SetProperty(level, name, value);
            if r.Err? then Err(r.error) else Ok((rest + [r.value], out))
  {
    hide SetProperty;
    var stack := rest + [level];
    assert Top(stack) == level;
    assert forall next :: stack[|stack| - 1 := next] == rest + [next];
  }

  lemma BeginRuns(items: seq<Item>, level: Level, rest: seq<Level>, out: seq<Region>, cap: nat, more: seq<Token>)
    requires items != [] && items[0].N? && |rest| + 1 < MAX_DEPTH
    ensures Run(Flat(items) + more, rest + [level], out, cap) ==
            Run(Flat(items[0].items) + ([End] + (Flat(items[1..]) + more)), rest + [level] + [Inherit(level, items[0].name)], out, cap)
  {
    var name, sub := items[0].name, items[0].items;
    var toks, stack := Flat(items) + more, rest + [level];
    FlatNode(items);
    assert toks == [Begin(name)] + (Flat(sub) + ([End] + (Flat(items[1..]) + more)));
    RunStep(toks, stack, out, cap);
    assert toks[1..] == Flat(sub) + ([End] + (Flat(items[1..]) + more));
  }

  lemma FlatNode(items: seq<Item>)
    requires items != [] && items[0].N?
    ensures Flat(items) == [Begin(items[0].name)] + Flat(items[0].items) + [End] + Flat(items[1..])
  {}

  lemma RunStep(toks: seq<Token>, stack: seq<Level>, out: seq<Region>, cap: nat)
    requires toks != []
    ensures Run(toks, stack, out, cap) ==
            var r := StepToken(toks[0], stack, out, cap);
            if r.Err? then Err(r.error) else Run(toks[1..], r.value.0, r.value.1, cap)
  {}

  lemma EndRuns(items: seq<Item>, inner: Level, level: Level, rest: seq<Level>, out: seq<Region>, cap: nat, more: seq<Token>)
    ensures Run([End] + (Flat(items) + more), rest + [level] + [inner], out, cap) ==
            var r := Close(inner, level, out, cap);
            if r.Err? then Err(r.error) else Run(Flat(items) + more, rest + [level], r.value, cap)
  {
    var toks, stack := [End] + (Flat(items) + more), rest + [level] + [inner];
    assert toks[0] == End && toks[1..] == Flat(items) + more && stack[..|stack| - 1] == rest + [level];
  }

  /** The node at the top, standing alone. */
  lemma RootRuns(name: Name, items: seq<Item>, out: seq<Region>, cap: nat)
    requires 1 + Depth(items) <= MAX_DEPTH
    ensures Run(Flat([N(name, items)]), [], out, cap) ==
            var r := Map([N(name, items)], ROOT, out, cap);
            if r.Err? then Err(r.error) else Ok(([], r.value.1))
  {
    var inner := Inherit(ROOT, name);
    FlatNode([N(name, items)]);
    var toks := Flat([N(name, items)]);
    assert [N(name, items)][1..] == [];
    assert toks == [Begin(name)] + (Flat(items) + [End]);
    RunStep(toks, [], out, cap);
    FirstStep(name, out, cap);
    assert toks[1..] == Flat(items) + [End];
    FlatRuns(items, inner, [], out, cap, [End]);
    assert [] + [inner] == [inner];
    MapRoot(name, items, out, cap);
    var r := Map(items, inner, out, cap);
    if r.Ok? {
      assert [] + [r.value.0] == [r.value.0] && [End][1..] == [];
      RunStep([End], [r.value.0], r.value.1, cap);
      LastStep(r.value.0, r.value.1, cap);
      var closed := Close(r.value.0, ROOT, r.value.1, cap);
      if closed.Ok? {
      }
    }
  }

  lemma FirstStep(name: Name, out: seq<Region>, cap: nat)
    ensures StepToken(Begin(name), [], out, cap) == Ok(([Inherit(ROOT, name)], out))
  {
    assert [] + [Inherit(ROOT, name)] == [Inherit(ROOT, name)];
  }

  lemma LastStep(level: Level, out: seq<Region>, cap: nat)
    ensures StepToken(End, [level], out, cap) ==
            var closed := Close(level, ROOT, out, cap);
            if closed.Err? then Err(closed.error) else Ok(([], closed.value))
  {
    assert [level][..0] == [];
  }

  lemma MapRoot(name: Name, items: seq<Item>, out: seq<Region>, cap: nat)
    ensures Map([N(name, items)], ROOT, out, cap) ==
            var inner := Map(items, Inherit(ROOT, name), out, cap);
            if inner.Err? then Err(inner.error)
            else
              var closed := Close(inner.value.0, ROOT, inner.value.1, cap);
              if closed.Err? then Err(closed.error) else Ok((ROOT, closed.value))
  {
    var one := [N(name, items)];
    assert one[1..] == [];
    hide Close;
    hide Inherit;
  }

  // ----- no-ops -----

  function Strip(toks: seq<Token>): seq<Token>
  {
    if toks == [] then [] else (if toks[0].Nop? then [] else [toks[0]]) + Strip(toks[1..])
  }

  lemma {:induction false} NopsDoNothing(toks: seq<Token>, stack: seq<Level>, out: seq<Region>, cap: nat)
    ensures Run(toks, stack, out, cap) == Run(Strip(toks), stack, out, cap)
    decreases |toks|
  {
    if toks != [] {
      var s := Strip(toks);
      if toks[0].Nop? {
        assert s == Strip(toks[1..]);
        NopsDoNothing(toks[1..], stack, out, cap);
      } else {
        assert s[0] == toks[0] && s[1..] == Strip(toks[1..]);
        var r := StepToken(toks[0], stack, out, cap);
        if r.Ok? {
          NopsDoNothing(toks[1..], r.value.0, r.value.1, cap);
        }
      }
    }
  }

  // ----- from bytes to tokens -----

  /** Reading from `at` gives these tokens, none of them the end, and arrives at `end`. */
  predicate Reads(structure: seq<byte>, strings: seq<byte>, at: nat, toks: seq<Token>, end: nat)
    decreases |toks|
  {
    if toks == [] then at == end
    else
      var next := NextToken(structure, strings, at);
      next.0 == toks[0] && !next.0.Bad? && !next.0.Fin? && Reads(structure, strings, next.2, toks[1..], end)
  }

  lemma {:induction false} WalkReads(structure: seq<byte>, strings: seq<byte>, at: nat, toks: seq<Token>, end: nat,
                                     stack: seq<Level>, out: seq<Region>, cap: nat)
    requires Reads(structure, strings, at, toks, end)
    ensures Walk(structure, strings, at, stack, out, cap) ==
            var r := Run(toks, stack, out, cap);
            if r.Err? then Err(r.error) else Walk(structure, strings, end, r.value.0, r.value.1, cap)
    decreases |toks|
  {
    if toks != [] {
      var next := NextToken(structure, strings, at);
      var r := StepToken(toks[0], stack, out, cap);
      if r.Ok? {
        WalkReads(structure, strings, next.2, toks[1..], end, r.value.0, r.value.1, cap);
      }
    }
  }

  /** The bytes flatten this tree: its tokens, no-ops anywhere among them, then the end. */
  predicate Flattens(structure: seq<byte>, strings: seq<byte>, name: Name, items: seq<Item>, toks: seq<Token>, end: nat)
  {
    && Reads(structure, strings, 0, toks, end) && NextToken(structure, strings, end).0 == Fin
    && Strip(toks) == Flat([N(name, items)])
  }

  /** The stack walk over a flattened tree finds exactly what the recursion on the tree defines. */
  lemma WalkIsRecursion(structure: seq<byte>, strings: seq<byte>, name: Name, items: seq<Item>, toks: seq<Token>, end: nat, cap: nat)
    requires Flattens(structure, strings, name, items, toks, end) && 1 + Depth(items) <= MAX_DEPTH
    ensures Walk(structure, strings, 0, [], [], cap) ==
            var r := Map([N(name, items)], ROOT, [], cap);
            if r.Err? then Err(r.error) else Ok(r.value.1)
  {
    WalkReads(structure, strings, 0, toks, end, [], [], cap);
    NopsDoNothing(toks, [], [], cap);
    RootRuns(name, items, [], cap);
  }

  // ----- the bytes of a tree -----

  predicate NoNul(name: Name) { forall i :: 0 <= i < |name| ==> name[i] != 0 }

  function Padding(n: nat): (z: seq<byte>)
    ensures |z| == Align4(n) - n
  {
    seq(Align4(n) - n, _ => 0)
  }

  /** A token that can be written: its name has no NUL, and a property's name is in the strings block at `nameAt`. */
  predicate Writable(t: Token, nameAt: u32, strings: seq<byte>)
  {
    match t
    case Begin(name) => NoNul(name)
    case Prop(name, value) => |value| < 0x1_0000_0000 && CStr(strings, nameAt) == Ok(name)
    case End => true
    case Nop => true
    case Fin => false
    case Bad(_) => false
  }

  /** A token's bytes, padded to four. */
  function TokenBytes(t: Token, nameAt: u32): seq<byte>
  {
    match t
    case Begin(name) => Be32(1) + name + [0] + Padding(|name| + 1)
    case Prop(name, value) => Be32(3) + Be32(|value| % 0x1_0000_0000) + Be32(nameAt) + value + Padding(|value|)
    case End => Be32(2)
    case Nop => Be32(4)
    case Fin => Be32(9)
    case Bad(_) => []
  }

  lemma {:induction false} StringLenIs(b: seq<byte>, at: nat, n: nat)
    requires at + n < |b| && b[at + n] == 0 && forall i :: at <= i < at + n ==> b[i] != 0
    ensures StringLen(b, at) == Some(n)
    decreases n
  {
    if n > 0 {
      StringLenIs(b, at + 1, n - 1);
    }
  }

  lemma ReadBe32(b: seq<byte>, at: nat, v: u32)
    requires at + 4 <= |b| && b[at..at + 4] == Be32(v)
    ensures Word32(b, at) == v
  {
    var w := Be32(v);
    assert b[at] == w[0] && b[at + 1] == w[1] && b[at + 2] == w[2] && b[at + 3] == w[3] by {
      var c := b[at..at + 4];
      assert b[at] == c[0] && b[at + 1] == c[1] && b[at + 2] == c[2] && b[at + 3] == c[3];
    }
    assert w[0..2] == Be16(v / 0x1_0000) && w[2..4] == Be16(v % 0x1_0000);
    assert w[0] == w[0..2][0] && w[1] == w[0..2][1] && w[2] == w[2..4][0] && w[3] == w[2..4][1];
  }

  lemma TagReads(b: seq<byte>, pre: seq<byte>, tag: u32, rest: seq<byte>)
    requires b == pre + Be32(tag) + rest
    ensures |pre| + 4 <= |b| && Word32(b, |pre|) == tag
  {
    assert b[|pre|..|pre| + 4] == Be32(tag);
    ReadBe32(b, |pre|, tag);
  }

  lemma BeginReads(pre: seq<byte>, name: Name, rest: seq<byte>, strings: seq<byte>)
    requires |pre| % 4 == 0 && NoNul(name)
    ensures var bytes := TokenBytes(Begin(name), 0);
            var next := NextToken(pre + bytes + rest, strings, |pre|);
            next.0 == Begin(name) && next.2 == |pre| + |bytes| && |bytes| % 4 == 0
  {
    hide *;
    var bytes := TokenBytes(Begin(name), 0);
    var b, at := pre + bytes + rest, |pre| + 4;
    BeginBytes(name);
    assert b == pre + Be32(1) + (name + [0] + Padding(|name| + 1) + rest);
    TagReads(b, pre, 1, name + [0] + Padding(|name| + 1) + rest);
    assert b == (pre + Be32(1)) + name + [0] + (Padding(|name| + 1) + rest);
    NameReads(b, pre + Be32(1), name, Padding(|name| + 1) + rest);
    NextBegin(b, strings, |pre|, name);
    AlignMore(at, |name| + 1);
  }

  lemma BeginBytes(name: Name)
    ensures TokenBytes(Begin(name), 0) == Be32(1) + name + [0] + Padding(|name| + 1)
  {}

  lemma NameReads(b: seq<byte>, pre: seq<byte>, name: Name, rest: seq<byte>)
    requires b == pre + name + [0] + rest && NoNul(name)
    ensures CStr(b, |pre|) == Ok(name)
  {
    forall i | |pre| <= i < |pre| + |name| ensures b[i] != 0 {
      assert b[i] == name[i - |pre|];
    }
    StringLenIs(b, |pre|, |name|);
    assert b[|pre|..|pre| + |name|] == name;
  }

  lemma NextBegin(b: seq<byte>, strings: seq<byte>, at: nat, name: Name)
    requires at + 4 <= |b| && Word32(b, at) == 1 && CStr(b, at + 4) == Ok(name)
    ensures NextToken(b, strings, at) == (Begin(name), 0, Align4(at + 4 + |name| + 1))
  {}

  lemma AlignMore(at: nat, n: nat)
    requires at % 4 == 0
    ensures Align4(at + n) == at + Align4(n) && (at + Align4(n)) % 4 == 0
  {}

  lemma PropReads(pre: seq<byte>, name: Name, value: seq<byte>, nameAt: u32, rest: seq<byte>, strings: seq<byte>)
    requires |pre| % 4 == 0 && Writable(Prop(name, value), nameAt, strings)
    ensures var bytes := TokenBytes(Prop(name, value), nameAt);
            var next := NextToken(pre + bytes + rest, strings, |pre|);
            next.0 == Prop(name, value) && next.2 == |pre| + |bytes| && |bytes| % 4 == 0
  {
    hide *;
    WritableProp(name, value, nameAt, strings);
    var bytes := TokenBytes(Prop(name, value), nameAt);
    var b, at := pre + bytes + rest, |pre| + 12;
    var tail := value + Padding(|value|) + rest;
    PropBytes(name, value, nameAt);
    assert b == pre + Be32(3) + (Be32(|value|) + Be32(nameAt) + tail);
    TagReads(b, pre, 3, Be32(|value|) + Be32(nameAt) + tail);
    assert b == (pre + Be32(3)) + Be32(|value|) + (Be32(nameAt) + tail);
    TagReads(b, pre + Be32(3), |value|, Be32(nameAt) + tail);
    assert b == (pre + Be32(3) + Be32(|value|)) + Be32(nameAt) + tail;
    TagReads(b, pre + Be32(3) + Be32(|value|), nameAt, tail);
    assert b[at..at + |value|] == value;
    NextProp(b, strings, |pre|, name, value, nameAt);
    AlignMore(at, |value|);
  }

  lemma WritableProp(name: Name, value: seq<byte>, nameAt: u32, strings: seq<byte>)
    requires Writable(Prop(name, value), nameAt, strings)
    ensures |value| < 0x1_0000_0000 && CStr(strings, nameAt) == Ok(name)
  {}

  lemma PropBytes(name: Name, value: seq<byte>, nameAt: u32)
    requires |value| < 0x1_0000_0000
    ensures TokenBytes(Prop(name, value), nameAt) == Be32(3) + Be32(|value|) + Be32(nameAt) + value + Padding(|value|)
  {}

  lemma NextProp(b: seq<byte>, strings: seq<byte>, at: nat, name: Name, value: seq<byte>, nameAt: u32)
    requires at + 12 + |value| <= |b| && Word32(b, at) == 3 && Word32(b, at + 4) == |value| && Word32(b, at + 8) == nameAt
    requires CStr(strings, nameAt) == Ok(name) && b[at + 12..at + 12 + |value|] == value
    ensures NextToken(b, strings, at) == (Prop(name, value), at + 12, Align4(at + 12 + |value|))
  {}

  lemma BareReads(pre: seq<byte>, t: Token, rest: seq<byte>, strings: seq<byte>)
    requires t == End || t == Nop || t == Fin
    ensures var bytes := TokenBytes(t, 0);
            var next := NextToken(pre + bytes + rest, strings, |pre|);
            next.0 == t && next.2 == |pre| + |bytes| && |bytes| % 4 == 0
  {
    var tag: u32 := if t == End then 2 else if t == Nop then 4 else 9;
    TagReads(pre + TokenBytes(t, 0) + rest, pre, tag, rest);
  }

  lemma TokenReads(pre: seq<byte>, t: Token, nameAt: u32, rest: seq<byte>, strings: seq<byte>)
    requires |pre| % 4 == 0 && Writable(t, nameAt, strings)
    ensures var bytes := TokenBytes(t, nameAt);
            var next := NextToken(pre + bytes + rest, strings, |pre|);
            next.0 == t && next.2 == |pre| + |bytes| && |bytes| % 4 == 0
  {
    match t
    case Begin(name) => BeginReads(pre, name, rest, strings);
    case Prop(name, value) => PropReads(pre, name, value, nameAt, rest, strings);
    case End => BareReads(pre, t, rest, strings);
    case Nop => BareReads(pre, t, rest, strings);
  }

  /** A run of tokens, with where each property's name is. */
  function Encode(toks: seq<Token>, names: seq<u32>): seq<byte>
    requires |names| == |toks|
  {
    if toks == [] then [] else TokenBytes(toks[0], names[0]) + Encode(toks[1..], names[1..])
  }

  lemma {:induction false} EncodeReads(pre: seq<byte>, toks: seq<Token>, names: seq<u32>, rest: seq<byte>, strings: seq<byte>)
    requires |names| == |toks| && |pre| % 4 == 0
    requires forall i :: 0 <= i < |toks| ==> Writable(toks[i], names[i], strings)
    ensures Reads(pre + Encode(toks, names) + rest, strings, |pre|, toks, |pre| + |Encode(toks, names)|)
    ensures |Encode(toks, names)| % 4 == 0
    decreases |toks|
  {
    hide *;
    EncodeIs(toks, names);
    var b := pre + Encode(toks, names) + rest;
    if toks == [] {
      ReadsNone(b, strings, |pre|);
    } else {
      var first, later := TokenBytes(toks[0], names[0]), Encode(toks[1..], names[1..]);
      assert b == pre + first + (later + rest);
      TokenReads(pre, toks[0], names[0], later + rest, strings);
      assert b == (pre + first) + later + rest;
      EncodeReads(pre + first, toks[1..], names[1..], rest, strings);
      WritableReads(toks[0], names[0], strings);
      ReadsMore(b, strings, |pre|, toks, |pre| + |Encode(toks, names)|);
    }
  }

  lemma EncodeIs(toks: seq<Token>, names: seq<u32>)
    requires |names| == |toks|
    ensures Encode(toks, names) == if toks == [] then [] else TokenBytes(toks[0], names[0]) + Encode(toks[1..], names[1..])
  {}

  lemma ReadsNone(b: seq<byte>, strings: seq<byte>, at: nat)
    ensures Reads(b, strings, at, [], at)
  {}

  lemma ReadsMore(b: seq<byte>, strings: seq<byte>, at: nat, toks: seq<Token>, end: nat)
    requires toks != [] && NextToken(b, strings, at).0 == toks[0] && !toks[0].Bad? && !toks[0].Fin?
    requires Reads(b, strings, NextToken(b, strings, at).2, toks[1..], end)
    ensures Reads(b, strings, at, toks, end)
  {}

  lemma WritableReads(t: Token, nameAt: u32, strings: seq<byte>)
    requires Writable(t, nameAt, strings)
    ensures !t.Bad? && !t.Fin?
  {}

  /**
   Every tree no deeper than twenty-four, flattened with no-ops anywhere: the walk over its
   bytes gives the regions the tree's own recursion defines.
   */
  lemma FlattenedTreeIsRead(strings: seq<byte>, name: Name, items: seq<Item>, toks: seq<Token>, names: seq<u32>, rest: seq<byte>, cap: nat)
    requires |names| == |toks| && Strip(toks) == Flat([N(name, items)]) && 1 + Depth(items) <= MAX_DEPTH
    requires forall i :: 0 <= i < |toks| ==> Writable(toks[i], names[i], strings)
    ensures Walk(Encode(toks, names) + Be32(9) + rest, strings, 0, [], [], cap) ==
            var r := Map([N(name, items)], ROOT, [], cap);
            if r.Err? then Err(r.error) else Ok(r.value.1)
  {
    hide *;
    var e := Encode(toks, names);
    var b := e + Be32(9) + rest;
    assert [] + e + (Be32(9) + rest) == b;
    EncodeReads([], toks, names, Be32(9) + rest, strings);
    FinReads(e, rest, strings);
    WalkIsRecursion(b, strings, name, items, toks, |e|, cap);
  }

  lemma FinReads(pre: seq<byte>, rest: seq<byte>, strings: seq<byte>)
    ensures NextToken(pre + Be32(9) + rest, strings, |pre|).0 == Fin
  {
    hide NextToken;
    BareReads(pre, Fin, rest, strings);
  }
}
