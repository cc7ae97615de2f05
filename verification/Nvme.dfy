/**
 The NVMe completion ring: the controller writes entries round and round, and the only
 thing that says an entry is new is one phase bit that flips on every pass.
 */
module Nvme {
  import opened Common

  const COMPLETION_LEN := 16

  datatype Error = QueueSize | ShortBuffer | BadCompletion

  datatype Result<+T> = Ok(value: T) | Err(error: Error)

  datatype Completion = Completion(cid: u16, sqid: u16, sqHead: u16, status: u16)

  predicate WellFormed(c: Completion) { c.status < 0x8000 }

  function Get32(b: seq<byte>, at: nat): u32
    requires at + 4 <= |b|
  {
    (b[at] as int) + 0x100 * (b[at + 1] as int) + 0x1_0000 * (b[at + 2] as int) + 0x100_0000 * (b[at + 3] as int)
  }

  function Le32(v: u32): (b: seq<byte>)
    ensures |b| == 4 && Get32(b, 0) == v
  {
    [v % 256, v / 0x100 % 256, v / 0x1_0000 % 256, v / 0x100_0000]
  }

  /** The sixteen bytes a controller posts: command and queue identifiers, status, and the phase bit. */
  function Encoded(c: Completion, phase: bool): (b: seq<byte>)
    requires WellFormed(c)
    ensures |b| == COMPLETION_LEN
  {
    [0, 0, 0, 0, 0, 0, 0, 0] + Le32(c.sqHead + 0x1_0000 * c.sqid) +
    Le32(c.cid + (if phase then 0x1_0000 else 0) + 0x2_0000 * c.status)
  }

  // ----- the driver's view -----

  class CompletionRing {
    const entries: u16
    var head: u16
    var phase: bool

    ghost predicate Valid()
      reads this
    {
      head < entries
    }

    /** Positioned before the first entry; the ring starts zeroed, so a set bit marks the first pass. */
    constructor (entries: u16)
      requires entries > 0
      ensures Valid() && this.entries == entries && head == 0 && phase
    {
      this.entries := entries;
      head := 0;
      phase := true;
    }

    method Poll(ring: seq<byte>) returns (r: Result<Option<Completion>>)
      requires Valid()
      modifies this
      ensures Valid()
      ensures (r, head, phase) == PollSpec(entries, old(head), old(phase), ring)
    {
      var at := head * COMPLETION_LEN;
      if |ring| < at + COMPLETION_LEN {
        return Err(ShortBuffer);
      }
      var statusWord := Get32(ring, at + 12);
      if (statusWord / 0x1_0000 % 2 == 1) != phase {
        return Ok(None);
      }
      var queues := Get32(ring, at + 8);
      var completion := Completion(statusWord % 0x1_0000, queues / 0x1_0000, queues % 0x1_0000, statusWord / 0x2_0000);
      if completion.sqHead > entries {
        return Err(BadCompletion);
      }
      head := head + 1;
      if head == entries {
        head := 0;
        phase := !phase;
      }
      return Ok(Some(completion));
    }
  }

  /** `CompletionRing::new`. */
  method NewRing(entries: u16) returns (r: Result<CompletionRing>)
    ensures r.Err? <==> entries == 0
    ensures r.Ok? ==> fresh(r.value) && r.value.Valid() && r.value.entries == entries && r.value.head == 0 && r.value.phase
  {
    if entries == 0 {
      return Err(QueueSize);
    }
    var ring := new CompletionRing(entries);
    return Ok(ring);
  }

  /** What one poll answers, and where it leaves the reader. */
  function PollSpec(entries: u16, head: u16, phase: bool, ring: seq<byte>): (Result<Option<Completion>>, u16, bool)
    requires head < entries
  {
    var at := head * COMPLETION_LEN;
    if |ring| < at + COMPLETION_LEN then (Err(ShortBuffer), head, phase)
    else
      var statusWord := Get32(ring, at + 12);
      var queues := Get32(ring, at + 8);
      var c := Completion(statusWord % 0x1_0000, queues / 0x1_0000, queues % 0x1_0000, statusWord / 0x2_0000);
      if (statusWord / 0x1_0000 % 2 == 1) != phase then (Ok(None), head, phase)
      else if c.sqHead > entries then (Err(BadCompletion), head, phase)
      else if head + 1 == entries then (Ok(Some(c)), 0, !phase)
      else (Ok(Some(c)), head + 1, phase)
  }

  // ----- the controller and the driver together -----

  /** The slot and the phase of the `k`-th completion ever posted. */
  function SlotOf(k: nat, entries: nat): nat
    requires entries > 0
  {
    k % entries
  }

  predicate PhaseOf(k: nat, entries: nat)
    requires entries > 0
  {
    k / entries % 2 == 0
  }

  datatype World = World(entries: u16, ring: seq<byte>, head: u16, phase: bool,
                         posted: seq<Completion>, taken: seq<Completion>)

  datatype Op = Post(c: Completion) | Poll

  function Start(entries: u16): World
  {
    World(entries, seq(entries * COMPLETION_LEN, _ => 0), 0, true, [], [])
  }

  /** One step: the controller overwrites the next slot, never one still unread; or the driver polls once. */
  function Step(w: World, op: Op): World
    requires w.head < w.entries && |w.ring| == w.entries * COMPLETION_LEN
  {
    match op
    case Post(c) =>
      if !WellFormed(c) || |w.posted| - |w.taken| >= w.entries then w
      else
        var k := |w.posted|;
        SlotFits(k, w.entries);
        var at := SlotOf(k, w.entries) * COMPLETION_LEN;
        w.(ring := w.ring[..at] + Encoded(c, PhaseOf(k, w.entries)) + w.ring[at + COMPLETION_LEN..], posted := w.posted + [c])
    case Poll =>
      var (r, head, phase) := PollSpec(w.entries, w.head, w.phase, w.ring);
      w.(head := head, phase := phase, taken := w.taken + if r.Ok? && r.value.Some? then [r.value.value] else [])
  }

  lemma SlotFits(k: nat, entries: nat)
    requires entries > 0
    ensures SlotOf(k, entries) * COMPLETION_LEN + COMPLETION_LEN <= entries * COMPLETION_LEN
  {}

  /** Slot `s` holds the completion last posted there, or zeroes before the first pass reaches it. */
  ghost predicate SlotHolds(w: World, s: nat)
    requires |w.ring| == w.entries * COMPLETION_LEN && s < w.entries
  {
    var at := s * COMPLETION_LEN;
    var n := |w.posted|;
    if s >= n then forall i :: at <= i < at + COMPLETION_LEN ==> w.ring[i] == 0
    else
      var k := LatestAt(n, s, w.entries);
      WellFormed(w.posted[k]) && w.ring[at..at + COMPLETION_LEN] == Encoded(w.posted[k], PhaseOf(k, w.entries))
  }

  /** The latest of the first `n` completions to land in slot `s`. */
  function LatestAt(n: nat, s: nat, entries: nat): (k: nat)
    requires s < entries && s < n
    ensures k < n && k % entries == s && n <= k + entries
  {
    LatestMath(n, s, entries);
    (n - 1 - s) / entries * entries + s
  }

  lemma LatestMath(n: nat, s: nat, entries: nat)
    requires s < entries && s < n
    ensures var k := (n - 1 - s) / entries * entries + s; k < n && k % entries == s && n <= k + entries
  {
    var q, m := (n - 1 - s) / entries, n - 1 - s;
    assert m == q * entries + m % entries;
    DivModIs(q * entries + s, q, s, entries);
  }

  lemma DivModIs(x: nat, q: nat, r: nat, m: nat)
    requires r < m && x == q * m + r
    ensures x / m == q && x % m == r
  {
    var q', r' := x / m, x % m;
    assert x == q' * m + r';
    if q' < q {
      Apart(q' + 1, q, m);
    } else if q < q' {
      Apart(q + 1, q', m);
    }
  }

  lemma Apart(a: nat, b: nat, m: nat)
    requires a <= b
    ensures a * m <= b * m
  {}

  ghost predicate Inv(w: World)
  {
    && 0 < w.entries && |w.ring| == w.entries * COMPLETION_LEN
    && |w.taken| <= |w.posted| <= |w.taken| + w.entries
    && w.taken == w.posted[..|w.taken|]
    && w.head == SlotOf(|w.taken|, w.entries) && w.phase == PhaseOf(|w.taken|, w.entries)
    && (forall s: nat :: s < w.entries ==> SlotHolds(w, s))
  }

  // ----- what a poll finds -----

  lemma Decoded(c: Completion, phase: bool, ring: seq<byte>, at: nat)
    requires WellFormed(c) && at + COMPLETION_LEN <= |ring| && ring[at..at + COMPLETION_LEN] == Encoded(c, phase)
    ensures Get32(ring, at + 8) == c.sqHead + 0x1_0000 * c.sqid
    ensures Get32(ring, at + 12) == c.cid + (if phase then 0x1_0000 else 0) + 0x2_0000 * c.status
  {
    var e := Encoded(c, phase);
    assert e[8..12] == Le32(c.sqHead + 0x1_0000 * c.sqid);
    assert e[12..16] == Le32(c.cid + (if phase then 0x1_0000 else 0) + 0x2_0000 * c.status);
    Shifted(ring, at, e, 8);
    Shifted(ring, at, e, 12);
  }

  lemma Shifted(ring: seq<byte>, at: nat, e: seq<byte>, o: nat)
    requires at + |e| <= |ring| && ring[at..at + |e|] == e && o + 4 <= |e|
    ensures Get32(ring, at + o) == Get32(e[o..o + 4], 0)
  {
    var r := ring[at..at + |e|];
    assert ring[at + o] == r[o] && ring[at + o + 1] == r[o + 1] && ring[at + o + 2] == r[o + 2] && ring[at + o + 3] == r[o + 3];
  }

  /** Reading an encoded completion gives its fields and its phase. */
  lemma FieldsBack(c: Completion, phase: bool)
    requires WellFormed(c)
    ensures var status := c.cid + (if phase then 0x1_0000 else 0) + 0x2_0000 * c.status;
            var queues := c.sqHead + 0x1_0000 * c.sqid;
            && (status / 0x1_0000 % 2 == 1 <==> phase)
            && Completion(status % 0x1_0000, queues / 0x1_0000, queues % 0x1_0000, status / 0x2_0000) == c
  {}

  /** One pass later the phase is the other one. */
  lemma PhaseFlips(k: nat, entries: nat)
    requires entries > 0
    ensures PhaseOf(k + entries, entries) == !PhaseOf(k, entries)
    ensures SlotOf(k + entries, entries) == SlotOf(k, entries)
  {
    var q, r := k / entries, k % entries;
    assert k == q * entries + r;
    assert (q + 1) * entries == q * entries + entries;
    DivModIs(k + entries, q + 1, r, entries);
  }

  lemma NextPlace(k: nat, entries: nat)
    requires entries > 0
    ensures SlotOf(k + 1, entries) == if SlotOf(k, entries) + 1 == entries then 0 else SlotOf(k, entries) + 1
    ensures PhaseOf(k + 1, entries) == if SlotOf(k, entries) + 1 == entries then !PhaseOf(k, entries) else PhaseOf(k, entries)
  {
    var q, r := k / entries, k % entries;
    assert k == q * entries + r;
    if r + 1 == entries {
      assert (q + 1) * entries == q * entries + entries;
      DivModIs(k + 1, q + 1, 0, entries);
    } else {
      DivModIs(k + 1, q, r + 1, entries);
    }
  }

  /** Everything read: the next slot still carries the last pass's phase, so a poll finds nothing. */
  lemma NothingNew(w: World)
    requires Inv(w) && |w.taken| == |w.posted|
    ensures PollSpec(w.entries, w.head, w.phase, w.ring) == (Ok(None), w.head, w.phase)
  {
    hide Get32, PhaseOf, SlotOf, SlotHolds, PollSpec;
    var n, at := |w.posted|, w.head * COMPLETION_LEN;
    SlotFits(n, w.entries);
    OldPhase(w);
    OtherPhase(w.entries, w.head, w.phase, w.ring);
  }

  lemma OtherPhase(entries: u16, head: u16, phase: bool, ring: seq<byte>)
    requires head < entries && (head + 1) * COMPLETION_LEN <= |ring|
    requires (Get32(ring, head * COMPLETION_LEN + 12) / 0x1_0000 % 2 == 1) != phase
    ensures PollSpec(entries, head, phase, ring) == (Ok(None), head, phase)
  {
    hide Get32;
  }

  /** The slot the reader is at, with everything read: blank on the first pass, a pass old on the others. */
  lemma OldPhase(w: World)
    requires Inv(w) && |w.taken| == |w.posted| && w.head < w.entries && (w.head + 1) * COMPLETION_LEN <= |w.ring|
    ensures (Get32(w.ring, w.head * COMPLETION_LEN + 12) / 0x1_0000 % 2 == 1) != w.phase
  {
    hide Get32, PhaseOf, Encoded, LatestAt;
    var n, s, at := |w.posted|, w.head as nat, w.head * COMPLETION_LEN;
    assert SlotHolds(w, s);
    if s >= n {
      FirstPass(n, w.entries);
      BlankWord(w.ring, at + 12);
    } else {
      var k := LatestAt(n, s, w.entries);
      PassBefore(k, n, w.entries);
      PhaseFlips(k, w.entries);
      Decoded(w.posted[k], PhaseOf(k, w.entries), w.ring, at);
      FieldsBack(w.posted[k], PhaseOf(k, w.entries));
    }
  }

  lemma BlankWord(ring: seq<byte>, at: nat)
    requires at + 4 <= |ring| && forall i :: at <= i < at + 4 ==> ring[i] == 0
    ensures Get32(ring, at) == 0
  {}

  lemma FirstPass(n: nat, entries: nat)
    requires entries > 0 && SlotOf(n, entries) >= n
    ensures PhaseOf(n, entries)
  {
    DivModIs(n, 0, n, entries);
  }

  /** Two numbers in one slot no more than a pass apart are equal or exactly a pass apart. */
  lemma PassBefore(k: nat, n: nat, entries: nat)
    requires entries > 0 && k < n <= k + entries && k % entries == n % entries
    ensures n == k + entries
  {
    var a, b := k / entries, n / entries;
    assert k == a * entries + k % entries && n == b * entries + n % entries;
    OnePass(b - a, entries);
    assert n - k == (b - a) * entries;
  }

  lemma OnePass(d: int, m: nat)
    ensures d <= 0 ==> d * m <= 0
    ensures d == 1 ==> d * m == m
    ensures d >= 2 ==> d * m >= 2 * m
  {}

  /** Something unread: the next slot holds exactly the next completion, in this pass's phase. */
  lemma NextIsThere(w: World)
    requires Inv(w) && |w.taken| < |w.posted|
    ensures WellFormed(w.posted[|w.taken|])
    ensures var c := w.posted[|w.taken|];
            var (r, head, phase) := PollSpec(w.entries, w.head, w.phase, w.ring);
            if c.sqHead > w.entries then r == Err(BadCompletion) && head == w.head && phase == w.phase
            else r == Ok(Some(c)) && head == SlotOf(|w.taken| + 1, w.entries) && phase == PhaseOf(|w.taken| + 1, w.entries)
  {
    hide Encoded;
    hide PhaseOf;
    hide LatestAt;
    var t, n, s, at := |w.taken|, |w.posted|, w.head as nat, w.head * COMPLETION_LEN;
    SlotFits(t, w.entries);
    SlotBelow(t, w.entries);
    assert SlotHolds(w, s);
    var k := LatestAt(n, s, w.entries);
    OnlyOne(k, t, n, w.entries);
    Decoded(w.posted[t], w.phase, w.ring, at);
    FieldsBack(w.posted[t], w.phase);
    NextPlace(t, w.entries);
  }

  lemma SlotBelow(t: nat, entries: nat)
    requires entries > 0
    ensures SlotOf(t, entries) <= t
  {}

  lemma OnlyOne(k: nat, t: nat, n: nat, entries: nat)
    requires entries > 0 && k < n <= k + entries && t < n <= t + entries && k % entries == t % entries
    ensures k == t
  {
    if k < t {
      PassBefore(k, t, entries);
    } else if t < k {
      PassBefore(t, k, entries);
    }
  }

  // ----- steps keep the invariant -----

  lemma StartHolds(entries: u16)
    requires entries > 0
    ensures Inv(Start(entries))
  {
    DivModIs(0, 0, 0, entries);
  }

  lemma PollKeeps(w: World)
    requires Inv(w)
    ensures Inv(Step(w, Poll))
  {
    var w' := Step(w, Poll);
    if |w.taken| == |w.posted| {
      NothingNew(w);
    } else {
      NextIsThere(w);
    }
    forall s: nat | s < w'.entries ensures SlotHolds(w', s) {
      assert SlotHolds(w, s);
    }
  }

  lemma PostKeeps(w: World, c: Completion)
    requires Inv(w)
    ensures Inv(Step(w, Post(c)))
  {
    if WellFormed(c) && |w.posted| - |w.taken| < w.entries {
      var w' := Step(w, Post(c));
      forall s: nat | s < w'.entries ensures SlotHolds(w', s) {
        PostedSlot(w, c, s);
      }
      assert w'.taken == w'.posted[..|w'.taken|];
    }
  }

  lemma PostedSlot(w: World, c: Completion, s: nat)
    requires Inv(w) && WellFormed(c) && |w.posted| - |w.taken| < w.entries && s < w.entries
    ensures |Step(w, Post(c)).ring| == w.entries * COMPLETION_LEN && SlotHolds(Step(w, Post(c)), s)
  {
    hide *;
    InvFacts(w, s);
    StepShape(w, Post(c));
    PostIs(w, c);
    if s == SlotOf(|w.posted|, w.entries) {
      PostedHere(w, c, s);
    } else {
      PostedElsewhere(w, c, s);
    }
  }

  lemma InvFacts(w: World, s: nat)
    requires Inv(w) && s < w.entries
    ensures w.entries > 0 && |w.ring| == w.entries * COMPLETION_LEN && SlotHolds(w, s) && w.head < w.entries
    ensures |w.taken| <= |w.posted|
  {}

  /** The world after a post, field by field. */
  lemma PostIs(w: World, c: Completion)
    requires w.entries > 0 && |w.ring| == w.entries * COMPLETION_LEN && w.head < w.entries
    requires WellFormed(c) && |w.posted| - |w.taken| < w.entries
    ensures var at := SlotOf(|w.posted|, w.entries) * COMPLETION_LEN;
            && at + COMPLETION_LEN <= |w.ring|
            && Step(w, Post(c)) ==
               w.(ring := w.ring[..at] + Encoded(c, PhaseOf(|w.posted|, w.entries)) + w.ring[at + COMPLETION_LEN..], posted := w.posted + [c])
  {
    SlotFits(|w.posted|, w.entries);
  }

  lemma PostedHere(w: World, c: Completion, s: nat)
    requires w.entries > 0 && |w.ring| == w.entries * COMPLETION_LEN && w.head < w.entries && s < w.entries
    requires WellFormed(c) && |w.posted| - |w.taken| < w.entries && s == SlotOf(|w.posted|, w.entries)
    ensures |Step(w, Post(c)).ring| == w.entries * COMPLETION_LEN && SlotHolds(Step(w, Post(c)), s)
  {
    var n := |w.posted|;
    PostIs(w, c);
    SlotBelow(n, w.entries);
    var k := LatestAt(n + 1, s, w.entries);
    OnlyOne(k, n, n + 1, w.entries);
    RingAt(w.ring, s * COMPLETION_LEN, Encoded(c, PhaseOf(n, w.entries)));
    hide Step;
    hide Encoded;
  }

  lemma PostedElsewhere(w: World, c: Completion, s: nat)
    requires w.entries > 0 && |w.ring| == w.entries * COMPLETION_LEN && w.head < w.entries && s < w.entries && SlotHolds(w, s)
    requires WellFormed(c) && |w.posted| - |w.taken| < w.entries && s != SlotOf(|w.posted|, w.entries)
    ensures |Step(w, Post(c)).ring| == w.entries * COMPLETION_LEN && SlotHolds(Step(w, Post(c)), s)
  {
    hide Step, Encoded, PhaseOf, SlotOf, LatestAt;
    var n, t := |w.posted|, SlotOf(|w.posted|, w.entries);
    PostIs(w, c);
    SlotsApart(s, t);
    RingElsewhere(w.ring, t * COMPLETION_LEN, Encoded(c, PhaseOf(n, w.entries)), s * COMPLETION_LEN);
    if s < n {
      SameLatest(n, s, w.entries);
    } else {
      NotYet(s, n, w.entries);
    }
  }

  lemma SlotsApart(s: nat, t: nat)
    requires s != t
    ensures s * COMPLETION_LEN + COMPLETION_LEN <= t * COMPLETION_LEN || t * COMPLETION_LEN + COMPLETION_LEN <= s * COMPLETION_LEN
  {}

  lemma RingAt(ring: seq<byte>, at: nat, e: seq<byte>)
    requires at + |e| <= |ring|
    ensures (ring[..at] + e + ring[at + |e|..])[at..at + |e|] == e
  {}

  lemma RingElsewhere(ring: seq<byte>, at: nat, e: seq<byte>, mine: nat)
    requires |e| == COMPLETION_LEN && at + |e| <= |ring| && mine + COMPLETION_LEN <= |ring|
    requires mine + COMPLETION_LEN <= at || at + COMPLETION_LEN <= mine
    ensures var ring' := ring[..at] + e + ring[at + |e|..];
            && ring'[mine..mine + COMPLETION_LEN] == ring[mine..mine + COMPLETION_LEN]
            && forall i :: mine <= i < mine + COMPLETION_LEN ==> ring'[i] == ring[i]
  {}

  lemma SameLatest(n: nat, s: nat, entries: nat)
    requires s < entries && s < n && s != SlotOf(n, entries)
    ensures LatestAt(n + 1, s, entries) == LatestAt(n, s, entries)
  {
    var k, k' := LatestAt(n, s, entries), LatestAt(n + 1, s, entries);
    assert k' != n;
    OnlyOne(k', k, n, entries);
  }

  lemma NotYet(s: nat, n: nat, entries: nat)
    requires s < entries && n <= s && s != SlotOf(n, entries)
    ensures n + 1 <= s
  {
    if n == s {
      DivModIs(n, 0, n, entries);
    }
  }

  function Run(w: World, ops: seq<Op>): World
    requires w.head < w.entries && |w.ring| == w.entries * COMPLETION_LEN
    decreases |ops|
  {
    if ops == [] then w
    else
      var w' := Step(w, ops[0]);
      StepShape(w, ops[0]);
      Run(w', ops[1..])
  }

  lemma StepShape(w: World, op: Op)
    requires w.head < w.entries && |w.ring| == w.entries * COMPLETION_LEN
    ensures var w' := Step(w, op); w'.head < w'.entries == w.entries && |w'.ring| == w'.entries * COMPLETION_LEN
  {
    if op.Post? {
      SlotFits(|w.posted|, w.entries);
    }
  }

  lemma {:induction false} RunKeeps(w: World, ops: seq<Op>)
    requires Inv(w)
    ensures Inv(Run(w, ops))
    decreases |ops|
  {
    if ops != [] {
      if ops[0].Poll? {
        PollKeeps(w);
      } else {
        PostKeeps(w, ops[0].c);
      }
      RunKeeps(Step(w, ops[0]), ops[1..]);
    }
  }

  /** However posting and polling interleave, across any number of wraps, what was read is a prefix of what was posted. */
  lemma ReadInOrder(entries: u16, ops: seq<Op>)
    requires entries > 0
    ensures var w := Run(Start(entries), ops); |w.taken| <= |w.posted| && w.taken == w.posted[..|w.taken|]
  {
    StartHolds(entries);
    RunKeeps(Start(entries), ops);
  }

  /** And nothing is missed: a poll with something unread takes it, and one with nothing unread takes nothing. */
  lemma PollTakesTheNext(entries: u16, ops: seq<Op>)
    requires entries > 0
    ensures var w := Run(Start(entries), ops);
            && w.head < w.entries && |w.ring| == w.entries * COMPLETION_LEN
            && var w' := Step(w, Poll);
               if |w.taken| < |w.posted| && w.posted[|w.taken|].sqHead <= w.entries then w'.taken == w.posted[..|w.taken| + 1]
               else w'.taken == w.taken
  {
    StartHolds(entries);
    RunKeeps(Start(entries), ops);
    var w := Run(Start(entries), ops);
    if |w.taken| == |w.posted| {
      NothingNew(w);
    } else {
      NextIsThere(w);
    }
  }
}
