/** The protected stack of `long long` values that the processor keeps its
    data and its return addresses on. A stack refuses every operation once its
    status shows damage: a size beyond the capacity, a missing buffer, a
    broken canary around the structure or the buffer, or a stored hash that no
    longer matches. The canaries and the hash are kept as flags saying whether
    each still reads as intact; bytes, alignment and the hash function itself
    are not modelled. */
module StackWorks {
  import opened CLib
  import opened CInt

  /** `STACK_CONTENT_POISON`: the 64-bit pattern 0xDEADBABEC0FEBEEF read as a
      `long long`, written into every slot that holds no value. */
  const POISON: int := 0xDEAD_BABE_C0FE_BEEF - TWO_64

  /** Whether each protection of a stack still reads as intact. */
  datatype Guards = Guards(
    leftCanary: bool,
    rightCanary: bool,
    bufferLeftCanary: bool,
    bufferRightCanary: bool,
    hash: bool)

  const INTACT: Guards := Guards(true, true, true, true, true)

  /** A stack. `slots` is the buffer's content (one entry per slot of
      capacity) when `hasBuffer` holds; the first `size` slots hold the
      values, bottom first. */
  datatype Stack = Stack(slots: seq<int>, size: nat, capacity: nat, hasBuffer: bool, guards: Guards)

  /** What an allocation guarantees: a buffer has exactly `capacity` slots,
      and no buffer means no slots. */
  predicate Allocated(s: Stack) {
    if s.hasBuffer then |s.slots| == s.capacity else s.slots == []
  }

  /** The status bits of `lib/stackreports.h`, one per kind of damage. */
  datatype Flag =
    | NullStack          // STACK_NULL           = 1 << 0
    | BigSize            // STACK_BIG_SIZE       = 1 << 1
    | NullContent        // STACK_NULL_CONTENT   = 1 << 2
    | LeftCanary         // STACK_L_CANARY_FAIL  = 1 << 3
    | RightCanary        // STACK_R_CANARY_FAIL  = 1 << 4
    | BufferLeftCanary   // STACK_BL_CANARY_FAIL = 1 << 5
    | BufferRightCanary  // STACK_BR_CANARY_FAIL = 1 << 6
    | HashFailure        // STACK_HASH_FAILURE   = 1 << 7

  /** Bit `k` of `r`, counting from the lowest. */
  predicate BitSet(r: nat, k: nat) {
    if k == 0 then r % 2 == 1 else BitSet(r / 2, k - 1)
  }

  /** `rest` shifted up by one bit, with the lowest bit set when `b` holds. */
  function Raise(b: bool, rest: nat): (r: nat)
    ensures r / 2 == rest && (r % 2 == 1 <==> b)
  {
    (if b then 1 else 0) + 2 * rest
  }

  /** The damage `stack_status` reports for a stack pointer (`None` is a null
      pointer). The buffer canaries are only inspected when there is a
      buffer. */
  function Flags(p: Option<Stack>): (fs: set<Flag>)
    ensures p.None? <==> NullStack in fs
    ensures p.Some? ==> (BigSize in fs <==> p.value.size > p.value.capacity)
    ensures p.Some? ==> (NullContent in fs <==> !p.value.hasBuffer)
    ensures p.Some? ==> (LeftCanary in fs <==> !p.value.guards.leftCanary)
    ensures p.Some? ==> (RightCanary in fs <==> !p.value.guards.rightCanary)
    ensures p.Some? ==> (BufferLeftCanary in fs <==> p.value.hasBuffer && !p.value.guards.bufferLeftCanary)
    ensures p.Some? ==> (BufferRightCanary in fs <==> p.value.hasBuffer && !p.value.guards.bufferRightCanary)
    ensures p.Some? ==> (HashFailure in fs <==> !p.value.guards.hash)
  {
    match p
    case None => {NullStack}
    case Some(s) =>
      (if s.size > s.capacity then {BigSize} else {})
      + (if !s.hasBuffer then {NullContent} else {})
      + (if !s.guards.leftCanary then {LeftCanary} else {})
      + (if !s.guards.rightCanary then {RightCanary} else {})
      + (if s.hasBuffer && !s.guards.bufferLeftCanary then {BufferLeftCanary} else {})
      + (if s.hasBuffer && !s.guards.bufferRightCanary then {BufferRightCanary} else {})
      + (if !s.guards.hash then {HashFailure} else {})
  }

  /** The report as the number `stack_status` returns: the OR of the bits of
      the flags raised, `STACK_NULL` being bit 0 and `STACK_HASH_FAILURE`
      bit 7. */
  function Status(p: Option<Stack>): (r: nat)
    ensures r < 256
    ensures r == 0 <==> Flags(p) == {}
    ensures BitSet(r, 0) <==> NullStack in Flags(p)
    ensures BitSet(r, 1) <==> BigSize in Flags(p)
    ensures BitSet(r, 2) <==> NullContent in Flags(p)
    ensures BitSet(r, 3) <==> LeftCanary in Flags(p)
    ensures BitSet(r, 4) <==> RightCanary in Flags(p)
    ensures BitSet(r, 5) <==> BufferLeftCanary in Flags(p)
    ensures BitSet(r, 6) <==> BufferRightCanary in Flags(p)
    ensures BitSet(r, 7) <==> HashFailure in Flags(p)
  {
    var fs := Flags(p);
    var r7 := Raise(HashFailure in fs, 0);
    var r6 := Raise(BufferRightCanary in fs, r7);
    var r5 := Raise(BufferLeftCanary in fs, r6);
    var r4 := Raise(RightCanary in fs, r5);
    var r3 := Raise(LeftCanary in fs, r4);
    var r2 := Raise(NullContent in fs, r3);
    var r1 := Raise(BigSize in fs, r2);
    var r0 := Raise(NullStack in fs, r1);
    assert BitSet(r0, 7) == BitSet(r1, 6) == BitSet(r2, 5) == BitSet(r3, 4) == BitSet(r4, 3)
      == BitSet(r5, 2) == BitSet(r6, 1) == BitSet(r7, 0);
    assert BitSet(r0, 6) == BitSet(r1, 5) == BitSet(r2, 4) == BitSet(r3, 3) == BitSet(r4, 2)
      == BitSet(r5, 1) == BitSet(r6, 0);
    assert BitSet(r0, 5) == BitSet(r1, 4) == BitSet(r2, 3) == BitSet(r3, 2) == BitSet(r4, 1) == BitSet(r5, 0);
    assert BitSet(r0, 4) == BitSet(r1, 3) == BitSet(r2, 2) == BitSet(r3, 1) == BitSet(r4, 0);
    assert BitSet(r0, 3) == BitSet(r1, 2) == BitSet(r2, 1) == BitSet(r3, 0);
    assert BitSet(r0, 2) == BitSet(r1, 1) == BitSet(r2, 0);
    assert BitSet(r0, 1) == BitSet(r1, 0);
    r0
  }

  /** A stack whose status check passes. */
  predicate Healthy(s: Stack) {
    Flags(Some(s)) == {}
  }

  /** The invariant every operation keeps on a healthy stack: the buffer is
      allocated and every slot above the top holds the poison value. */
  predicate Valid(s: Stack) {
    Allocated(s) && s.size <= |s.slots|
    && forall k | s.size <= k < |s.slots| :: s.slots[k] == POISON
  }

  /** The values on the stack, bottom first. */
  function Content(s: Stack): seq<int>
    requires s.size <= |s.slots|
  {
    s.slots[..s.size]
  }

  /** The outcome of an operation: the stack afterwards and the errno value
      it wrote (0 when it wrote none). */
  datatype Outcome = Outcome(stack: Stack, err: int)

  /** `stack_init`: gives the stack a fresh buffer of `n` poisoned slots.
      Only a stack whose sole damage is a missing buffer or a stale hash is
      accepted; the size is left as it was. Allocation failure is not
      modelled. */
  function Init(s: Stack, n: nat): (r: Outcome)
    ensures !(Flags(Some(s)) <= {NullContent, HashFailure}) ==> r == Outcome(s, EINVAL)
    ensures Flags(Some(s)) <= {NullContent, HashFailure} ==>
      (r.err == 0 && r.stack.capacity == n && r.stack.size == s.size
      && Allocated(r.stack) && |r.stack.slots| == n && (s.size <= n ==> Healthy(r.stack))
      && forall k | 0 <= k < n :: r.stack.slots[k] == POISON)
  {
    if !(Flags(Some(s)) <= {NullContent, HashFailure}) then Outcome(s, EINVAL)
    else
      Outcome(Stack(seq(n, _ => POISON), s.size, n, true,
                    s.guards.(bufferLeftCanary := true, bufferRightCanary := true, hash := true)), 0)
  }

  /** A stack fresh from `stack_init` on a zeroed structure. */
  function Empty(n: nat): (s: Stack)
    ensures Healthy(s) && Valid(s) && Content(s) == [] && s.capacity == n
  {
    Init(Stack([], 0, 0, false, INTACT), n).stack
  }

  /** `stack_destroy`: frees the buffer of a healthy stack. The stored hash
      becomes 0, which the model counts as a hash that no longer matches. */
  function Destroy(s: Stack): (r: Outcome)
    ensures !Healthy(s) ==> r == Outcome(s, EINVAL)
    ensures Healthy(s) ==> (r.err == 0 && r.stack.size == 0 && r.stack.capacity == 0
      && Flags(Some(r.stack)) == {NullContent, HashFailure})
  {
    if !Healthy(s) then Outcome(s, EINVAL)
    else Outcome(Stack([], 0, 0, false, s.guards.(hash := false)), 0)
  }

  function Min(a: nat, b: nat): nat {
    if a < b then a else b
  }

  /** `_stack_change_size` on a healthy stack: a new buffer of `n` slots that
      keeps the lowest `min(n, size)` values and poisons the rest. */
  function Resize(s: Stack, n: nat): (r: Stack)
    requires Healthy(s) && Valid(s)
    ensures r.capacity == n && r.size == s.size && Allocated(r) && |r.slots| == n
    ensures forall k | 0 <= k < Min(n, s.size) :: r.slots[k] == s.slots[k]
    ensures forall k | Min(n, s.size) <= k < n :: r.slots[k] == POISON
  {
    var keep := Min(n, s.size);
    Stack(s.slots[..keep] + seq(n - keep, _ => POISON), s.size, n, true, INTACT)
  }

  /** `stack_push`: puts `v` on top, growing a full buffer to
      `capacity * increase + 1` slots first (`increase` is the build's
      `STACK_BUFFER_INCREASE`). */
  function Push(s: Stack, v: int, increase: nat): (r: Outcome)
    requires increase >= 1
    requires Healthy(s) ==> Valid(s)
    ensures !Healthy(s) ==> r == Outcome(s, EINVAL)
    ensures Healthy(s) ==> (r.err == 0 && Healthy(r.stack) && Valid(r.stack)
      && Content(r.stack) == Content(s) + [v]
      && r.stack.capacity == (if s.size == s.capacity then s.capacity * increase + 1 else s.capacity))
  {
    if !Healthy(s) then Outcome(s, EINVAL)
    else
      var grown := if s.capacity < s.size + 1 then Resize(s, s.capacity * increase + 1) else s;
      var t := Stack(grown.slots[s.size := v], s.size + 1, grown.capacity, true, INTACT);
      assert Content(t) == Content(s) + [v] by {
        assert forall k | 0 <= k < s.size :: grown.slots[k] == s.slots[k];
      }
      Outcome(t, 0)
  }

  /** When a pop shrinks the buffer, the new capacity still holds every
      value. */
  lemma ShrinkKeepsValues(size: nat, capacity: nat, increase: nat)
    requires increase >= 1 && size * increase * increase < capacity
    ensures size <= capacity / increase + 1
  {
    var q := capacity / increase;
    assert capacity < (q + 1) * increase;
    LessOfMul(size * increase, q + 1, increase);
  }

  lemma LessOfMul(a: int, b: int, c: int)
    requires c > 0 && a * c < b * c
    ensures a < b
  {
  }

  /** `stack_pop`: removes the top value, writing the poison value into its
      slot. A stack at most `1 / increase^2` full first shrinks its buffer to
      `capacity / increase + 1` slots. An empty stack is refused with ENXIO. */
  function Pop(s: Stack, increase: nat): (r: Outcome)
    requires increase >= 1
    requires Healthy(s) ==> Valid(s)
    ensures !Healthy(s) ==> r == Outcome(s, EINVAL)
    ensures Healthy(s) && s.size == 0 ==> r == Outcome(s, ENXIO)
    ensures Healthy(s) && s.size > 0 ==> (r.err == 0 && Healthy(r.stack) && Valid(r.stack)
      && Content(r.stack) == Content(s)[..s.size - 1]
      && r.stack.capacity == (if s.size * increase * increase < s.capacity then s.capacity / increase + 1 else s.capacity))
  {
    if !Healthy(s) then Outcome(s, EINVAL)
    else if s.size == 0 then Outcome(s, ENXIO)
    else
      var shrunk :=
        if s.size * increase * increase < s.capacity then
          ShrinkKeepsValues(s.size, s.capacity, increase);
          Resize(s, s.capacity / increase + 1)
        else s;
      var t := Stack(shrunk.slots[s.size - 1 := POISON], s.size - 1, shrunk.capacity, true, INTACT);
      assert Content(t) == Content(s)[..s.size - 1] by {
        assert forall k | 0 <= k < s.size :: shrunk.slots[k] == s.slots[k];
      }
      Outcome(t, 0)
  }

  /** What `stack_get` gives back: a value with the errno value it wrote,
      or a read outside the buffer, which C leaves undefined. */
  datatype Read = Read(value: int, err: int) | ReadOutside

  /** `stack_get`: the top value, or the poison value with EINVAL when the
      status check fails. On an empty healthy stack it reads the slot below
      the buffer's first one. */
  function Top(s: Stack): (r: Read)
    requires Healthy(s) ==> Valid(s)
    ensures !Healthy(s) ==> r == Read(POISON, EINVAL)
    ensures Healthy(s) && s.size == 0 ==> r == ReadOutside
    ensures Healthy(s) && s.size > 0 ==> r.Read? && r.err == 0 && Content(s) == Content(s)[..s.size - 1] + [r.value]
  {
    if !Healthy(s) then Read(POISON, EINVAL)
    else if s.size == 0 then ReadOutside
    else Read(s.slots[s.size - 1], 0)
  }

  /** Popping what was just pushed restores the values and returns the pushed
      one on the way. */
  lemma PushThenPop(s: Stack, v: int, increase: nat)
    requires increase >= 1 && Valid(s) && Healthy(s)
    ensures var p := Push(s, v, increase).stack;
      Top(p) == Read(v, 0) && Content(Pop(p, increase).stack) == Content(s)
  {
  }

  /** One call a program makes on a stack. */
  datatype Call = PushCall(v: int) | PopCall | GetCall

  /** What a plain list of values does with a sequence of calls: the values
      left and the values the get calls read, in order, or the first call
      that finds the list empty. */
  datatype Expected = Holds(values: seq<int>, got: seq<int>) | PopsEmpty | GetsEmpty

  /** The effect of a sequence of calls on a plain list of values, which is
      what the protected stack is meant to behave like. */
  function Reference(values: seq<int>, got: seq<int>, calls: seq<Call>): Expected
    decreases |calls|
  {
    if calls == [] then Holds(values, got)
    else match calls[0]
      case PushCall(v) => Reference(values + [v], got, calls[1..])
      case PopCall =>
        if values == [] then PopsEmpty else Reference(values[..|values| - 1], got, calls[1..])
      case GetCall =>
        if values == [] then GetsEmpty else Reference(values, got + [values[|values| - 1]], calls[1..])
  }

  /** Running calls on the protected stack: the stack, the first errno value
      written (0 when none), the values read so far, or a get that read
      outside the buffer. */
  datatype Run = Run(stack: Stack, err: int, got: seq<int>) | RunUndefined

  /** Runs the calls on the protected stack, stopping at the first refused
      call. */
  function Apply(s: Stack, got: seq<int>, calls: seq<Call>, increase: nat): (r: Run)
    requires increase >= 1 && (Healthy(s) ==> Valid(s))
    ensures r.Run? && Healthy(r.stack) ==> Valid(r.stack)
    decreases |calls|
  {
    if calls == [] then Run(s, 0, got)
    else match calls[0]
      case GetCall =>
        (match Top(s)
         case ReadOutside => RunUndefined
         case Read(v, err) => if err != 0 then Run(s, err, got) else Apply(s, got + [v], calls[1..], increase))
      case PushCall(v) =>
        var o := Push(s, v, increase);
        if o.err != 0 then Run(o.stack, o.err, got) else Apply(o.stack, got, calls[1..], increase)
      case PopCall =>
        var o := Pop(s, increase);
        if o.err != 0 then Run(o.stack, o.err, got) else Apply(o.stack, got, calls[1..], increase)
  }

  /** A healthy stack behaves like a list: every call sequence that never
      pops or reads an empty list leaves the same values, reads the same
      values, keeps the stack healthy and has no call refused; the first pop
      of an empty stack is refused with ENXIO, and the first get of an empty
      stack reads outside the buffer. */
  lemma {:induction false} ApplyMatchesReference(s: Stack, got: seq<int>, calls: seq<Call>, increase: nat)
    requires increase >= 1 && Valid(s) && Healthy(s)
    ensures var r := Apply(s, got, calls, increase);
      match Reference(Content(s), got, calls)
      case Holds(values, read) => r.Run? && r.err == 0 && Healthy(r.stack) && Content(r.stack) == values && r.got == read
      case PopsEmpty => r.Run? && r.err == ENXIO
      case GetsEmpty => r == RunUndefined
    decreases |calls|
  {
    if calls != [] {
      match calls[0]
      case PushCall(v) =>
        ApplyMatchesReference(Push(s, v, increase).stack, got, calls[1..], increase);
      case PopCall =>
        if s.size > 0 {
          ApplyMatchesReference(Pop(s, increase).stack, got, calls[1..], increase);
        }
      case GetCall =>
        if s.size > 0 {
          ApplyMatchesReference(s, got + [Content(s)[s.size - 1]], calls[1..], increase);
        }
    }
  }

  /** A damaged stack refuses the first call with EINVAL and is left as it
      was, whatever the call. */
  lemma DamagedRefuses(s: Stack, got: seq<int>, calls: seq<Call>, increase: nat)
    requires increase >= 1 && !Healthy(s) && calls != []
    ensures Apply(s, got, calls, increase) == Run(s, EINVAL, got)
  {
  }
}
