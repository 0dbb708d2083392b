/**
 The return-address stack of src/stack.c: sixteen 16-bit slots and a stack
 pointer `sp` that counts the stacked addresses. A push onto a full stack and
 a pop from an empty stack are silent no-ops.
 */
module Stack {
  import opened Ints

  /** `STACK_LEVELS`: the number of return-address slots. */
  const Levels: nat := 16

  /** The C `stack` struct: the slot array and the `uint8_t` stack pointer. */
  datatype ReturnStack = ReturnStack(s: seq<u16>, sp: u8)

  /** The shape src/stack.c keeps: sixteen slots and `sp` between 0 and 16. */
  predicate Valid(st: ReturnStack) {
    |st.s| == Levels && st.sp <= Levels
  }

  /** The stacked addresses, bottom first: the abstract view of the stack. */
  function Contents(st: ReturnStack): seq<u16>
    requires Valid(st)
  {
    st.s[..st.sp]
  }

  /** The stack with nothing stacked and every slot zero. */
  function Empty(): (st: ReturnStack)
    ensures Valid(st) && Contents(st) == []
  {
    ReturnStack(seq(Levels, _ => 0), 0)
  }

  /** `stacked`: the number of stacked addresses. */
  function Stacked(st: ReturnStack): (n: int)
    requires Valid(st)
    ensures n == |Contents(st)|
    ensures 0 <= n <= Levels
  {
    st.sp
  }

  /**
   `stackPush`: below capacity the value goes into slot `sp` and `sp` grows
   by one; on a full stack nothing changes. The value itself is passed by
   `const` pointer in C and is not modified, which a value parameter gives.
   */
  function Push(st: ReturnStack, value: u16): (r: ReturnStack)
    requires Valid(st)
    ensures Valid(r)
    ensures st.sp < Levels ==> Contents(r) == Contents(st) + [value]
    ensures st.sp < Levels ==> r.s[st.sp] == value && r.sp == st.sp + 1
    ensures st.sp < Levels ==> forall k :: 0 <= k < Levels && k != st.sp ==> r.s[k] == st.s[k]
    ensures st.sp == Levels ==> r == st
  {
    if st.sp < Levels then ReturnStack(st.s[st.sp := value], st.sp + 1) else st
  }

  /** What `stackPop` leaves behind: the stack and the `poppedValue` cell. */
  datatype Popped = Popped(stack: ReturnStack, value: u16)

  /**
   `stackPop`: on a non-empty stack `sp` drops by one and the address in the
   slot it now names is written to the output cell; on an empty stack neither
   the stack nor the output cell changes. `cell` is the output's prior value.
   */
  function Pop(st: ReturnStack, cell: u16): (r: Popped)
    requires Valid(st)
    ensures Valid(r.stack)
    ensures r.stack.s == st.s
    ensures 0 < st.sp ==> Contents(r.stack) + [r.value] == Contents(st)
    ensures 0 < st.sp ==> r.stack.sp == st.sp - 1
    ensures st.sp == 0 ==> r.stack == st && r.value == cell
  {
    if 0 < st.sp then
      var sp := st.sp - 1;
      Popped(ReturnStack(st.s, sp), st.s[sp])
    else
      Popped(st, cell)
  }

  /** Pushing a value and popping it again yields the value and the original stacked addresses. */
  lemma PushThenPop(st: ReturnStack, value: u16, cell: u16)
    requires Valid(st) && st.sp < Levels
    ensures Pop(Push(st, value), cell).value == value
    ensures Pop(Push(st, value), cell).stack.sp == st.sp
    ensures Contents(Pop(Push(st, value), cell).stack) == Contents(st)
  {
    var pushed := Push(st, value);
    assert Contents(pushed) == Contents(st) + [value];
  }

  /** Pushes each value of `vs` in order, first value first. */
  function PushAll(st: ReturnStack, vs: seq<u16>): (r: ReturnStack)
    requires Valid(st)
    ensures Valid(r)
    decreases |vs|
  {
    if vs == [] then st else PushAll(Push(st, vs[0]), vs[1..])
  }

  /** The values of `n` pops in the order they are popped, and the stack left behind. */
  function PopN(st: ReturnStack, n: nat): (r: (seq<u16>, ReturnStack))
    requires Valid(st)
    ensures Valid(r.1)
    decreases n
  {
    if n == 0 then ([], st)
    else
      var p := Pop(st, 0);
      var rest := PopN(p.stack, n - 1);
      ([p.value] + rest.0, rest.1)
  }

  function Reverse<T>(xs: seq<T>): (r: seq<T>)
    ensures |r| == |xs|
  {
    if xs == [] then [] else Reverse(xs[1..]) + [xs[0]]
  }

  /** While they fit, pushes append to the stacked addresses. */
  lemma {:induction false} PushAllAppends(st: ReturnStack, vs: seq<u16>)
    requires Valid(st) && st.sp as int + |vs| <= Levels
    ensures Contents(PushAll(st, vs)) == Contents(st) + vs
    decreases |vs|
  {
    if vs != [] {
      var next := Push(st, vs[0]);
      PushAllAppends(next, vs[1..]);
      assert Contents(st) + [vs[0]] + vs[1..] == Contents(st) + vs;
    }
  }

  /** Popping as many addresses as were pushed on top of `below` returns them last-in first-out. */
  lemma {:induction false} PopNReverses(st: ReturnStack, below: seq<u16>, vs: seq<u16>)
    requires Valid(st) && Contents(st) == below + vs
    ensures PopN(st, |vs|).0 == Reverse(vs)
    ensures Contents(PopN(st, |vs|).1) == below
    decreases |vs|
  {
    if vs != [] {
      var p := Pop(st, 0);
      var last := |vs| - 1;
      assert Contents(p.stack) + [p.value] == below + vs[..last] + [vs[last]] by {
        assert below + vs == below + vs[..last] + [vs[last]];
      }
      assert p.value == vs[last];
      assert Contents(p.stack) == below + vs[..last];
      PopNReverses(p.stack, below, vs[..last]);
      ReverseSnoc(vs[..last], vs[last]);
      assert vs[..last] + [vs[last]] == vs;
    }
  }

  lemma {:induction false} ReverseSnoc<T>(xs: seq<T>, x: T)
    ensures Reverse(xs + [x]) == [x] + Reverse(xs)
    decreases |xs|
  {
    if xs == [] {
      assert [x][1..] == [];
    } else {
      assert (xs + [x])[1..] == xs[1..] + [x];
      ReverseSnoc(xs[1..], x);
    }
  }

  /**
   A run of pushes that fits, followed by as many pops, returns the pushed
   values in reverse order and leaves the original stacked addresses.
   */
  lemma PushAllThenPopN(st: ReturnStack, vs: seq<u16>)
    requires Valid(st) && st.sp as int + |vs| <= Levels
    ensures PopN(PushAll(st, vs), |vs|).0 == Reverse(vs)
    ensures Contents(PopN(PushAll(st, vs), |vs|).1) == Contents(st)
  {
    PushAllAppends(st, vs);
    PopNReverses(PushAll(st, vs), Contents(st), vs);
  }

  /** Sixteen pushes from empty all land; a seventeenth changes nothing (silent overflow). */
  lemma SeventeenthPushIgnored(vs: seq<u16>, extra: u16)
    requires |vs| == Levels
    ensures Contents(PushAll(Empty(), vs)) == vs
    ensures Push(PushAll(Empty(), vs), extra) == PushAll(Empty(), vs)
  {
    PushAllAppends(Empty(), vs);
  }
}
