/**
 The older stack operations of src/emulator.c. They share the `stack` struct
 with src/stack.c but derive the depth from the slots themselves: `stacked`
 counts slots up to the first zero, so a zero slot acts as the end marker.

 When all sixteen slots are non-zero the C scan reads one 16-bit word past
 the slot array. In the layout of include/stack.h that word is the `uint8_t`
 stack pointer `sp` together with the padding byte after it, so a full stack
 whose `sp` is non-zero has no zero in reach. The model takes the word as the
 parameter `beyond` and requires that the scan meets a zero within the sixteen
 slots or that word.
 */
module LegacyStack {
  import opened Ints
  import Stack

  /** `STACK_SIZE`. */
  const Size: nat := 16

  /** The words the scan may read: the slots, then the word after them. */
  function Words(st: Stack.ReturnStack, beyond: u16): seq<u16> {
    st.s + [beyond]
  }

  /** The scan of `stacked` stops inside the slots or at the word after them. */
  predicate Scannable(st: Stack.ReturnStack, beyond: u16) {
    |st.s| == Size && exists i :: 0 <= i < |Words(st, beyond)| && Words(st, beyond)[i] == 0
  }

  /** Index of the first zero word of `w`. */
  function FirstZero(w: seq<u16>): (n: nat)
    requires exists i :: 0 <= i < |w| && w[i] == 0
    ensures n < |w| && w[n] == 0
    ensures forall j :: 0 <= j < n ==> w[j] != 0
  {
    if w[0] == 0 then 0
    else
      assert exists i :: 0 <= i < |w[1..]| && w[1..][i] == 0 by {
        var i :| 0 <= i < |w| && w[i] == 0;
        assert w[1..][i - 1] == 0;
      }
      1 + FirstZero(w[1..])
  }

  /** Legacy `stacked`: the index of the first zero slot. */
  function Stacked(st: Stack.ReturnStack, beyond: u16): (n: nat)
    requires Scannable(st, beyond)
    ensures n <= Size
    ensures n < Size ==> st.s[n] == 0
    ensures n == Size ==> beyond == 0
    ensures forall j :: 0 <= j < n ==> st.s[j] != 0
  {
    var w := Words(st, beyond);
    var n := FirstZero(w);
    assert forall j :: 0 <= j < n ==> st.s[j] == w[j];
    n
  }

  /**
   Legacy `stackPush`: when fewer than sixteen slots are in use the value goes
   into the first zero slot and `sp` is incremented (as a `uint8_t`);
   otherwise the overflow is only reported and nothing changes.
   */
  function Push(st: Stack.ReturnStack, beyond: u16, value: u16): (r: Stack.ReturnStack)
    requires Scannable(st, beyond)
    ensures |r.s| == Size
    ensures Stacked(st, beyond) < Size ==>
      && r.s[Stacked(st, beyond)] == value
      && r.sp == Inc8(st.sp)
      && forall k :: 0 <= k < Size && k != Stacked(st, beyond) ==> r.s[k] == st.s[k]
    ensures Stacked(st, beyond) == Size ==> r == st
  {
    var n := Stacked(st, beyond);
    if n < Size then Stack.ReturnStack(st.s[n := value], Inc8(st.sp)) else st
  }

  /**
   Legacy `stackPop` as written: on a non-empty stack `sp` is decremented, the
   output cell receives the slot just below the first zero, and then zero is
   written to the first zero slot itself, which already holds zero. On an
   empty stack nothing changes. The C code scans again after `sp--`; below
   sixteen slots in use that scan meets the same zero slot. With all sixteen in
   use, the model keeps `beyond` fixed and writes nothing.
   */
  function Pop(st: Stack.ReturnStack, beyond: u16, cell: u16): (r: Stack.Popped)
    requires Scannable(st, beyond)
    ensures |r.stack.s| == Size
    ensures 0 < Stacked(st, beyond) ==> r.value == st.s[Stacked(st, beyond) - 1] && r.stack.sp == Dec8(st.sp)
    ensures Stacked(st, beyond) == 0 ==> r == Stack.Popped(st, cell)
  {
    var n := Stacked(st, beyond);
    if 0 < n then
      var sp := Dec8(st.sp);
      var value := st.s[n - 1];
      var s := if n < Size then st.s[n := 0] else st.s;
      Stack.Popped(Stack.ReturnStack(s, sp), value)
    else
      Stack.Popped(st, cell)
  }

  /**
   The as-written pop never clears a slot: the slot array is unchanged, so
   `stacked` is unchanged while `sp` moves down, and a second pop returns the
   same address again.
   */
  lemma PopRepeatsTop(st: Stack.ReturnStack, beyond: u16, cell: u16)
    requires Scannable(st, beyond) && 0 < Stacked(st, beyond)
    ensures Pop(st, beyond, cell).stack.s == st.s
    ensures Scannable(Pop(st, beyond, cell).stack, beyond)
    ensures Stacked(Pop(st, beyond, cell).stack, beyond) == Stacked(st, beyond)
    ensures Pop(st, beyond, cell).stack.sp == Dec8(st.sp)
    ensures Pop(Pop(st, beyond, cell).stack, beyond, cell).value == Pop(st, beyond, cell).value
  {
    var n := Stacked(st, beyond);
    var r := Pop(st, beyond, cell);
    if n < Size {
      assert st.s[n := 0] == st.s;
    }
    assert Words(r.stack, beyond) == Words(st, beyond);
  }

  /**
   Pushing 1 and then 2 onto an empty stack and popping twice: the legacy pop
   yields 2 both times, while the pop of src/stack.c yields 2 and then 1.
   */
  lemma PopDivergesFromStack()
    ensures
      var st := Stack.Empty();
      && Scannable(st, 0)
      && Scannable(Push(st, 0, 1), 0)
      && Scannable(Push(Push(st, 0, 1), 0, 2), 0)
      && var first := Pop(Push(Push(st, 0, 1), 0, 2), 0, 0);
      && Scannable(first.stack, 0)
      && first.value == 2
      && Pop(first.stack, 0, 0).value == 2
    ensures
      var first := Stack.Pop(Stack.Push(Stack.Push(Stack.Empty(), 1), 2), 0);
      first.value == 2 && Stack.Pop(first.stack, 0).value == 1
  {
    var st := Stack.Empty();
    assert Words(st, 0)[0] == 0;
    assert Stacked(st, 0) == 0;
    var one := Push(st, 0, 1);
    assert Words(one, 0)[1] == 0;
    assert Stacked(one, 0) == 1;
    var two := Push(one, 0, 2);
    assert Words(two, 0)[2] == 0;
    assert Stacked(two, 0) == 2;
    PopRepeatsTop(two, 0, 0);
  }

  /**
   The slots a sentinel stack is meant to keep: the zero slots form a suffix of
   the array and the word after it is zero, so `stacked` counts exactly the
   non-zero prefix.
   */
  predicate Clean(st: Stack.ReturnStack, beyond: u16) {
    && Scannable(st, beyond)
    && beyond == 0
    && forall i, j :: 0 <= i < j < Size && st.s[i] == 0 ==> st.s[j] == 0
  }

  /** The pop the legacy code evidently intended: clear the top slot, at index `stacked - 1`. */
  function PopFixed(st: Stack.ReturnStack, beyond: u16, cell: u16): (r: Stack.Popped)
    requires Scannable(st, beyond)
    ensures |r.stack.s| == Size
    ensures 0 < Stacked(st, beyond) ==> r.value == st.s[Stacked(st, beyond) - 1] && r.stack.s[Stacked(st, beyond) - 1] == 0
    ensures Stacked(st, beyond) == 0 ==> r == Stack.Popped(st, cell)
  {
    var n := Stacked(st, beyond);
    if 0 < n then
      Stack.Popped(Stack.ReturnStack(st.s[n - 1 := 0], Dec8(st.sp)), st.s[n - 1])
    else
      Stack.Popped(st, cell)
  }

  /**
   With the corrected pop, popping right after pushing a non-zero address onto
   a clean stack that is not full returns that address and restores the
   stack exactly, slots and `sp` alike.
   */
  lemma PopFixedUndoesPush(st: Stack.ReturnStack, beyond: u16, value: u16, cell: u16)
    requires Clean(st, beyond) && value != 0
    requires Stacked(st, beyond) < Size
    ensures Clean(Push(st, beyond, value), beyond)
    ensures PopFixed(Push(st, beyond, value), beyond, cell) == Stack.Popped(st, value)
  {
    var n := Stacked(st, beyond);
    var pushed := Push(st, beyond, value);
    forall j | n < j < Size
      ensures st.s[j] == 0
    {
    }
    assert Words(pushed, beyond)[Size] == 0;
    assert Words(pushed, beyond)[n + 1] == 0;
    assert pushed.s[n := 0] == st.s;
    assert Dec8(Inc8(st.sp)) == st.sp;
  }

  /**
   The corner the clean-stack account leaves open: pushing onto fifteen
   entries with `sp` at 0 fills the last slot and sets `sp` to 1. From then on
   the scan can only stop at a zero word after the slots; the word there holds
   `sp`, which is no longer zero, so the scan runs past the struct.
   */
  lemma PushFillsLastSlot(st: Stack.ReturnStack, value: u16)
    requires Clean(st, 0) && value != 0 && st.sp == 0
    requires Stacked(st, 0) == Size - 1
    ensures Push(st, 0, value).sp == 1
    ensures forall w: u16 :: Scannable(Push(st, 0, value), w) ==> w == 0
  {
    var pushed := Push(st, 0, value);
    forall k | 0 <= k < Size
      ensures pushed.s[k] != 0
    {
      if k < Size - 1 {
        assert Words(st, 0)[k] == st.s[k];
      }
    }
    forall w: u16 | w != 0
      ensures !Scannable(pushed, w)
    {
      forall i | 0 <= i < |Words(pushed, w)|
        ensures Words(pushed, w)[i] != 0
      {
      }
    }
  }
}
