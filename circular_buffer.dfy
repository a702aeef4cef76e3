/**
 * `CircularBuffer<N, T>`: a fixed-capacity ring of `N` slots with a `u32`
 * `size` and `start`. As written, `push_back` advances `start` in both of
 * its branches and never touches `size`, and the not-full branch computes
 * `size - 1`, which underflows on an empty buffer. A buffer made by `new`
 * therefore stays empty: every `push_back` with `N > 0` panics, and
 * `pop_back` always answers `None`.
 */
module CircularBuffers {
  import opened Common

  const U32_LIMIT: int := 0x1_0000_0000

  /**
   * `mod_add(x, y)`: `(x + y) % N` in `u32`. The addition overflows when
   * the sum reaches 2^32, and the remainder by `N == 0` panics.
   */
  function ModAdd(x: int, y: int, n: int): (r: Outcome<int>)
    requires 0 <= x < U32_LIMIT && 0 <= y < U32_LIMIT && 0 <= n < U32_LIMIT
    ensures r.Ok? <==> x + y < U32_LIMIT && n > 0
    ensures r.Ok? ==> 0 <= r.value < n
  {
    if x + y >= U32_LIMIT || n == 0 then Panic else Ok((x + y) % n)
  }

  /**
   * The slot `back_maybe_uninit` names: `mod_add(start, size - 1)`, where
   * `size - 1` underflows when `size == 0`.
   */
  function BackIndex(start: int, size: int, n: int): (r: Outcome<int>)
    requires 0 <= start < U32_LIMIT && 0 <= size < U32_LIMIT && 0 <= n < U32_LIMIT
    ensures r.Ok? <==> 0 < size && start + size - 1 < U32_LIMIT && n > 0
    ensures r.Ok? ==> 0 <= r.value < n
  {
    if size == 0 then Panic else ModAdd(start, size - 1, n)
  }

  /** On a start below `N`, `inc_start` moves to the next slot and wraps at the last one. */
  lemma IncStartWraps(start: int, n: int)
    requires 0 <= start < n < U32_LIMIT
    ensures ModAdd(start, 1, n).Ok?
    ensures ModAdd(start, 1, n).value == if start == n - 1 then 0 else start + 1
  {
    if start == n - 1 {
      DivModUnique(start + 1, n, 1, 0);
    } else {
      DivModUnique(start + 1, n, 0, start + 1);
    }
  }

  class CircularBuffer<T> {
    var size: int
    var start: int
    /** The `N` slots; `None` is a slot never written (`MaybeUninit`). */
    const items: array<Option<T>>

    ghost predicate Valid()
      reads this
    {
      && 0 <= size < U32_LIMIT
      && 0 <= start < U32_LIMIT
      && items.Length < U32_LIMIT
      && (items.Length == 0 ==> start == 0)
      && (items.Length > 0 ==> start < items.Length)
    }

    /** `new()`: size and start 0, no slot written. */
    constructor(n: nat)
      requires n < U32_LIMIT
      ensures Valid() && Empty()
      ensures size == 0 && start == 0 && items.Length == n && fresh(items)
      ensures forall i :: 0 <= i < n ==> items[i].None?
    {
      size := 0;
      start := 0;
      items := new Option<T>[n](_ => None);
    }

    /** `empty()`. */
    predicate Empty()
      reads this
    {
      size == 0
    }

    /**
     * `push_back(item)`. With `N == 0` nothing happens. A buffer whose
     * size has reached `N` overwrites the slot at `start`; otherwise the
     * item goes to the back slot `mod_add(start, size - 1)`. Both branches
     * then advance `start`, and neither changes `size`.
     */
    method PushBack(item: T) returns (r: Outcome<()>)
      requires Valid()
      modifies this, items
      ensures Valid() && size == old(size)
      ensures items.Length == 0 ==> r == Ok(()) && start == old(start) && items[..] == old(items[..])
      ensures items.Length > 0 && old(size) >= items.Length ==>
        && r == Ok(())
        && items[..] == old(items[..])[old(start) := Some(item)]
        && start == (old(start) + 1) % items.Length
      ensures items.Length > 0 && old(size) < items.Length ==>
        match BackIndex(old(start), old(size), items.Length)
        case Panic => r == Panic && start == old(start) && items[..] == old(items[..])
        case Ok(back) =>
          && r == Ok(())
          && items[..] == old(items[..])[back := Some(item)]
          && start == (old(start) + 1) % items.Length
    {
      var n := items.Length;
      if n == 0 {
        return Ok(());
      }
      if size >= n {
        items[start] := Some(item);
        start := (start + 1) % n;
        return Ok(());
      }
      var back := BackIndex(start, size, n);
      if back.Panic? {
        return Panic;
      }
      items[back.value] := Some(item);
      start := (start + 1) % n;
      return Ok(());
    }

    /**
     * `pop_back()`: `None` on an empty buffer, otherwise the item in the
     * back slot, with `size` decremented. Reading a slot that was never
     * written is undefined behaviour; the model stops there, as on a panic.
     */
    method PopBack() returns (r: Outcome<Option<T>>)
      requires Valid()
      modifies this
      ensures Valid() && start == old(start)
      ensures old(size) == 0 ==> r == Ok(None) && size == 0
      ensures old(size) > 0 ==>
        match BackIndex(old(start), old(size), items.Length)
        case Panic => r == Panic && size == old(size)
        case Ok(back) =>
          if items[back].None? then r == Panic && size == old(size)
          else r == Ok(Some(items[back].value)) && size == old(size) - 1
    {
      if size == 0 {
        return Ok(None);
      }
      var back := BackIndex(start, size, items.Length);
      if back.Panic? || items[back.value].None? {
        return Panic;
      }
      var item := items[back.value].value;
      size := size - 1;
      return Ok(Some(item));
    }
  }

  /**
   * A buffer made by `new` never holds an item: a push either does nothing
   * (`N == 0`) or panics on the `size - 1` underflow, and a pop answers
   * `None`.
   */
  method FreshBufferStaysEmpty<T>(n: nat, item: T) returns (pushed: Outcome<()>, popped: Outcome<Option<T>>)
    requires n < U32_LIMIT
    ensures n > 0 ==> pushed == Panic
    ensures n == 0 ==> pushed == Ok(())
    ensures popped == Ok(None)
  {
    var b := new CircularBuffer<T>(n);
    pushed := b.PushBack(item);
    popped := b.PopBack();
  }
}
