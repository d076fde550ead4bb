/**
 NULL-terminated `char *` vectors as the agent builds them for `execvp`: a block
 of pointer slots, some written with strings, one with NULL, and possibly some
 never written at all. Writing past the end of the allocation is reported as
 `OutOfBounds` with the index of the first such write, instead of being the
 undefined behaviour it is in C.
 */
module CVector {
  import opened Wrappers

  /** One pointer slot of a heap-allocated vector. */
  datatype Slot = Unset | Null | Str(s: string)

  /** Slots holding the given strings, in order. */
  function Strs(xs: seq<string>): (r: seq<Slot>)
    ensures |r| == |xs|
    ensures forall i :: 0 <= i < |xs| ==> r[i] == Str(xs[i])
  {
    seq(|xs|, i requires 0 <= i < |xs| => Str(xs[i]))
  }

  /** `n` slots that were allocated but never written. */
  function Unsets(n: nat): (r: seq<Slot>)
    ensures |r| == n
    ensures forall i :: 0 <= i < n ==> r[i] == Unset
  {
    seq(n, _ => Unset)
  }

  /** The strings a consumer (`execvp`, `g_strv_length`) sees when it walks the
      vector up to its NULL terminator; `None` when the walk reads a slot that was
      never written, or runs off the end of the block. */
  function Terminated(block: seq<Slot>): Option<seq<string>>
  {
    if |block| == 0 then None
    else match block[0]
      case Null => Some([])
      case Unset => None
      case Str(s) =>
        match Terminated(block[1..])
        case None => None
        case Some(rest) => Some([s] + rest)
  }

  /** Strings followed by NULL are read back exactly, whatever lies beyond the NULL. */
  lemma {:induction false} TerminatedStrs(xs: seq<string>, rest: seq<Slot>)
    ensures Terminated(Strs(xs) + [Null] + rest) == Some(xs)
    decreases |xs|
  {
    var block := Strs(xs) + [Null] + rest;
    if |xs| > 0 {
      assert block[0] == Str(xs[0]);
      assert block[1..] == Strs(xs[1..]) + [Null] + rest;
      TerminatedStrs(xs[1..], rest);
      assert [xs[0]] + xs[1..] == xs;
    } else {
      assert block[0] == Null;
    }
  }

  /** A string, then a slot that was never written, then anything: the walk fails. */
  lemma TerminatedHitsUnset(xs: seq<string>, rest: seq<Slot>)
    ensures Terminated(Strs(xs) + [Unset] + rest) == None
    decreases |xs|
  {
    var block := Strs(xs) + [Unset] + rest;
    if |xs| > 0 {
      assert block[1..] == Strs(xs[1..]) + [Unset] + rest;
      TerminatedHitsUnset(xs[1..], rest);
    } else {
      assert block[0] == Unset;
    }
  }

  /** Outcome of filling a heap block: its final contents, or the index of the
      first write that falls outside the allocation. */
  datatype Store = Stored(block: seq<Slot>) | OutOfBounds(index: nat)

  /** Allocate `alloc` slots, then write `prefix`, `items` and a NULL to
      consecutive slots starting at 0: the shape of every heap-allocated argv
      in the agent. */
  function ArgvBlock(alloc: nat, prefix: seq<string>, items: seq<string>): (r: Store)
    ensures r.Stored? <==> |prefix| + |items| + 1 <= alloc
    ensures r.Stored? ==> |r.block| == alloc && Terminated(r.block) == Some(prefix + items)
    ensures r.OutOfBounds? ==> r.index == alloc
  {
    var need := |prefix| + |items| + 1;
    if need <= alloc then
      TerminatedStrs(prefix + items, Unsets(alloc - need));
      Stored(Strs(prefix + items) + [Null] + Unsets(alloc - need))
    else OutOfBounds(alloc)
  }

  /** The write sequence itself, on a real array, with every index checked
      against the allocation before it is used. */
  method FillArgv(alloc: nat, prefix: seq<string>, items: seq<string>) returns (r: Store)
    ensures r == ArgvBlock(alloc, prefix, items)
  {
    var args := new Slot[alloc](_ => Unset);
    var k := 0;
    while k < |prefix|
      invariant k <= |prefix| && k <= alloc
      invariant args[..k] == Strs(prefix[..k])
      invariant forall j :: k <= j < alloc ==> args[j] == Unset
    {
      if k == alloc {
        return OutOfBounds(k);
      }
      args[k] := Str(prefix[k]);
      k := k + 1;
    }
    assert prefix[..k] == prefix;
    var i := 0;
    while i < |items|
      invariant i <= |items| && |prefix| + i <= alloc
      invariant args[..|prefix| + i] == Strs(prefix + items[..i])
      invariant forall j :: |prefix| + i <= j < alloc ==> args[j] == Unset
    {
      if |prefix| + i == alloc {
        return OutOfBounds(alloc);
      }
      args[|prefix| + i] := Str(items[i]);
      assert (prefix + items[..i + 1])[|prefix| + i] == items[i];
      i := i + 1;
    }
    assert items[..i] == items;
    var n := |prefix| + i;
    if n == alloc {
      return OutOfBounds(alloc);
    }
    args[n] := Null;
    assert args[..] == Strs(prefix + items) + [Null] + Unsets(alloc - n - 1) by {
      assert args[..n] == Strs(prefix + items);
    }
    r := Stored(args[..]);
  }
}
