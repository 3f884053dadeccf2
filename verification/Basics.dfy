/** Outcome datatypes and numeric bounds shared by every module. */
module Basics {

  /** A value that may be absent. */
  datatype Option<+T> = None | Some(value: T)

  /** A computation that may fail without saying why, as the helper's `Result<_, ()>` does. */
  datatype Result<+T> = Ok(value: T) | Err

  const U16_MAX: nat := 0xFFFF
  const U32_MAX: nat := 0xFFFF_FFFF
  const U64_MAX: nat := 0xFFFF_FFFF_FFFF_FFFF
  const I32_MIN: int := -0x8000_0000
  const I32_MAX: int := 0x7FFF_FFFF

  type Byte = b: int | 0 <= b < 256

  /** UTF-8 text as the bytes whose length the source bounds. */
  type Text = seq<Byte>

  /** A counter that stops at the 64-bit bound instead of wrapping. */
  function SaturatingNext(counter: nat): (next: nat)
    ensures counter < U64_MAX ==> next == counter + 1
    ensures counter == U64_MAX ==> next == U64_MAX
  {
    if counter < U64_MAX then counter + 1 else counter
  }

  /** Places in a list, in order, each once. */
  ghost predicate Ascends(at: seq<nat>, bound: nat)
  {
    && (forall i :: 0 <= i < |at| ==> at[i] < bound)
    && (forall i, j :: 0 <= i < j < |at| ==> at[i] < at[j])
  }

  /** `picked` is what stands in `all` at the given places, in order and each place once. */
  ghost predicate PickedAt<T>(picked: seq<T>, all: seq<T>, at: seq<nat>)
  {
    |picked| == |at| && Ascends(at, |all|) && forall i :: 0 <= i < |at| ==> picked[i] == all[at[i]]
  }

  /** Ascending places leave room: each is at least as far along as its own position, and not past the end. */
  lemma {:induction false} PlacesRise(at: seq<nat>, bound: nat, i: nat)
    requires Ascends(at, bound) && i < |at|
    ensures i <= at[i] && |at| - i <= bound - at[i]
    decreases |at|
  {
    var last := |at| - 1;
    if last > 0 {
      var front := at[..last];
      assert forall k :: 0 <= k < last ==> front[k] < at[last];
      assert Ascends(front, at[last]);
      PlacesRise(front, at[last], if i < last then i else last - 1);
    }
  }

  /** A selection that leaves nothing out is the list. */
  lemma PickedWhole<T>(picked: seq<T>, all: seq<T>, at: seq<nat>)
    requires PickedAt(picked, all, at) && forall k :: 0 <= k < |all| ==> k in at
    ensures picked == all
  {
    forall k | 0 <= k < |all| ensures k < |at| && at[k] == k {
      EveryPlace(at, |all|, k);
    }
    if |at| > |all| {
      PlacesRise(at, |all|, |all|);
    } else if |at| < |all| {
      EveryPlace(at, |all|, |at|);
    }
  }

  lemma {:induction false} EveryPlace(at: seq<nat>, bound: nat, k: nat)
    requires Ascends(at, bound) && k < bound && forall j :: 0 <= j < bound ==> j in at
    ensures k < |at| && at[k] == k
  {
    assert k in at;
    var i :| 0 <= i < |at| && at[i] == k;
    PlacesRise(at, bound, i);
    if k > 0 {
      EveryPlace(at, bound, k - 1);
      assert at[k - 1] == k - 1;
      assert i > k - 1;
    }
  }

  /** One more element in front of a selection, itself picked or not. */
  lemma PickHead<T>(all: seq<T>, picked: seq<T>, at: seq<nat>, keep: bool) returns (at': seq<nat>)
    requires all != [] && PickedAt(picked, all[1..], at)
    ensures PickedAt((if keep then [all[0]] else []) + picked, all, at')
    ensures 0 in at' <==> keep
    ensures forall k :: 1 <= k < |all| ==> (k in at' <==> k - 1 in at)
  {
    var moved := seq(|at|, i requires 0 <= i < |at| => at[i] + 1);
    at' := (if keep then [0] else []) + moved;
    assert forall k: nat :: k in moved <==> k > 0 && k - 1 in at by {
      forall k: nat | k > 0 && k - 1 in at ensures k in moved {
        var i :| 0 <= i < |at| && at[i] == k - 1;
        assert moved[i] == k;
      }
    }
    assert forall k :: k in at' <==> (keep && k == 0) || k in moved;
  }

  /** `kept` is what of the list belongs to `wanted`, in order, with every place it stands in. */
  ghost predicate Keeps<T>(all: seq<T>, wanted: set<T>, kept: seq<T>)
  {
    exists at :: PickedAt(kept, all, at) && forall k :: 0 <= k < |all| ==> (k in at <==> all[k] in wanted)
  }

  lemma KeepsNothing<T>(wanted: set<T>)
    ensures Keeps([], wanted, [])
  {
    var nothing: seq<T> := [];
    assert PickedAt(nothing, nothing, []);
  }

  lemma KeepsHead<T>(all: seq<T>, wanted: set<T>, rest: seq<T>)
    requires all != [] && Keeps(all[1..], wanted, rest)
    ensures Keeps(all, wanted, (if all[0] in wanted then [all[0]] else []) + rest)
  {
    var tail := all[1..];
    var at :| PickedAt(rest, tail, at) && forall k :: 0 <= k < |tail| ==> (k in at <==> tail[k] in wanted);
    var at' := PickHead(all, rest, at, all[0] in wanted);
    hide PickedAt;
    forall k | 0 <= k < |all| ensures k in at' <==> all[k] in wanted {
      assert k > 0 ==> tail[k - 1] == all[k];
    }
  }

  lemma KeepsWhole<T>(all: seq<T>, wanted: set<T>, kept: seq<T>)
    requires Keeps(all, wanted, kept) && forall c :: c in all ==> c in wanted
    ensures kept == all
  {
    var at :| PickedAt(kept, all, at) && forall k :: 0 <= k < |all| ==> (k in at <==> all[k] in wanted);
    PickedWhole(kept, all, at);
  }
}
