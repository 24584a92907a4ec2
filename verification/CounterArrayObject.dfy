/** The counter array as an object: a Go slice, that is a backing array and a length, which the
    operations grow by reallocation, change in place and shorten by reslicing. */
module CounterArrayObject {
  import opened Options
  import opened CounterArray

  class CounterArrayCrdt {
    var counts: array<int>
    var len: nat

    ghost predicate Valid()
      reads this
    {
      len <= counts.Length
    }

    ghost function Contents(): seq<int>
      requires Valid()
      reads this, counts
    {
      counts[..len]
    }

    constructor ()
      ensures Valid() && Contents() == []
    {
      counts := new int[0];
      len := 0;
    }

    /** Update: a resize that does not grow the array is a NoOp. */
    method Update(args: Op) returns (down: Option<Op>)
      requires Valid()
      ensures down == if args.SetSize? && Apply(Contents(), args) == Contents() then None else Some(args)
    {
      if args.SetSize? {
        assert args.size > len ==> |Grow(Contents(), args.size)| > len;
        if args.size <= len {
          return None;
        }
      }
      return Some(args);
    }

    method ExpandArray(newSize: nat)
      requires Valid() && newSize > len
      modifies this
      ensures Valid() && fresh(counts) && Contents() == Grow(old(Contents()), newSize)
    {
      var newCounts := new int[newSize](_ => 0);
      for i := 0 to len
        invariant forall j :: 0 <= j < newSize ==> newCounts[j] == if j < i then counts[j] else 0
        modifies newCounts
      {
        newCounts[i] := counts[i];
      }
      counts := newCounts;
      len := newSize;
    }

    method AddTo(position: nat, change: int)
      requires Valid()
      modifies this, counts
      ensures Valid() && (counts == old(counts) || fresh(counts))
      ensures Contents() == AddAt(old(Contents()), position, change)
    {
      if position >= len {
        ExpandArray(position + 1);
      }
      counts[position] := counts[position] + change;
    }

    method AddToAll(change: int)
      requires Valid()
      modifies counts
      ensures Valid() && Contents() == AddEverywhere(old(Contents()), change)
    {
      for i := 0 to len
        invariant forall j :: 0 <= j < i ==> counts[j] == old(counts[j]) + change
        invariant forall j :: i <= j < counts.Length ==> counts[j] == old(counts[j])
      {
        counts[i] := counts[i] + change;
      }
    }

    method AddToPrefix(changes: seq<int>, up: bool)
      requires Valid() && |changes| <= len
      modifies counts
      ensures Valid() && Contents() == AddPrefix(old(Contents()), changes, up)
    {
      for i := 0 to |changes|
        invariant forall j :: 0 <= j < i ==> counts[j] == old(counts[j]) + Signed(up, changes[j])
        invariant forall j :: i <= j < counts.Length ==> counts[j] == old(counts[j])
      {
        if up {
          counts[i] := counts[i] + changes[i];
        } else {
          counts[i] := counts[i] - changes[i];
        }
      }
    }

    /** The loops of the Sub operations: a single change for all positions, or one for each. */
    method AddToSub(changes: seq<int>, positions: seq<int>, up: bool)
      requires Valid() && SubOk(changes, positions)
      modifies this, counts
      ensures Valid() && (counts == old(counts) || fresh(counts))
      ensures Contents() == AddSub(old(Contents()), changes, positions, up, |positions|)
    {
      if |changes| == 1 {
        var change := changes[0];
        for i := 0 to |positions|
          invariant Valid() && (counts == old(counts) || fresh(counts))
          invariant Contents() == AddSub(old(Contents()), changes, positions, up, i)
        {
          AddTo(positions[i], Signed(up, change));
        }
      } else {
        for i := 0 to |positions|
          invariant Valid() && (counts == old(counts) || fresh(counts))
          invariant Contents() == AddSub(old(Contents()), changes, positions, up, i)
        {
          AddTo(positions[i], Signed(up, changes[i]));
        }
      }
    }

    method Reslice(n: nat)
      requires Valid() && n <= len
      modifies `len
      ensures Valid() && Contents() == Truncate(old(Contents()), n)
    {
      len := n;
    }

    method ApplyDownstream(op: Op) returns (effect: Effect)
      requires Valid() && Ok(op)
      modifies this, counts
      ensures Valid() && (counts == old(counts) || fresh(counts))
      ensures Contents() == Apply(old(Contents()), op)
      ensures effect == EffectOf(old(Contents()), op)
    {
      var oldSize := len;
      match op
      case Increment(change, position) =>
        effect := if position >= len then SetSizeEffect(len) else IncEffect(change, position);
        AddTo(position, change);
      case Decrement(change, position) =>
        effect := if position >= len then SetSizeEffect(len) else DecEffect(change, position);
        AddTo(position, -change);
      case IncrementAll(change) =>
        effect := IncAllEffect(change);
        AddToAll(change);
      case DecrementAll(change) =>
        effect := DecAllEffect(change);
        AddToAll(-change);
      case IncrementMulti(changes) =>
        if |changes| > len {
          effect := IncMultiWithSizeEffect(changes, len);
          ExpandArray(|changes|);
        } else {
          effect := IncMultiEffect(changes);
        }
        AddToPrefix(changes, true);
      case DecrementMulti(changes) =>
        if |changes| > len {
          effect := DecMultiWithSizeEffect(changes, len);
          ExpandArray(|changes|);
        } else {
          effect := IncMultiEffect(changes);
        }
        AddToPrefix(changes, true);
      case IncrementSub(changes, positions) =>
        AddToSub(changes, positions, true);
        effect := if oldSize != len then IncSubWithSizeEffect(changes, positions, oldSize) else IncSubEffect(changes, positions);
      case DecrementSub(changes, positions) =>
        AddToSub(changes, positions, false);
        effect := if oldSize != len then DecSubWithSizeEffect(changes, positions, oldSize) else DecSubEffect(changes, positions);
      case SetSize(size) =>
        if size > len {
          effect := SetSizeEffect(len);
          ExpandArray(size);
        } else {
          effect := NoEffect;
        }
    }

    method UndoEffect(effect: Effect)
      requires Valid() && CanUndo(Contents(), effect)
      modifies this, counts
      ensures Valid() && (counts == old(counts) || fresh(counts))
      ensures Contents() == Undo(old(Contents()), effect)
    {
      match effect
      case NoEffect =>
      case IncEffect(change, position) => counts[position] := counts[position] - change;
      case DecEffect(change, position) => counts[position] := counts[position] + change;
      case IncSubEffect(changes, positions) => AddToSub(changes, positions, false);
      case DecSubEffect(changes, positions) => AddToSub(changes, positions, true);
      case IncSubWithSizeEffect(changes, positions, oldSize) =>
        AddToSub(changes, positions, false);
        SubKeepsLength(old(Contents()), changes, positions, false);
        Reslice(oldSize);
      case DecSubWithSizeEffect(changes, positions, oldSize) =>
        AddToSub(changes, positions, true);
        SubKeepsLength(old(Contents()), changes, positions, true);
        Reslice(oldSize);
      case IncAllEffect(change) => AddToAll(-change);
      case DecAllEffect(change) => AddToAll(change);
      case IncMultiEffect(changes) => AddToPrefix(changes, false);
      case IncMultiWithSizeEffect(changes, oldSize) =>
        AddToPrefix(changes, false);
        Reslice(oldSize);
      case DecMultiWithSizeEffect(changes, oldSize) =>
        AddToPrefix(changes, true);
        Reslice(oldSize);
      case SetSizeEffect(oldSize) => Reslice(oldSize);
    }
  }

  lemma SubKeepsLength(c: seq<int>, changes: seq<int>, positions: seq<int>, up: bool)
    requires SubWithin(c, changes, positions)
    ensures |c| <= |AddSub(c, changes, positions, up, |positions|)|
  {
    SubAt(c, changes, positions, up, |positions|, 0);
  }
}
