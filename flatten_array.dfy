/**
 * The array-flattening exercise: `flatten(arr)` returns the non-array values
 * of an arbitrarily nested array, depth first and left to right. Three working
 * variants are modelled: the `forEach` loop, the `reduce` with `concat`, and
 * the `reduce` that pushes values and concatenates flattened sub-arrays.
 */
module FlattenArray {

  /** An element of a JavaScript array: a non-array value or a nested array. */
  datatype Item<T> = Leaf(value: T) | Nested(items: seq<Item<T>>)

  /** No element of `items` is an array. */
  predicate IsFlat<T>(items: seq<Item<T>>)
  {
    forall i :: 0 <= i < |items| ==> items[i].Leaf?
  }

  /** The non-array values of `items`, depth first, left to right. */
  function Leaves<T>(items: seq<Item<T>>): (r: seq<Item<T>>)
    ensures IsFlat(r)
  {
    if items == [] then []
    else
      (match items[0]
       case Leaf(_) => [items[0]]
       case Nested(inner) => Leaves(inner))
      + Leaves(items[1..])
  }

  /** How many non-array values `items` holds at any depth. */
  function LeafCount<T>(items: seq<Item<T>>): nat
  {
    if items == [] then 0
    else
      (match items[0]
       case Leaf(_) => 1
       case Nested(inner) => LeafCount(inner))
      + LeafCount(items[1..])
  }

  /** Flattening a concatenation flattens each part. */
  lemma {:induction false} LeavesAppend<T>(a: seq<Item<T>>, b: seq<Item<T>>)
    ensures Leaves(a + b) == Leaves(a) + Leaves(b)
  {
    if a != [] {
      LeavesAppend(a[1..], b);
      assert (a + b)[0] == a[0];
      assert (a + b)[1..] == a[1..] + b;
    } else {
      assert a + b == b;
    }
  }

  /** An array without nested arrays is its own flattening. */
  lemma {:induction false} LeavesOfFlat<T>(items: seq<Item<T>>)
    requires IsFlat(items)
    ensures Leaves(items) == items
  {
    if items != [] {
      LeavesOfFlat(items[1..]);
    }
  }

  /** Flattening twice is flattening once. */
  lemma LeavesIdempotent<T>(items: seq<Item<T>>)
    ensures Leaves(Leaves(items)) == Leaves(items)
  {
    LeavesOfFlat(Leaves(items));
  }

  /** The flattening has exactly one element per non-array value of the input. */
  lemma {:induction false} LeavesLength<T>(items: seq<Item<T>>)
    ensures |Leaves(items)| == LeafCount(items)
  {
    if items != [] {
      LeavesLength(items[1..]);
      match items[0]
      case Leaf(_) =>
      case Nested(inner) => LeavesLength(inner);
    }
  }

  /** Extending the input by one element extends the flattening by that element's. */
  lemma LeavesSnoc<T>(prefix: seq<Item<T>>, item: Item<T>)
    ensures Leaves(prefix + [item]) == Leaves(prefix) + Leaves([item])
  {
    LeavesAppend(prefix, [item]);
  }

  /** The flattening of one element: itself if it is a value, else its flattening. */
  lemma LeavesOne<T>(item: Item<T>)
    ensures Leaves([item]) == match item case Leaf(_) => [item] case Nested(inner) => Leaves(inner)
  {
    assert [item][1..] == [];
  }

  /** The `forEach` variant: push each value, or spread the flattened sub-array. */
  method FlattenForEach<T>(arr: seq<Item<T>>) returns (result: seq<Item<T>>)
    ensures result == Leaves(arr)
    decreases arr
  {
    result := [];
    for i := 0 to |arr|
      invariant result == Leaves(arr[..i])
    {
      var item := arr[i];
      match item {
        case Nested(inner) =>
          var sub := FlattenForEach(inner);
          result := result + sub;
        case Leaf(_) =>
          result := result + [item];
      }
      LeavesOne(item);
      LeavesSnoc(arr[..i], item);
      assert arr[..i + 1] == arr[..i] + [item];
    }
    assert arr[..|arr|] == arr;
  }

  /**
   * The `reduce` variant with `concat`: the accumulator after the last element
   * is the accumulator after the others, concatenated with the last element or
   * with its flattening.
   */
  function FlattenConcat<T>(arr: seq<Item<T>>): (r: seq<Item<T>>)
    ensures r == Leaves(arr)
  {
    if arr == [] then []
    else
      var prefix, last := arr[..|arr| - 1], arr[|arr| - 1];
      assert arr == prefix + [last];
      LeavesSnoc(prefix, last);
      LeavesOne(last);
      FlattenConcat(prefix)
      + (match last
         case Nested(inner) => FlattenConcat(inner)
         case Leaf(_) => [last])
  }

  /** The last `reduce` variant: `prev.push(curr)`, or `prev = prev.concat(flatten(curr))`. */
  method FlattenReducePush<T>(arr: seq<Item<T>>) returns (prev: seq<Item<T>>)
    ensures prev == Leaves(arr)
    decreases arr
  {
    prev := [];
    for i := 0 to |arr|
      invariant prev == Leaves(arr[..i])
    {
      var curr := arr[i];
      if curr.Nested? {
        var sub := FlattenReducePush(curr.items);
        prev := prev + sub;
      } else {
        prev := prev + [curr];
      }
      LeavesOne(curr);
      LeavesSnoc(arr[..i], curr);
      assert arr[..i + 1] == arr[..i] + [curr];
    }
    assert arr[..|arr|] == arr;
  }

  /**
   * The documented example, `[1, 2, [3, 4, [5, 6, 7], 8], 9, 10]` flattening to
   * `[1, 2, 3, 4, 5, 6, 7, 8, 9, 10]`, stated for any ten values in those places.
   */
  lemma ExampleFlatten<T>(v1: T, v2: T, v3: T, v4: T, v5: T, v6: T, v7: T, v8: T, v9: T, v10: T)
    ensures Leaves([Leaf(v1), Leaf(v2), Nested([Leaf(v3), Leaf(v4), Nested([Leaf(v5), Leaf(v6), Leaf(v7)]), Leaf(v8)]), Leaf(v9), Leaf(v10)])
         == [Leaf(v1), Leaf(v2), Leaf(v3), Leaf(v4), Leaf(v5), Leaf(v6), Leaf(v7), Leaf(v8), Leaf(v9), Leaf(v10)]
  {
    var middle := [Leaf(v3), Leaf(v4), Nested([Leaf(v5), Leaf(v6), Leaf(v7)]), Leaf(v8)];
    ExampleMiddle(v3, v4, v5, v6, v7, v8);
    var tail := [Leaf(v9), Leaf(v10)];
    LeavesOfFlat(tail);
    LeavesOfFlat([Leaf(v1), Leaf(v2)]);
    LeavesOne(Nested(middle));
    LeavesAppend([Nested(middle)], tail);
    assert [Nested(middle), Leaf(v9), Leaf(v10)] == [Nested(middle)] + tail;
    LeavesAppend([Leaf(v1), Leaf(v2)], [Nested(middle), Leaf(v9), Leaf(v10)]);
    assert [Leaf(v1), Leaf(v2), Nested(middle), Leaf(v9), Leaf(v10)] == [Leaf(v1), Leaf(v2)] + [Nested(middle), Leaf(v9), Leaf(v10)];
  }

  /** The middle array of the example, `[3, 4, [5, 6, 7], 8]`, flattens to `[3, 4, 5, 6, 7, 8]`. */
  lemma ExampleMiddle<T>(v3: T, v4: T, v5: T, v6: T, v7: T, v8: T)
    ensures Leaves([Leaf(v3), Leaf(v4), Nested([Leaf(v5), Leaf(v6), Leaf(v7)]), Leaf(v8)])
         == [Leaf(v3), Leaf(v4), Leaf(v5), Leaf(v6), Leaf(v7), Leaf(v8)]
  {
    var inner := [Leaf(v5), Leaf(v6), Leaf(v7)];
    LeavesOfFlat(inner);
    LeavesOfFlat([Leaf(v8)]);
    LeavesOfFlat([Leaf(v3), Leaf(v4)]);
    LeavesOne(Nested(inner));
    LeavesAppend([Nested(inner)], [Leaf(v8)]);
    assert [Nested(inner), Leaf(v8)] == [Nested(inner)] + [Leaf(v8)];
    LeavesAppend([Leaf(v3), Leaf(v4)], [Nested(inner), Leaf(v8)]);
    assert [Leaf(v3), Leaf(v4), Nested(inner), Leaf(v8)] == [Leaf(v3), Leaf(v4)] + [Nested(inner), Leaf(v8)];
  }
}
