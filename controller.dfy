/**
 * The silence-gap join of controller.py: audio blocks are sequences of rows
 * (rows are opaque, the join only copies them), and the result is the first
 * block followed by `on, block` for every later block.
 */
module Controller {
  import opened Wrappers

  /** The error raised when the input has no first block. */
  datatype JoinError = StopIteration

  /** Concatenation of parts along the row axis, as np.concatenate(parts, axis=0). */
  function Flatten<T>(parts: seq<seq<T>>): (r: seq<T>)
  {
    if parts == [] then [] else Flatten(parts[..|parts| - 1]) + parts[|parts| - 1]
  }

  /** Flattening a concatenation of part lists flattens each list. */
  lemma {:induction false} FlattenAppend<T>(a: seq<seq<T>>, b: seq<seq<T>>)
    ensures Flatten(a + b) == Flatten(a) + Flatten(b)
    decreases |b|
  {
    if b == [] {
      assert a + b == a;
    } else {
      var n := |b| - 1;
      assert (a + b)[..|a + b| - 1] == a + b[..n];
      FlattenAppend(a, b[..n]);
    }
  }

  /** Total number of rows in a list of blocks. */
  function TotalRows<T>(blocks: seq<seq<T>>): nat
  {
    if blocks == [] then 0 else |blocks[0]| + TotalRows(blocks[1..])
  }

  /**
   * The list the loop builds before concatenating: the blocks at the even
   * positions and the separator at every odd one.
   */
  function Layout<T>(blocks: seq<seq<T>>, on: seq<T>): (r: seq<seq<T>>)
    requires |blocks| > 0
    ensures |r| == 2 * |blocks| - 1
  {
    if |blocks| == 1 then [blocks[0]]
    else Layout(blocks[..|blocks| - 1], on) + [on, blocks[|blocks| - 1]]
  }

  /** The loop's list holds block k / 2 at every even position k and the separator at every odd one. */
  lemma {:induction false} LayoutShape<T>(blocks: seq<seq<T>>, on: seq<T>)
    requires |blocks| > 0
    ensures forall k :: 0 <= k < |Layout(blocks, on)| ==>
      Layout(blocks, on)[k] == if k % 2 == 0 then blocks[k / 2] else on
  {
    var n := |blocks|;
    if n > 1 {
      var init := blocks[..n - 1];
      LayoutShape(init, on);
      var r := Layout(blocks, on);
      forall k | 0 <= k < |r| ensures r[k] == if k % 2 == 0 then blocks[k / 2] else on {
        if k < |r| - 2 {
          assert r[k] == Layout(init, on)[k];
        }
      }
    }
  }

  /**
   * Reference definition of the joined audio: the first block, then the
   * separator and the join of the remaining blocks.
   */
  function Joined<T>(blocks: seq<seq<T>>, on: seq<T>): seq<T>
    requires |blocks| > 0
  {
    if |blocks| == 1 then blocks[0] else blocks[0] + on + Joined(blocks[1..], on)
  }

  /** The row count law: all input rows plus one separator per consecutive pair. */
  lemma {:induction false} JoinedLength<T>(blocks: seq<seq<T>>, on: seq<T>)
    requires |blocks| > 0
    ensures |Joined(blocks, on)| == TotalRows(blocks) + (|blocks| - 1) * |on|
  {
    if |blocks| > 1 {
      JoinedLength(blocks[1..], on);
    }
  }

  /** Joining two non-empty runs of blocks is joining each run and putting one separator between. */
  lemma {:induction false} JoinedAppend<T>(xs: seq<seq<T>>, ys: seq<seq<T>>, on: seq<T>)
    requires |xs| > 0 && |ys| > 0
    ensures Joined(xs + ys, on) == Joined(xs, on) + on + Joined(ys, on)
  {
    if |xs| == 1 {
      assert (xs + ys)[1..] == ys;
    } else {
      assert (xs + ys)[1..] == xs[1..] + ys;
      JoinedAppend(xs[1..], ys, on);
    }
  }

  /** Appending a block adds its rows to the total. */
  lemma {:induction false} TotalRowsSnoc<T>(blocks: seq<seq<T>>, x: seq<T>)
    ensures TotalRows(blocks + [x]) == TotalRows(blocks) + |x|
  {
    if blocks == [] {
      assert [x][1..] == [];
    } else {
      assert (blocks + [x])[1..] == blocks[1..] + [x];
      TotalRowsSnoc(blocks[1..], x);
    }
  }

  /** Row offset at which block `i` starts in the joined audio. */
  function Offset<T>(blocks: seq<seq<T>>, on: seq<T>, i: nat): nat
    requires i <= |blocks|
  {
    TotalRows(blocks[..i]) + i * |on|
  }

  /** Block `i` of the whole run starts one block and one separator after block `i - 1` of its tail. */
  lemma {:induction false} OffsetTail<T>(blocks: seq<seq<T>>, on: seq<T>, i: nat)
    requires 0 < i <= |blocks|
    ensures Offset(blocks, on, i) == |blocks[0]| + |on| + Offset(blocks[1..], on, i - 1)
  {
    assert blocks[..i][0] == blocks[0];
    assert blocks[..i][1..] == blocks[1..][..i - 1];
  }

  /** The next block starts one block and one separator later. */
  lemma {:induction false} OffsetNext<T>(blocks: seq<seq<T>>, on: seq<T>, i: nat)
    requires i < |blocks|
    ensures Offset(blocks, on, i + 1) == Offset(blocks, on, i) + |blocks[i]| + |on|
  {
    assert blocks[..i + 1] == blocks[..i] + [blocks[i]];
    TotalRowsSnoc(blocks[..i], blocks[i]);
  }

  /** Order and multiplicity are preserved: block `i` sits unchanged at its offset. */
  lemma {:induction false} JoinedAt<T>(blocks: seq<seq<T>>, on: seq<T>, i: nat)
    requires i < |blocks|
    ensures Offset(blocks, on, i) + |blocks[i]| <= |Joined(blocks, on)|
    ensures Joined(blocks, on)[Offset(blocks, on, i)..Offset(blocks, on, i) + |blocks[i]|] == blocks[i]
  {
    if i == 0 {
      assert blocks[..0] == [];
    } else {
      var rest := blocks[1..];
      var front := blocks[0] + on;
      JoinedAt(rest, on, i - 1);
      OffsetTail(blocks, on, i);
      assert Joined(blocks, on) == front + Joined(rest, on);
      var at := Offset(rest, on, i - 1);
      assert Joined(blocks, on)[|front| + at..|front| + at + |blocks[i]|] == Joined(rest, on)[at..at + |rest[i - 1]|];
    }
  }

  /** Every block but the last is followed by the separator, which ends where the next block starts. */
  lemma {:induction false} JoinedGap<T>(blocks: seq<seq<T>>, on: seq<T>, i: nat)
    requires i + 1 < |blocks|
    ensures Offset(blocks, on, i + 1) == Offset(blocks, on, i) + |blocks[i]| + |on| <= |Joined(blocks, on)|
    ensures Joined(blocks, on)[Offset(blocks, on, i) + |blocks[i]|..Offset(blocks, on, i + 1)] == on
  {
    OffsetNext(blocks, on, i);
    var rest := blocks[1..];
    var front := blocks[0] + on;
    assert Joined(blocks, on) == front + Joined(rest, on);
    if i == 0 {
      assert blocks[..0] == [];
      assert Joined(blocks, on)[|blocks[0]|..|front|] == on;
    } else {
      JoinedGap(rest, on, i - 1);
      OffsetTail(blocks, on, i);
      OffsetTail(blocks, on, i + 1);
      var at := Offset(rest, on, i - 1) + |rest[i - 1]|;
      assert Joined(blocks, on)[|front| + at..|front| + at + |on|] == Joined(rest, on)[at..at + |on|];
    }
  }

  /** A non-empty block starts the joined result at its offset. */
  lemma {:induction false} JoinedHead<T>(blocks: seq<seq<T>>, on: seq<T>, i: nat)
    requires i < |blocks| && blocks[i] != []
    ensures Offset(blocks, on, i) < |Joined(blocks, on)|
    ensures Joined(blocks, on)[Offset(blocks, on, i)] == blocks[i][0]
  {
    var joined, at := Joined(blocks, on), Offset(blocks, on, i);
    assert at + |blocks[i]| <= |joined| && joined[at..at + |blocks[i]|] == blocks[i] by {
      JoinedAt(blocks, on, i);
    }
    assert joined[at] == joined[at..at + |blocks[i]|][0];
  }

  /** Concatenating the loop's list gives the reference join. */
  lemma {:induction false} FlattenLayout<T>(blocks: seq<seq<T>>, on: seq<T>)
    requires |blocks| > 0
    ensures Flatten(Layout(blocks, on)) == Joined(blocks, on)
  {
    var n := |blocks|;
    if n > 1 {
      var init, last := blocks[..n - 1], blocks[n - 1];
      var pair := [on, last];
      assert Flatten(pair) == on + last by {
        assert pair[..1] == [on];
        assert [on][..0] == [];
        assert Flatten([on]) == Flatten([]) + on;
      }
      assert Flatten(Layout(blocks, on)) == Flatten(Layout(init, on)) + Flatten(pair) by {
        FlattenAppend(Layout(init, on), pair);
      }
      FlattenLayout(init, on);
      assert Joined(blocks, on) == Joined(init, on) + on + last by {
        assert blocks == init + [last];
        JoinedAppend(init, [last], on);
      }
    }
  }

  /**
   * join(iterable, on): take the first block, then append the separator and
   * each later block, and concatenate the list.  An empty input raises
   * StopIteration from next().
   */
  method Join<T>(blocks: seq<seq<T>>, on: seq<T>) returns (r: Result<seq<T>, JoinError>)
    ensures r.Err? <==> blocks == []
    ensures r.Ok? ==> r.value == Joined(blocks, on)
    ensures r.Ok? ==> |r.value| == TotalRows(blocks) + (|blocks| - 1) * |on|
    ensures |blocks| == 1 ==> r == Ok(blocks[0])
  {
    if blocks == [] {
      return Err(StopIteration);
    }
    var joinedIterable := [blocks[0]];
    for i := 1 to |blocks|
      invariant joinedIterable == Layout(blocks[..i], on)
    {
      joinedIterable := joinedIterable + [on];
      joinedIterable := joinedIterable + [blocks[i]];
      assert blocks[..i + 1][..i] == blocks[..i];
    }
    assert blocks[..|blocks|] == blocks;
    FlattenLayout(blocks, on);
    JoinedLength(blocks, on);
    r := Ok(Flatten(joinedIterable));
  }
}
