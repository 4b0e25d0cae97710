/**
 * The experiment table as the scripts see it after `pd.read_csv`: one row per
 * record, with the columns user_id, group, landing_page and converted, and
 * boolean-mask row selection (`df.loc[mask]`, `df[mask]`), the one table
 * operation that both the cleaning scripts and the conversion report use.
 */
module Frame {

  /** One record of the experiment: columns user_id, group, landing_page, converted. */
  datatype Row = Row(userId: int, group: string, page: string, converted: int)

  /** `df.loc[mask]`: the rows whose mask entry is true, unchanged and in their original order. */
  function Select(rows: seq<Row>, mask: seq<bool>): (r: seq<Row>)
    requires |mask| == |rows|
    ensures |r| <= |rows|
    ensures multiset(r) <= multiset(rows)
  {
    if rows == [] then []
    else
      assert rows == [rows[0]] + rows[1..];
      (if mask[0] then [rows[0]] else []) + Select(rows[1..], mask[1..])
  }

  /** The positions `from` and later at which `mask` is true, in increasing order. */
  function TrueIndicesFrom(mask: seq<bool>, from: nat): seq<nat>
    requires from <= |mask|
    decreases |mask| - from
  {
    if from == |mask| then []
    else (if mask[from] then [from] else []) + TrueIndicesFrom(mask, from + 1)
  }

  /** The positions at which `mask` is true, in increasing order. */
  function TrueIndices(mask: seq<bool>): seq<nat>
  {
    TrueIndicesFrom(mask, 0)
  }

  ghost predicate Increasing(idx: seq<nat>)
  {
    forall k, l :: 0 <= k < l < |idx| ==> idx[k] < idx[l]
  }

  /** `r` is the subsequence of `rows` found at the increasing positions `idx`. */
  ghost predicate SubsequenceAt(r: seq<Row>, rows: seq<Row>, idx: seq<nat>)
  {
    && |idx| == |r|
    && Increasing(idx)
    && forall k :: 0 <= k < |idx| ==> idx[k] < |rows| && r[k] == rows[idx[k]]
  }

  /** `r` keeps some rows of `rows`, unchanged and in their relative order. */
  ghost predicate IsSubsequence(r: seq<Row>, rows: seq<Row>)
  {
    exists idx :: SubsequenceAt(r, rows, idx)
  }

  /** Every position in `idx` is at or after `from` and is true in `mask`. */
  ghost predicate OnlyTrue(mask: seq<bool>, idx: seq<nat>, from: nat)
  {
    forall k :: 0 <= k < |idx| ==> from <= idx[k] < |mask| && mask[idx[k]]
  }

  /** Every true position of `mask` at or after `from` is listed in `idx`. */
  ghost predicate AllTrue(mask: seq<bool>, idx: seq<nat>, from: nat)
  {
    forall i {:trigger i in idx} :: from <= i < |mask| && mask[i] ==> i in idx
  }

  /**
   * The selection keeps exactly the rows at the true positions of the mask:
   * the k-th row of the result is the row at the k-th true position, and
   * every true position contributes its row.
   */
  lemma SelectPicks(rows: seq<Row>, mask: seq<bool>)
    requires |mask| == |rows|
    ensures SubsequenceAt(Select(rows, mask), rows, TrueIndices(mask))
    ensures OnlyTrue(mask, TrueIndices(mask), 0) && AllTrue(mask, TrueIndices(mask), 0)
  {
    SelectPicksFrom(rows, mask, 0);
    assert rows[0..] == rows && mask[0..] == mask;
  }

  /** SelectPicks for the suffix that starts at `from`, with positions counted in the whole table. */
  lemma {:induction false} SelectPicksFrom(rows: seq<Row>, mask: seq<bool>, from: nat)
    requires |mask| == |rows| && from <= |rows|
    ensures SubsequenceAt(Select(rows[from..], mask[from..]), rows, TrueIndicesFrom(mask, from))
    ensures OnlyTrue(mask, TrueIndicesFrom(mask, from), from)
    ensures AllTrue(mask, TrueIndicesFrom(mask, from), from)
    decreases |rows| - from
  {
    if from < |rows| {
      SelectPicksFrom(rows, mask, from + 1);
      var tail, tidx := Select(rows[from + 1..], mask[from + 1..]), TrueIndicesFrom(mask, from + 1);
      assert rows[from..][1..] == rows[from + 1..] && mask[from..][1..] == mask[from + 1..];
      assert Select(rows[from..], mask[from..]) == (if mask[from] then [rows[from]] else []) + tail;
      PicksCons(rows, mask, from, tail, tidx);
    }
  }

  /** The inductive step of SelectPicksFrom: position `from` joins the selection when its mask entry is true. */
  lemma PicksCons(rows: seq<Row>, mask: seq<bool>, from: nat, tail: seq<Row>, tidx: seq<nat>)
    requires |mask| == |rows| && from < |rows|
    requires SubsequenceAt(tail, rows, tidx)
    requires OnlyTrue(mask, tidx, from + 1) && AllTrue(mask, tidx, from + 1)
    ensures var r, idx := (if mask[from] then [rows[from]] else []) + tail, (if mask[from] then [from] else []) + tidx;
      SubsequenceAt(r, rows, idx) && OnlyTrue(mask, idx, from) && AllTrue(mask, idx, from)
  {
    if mask[from] {
      var r, idx := [rows[from]] + tail, [from] + tidx;
      forall k | 1 <= k < |idx|
        ensures idx[k] == tidx[k - 1] && r[k] == tail[k - 1]
      {
      }
      assert SubsequenceAt(r, rows, idx);
      assert OnlyTrue(mask, idx, from);
      forall i | from <= i < |mask| && mask[i]
        ensures i in idx
      {
        if i == from {
          assert idx[0] == i;
        } else {
          assert i in tidx;
        }
      }
    } else {
      forall i | from <= i < |mask| && mask[i]
        ensures i in tidx
      {
        assert i != from;
      }
    }
  }

  /** Membership in a selection: a row is selected iff it sits at a true position of the mask. */
  lemma SelectMembers(rows: seq<Row>, mask: seq<bool>)
    requires |mask| == |rows|
    ensures forall x :: x in Select(rows, mask) <==> exists i :: 0 <= i < |rows| && mask[i] && rows[i] == x
  {
    var r, idx := Select(rows, mask), TrueIndices(mask);
    SelectPicks(rows, mask);
    forall x | x in r
      ensures exists i :: 0 <= i < |rows| && mask[i] && rows[i] == x
    {
      var k :| 0 <= k < |r| && r[k] == x;
      assert mask[idx[k]] && rows[idx[k]] == x;
    }
    forall i | 0 <= i < |rows| && mask[i]
      ensures rows[i] in r
    {
      assert i in idx;
      var k :| 0 <= k < |idx| && idx[k] == i;
      assert r[k] == rows[i];
    }
  }

  /** A mask that is true everywhere selects the whole table. */
  lemma {:induction false} SelectAll(rows: seq<Row>, mask: seq<bool>)
    requires |mask| == |rows|
    requires forall i :: 0 <= i < |mask| ==> mask[i]
    ensures Select(rows, mask) == rows
  {
    if rows != [] {
      SelectAll(rows[1..], mask[1..]);
      assert [rows[0]] + rows[1..] == rows;
    }
  }

  /** Selecting from a selection still yields a subsequence of the original table. */
  lemma SubsequenceTransitive(a: seq<Row>, b: seq<Row>, c: seq<Row>)
    requires IsSubsequence(a, b) && IsSubsequence(b, c)
    ensures IsSubsequence(a, c)
  {
    var ia :| SubsequenceAt(a, b, ia);
    var ib :| SubsequenceAt(b, c, ib);
    var idx: seq<nat> := seq(|ia|, k requires 0 <= k < |ia| => ib[ia[k]]);
    assert SubsequenceAt(a, c, idx);
  }
}
