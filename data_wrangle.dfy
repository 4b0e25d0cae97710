/**
 * The cleaning script (src/data_wrangle.py, and its identical copy
 * 01_data_wrangle.py): between reading the raw experiment table and writing
 * the clean one it keeps only the rows whose group saw the page meant for it,
 * then drops repeated user ids, keeping the last row of each user.
 */
module DataWrangle {
  import opened Frame

  const Control: string := "control"
  const Treatment: string := "treatment"
  const OldPage: string := "old_page"
  const NewPage: string := "new_page"

  /** The row's (group, landing_page) pair is one of the two the experiment intends. */
  predicate ValidPair(r: Row)
  {
    (r.group == Control && r.page == OldPage) || (r.group == Treatment && r.page == NewPage)
  }

  /** `mask_control_old | mask_treatment_new`, one entry per row. */
  function ValidityMask(df: seq<Row>): seq<bool>
  {
    seq(|df|, i requires 0 <= i < |df| => ValidPair(df[i]))
  }

  /** `df.loc[mask].copy()`. */
  function MaskValidPairs(df: seq<Row>): seq<Row>
  {
    Select(df, ValidityMask(df))
  }

  // ---------------------------------------------------------------------------
  // drop_duplicates

  /** The columns a `drop_duplicates` call compares: `subset="user_id"` or `subset=["group", "landing_page"]`. */
  datatype Subset = UserIdColumn | GroupAndPage

  /** The `keep` argument of `drop_duplicates`. */
  datatype Keep = First | Last

  /** The values of the compared columns. */
  datatype Key = UserKey(id: int) | PairKey(group: string, page: string)

  function KeyOf(subset: Subset, r: Row): Key
  {
    match subset
    case UserIdColumn => UserKey(r.userId)
    case GroupAndPage => PairKey(r.group, r.page)
  }

  function KeysOf(subset: Subset, rows: seq<Row>): set<Key>
  {
    set r | r in rows :: KeyOf(subset, r)
  }

  /**
   * Position `i` survives `drop_duplicates(subset, keep)`: no other row with the
   * same key comes before it (keep first) or after it (keep last).
   */
  ghost predicate Survives(df: seq<Row>, subset: Subset, keep: Keep, i: int)
    requires 0 <= i < |df|
  {
    match keep
    case First => forall j :: 0 <= j < i ==> KeyOf(subset, df[j]) != KeyOf(subset, df[i])
    case Last => forall j :: i < j < |df| ==> KeyOf(subset, df[j]) != KeyOf(subset, df[i])
  }

  /** `~df.duplicated(subset, keep)`: the key of row i does not occur among the earlier (first) or later (last) rows. */
  function NotDuplicated(df: seq<Row>, subset: Subset, keep: Keep): seq<bool>
  {
    seq(|df|, i requires 0 <= i < |df| =>
      KeyOf(subset, df[i]) !in KeysOf(subset, if keep == First then df[..i] else df[i + 1..]))
  }

  /** `df.drop_duplicates(subset, keep, inplace=False)`: the rows not marked as duplicates. */
  function DropDuplicates(df: seq<Row>, subset: Subset, keep: Keep): seq<Row>
  {
    Select(df, NotDuplicated(df, subset, keep))
  }

  /** No two rows share a key. */
  ghost predicate UniqueKeys(subset: Subset, rows: seq<Row>)
  {
    forall k, l :: 0 <= k < l < |rows| ==> KeyOf(subset, rows[k]) != KeyOf(subset, rows[l])
  }

  /** The whole cleaning step: the validity mask (lines 10-13), then the keep-last user dedup (line 24). */
  function Clean(df: seq<Row>): seq<Row>
  {
    DropDuplicates(MaskValidPairs(df), UserIdColumn, Last)
  }

  /** The names the script binds: `df` after line 7 and `df_clean` after line 24. */
  datatype ScriptState = ScriptState(df: seq<Row>, dfClean: seq<Row>)

  /**
   * Lines 7-24 of the script. Line 7 computes a deduplicated frame and
   * discards it; lines 16-23 only inspect values.
   */
  function RunScript(df: seq<Row>): ScriptState
  {
    var discarded := DropDuplicates(df, GroupAndPage, First);
    var dfClean := MaskValidPairs(df);
    var dfClean := DropDuplicates(dfClean, UserIdColumn, Last);
    ScriptState(df, dfClean)
  }

  // ---------------------------------------------------------------------------
  // The validity mask

  /**
   * The mask keeps a row iff its pair is (control, old_page) or
   * (treatment, new_page): position i is kept exactly when df[i] is valid, and
   * kept rows are unchanged and in their original order.
   */
  lemma MaskKeepsValidPairs(df: seq<Row>)
    ensures SubsequenceAt(MaskValidPairs(df), df, TrueIndices(ValidityMask(df)))
    ensures forall i {:trigger i in TrueIndices(ValidityMask(df))} :: 0 <= i < |df| ==>
      (i in TrueIndices(ValidityMask(df)) <==> ValidPair(df[i]))
    ensures forall x :: x in MaskValidPairs(df) <==> x in df && ValidPair(x)
  {
    var mask := ValidityMask(df);
    SelectPicks(df, mask);
    SelectMembers(df, mask);
    forall i | 0 <= i < |df| && i in TrueIndices(mask)
      ensures ValidPair(df[i])
    {
      var k :| 0 <= k < |TrueIndices(mask)| && TrueIndices(mask)[k] == i;
      assert OnlyTrue(mask, TrueIndices(mask), 0);
    }
  }

  /** Contamination is dropped: a control user who saw the new page does not survive the mask. */
  lemma MaskDropsControlOnNewPage()
    ensures MaskValidPairs([Row(1, Control, NewPage, 0), Row(2, Control, OldPage, 1)]) == [Row(2, Control, OldPage, 1)]
  {
    var df := [Row(1, Control, NewPage, 0), Row(2, Control, OldPage, 1)];
    var mask := ValidityMask(df);
    assert mask == [false, true];
    assert df[1..][1..] == [] && mask[1..][1..] == [];
    assert Select(df[1..], mask[1..]) == [df[1]] + Select([], []);
  }

  // ---------------------------------------------------------------------------
  // drop_duplicates

  /** The duplicate marks are exactly the positions that do not survive. */
  lemma NotDuplicatedIsSurvives(df: seq<Row>, subset: Subset, keep: Keep)
    ensures forall i :: 0 <= i < |df| ==> (NotDuplicated(df, subset, keep)[i] <==> Survives(df, subset, keep, i))
  {
    forall i | 0 <= i < |df|
      ensures NotDuplicated(df, subset, keep)[i] <==> Survives(df, subset, keep, i)
    {
      var rest := if keep == First then df[..i] else df[i + 1..];
      if !Survives(df, subset, keep, i) {
        var j :| 0 <= j < |df| && j != i && (if keep == First then j < i else i < j) &&
          KeyOf(subset, df[j]) == KeyOf(subset, df[i]);
        assert df[j] == rest[if keep == First then j else j - i - 1];
      }
    }
  }

  /**
   * `drop_duplicates` keeps exactly the surviving positions: row i is kept iff
   * no other row with its key comes before it (keep first) or after it (keep
   * last); kept rows are unchanged and in their original order.
   */
  lemma DropDuplicatesKeepsSurvivors(df: seq<Row>, subset: Subset, keep: Keep)
    ensures SubsequenceAt(DropDuplicates(df, subset, keep), df, TrueIndices(NotDuplicated(df, subset, keep)))
    ensures forall i {:trigger i in TrueIndices(NotDuplicated(df, subset, keep))} :: 0 <= i < |df| ==>
      (i in TrueIndices(NotDuplicated(df, subset, keep)) <==> Survives(df, subset, keep, i))
  {
    var mask := NotDuplicated(df, subset, keep);
    SelectPicks(df, mask);
    NotDuplicatedIsSurvives(df, subset, keep);
    forall i | 0 <= i < |df| && i in TrueIndices(mask)
      ensures Survives(df, subset, keep, i)
    {
      assert OnlyTrue(mask, TrueIndices(mask), 0);
    }
  }

  /** After `drop_duplicates`, each key appears at most once. */
  lemma DropDuplicatesUniqueKeys(df: seq<Row>, subset: Subset, keep: Keep)
    ensures UniqueKeys(subset, DropDuplicates(df, subset, keep))
  {
    var r, idx := DropDuplicates(df, subset, keep), TrueIndices(NotDuplicated(df, subset, keep));
    DropDuplicatesKeepsSurvivors(df, subset, keep);
    forall k, l | 0 <= k < l < |r|
      ensures KeyOf(subset, r[k]) != KeyOf(subset, r[l])
    {
      var i, j := idx[k], idx[l];
      assert i < j;
      assert i in idx && j in idx;
      assert Survives(df, subset, keep, i) && Survives(df, subset, keep, j);
    }
  }

  /** Every key of the table has a surviving row: its last (or first) occurrence. */
  lemma {:induction false} SurvivorExists(df: seq<Row>, subset: Subset, keep: Keep, i: int)
    requires 0 <= i < |df|
    ensures exists j :: 0 <= j < |df| && KeyOf(subset, df[j]) == KeyOf(subset, df[i]) && Survives(df, subset, keep, j)
    decreases if keep == First then i else |df| - i
  {
    if !Survives(df, subset, keep, i) {
      var j :| 0 <= j < |df| && (if keep == First then j < i else i < j) &&
        KeyOf(subset, df[j]) == KeyOf(subset, df[i]);
      SurvivorExists(df, subset, keep, j);
    }
  }

  /** `drop_duplicates` loses no key: the set of keys before and after is the same. */
  lemma DropDuplicatesKeepsKeys(df: seq<Row>, subset: Subset, keep: Keep)
    ensures KeysOf(subset, DropDuplicates(df, subset, keep)) == KeysOf(subset, df)
  {
    var mask := NotDuplicated(df, subset, keep);
    var r, idx := DropDuplicates(df, subset, keep), TrueIndices(mask);
    DropDuplicatesKeepsSurvivors(df, subset, keep);
    forall x | x in r
      ensures x in df
    {
      var k :| 0 <= k < |r| && r[k] == x;
      assert x == df[idx[k]];
    }
    forall key | key in KeysOf(subset, df)
      ensures key in KeysOf(subset, r)
    {
      var x :| x in df && KeyOf(subset, x) == key;
      var i :| 0 <= i < |df| && df[i] == x;
      SurvivorExists(df, subset, keep, i);
      var j :| 0 <= j < |df| && KeyOf(subset, df[j]) == key && Survives(df, subset, keep, j);
      assert j in idx;
      var k :| 0 <= k < |idx| && idx[k] == j;
      assert r[k] == df[j];
    }
  }

  /** On a table whose keys are already unique, `drop_duplicates` changes nothing. */
  lemma DropDuplicatesOfUnique(df: seq<Row>, subset: Subset, keep: Keep)
    requires UniqueKeys(subset, df)
    ensures DropDuplicates(df, subset, keep) == df
  {
    var mask := NotDuplicated(df, subset, keep);
    NotDuplicatedIsSurvives(df, subset, keep);
    forall i | 0 <= i < |df|
      ensures mask[i]
    {
      assert Survives(df, subset, keep, i);
    }
    SelectAll(df, mask);
  }

  /** The keys of a subsequence are among the keys of the table. */
  lemma SubsequenceKeys(r: seq<Row>, df: seq<Row>)
    requires IsSubsequence(r, df)
    ensures forall x :: x in r ==> x in df
  {
    var idx :| SubsequenceAt(r, df, idx);
    forall x | x in r
      ensures x in df
    {
      var k :| 0 <= k < |r| && r[k] == x;
      assert df[idx[k]] == x;
    }
  }

  // ---------------------------------------------------------------------------
  // The cleaning step

  /**
   * The cleaned table: every row has a valid (group, page) pair, every user id
   * appears once, the rows are input rows in input order, each kept row is the
   * last row of its user in the masked table, and no user of the masked table
   * is lost.
   */
  lemma CleanInvariant(df: seq<Row>)
    ensures forall x :: x in Clean(df) ==> ValidPair(x)
    ensures forall k, l :: 0 <= k < l < |Clean(df)| ==> Clean(df)[k].userId != Clean(df)[l].userId
    ensures IsSubsequence(Clean(df), df)
    ensures KeysOf(UserIdColumn, Clean(df)) == KeysOf(UserIdColumn, MaskValidPairs(df))
    ensures forall x :: x in Clean(df) ==>
      exists i :: 0 <= i < |MaskValidPairs(df)| && MaskValidPairs(df)[i] == x && Survives(MaskValidPairs(df), UserIdColumn, Last, i)
  {
    var masked := MaskValidPairs(df);
    var clean := Clean(df);
    var idx := TrueIndices(NotDuplicated(masked, UserIdColumn, Last));
    MaskKeepsValidPairs(df);
    DropDuplicatesKeepsSurvivors(masked, UserIdColumn, Last);
    DropDuplicatesUniqueKeys(masked, UserIdColumn, Last);
    DropDuplicatesKeepsKeys(masked, UserIdColumn, Last);
    assert IsSubsequence(masked, df);
    assert IsSubsequence(clean, masked);
    SubsequenceTransitive(clean, masked, df);
    SubsequenceKeys(clean, masked);
    forall k, l | 0 <= k < l < |clean|
      ensures clean[k].userId != clean[l].userId
    {
      assert KeyOf(UserIdColumn, clean[k]) != KeyOf(UserIdColumn, clean[l]);
    }
    forall x | x in clean
      ensures exists i :: 0 <= i < |masked| && masked[i] == x && Survives(masked, UserIdColumn, Last, i)
    {
      var k :| 0 <= k < |clean| && clean[k] == x;
      assert idx[k] in idx;
      assert masked[idx[k]] == x;
    }
  }

  /** Every user's last row is kept: no surviving position is lost by the cleaning. */
  lemma CleanKeepsLastRows(df: seq<Row>)
    ensures forall i :: 0 <= i < |MaskValidPairs(df)| && Survives(MaskValidPairs(df), UserIdColumn, Last, i) ==>
      MaskValidPairs(df)[i] in Clean(df)
  {
    var masked := MaskValidPairs(df);
    var idx := TrueIndices(NotDuplicated(masked, UserIdColumn, Last));
    DropDuplicatesKeepsSurvivors(masked, UserIdColumn, Last);
    forall i | 0 <= i < |masked| && Survives(masked, UserIdColumn, Last, i)
      ensures masked[i] in Clean(df)
    {
      assert i in idx;
      var k :| 0 <= k < |idx| && idx[k] == i;
      assert Clean(df)[k] == masked[i];
    }
  }

  /** Cleaning a clean table changes nothing. */
  lemma CleanIdempotent(df: seq<Row>)
    ensures Clean(Clean(df)) == Clean(df)
  {
    var clean := Clean(df);
    CleanInvariant(df);
    var mask := ValidityMask(clean);
    SelectAll(clean, mask);
    assert MaskValidPairs(clean) == clean;
    assert UniqueKeys(UserIdColumn, clean);
    DropDuplicatesOfUnique(clean, UserIdColumn, Last);
  }

  /**
   * Line 7 leaves `df` as it was, and `df_clean` is the cleaned table: the
   * deduplicated frame of line 7 is computed and thrown away.
   */
  lemma RunScriptCleans(df: seq<Row>)
    ensures RunScript(df).df == df
    ensures RunScript(df).dfClean == Clean(df)
    ensures forall x :: x in RunScript(df).dfClean ==> ValidPair(x)
  {
    CleanInvariant(df);
  }

  /**
   * The pair dedup of line 7 is not itself a no-op: on a table with two rows of
   * the same (group, landing_page) pair it drops the second, so it is only the
   * discarding of its result that leaves `df` unchanged.
   */
  lemma DiscardedPairDedupDropsRows()
    ensures var df := [Row(1, Control, OldPage, 0), Row(2, Control, OldPage, 1)];
      DropDuplicates(df, GroupAndPage, First) == [df[0]] && RunScript(df).df == df
  {
    var df := [Row(1, Control, OldPage, 0), Row(2, Control, OldPage, 1)];
    var mask := NotDuplicated(df, GroupAndPage, First);
    assert df[..0] == [] && df[..1] == [df[0]];
    assert KeyOf(GroupAndPage, df[0]) in KeysOf(GroupAndPage, df[..1]);
    assert mask == [true, false];
    assert df[1..][1..] == [] && mask[1..][1..] == [];
    assert Select(df[1..], mask[1..]) == Select([], []);
  }
}
