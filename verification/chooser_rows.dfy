/**
  The button grid of the item/recipe chooser panel: the filtered subgroup
  lists are packed into fixed-size row arrays, a window of those rows is
  shown starting at the scroll position, and the scrollbar range and the
  mouse wheel keep that window inside the rows.
 */
module ChooserRows {
  import opened Wrappers
  import opened Arith

  /** Every packed row is a fresh array of this many slots. */
  const RowArrayLength := 10

  /** One packed row; a slot never written holds `None` (the default pair). */
  type Row<E> = seq<Option<E>>

  /** The subgroup entries, in order, as one list. */
  function Concat<E>(sgs: seq<seq<E>>): (r: seq<E>)
    ensures |sgs| == 0 ==> r == []
  {
    if |sgs| == 0 then [] else sgs[0] + Concat(sgs[1..])
  }

  /** A fresh row array holding `entries` in its first slots. */
  function RowOf<E>(entries: seq<E>): (r: Row<E>)
    requires |entries| <= RowArrayLength
    ensures |r| == RowArrayLength
    ensures forall i :: 0 <= i < |entries| ==> r[i] == Some(entries[i])
    ensures forall i :: |entries| <= i < RowArrayLength ==> r[i].None?
  {
    seq(RowArrayLength, i requires 0 <= i < RowArrayLength => if i < |entries| then Some(entries[i]) else None)
  }

  /**
    The rows one non-empty subgroup occupies: a row is started for the
    subgroup, and another each time `cols` entries have filled the current one.
   */
  function SubgroupRows<E>(sg: seq<E>, cols: int): (r: seq<Row<E>>)
    requires 1 <= cols <= RowArrayLength
    ensures forall i :: 0 <= i < |r| ==> |r[i]| == RowArrayLength
    decreases |sg|
  {
    if |sg| <= cols then [RowOf(sg)]
    else [RowOf(sg[..cols])] + SubgroupRows(sg[cols..], cols)
  }

  /**
    The packing loop of `UpdateIRButtons`: empty subgroups are skipped and
    every other subgroup starts on a fresh row. `cols` is the number of
    button columns, `IRButtons.GetLength(0)`; a value above the row-array
    length would index past the array.
   */
  function PackRows<E>(sgs: seq<seq<E>>, cols: int): (r: seq<Row<E>>)
    requires 1 <= cols <= RowArrayLength
    ensures forall i :: 0 <= i < |r| ==> |r[i]| == RowArrayLength
  {
    if |sgs| == 0 then []
    else (if |sgs[0]| == 0 then [] else SubgroupRows(sgs[0], cols)) + PackRows(sgs[1..], cols)
  }

  /** The entries of a row read in order, skipping blank slots. */
  function Present<E>(row: Row<E>): (r: seq<E>)
    ensures |r| <= |row|
  {
    if |row| == 0 then []
    else (if row[0].Some? then [row[0].value] else []) + Present(row[1..])
  }

  /** The entries of all rows read in order, skipping blank slots. */
  function ReadRows<E>(rows: seq<Row<E>>): seq<E>
  {
    if |rows| == 0 then [] else Present(rows[0]) + ReadRows(rows[1..])
  }

  /** The number of rows a subgroup of `n` entries occupies: `n / cols` rounded up. */
  function RowsNeeded(n: nat, cols: int): nat
    requires cols >= 1
  {
    (n + cols - 1) / cols
  }

  /** A packed row: an array of the row length whose first `k` slots are filled, `1 <= k <= cols`. */
  ghost predicate DenseRow<E>(row: Row<E>, cols: int)
  {
    && |row| == RowArrayLength
    && 1 <= |Present(row)| <= cols
    && (forall i :: 0 <= i < RowArrayLength ==> (row[i].Some? <==> i < |Present(row)|))
  }

  lemma {:induction false} PresentAppend<E>(a: Row<E>, b: Row<E>)
    ensures Present(a + b) == Present(a) + Present(b)
  {
    if |a| == 0 {
      assert a + b == b;
    } else {
      var c := a + b;
      assert c[0] == a[0];
      assert c[1..] == a[1..] + b;
      PresentAppend(a[1..], b);
      var h := if a[0].Some? then [a[0].value] else [];
      assert Present(c) == h + Present(c[1..]);
      assert Present(a) == h + Present(a[1..]);
    }
  }

  lemma {:induction false} ReadRowsAppend<E>(a: seq<Row<E>>, b: seq<Row<E>>)
    ensures ReadRows(a + b) == ReadRows(a) + ReadRows(b)
  {
    if |a| == 0 {
      assert a + b == b;
    } else {
      assert (a + b)[1..] == a[1..] + b;
      ReadRowsAppend(a[1..], b);
    }
  }

  /** A row built from `entries` reads back as exactly `entries`. */
  lemma {:induction false} PresentRowOf<E>(entries: seq<E>)
    requires |entries| <= RowArrayLength
    ensures Present(RowOf(entries)) == entries
  {
    var row := RowOf(entries);
    PresentPrefix(row, entries, 0);
  }

  lemma {:induction false} PresentPrefix<E>(row: Row<E>, entries: seq<E>, from: nat)
    requires from <= |row| && |entries| <= |row|
    requires forall i :: 0 <= i < |entries| ==> row[i] == Some(entries[i])
    requires forall i :: |entries| <= i < |row| ==> row[i].None?
    ensures Present(row[from..]) == if from < |entries| then entries[from..] else []
    decreases |row| - from
  {
    if from == |row| {
      assert row[from..] == [];
    } else {
      PresentPrefix(row, entries, from + 1);
      assert row[from..][1..] == row[from + 1..];
      if from < |entries| {
        assert entries[from..] == [entries[from]] + entries[from + 1..];
      }
    }
  }

  /** Reading the rows of one subgroup gives back the subgroup. */
  lemma {:induction false} SubgroupRowsReadBack<E>(sg: seq<E>, cols: int)
    requires 1 <= cols <= RowArrayLength
    ensures ReadRows(SubgroupRows(sg, cols)) == sg
    decreases |sg|
  {
    if |sg| <= cols {
      PresentRowOf(sg);
      assert ReadRows(SubgroupRows(sg, cols)) == Present(RowOf(sg)) + ReadRows([]);
    } else {
      SubgroupRowsReadBack(sg[cols..], cols);
      PresentRowOf(sg[..cols]);
      var rows := SubgroupRows(sg, cols);
      var rest := SubgroupRows(sg[cols..], cols);
      assert rows == [RowOf(sg[..cols])] + rest;
      assert rows[1..] == rest;
      assert ReadRows(rows) == Present(rows[0]) + ReadRows(rows[1..]);
      assert sg == sg[..cols] + sg[cols..];
    }
  }

  /** A non-empty subgroup of `n` entries takes `n / cols` rows, rounded up. */
  lemma {:induction false} SubgroupRowCount<E>(sg: seq<E>, cols: int)
    requires 1 <= cols <= RowArrayLength && |sg| > 0
    ensures |SubgroupRows(sg, cols)| == RowsNeeded(|sg|, cols)
    decreases |sg|
  {
    var n := |sg|;
    if n <= cols {
      DivOfRange(n + cols - 1, cols, 1);
    } else {
      SubgroupRowCount(sg[cols..], cols);
      QuotientShift(n - 1, cols);
    }
  }

  /**
    Reading the packed rows in order, without blank slots, reproduces the
    concatenation of the subgroups; a non-empty subgroup of `n` entries takes
    `n / cols` rows rounded up and an empty one takes none.
   */
  lemma {:induction false} PackRowsReadBack<E>(sgs: seq<seq<E>>, cols: int)
    requires 1 <= cols <= RowArrayLength
    ensures ReadRows(PackRows(sgs, cols)) == Concat(sgs)
  {
    if |sgs| > 0 {
      PackRowsReadBack(sgs[1..], cols);
      var head := if |sgs[0]| == 0 then [] else SubgroupRows(sgs[0], cols);
      ReadRowsAppend(head, PackRows(sgs[1..], cols));
      if |sgs[0]| > 0 {
        SubgroupRowsReadBack(sgs[0], cols);
      }
    }
  }

  /** Every row of one subgroup is packed densely from the first slot, with 1 to `cols` entries. */
  lemma {:induction false} SubgroupRowsDense<E>(sg: seq<E>, cols: int)
    requires 1 <= cols <= RowArrayLength && |sg| > 0
    ensures forall i :: 0 <= i < |SubgroupRows(sg, cols)| ==> DenseRow(SubgroupRows(sg, cols)[i], cols)
    decreases |sg|
  {
    var rows := SubgroupRows(sg, cols);
    var first := if |sg| <= cols then sg else sg[..cols];
    PresentRowOf(first);
    assert DenseRow(RowOf(first), cols) by {
      assert |Present(RowOf(first))| == |first|;
    }
    if |sg| > cols {
      SubgroupRowsDense(sg[cols..], cols);
      assert rows == [RowOf(first)] + SubgroupRows(sg[cols..], cols);
    }
  }

  /** Every packed row is dense: filled from the first slot, with 1 to `cols` entries. */
  lemma {:induction false} PackRowsDense<E>(sgs: seq<seq<E>>, cols: int)
    requires 1 <= cols <= RowArrayLength
    ensures forall i :: 0 <= i < |PackRows(sgs, cols)| ==> DenseRow(PackRows(sgs, cols)[i], cols)
  {
    if |sgs| > 0 {
      PackRowsDense(sgs[1..], cols);
      if |sgs[0]| > 0 {
        SubgroupRowsDense(sgs[0], cols);
      }
      var head := if |sgs[0]| == 0 then [] else SubgroupRows(sgs[0], cols);
      var rows := PackRows(sgs, cols);
      assert rows == head + PackRows(sgs[1..], cols);
      forall i | 0 <= i < |rows|
        ensures DenseRow(rows[i], cols)
      {
        if i >= |head| {
          assert rows[i] == PackRows(sgs[1..], cols)[i - |head|];
        }
      }
    }
  }

  /**
    Packing is compositional: packing a list of subgroups is packing its two
    parts separately, so a subgroup never shares a row with the one before it
    and an empty subgroup adds no row.
   */
  lemma {:induction false} PackRowsAppend<E>(a: seq<seq<E>>, b: seq<seq<E>>, cols: int)
    requires 1 <= cols <= RowArrayLength
    ensures PackRows(a + b, cols) == PackRows(a, cols) + PackRows(b, cols)
    ensures PackRows([[]] + b, cols) == PackRows(b, cols)
  {
    assert ([[]] + b)[1..] == b;
    if |a| > 0 {
      assert (a + b)[1..] == a[1..] + b;
      PackRowsAppend(a[1..], b, cols);
    } else {
      assert a + b == b;
    }
  }

  /** A button slot: showing an entry, or blank and disabled. */
  datatype Slot<E> = Shown(entry: E) | Blank

  /**
    The slot in button column `c`, visible row `r`, when the window starts
    at row `startRow`: the entry of packed row `r + startRow` in column `c`
    when that row exists and the slot was filled, otherwise blank.
   */
  function SlotAt<E>(rows: seq<Row<E>>, startRow: nat, c: nat, r: nat): (s: Slot<E>)
    requires c < RowArrayLength
    requires forall i :: 0 <= i < |rows| ==> |rows[i]| == RowArrayLength
    ensures s.Shown? ==> r + startRow < |rows| && s.entry in Present(rows[r + startRow])
    ensures r + startRow >= |rows| ==> s.Blank?
  {
    if r + startRow < |rows| then
      match rows[r + startRow][c]
      case Some(e) =>
        assert e in Present(rows[r + startRow]) by { PresentHas(rows[r + startRow], c); }
        Shown(e)
      case None => Blank
    else Blank
  }

  lemma {:induction false} PresentHas<E>(row: Row<E>, c: nat)
    requires c < |row| && row[c].Some?
    ensures row[c].value in Present(row)
  {
    if c > 0 {
      PresentHas(row[1..], c - 1);
    }
  }

  /** The slots of a dense row: the first `|Present(row)|` hold its entries in order, the rest are empty. */
  lemma DenseSlots<E>(row: Row<E>, cols: int)
    requires DenseRow(row, cols)
    ensures forall c :: 0 <= c < |Present(row)| ==> row[c] == Some(Present(row)[c])
  {
    var k := |Present(row)|;
    var entries := seq(k, i requires 0 <= i < k => row[i].value);
    PresentPrefix(row, entries, 0);
    assert row[0..] == row;
  }

  /** The entries of any one row are among the entries read from all rows. */
  lemma RowInReadRows<E>(rows: seq<Row<E>>, j: nat)
    requires j < |rows|
    ensures forall e :: e in Present(rows[j]) ==> e in ReadRows(rows)
  {
    var row := rows[j];
    assert rows == rows[..j] + [row] + rows[j + 1..];
    ReadRowsAppend(rows[..j] + [row], rows[j + 1..]);
    ReadRowsAppend(rows[..j], [row]);
    assert ReadRows([row]) == Present(row) + ReadRows([]);
  }

  /**
    In a window over packed rows, the first `cols` button columns of a
    visible row show exactly the packed row's entries, left to right, and
    every later slot is blank; every shown entry comes from the subgroups.
   */
  lemma VisibleWindow<E>(sgs: seq<seq<E>>, cols: int, startRow: nat, r: nat)
    requires 1 <= cols <= RowArrayLength
    requires r + startRow < |PackRows(sgs, cols)|
    ensures var rows := PackRows(sgs, cols);
            var shown := Present(rows[r + startRow]);
            && 1 <= |shown| <= cols
            && (forall c :: 0 <= c < RowArrayLength ==> (SlotAt(rows, startRow, c, r).Shown? <==> c < |shown|))
            && (forall c :: 0 <= c < |shown| ==> SlotAt(rows, startRow, c, r) == Shown(shown[c]))
            && (forall e :: e in shown ==> e in Concat(sgs))
  {
    var rows := PackRows(sgs, cols);
    PackRowsDense(sgs, cols);
    PackRowsReadBack(sgs, cols);
    var row := rows[r + startRow];
    assert DenseRow(row, cols);
    DenseSlots(row, cols);
    RowInReadRows(rows, r + startRow);
  }

  /** The scrollbar maximum after packing `rowCount` rows. */
  function ScrollMaximum(rowCount: nat): (m: nat)
    ensures rowCount > 0 ==> m == rowCount - 1
    ensures rowCount == 0 ==> m == 0
  {
    if rowCount - 1 > 0 then rowCount - 1 else 0
  }

  /** Whether the scrollbar is enabled: its maximum reaches its large change. */
  predicate ScrollEnabled(rowCount: nat, largeChange: int)
  {
    ScrollMaximum(rowCount) >= largeChange
  }

  /**
    With a positive page size (the visible row count), the scrollbar is
    enabled exactly when there are more packed rows than visible rows.
   */
  lemma ScrollEnabledIffOverflow(rowCount: nat, largeChange: int)
    requires largeChange >= 1
    ensures ScrollEnabled(rowCount, largeChange) <==> rowCount > largeChange
  {
  }

  /**
    The mouse wheel: scrolling down moves one row while the value is at most
    `maximum - largeChange`; scrolling up moves one row while it is positive;
    otherwise nothing changes.
   */
  function Wheel(value: int, maximum: int, largeChange: int, delta: int): (v: int)
    ensures delta < 0 && value <= maximum - largeChange ==> v == value + 1
    ensures delta > 0 && value > 0 ==> v == value - 1
    ensures !(delta < 0 && value <= maximum - largeChange) && !(delta > 0 && value > 0) ==> v == value
    ensures -1 <= v - value <= 1
  {
    if delta < 0 && value <= maximum - largeChange then value + 1
    else if delta > 0 && value > 0 then value - 1
    else value
  }

  /**
    The wheel keeps the scroll value in its range: never negative, and never
    past `maximum - largeChange + 1`, the last position whose window still
    starts inside the rows.
   */
  lemma WheelStaysInRange(value: int, maximum: int, largeChange: int, delta: int)
    requires 0 <= value <= maximum - largeChange + 1
    ensures 0 <= Wheel(value, maximum, largeChange, delta) <= maximum - largeChange + 1
  {
  }

  /**
    Scrolling to the wheel's last position shows the last packed row in the
    bottom visible row when the scrollbar is enabled.
   */
  lemma LastRowReachable(rowCount: nat, largeChange: int)
    requires largeChange >= 1 && ScrollEnabled(rowCount, largeChange)
    ensures var last := ScrollMaximum(rowCount) - largeChange + 1;
            && last >= 0
            && Wheel(last - 1, ScrollMaximum(rowCount), largeChange, -1) == last
            && Wheel(last, ScrollMaximum(rowCount), largeChange, -1) == last
            && (largeChange - 1) + last == rowCount - 1
  {
  }
}
