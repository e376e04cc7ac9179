/** The algebra of scrolling: what line by line removal and insertion add up
    to, what they leave alone, and what undoes what. */
module ScrollTheorems {
  import opened Basics
  import opened Grid
  import opened Screen

  function RemoveAt<T>(s: seq<T>, i: nat): (r: seq<T>)
    requires i < |s|
    ensures |r| == |s| - 1
  {
    s[..i] + s[i + 1..]
  }

  function InsertAt<T>(s: seq<T>, i: nat, x: T): (r: seq<T>)
    requires i <= |s|
    ensures |r| == |s| + 1
  {
    s[..i] + [x] + s[i..]
  }

  /** A scroll upwards touches no row outside its region; inside, row i comes
      from row i + n, and blanks follow. */
  lemma ShiftUpRow(s: seq<Row>, top: nat, bottom: nat, n: nat, blank: Row, i: nat)
    requires top <= bottom <= |s| && i < |s|
    ensures ShiftUp(s, top, bottom, n, blank)[i]
         == if i < top || bottom <= i then s[i] else if i + n < bottom then s[i + n] else blank
  {
  }

  /** A scroll downwards touches no row outside its region; inside, row i comes
      from row i - n, after the blanks. */
  lemma ShiftDownRow(s: seq<Row>, top: nat, bottom: nat, n: nat, blank: Row, i: nat)
    requires top <= bottom <= |s| && i < |s|
    ensures ShiftDown(s, top, bottom, n, blank)[i]
         == if i < top || bottom <= i then s[i] else if top + n <= i then s[i - n] else blank
  {
  }

  lemma MoveUpRow(s: seq<Row>, top: nat, bottom: nat, x: Row, i: nat)
    requires top < bottom <= |s| && i < |s|
    ensures InsertAt(RemoveAt(s, top), bottom - 1, x)[i]
         == if i < top || bottom <= i then s[i] else if i + 1 < bottom then s[i + 1] else x
  {
  }

  lemma MoveDownRow(s: seq<Row>, top: nat, bottom: nat, x: Row, i: nat)
    requires top < bottom <= |s| && i < |s|
    ensures InsertAt(RemoveAt(s, bottom - 1), top, x)[i]
         == if i < top || bottom <= i then s[i] else if top < i then s[i - 1] else x
  {
  }

  /** Removing the top line of a region and inserting a blank at its bottom,
      once more, is shifting up by one more: for every count. */
  lemma ShiftUpStep(s: seq<Row>, top: nat, bottom: nat, n: nat, blank: Row)
    requires top < bottom <= |s|
    ensures InsertAt(RemoveAt(ShiftUp(s, top, bottom, n, blank), top), bottom - 1, blank)
         == ShiftUp(s, top, bottom, n + 1, blank)
  {
    hide ShiftUp, RemoveAt, InsertAt;
    var before, after := ShiftUp(s, top, bottom, n, blank), ShiftUp(s, top, bottom, n + 1, blank);
    var step := InsertAt(RemoveAt(before, top), bottom - 1, blank);
    forall i | 0 <= i < |s| ensures step[i] == after[i] {
      MoveUpRow(before, top, bottom, blank, i);
      ShiftUpRow(s, top, bottom, n, blank, i);
      ShiftUpRow(s, top, bottom, n + 1, blank, i);
      if i + 1 < |s| {
        ShiftUpRow(s, top, bottom, n, blank, i + 1);
      }
    }
  }

  lemma ShiftDownStep(s: seq<Row>, top: nat, bottom: nat, n: nat, blank: Row)
    requires top < bottom <= |s|
    ensures InsertAt(RemoveAt(ShiftDown(s, top, bottom, n, blank), bottom - 1), top, blank)
         == ShiftDown(s, top, bottom, n + 1, blank)
  {
    hide ShiftDown, RemoveAt, InsertAt;
    var before, after := ShiftDown(s, top, bottom, n, blank), ShiftDown(s, top, bottom, n + 1, blank);
    var step := InsertAt(RemoveAt(before, bottom - 1), top, blank);
    forall i | 0 <= i < |s| ensures step[i] == after[i] {
      MoveDownRow(before, top, bottom, blank, i);
      ShiftDownRow(s, top, bottom, n, blank, i);
      ShiftDownRow(s, top, bottom, n + 1, blank, i);
      if i > 0 {
        ShiftDownRow(s, top, bottom, n, blank, i - 1);
      }
    }
  }

  /** The line a whole-screen scroll removes next is the next one of `Removed`. */
  lemma RemovedStep(s: seq<Row>, n: nat, blank: Row)
    requires |s| > 0
    ensures Removed(s, n + 1, blank) == Removed(s, n, blank) + [ShiftUp(s, 0, |s|, n, blank)[0]]
  {
    var all := s + Repeat(n + 1, blank);
    assert Removed(s, n, blank) == all[..n];
    assert all[n] == ShiftUp(s, 0, |s|, n, blank)[0];
  }

  lemma ShiftNothing(s: seq<Row>, top: nat, bottom: nat, blank: Row)
    requires top <= bottom <= |s|
    ensures ShiftUp(s, top, bottom, 0, blank) == s == ShiftDown(s, top, bottom, 0, blank)
  {
    assert s[..top] + s[top..bottom] + Repeat(0, blank) + s[bottom..] == s;
    assert s[..top] + Repeat(0, blank) + s[top..bottom] + s[bottom..] == s;
  }

  /** Two scrolls are one scroll of the total, whole-screen scrollback
      included: nothing is pushed twice, skipped or reordered in between. */
  lemma ScrollUpAdds(t: Term, m: nat, n: nat)
    requires Valid(t)
    ensures ScrollUp(ScrollUp(t, m), n) == ScrollUp(t, m + n)
  {
    var blank := BlankRow(t.cols);
    hide ShiftUp, Removed, LastN, BlankRow;
    var s := t.screen;
    ShiftUpAdds(s, t.regionTop, t.regionBottom, m, n, blank);
    if WholeScreen(t) {
      var first, second := Removed(s, m, blank), Removed(ShiftUp(s, 0, |s|, m, blank), n, blank);
      RemovedAdds(s, m, n, blank);
      LastNAppend(t.scrollback + first, second, DEFAULT_SCROLLBACK);
      assert t.scrollback + first + second == t.scrollback + Removed(s, m + n, blank);
    }
  }

  lemma ShiftUpAdds(s: seq<Row>, top: nat, bottom: nat, m: nat, n: nat, blank: Row)
    requires top <= bottom <= |s|
    ensures ShiftUp(ShiftUp(s, top, bottom, m, blank), top, bottom, n, blank)
         == ShiftUp(s, top, bottom, m + n, blank)
  {
    hide ShiftUp;
    var once := ShiftUp(s, top, bottom, m, blank);
    var twice, both := ShiftUp(once, top, bottom, n, blank), ShiftUp(s, top, bottom, m + n, blank);
    forall i | 0 <= i < |s| ensures twice[i] == both[i] {
      ShiftUpRow(s, top, bottom, m, blank, i);
      ShiftUpRow(once, top, bottom, n, blank, i);
      ShiftUpRow(s, top, bottom, m + n, blank, i);
      if i + n < bottom {
        ShiftUpRow(s, top, bottom, m, blank, i + n);
      }
    }
  }

  lemma RemovedAdds(s: seq<Row>, m: nat, n: nat, blank: Row)
    ensures Removed(s, m, blank) + Removed(ShiftUp(s, 0, |s|, m, blank), n, blank) == Removed(s, m + n, blank)
  {
    var once := ShiftUp(s, 0, |s|, m, blank);
    hide ShiftUp;
    var l, r := Removed(s, m, blank) + Removed(once, n, blank), Removed(s, m + n, blank);
    forall i | 0 <= i < m + n ensures l[i] == r[i] {
      if m <= i && i - m < |s| {
        ShiftUpRow(s, 0, |s|, m, blank, i - m);
      }
    }
  }

  /** Inserting n lines and deleting them again gives back every row of the
      screen except the last n of the region, which are blank; the cursor has
      gone to column 0. */
  lemma InsertThenDelete(t: Term, n: nat)
    requires Valid(t) && InRegion(t)
    ensures var u := DeleteLines(InsertLines(t, n), n);
            && u == t.(screen := u.screen, cursor := t.cursor.(col := 0))
            && forall i :: 0 <= i < t.rows ==>
                 u.screen[i] == if t.cursor.row <= i && t.regionBottom - n <= i < t.regionBottom
                                then BlankRow(t.cols) else t.screen[i]
  {
    var blank := BlankRow(t.cols);
    var top, bottom := t.cursor.row, t.regionBottom;
    var down := ShiftDown(t.screen, top, bottom, n, blank);
    var up := ShiftUp(down, top, bottom, n, blank);
    hide ShiftUp, ShiftDown, BlankRow;
    forall i | 0 <= i < t.rows
      ensures up[i] == if top <= i && bottom - n <= i < bottom then blank else t.screen[i]
    {
      ShiftUpRow(down, top, bottom, n, blank, i);
      ShiftDownRow(t.screen, top, bottom, n, blank, i);
      if top <= i && i + n < bottom {
        ShiftDownRow(t.screen, top, bottom, n, blank, i + n);
      }
    }
  }

  /** Deleting and inserting the other way round loses the first n lines instead. */
  lemma DeleteThenInsert(t: Term, n: nat)
    requires Valid(t) && InRegion(t)
    ensures var u := InsertLines(DeleteLines(t, n), n);
            && u == t.(screen := u.screen, cursor := t.cursor.(col := 0))
            && forall i :: 0 <= i < t.rows ==>
                 u.screen[i] == if t.cursor.row <= i < t.regionBottom && i < t.cursor.row + n
                                then BlankRow(t.cols) else t.screen[i]
  {
    var blank := BlankRow(t.cols);
    var top, bottom := t.cursor.row, t.regionBottom;
    var up := ShiftUp(t.screen, top, bottom, n, blank);
    var down := ShiftDown(up, top, bottom, n, blank);
    hide ShiftUp, ShiftDown, BlankRow;
    forall i | 0 <= i < t.rows
      ensures down[i] == if top <= i < bottom && i < top + n then blank else t.screen[i]
    {
      ShiftDownRow(up, top, bottom, n, blank, i);
      ShiftUpRow(t.screen, top, bottom, n, blank, i);
      if top + n <= i < bottom {
        ShiftUpRow(t.screen, top, bottom, n, blank, i - n);
      }
    }
  }
}
