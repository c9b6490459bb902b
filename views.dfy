/**
 * The two custom elements of the editor's grids. A `ColumnView` wraps one
 * list-box `select` whose options are the tokens of one lane; a `TableView`
 * lays out several column views side by side and tracks the cell the user is
 * on in its own `#column`/`#row` pair, raising `change` only when that pair
 * moves. DOM lookups of children (`nth-child`, sibling links) become indices
 * into the table's `columns` sequence.
 */
module Views {
  import opened Base

  /**
   * The `selectedIndex` a `select` with `count` options ends up with after the
   * page assigns `n`: the option `n` when it exists, and no selection (-1)
   * otherwise.
   */
  function Clamp(n: int, count: nat): (r: int)
    ensures -1 <= r < count
    ensures r == n <==> -1 <= n < count
    ensures r != n ==> r == -1
  {
    if 0 <= n < count then n else -1
  }

  /**
   * The `selectedIndex` after assigning `value = ''`: the first option whose
   * text is empty, or no selection when there is none.
   */
  function FirstEmpty(options: seq<string>): (r: int)
    ensures -1 <= r < |options|
    ensures r >= 0 ==> options[r] == ""
    ensures forall k :: 0 <= k < |options| && (r == -1 || k < r) ==> options[k] != ""
  {
    if options == [] then -1
    else if options[0] == "" then 0
    else
      var r := FirstEmpty(options[1..]);
      if r == -1 then -1 else r + 1
  }

  /** The fields of a `keydown` event that the column view looks at. */
  datatype KeyEvent = KeyEvent(code: string, key: string, shiftKey: bool)

  /**
   * The direction a key press moves the cursor between columns: -1 for
   * ArrowLeft or Shift+Tab, +1 for ArrowRight or Tab, and `None` for every key
   * that does not navigate.
   */
  function Direction(e: KeyEvent): (d: Option<int>)
    ensures d.Some? <==> e.code == "ArrowLeft" || e.code == "ArrowRight" || e.key == "Tab"
    ensures d.Some? ==> (d.value == -1 <==> e.code == "ArrowLeft" || (e.key == "Tab" && e.shiftKey))
    ensures d.Some? ==> d.value == -1 || d.value == 1
  {
    if e.code == "ArrowLeft" || e.code == "ArrowRight" || e.key == "Tab" then
      Some(if e.code == "ArrowLeft" || (e.key == "Tab" && e.shiftKey) then -1 else 1)
    else
      None
  }

  /** Shift reverses Tab, and does not affect the arrow keys. */
  lemma DirectionShift(e: KeyEvent)
    requires Direction(e).Some?
    ensures e.key != "Tab" ==> Direction(e.(shiftKey := !e.shiftKey)) == Direction(e)
    ensures e.key == "Tab" && e.code != "ArrowLeft" ==>
      Direction(e.(shiftKey := !e.shiftKey)).value == -Direction(e).value
  {
  }

  /** `<column-view>`: one list box of tokens. */
  class ColumnView {
    /** The texts of the `option` elements, top to bottom. */
    var options: seq<string>
    /** The `size` attribute of the `select`. */
    var size: int
    /** `selectedIndex`: the selected option, or -1. */
    var selected: int
    /** The `column` number `TableView.build` gives the views it creates; `None` when never set. */
    var column: Option<int>

    ghost predicate Valid()
      reads this
    {
      size == |options| && -1 <= selected < |options|
    }

    /** The placeholder in the markup: a list box of size 2 with two options "0", nothing selected. */
    constructor ()
      ensures Valid() && options == ["0", "0"] && selected == -1 && column == None
    {
      options := ["0", "0"];
      size := 2;
      selected := -1;
      column := None;
    }

    /** A view created by `TableView.build` and numbered `n` before it is built. */
    constructor Numbered(n: nat)
      ensures Valid() && options == ["0", "0"] && selected == -1 && column == Some(n)
    {
      options := ["0", "0"];
      size := 2;
      selected := -1;
      column := Some(n);
    }

    /** The `value` of the `select`: the selected option's text, or "" with nothing selected. */
    function Value(): (v: string)
      requires Valid()
      reads this
      ensures selected == -1 ==> v == ""
      ensures selected != -1 ==> v == options[selected]
    {
      if selected == -1 then "" else options[selected]
    }

    /**
     * `build(lines)`: the option texts become `lines`. When the list already has
     * `|lines|` options they are rewritten in place, otherwise the list is
     * emptied and refilled. Assigning `value = ''` afterwards leaves selected
     * only an option with empty text, and no option when there is none.
     */
    method Build(lines: seq<string>)
      requires Valid()
      modifies this
      ensures Valid() && options == lines && selected == FirstEmpty(lines)
      ensures column == old(column)
    {
      if size == |lines| {
        var n := 0;
        while n < |lines|
          invariant 0 <= n <= |lines| == |options| == size
          invariant options == lines[..n] + old(options)[n..]
          invariant -1 <= selected < |options| && column == old(column)
        {
          options := options[n := lines[n]];
          n := n + 1;
        }
      } else {
        options := [];
        selected := -1;
        var n := 0;
        while n < |lines|
          invariant 0 <= n <= |lines| && options == lines[..n]
          invariant selected == -1 && column == old(column)
        {
          options := options + [lines[n]];
          n := n + 1;
        }
        size := |lines|;
      }
      selected := FirstEmpty(options);
    }

    /** `select(n)`: assigns `selectedIndex`. */
    method Select(n: int)
      requires Valid()
      modifies this
      ensures Valid() && selected == Clamp(n, |options|)
      ensures options == old(options) && column == old(column)
    {
      selected := Clamp(n, |options|);
    }

    /**
     * The user picks option `n`. The browser fires `change` only when the
     * selection moves, and the view passes it on; `changed` says whether it did.
     */
    method Pick(n: nat) returns (changed: bool)
      requires Valid() && n < |options|
      modifies this
      ensures Valid() && selected == n
      ensures options == old(options) && column == old(column)
      ensures changed <==> n != old(selected)
    {
      changed := n != selected;
      selected := n;
    }

    /**
     * The focus handler, once its animation frame runs: when the value is
     * empty it selects option 0 and raises `change`; `changed` says whether it
     * did. (A `focus` event follows in every case.)
     */
    method Focused() returns (changed: bool)
      requires Valid()
      modifies this
      ensures Valid() && options == old(options) && column == old(column)
      ensures changed <==> old(Value()) == ""
      ensures !changed ==> unchanged(this)
      ensures selected == if changed then Clamp(0, |options|) else old(selected)
    {
      changed := Value() == "";
      if changed {
        Select(0);
      }
    }
  }

  /** `<table-view>`: column views side by side and the cell the user is on. */
  class TableView {
    /** The column views, in document order. */
    var columns: seq<ColumnView>
    /** `#column`: the `column` number of the last activated view; `None` is `undefined`. */
    var column: Option<int>
    /** `#row`: the selection of the last activated view. */
    var row: int
    /** The index of the view carrying the `active` class, or -1. */
    var active: int
    /** The option texts of each view, in order. */
    ghost var Lines: seq<seq<string>>
    /** The `column` number of each view, in order. */
    ghost var Numbers: seq<Option<int>>
    /** The selection of each view, in order. */
    ghost var Cursor: seq<int>
    ghost var Repr: set<object>

    ghost predicate Valid()
      reads this, Repr
    {
      this in Repr && |Lines| == |Numbers| == |Cursor| == |columns| &&
      (forall k :: 0 <= k < |columns| ==>
        columns[k] in Repr && columns[k].Valid() && columns[k].options == Lines[k] &&
        columns[k].column == Numbers[k] && columns[k].selected == Cursor[k]) &&
      (forall j, k :: 0 <= j < k < |columns| ==> columns[j] != columns[k]) &&
      (forall k :: 0 <= k < |Numbers| ==> Numbers[k] == None || Numbers[k] == Some(k)) &&
      (column.Some? && 0 <= column.value < |Numbers| ==> Numbers[column.value] == column) &&
      -1 <= active < |columns|
    }

    /**
     * From the old state to this one the table has the same views, each
     * keeping its options and its number, and every view other than the one at
     * index `i` keeping its selection (read through `Valid`, which ties the
     * ghost records to the views).
     */
    twostate predicate Kept(i: int)
      reads this
    {
      columns == old(columns) && Lines == old(Lines) && Numbers == old(Numbers) && |Cursor| == |old(Cursor)| &&
      forall k :: 0 <= k < |Cursor| && k != i ==> Cursor[k] == old(Cursor[k])
    }

    /**
     * Column `k` shows the lines of `lanes[k]`, its cursor on the first empty
     * line, or on none when no line is empty.
     */
    ghost predicate Shows(lanes: seq<seq<string>>)
      reads this
    {
      |columns| == |Cursor| == |lanes| && Lines == lanes &&
      forall k :: 0 <= k < |lanes| ==> Cursor[k] == FirstEmpty(lanes[k])
    }

    /** The markup: one placeholder column view, and `#column` and `#row` at -1. */
    constructor ()
      ensures Valid() && fresh(Repr)
      ensures |columns| == 1 && columns[0].options == ["0", "0"] && columns[0].selected == -1 && columns[0].column == None
      ensures column == Some(-1) && row == -1 && active == -1
    {
      var c := new ColumnView();
      columns := [c];
      column := Some(-1);
      row := -1;
      active := -1;
      Lines, Numbers, Cursor := [c.options], [c.column], [c.selected];
      Repr := {this, c};
    }

    /**
     * The `row` getter: the selection of the child numbered `#column + 1` by
     * `nth-child`, or -1 when there is no such child. With `#column` undefined
     * the selector is malformed and the getter throws, which is `None`.
     */
    function Row(): (r: Option<int>)
      reads this, columns
      ensures r.None? <==> column.None?
      ensures column.Some? && 0 <= column.value < |columns| ==> r == Some(columns[column.value].selected)
      ensures column.Some? && !(0 <= column.value < |columns|) ==> r == Some(-1)
    {
      match column
      case None => None
      case Some(k) => if 0 <= k < |columns| then Some(columns[k].selected) else Some(-1)
    }

    /**
     * `#activate(c)` for the view at index `i`: `#row` always follows it, while
     * `#column` and the `active` marker move to it only when its `column`
     * number differs from `#column`.
     */
    method Activate(i: nat)
      requires Valid() && i < |columns|
      modifies this
      ensures Valid() && columns == old(columns) && Repr == old(Repr)
      ensures Lines == old(Lines) && Numbers == old(Numbers) && Cursor == old(Cursor)
      ensures column == columns[i].column && row == columns[i].selected
      ensures active == if old(column) == columns[i].column then old(active) else i
    {
      row := columns[i].selected;
      if column != columns[i].column {
        column := columns[i].column;
        active := i;
      }
    }

    /**
     * `#change(e)` for an event from the view at index `i`: it activates the
     * view and raises `change` exactly when the view's (`column`, `row`)
     * differs from the stored pair; either way the stored pair is the view's
     * afterwards, and without a change nothing moves.
     */
    method Change(i: nat) returns (raised: bool)
      requires Valid() && i < |columns|
      modifies this
      ensures Valid() && columns == old(columns) && Repr == old(Repr)
      ensures Lines == old(Lines) && Numbers == old(Numbers) && Cursor == old(Cursor)
      ensures raised <==> columns[i].column != old(column) || columns[i].selected != old(row)
      ensures column == columns[i].column && row == columns[i].selected
      ensures active == if old(column) == columns[i].column then old(active) else i
      ensures !raised ==> column == old(column) && row == old(row) && active == old(active)
    {
      raised := columns[i].column != column || columns[i].selected != row;
      if raised {
        Activate(i);
      }
    }

    /**
     * `select(row, column)`: a missing or NaN column, or one with no child at
     * that position, changes nothing; otherwise that view selects `r` and is
     * activated. It never raises `change`.
     */
    method Select(r: int, c: Option<int>)
      requires Valid()
      modifies Repr
      ensures Valid() && columns == old(columns) && Repr == old(Repr)
      ensures c.None? || !(0 <= c.value < |columns|) ==>
        Kept(-1) && column == old(column) && row == old(row) && active == old(active)
      ensures c.Some? && 0 <= c.value < |columns| ==>
        Kept(c.value) && columns[c.value].selected == Clamp(r, |columns[c.value].options|) &&
        column == columns[c.value].column && row == columns[c.value].selected &&
        active == (if old(column) == columns[c.value].column then old(active) else c.value)
    {
      if c.None? {
        return;
      }
      var k := c.value;
      if 0 <= k < |columns| {
        columns[k].Select(r);
        Cursor := Cursor[k := columns[k].selected];
        Activate(k);
      }
    }

    /**
     * The user picks option `n` of the view at index `i`. When the selection
     * moves, the view's `change` reaches `#change`; `raised` says whether the
     * table raised its own `change`.
     */
    method Pick(i: nat, n: nat) returns (raised: bool)
      requires Valid() && i < |columns| && n < |columns[i].options|
      modifies Repr
      ensures Valid() && columns == old(columns) && Repr == old(Repr)
      ensures Kept(i) && columns[i].selected == n
      ensures raised <==> n != old(columns[i].selected) && (columns[i].column != old(column) || n != old(row))
      ensures raised ==> column == columns[i].column && row == n
      ensures raised ==> active == if old(column) == columns[i].column then old(active) else i
      ensures !raised ==> column == old(column) && row == old(row) && active == old(active)
    {
      var changed := columns[i].Pick(n);
      Cursor := Cursor[i := n];
      raised := false;
      if changed {
        raised := Change(i);
      }
    }

    /**
     * The focus handler of the view at index `i`, once its animation frame
     * runs: the view's `change` (when it selected option 0) and its `focus`
     * both reach `#change`. The table raises `change` at most once, exactly
     * when the view's pair differs from the stored one, and afterwards the
     * stored pair is the view's.
     */
    method Focus(i: nat) returns (raised: nat)
      requires Valid() && i < |columns|
      modifies Repr
      ensures Valid() && columns == old(columns) && Repr == old(Repr)
      ensures Kept(i)
      ensures columns[i].selected == if old(columns[i].Value()) == "" then Clamp(0, |columns[i].options|) else old(columns[i].selected)
      ensures raised <= 1
      ensures raised == 1 <==> columns[i].column != old(column) || columns[i].selected != old(row)
      ensures column == columns[i].column && row == columns[i].selected
      ensures active == if old(column) == columns[i].column then old(active) else i
      ensures raised == 0 ==> active == old(active)
    {
      raised := 0;
      var changed := columns[i].Focused();
      Cursor := Cursor[i := columns[i].selected];
      if changed {
        var first := Change(i);
        if first {
          raised := raised + 1;
        }
      }
      var second := Change(i);
      if second {
        raised := raised + 1;
      }
    }

    /**
     * The `Navigate` handler for an event from the view at index `i` carrying
     * `direction` and that view's selection `n`: when there is a neighbour in
     * that direction, the event is blocked, the neighbour selects `n`, and its
     * `change` reaches `#change`; otherwise nothing happens and the event is
     * not blocked.
     */
    method Navigate(i: nat, direction: int, n: int) returns (blocked: bool, raised: bool)
      requires Valid() && i < |columns|
      modifies Repr
      ensures Valid() && columns == old(columns) && Repr == old(Repr)
      ensures var p := if direction > 0 then i + 1 else i - 1;
        (blocked <==> 0 <= p < |columns|) &&
        (blocked ==>
          Kept(p) && columns[p].selected == Clamp(n, |columns[p].options|) &&
          column == columns[p].column && row == columns[p].selected &&
          active == (if old(column) == columns[p].column then old(active) else p) &&
          (raised <==> columns[p].column != old(column) || columns[p].selected != old(row))) &&
        (!blocked ==>
          !raised && Kept(-1) &&
          column == old(column) && row == old(row) && active == old(active))
    {
      var p := if direction > 0 then i + 1 else i - 1;
      blocked := 0 <= p < |columns|;
      raised := false;
      if blocked {
        columns[p].Select(n);
        Cursor := Cursor[p := columns[p].selected];
        raised := Change(p);
      }
    }

    /**
     * The `keydown` handler of the view at index `i`, seen from the table: a
     * key that does not navigate is let through; a navigation key sends
     * `Navigate` with the view's selection, and the default action is allowed
     * exactly when the move was not blocked.
     */
    method KeyDown(i: nat, e: KeyEvent) returns (allowDefault: bool, raised: bool)
      requires Valid() && i < |columns|
      modifies Repr
      ensures Valid() && columns == old(columns) && Repr == old(Repr)
      ensures Direction(e).None? ==> allowDefault
      ensures Direction(e).None? || allowDefault ==>
        !raised && Kept(-1) && column == old(column) && row == old(row) && active == old(active)
      ensures Direction(e).Some? ==>
        var p := i + Direction(e).value;
        (allowDefault <==> !(0 <= p < |columns|)) &&
        (!allowDefault ==>
          Kept(p) && columns[p].selected == Clamp(old(columns[i].selected), |columns[p].options|) &&
          column == columns[p].column && row == columns[p].selected &&
          active == (if old(column) == columns[p].column then old(active) else p) &&
          (raised <==> columns[p].column != old(column) || columns[p].selected != old(row)))
    {
      var d := Direction(e);
      if d.None? {
        return true, false;
      }
      var blocked;
      blocked, raised := Navigate(i, d.value, columns[i].selected);
      allowDefault := !blocked;
    }

    /**
     * `build(array)` on `lanes`: `#column` and `#row` go back to -1, and column `n` shows
     * `lanes[n]`. With as many views as lanes the views are rebuilt in place and
     * keep their numbers and the `active` marker; otherwise they are replaced by
     * fresh views numbered 0 to `|lanes| - 1`.
     */
    method Build(lanes: seq<seq<string>>)
      requires Valid()
      modifies Repr
      ensures Valid() && fresh(Repr - old(Repr))
      ensures Shows(lanes)
      ensures column == Some(-1) && row == -1 && Row() == Some(-1)
      ensures |lanes| == old(|columns|) ==> columns == old(columns) && active == old(active) && Numbers == old(Numbers)
      ensures |lanes| != old(|columns|) ==> active == -1 && forall k :: 0 <= k < |Numbers| ==> Numbers[k] == Some(k)
    {
      column := Some(-1);
      row := -1;
      if |lanes| == |columns| {
        Refill(lanes);
      } else {
        Replace(lanes);
      }
    }

    /** The first branch of `build`: each view is rebuilt in place. */
    method Refill(lanes: seq<seq<string>>)
      requires Valid() && |lanes| == |columns|
      modifies Repr
      ensures Valid() && columns == old(columns) && Repr == old(Repr)
      ensures column == old(column) && row == old(row) && active == old(active)
      ensures Shows(lanes) && Numbers == old(Numbers)
    {
      var n := 0;
      while n < |lanes|
        invariant 0 <= n <= |lanes| == |columns|
        invariant Valid() && columns == old(columns) && Repr == old(Repr)
        invariant column == old(column) && row == old(row) && active == old(active)
        invariant Numbers == old(Numbers)
        invariant forall k :: 0 <= k < n ==> Lines[k] == lanes[k] && Cursor[k] == FirstEmpty(lanes[k])
      {
        Rebuild(n, lanes[n]);
        n := n + 1;
      }
      assert Lines == lanes;
    }

    /** One pass of that loop: view `n` is rebuilt from `line`, and no other view changes. */
    method Rebuild(n: nat, line: seq<string>)
      requires Valid() && n < |columns|
      modifies this, columns[n]
      ensures Valid() && columns == old(columns) && Repr == old(Repr)
      ensures column == old(column) && row == old(row) && active == old(active)
      ensures Lines == old(Lines)[n := line] && Numbers == old(Numbers)
      ensures Cursor == old(Cursor)[n := FirstEmpty(line)]
    {
      columns[n].Build(line);
      Lines, Cursor := Lines[n := line], Cursor[n := columns[n].selected];
    }

    /** The second branch of `build`: the views are replaced by fresh ones numbered 0 to `|lanes| - 1`. */
    method Replace(lanes: seq<seq<string>>)
      requires Valid()
      modifies this
      ensures Valid() && fresh(Repr - {this})
      ensures column == old(column) && row == old(row) && active == -1
      ensures Shows(lanes)
      ensures forall k :: 0 <= k < |Numbers| ==> Numbers[k] == Some(k)
    {
      columns := [];
      active := -1;
      Lines, Numbers, Cursor := [], [], [];
      Repr := {this};
      var n := 0;
      while n < |lanes|
        invariant 0 <= n <= |lanes| && |columns| == n
        invariant Valid() && fresh(Repr - {this})
        invariant column == old(column) && row == old(row) && active == -1
        invariant forall k :: 0 <= k < n ==>
          Lines[k] == lanes[k] && Cursor[k] == FirstEmpty(lanes[k]) && Numbers[k] == Some(k)
      {
        Append(lanes[n]);
        n := n + 1;
      }
      assert Lines == lanes;
    }

    /** One pass of that loop: a fresh view numbered `|columns|` is built from `line` and added at the end. */
    method Append(line: seq<string>)
      requires Valid()
      modifies this
      ensures Valid() && fresh(Repr - old(Repr))
      ensures |columns| == old(|columns|) + 1 && columns[..old(|columns|)] == old(columns)
      ensures Lines == old(Lines) + [line] && Numbers == old(Numbers) + [Some(old(|columns|))]
      ensures Cursor == old(Cursor) + [FirstEmpty(line)]
      ensures column == old(column) && row == old(row) && active == old(active)
    {
      var c := NewView(|columns|, line);
      columns, Repr := columns + [c], Repr + {c};
      Lines, Numbers, Cursor := Lines + [line], Numbers + [Some(|columns| - 1)], Cursor + [c.selected];
      if column.Some? && column.value == |columns| - 1 {
        assert Numbers[column.value] == column;
      }
    }

    /** The body of one pass: `createElement`, the number, then `build`. */
    static method NewView(n: nat, line: seq<string>) returns (c: ColumnView)
      ensures fresh(c) && c.Valid()
      ensures c.options == line && c.column == Some(n) && c.selected == FirstEmpty(line)
    {
      c := new ColumnView.Numbered(n);
      c.Build(line);
    }
  }
}
