/**
 * `<hex-editor>`: a window of `columns * segments * rows` bytes of a file,
 * shown as a gutter of offset labels beside a hex grid and a text grid, with
 * the cursor kept on the same row in all three. The file read is a slice of
 * the file's bytes; the three views are the `Views` state machines.
 */
module Editor {
  import opened Base
  import opened HexText
  import Format
  import opened Views

  /** A JavaScript number used as a byte offset: a natural number, or NaN. */
  datatype Offset = At(n: nat) | NaN

  /** `#config`. */
  datatype Config = Config(columns: nat, segments: nat, rows: nat, offset: Offset)

  /** The options `configure` reads; a missing one is `None`. */
  datatype Options = Options(columns: Option<nat>, segments: Option<nat>, rows: Option<nat>)

  /** What `jump` does: it fails without a file, declines a target past the end, or moves the window. */
  datatype Jumped = NoFile | Declined | Moved(to: Offset)

  /** The label `rows` writes for a NaN offset: "NaN", padded and upper-cased. */
  const NaNLabel: string := Upper(PadStart("NaN", 8, '0'))

  lemma NaNLabelIs()
    ensures NaNLabel == "00000NAN"
  {
    assert PadStart("NaN", 8, '0') == "00000NaN";
  }

  /**
   * The bytes `update` reads: `file.slice(offset, offset + size)`. The slice is
   * clipped to the file, and a NaN offset reads nothing.
   */
  function Window(file: seq<Byte>, offset: Offset, size: nat): (w: seq<Byte>)
    ensures |w| <= size
    ensures offset.NaN? ==> w == []
    ensures offset.At? ==> |w| == Min(size, Max(0, |file| - offset.n))
    ensures offset.At? ==> forall k :: 0 <= k < |w| ==> w[k] == file[offset.n + k]
  {
    match offset
    case NaN => []
    case At(n) => file[Min(n, |file|)..Min(n + size, |file|)]
  }

  /** The gutter labels of a window: `rows` labels from `offset`, or "00000NAN" throughout for NaN. */
  function GutterLabels(offset: Offset, columns: nat, segments: nat, rows: nat): (r: seq<string>)
    ensures |r| == rows
  {
    match offset
    case NaN => seq(rows, _ => NaNLabel)
    case At(n) => Format.Labels(n, columns * segments, rows)
  }

  /** No gutter label is empty, so building the gutter leaves nothing selected. */
  lemma GutterLabelsFilled(offset: Offset, columns: nat, segments: nat, rows: nat)
    ensures FirstEmpty(GutterLabels(offset, columns, segments, rows)) == -1
  {
    var labels := GutterLabels(offset, columns, segments, rows);
    forall k | 0 <= k < rows
      ensures labels[k] != ""
    {
      match offset
      case NaN =>
        NaNLabelIs();
      case At(n) =>
        Format.LabelsAt(n, columns * segments, rows, k);
        LabelSpec(Format.RowStart(n, columns * segments, k));
    }
  }

  /** `Math.ceil(a / b)` for naturals. */
  function CeilDiv(a: nat, b: nat): nat
    requires b > 0
  {
    (a + b - 1) / b
  }

  lemma CeilDivBounds(a: nat, b: nat)
    requires b > 0
    ensures CeilDiv(a, b) * b >= a
    ensures (CeilDiv(a, b) - 1) * b < a || a == 0
    ensures a == 0 ==> CeilDiv(a, b) == 0
  {
    var q := CeilDiv(a, b);
    var s := a + b - 1;
    assert s == (s / b) * b + s % b;
    assert 0 <= s % b < b;
    assert q * b == s - s % b;
    assert (q - 1) * b == q * b - b;
  }

  /**
   * The scroll handler's offset for a scroll position of `top` out of `height`
   * pixels over a file of `size` bytes: `ceil(size * top / height / W) * W`
   * with `W = columns * segments`, which is NaN when `W` is 0.
   */
  function ScrollOffset(size: nat, top: nat, height: nat, columns: nat, segments: nat): Offset
    requires height > 0
  {
    var w := columns * segments;
    if w == 0 then NaN else At(CeilDiv(size * top, height * w) * w)
  }

  /**
   * The scroll offset starts a row, lies at or after the scrolled fraction of
   * the file, and less than one row after it.
   */
  lemma ScrollOffsetBounds(size: nat, top: nat, height: nat, columns: nat, segments: nat)
    requires height > 0
    ensures var w := columns * segments;
      var o := ScrollOffset(size, top, height, columns, segments);
      (o.NaN? <==> w == 0) &&
      (o.At? ==>
        o.n % w == 0 &&
        o.n * height >= size * top &&
        (o.n == 0 || (o.n - w) * height < size * top))
  {
    var w := columns * segments;
    if w > 0 {
      var a, b := size * top, height * w;
      var q := CeilDiv(a, b);
      CeilDivBounds(a, b);
      MultipleMod(q, w);
      Rescale(q, w, height);
    }
  }

  /** `q` rows of `w` bytes, scaled by `height`, and the same one row earlier. */
  lemma Rescale(q: nat, w: nat, height: nat)
    ensures (q * w) * height == q * (height * w)
    ensures (q * w - w) * height == (q - 1) * (height * w)
  {
    var p := q * w;
    assert (p - w) * height == p * height - w * height;
    assert (q - 1) * (height * w) == q * (height * w) - height * w;
  }

  /** A window over a file of 10 bytes and rows of 8 can be scrolled to offset 16, past the end. */
  lemma ScrollPastEnd()
    ensures ScrollOffset(10, 9, 10, 4, 2) == At(16)
  {
  }

  /** `jump`'s target: `floor(i / W) * W` with `W = columns * segments`, NaN when `i` or the result is NaN. */
  function JumpTarget(i: Option<nat>, columns: nat, segments: nat): Offset {
    var w := columns * segments;
    if i.None? || w == 0 then NaN else At(i.value / w * w)
  }

  /** The jump target is the start of the row holding byte `i`. */
  lemma JumpTargetBounds(i: nat, columns: nat, segments: nat)
    ensures var w := columns * segments;
      var o := JumpTarget(Some(i), columns, segments);
      (o.NaN? <==> w == 0) &&
      (o.At? ==> o.n % w == 0 && o.n <= i < o.n + w)
  {
    var w := columns * segments;
    if w > 0 {
      RowOf(i, w);
    }
  }

  lemma RowOf(i: nat, w: nat)
    requires w > 0
    ensures (i / w * w) % w == 0 && i / w * w <= i < i / w * w + w
  {
    var q, r := i / w, i % w;
    var p := q * w;
    assert i == p + r;
    MultipleMod(q, w);
  }

  /** A multiple of `w` leaves no remainder. */
  lemma MultipleMod(q: nat, w: nat)
    requires w > 0
    ensures (q * w) % w == 0
  {
    var d, m := (q * w) / w, (q * w) % w;
    assert q * w == d * w + m;
    var e := q - d;
    assert e * w == m by {
      assert q * w - d * w == (q - d) * w;
    }
    MulSign(e, w);
  }

  /** A product with a positive `w` is at least `w` away from 0 unless the other factor is 0. */
  lemma MulSign(k: int, w: nat)
    requires w > 0
    ensures k >= 1 ==> k * w >= w
    ensures k <= -1 ==> k * w + w <= 0
  {
    if k >= 1 {
      AtLeastOnce(k, w);
    } else if k <= -1 {
      AtLeastOnce(-k, w);
      assert k * w == -((-k) * w);
    }
  }

  /** One or more copies of `w` add up to at least `w`. */
  lemma {:induction false} AtLeastOnce(k: nat, w: nat)
    requires k >= 1
    ensures k * w >= w
  {
    if k > 1 {
      AtLeastOnce(k - 1, w);
      assert k * w == (k - 1) * w + w;
    }
  }

  /** `<hex-editor>`. */
  class HexEditor {
    const gutter: ColumnView
    const hview: TableView
    const bview: TableView
    var config: Config
    /** `#file`: the bytes of the bound file, if any. */
    var file: Option<seq<Byte>>
    ghost var Repr: set<object>

    ghost predicate Valid()
      reads this, Repr
    {
      this in Repr && gutter in Repr && hview in Repr && bview in Repr &&
      hview.Repr <= Repr && bview.Repr <= Repr &&
      hview.Repr !! bview.Repr && gutter !in hview.Repr && gutter !in bview.Repr &&
      this !in hview.Repr && this !in bview.Repr &&
      gutter.Valid() && hview.Valid() && bview.Valid() &&
      Aligned()
    }

    /**
     * The two grids have the same columns, numbered alike, with as many options
     * in each column of one as in the same column of the other, and no column
     * longer than the gutter.
     */
    ghost predicate Aligned()
      reads this, gutter, hview, bview
    {
      |hview.Lines| == |bview.Lines| > 0 && hview.Numbers == bview.Numbers &&
      forall k :: 0 <= k < |hview.Lines| ==> |hview.Lines[k]| == |bview.Lines[k]| <= |gutter.options|
    }

    /**
     * The views show the window of the bound file at `o` under the current
     * configuration, with no cursor anywhere.
     */
    ghost predicate Shows(o: Offset)
      requires file.Some?
      reads this, gutter, hview, bview, hview.columns, bview.columns
    {
      var w := Window(file.value, o, config.columns * config.segments * config.rows);
      var t := Format.Width(config.columns, config.segments);
      config.offset == o &&
      gutter.options == GutterLabels(o, config.columns, config.segments, config.rows) &&
      gutter.selected == -1 &&
      hview.Shows(Format.Lanes(Format.Hex(w), t)) &&
      bview.Shows(Format.Lanes(Format.Bin(w), t)) &&
      hview.Row() == Some(-1) && bview.Row() == Some(-1)
    }

    /** The element as created: default configuration, no file, and the placeholder views of the markup. */
    constructor ()
      ensures Valid() && fresh(Repr)
      ensures config == Config(4, 2, 20, At(0)) && file.None?
      ensures gutter.options == ["0", "0"] && gutter.selected == -1 && gutter.column.None?
      ensures |hview.columns| == |bview.columns| == 1
      ensures hview.columns[0].column.None? && bview.columns[0].column.None?
      ensures hview.columns[0].options == bview.columns[0].options == ["0", "0"]
      ensures hview.Row() == Some(-1) && bview.Row() == Some(-1)
    {
      var g := new ColumnView();
      var h := new TableView();
      var b := new TableView();
      assert h.Repr !! b.Repr && g !in h.Repr && g !in b.Repr;
      gutter, hview, bview := g, h, b;
      config := Config(4, 2, 20, At(0));
      file := None;
      new;
      Repr := {this, gutter} + hview.Repr + bview.Repr;
      assert fresh(Repr);
      assert gutter.Valid() && hview.Valid() && bview.Valid();
      assert |hview.columns| == |bview.columns| == 1 && |gutter.options| == 2;
      assert Aligned();
    }

    /** `configure(options)`: each of the three sizes comes from the options or its default; the offset stays. */
    method Configure(options: Options)
      requires Valid()
      modifies this
      ensures Valid() && Repr == old(Repr) && file == old(file)
      ensures config == Config(options.columns.GetOr(4), options.segments.GetOr(2), options.rows.GetOr(20), old(config.offset))
    {
      config := config.(columns := options.columns.GetOr(4), segments := options.segments.GetOr(2), rows := options.rows.GetOr(20));
    }

    /** `source(file)`: binds the file, without reading it. */
    method Source(f: seq<Byte>)
      requires Valid()
      modifies this
      ensures Valid() && Repr == old(Repr) && config == old(config) && file == Some(f)
    {
      file := Some(f);
    }

    /** The gutter labels for offset `o`, as `rows` computes them. */
    method Labels(o: Offset) returns (labels: seq<string>)
      ensures labels == GutterLabels(o, config.columns, config.segments, config.rows)
    {
      match o
      case NaN =>
        labels := seq(config.rows, _ => NaNLabel);
      case At(n) =>
        labels := Format.Rows(n, config.columns, config.segments, config.rows);
    }

    /**
     * `update(offset)`; `None` stands for the default argument, the current
     * offset. Without a file nothing happens. Otherwise the offset is stored,
     * the window is read, and the three views are rebuilt to show it.
     */
    method Update(offset: Option<Offset>)
      requires Valid()
      modifies Repr
      ensures Valid() && fresh(Repr - old(Repr)) && file == old(file)
      ensures old(file).None? ==> Repr == old(Repr) && unchanged(Repr)
      ensures old(file).Some? ==>
        config == old(config).(offset := offset.GetOr(old(config.offset))) &&
        Shows(offset.GetOr(old(config.offset)))
    {
      if file.None? {
        return;
      }
      var o := offset.GetOr(config.offset);
      config := config.(offset := o);
      Refresh();
    }

    /** The body of `update` once the offset is stored: the window is read and the views rebuilt. */
    method Refresh()
      requires Valid() && file.Some?
      modifies Repr
      ensures Valid() && fresh(Repr - old(Repr)) && file == old(file) && config == old(config)
      ensures Shows(config.offset)
    {
      var size := config.columns * config.segments * config.rows;
      var bytes := Window(file.value, config.offset, size);
      Relabel();
      Redraw(bytes);
      Repr := Repr + hview.Repr + bview.Repr;
      Settled(bytes);
    }

    /** Rebuilt views that show one window, each valid and apart from the others, make a valid editor showing it. */
    lemma Settled(bytes: seq<Byte>)
      requires file.Some? && bytes == Window(file.value, config.offset, config.columns * config.segments * config.rows)
      requires this in Repr && gutter in Repr && hview.Repr <= Repr && bview.Repr <= Repr
      requires hview.Repr !! bview.Repr && gutter !in hview.Repr && gutter !in bview.Repr
      requires this !in hview.Repr && this !in bview.Repr
      requires gutter.Valid() && hview.Valid() && bview.Valid()
      requires gutter.options == GutterLabels(config.offset, config.columns, config.segments, config.rows)
      requires gutter.selected == -1
      requires hview.Shows(Format.Lanes(Format.Hex(bytes), Format.Width(config.columns, config.segments)))
      requires bview.Shows(Format.Lanes(Format.Bin(bytes), Format.Width(config.columns, config.segments)))
      requires hview.Row() == Some(-1) && bview.Row() == Some(-1)
      requires |hview.columns| == |bview.columns| > 0
      requires hview.Numbers == bview.Numbers
      ensures Valid() && Shows(config.offset)
    {
      Rebuilt(bytes);
    }

    /** The gutter rebuild of `update`: the labels of the window's rows, none selected. */
    method Relabel()
      requires gutter.Valid()
      modifies gutter
      ensures gutter.Valid() && gutter.column == old(gutter.column)
      ensures gutter.options == GutterLabels(config.offset, config.columns, config.segments, config.rows)
      ensures gutter.selected == -1
    {
      var labels := Labels(config.offset);
      gutter.Build(labels);
      GutterLabelsFilled(config.offset, config.columns, config.segments, config.rows);
    }

    /** The two grid rebuilds of `update`: the hex grid, then the text grid, from one window. */
    method Redraw(bytes: seq<Byte>)
      requires hview.Valid() && bview.Valid()
      requires hview.Repr !! bview.Repr && gutter !in hview.Repr && gutter !in bview.Repr
      requires this !in hview.Repr && this !in bview.Repr
      requires |hview.columns| == |bview.columns|
      requires hview.Numbers == bview.Numbers
      modifies hview.Repr, bview.Repr
      ensures hview.Valid() && bview.Valid()
      ensures fresh(hview.Repr - old(hview.Repr)) && fresh(bview.Repr - old(bview.Repr))
      ensures hview.Repr !! bview.Repr && gutter !in hview.Repr && gutter !in bview.Repr
      ensures this !in hview.Repr && this !in bview.Repr
      ensures hview.Shows(Format.Lanes(Format.Hex(bytes), Format.Width(config.columns, config.segments)))
      ensures bview.Shows(Format.Lanes(Format.Bin(bytes), Format.Width(config.columns, config.segments)))
      ensures hview.Row() == Some(-1) && bview.Row() == Some(-1)
      ensures |hview.columns| == |bview.columns| > 0
      ensures hview.Numbers == bview.Numbers
    {
      var hex, bin := Panes(bytes);
      ghost var kept := |hex| == |hview.columns|;
      label grids:
      hview.Build(hex);
      assert hview.Repr !! bview.Repr && gutter !in hview.Repr && this !in hview.Repr;
      assert bview.Valid();
      assert kept ==> hview.Numbers == old@grids(bview.Numbers);
      bview.Build(bin);
      assert hview.Repr !! bview.Repr && gutter !in bview.Repr && this !in bview.Repr;
      assert hview.Valid();
    }

    /** The hex and text tokens of a window, each shaped into the grid's lanes. */
    method Panes(bytes: seq<Byte>) returns (hex: seq<seq<string>>, bin: seq<seq<string>>)
      ensures hex == Format.Lanes(Format.Hex(bytes), Format.Width(config.columns, config.segments))
      ensures bin == Format.Lanes(Format.Bin(bytes), Format.Width(config.columns, config.segments))
    {
      hex := Format.Shape(Format.Hex(bytes), config.columns, config.segments);
      bin := Format.Shape(Format.Bin(bytes), config.columns, config.segments);
    }

    /** The grids built from one window stay aligned with each other and with the gutter. */
    lemma Rebuilt(bytes: seq<Byte>)
      requires |bytes| <= config.columns * config.segments * config.rows
      requires |gutter.options| == config.rows
      requires hview.Shows(Format.Lanes(Format.Hex(bytes), Format.Width(config.columns, config.segments)))
      requires bview.Shows(Format.Lanes(Format.Bin(bytes), Format.Width(config.columns, config.segments)))
      requires |hview.columns| > 0
      requires hview.Numbers == bview.Numbers
      ensures Aligned()
    {
      var t := Format.Width(config.columns, config.segments);
      assert |bytes| <= t * config.rows by {
        if config.columns * config.segments == 0 {
          assert |bytes| == 0;
        }
      }
      Format.LanesAligned(Format.Hex(bytes), Format.Bin(bytes), t, config.rows);
    }

    /**
     * `jump(offset)` for an already parsed target (`None` is NaN): a target
     * past the end of the file is declined; NaN is not, and moves the window to
     * NaN; any other target moves the window to the start of its row.
     */
    method Jump(query: Option<nat>) returns (result: Jumped)
      requires Valid()
      modifies Repr
      ensures Valid() && fresh(Repr - old(Repr)) && file == old(file)
      ensures old(file).None? ==> result == NoFile && Repr == old(Repr) && unchanged(Repr)
      ensures old(file).Some? && query.Some? && query.value > |old(file).value| ==>
        result == Declined && Repr == old(Repr) && unchanged(Repr)
      ensures old(file).Some? && (query.None? || query.value <= |old(file).value|) ==>
        var to := JumpTarget(query, old(config.columns), old(config.segments));
        result == Moved(to) && config == old(config).(offset := to) && Shows(to)
    {
      if file.None? {
        return NoFile;
      }
      if query.Some? && query.value > |file.value| {
        return Declined;
      }
      var to := JumpTarget(query, config.columns, config.segments);
      Update(Some(to));
      result := Moved(to);
    }

    /**
     * The scroll handler, for a scroll position of `top` out of a scroll height
     * of `height` pixels: the window moves to the row-aligned offset for that
     * fraction of the file. Without a file the handler fails before changing
     * anything.
     */
    method Scroll(top: nat, height: nat)
      requires Valid() && height > 0
      modifies Repr
      ensures Valid() && fresh(Repr - old(Repr)) && file == old(file)
      ensures old(file).None? ==> Repr == old(Repr) && unchanged(Repr)
      ensures old(file).Some? ==>
        var to := ScrollOffset(|old(file).value|, top, height, old(config.columns), old(config.segments));
        config == old(config).(offset := to) && Shows(to)
    {
      if file.None? {
        return;
      }
      var to := ScrollOffset(|file.value|, top, height, config.columns, config.segments);
      config := config.(offset := to);
      Update(Some(to));
    }

    /** `src` and `dst` are the two grids, in either order. */
    predicate Pair(src: TableView, dst: TableView) {
      (src == hview && dst == bview) || (src == bview && dst == hview)
    }

    /**
     * The gutter's `change` listener: both grids select the gutter's row in
     * their first column, which becomes their cursor, and the editor raises
     * `change` once. A row past the end of a short first column selects nothing.
     */
    method GutterChanged() returns (changes: nat)
      requires Valid()
      modifies hview.Repr, bview.Repr
      ensures Valid() && Repr == old(Repr) && changes == 1
      ensures hview.Kept(0) && bview.Kept(0)
      ensures hview.columns[0].selected == Clamp(gutter.selected, |hview.columns[0].options|)
      ensures bview.columns[0].selected == Clamp(gutter.selected, |bview.columns[0].options|)
      ensures hview.column == hview.columns[0].column == bview.columns[0].column == bview.column
      ensures hview.row == hview.columns[0].selected && bview.row == bview.columns[0].selected
      ensures 0 <= gutter.selected < |hview.columns[0].options| ==>
        hview.row == bview.row == gutter.selected
    {
      hview.Select(gutter.selected, Some(0));
      bview.Select(gutter.selected, Some(0));
      changes := 1;
    }

    /**
     * The `change` listener of the grid `src`: the other grid `dst` selects
     * `src`'s row in `src`'s column, the gutter selects that row, and the
     * editor raises `change` once. Reading `src`'s row throws while its
     * `#column` is undefined, and then nothing happens. When `src`'s cursor is
     * on one of its cells, afterwards both grids and the gutter are on the
     * same row and the grids on the same column.
     */
    method Mirror(src: TableView, dst: TableView) returns (changes: nat)
      requires Valid() && Pair(src, dst)
      modifies dst.Repr, gutter
      ensures Valid() && Repr == old(Repr) && changes <= 1
      ensures gutter.options == old(gutter.options)
      ensures old(src.Row()).None? ==> changes == 0 && unchanged(gutter) && unchanged(dst.Repr)
      ensures old(src.Row()).Some? ==>
        var r := old(src.Row()).value;
        changes == 1 && gutter.selected == Clamp(r, |gutter.options|) &&
        (src.column.Some? && 0 <= src.column.value < |dst.columns| ==>
          dst.Kept(src.column.value) && dst.columns[src.column.value].selected == Clamp(r, |dst.columns[src.column.value].options|)) &&
        (!(src.column.Some? && 0 <= src.column.value < |dst.columns|) ==>
          dst.Kept(-1) && dst.column == old(dst.column) && dst.row == old(dst.row))
      ensures src.column.Some? && 0 <= src.column.value < |src.columns| ==>
        dst.column == src.column && dst.Row() == src.Row() == Some(dst.row) == Some(gutter.selected)
    {
      var r := src.Row();
      if r.None? {
        return 0;
      }
      ghost var k := src.column.value;
      if 0 <= k < |src.columns| {
        assert src.Numbers[k] == Some(k) == dst.Numbers[k];
        assert r.value == src.Cursor[k] < |dst.Lines[k]| <= |gutter.options|;
      }
      dst.Select(r.value, src.column);
      gutter.Select(r.value);
      changes := 1;
      assert src.Valid() && dst.Valid() && gutter.Valid();
    }

    /**
     * The listener of the grid `v` when its cursor is on column `i`: the
     * column's number decides. A numbered column takes the other grid `w` and
     * the gutter to its cell with one editor `change`; the placeholder makes
     * the row getter throw and nothing happens. The grid `v` itself is left
     * as it is.
     */
    method Follow(v: TableView, w: TableView, i: nat) returns (changes: nat)
      requires Valid() && Pair(v, w) && i < |v.columns|
      requires v.column == v.columns[i].column && v.row == v.columns[i].selected
      modifies w.Repr, gutter
      ensures Valid() && Repr == old(Repr) && gutter.options == old(gutter.options)
      ensures unchanged(v) && v.Kept(-1)
      ensures changes == if v.columns[i].column.Some? then 1 else 0
      ensures changes == 0 ==> unchanged(gutter) && unchanged(w.Repr)
      ensures changes == 1 ==>
        w.Kept(i) && w.columns[i].selected == v.columns[i].selected &&
        v.column == w.column == Some(i) && v.row == w.row == gutter.selected == v.columns[i].selected
    {
      assert v.columns[i].column.Some? ==> v.column == Some(i) && v.Row() == Some(v.row);
      assert v.row < |w.columns[i].options| <= |gutter.options|;
      changes := Mirror(v, w);
    }

    /**
     * The user picks row `n` of the gutter. The gutter raises `change` only
     * when its selection moves, and then both grids follow it.
     */
    method PickGutter(n: nat) returns (changes: nat)
      requires Valid() && n < |gutter.options|
      modifies gutter, hview.Repr, bview.Repr
      ensures Valid() && Repr == old(Repr) && gutter.selected == n
      ensures gutter.options == old(gutter.options) && gutter.column == old(gutter.column)
      ensures changes == if n != old(gutter.selected) then 1 else 0
      ensures changes == 0 ==> unchanged(hview.Repr) && unchanged(bview.Repr)
      ensures changes == 1 ==> hview.Kept(0) && bview.Kept(0)
      ensures changes == 1 ==>
        hview.columns[0].selected == Clamp(n, |hview.columns[0].options|) &&
        bview.columns[0].selected == Clamp(n, |bview.columns[0].options|) &&
        hview.column == hview.columns[0].column == bview.columns[0].column == bview.column &&
        hview.row == hview.columns[0].selected && bview.row == bview.columns[0].selected
      ensures changes == 1 && n < |hview.columns[0].options| ==> hview.row == bview.row == n
    {
      var changed := gutter.Pick(n);
      changes := 0;
      if changed {
        changes := GutterChanged();
      }
    }

    /**
     * The gutter gains focus: with nothing selected it selects its first row
     * and raises `change`, and then both grids follow it to their first row.
     */
    method FocusGutter() returns (changes: nat)
      requires Valid()
      modifies gutter, hview.Repr, bview.Repr
      ensures Valid() && Repr == old(Repr)
      ensures changes == if old(gutter.Value()) == "" then 1 else 0
      ensures gutter.options == old(gutter.options) && gutter.column == old(gutter.column)
      ensures changes == 0 ==> unchanged(gutter) && unchanged(hview.Repr) && unchanged(bview.Repr)
      ensures changes == 1 ==> gutter.selected == Clamp(0, |gutter.options|) && hview.Kept(0) && bview.Kept(0)
      ensures changes == 1 ==>
        hview.columns[0].selected == Clamp(gutter.selected, |hview.columns[0].options|) &&
        bview.columns[0].selected == Clamp(gutter.selected, |bview.columns[0].options|) &&
        hview.column == hview.columns[0].column == bview.columns[0].column == bview.column &&
        hview.row == hview.columns[0].selected && bview.row == bview.columns[0].selected
      ensures changes == 1 && |hview.columns[0].options| > 0 ==> hview.row == bview.row == gutter.selected == 0
    {
      var changed := gutter.Focused();
      changes := 0;
      if changed {
        changes := GutterChanged();
      }
    }

    /**
     * The user picks option `n` of column `i` of the grid `v`. The grid
     * raises `change` when the column's selection moves to a new cell, and
     * its listener then takes the other grid and the gutter to the same row
     * and column. The placeholder column, which has no number, makes the
     * listener throw.
     */
    method PickCell(v: TableView, w: TableView, i: nat, n: nat) returns (changes: nat)
      requires Valid() && Pair(v, w)
      requires i < |v.columns| && n < |v.columns[i].options|
      modifies v.Repr, w.Repr, gutter
      ensures Valid() && Repr == old(Repr) && v.columns == old(v.columns)
      ensures v.Kept(i) && v.columns[i].selected == n && gutter.options == old(gutter.options)
      ensures if n != old(v.columns[i].selected) && (v.columns[i].column != old(v.column) || n != old(v.row))
        then v.column == v.columns[i].column && v.row == n
        else v.column == old(v.column) && v.row == old(v.row)
      ensures changes == 1 <==>
        n != old(v.columns[i].selected) && (v.columns[i].column != old(v.column) || n != old(v.row)) &&
        v.columns[i].column.Some?
      ensures changes == 0 || changes == 1
      ensures changes == 0 ==> unchanged(gutter) && unchanged(w.Repr)
      ensures changes == 1 ==>
        w.Kept(i) && w.columns[i].selected == n &&
        v.column == w.column == Some(i) && v.row == w.row == gutter.selected == n
    {
      var raised := v.Pick(i, n);
      changes := 0;
      if raised {
        changes := Follow(v, w, i);
      }
    }

    /**
     * Column `i` of the grid `v` gains focus. The column selects its first
     * option when nothing was selected, the grid raises `change` at most once,
     * when the column's cell differs from the grid's cursor, and the listener
     * then takes the other grid and the gutter to that cell's row and column.
     */
    method FocusCell(v: TableView, w: TableView, i: nat) returns (changes: nat)
      requires Valid() && Pair(v, w) && i < |v.columns|
      modifies v.Repr, w.Repr, gutter
      ensures Valid() && Repr == old(Repr) && v.columns == old(v.columns)
      ensures v.Kept(i) && gutter.options == old(gutter.options)
      ensures v.column == v.columns[i].column && v.row == v.columns[i].selected
      ensures v.columns[i].selected ==
        if old(v.columns[i].Value()) == "" then Clamp(0, |v.columns[i].options|) else old(v.columns[i].selected)
      ensures changes == 1 <==>
        (v.columns[i].column != old(v.column) || v.columns[i].selected != old(v.row)) && v.columns[i].column.Some?
      ensures changes == 0 || changes == 1
      ensures changes == 0 ==> unchanged(gutter) && unchanged(w.Repr)
      ensures changes == 1 ==>
        w.Kept(i) && w.columns[i].selected == v.columns[i].selected &&
        v.column == w.column == Some(i) && v.row == w.row == gutter.selected == v.columns[i].selected
    {
      var raised := v.Focus(i);
      changes := 0;
      if raised == 1 {
        changes := Follow(v, w, i);
      }
    }

    /**
     * The grid `v` handles `Navigate` from its column `i` in `direction`,
     * carrying that column's selection. With a neighbour that way the event is
     * blocked, the neighbour selects the same row and takes the grid's cursor,
     * and when the grid raises `change` the listener takes the other grid and
     * the gutter along. Without a neighbour nothing changes.
     */
    method NavigateCell(v: TableView, w: TableView, i: nat, direction: int) returns (blocked: bool, changes: nat)
      requires Valid() && Pair(v, w) && i < |v.columns|
      modifies v.Repr, w.Repr, gutter
      ensures Valid() && Repr == old(Repr) && v.columns == old(v.columns) && gutter.options == old(gutter.options)
      ensures var p := if direction > 0 then i + 1 else i - 1;
        (blocked <==> 0 <= p < |v.columns|) &&
        (!blocked ==>
          changes == 0 && v.Kept(-1) && v.column == old(v.column) && v.row == old(v.row)) &&
        (blocked ==>
          v.Kept(p) && v.columns[p].selected == Clamp(old(v.columns[i].selected), |v.columns[p].options|))
      ensures var p := if direction > 0 then i + 1 else i - 1;
        blocked ==>
          (v.column == v.columns[p].column && v.row == v.columns[p].selected &&
           (changes == 1 <==>
             (v.columns[p].column != old(v.column) || v.columns[p].selected != old(v.row)) && v.columns[p].column.Some?))
      ensures changes == 0 || changes == 1
      ensures changes == 0 ==> unchanged(gutter) && unchanged(w.Repr)
      ensures changes == 1 ==>
        var p := if direction > 0 then i + 1 else i - 1;
        0 <= p < |v.columns| &&
        w.Kept(p) && w.columns[p].selected == v.columns[p].selected &&
        v.column == w.column == Some(p) && v.row == w.row == gutter.selected == v.columns[p].selected
    {
      assert v.Repr !! w.Repr && gutter !in v.Repr && gutter !in w.Repr;
      var raised;
      blocked, raised := v.Navigate(i, direction, v.columns[i].selected);
      assert unchanged(w.Repr) && unchanged(gutter);
      changes := 0;
      if raised {
        var p := if direction > 0 then i + 1 else i - 1;
        changes := Follow(v, w, p);
      }
    }

    /**
     * A key goes down in column `i` of the grid `v`, as `TableView.KeyDown`
     * handles it: a navigation key sends `Navigate` with the column's
     * selection and the default action is allowed only when that was not
     * blocked; any other key is let through and changes nothing.
     */
    method KeyDownCell(v: TableView, w: TableView, i: nat, e: KeyEvent) returns (allowDefault: bool, changes: nat)
      requires Valid() && Pair(v, w) && i < |v.columns|
      modifies v.Repr, w.Repr, gutter
      ensures Valid() && Repr == old(Repr) && v.columns == old(v.columns)
      ensures Direction(e).None? ==> allowDefault && changes == 0
      ensures Direction(e).Some? ==> (allowDefault <==> !(0 <= i + Direction(e).value < |v.columns|))
      ensures gutter.options == old(gutter.options)
      ensures allowDefault ==>
        changes == 0 && unchanged(gutter) && unchanged(w.Repr) &&
        v.Kept(-1) && v.column == old(v.column) && v.row == old(v.row)
      ensures Direction(e).Some? && !allowDefault ==>
        var p := i + Direction(e).value;
        v.Kept(p) && v.columns[p].selected == Clamp(old(v.columns[i].selected), |v.columns[p].options|) &&
        v.column == v.columns[p].column && v.row == v.columns[p].selected &&
        (changes == 1 <==>
          (v.columns[p].column != old(v.column) || v.columns[p].selected != old(v.row)) && v.columns[p].column.Some?)
      ensures changes == 0 || changes == 1
      ensures changes == 0 ==> unchanged(gutter) && unchanged(w.Repr)
      ensures changes == 1 ==>
        var p := i + Direction(e).value;
        Direction(e).Some? && 0 <= p < |v.columns| &&
        w.Kept(p) && w.columns[p].selected == v.columns[p].selected &&
        v.column == w.column == Some(p) && v.row == w.row == gutter.selected == v.columns[p].selected
    {
      var d := Direction(e);
      if d.None? {
        return true, 0;
      }
      var blocked;
      blocked, changes := NavigateCell(v, w, i, d.value);
      allowDefault := !blocked;
    }
  }
}
