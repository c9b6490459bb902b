/**
 * The earlier variant of the formatters, kept in the component's example
 * folder. `hex` and `shape` behave like the hex editor's; `bin` keeps the space
 * and turns the no-break space into '.'; `rows` always starts at offset 0 and
 * writes lower-case digits.
 */
module Convert {
  import opened Base
  import opened HexText
  import Format

  /** `convert.hex`: one two-digit upper-case token per byte, in order. */
  function Hex(bytes: seq<Byte>): (r: seq<string>)
    ensures |r| == |bytes|
    ensures forall i :: 0 <= i < |bytes| ==> |r[i]| == 2 && IsUpperHex(r[i]) && Value(r[i]) == bytes[i]
  {
    seq(|bytes|, i requires 0 <= i < |bytes| => ByteToken(bytes[i]))
  }

  /** The character `convert.bin` shows for one byte. */
  function Glyph(b: Byte): char {
    if b < 32 || b > 126 then '.' else b as char
  }

  /**
   * `convert.bin`: one one-character token per byte, in order. The range 32..126
   * shows as itself (so 32 is an ordinary space) and every other byte as '.'.
   */
  function Bin(bytes: seq<Byte>): (r: seq<string>)
    ensures |r| == |bytes|
    ensures forall i :: 0 <= i < |bytes| ==> |r[i]| == 1
    ensures forall i :: 0 <= i < |bytes| && 32 <= bytes[i] <= 126 ==> r[i][0] as int == bytes[i]
    ensures forall i :: 0 <= i < |bytes| && !(32 <= bytes[i] <= 126) ==> r[i] == "."
  {
    seq(|bytes|, i requires 0 <= i < |bytes| => [Glyph(bytes[i])])
  }

  /** The two `hex` formatters give the same tokens. */
  lemma HexAgrees(bytes: seq<Byte>)
    ensures Hex(bytes) == Format.Hex(bytes)
  {
  }

  /**
   * The two `bin` formatters differ exactly at the bytes 32 and 160, which the
   * hex editor shows as U+00A0 and this variant shows as ' ' and '.'.
   */
  lemma BinDiffers(bytes: seq<Byte>, i: nat)
    requires i < |bytes|
    ensures Bin(bytes)[i] != Format.Bin(bytes)[i] <==> bytes[i] == 32 || bytes[i] == 160
    ensures bytes[i] == 32 ==> Bin(bytes)[i] == " " && Format.Bin(bytes)[i] == [Format.NBSP]
    ensures bytes[i] == 160 ==> Bin(bytes)[i] == "." && Format.Bin(bytes)[i] == [Format.NBSP]
  {
    assert Bin(bytes)[i] == [Glyph(bytes[i])];
    assert Format.Bin(bytes)[i] == [Format.Glyph(bytes[i])];
  }

  /**
   * `convert.shape`: the same nested loops as the hex editor's `shape`, so the
   * same lanes on every input, and reading them row by row gives the buffer back.
   */
  method Shape<T>(buffer: seq<T>, columns: nat, segments: nat) returns (result: seq<seq<T>>)
    ensures result == Format.Lanes(buffer, Format.Width(columns, segments))
    ensures Format.Interleave(result) == buffer
  {
    var t := Format.Width(columns, segments);
    result := seq(t, _ => []);
    var m := 0;
    ghost var r := 0;
    while true
      invariant m == r * t && m <= |buffer|
      invariant Format.Filled(t, r, 0, result) && Format.Dealt(buffer, t, result)
      decreases |buffer| - m
    {
      var n := 0;
      while n < t
        invariant 0 <= n <= t && m + n <= |buffer|
        invariant Format.Filled(t, r, n, result) && Format.Dealt(buffer, t, result)
      {
        if n + m < |buffer| {
          Format.ShapePush(buffer, t, r, n, result);
          result := result[n := result[n] + [buffer[m + n]]];
        } else {
          Format.ShapeDone(buffer, t, r, n, result);
          Format.InterleaveLanes(buffer, t);
          return;
        }
        n := n + 1;
      }
      assert (r + 1) * t == m + t;
      assert Format.Filled(t, r + 1, 0, result);
      m := m + t;
      r := r + 1;
    }
  }

  /** The first `count` labels of `convert.rows`, rows `width` bytes apart from offset 0. */
  function LowerLabels(width: nat, count: nat): (r: seq<string>)
    ensures |r| == count
  {
    if count == 0 then [] else LowerLabels(width, count - 1) + [LowerLabel(Format.RowStart(0, width, count - 1))]
  }

  /**
   * Label `n` of `convert.rows` reads back as `n * columns * segments`, in
   * lower-case digits, and upper-casing it gives the hex editor's label for the
   * same row of a window at offset 0.
   */
  lemma {:induction false} LowerLabelsAt(columns: nat, segments: nat, count: nat, n: nat)
    requires n < count
    ensures var c := LowerLabels(columns * segments, count)[n];
      Value(c) == n * columns * segments && IsLowerHex(c) && |c| >= 8 &&
      Upper(c) == Format.Labels(0, columns * segments, count)[n]
  {
    if n < count - 1 {
      LowerLabelsAt(columns, segments, count - 1, n);
      Format.LabelsAt(0, columns * segments, count, n);
      Format.LabelsAt(0, columns * segments, count - 1, n);
    } else {
      Format.RowStartIs(0, columns, segments, n);
      LowerLabelSpec(Format.RowStart(0, columns * segments, n));
    }
  }

  /** One pass of the `convert.rows` loop: the label of `n * columns * segments`. */
  method RowLabel(columns: nat, segments: nat, n: nat) returns (c: string)
    ensures c == LowerLabel(Format.RowStart(0, columns * segments, n))
  {
    Format.RowStartIs(0, columns, segments, n);
    var v := n * columns * segments;
    c := LowerLabel(v);
  }

  /** `convert.rows`: the `rows` labels of a window at offset 0, in lower case. */
  method Rows(columns: nat, segments: nat, rows: nat) returns (numbers: seq<string>)
    ensures numbers == LowerLabels(columns * segments, rows)
  {
    numbers := [];
    var n := 0;
    while n < rows
      invariant 0 <= n <= rows && numbers == LowerLabels(columns * segments, n)
    {
      var c := RowLabel(columns, segments, n);
      numbers := numbers + [c];
      n := n + 1;
    }
  }
}
