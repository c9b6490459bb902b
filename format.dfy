/**
 * The static formatting pipeline of the hex editor: `hex` and `bin` turn a
 * window of bytes into display tokens, `shape` deals a flat token list into
 * column-major lanes, and `rows` writes the offset labels of the gutter.
 *
 * `Lane`/`Lanes` define what `shape` computes, `Interleave` reads lanes back
 * row by row, and the lemmas below relate the two.
 */
module Format {
  import opened Base
  import opened HexText

  /** U+00A0, the glyph shown for a space or a no-break space byte. */
  const NBSP: char := 0xA0 as char

  /** `hex`: one two-digit upper-case token per byte, in order. */
  function Hex(bytes: seq<Byte>): (r: seq<string>)
    ensures |r| == |bytes|
    ensures forall i :: 0 <= i < |bytes| ==> |r[i]| == 2 && IsUpperHex(r[i]) && Value(r[i]) == bytes[i]
  {
    seq(|bytes|, i requires 0 <= i < |bytes| => ByteToken(bytes[i]))
  }

  /** The character `bin` shows for one byte. */
  function Glyph(b: Byte): char {
    if b == 32 || b == 160 then NBSP
    else if b < 33 || b > 126 then '.'
    else b as char
  }

  /**
   * `bin`: one one-character token per byte, in order. Space and no-break space
   * show as U+00A0, the printable ASCII range 33..126 shows as itself, and every
   * other byte shows as '.'.
   */
  function Bin(bytes: seq<Byte>): (r: seq<string>)
    ensures |r| == |bytes|
    ensures forall i :: 0 <= i < |bytes| ==> |r[i]| == 1
    ensures forall i :: 0 <= i < |bytes| && (bytes[i] == 32 || bytes[i] == 160) ==> r[i][0] == NBSP
    ensures forall i :: 0 <= i < |bytes| && 33 <= bytes[i] <= 126 ==> r[i][0] as int == bytes[i]
    ensures forall i :: 0 <= i < |bytes| && bytes[i] != 32 && bytes[i] != 160 && !(33 <= bytes[i] <= 126) ==> r[i] == "."
  {
    seq(|bytes|, i requires 0 <= i < |bytes| => [Glyph(bytes[i])])
  }

  /** Every `bin` token is a visible character: printable ASCII or U+00A0. */
  lemma BinVisible(bytes: seq<Byte>, i: nat)
    requires i < |bytes|
    ensures 33 <= Bin(bytes)[i][0] as int <= 126 || Bin(bytes)[i][0] == NBSP
  {
  }

  /** Text made only of printable ASCII bytes can be read back from its `bin` tokens. */
  lemma BinReadsBack(bytes: seq<Byte>)
    requires forall i :: 0 <= i < |bytes| ==> 33 <= bytes[i] <= 126
    ensures seq(|bytes|, i requires 0 <= i < |bytes| => Bin(bytes)[i][0] as int) == bytes
  {
    var codes := seq(|bytes|, i requires 0 <= i < |bytes| => Bin(bytes)[i][0] as int);
    forall i | 0 <= i < |bytes|
      ensures codes[i] == bytes[i]
    {
      assert Bin(bytes)[i] == [bytes[i] as char];
    }
  }

  /** The number of lanes `shape` makes: `columns * segments || 8`. */
  function Width(columns: nat, segments: nat): (t: nat)
    ensures t > 0
  {
    if columns * segments == 0 then 8 else columns * segments
  }

  /** Lane `n` of a buffer dealt into `t` lanes: `buffer[n], buffer[n + t], ...`. */
  function Lane<T>(buffer: seq<T>, t: nat, n: nat): seq<T>
    requires t > 0
    decreases |buffer| - n
  {
    if n < |buffer| then [buffer[n]] + Lane(buffer, t, n + t) else []
  }

  /** All `t` lanes of a buffer, which is what `shape` returns. */
  function Lanes<T>(buffer: seq<T>, t: nat): (r: seq<seq<T>>)
    requires t > 0
    ensures |r| == t
  {
    seq(t, n requires 0 <= n < t => Lane(buffer, t, n))
  }

  /** Element `k` of lane `n` exists exactly when `n + k*t` is inside the buffer, and is that element. */
  lemma {:induction false} LaneAt<T>(buffer: seq<T>, t: nat, n: nat, k: nat)
    requires t > 0
    ensures k < |Lane(buffer, t, n)| <==> n + k * t < |buffer|
    ensures k < |Lane(buffer, t, n)| ==> Lane(buffer, t, n)[k] == buffer[n + k * t]
    decreases k
  {
    if n < |buffer| && k > 0 {
      LaneAt(buffer, t, n + t, k - 1);
      assert n + t + (k - 1) * t == n + k * t;
    } else if n >= |buffer| {
      assert k * t >= 0;
    }
  }

  /** A sequence that holds `buffer[j + k*t]` at each `k` and reaches the end of the buffer is lane `j`. */
  lemma LaneIs<T>(buffer: seq<T>, t: nat, j: nat, s: seq<T>)
    requires t > 0
    requires forall k :: 0 <= k < |s| ==> j + k * t < |buffer| && s[k] == buffer[j + k * t]
    requires |buffer| <= j + |s| * t
    requires |s| > 0 ==> j + (|s| - 1) * t < |buffer|
    ensures s == Lane(buffer, t, j)
  {
    LaneAt(buffer, t, j, |s|);
    if |s| > 0 {
      LaneAt(buffer, t, j, |s| - 1);
    }
    forall k | 0 <= k < |s|
      ensures s[k] == Lane(buffer, t, j)[k]
    {
      LaneAt(buffer, t, j, k);
    }
  }

  /** Lanes are non-increasing in length from left to right and differ by at most one. */
  lemma LanesBalanced<T>(buffer: seq<T>, t: nat, i: nat, j: nat)
    requires t > 0 && i <= j < t
    ensures |Lanes(buffer, t)[j]| <= |Lanes(buffer, t)[i]| <= |Lanes(buffer, t)[j]| + 1
  {
    assert Lanes(buffer, t)[i] == Lane(buffer, t, i) && Lanes(buffer, t)[j] == Lane(buffer, t, j);
    var lj := |Lane(buffer, t, j)|;
    var p := lj * t;
    LaneAt(buffer, t, j, lj);
    assert j + p >= |buffer|;
    LaneAt(buffer, t, i, lj + 1);
    assert (lj + 1) * t == p + t;
    if lj > 0 {
      LaneAt(buffer, t, j, lj - 1);
      LaneAt(buffer, t, i, lj - 1);
      assert (lj - 1) * t == p - t;
    }
  }

  /** The length of each lane depends only on the length of the buffer. */
  lemma LanesShape<T, U>(a: seq<T>, b: seq<U>, t: nat, n: nat)
    requires t > 0 && |a| == |b| && n < t
    ensures |Lanes(a, t)[n]| == |Lanes(b, t)[n]|
  {
    var la, lb := |Lane(a, t, n)|, |Lane(b, t, n)|;
    LaneAt(a, t, n, la);
    LaneAt(b, t, n, la);
    LaneAt(a, t, n, lb);
    LaneAt(b, t, n, lb);
  }

  /** A buffer of at most `t * rows` elements gives lanes of at most `rows` elements. */
  lemma LanesAtMost<T>(buffer: seq<T>, t: nat, rows: nat, n: nat)
    requires t > 0 && |buffer| <= t * rows && n < t
    ensures |Lanes(buffer, t)[n]| <= rows
  {
    LaneAt(buffer, t, n, rows);
    assert rows * t == t * rows;
  }

  /**
   * Two buffers of one length, dealt into `t` lanes, give lanes of equal
   * lengths, none longer than `rows` when the buffers fit in `rows` rows.
   */
  lemma LanesAligned<T, U>(a: seq<T>, b: seq<U>, t: nat, rows: nat)
    requires t > 0 && |a| == |b| && |a| <= t * rows
    ensures forall n :: 0 <= n < t ==> |Lanes(a, t)[n]| == |Lanes(b, t)[n]| <= rows
  {
    forall n | 0 <= n < t
      ensures |Lanes(a, t)[n]| == |Lanes(b, t)[n]| <= rows
    {
      LanesShape(a, b, t, n);
      LanesAtMost(a, t, rows, n);
    }
  }

  /** The first element of every non-empty lane, left to right: one row of the grid. */
  function Heads<T>(lanes: seq<seq<T>>): seq<T> {
    if lanes == [] then []
    else (if lanes[0] == [] then [] else [lanes[0][0]]) + Heads(lanes[1..])
  }

  /** The lanes without their first row. */
  function Tails<T>(lanes: seq<seq<T>>): (r: seq<seq<T>>)
    ensures |r| == |lanes|
  {
    seq(|lanes|, i requires 0 <= i < |lanes| => if lanes[i] == [] then [] else lanes[i][1..])
  }

  /** The number of elements held by all lanes together. */
  function Total<T>(lanes: seq<seq<T>>): nat {
    if lanes == [] then 0 else |lanes[0]| + Total(lanes[1..])
  }

  /** Removing the first row removes exactly the elements of that row. */
  lemma {:induction false} TotalTails<T>(lanes: seq<seq<T>>)
    ensures Total(Tails(lanes)) + |Heads(lanes)| == Total(lanes)
  {
    if lanes != [] {
      assert Tails(lanes)[1..] == Tails(lanes[1..]);
      TotalTails(lanes[1..]);
    }
  }

  /** Reads lanes back row by row: the elements a grid shows, in reading order. */
  function Interleave<T>(lanes: seq<seq<T>>): seq<T>
    decreases Total(lanes)
  {
    var h := Heads(lanes);
    if h == [] then []
    else
      TotalTails(lanes);
      h + Interleave(Tails(lanes))
  }

  /** Reading lanes row by row visits every element once. */
  lemma {:induction false} InterleaveLength<T>(lanes: seq<seq<T>>)
    ensures |Interleave(lanes)| == Total(lanes)
    decreases Total(lanes)
  {
    TotalTails(lanes);
    if Heads(lanes) == [] {
      ZeroTotal(lanes);
    } else {
      InterleaveLength(Tails(lanes));
    }
  }

  lemma {:induction false} ZeroTotal<T>(lanes: seq<seq<T>>)
    requires Heads(lanes) == []
    ensures Total(lanes) == 0
  {
    if lanes != [] {
      ZeroTotal(lanes[1..]);
    }
  }

  /** The first row of lanes whose first `k` lanes are the non-empty ones. */
  lemma {:induction false} HeadsPrefix<T>(lanes: seq<seq<T>>, k: nat)
    requires k <= |lanes|
    requires forall i :: 0 <= i < |lanes| ==> (lanes[i] != [] <==> i < k)
    ensures Heads(lanes) == seq(k, i requires 0 <= i < k => lanes[i][0])
  {
    if lanes != [] {
      HeadsPrefix(lanes[1..], if k == 0 then 0 else k - 1);
    }
  }

  /** Lane `n + t` of a buffer is lane `n` of the buffer without its first row. */
  lemma {:induction false} LaneShift<T>(buffer: seq<T>, t: nat, n: nat)
    requires t > 0
    ensures Lane(buffer, t, n + t) == Lane(buffer[Min(t, |buffer|)..], t, n)
    decreases |buffer| - n
  {
    if n + t < |buffer| {
      LaneShift(buffer, t, n + t);
    }
  }

  /** The first row of the lanes is the first `t` elements of the buffer. */
  lemma HeadsLanes<T>(buffer: seq<T>, t: nat)
    requires t > 0
    ensures Heads(Lanes(buffer, t)) == buffer[..Min(t, |buffer|)]
  {
    var lanes := Lanes(buffer, t);
    var k := Min(t, |buffer|);
    forall i | 0 <= i < |lanes|
      ensures lanes[i] != [] <==> i < k
    {
      assert lanes[i] == Lane(buffer, t, i);
    }
    HeadsPrefix(lanes, k);
  }

  /** The lanes without their first row are the lanes of the buffer without its first row. */
  lemma TailsLanes<T>(buffer: seq<T>, t: nat)
    requires t > 0
    ensures Tails(Lanes(buffer, t)) == Lanes(buffer[Min(t, |buffer|)..], t)
  {
    var lanes := Lanes(buffer, t);
    forall n | 0 <= n < t
      ensures Tails(lanes)[n] == Lanes(buffer[Min(t, |buffer|)..], t)[n]
    {
      LaneShift(buffer, t, n);
    }
  }

  /** Reading a grid whose first row is not empty: that row, then the rest of the grid. */
  lemma InterleaveStep<T>(lanes: seq<seq<T>>)
    requires Heads(lanes) != []
    ensures Interleave(lanes) == Heads(lanes) + Interleave(Tails(lanes))
  {
  }

  /** `shape` followed by reading the grid row by row gives the buffer back. */
  lemma {:induction false} InterleaveLanes<T>(buffer: seq<T>, t: nat)
    requires t > 0
    ensures Interleave(Lanes(buffer, t)) == buffer
    decreases |buffer|
  {
    var lanes := Lanes(buffer, t);
    var k := Min(t, |buffer|);
    HeadsLanes(buffer, t);
    if buffer != [] {
      assert Heads(lanes) == buffer[..k] && k > 0;
      InterleaveStep(lanes);
      TailsLanes(buffer, t);
      InterleaveLanes(buffer[k..], t);
      assert buffer == buffer[..k] + buffer[k..];
    }
  }

  /** The lanes of `shape` hold exactly the elements of the buffer. */
  lemma LanesTotal<T>(buffer: seq<T>, t: nat)
    requires t > 0
    ensures Total(Lanes(buffer, t)) == |buffer|
  {
    InterleaveLength(Lanes(buffer, t));
    InterleaveLanes(buffer, t);
  }

  /** Every lane built so far is a prefix of the lane it is meant to become. */
  ghost predicate Dealt<T>(buffer: seq<T>, t: nat, result: seq<seq<T>>)
    requires t > 0
  {
    forall j :: 0 <= j < |result| ==>
      |result[j]| <= |Lane(buffer, t, j)| && result[j] == Lane(buffer, t, j)[..|result[j]|]
  }

  /** `t` lanes, the first `n` of which hold `r + 1` elements and the rest `r`. */
  ghost predicate Filled<T>(t: nat, r: nat, n: nat, result: seq<seq<T>>) {
    |result| == t && forall j :: 0 <= j < t ==> |result[j]| == r + (if j < n then 1 else 0)
  }

  /** The state in which the loops of `shape` return is the full set of lanes. */
  lemma ShapeDone<T>(buffer: seq<T>, t: nat, r: nat, n: nat, result: seq<seq<T>>)
    requires t > 0 && n <= t && r * t + n == |buffer|
    requires Filled(t, r, n, result) && Dealt(buffer, t, result)
    ensures result == Lanes(buffer, t)
  {
    var m := r * t;
    forall j | 0 <= j < t
      ensures result[j] == Lane(buffer, t, j)
    {
      var c := |result[j]|;
      if j < n {
        assert c * t == m + t;
      } else {
        assert c * t == m;
      }
      LaneAt(buffer, t, j, c);
      assert |Lane(buffer, t, j)| <= c;
    }
  }

  /** Pushing `buffer[r*t + n]` onto lane `n` keeps every lane a prefix of its lane. */
  lemma ShapePush<T>(buffer: seq<T>, t: nat, r: nat, n: nat, result: seq<seq<T>>)
    requires t > 0 && n < t && r * t + n < |buffer|
    requires Filled(t, r, n, result) && Dealt(buffer, t, result)
    ensures Filled(t, r, n + 1, result[n := result[n] + [buffer[r * t + n]]])
    ensures Dealt(buffer, t, result[n := result[n] + [buffer[r * t + n]]])
  {
    var lane := Lane(buffer, t, n);
    LaneAt(buffer, t, n, r);
    assert n + r * t == r * t + n;
    assert lane[..r + 1] == lane[..r] + [lane[r]];
  }

  /**
   * `shape`: deals `buffer` into `columns * segments || 8` lanes, column-major,
   * with the same nested loops as the source (the outer one steps a row at a
   * time and the inner one returns as soon as the buffer is used up).
   */
  method Shape<T>(buffer: seq<T>, columns: nat, segments: nat) returns (result: seq<seq<T>>)
    ensures result == Lanes(buffer, Width(columns, segments))
    ensures Interleave(result) == buffer
  {
    var t := Width(columns, segments);
    result := seq(t, _ => []);
    var m := 0;
    ghost var r := 0;
    while true
      invariant m == r * t && m <= |buffer|
      invariant Filled(t, r, 0, result) && Dealt(buffer, t, result)
      decreases |buffer| - m
    {
      var n := 0;
      while n < t
        invariant 0 <= n <= t && m + n <= |buffer|
        invariant Filled(t, r, n, result) && Dealt(buffer, t, result)
      {
        if n + m < |buffer| {
          ShapePush(buffer, t, r, n, result);
          result := result[n := result[n] + [buffer[m + n]]];
        } else {
          ShapeDone(buffer, t, r, n, result);
          InterleaveLanes(buffer, t);
          return;
        }
        n := n + 1;
      }
      assert (r + 1) * t == m + t;
      assert Filled(t, r + 1, 0, result);
      m := m + t;
      r := r + 1;
    }
  }

  /** The byte offset of row `n` of a window that starts at `offset`, rows being `width` bytes apart. */
  function RowStart(offset: nat, width: nat, n: nat): nat {
    if n == 0 then offset else RowStart(offset, width, n - 1) + width
  }

  /** Row `n` starts `n * columns * segments` bytes after the window. */
  lemma {:induction false} RowStartIs(offset: nat, columns: nat, segments: nat, n: nat)
    ensures RowStart(offset, columns * segments, n) == offset + n * columns * segments
  {
    if n > 0 {
      RowStartIs(offset, columns, segments, n - 1);
      calc {
        (n - 1) * columns * segments + columns * segments;
        ((n - 1) * columns + columns) * segments;
        { assert (n - 1) * columns + columns == n * columns; }
        n * columns * segments;
      }
    }
  }

  /** One pass of the `rows` loop: the label of row `n`, computed as `offset + n * columns * segments`. */
  method RowLabel(offset: nat, columns: nat, segments: nat, n: nat) returns (c: string)
    ensures c == Label(RowStart(offset, columns * segments, n))
  {
    RowStartIs(offset, columns, segments, n);
    var v := offset + n * columns * segments;
    c := Label(v);
  }

  /** The first `count` gutter labels of a window starting at `offset`, rows `width` bytes apart. */
  function Labels(offset: nat, width: nat, count: nat): (r: seq<string>)
    ensures |r| == count
  {
    if count == 0 then [] else Labels(offset, width, count - 1) + [Label(RowStart(offset, width, count - 1))]
  }

  /** Label `n` is the one for row `n`. */
  lemma {:induction false} LabelsAt(offset: nat, width: nat, count: nat, n: nat)
    requires n < count
    ensures Labels(offset, width, count)[n] == Label(RowStart(offset, width, n))
  {
    if n < count - 1 {
      LabelsAt(offset, width, count - 1, n);
    }
  }

  /**
   * Label `n` reads back as `offset + n * columns * segments`, in upper-case
   * digits, 8 of them while that number fits in 32 bits and more only without
   * leading zeros.
   */
  lemma LabelsRead(offset: nat, columns: nat, segments: nat, count: nat, n: nat)
    requires n < count
    ensures var c := Labels(offset, columns * segments, count)[n];
      Value(c) == offset + n * columns * segments && IsUpperHex(c) && |c| >= 8 &&
      (offset + n * columns * segments < 0x1_0000_0000 ==> |c| == 8) &&
      (|c| > 8 ==> c[0] != '0')
  {
    LabelsAt(offset, columns * segments, count, n);
    RowStartIs(offset, columns, segments, n);
    LabelSpec(RowStart(offset, columns * segments, n));
  }

  /**
   * `rows`: the `rows` gutter labels of a window starting at `offset`; label `n`
   * is the label of `offset + n * columns * segments`.
   */
  method Rows(offset: nat, columns: nat, segments: nat, rows: nat) returns (numbers: seq<string>)
    ensures numbers == Labels(offset, columns * segments, rows)
  {
    numbers := [];
    var n := 0;
    while n < rows
      invariant 0 <= n <= rows && numbers == Labels(offset, columns * segments, n)
    {
      var c := RowLabel(offset, columns, segments, n);
      numbers := numbers + [c];
      n := n + 1;
    }
  }
}
