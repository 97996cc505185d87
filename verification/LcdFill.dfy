/** The colour-bar fills of the LCD example: nested loops over a frame buffer in row order. */
module LcdFill {
  import opened Bytes

  const RED: word := 0xf800
  const GREEN: word := 0x07e0
  const BLUE: word := 0x001f

  /** The colour of place i out of n: two bars of a third, rounded down, and what is left. */
  function Bar(i: nat, n: nat): word {
    if i < n / 3 then RED else if i < n / 3 * 2 then GREEN else BLUE
  }

  /** Cell (h, w) in row order. */
  function Cell(h: nat, w: nat, width: nat): nat { h * width + w }

  lemma RowsBelow(a: nat, b: nat, n: nat)
    ensures a <= b ==> a * n <= b * n
  {
  }

  lemma CellInside(h: nat, w: nat, width: nat, height: nat)
    requires h < height && w < width
    ensures Cell(h, w, width) < width * height
  {
    RowsBelow(h + 1, height, width);
    assert (h + 1) * width == h * width + width;
  }

  lemma CellSteps(h: nat, w: nat, width: nat, height: nat)
    ensures Cell(h, w, width) == h * width + w
    ensures Cell(h, w + 1, width) == Cell(h, w, width) + 1
    ensures Cell(h, width, width) == Cell(h + 1, 0, width)
    ensures Cell(0, 0, width) == 0 && Cell(height, 0, width) == width * height
  {
  }

  /** Rows up to h, and row h up to w, hold their colours. */
  ghost predicate Painted(s: seq<word>, width: nat, h: nat, w: nat, colour: (nat, nat) -> word) {
    && Cell(h, w, width) <= |s|
    && (forall y, x :: 0 <= y < h && 0 <= x < width ==> 0 <= Cell(y, x, width) < |s| && s[Cell(y, x, width)] == colour(y, x))
    && (forall x :: 0 <= x < w ==> 0 <= Cell(h, x, width) < |s| && s[Cell(h, x, width)] == colour(h, x))
  }

  /** Every cell of width x height its colour, everything behind them as it was. */
  ghost predicate Filled(s: seq<word>, was: seq<word>, width: nat, height: nat, colour: (nat, nat) -> word) {
    && |s| == |was|
    && (forall y, x :: 0 <= y < height && 0 <= x < width ==> 0 <= Cell(y, x, width) < |s| && s[Cell(y, x, width)] == colour(y, x))
    && (forall k :: width * height <= k < |s| ==> s[k] == was[k])
  }

  lemma PaintNone(s: seq<word>, width: nat, colour: (nat, nat) -> word)
    ensures Painted(s, width, 0, 0, colour)
  {
  }

  lemma PaintStep(s: seq<word>, width: nat, h: nat, w: nat, colour: (nat, nat) -> word)
    requires Painted(s, width, h, w, colour) && Cell(h, w, width) < |s|
    ensures Painted(s[Cell(h, w, width) := colour(h, w)], width, h, w + 1, colour)
  {
    forall y, x | 0 <= y < h && 0 <= x < width ensures Cell(y, x, width) < Cell(h, 0, width) { CellInside(y, x, width, h); }
  }

  lemma PaintRow(s: seq<word>, width: nat, h: nat, colour: (nat, nat) -> word)
    requires Painted(s, width, h, width, colour)
    ensures Painted(s, width, h + 1, 0, colour)
  {
    CellSteps(h, 0, width, 0);
  }

  lemma PaintAll(s: seq<word>, was: seq<word>, width: nat, height: nat, colour: (nat, nat) -> word)
    requires Painted(s, width, height, 0, colour) && |s| == |was|
    requires forall k :: width * height <= k < |s| ==> s[k] == was[k]
    ensures Filled(s, was, width, height, colour)
  {
  }

  ghost function VerticalColour(width: nat): (nat, nat) -> word { (h, w) => Bar(w, width) }

  ghost function HorizontalColour(height: nat): (nat, nat) -> word { (h, w) => Bar(h, height) }

  lemma ColoursAre(h: nat, w: nat, width: nat, height: nat)
    ensures VerticalColour(width)(h, w) == Bar(w, width) && HorizontalColour(height)(h, w) == Bar(h, height)
  {
  }

  lemma VerticalCells(s: seq<word>, was: seq<word>, width: nat, height: nat)
    requires Filled(s, was, width, height, VerticalColour(width))
    ensures |s| == |was| && forall k :: width * height <= k < |s| ==> s[k] == was[k]
    ensures forall h, w :: 0 <= h < height && 0 <= w < width ==>
              && 0 <= Cell(h, w, width) < |s|
              && s[Cell(h, w, width)] == if w < width / 3 then 0xf800 else if w < width / 3 * 2 then 0x07e0 else 0x001f
  {
    hide Cell;
  }

  lemma HorizontalCells(s: seq<word>, was: seq<word>, width: nat, height: nat)
    requires Filled(s, was, width, height, HorizontalColour(height))
    ensures |s| == |was| && forall k :: width * height <= k < |s| ==> s[k] == was[k]
    ensures forall h, w :: 0 <= h < height && 0 <= w < width ==>
              && 0 <= Cell(h, w, width) < |s|
              && s[Cell(h, w, width)] == if h < height / 3 then 0xf800 else if h < height / 3 * 2 then 0x07e0 else 0x001f
  {
    hide Cell;
  }

  /** The cells are written once each, in row order. */
  method FillVertical(buffer: array<word>, width: nat, height: nat) returns (ghost order: seq<nat>)
    requires width * height <= buffer.Length
    modifies buffer
    ensures Filled(buffer[..], old(buffer[..]), width, height, VerticalColour(width))
    ensures forall h, w :: 0 <= h < height && 0 <= w < width ==>
              && 0 <= Cell(h, w, width) < buffer.Length
              && buffer[Cell(h, w, width)] == if w < width / 3 then 0xf800 else if w < width / 3 * 2 then 0x07e0 else 0x001f
    ensures forall k :: width * height <= k < buffer.Length ==> buffer[k] == old(buffer[k])
    ensures |order| == width * height && forall k :: 0 <= k < |order| ==> order[k] == k
  {
    order := [];
    ghost var colour := VerticalColour(width);
    hide Painted, Filled, Cell, VerticalColour, HorizontalColour;
    PaintNone(buffer[..], width, colour);
    CellSteps(0, 0, width, height);
    for h := 0 to height
      invariant Painted(buffer[..], width, h, 0, colour)
      invariant |order| == Cell(h, 0, width) && forall k :: 0 <= k < |order| ==> order[k] == k
      invariant forall k :: Cell(h, 0, width) <= k < buffer.Length ==> buffer[k] == old(buffer[k])
    {
      for w := 0 to width
        invariant Painted(buffer[..], width, h, w, colour)
        invariant |order| == Cell(h, w, width) && forall k :: 0 <= k < |order| ==> order[k] == k
        invariant forall k :: Cell(h, w, width) <= k < buffer.Length ==> buffer[k] == old(buffer[k])
      {
        CellInside(h, w, width, height);
        CellSteps(h, w, width, height);
        ColoursAre(h, w, width, height);
        PaintStep(buffer[..], width, h, w, colour);
        ghost var was := buffer[..];
        if w < width / 3 {
          buffer[h * width + w] := RED;
        } else if w < width / 3 * 2 {
          buffer[h * width + w] := GREEN;
        } else {
          buffer[h * width + w] := BLUE;
        }
        assert buffer[..] == was[Cell(h, w, width) := colour(h, w)];
        order := order + [h * width + w];
      }
      PaintRow(buffer[..], width, h, colour);
      CellSteps(h, width, width, height);
    }
    PaintAll(buffer[..], old(buffer[..]), width, height, colour);
    VerticalCells(buffer[..], old(buffer[..]), width, height);
  }

  method FillHorizontal(buffer: array<word>, width: nat, height: nat) returns (ghost order: seq<nat>)
    requires width * height <= buffer.Length
    modifies buffer
    ensures Filled(buffer[..], old(buffer[..]), width, height, HorizontalColour(height))
    ensures forall h, w :: 0 <= h < height && 0 <= w < width ==>
              && 0 <= Cell(h, w, width) < buffer.Length
              && buffer[Cell(h, w, width)] == if h < height / 3 then 0xf800 else if h < height / 3 * 2 then 0x07e0 else 0x001f
    ensures forall k :: width * height <= k < buffer.Length ==> buffer[k] == old(buffer[k])
    ensures |order| == width * height && forall k :: 0 <= k < |order| ==> order[k] == k
  {
    order := [];
    ghost var colour := HorizontalColour(height);
    hide Painted, Filled, Cell, VerticalColour, HorizontalColour;
    PaintNone(buffer[..], width, colour);
    CellSteps(0, 0, width, height);
    for h := 0 to height
      invariant Painted(buffer[..], width, h, 0, colour)
      invariant |order| == Cell(h, 0, width) && forall k :: 0 <= k < |order| ==> order[k] == k
      invariant forall k :: Cell(h, 0, width) <= k < buffer.Length ==> buffer[k] == old(buffer[k])
    {
      for w := 0 to width
        invariant Painted(buffer[..], width, h, w, colour)
        invariant |order| == Cell(h, w, width) && forall k :: 0 <= k < |order| ==> order[k] == k
        invariant forall k :: Cell(h, w, width) <= k < buffer.Length ==> buffer[k] == old(buffer[k])
      {
        CellInside(h, w, width, height);
        CellSteps(h, w, width, height);
        ColoursAre(h, w, width, height);
        PaintStep(buffer[..], width, h, w, colour);
        ghost var was := buffer[..];
        if h < height / 3 {
          buffer[h * width + w] := RED;
        } else if h < height / 3 * 2 {
          buffer[h * width + w] := GREEN;
        } else {
          buffer[h * width + w] := BLUE;
        }
        assert buffer[..] == was[Cell(h, w, width) := colour(h, w)];
        order := order + [h * width + w];
      }
      PaintRow(buffer[..], width, h, colour);
      CellSteps(h, width, width, height);
    }
    PaintAll(buffer[..], old(buffer[..]), width, height, colour);
    HorizontalCells(buffer[..], old(buffer[..]), width, height);
  }

  /** A cell index is one row and one column. */
  lemma CellUnique(k: nat, width: nat, height: nat)
    requires k < width * height
    ensures width > 0 && k / width < height && k == Cell(k / width, k % width, width)
  {
    assert k == k / width * width + k % width;
    RowsBelow(height, k / width, width);
  }

  /** What the fill says determines the whole buffer. */
  lemma FilledDetermines(s: seq<word>, t: seq<word>, was: seq<word>, width: nat, height: nat, colour: (nat, nat) -> word)
    requires Filled(s, was, width, height, colour) && Filled(t, was, width, height, colour)
    ensures s == t
  {
    forall k | 0 <= k < |s| ensures s[k] == t[k] {
      if k < width * height { CellUnique(k, width, height); }
    }
  }

  /** The horizontal fill with the dimensions swapped is the transpose of the vertical one. */
  lemma FillsAreTransposed(s: seq<word>, wasS: seq<word>, t: seq<word>, wasT: seq<word>, width: nat, height: nat)
    requires Filled(s, wasS, width, height, VerticalColour(width))
    ensures Filled(t, wasT, height, width, HorizontalColour(width)) <==>
            && |t| == |wasT|
            && (forall h, w :: 0 <= h < height && 0 <= w < width ==>
                  0 <= Cell(w, h, height) < |t| && t[Cell(w, h, height)] == s[Cell(h, w, width)])
            && (forall k :: width * height <= k < |t| ==> t[k] == wasT[k])
  {
  }
}
