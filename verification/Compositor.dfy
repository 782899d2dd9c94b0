/** What the screen shows, pixel by pixel. */
module CompositeSpec {
  import opened Words
  import opened OptionType

  /** A layer seen from the screen: for each row and column the colour that it paints
      there, or None where it is outside or see-through. */
  type Picture = (int, int) -> Option<Byte>

  /** Layer on layer, the last on top: the colour that a cell ends up with. */
  function Composite(layers: seq<Picture>, before: Byte, row: int, col: int): Byte {
    if layers == [] then before
    else
      match layers[|layers| - 1](row, col)
      case Some(colour) => colour
      case None => Composite(layers[..|layers| - 1], before, row, col)
  }

  /** It is the colour of the highest layer that paints the cell. */
  lemma {:induction false} CompositeIsHighest(layers: seq<Picture>, before: Byte, row: int, col: int, k: nat)
    requires k < |layers| && layers[k](row, col).Some?
    requires forall i :: k < i < |layers| ==> layers[i](row, col).None?
    ensures Composite(layers, before, row, col) == layers[k](row, col).value
  {
    if k < |layers| - 1 {
      CompositeIsHighest(layers[..|layers| - 1], before, row, col, k);
    }
  }

  /** And the old colour when no layer does. */
  lemma {:induction false} CompositeUntouched(layers: seq<Picture>, before: Byte, row: int, col: int)
    requires forall i :: 0 <= i < |layers| ==> layers[i](row, col).None?
    ensures Composite(layers, before, row, col) == before
  {
    if layers != [] {
      CompositeUntouched(layers[..|layers| - 1], before, row, col);
    }
  }

  // ---- cells and addresses ----

  lemma Monotone(a: nat, b: nat, w: nat)
    requires a <= b
    ensures a * w <= b * w
  {
    assert b * w == a * w + (b - a) * w;
  }

  lemma IndexInRange(width: nat, height: nat, row: nat, col: nat)
    requires row < height && col < width
    ensures 0 <= row * width + col < width * height
  {
    assert (row + 1) * width == row * width + width;
    Monotone(row + 1, height, width);
  }

  /** Cells in different rows are different bytes: n bytes of one line, inside the screen,
      hold cells of that line only. */
  lemma RowsAreApart(w: nat, row: nat, col: nat, line: nat, x: nat, n: nat)
    requires col < w && x + n <= w
    ensures line * w + x <= row * w + col < line * w + x + n <==> row == line && x <= col < x + n
  {
    if row < line {
      Monotone(row + 1, line, w);
      assert (row + 1) * w == row * w + w;
    } else if row > line {
      Monotone(line + 1, row, w);
      assert (line + 1) * w == line * w + w;
    }
  }
}

/** refresh_screen of gui.c. */
module Compositor {
  import opened Words
  import opened OptionType
  import opened CompositeSpec
  import opened LayerSpec
  import LS = LayerStack

  /** A visible layer has a buffer of its size, lies on the screen, and is not itself video
      memory. */
  predicate Drawable(l: LS.Layer, width: nat, height: nat, vram: array<Byte>) {
    && l.vbuf != null && l.vbuf != vram
    && 0 <= l.width && 0 <= l.height && l.vbuf.Length >= l.width * l.height
    && 0 <= l.x && l.x + l.width <= width && 0 <= l.y && l.y + l.height <= height
  }

  predicate Covers(l: LS.Layer, row: int, col: int) {
    l.y <= row < l.y + l.height && l.x <= col < l.x + l.width
  }

  ghost function PixelOf(l: LS.Layer, pixels: seq<Byte>, row: int, col: int): Option<Byte>
    requires 0 <= l.width && 0 <= l.height && |pixels| >= l.width * l.height
  {
    if Covers(l, row, col) then
      IndexInRange(l.width, l.height, row - l.y, col - l.x);
      var c := pixels[(row - l.y) * l.width + (col - l.x)];
      if c != l.colInv then Some(c) else None
    else None
  }

  ghost function Painted(c: Option<Byte>, before: Byte): Byte {
    match c case Some(colour) => colour case None => before
  }

  class FrameBuffer {
    const width: nat
    const height: nat
    const vram: array<Byte>

    constructor (w: nat, h: nat)
      ensures width == w && height == h && Valid() && fresh(vram)
    {
      width, height := w, h;
      vram := new Byte[w * h](_ => 0);
    }

    ghost predicate Valid() {
      vram.Length == width * height
    }

    /** A cell of the screen. */
    ghost function Cell(row: nat, col: nat): Byte
      requires Valid() && row < height && col < width
      reads vram
    {
      IndexInRange(width, height, row, col);
      vram[row * width + col]
    }

    /** The innermost loop: one line of a layer. */
    method DrawLine(source: array<Byte>, from: nat, n: nat, clear: int, to: nat)
      requires source != vram && from + n <= source.Length && to + n <= vram.Length
      modifies vram
      ensures forall i :: 0 <= i < vram.Length ==>
        vram[i] ==
          if to <= i < to + n && source[from + (i - to)] != clear then source[from + (i - to)] else old(vram[i])
    {
      for bx := 0 to n
        invariant forall i :: 0 <= i < vram.Length ==>
          vram[i] ==
            if to <= i < to + bx && source[from + (i - to)] != clear then source[from + (i - to)] else old(vram[i])
      {
        var c := source[from + bx];
        if c != clear {
          vram[to + bx] := c;
        }
      }
    }

    /** One line of a layer paints the cells of that line that the layer covers. */
    method DrawRow(l: LS.Layer, line: nat)
      requires Valid() && Drawable(l, width, height, vram) && line < l.height
      modifies vram
      ensures forall row: nat, col: nat :: row < height && col < width ==>
        Cell(row, col) ==
          if row == l.y + line then Painted(PixelOf(l, l.vbuf[..], row, col), old(Cell(row, col)))
          else old(Cell(row, col))
    {
      var from, to := line * l.width, (l.y + line) * width + l.x;
      LinesFit(l, line);
      DrawLine(l.vbuf, from, l.width, l.colInv, to);
      forall row: nat, col: nat | row < height && col < width
        ensures Cell(row, col) ==
                if row == l.y + line then Painted(PixelOf(l, l.vbuf[..], row, col), old(Cell(row, col)))
                else old(Cell(row, col))
      {
        RowsAreApart(width, row, col, l.y + line, l.x, l.width);
        IndexInRange(width, height, row, col);
      }
    }

    lemma LinesFit(l: LS.Layer, line: nat)
      requires Valid() && Drawable(l, width, height, vram) && line < l.height
      ensures line * l.width + l.width <= l.vbuf.Length
      ensures (l.y + line) * width + l.x + l.width <= vram.Length
    {
      Monotone(line + 1, l.height, l.width);
      Monotone(l.y + line + 1, height, width);
      assert (line + 1) * l.width == line * l.width + l.width;
      assert (l.y + line + 1) * width == (l.y + line) * width + width;
    }

    /** What drawing a layer leaves. */
    twostate predicate Drawn(l: LS.Layer)
      requires Valid() && Drawable(l, width, height, vram)
      reads vram, l.vbuf
    {
      forall row: nat, col: nat :: row < height && col < width ==>
        Cell(row, col) == Painted(PixelOf(l, l.vbuf[..], row, col), old(Cell(row, col)))
    }

    /** The cell so many lines down and columns right of the corner of the layer gets the byte that the
        layer has there, unless that is its invisible colour. */
    twostate lemma DrawnByte(l: LS.Layer, line: nat, x: nat)
      requires Valid() && Drawable(l, width, height, vram) && Drawn(l) && line < l.height && x < l.width
      ensures 0 <= line * l.width + x < l.vbuf.Length
      ensures var byte := l.vbuf[line * l.width + x];
              Cell(l.y + line, l.x + x) == if byte != l.colInv then byte else old(Cell(l.y + line, l.x + x))
    {
      PixelAt(l, l.vbuf[..], line, x);
    }

    /** Every cell that the layer does not cover keeps its colour. */
    twostate lemma DrawnNowhereElse(l: LS.Layer, row: nat, col: nat)
      requires Valid() && Drawable(l, width, height, vram) && Drawn(l) && row < height && col < width
      requires !(l.y <= row < l.y + l.height && l.x <= col < l.x + l.width)
      ensures Cell(row, col) == old(Cell(row, col))
    {
      NoPixelAt(l, l.vbuf[..], row, col);
    }

    /** The two inner loops: one layer over what is there. */
    method DrawLayer(l: LS.Layer)
      requires Valid() && Drawable(l, width, height, vram)
      modifies vram
      ensures Drawn(l)
    {
      for line := 0 to l.height
        invariant forall row: nat, col: nat :: row < height && col < width ==>
          Cell(row, col) == if row < l.y + line then Painted(PixelOf(l, l.vbuf[..], row, col), old(Cell(row, col)))
                            else old(Cell(row, col))
      {
        DrawRow(l, line);
      }
    }

    /** The stack shows the list, its layers are drawable, and these are their pictures. */
    ghost predicate Ready(screen: LS.Screen, order: seq<nat>, pictures: seq<Picture>)
      reads screen, screen.layers, screen.layerStack, set l | l in screen.layers[..] && l.vbuf != null :: l.vbuf
    {
      && Valid() && screen.Shows(order) && |pictures| == |order|
      && forall i :: 0 <= i < |order| ==>
        Drawable(screen.layers[order[i]], width, height, vram) && Depicts(screen.layers[order[i]], pictures[i])
    }

    /** refresh_screen: every cell gets the colour of the highest layer that paints it,
        and keeps its own when none does. */
    method RefreshScreen(screen: LS.Screen, ghost order: seq<nat>, ghost pictures: seq<Picture>)
      requires Ready(screen, order, pictures)
      modifies vram
      ensures Ready(screen, order, pictures)
      ensures forall row: nat, col: nat :: row < height && col < width ==>
        Cell(row, col) == Composite(pictures, old(Cell(row, col)), row, col)
    {
      var z := 0;
      while z <= screen.zTop
        invariant 0 <= z <= |order| && Ready(screen, order, pictures)
        invariant forall row: nat, col: nat :: row < height && col < width ==>
          Cell(row, col) == Composite(pictures[..z], old(Cell(row, col)), row, col)
      {
        assert screen.layerStack[z] == LS.At(order[z]);
        DrawLayer(screen.layers[screen.layerStack[z].layer]);
        OneMoreLayer(pictures, z);
        z := z + 1;
      }
      assert pictures[..|order|] == pictures;
    }

    /** What the screen shows, after a refresh, where a byte of the layer at level k is visible and every
        layer above it is see-through: that byte. */
    lemma HighestByteShows(screen: LS.Screen, order: seq<nat>, pictures: seq<Picture>, before: Byte,
                           k: nat, line: nat, x: nat)
      requires Ready(screen, order, pictures) && k < |order|
      requires var l := screen.layers[order[k]];
               && line < l.height && x < l.width
               && 0 <= line * l.width + x < l.vbuf.Length && l.vbuf[line * l.width + x] != l.colInv
               && forall i :: k < i < |order| ==> SeeThrough(screen.layers[order[i]], l.y + line, l.x + x)
      ensures var l := screen.layers[order[k]];
              Composite(pictures, before, l.y + line, l.x + x) == l.vbuf[line * l.width + x]
    {
      hide Composite, PixelOf, SeeThrough;
      var l := screen.layers[order[k]];
      ByteOfPicture(l, pictures[k], line, x);
      forall i | k < i < |order| ensures pictures[i](l.y + line, l.x + x).None? {
        NoByteOfPicture(screen.layers[order[i]], pictures[i], l.y + line, l.x + x);
      }
      CompositeIsHighest(pictures, before, l.y + line, l.x + x, k);
    }

    /** The layer is drawable and looks like its picture. */
    ghost predicate Looks(l: LS.Layer, picture: Picture)
      reads if l.vbuf == null then {} else {l.vbuf}
    {
      Drawable(l, width, height, vram) && Depicts(l, picture)
    }

    ghost predicate AllLook(layers: seq<LS.Layer>, who: set<nat>, pictures: nat -> Picture)
      reads set l | l in layers && l.vbuf != null :: l.vbuf
    {
      forall q :: q in who ==> q < |layers| && Looks(layers[q], pictures(q))
    }

    /** The level of a layer does not show in its picture. */
    lemma LevelsDoNotShow(was: seq<LS.Layer>, now: seq<LS.Layer>, who: set<nat>, pictures: nat -> Picture)
      requires AllLook(was, who, pictures) && |now| == |was|
      requires forall q :: 0 <= q < |was| ==> now[q] == was[q].(z := now[q].z)
      ensures AllLook(now, who, pictures)
    {
      forall q | q in who ensures q < |now| && Looks(now[q], pictures(q)) {
        assert Looks(was[q], pictures(q));
      }
    }

    lemma LooksReady(screen: LS.Screen, order: seq<nat>, all: set<nat>, pictures: nat -> Picture)
      requires Valid() && screen.Shows(order) && Elements(order) <= all && AllLook(screen.layers[..], all, pictures)
      ensures Ready(screen, order, InOrder(order, pictures))
    {
      forall i | 0 <= i < |order| ensures Looks(screen.layers[order[i]], pictures(order[i])) {
        assert order[i] in Elements(order);
      }
    }

    /** mov_layer_z with its closing refresh, for the moves that work: the stack shows the moved
        list and every cell the highest picture of that list. */
    method MovLayerZ(screen: LS.Screen, p: nat, level: int, ghost order: seq<nat>, ghost pictures: nat -> Picture)
      requires Valid() && screen.Shows(order) && p < LAYER_STACK_SIZE && screen.layers[p].flags != 0
      requires AllLook(screen.layers[..], Elements(order) + {p}, pictures) && Works(order, MoveTo(p, level))
      modifies screen, screen.layers, screen.layerStack, vram
      ensures screen.Shows(Served(order, MoveTo(p, level)))
      ensures forall row: nat, col: nat :: row < height && col < width ==>
        Cell(row, col) == Composite(InOrder(Served(order, MoveTo(p, level)), pictures), old(Cell(row, col)), row, col)
    {
      ghost var m, was := Served(order, MoveTo(p, level)), screen.layers[..];
      ghost var all := Elements(order) + {p};
      screen.Serve(p, level, order);
      assert AllLook(was, all, pictures);
      LevelsDoNotShow(was, screen.layers[..], all, pictures);
      MovedMembers(order, p, LevelOf(order, p), Level(order, MoveTo(p, level)));
      LooksReady(screen, m, all, pictures);
      RefreshScreen(screen, m, InOrder(m, pictures));
    }
  }

  ghost function InOrder(order: seq<nat>, pictures: nat -> Picture): (r: seq<Picture>)
    ensures |r| == |order|
  {
    seq(|order|, i requires 0 <= i < |order| => pictures(order[i]))
  }

  ghost predicate Depicts(l: LS.Layer, p: Picture)
    requires l.vbuf != null && 0 <= l.width && 0 <= l.height && l.vbuf.Length >= l.width * l.height
    reads l.vbuf
  {
    forall row, col :: p(row, col) == PixelOf(l, l.vbuf[..], row, col)
  }

  /** A byte of a layer is the colour of the cell so many lines down and columns right of its corner,
      see-through if it is the invisible colour; a layer paints no other cell. */
  lemma PixelAt(l: LS.Layer, pixels: seq<Byte>, line: nat, x: nat)
    requires 0 <= l.width && 0 <= l.height && |pixels| >= l.width * l.height && line < l.height && x < l.width
    ensures 0 <= line * l.width + x < |pixels|
    ensures PixelOf(l, pixels, l.y + line, l.x + x)
            == if pixels[line * l.width + x] == l.colInv then None else Some(pixels[line * l.width + x])
  {
    IndexInRange(l.width, l.height, line, x);
  }

  lemma NoPixelAt(l: LS.Layer, pixels: seq<Byte>, row: int, col: int)
    requires 0 <= l.width && 0 <= l.height && |pixels| >= l.width * l.height
    requires !(l.y <= row < l.y + l.height && l.x <= col < l.x + l.width)
    ensures PixelOf(l, pixels, row, col).None?
  {
  }

  /** The layer covers this cell with its invisible colour, or not at all. */
  ghost predicate SeeThrough(l: LS.Layer, row: int, col: int)
    requires l.vbuf != null && 0 <= l.width && 0 <= l.height && l.vbuf.Length >= l.width * l.height
    reads l.vbuf
  {
    l.y <= row < l.y + l.height && l.x <= col < l.x + l.width ==>
      (var line, x := row - l.y, col - l.x;
       IndexInRange(l.width, l.height, line, x);
       l.vbuf[line * l.width + x] == l.colInv)
  }

  lemma ByteOfPicture(l: LS.Layer, picture: Picture, line: nat, x: nat)
    requires l.vbuf != null && 0 <= l.width && 0 <= l.height && l.vbuf.Length >= l.width * l.height
    requires Depicts(l, picture) && line < l.height && x < l.width
    requires 0 <= line * l.width + x < l.vbuf.Length && l.vbuf[line * l.width + x] != l.colInv
    ensures picture(l.y + line, l.x + x) == Some(l.vbuf[line * l.width + x])
  {
    PixelAt(l, l.vbuf[..], line, x);
  }

  lemma NoByteOfPicture(l: LS.Layer, picture: Picture, row: int, col: int)
    requires l.vbuf != null && 0 <= l.width && 0 <= l.height && l.vbuf.Length >= l.width * l.height
    requires Depicts(l, picture) && SeeThrough(l, row, col)
    ensures picture(row, col).None?
  {
    hide PixelOf;
    assert picture(row, col) == PixelOf(l, l.vbuf[..], row, col);
    if l.y <= row < l.y + l.height && l.x <= col < l.x + l.width {
      var line: nat, x: nat := row - l.y, col - l.x;
      PixelAt(l, l.vbuf[..], line, x);
      assert l.vbuf[..][line * l.width + x] == l.vbuf[line * l.width + x];
    } else {
      NoPixelAt(l, l.vbuf[..], row, col);
    }
  }

  lemma OneMoreLayer(pictures: seq<Picture>, z: nat)
    requires z < |pictures|
    ensures forall before, row, col ::
      Composite(pictures[..z + 1], before, row, col)
      == Painted(pictures[z](row, col), Composite(pictures[..z], before, row, col))
  {
    assert pictures[..z + 1][..z] == pictures[..z];
  }
}
