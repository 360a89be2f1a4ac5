/** A fixed-size, row-major grid of temperature samples. */
module Images {
  import opened Arith

  /** A `float` sample: a number, or the IEEE not-a-number value that a
      failed sensor read can leave behind. Infinities are not modelled. */
  datatype Sample = Num(value: real) | NaN

  /** A width by height grid whose storage always holds width * height
      samples. The dimensions and the storage are fixed at construction;
      only the elements can change. */
  class Image {
    const width: nat
    const height: nat
    const data: array<Sample>

    ghost predicate Valid()
    {
      data.Length == width * height
    }

    /** Allocates width * height samples, all zero. */
    constructor (width: nat, height: nat)
      ensures this.width == width && this.height == height
      ensures Valid() && fresh(data)
      ensures forall i :: 0 <= i < data.Length ==> data[i] == Num(0.0)
    {
      this.width := width;
      this.height := height;
      data := new Sample[width * height](_ => Num(0.0));
    }

    /** Element read, as through `operator[]`. */
    function At(i: nat): (s: Sample)
      requires Valid() && i < width * height
      reads data
      ensures s == data[i]
    {
      data[i]
    }

    /** Element write, as through `operator[]`: exactly one sample changes. */
    method Put(i: nat, s: Sample)
      requires Valid() && i < width * height
      modifies data
      ensures data[..] == old(data[..])[i := s]
    {
      data[i] := s;
    }
  }

  /** The index of the sample drawn at column x of row y when every row is
      mirrored horizontally: it is in bounds, stays in row y and comes from
      column width - 1 - x. */
  function MirroredIndex(width: nat, height: nat, x: nat, y: nat): (i: nat)
    requires x < width && y < height
    ensures i < width * height
    ensures i / width == y && i % width == width - 1 - x
  {
    RowMajor(width - 1 - x, y, width);
    RowMajorInBounds(width - 1 - x, y, width, height);
    (width - 1 - x) + y * width
  }

  /** Mirroring is its own inverse: the column drawn at width - 1 - x reads
      the source sample at column x, so each drawn row is the source row
      reversed. */
  lemma MirrorInvolution(width: nat, height: nat, x: nat, y: nat)
    requires x < width && y < height
    ensures MirroredIndex(width, height, width - 1 - x, y) == y * width + x
  {
  }

  /** The four cells around the centre of an even-sized grid, in row-major
      order: rows height/2 - 1 and height/2, columns width/2 - 1 and width/2. */
  function CentreBlock(width: nat, height: nat): (block: seq<nat>)
    requires 2 <= width && 2 <= height
    ensures |block| == 4
    ensures forall j :: 0 <= j < 4 ==> block[j] < width * height
    ensures forall j :: 0 <= j < 4 ==>
      block[j] / width == height / 2 - 1 + j / 2 && block[j] % width == width / 2 - 1 + j % 2
  {
    var top, left := height / 2 - 1, width / 2 - 1;
    RowMajor(left, top, width);
    RowMajor(left + 1, top, width);
    RowMajor(left, top + 1, width);
    RowMajor(left + 1, top + 1, width);
    RowMajorInBounds(left + 1, top + 1, width, height);
    RowMajorInBounds(left, top + 1, width, height);
    RowMajorInBounds(left + 1, top, width, height);
    RowMajorInBounds(left, top, width, height);
    [top * width + left, top * width + left + 1, (top + 1) * width + left, (top + 1) * width + left + 1]
  }

  /** On the 32 x 24 sensor the block is cells 367, 368, 399 and 400, and it
      is centred: its rows and columns are mirror images of each other. */
  lemma SensorCentreBlock()
    ensures CentreBlock(32, 24) == [383 - 16, 383 - 15, 384 + 15, 384 + 16]
    ensures (24 - 1) - (24 / 2 - 1) == 24 / 2 && (32 - 1) - (32 / 2 - 1) == 32 / 2
  {
  }
}
