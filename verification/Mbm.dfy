/** In-core bitmaps: rows of dots stored back to back in bytes, the least significant bit
    of a byte first. */
module Mbm {
  import opened Bytes

  /** A dot: its row and its column. */
  type Dot = (nat, nat)

  /** The byte `1 << k`. */
  function Mask(k: nat): bv8
    requires k < 8
  {
    if k == 0 then 1 else if k == 1 then 2 else if k == 2 then 4 else if k == 3 then 8
    else if k == 4 then 16 else if k == 5 then 32 else if k == 6 then 64 else 128
  }

  predicate HasBit(x: bv8, k: nat)
    requires k < 8
  {
    x & Mask(k) != 0
  }

  lemma {:induction false} OrSetsOneBit(x: bv8, k: nat, m: nat)
    requires k < 8 && m < 8
    ensures HasBit(x | Mask(k), m) <==> m == k || HasBit(x, m)
  {
  }

  /** In the byte of bit `n`, setting that bit changes no other bit. */
  lemma {:induction false} OrSetsThatBit(x: bv8, n: nat, m: nat)
    requires m / 8 == n / 8
    ensures HasBit(x | Mask(n % 8), m % 8) <==> m == n || HasBit(x, m % 8)
  {
    OrSetsOneBit(x, n % 8, m % 8);
  }

  lemma {:induction false} ZeroHasNoBit(m: nat)
    requires m < 8
    ensures !HasBit(0, m)
  {
  }

  lemma {:induction false} ByteOfBits(x: bv8)
    ensures (x as byte) as bv8 == x
  {
  }

  /** The number of dots of `rows` rows. */
  function Area(rows: nat, width: nat): nat {
    if rows == 0 then 0 else Area(rows - 1, width) + width
  }

  lemma {:induction false} AreaIsProduct(rows: nat, width: nat)
    ensures Area(rows, width) == rows * width
  {
    if rows > 0 {
      AreaIsProduct(rows - 1, width);
    }
  }

  /** Bytes needed for the bits of a bitmap. */
  function Need(height: nat, width: nat): nat {
    (Area(height, width) + 7) / 8
  }

  /** The place of a dot in the row of all dots. */
  function Linear(width: nat, row: nat, col: nat): nat {
    Area(row, width) + col
  }

  lemma {:induction false} RowsFollow(width: nat, row: nat, row': nat)
    requires row < row'
    ensures Area(row, width) + width <= Area(row', width)
    decreases row'
  {
    if row + 1 < row' {
      RowsFollow(width, row, row' - 1);
    }
  }

  lemma {:induction false} LinearFits(height: nat, width: nat, row: nat, col: nat)
    requires row < height && col < width
    ensures Linear(width, row, col) < Area(height, width)
    ensures Linear(width, row, col) / 8 < Need(height, width)
  {
    RowsFollow(width, row, height);
  }

  lemma {:induction false} LinearIsInjective(width: nat, row: nat, col: nat, row': nat, col': nat)
    requires col < width && col' < width && Linear(width, row, col) == Linear(width, row', col')
    ensures row == row' && col == col'
  {
    if row < row' {
      RowsFollow(width, row, row');
    } else if row' < row {
      RowsFollow(width, row', row);
    }
  }

  /** Setting the bit of dot `(row, col)` in its byte `x` sets no other dot `(r, c)`. */
  lemma {:induction false} OnlyThatDot(width: nat, row: nat, col: nat, r: nat, c: nat, x: bv8)
    requires col < width && c < width
    ensures var n, m := Linear(width, row, col), Linear(width, r, c);
            && (r == row && c == col ==> m == n)
            && (m / 8 == n / 8 ==>
                 (HasBit(x | Mask(n % 8), m % 8) <==> (r == row && c == col) || HasBit(x, m % 8)))
  {
    var n, m := Linear(width, row, col), Linear(width, r, c);
    if m / 8 == n / 8 {
      OrSetsThatBit(x, n, m);
      if m == n {
        LinearIsInjective(width, r, c, row, col);
      }
    }
  }

  /** A byte is put together from its bits, bit 0 being the lowest. */
  lemma {:induction false} BitOrder(x: bv8)
    ensures x == (if HasBit(x, 0) then 0x01 else 0) | (if HasBit(x, 1) then 0x02 else 0)
               | (if HasBit(x, 2) then 0x04 else 0) | (if HasBit(x, 3) then 0x08 else 0)
               | (if HasBit(x, 4) then 0x10 else 0) | (if HasBit(x, 5) then 0x20 else 0)
               | (if HasBit(x, 6) then 0x40 else 0) | (if HasBit(x, 7) then 0x80 else 0)
  {
  }

  class Bitmap {
    const height: nat
    const width: nat
    const bits: array<bv8>
    /** The dots that are set. */
    ghost var dots: set<Dot>

    /** The bit of a dot, in the bytes. */
    predicate Bit(row: nat, col: nat)
      requires bits.Length == Need(height, width) && row < height && col < width
      reads bits
    {
      LinearFits(height, width, row, col);
      var n := Linear(width, row, col);
      HasBit(bits[n / 8], n % 8)
    }

    /** The bytes are those of a `height` by `width` array of dots. */
    ghost predicate Valid()
      reads this, bits
    {
      && bits.Length == Need(height, width)
      && (forall d: Dot :: d in dots ==> d.0 < height && d.1 < width)
      && (forall r: nat, c: nat {:trigger Bit(r, c)} :: r < height && c < width ==> (Bit(r, c) <==> (r, c) in dots))
    }

    /** A new bitmap is blank. */
    constructor (height: nat, width: nat)
      ensures Valid() && fresh(bits) && this.height == height && this.width == width
      ensures dots == {}
    {
      this.height, this.width, dots := height, width, {};
      bits := new bv8[Need(height, width)](_ => 0);
      new;
      forall r: nat, c: nat | r < height && c < width ensures !Bit(r, c) {
        LinearFits(height, width, r, c);
        ZeroHasNoBit(Linear(width, r, c) % 8);
      }
    }

    method Clear()
      requires Valid()
      modifies this, bits
      ensures Valid() && dots == {}
    {
      forall i | 0 <= i < bits.Length {
        bits[i] := 0;
      }
      dots := {};
      forall r: nat, c: nat | r < height && c < width ensures !Bit(r, c) {
        LinearFits(height, width, r, c);
        ZeroHasNoBit(Linear(width, r, c) % 8);
      }
    }

    /** Is a dot set? */
    method Test(row: nat, col: nat) returns (on: bool)
      requires Valid() && row < height && col < width
      ensures on <==> (row, col) in dots
    {
      LinearFits(height, width, row, col);
      var n := Linear(width, row, col);
      on := HasBit(bits[n / 8], n % 8);
      assert on == Bit(row, col);
    }

    /** Sets one dot and no other. */
    method Set(row: nat, col: nat)
      requires Valid() && row < height && col < width
      modifies this, bits
      ensures Valid() && dots == old(dots) + {(row, col)}
    {
      LinearFits(height, width, row, col);
      var n := Linear(width, row, col);
      bits[n / 8] := bits[n / 8] | Mask(n % 8);
      dots := dots + {(row, col)};
      forall r: nat, c: nat | r < height && c < width
        ensures Bit(r, c) <==> old(Bit(r, c)) || (r == row && c == col)
      {
        LinearFits(height, width, r, c);
        OnlyThatDot(width, row, col, r, c, old(bits[n / 8]));
      }
    }

    /** Rows follow one another without a gap: dot `(row, col)` is bit `row * width + col` of the bytes,
        counted from the lowest bit of the first. */
    lemma {:induction false} DotIsBit(row: nat, col: nat)
      requires Valid() && row < height && col < width
      ensures var n := row * width + col;
              n / 8 < bits.Length && ((row, col) in dots <==> HasBit(bits[n / 8], n % 8))
    {
      AreaIsProduct(row, width);
      LinearFits(height, width, row, col);
      assert (row, col) in dots <==> Bit(row, col);
    }
  }
}
