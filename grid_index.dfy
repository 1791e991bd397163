/** The index mapper of the utilities: conversion between a (row, column)
    pair and a linear offset, the wrap-around modulo, and the re-indexing
    loop that turns the flat pixel list of a FITS image into a 2-D image. */
module GridIndex {
  import opened ComplexNumbers

  function Abs(x: int): nat {
    if x < 0 then -x else x
  }

  /** Multiplication by a non-negative factor is monotone. */
  lemma {:induction false} MulMono(a: int, b: int, c: nat)
    requires a <= b
    ensures a * c <= b * c
  {
    if c > 0 {
      MulMono(a, b, c - 1);
      assert a * c == a * (c - 1) + a;
      assert b * c == b * (c - 1) + b;
    }
  }

  /** Quotient and remainder are unique (Euclidean division by a positive divisor). */
  lemma DivModUnique(a: int, b: int, q: int, r: int)
    requires b > 0 && 0 <= r < b && a == b * q + r
    ensures a / b == q && a % b == r
  {
    var q', r' := a / b, a % b;
    assert b * (q - q') == r' - r;
    if q > q' {
      MulMono(1, q - q', b);
    } else if q < q' {
      MulMono(1, q' - q, b);
    }
  }

  /** C++ integer division, which truncates toward zero. */
  function TruncDiv(a: int, b: int): int
    requires b != 0
  {
    var q := Abs(a) / Abs(b);
    if (a < 0) == (b < 0) then q else -q
  }

  /** C++ `%`: the remainder of truncating division, which has the sign of `a`. */
  function TruncRem(a: int, b: int): (r: int)
    requires b != 0
    ensures Abs(r) < Abs(b)
    ensures a >= 0 ==> r >= 0
    ensures a < 0 ==> r <= 0
  {
    var m := Abs(a) % Abs(b);
    if a < 0 then -m else m
  }

  /** C++'s division law: `(a / b) * b + a % b == a`. */
  lemma TruncDivRem(a: int, b: int)
    requires b != 0
    ensures b * TruncDiv(a, b) + TruncRem(a, b) == a
  {
    var q, m := Abs(a) / Abs(b), Abs(a) % Abs(b);
    assert Abs(b) * q + m == Abs(a);
    if a < 0 && b < 0 {
      assert b * q == -(Abs(b) * q);
    } else if a < 0 {
      assert b * (-q) == -(Abs(b) * q);
    } else if b < 0 {
      assert b * (-q) == Abs(b) * q;
    }
  }

  /** Truncating division of an exact multiple gives back the factor. */
  lemma TruncDivExact(q: int, b: int)
    requires b != 0
    ensures TruncDiv(b * q, b) == q
  {
    var a := b * q;
    assert Abs(a) == Abs(b) * Abs(q) by {
      if q < 0 && b < 0 {
        assert a == (-b) * (-q);
      } else if q < 0 {
        assert -a == b * (-q);
      } else if b < 0 {
        assert -a == (-b) * q;
      }
    }
    DivModUnique(Abs(a), Abs(b), Abs(q), 0);
    if q != 0 {
      assert (a < 0) == ((b < 0) != (q < 0)) by {
        if q > 0 && b > 0 { MulMono(1, q, b); }
        if q < 0 && b < 0 { MulMono(1, -q, -b); assert a == (-b) * (-q); }
        if q > 0 && b < 0 { MulMono(1, q, -b); assert -a == (-b) * q; }
        if q < 0 && b > 0 { MulMono(1, -q, b); assert -a == b * (-q); }
      }
    }
  }

  /** `sub2ind`: the linear offset of (row, col) in a grid with `cols` columns,
      stored row after row. `rows` is not read. */
  function Sub2Ind(row: int, col: int, rows: int, cols: int): (index: int)
    ensures 0 <= row < rows && 0 <= col < cols ==> 0 <= index < rows * cols
  {
    if 0 <= row < rows && 0 <= col < cols then
      MulMono(row, rows - 1, cols);
      MulMono(0, row, cols);
      row * cols + col
    else
      row * cols + col
  }

  /** Distinct subscripts with in-range columns address distinct offsets. */
  lemma Sub2IndInjective(row1: int, col1: int, row2: int, col2: int, rows: int, cols: int)
    requires 0 <= col1 < cols && 0 <= col2 < cols
    requires Sub2Ind(row1, col1, rows, cols) == Sub2Ind(row2, col2, rows, cols)
    ensures row1 == row2 && col1 == col2
  {
    assert cols * (row1 - row2) == col2 - col1;
    if row1 > row2 {
      MulMono(1, row1 - row2, cols);
    } else if row1 < row2 {
      MulMono(1, row2 - row1, cols);
    }
  }

  /** What `ind2sub` writes through its out-pointers, as a (row, col) pair:
      `col = sub % cols`, `row = (sub - col) / cols`, both with C++ truncation. */
  function Subscript(sub: int, cols: int): (int, int)
    requires cols != 0
  {
    var col := TruncRem(sub, cols);
    (TruncDiv(sub - col, cols), col)
  }

  /** The other direction of the round trip: `sub2ind` undoes `ind2sub` for every
      offset and every nonzero column count, negative ones included. */
  lemma Sub2IndOfSubscript(sub: int, rows: int, cols: int)
    requires cols != 0
    ensures Sub2Ind(Subscript(sub, cols).0, Subscript(sub, cols).1, rows, cols) == sub
  {
    TruncDivRem(sub, cols);
    TruncDivExact(TruncDiv(sub, cols), cols);
  }

  /** An offset inside a `rows` x `cols` grid has its subscripts inside the grid. */
  lemma SubscriptInGrid(sub: int, rows: int, cols: int)
    requires 0 < cols && 0 <= sub < rows * cols
    ensures 0 <= Subscript(sub, cols).0 < rows && 0 <= Subscript(sub, cols).1 < cols
  {
    var (row, col) := Subscript(sub, cols);
    Sub2IndOfSubscript(sub, rows, cols);
    assert row * cols + col == sub;
    if row < 0 {
      MulMono(row, -1, cols);
    }
    if rows <= row {
      MulMono(rows, row, cols);
    }
  }

  /** `ind2sub`: the (row, col) of a linear offset. `rows` is not read. */
  method Ind2Sub(sub: int, cols: int, rows: int) returns (row: int, col: int)
    requires cols != 0
    ensures (row, col) == Subscript(sub, cols)
    ensures row * cols + col == sub
    ensures 0 <= sub && 0 < cols ==> 0 <= col < cols && 0 <= row
    ensures 0 < cols && 0 <= sub < rows * cols ==> row < rows
  {
    col := TruncRem(sub, cols);
    row := TruncDiv(sub - col, cols);
    Sub2IndOfSubscript(sub, rows, cols);
    if 0 <= sub && 0 < cols {
      if row < 0 {
        MulMono(row, -1, cols);
      }
    }
    if 0 < cols && 0 <= sub < rows * cols {
      SubscriptInGrid(sub, rows, cols);
    }
  }

  /** Round trip: `ind2sub` undoes `sub2ind` for every row >= 0 and column in range. */
  lemma SubscriptOfSub2Ind(row: int, col: int, rows: int, cols: int)
    requires 0 <= row && 0 <= col < cols
    ensures Subscript(Sub2Ind(row, col, rows, cols), cols) == (row, col)
  {
    var sub := Sub2Ind(row, col, rows, cols);
    MulMono(0, row, cols);
    DivModUnique(sub, cols, row, col);
    assert TruncRem(sub, cols) == col;
    assert sub - col == cols * row;
    TruncDivExact(row, cols);
  }

  /** `mod`: the C remainder `fmod(x, y)`, moved into the period when it is negative
      (by adding `y`), on integer-valued arguments. */
  function Mod(x: int, y: int): (r: int)
    requires y != 0
    ensures 0 < y ==> 0 <= r < y
    ensures 0 < y && 0 <= x < y ==> r == x
  {
    var r := TruncRem(x, y);
    if 0 < y && 0 <= x < y then
      DivModUnique(x, y, 0, x);
      r
    else if r < 0 then y + r else r
  }

  /** For a positive period, `mod` is the mathematical (Euclidean) remainder. */
  lemma ModIsEuclidean(x: int, y: int)
    requires y > 0
    ensures Mod(x, y) == x % y
  {
    var t := TruncDiv(x, y);
    var r := TruncRem(x, y);
    TruncDivRem(x, y);
    if r < 0 {
      DivModUnique(x, y, t - 1, y + r);
    } else {
      DivModUnique(x, y, t, r);
    }
  }

  /** `mod` wraps circularly: shifting by whole periods does not change it. */
  lemma ModPeriodic(x: int, k: int, y: int)
    requires y > 0
    ensures Mod(x + k * y, y) == Mod(x, y)
  {
    ModIsEuclidean(x, y);
    ModIsEuclidean(x + k * y, y);
    DivModUnique(x + k * y, y, x / y + k, x % y);
  }

  /** The worked values of the utilities' `mod`. */
  lemma ModExamples()
    ensures Mod(-1, 5) == 4 && Mod(7, 5) == 2 && Mod(5, 5) == 0 && Mod(-5, 5) == 0 && Mod(-6, 5) == 4
  {
  }

  /** The pixel loop of `readfits2d`: `contents` is the flat pixel list read from
      the file (`ax1` x `ax2` values); pixel (i, j) of the image is the value at
      offset `sub2ind(j, i, ax2, ax1)`, with a zero imaginary part. */
  method ReadImage(contents: seq<real>, ax1: nat, ax2: nat) returns (image: array2<Complex>)
    requires |contents| == ax2 * ax1
    ensures fresh(image)
    ensures image.Length0 == ax1 && image.Length1 == ax2
    ensures forall i, j :: 0 <= i < ax1 && 0 <= j < ax2 ==>
              image[i, j] == FromReal(contents[Sub2Ind(j, i, ax2, ax1)])
  {
    image := new Complex[ax1, ax2];
    for i := 0 to ax1
      invariant forall i', j' :: 0 <= i' < i && 0 <= j' < ax2 ==>
                  image[i', j'] == FromReal(contents[Sub2Ind(j', i', ax2, ax1)])
    {
      for j := 0 to ax2
        invariant forall i', j' :: 0 <= i' < i && 0 <= j' < ax2 ==>
                    image[i', j'] == FromReal(contents[Sub2Ind(j', i', ax2, ax1)])
        invariant forall j' :: 0 <= j' < j ==> image[i, j'] == FromReal(contents[Sub2Ind(j', i, ax2, ax1)])
      {
        var index := Sub2Ind(j, i, ax2, ax1);
        image[i, j] := FromReal(contents[index]);
      }
    }
  }

  /** Every stored value is read into some pixel of the image: with
      `Sub2IndInjective`, the `readfits2d` loop reads each stored value exactly once. */
  lemma ReadImageCoversContents(k: int, ax1: nat, ax2: nat)
    requires 0 <= k < ax2 * ax1
    ensures exists i, j :: 0 <= i < ax1 && 0 <= j < ax2 && Sub2Ind(j, i, ax2, ax1) == k
  {
    var (j, i) := Subscript(k, ax1);
    SubscriptInGrid(k, ax2, ax1);
    Sub2IndOfSubscript(k, ax2, ax1);
    assert 0 <= i < ax1 && 0 <= j < ax2 && Sub2Ind(j, i, ax2, ax1) == k;
  }
}
