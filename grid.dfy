/** Two-dimensional numpy arrays as rectangular sequences of rows, with numpy's
    row-major `flatten`/`ravel` and `reshape`. */
module Grid {

  /** `g` has numpy shape `(h, w)`: `h` rows, each of length `w`. */
  predicate IsGrid<T>(g: seq<seq<T>>, h: nat, w: nat)
  {
    |g| == h && forall r :: 0 <= r < h ==> |g[r]| == w
  }

  /** Row-major flattening (`ndarray.flatten()`): the rows one after the other. */
  function Flatten<T>(g: seq<seq<T>>): seq<T>
  {
    if g == [] then [] else g[0] + Flatten(g[1..])
  }

  /** `ndarray.reshape((h, w))` of a vector of length `h * w`: consecutive slices of `w`. */
  function Reshape<T>(v: seq<T>, h: nat, w: nat): (g: seq<seq<T>>)
    requires |v| == h * w
    ensures IsGrid(g, h, w)
    ensures Flatten(g) == v
  {
    if h == 0 then []
    else
      assert |v[w..]| == (h - 1) * w;
      var g := [v[..w]] + Reshape(v[w..], h - 1, w);
      assert g[1..] == Reshape(v[w..], h - 1, w);
      g
  }

  /** The flattening of an `(h, w)` grid has `h * w` elements. */
  lemma {:induction false} FlattenLength<T>(g: seq<seq<T>>, h: nat, w: nat)
    requires IsGrid(g, h, w)
    ensures |Flatten(g)| == h * w
  {
    if h > 0 {
      FlattenLength(g[1..], h - 1, w);
      assert (h - 1) * w + w == h * w;
    }
  }

  /** Cell `(r, c)` of an `(h, w)` grid sits at position `r * w + c` of its flattening. */
  lemma {:induction false} FlattenCell<T>(g: seq<seq<T>>, h: nat, w: nat, r: nat, c: nat)
    requires IsGrid(g, h, w) && r < h && c < w
    ensures |Flatten(g)| == h * w && r * w + c < h * w
    ensures Flatten(g)[r * w + c] == g[r][c]
  {
    FlattenLength(g, h, w);
    if r > 0 {
      FlattenCell(g[1..], h - 1, w, r - 1, c);
      assert r * w + c == w + ((r - 1) * w + c);
      assert (h - 1) * w + w == h * w;
    }
  }

  /** Reshaping the row-major flattening of an `(h, w)` grid gives back the grid. */
  lemma {:induction false} ReshapeFlatten<T>(g: seq<seq<T>>, h: nat, w: nat)
    requires IsGrid(g, h, w)
    ensures |Flatten(g)| == h * w && Reshape(Flatten(g), h, w) == g
  {
    FlattenLength(g, h, w);
    if h > 0 {
      var v := Flatten(g);
      assert v[..w] == g[0] && v[w..] == Flatten(g[1..]);
      ReshapeFlatten(g[1..], h - 1, w);
    }
  }

  /** Two grids of the same shape are equal exactly when their flattenings are. */
  lemma FlattenInjective<T>(g1: seq<seq<T>>, g2: seq<seq<T>>, h: nat, w: nat)
    requires IsGrid(g1, h, w) && IsGrid(g2, h, w)
    ensures Flatten(g1) == Flatten(g2) <==> g1 == g2
  {
    if Flatten(g1) == Flatten(g2) {
      ReshapeFlatten(g1, h, w);
      ReshapeFlatten(g2, h, w);
    }
  }
}
