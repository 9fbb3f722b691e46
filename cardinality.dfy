/** Sizes of images and products of finite sets. */
module Cardinality {

  /** The image of `s` under `f`. */
  function Image<A, B>(s: set<A>, f: A -> B): set<B>
  {
    set x | x in s :: f(x)
  }

  /** The image of `s` under an injective `f` is as large as `s`. */
  lemma {:induction false} InjectiveImage<A, B>(s: set<A>, f: A -> B)
    requires forall x, y | x in s && y in s :: f(x) == f(y) ==> x == y
    ensures |Image(s, f)| == |s|
    decreases |s|
  {
    if s != {} {
      var x :| x in s;
      var rest := s - {x};
      InjectiveImage(rest, f);
      assert Image(s, f) == Image(rest, f) + {f(x)};
      assert f(x) !in Image(rest, f);
    }
  }

  function Product<A, B>(xs: set<A>, ys: set<B>): set<(A, B)>
  {
    set a, b | a in xs && b in ys :: (a, b)
  }

  /** |A × B| = |A| · |B|. */
  lemma {:induction false} ProductSize<A, B>(xs: set<A>, ys: set<B>)
    ensures |Product(xs, ys)| == |xs| * |ys|
    decreases |xs|
  {
    if xs != {} {
      var a :| a in xs;
      var rest := xs - {a};
      ProductSize(rest, ys);
      var pair := (b: B) => (a, b);
      var row := Image(ys, pair);
      InjectiveImage(ys, pair);
      assert Product(xs, ys) == Product(rest, ys) + row;
      assert Product(rest, ys) !! row;
      calc {
        |Product(xs, ys)|;
        |Product(rest, ys)| + |row|;
        |rest| * |ys| + |ys|;
        (|rest| + 1) * |ys|;
      }
    }
  }

  /** A subset is no larger than its superset. */
  lemma {:induction false} SubsetSize<T>(a: set<T>, b: set<T>)
    requires a <= b
    ensures |a| <= |b|
    decreases |b|
  {
    if a != {} {
      var x :| x in a;
      SubsetSize(a - {x}, b - {x});
    }
  }
}
