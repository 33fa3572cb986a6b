/** Shared vocabulary: bytes, an option type, flattening of sequences and
    the integer ceiling division that stands for the program's
    `int(math.Ceil(float64(a) / float64(b)))`. */
module Base {

  /** Go's `byte`. */
  newtype byte = x: int | 0 <= x < 256

  datatype Option<+T> = None | Some(value: T)

  /** Concatenation of a sequence of sequences, in order. */
  function Flatten<T>(ss: seq<seq<T>>): seq<T>
  {
    if ss == [] then [] else ss[0] + Flatten(ss[1..])
  }

  lemma {:induction false} FlattenAppend<T>(a: seq<seq<T>>, b: seq<seq<T>>)
    ensures Flatten(a + b) == Flatten(a) + Flatten(b)
  {
    if a == [] {
      assert a + b == b;
    } else {
      assert (a + b)[1..] == a[1..] + b;
      FlattenAppend(a[1..], b);
    }
  }

  lemma FlattenSnoc<T>(a: seq<seq<T>>, x: seq<T>)
    ensures Flatten(a + [x]) == Flatten(a) + x
  {
    FlattenAppend(a, [x]);
    assert Flatten([x]) == x + Flatten<T>([]);
  }

  /** q is the ceiling of a / b: the least number whose multiple of b reaches a. */
  ghost predicate IsCeiling(q: nat, a: nat, b: nat)
  {
    q * b >= a && (q == 0 || (q - 1) * b < a)
  }

  /** Integer ceiling division. */
  function CeilDiv(a: nat, b: nat): (q: nat)
    requires b > 0
    ensures IsCeiling(q, a, b)
    ensures q == 0 <==> a == 0
  {
    if a % b == 0 then a / b else a / b + 1
  }

  /** The ceiling is unique: any q with the defining property equals CeilDiv. */
  lemma CeilingUnique(q: nat, a: nat, b: nat)
    requires b > 0 && IsCeiling(q, a, b)
    ensures q == CeilDiv(a, b)
  {
    var c := CeilDiv(a, b);
    if q < c {
      MulMonotone(q, c - 1, b);
    } else if q > c {
      MulMonotone(c, q - 1, b);
    }
  }

  /** The ceiling is the least such number: any q whose multiple of b
      reaches a is at least CeilDiv(a, b). */
  lemma CeilingLeast(q: nat, a: nat, b: nat)
    requires b > 0 && q * b >= a
    ensures CeilDiv(a, b) <= q
  {
    var c := CeilDiv(a, b);
    if c > q {
      MulMonotone(q, c - 1, b);
    }
  }

  lemma MulMonotone(x: nat, y: nat, b: nat)
    requires x <= y
    ensures x * b <= y * b
  {
  }

  /** Monotonicity of multiplication in its left factor, strict form. */
  lemma MulStrict(x: nat, y: nat, b: nat)
    requires x < y && b > 0
    ensures x * b < y * b
  {
  }

  lemma PrefixSnoc<T>(xs: seq<T>, k: nat)
    requires k < |xs|
    ensures xs[..k + 1] == xs[..k] + [xs[k]]
  {
  }

  /** No two entries of a sequence coincide. */
  ghost predicate Distinct<T>(xs: seq<T>)
  {
    forall i, j :: 0 <= i < j < |xs| ==> xs[i] != xs[j]
  }
}
