/** Facts about sequences that the solver uses best one at a time. */
module Sequences {

  lemma Associative<T>(x: seq<T>, y: seq<T>, z: seq<T>)
    ensures x + y + z == x + (y + z)
  {
  }

  /** The same for four and for six parts. */
  lemma Regroup<T>(a: seq<T>, b: seq<T>, c: seq<T>, d: seq<T>)
    ensures a + b + c + d == a + (b + (c + d))
    ensures a + b + c + d == a + (b + c + d)
  {
    Associative(a + b, c, d);
    Associative(a, b, c + d);
    Associative(b, c, d);
  }

  lemma RegroupSix<T>(a: seq<T>, b: seq<T>, c: seq<T>, d: seq<T>, e: seq<T>, f: seq<T>)
    ensures a + b + c + d + e + f == a + (b + (c + (d + (e + f))))
  {
    Regroup(a + b + c, d, e, f);
    Regroup(a, b, c, d + (e + f));
  }

  lemma EmptyLeft<T>(x: seq<T>)
    ensures [] + x == x
  {
  }

  lemma EmptyRight<T>(x: seq<T>)
    ensures x + [] == x
  {
  }

  lemma TakeAll<T>(x: seq<T>)
    ensures x[..|x|] == x
  {
  }

  lemma TakeOneMore<T>(x: seq<T>, i: nat)
    requires i < |x|
    ensures x[..i + 1] == x[..i] + [x[i]]
  {
  }

  /** Splitting a concatenation where it was joined. */
  lemma Split<T>(x: seq<T>, y: seq<T>)
    ensures (x + y)[..|x|] == x && (x + y)[|x|..] == y
  {
  }

  /** Two sequences with a first element are equal when their parts are. */
  lemma SameParts<T>(a: T, x: seq<T>, b: T, y: seq<T>)
    ensures [a] + x == [b] + y <==> a == b && x == y
  {
    assert ([a] + x)[0] == a && ([a] + x)[1..] == x;
    assert ([b] + y)[0] == b && ([b] + y)[1..] == y;
  }
}
