/** Concatenation of a list of sequences, and what the two lexers give. */
module Sequences {

  function Flatten<T>(xs: seq<seq<T>>): seq<T> {
    if xs == [] then [] else xs[0] + Flatten(xs[1..])
  }

  lemma {:induction false} FlattenConcat<T>(a: seq<seq<T>>, b: seq<seq<T>>)
    ensures Flatten(a + b) == Flatten(a) + Flatten(b)
  {
    if a == [] {
      assert a + b == b;
    } else {
      assert (a + b)[1..] == a[1..] + b;
      FlattenConcat(a[1..], b);
    }
  }

  lemma FlattenSnoc<T>(a: seq<seq<T>>, x: seq<T>)
    ensures Flatten(a + [x]) == Flatten(a) + x
  {
    FlattenConcat(a, [x]);
    FlattenOne(x);
  }

  lemma FlattenOne<T>(x: seq<T>)
    ensures Flatten([x]) == x
  {
    assert [x][1..] == [] && x + [] == x;
  }

  /** Cutting a list after its head. */
  lemma FlattenCut<T>(x: seq<T>, t: seq<seq<T>>, k: nat)
    requires 0 < k <= |t| + 1
    ensures Flatten(([x] + t)[..k]) == x + Flatten(t[..k - 1]) && ([x] + t)[k..] == t[k - 1..]
  {
    assert ([x] + t)[..k] == [x] + t[..k - 1];
    FlattenOne(x);
    FlattenConcat([x], t[..k - 1]);
  }

  lemma SliceFrom<T>(s: seq<T>, n: nat, m: nat)
    requires n + m <= |s|
    ensures s[n..][m..] == s[n + m..]
  {
  }
}

/** What a resumable lexer gives: its tokens, and whether they are all or an error follows them. */
module TokenStreams {

  datatype Stream<+T> = Stream(tokens: seq<T>, ok: bool)
}
