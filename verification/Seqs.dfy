/** Facts about sequences of anything. */
module Seqs {

  lemma {:induction false} Concat<T>(a: seq<T>, b: seq<T>, c: seq<T>)
    ensures a + b + c == a + (b + c)
  {
  }

  lemma {:induction false} Cons<T>(x: T, t: seq<T>, rest: seq<T>)
    ensures var s := [x] + t + rest; s[0] == x && s[1..] == t + rest
  {
  }

  lemma {:induction false} Drop<T>(x: seq<T>, y: seq<T>)
    ensures (x + y)[|x|..] == y
  {
  }

  lemma {:induction false} Take<T>(x: seq<T>, y: seq<T>)
    ensures (x + y)[..|x|] == x
  {
  }

  lemma {:induction false} SliceOfMiddle<T>(a: seq<T>, m: seq<T>, b: seq<T>)
    ensures (a + m + b)[|a|..|a| + |m|] == m
  {
  }

  lemma {:induction false} TakeThen<T>(s: seq<T>, i: nat, n: nat)
    requires i + n <= |s|
    ensures s[..i] + s[i..][..n] == s[..i + n]
  {
  }

  lemma {:induction false} SliceThen<T>(s: seq<T>, a: nat, b: nat, c: nat)
    requires a <= b <= c <= |s|
    ensures s[a..b] + s[b..c] == s[a..c]
  {
  }

  lemma {:induction false} TakeAll<T>(s: seq<T>)
    ensures s[..|s|] == s
  {
  }

  /** All the sequences end to end. */
  function Flatten<T>(ss: seq<seq<T>>): seq<T> {
    if ss == [] then [] else Flatten(ss[..|ss| - 1]) + ss[|ss| - 1]
  }

  lemma {:induction false} FlattenSnoc<T>(ss: seq<seq<T>>, s: seq<T>)
    ensures Flatten(ss + [s]) == Flatten(ss) + s
  {
    assert (ss + [s])[..|ss|] == ss;
  }

  lemma {:induction false} FlattenAppend<T>(a: seq<seq<T>>, b: seq<seq<T>>)
    ensures Flatten(a + b) == Flatten(a) + Flatten(b)
  {
    if b == [] {
      assert a + b == a;
    } else {
      var b', s := b[..|b| - 1], b[|b| - 1];
      assert a + b == (a + b') + [s];
      FlattenSnoc(a + b', s);
      FlattenAppend(a, b');
      Concat(Flatten(a), Flatten(b'), s);
    }
  }

  lemma {:induction false} FlattenSplit<T>(ss: seq<seq<T>>, k: nat)
    requires k < |ss|
    ensures Flatten(ss) == Flatten(ss[..k]) + ss[k] + Flatten(ss[k + 1..])
    ensures Flatten(ss[..k + 1]) == Flatten(ss[..k]) + ss[k]
  {
    var a, s, b := ss[..k], ss[k], ss[k + 1..];
    SplitAt(ss, k);
    FlattenSnoc(a, s);
    FlattenAppend(a + [s], b);
  }

  lemma {:induction false} SplitAt<T>(s: seq<T>, k: nat)
    requires k < |s|
    ensures s[..k + 1] == s[..k] + [s[k]] && s == s[..k] + [s[k]] + s[k + 1..]
  {
  }
}
