/** Parts of a sequence, one after the other. */
module Stretches {
  /** The stretch of a sequence that starts at `from` is `part`. */
  ghost predicate At<T>(s: seq<T>, from: nat, part: seq<T>) {
    from + |part| <= |s| && s[from..from + |part|] == part
  }

  lemma AtSplit<T>(s: seq<T>, from: nat, a: seq<T>, b: seq<T>)
    ensures At(s, from, a + b) <==> At(s, from, a) && At(s, from + |a|, b)
  {
    if At(s, from, a + b) {
      assert s[from..from + |a|] == (a + b)[..|a|];
      assert s[from + |a|..from + |a| + |b|] == (a + b)[|a|..];
    }
    if At(s, from, a) && At(s, from + |a|, b) {
      assert s[from..from + |a + b|] == a + b;
    }
  }

  lemma AtOne<T>(s: seq<T>, from: nat, x: T)
    ensures At(s, from, [x]) <==> from < |s| && s[from] == x
  {
    if from < |s| {
      assert s[from..from + 1] == [s[from]];
      assert [s[from]][0] == s[from];
    }
  }

  lemma AtNothing<T>(s: seq<T>, from: nat)
    requires At(s, from, [])
    ensures from <= |s|
  {
  }
}
