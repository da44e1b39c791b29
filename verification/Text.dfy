/** Where a separator stands in a string. */
module Text {

  /** The position of the last c in s, or -1. */
  function LastIndex(s: string, c: char): (k: int)
    ensures -1 <= k < |s|
  {
    if s == "" then -1
    else if s[|s| - 1] == c then |s| - 1
    else LastIndex(s[..|s| - 1], c)
  }

  /** When the text after a separator has none, the separator is the last one. */
  lemma {:induction false} LastIndexIs(a: string, c: char, x: string)
    requires c !in x
    ensures LastIndex(a + [c] + x, c) == |a| && LastIndex(x, c) == -1
    decreases |x|
  {
    if x == "" {
      assert a + [c] + x == a + [c];
    } else {
      var y := x[..|x| - 1];
      LastIndexIs(a, c, y);
      assert x[|x| - 1] in x;
      assert (a + [c] + x)[..|a + [c] + x| - 1] == a + [c] + y;
    }
  }
}
