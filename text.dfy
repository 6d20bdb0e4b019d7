/** Small facts about strings (sequences of characters) shared by the other modules. */
module Text {

  datatype Option<T> = None | Some(value: T)

  /** Number of occurrences of `c` in `s`. */
  function Count(c: char, s: string): (n: nat)
    ensures n <= |s|
    ensures n == 0 <==> c !in s
  {
    if s == [] then 0 else (if s[0] == c then 1 else 0) + Count(c, s[1..])
  }

  lemma {:induction false} CountAppend(c: char, a: string, b: string)
    ensures Count(c, a + b) == Count(c, a) + Count(c, b)
  {
    if a == [] {
      assert a + b == b;
    } else {
      assert (a + b)[1..] == a[1..] + b;
      CountAppend(c, a[1..], b);
    }
  }

  /** Index of the first `c` in `s`, or `|s|` when `s` holds none. */
  function FindChar(s: string, c: char): (k: nat)
    ensures k <= |s|
    ensures c !in s[..k]
    ensures k < |s| ==> s[k] == c
    ensures k == |s| <==> c !in s
  {
    if s == [] then 0
    else if s[0] == c then 0
    else
      assert s[..1 + FindChar(s[1..], c)] == [s[0]] + s[1..][..FindChar(s[1..], c)];
      1 + FindChar(s[1..], c)
  }

  /** The first `c` is found wherever it is. */
  lemma {:induction false} FindCharAt(s: string, c: char, k: nat)
    requires k < |s| && s[k] == c && c !in s[..k]
    ensures FindChar(s, c) == k
  {
    if k > 0 {
      assert s[0] == s[..k][0];
      assert s[1..][..k - 1] == s[1..k];
      FindCharAt(s[1..], c, k - 1);
    }
  }

  /** `e` occurs in `t` starting at index `i`. */
  predicate OccursAt(t: string, i: int, e: string)
  {
    0 <= i && i + |e| <= |t| && t[i..i + |e|] == e
  }

  lemma OccursInAppend(a: string, b: string, i: int, e: string)
    ensures OccursAt(a, i, e) ==> OccursAt(a + b, i, e)
    ensures OccursAt(b, i, e) ==> OccursAt(a + b, |a| + i, e)
  {
    if OccursAt(a, i, e) {
      assert (a + b)[i..i + |e|] == a[i..i + |e|];
    }
    if OccursAt(b, i, e) {
      assert (a + b)[|a| + i..|a| + i + |e|] == b[i..i + |e|];
    }
  }

  lemma OccursInSuffix(t: string, k: nat, i: nat, e: string)
    requires k <= |t|
    ensures OccursAt(t, k + i, e) ==> OccursAt(t[k..], i, e)
  {
    if OccursAt(t, k + i, e) {
      assert t[k..][i..i + |e|] == t[k + i..k + i + |e|];
    }
  }
}
