/** Types shared by the models. */
module Common {
  datatype Option<+T> = None | Some(value: T)

  /** Python's `int(x)`: rounds towards zero. */
  function Truncate(x: real): int {
    if x >= 0.0 then x.Floor else -((-x).Floor)
  }

  function Max(a: int, b: int): int {
    if a >= b then a else b
  }

  function MinReal(a: real, b: real): real {
    if b < a then b else a
  }

  // ---------------------------------------------------------------------------------------
  // Sets
  // ---------------------------------------------------------------------------------------

  lemma SubsetSize<T>(a: set<T>, b: set<T>)
    requires a <= b
    ensures |a| <= |b|
  {
    assert b == a + (b - a);
  }

  /** A non-empty set has an element with the greatest rank. */
  lemma {:induction false} Greatest<T>(s: set<T>, rank: T -> int) returns (m: T)
    requires s != {}
    ensures m in s && forall x :: x in s ==> rank(x) <= rank(m)
    decreases |s|
  {
    m :| m in s;
    if s != {m} {
      var rest := s - {m};
      assert s == rest + {m};
      var n := Greatest(rest, rank);
      if rank(n) > rank(m) {
        m := n;
      }
    }
  }

  // ---------------------------------------------------------------------------------------
  // Strings
  // ---------------------------------------------------------------------------------------

  function LowerChar(c: char): char {
    if 'A' <= c <= 'Z' then (c as int + 32) as char else c
  }

  /** `str.lower()` on ASCII letters. */
  function Lower(s: string): string {
    seq(|s|, i requires 0 <= i < |s| => LowerChar(s[i]))
  }

  predicate EndsWith(s: string, suffix: string) {
    |suffix| <= |s| && s[|s| - |suffix|..] == suffix
  }

  /** `separator.join(parts)` */
  function Join(parts: seq<string>, separator: string): string
    requires |parts| > 0
  {
    if |parts| == 1 then parts[0] else parts[0] + separator + Join(parts[1..], separator)
  }
}
