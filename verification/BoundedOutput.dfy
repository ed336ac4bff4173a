/** Bounded stdout capture: `SizeLimitedStringIO` in sandbox/app/executor.py. */
module BoundedOutput {

  const TRUNCATION_MARKER: string := "\n... [OUTPUT TRUNCATED - exceeded 1MB limit] ..."

  datatype Output = Output(buffer: string, truncated: bool)

  /** Effect of one `write` and the count it returns. */
  function WriteStep(o: Output, maxSize: int, s: string): (Output, int) {
    var remaining := maxSize - |o.buffer|;
    if o.truncated then (o, 0)
    else if remaining <= 0 then (Output(o.buffer + TRUNCATION_MARKER, true), 0)
    else if |s| > remaining then (Output(o.buffer + s[..remaining] + TRUNCATION_MARKER, true), remaining)
    else (Output(o.buffer + s, false), |s|)
  }

  /** A fresh buffer after a sequence of writes, and the sum of the returned counts. */
  function WriteAll(maxSize: int, writes: seq<string>): (Output, int) {
    if writes == [] then (Output("", false), 0)
    else
      var (o, sum) := WriteAll(maxSize, writes[..|writes| - 1]);
      var (o', n) := WriteStep(o, maxSize, writes[|writes| - 1]);
      (o', sum + n)
  }

  class SizeLimitedStringIO {
    const maxSize: int
    var buffer: string
    var truncated: bool
    ghost var writes: seq<string>

    ghost predicate Valid()
      reads this
    {
      WriteAll(maxSize, writes).0 == Output(buffer, truncated)
    }

    constructor (maxSize: int)
      ensures Valid() && this.maxSize == maxSize && writes == []
    {
      this.maxSize := maxSize;
      buffer, truncated, writes := "", false, [];
    }

    method Write(s: string) returns (written: int)
      requires Valid()
      modifies this
      ensures Valid() && writes == old(writes) + [s]
      ensures (Output(buffer, truncated), written)
           == WriteStep(Output(old(buffer), old(truncated)), maxSize, s)
    {
      assert (writes + [s])[..|writes + [s]| - 1] == writes;
      writes := writes + [s];
      if truncated {
        return 0;
      }
      var remaining := maxSize - |buffer|;
      if remaining <= 0 {
        truncated := true;
        buffer := buffer + TRUNCATION_MARKER;
        return 0;
      }
      if |s| > remaining {
        buffer := buffer + s[..remaining];
        truncated := true;
        buffer := buffer + TRUNCATION_MARKER;
        return remaining;
      }
      buffer := buffer + s;
      return |s|;
    }
  }

  // ---------------------------------------------------------------------------------------
  // What the buffer holds after any sequence of writes
  // ---------------------------------------------------------------------------------------

  function Concat(writes: seq<string>): string {
    if writes == [] then "" else Concat(writes[..|writes| - 1]) + writes[|writes| - 1]
  }

  function Limit(maxSize: int): nat {
    if maxSize < 0 then 0 else maxSize
  }

  /** The `i`-th write finds the buffer full. */
  ghost predicate FullAt(maxSize: int, writes: seq<string>, i: nat)
    requires i < |writes|
  {
    |Concat(writes[..i])| >= Limit(maxSize)
  }

  /** More was written than fits, or some write found the buffer already full. */
  ghost predicate Overflows(maxSize: int, writes: seq<string>) {
    || |Concat(writes)| > Limit(maxSize)
    || exists i :: 0 <= i < |writes| && FullAt(maxSize, writes, i)
  }

  lemma {:induction false} ConcatGrows(writes: seq<string>, i: nat)
    requires i <= |writes|
    ensures Concat(writes[..i]) <= Concat(writes)
  {
    if i == |writes| {
      assert writes[..i] == writes;
    } else {
      ConcatGrows(writes[..|writes| - 1], i);
      assert writes[..|writes| - 1][..i] == writes[..i];
    }
  }

  lemma FullAtPrefix(maxSize: int, writes: seq<string>, n: nat, i: nat)
    requires i < n <= |writes|
    ensures FullAt(maxSize, writes[..n], i) == FullAt(maxSize, writes, i)
  {
    assert writes[..n][..i] == writes[..i];
  }

  lemma OverflowsStep(maxSize: int, writes: seq<string>, n: nat)
    requires |writes| == n + 1
    ensures Overflows(maxSize, writes)
       <==> || Overflows(maxSize, writes[..n])
            || |Concat(writes[..n])| >= Limit(maxSize)
            || |Concat(writes)| > Limit(maxSize)
  {
    if i: nat :| i < n && FullAt(maxSize, writes[..n], i) {
      FullAtPrefix(maxSize, writes, n, i);
    }
    if i: nat :| i < n && FullAt(maxSize, writes, i) {
      FullAtPrefix(maxSize, writes, n, i);
    }
    assert FullAt(maxSize, writes, n) == (|Concat(writes[..n])| >= Limit(maxSize));
  }

  /** The buffer is all of `total` or, if that overflowed, its first `maxSize` characters and exactly
      one marker; the returned counts add up to the characters kept. */
  ghost predicate IsPrefix(o: Output, sum: int, total: string, maxSize: int, overflown: bool) {
    var limit := Limit(maxSize);
    && o.truncated == overflown
    && (!o.truncated ==> o.buffer == total && |total| <= limit)
    && (o.truncated ==> |total| >= limit && o.buffer == total[..limit] + TRUNCATION_MARKER)
    && sum == if |total| <= limit then |total| else limit
  }

  lemma WriteKeepsPrefix(o: Output, sum: int, total: string, maxSize: int, overflown: bool, s: string)
    requires IsPrefix(o, sum, total, maxSize, overflown)
    ensures var (o', n) := WriteStep(o, maxSize, s);
            var limit := Limit(maxSize);
            IsPrefix(o', sum + n, total + s, maxSize, overflown || |total| >= limit || |total + s| > limit)
  {
    var limit := Limit(maxSize);
    if |total| >= limit {
      assert (total + s)[..limit] == total[..limit];
    } else if |total + s| > limit {
      assert (total + s)[..limit] == total + s[..limit - |total|];
    }
  }

  /** After any sequence of writes; it overflowed if too much was written or a write found the buffer
      full. */
  lemma {:induction false} BufferIsPrefix(maxSize: int, writes: seq<string>)
    ensures var (o, sum) := WriteAll(maxSize, writes);
            IsPrefix(o, sum, Concat(writes), maxSize, Overflows(maxSize, writes))
  {
    if writes != [] {
      var n := |writes| - 1;
      var before, s := writes[..n], writes[n];
      BufferIsPrefix(maxSize, before);
      OverflowsStep(maxSize, writes, n);
      var (o, sum) := WriteAll(maxSize, before);
      WriteKeepsPrefix(o, sum, Concat(before), maxSize, Overflows(maxSize, before), s);
    }
  }

  /** With writes of at least one character the buffer is truncated exactly when too much was
      written; an empty write to a full buffer is what makes the difference. */
  lemma TruncatedIffTooLong(maxSize: int, writes: seq<string>)
    requires maxSize >= 0 && forall w :: w in writes ==> w != ""
    ensures WriteAll(maxSize, writes).0.truncated <==> |Concat(writes)| > maxSize
  {
    BufferIsPrefix(maxSize, writes);
    if i :| 0 <= i < |writes| && FullAt(maxSize, writes, i) {
      ConcatGrows(writes, i + 1);
      assert writes[..i + 1][..i] == writes[..i] && writes[i] in writes;
    }
  }

  /** The corner case: nothing was lost, yet the output is marked as truncated. */
  lemma EmptyWriteToFullBufferTruncates(s: string, writes: seq<string>)
    requires writes == [s] + [""]
    ensures WriteAll(|s|, writes).0 == Output(s + TRUNCATION_MARKER, true)
  {
    var before := writes[..1];
    assert before == [s];
    assert WriteAll(|s|, before[..0]) == (Output("", false), 0);
    assert WriteAll(|s|, before) == WriteStep(Output("", false), |s|, s);
  }
}
